/** TCP connections with a buffer in each direction. */
module Connections {
  import opened Octets
  import opened Options

  const CAPACITY: nat := 8192

  function Joined(fragments: seq<seq<Octet>>): seq<Octet>
  {
    if fragments == [] then [] else fragments[0] + Joined(fragments[1..])
  }

  lemma TakenNext(p: seq<Octet>, k: nat, size: nat)
    requires k + size <= |p|
    ensures p[..k + size] == p[..k] + p[k..][..size] && p[k + size..] == p[k..][size..]
  {
  }

  /**
   * The operating system's end. incoming is what recv will deliver, call by call, and ending how it
   * goes on after that: with orderly shutdown if it is 0, else with that error. Sending succeeds or
   * fails as sendErrors says, call by call, and succeeds after that.
   */
  class Socket {
    var incoming: seq<seq<Octet>>
    const ending: nat
    var sent: seq<Octet>
    var sendErrors: seq<nat>

    ghost predicate Valid()
      reads this`incoming
    {
      forall i :: 0 <= i < |incoming| ==> 0 < |incoming[i]| <= CAPACITY
    }

    constructor (incoming: seq<seq<Octet>>, ending: nat, sendErrors: seq<nat>)
      requires forall i :: 0 <= i < |incoming| ==> 0 < |incoming[i]| <= CAPACITY
      ensures Valid() && this.incoming == incoming && this.ending == ending && sent == [] && this.sendErrors == sendErrors
    {
      this.incoming, this.ending, this.sent, this.sendErrors := incoming, ending, [], sendErrors;
    }

    method Recv(buffer: array<Octet>) returns (n: int, error: nat)
      requires Valid() && buffer.Length == CAPACITY
      modifies this`incoming, buffer
      ensures Valid()
      ensures var before := old(incoming);
              if before == [] then incoming == before && error == ending && n == (if ending == 0 then 0 else -1)
              else incoming == before[1..] && error == 0 && n == |before[0]| && buffer[..n] == before[0]
      ensures n <= 0 ==> buffer[..] == old(buffer[..])
    {
      if incoming == [] {
        return if ending == 0 then 0 else -1, ending;
      }
      var fragment := incoming[0];
      incoming := incoming[1..];
      forall i | 0 <= i < |fragment| {
        buffer[i] := fragment[i];
      }
      n, error := |fragment|, 0;
    }

    method Send(bytes: seq<Octet>) returns (n: int, error: nat)
      modifies this`sent, this`sendErrors
      ensures n == -1 <==> error != 0
      ensures sent == if error == 0 then old(sent) + bytes else old(sent)
      ensures error == if old(sendErrors) == [] then 0 else old(sendErrors)[0]
      ensures sendErrors == if old(sendErrors) == [] then [] else old(sendErrors)[1..]
    {
      error := 0;
      if sendErrors != [] {
        error, sendErrors := sendErrors[0], sendErrors[1..];
      }
      if error != 0 {
        return -1, error;
      }
      sent, n := sent + bytes, |bytes|;
    }
  }

  class HTTPConnection {
    const s: Socket
    const inputBuffer: array<Octet>
    var inputOffset: nat
    var inputLength: nat
    const outputBuffer: array<Octet>
    var outputLength: nat

    ghost predicate Valid()
      reads this, s
    {
      && s.Valid() && inputBuffer != outputBuffer
      && inputBuffer.Length == CAPACITY && outputBuffer.Length == CAPACITY
      && inputOffset <= inputLength <= CAPACITY && outputLength <= CAPACITY
    }

    /** The octets still to be read, whether they have arrived or not. */
    ghost function Input(): seq<Octet>
      requires Valid()
      reads this, inputBuffer, s
    {
      inputBuffer[inputOffset..inputLength] + Joined(s.incoming)
    }

    /** The octets written, whether they have been sent or not. */
    ghost function Output(): seq<Octet>
      requires Valid()
      reads this, outputBuffer, s
    {
      s.sent + outputBuffer[..outputLength]
    }

    constructor (s: Socket)
      requires s.Valid()
      ensures Valid() && this.s == s && fresh(inputBuffer) && fresh(outputBuffer)
      ensures Input() == Joined(s.incoming) && Output() == s.sent
    {
      this.s := s;
      inputOffset, inputLength, outputLength := 0, 0, 0;
      inputBuffer := new Octet[CAPACITY];
      outputBuffer := new Octet[CAPACITY];
    }

    /** The buffer is empty, and is filled again. */
    method Refill() returns (n: int, error: nat)
      requires Valid() && inputOffset >= inputLength
      modifies this`inputOffset, this`inputLength, inputBuffer, s`incoming
      ensures Valid() && Output() == old(Output()) && Input() == old(Input())
      ensures if Input() == [] then error == s.ending && n == if error == 0 then 0 else -1
              else n > 0 && inputOffset < inputLength
    {
      assert Input() == Joined(s.incoming);
      n, error := s.Recv(inputBuffer);
      if n > 0 {
        inputOffset, inputLength := 0, n;
        assert inputBuffer[0..n] == inputBuffer[..n];
      }
    }

    /** octet is -1 after an orderly shutdown. */
    method ReadOctet() returns (result: nat, octet: int)
      requires Valid()
      modifies this`inputOffset, this`inputLength, inputBuffer, s`incoming
      ensures Valid() && Output() == old(Output())
      ensures var input := old(Input());
              if input == [] then Input() == [] && result == s.ending && octet == -1
              else result == 0 && input == [octet] + Input() && inputOffset > 0 && inputBuffer[inputOffset - 1] == octet
    {
      if inputOffset >= inputLength {
        var n, error := Refill();
        if n == -1 {
          return error, -1;
        } else if n == 0 {
          return 0, -1;
        }
      }
      octet := Take();
      result := 0;
    }

    method Take() returns (octet: Octet)
      requires Valid() && inputOffset < inputLength
      modifies this`inputOffset
      ensures Valid() && Output() == old(Output())
      ensures old(Input()) == [octet] + Input() && inputOffset > 0 && inputBuffer[inputOffset - 1] == octet
    {
      octet := inputBuffer[inputOffset];
      assert inputBuffer[inputOffset..inputLength] == [octet] + inputBuffer[inputOffset + 1..inputLength];
      inputOffset := inputOffset + 1;
    }

    method PeekOctet() returns (result: nat, octet: int)
      requires Valid()
      modifies this`inputOffset, this`inputLength, inputBuffer, s`incoming
      ensures Valid() && Output() == old(Output()) && Input() == old(Input())
      ensures if Input() == [] then result == s.ending && octet == -1
              else result == 0 && octet == Input()[0]
    {
      result, octet := ReadOctet();
      if result != 0 || octet == -1 {
        return;
      }
      PutBack();
    }

    /** input_buffer_offset-- */
    method PutBack()
      requires Valid() && inputOffset > 0
      modifies this`inputOffset
      ensures Valid() && Output() == old(Output()) && inputOffset == old(inputOffset) - 1
      ensures Input() == [inputBuffer[inputOffset]] + old(Input())
    {
      inputOffset := inputOffset - 1;
      assert inputBuffer[inputOffset..inputLength] == [inputBuffer[inputOffset]] + inputBuffer[inputOffset + 1..inputLength];
    }

    /** The octets are written in order; if sending fails, the first k of them have been taken. */
    method Write(p: seq<Octet>) returns (result: nat, ghost k: nat)
      requires Valid()
      modifies this`outputLength, outputBuffer, s`sent, s`sendErrors
      ensures Valid() && Input() == old(Input())
      ensures k <= |p| && Output() == old(Output()) + p[..k] && (result == 0 ==> k == |p|)
    {
      var rest := p;
      k := 0;
      while |rest| > 0
        invariant Valid() && Input() == old(Input())
        invariant k <= |p| && rest == p[k..] && Output() == old(Output()) + p[..k]
        decreases |rest|, outputLength
      {
        if outputLength == CAPACITY {
          var n, error := s.Send(outputBuffer[..CAPACITY]);
          if n == -1 {
            return error, k;
          }
          outputLength := 0;
          assert Output() == old(Output()) + p[..k];
        }
        var room := CAPACITY - outputLength;
        var size := if |rest| <= room then |rest| else room;
        Append(rest[..size]);
        TakenNext(p, k, size);
        k := k + size;
        rest := rest[size..];
      }
      result := 0;
    }

    /** memcpy to the end of the output buffer. */
    method Append(bytes: seq<Octet>)
      requires Valid() && outputLength + |bytes| <= CAPACITY
      modifies this`outputLength, outputBuffer
      ensures Valid() && Input() == old(Input())
      ensures Output() == old(Output()) + bytes && outputLength == old(outputLength) + |bytes|
    {
      forall i | 0 <= i < |bytes| {
        outputBuffer[outputLength + i] := bytes[i];
      }
      assert outputBuffer[..outputLength + |bytes|] == old(outputBuffer[..outputLength]) + bytes;
      outputLength := outputLength + |bytes|;
    }

    method Flush() returns (result: nat)
      requires Valid()
      modifies this`outputLength, s`sent, s`sendErrors
      ensures Valid() && Input() == old(Input())
      ensures Output() == old(Output()) && (result == 0 ==> s.sent == Output())
    {
      if outputLength > 0 {
        var n, error := s.Send(outputBuffer[..outputLength]);
        if n == -1 {
          return error;
        }
        outputLength := 0;
      }
      result := 0;
    }
  }
}
