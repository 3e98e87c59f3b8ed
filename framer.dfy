/** `decodeNMEAInput`: the byte-at-a-time framing state machine that collects
    a sentence in `nmeaBuffer` and hands it to the parser when CR or LF
    arrives. */
module Framer {
  import opened Text
  import opened Fields
  import opened Record
  import opened Stack
  import opened Parser
  import opened ParserFacts

  /** `NMEAReceiveStatus`; `StatusValid` is the source's `VALID`. It and `NmeaReady` are
      declared but never entered. */
  datatype ReceiveStatus = Invalid | StatusValid | Receiving | Checksumming | Terminating | NmeaReady

  /** The buffer after the terminating branch's clearing loop: every slot
      after `index` set to '\0', the slot at `index` itself left alone. */
  function Cleared(buf: seq<char>, index: nat): (r: seq<char>)
    requires index < |buf|
    ensures |r| == |buf| && r[..index + 1] == buf[..index + 1]
    ensures forall j :: index < j < |r| ==> r[j] == '\0'
  {
    buf[..index + 1] + seq(|buf| - index - 1, _ => '\0')
  }

  /** The string the parser receives: the cleared buffer read up to its first NUL. */
  function Handed(buf: seq<char>, index: nat): string
    requires index < |buf| && (index + 1 < |buf| || buf[index] == '\0')
  {
    var r := Cleared(buf, index);
    assert r[if index + 1 < |buf| then |buf| - 1 else index] == '\0';
    CString(r)
  }

  /** The parser receives the accumulated bytes, plus the byte left at
      `index` when that slot is not '\0': a byte of an abandoned sentence
      leaks into the next one. */
  lemma HandedIs(buf: seq<char>, index: nat)
    requires index < |buf| && (index + 1 < |buf| || buf[index] == '\0')
    requires '\0' !in buf[..index]
    ensures Handed(buf, index) == if buf[index] == '\0' then buf[..index] else buf[..index + 1]
  {
    var r := Cleared(buf, index);
    var h := Handed(buf, index);
    assert h == r[..|h|] && r[|h|] == '\0' && '\0' !in h;
    assert forall j :: 0 <= j < |h| ==> r[j] == h[j] && r[j] != '\0';
    assert forall j :: 0 <= j < index ==> r[j] == buf[..index][j] && r[j] != '\0';
    assert |h| >= index;
    if buf[index] == '\0' {
      assert r[index] == '\0';
      assert |h| == index;
      assert h == buf[..index];
    } else {
      assert r[index] != '\0' && r[index + 1] == '\0';
      assert |h| == index + 1;
      assert h == buf[..index + 1];
    }
  }

  /** A cleared buffer whose first slot holds a start character gives the
      parser a sentence it accepts. */
  lemma HandedAccepted(buf: seq<char>, index: nat)
    requires index < |buf| && (index + 1 < |buf| || buf[index] == '\0')
    requires IsStart(buf[0])
    ensures Accepts(Handed(buf, index))
  {
    var r := Cleared(buf, index);
    var h := Handed(buf, index);
    assert r[0] == buf[0];
    assert |h| > 0 && h[0] == r[0];
  }

  /** The buffer while a sentence is collected: the start character in slot
      0, then `index - 1` bytes that are neither start characters nor CR or
      LF, among which a '*' exactly when the checksum has begun. */
  ghost predicate Collected(checksumming: bool, index: nat, buf: seq<char>)
  {
    1 <= index <= |buf| && IsStart(buf[0]) &&
    (forall j :: 1 <= j < index ==> !IsStart(buf[j]) && buf[j] != '\r' && buf[j] != '\n') &&
    (checksumming <==> '*' in buf[1..index])
  }

  /** A start character opens a fresh sentence in slot 0. */
  lemma CollectedStart(buf: seq<char>, c: char)
    requires |buf| > 0 && IsStart(c)
    ensures Collected(false, 1, buf[0 := c])
  {
    assert buf[0 := c][1..1] == [];
  }

  /** Appending a byte keeps the shape; a '*' marks the checksum begun. */
  lemma CollectedStore(checksumming: bool, index: nat, buf: seq<char>, c: char)
    requires Collected(checksumming, index, buf) && index < |buf|
    requires !IsStart(c) && c != '\r' && c != '\n'
    ensures Collected(checksumming || c == '*', index + 1, buf[index := c])
  {
    var b := buf[index := c];
    assert b[1..index + 1] == buf[1..index] + [c];
  }

  class NmeaFramer {
    /** `nmeaBuffer`: 82 characters and a terminating NUL. */
    const buffer: array<char>
    const parser: NmeaParser
    /** `nmeaStatus`, `nmeaIndex`, `nmeaDataReady`. */
    var status: ReceiveStatus
    var index: nat
    var dataReady: bool

    /** A sentence is being collected. */
    predicate Accumulating()
      reads this
    {
      status == Receiving || status == Checksumming
    }

    /** Between calls the status is never `Terminating` and the ready flag is
        clear; while collecting, slot 0 holds the start character, no later
        slot holds a start character, CR or LF, and the status records
        whether a '*' has been stored; while idle, the buffer is zero. */
    ghost predicate Valid()
      reads this, buffer, parser, parser.ptrStack
    {
      buffer.Length == NmeaBufferSize + 1 && parser.Valid() &&
      (status == Invalid || Accumulating()) && !dataReady &&
      index <= NmeaBufferSize && buffer[NmeaBufferSize] == '\0' &&
      (status == Invalid ==> index == 0 && forall j :: 0 <= j < buffer.Length ==> buffer[j] == '\0') &&
      (Accumulating() ==> Collected(status == Checksumming, index, buffer[..]))
    }

    /** No slot from `index` on holds a byte: nothing of an abandoned sentence is left. */
    ghost predicate Clean()
      reads this, buffer
    {
      forall j :: index <= j < buffer.Length ==> buffer[j] == '\0'
    }

    /** What a CR or LF arriving now would hand to the parser. */
    ghost function Pending(): (r: string)
      requires Valid()
      reads this, buffer, parser, parser.ptrStack
      ensures Accumulating() ==> Accepts(r)
    {
      if Accumulating() then HandedAccepted(buffer[..], index); Handed(buffer[..], index)
      else Handed(buffer[..], index)
    }

    /** The globals' initial values: idle, index 0, flag clear, buffer zero. */
    constructor (p: NmeaParser)
      requires p.Valid()
      ensures Valid() && Clean() && parser == p && fresh(buffer)
      ensures status == Invalid && index == 0 && !dataReady
    {
      buffer := new char[NmeaBufferSize + 1](_ => '\0');
      parser := p;
      status := Invalid;
      index := 0;
      dataReady := false;
    }

    /** The `TERMINATING` branch once the flag is seen: clear the buffer after
        `index`, parse it, zero it (`memset`) and reset the index. */
    method Terminate()
      requires buffer.Length == NmeaBufferSize + 1 && parser.Valid()
      requires index <= NmeaBufferSize && buffer[NmeaBufferSize] == '\0'
      requires Accepts(Handed(buffer[..], index)) && FieldsFit(Handed(buffer[..], index))
      modifies this, buffer, parser, parser.ptrStack, parser.ptrStack.stack
      ensures parser.Valid() && index == 0 && status == old(status) && dataReady == old(dataReady)
      ensures forall j :: 0 <= j < buffer.Length ==> buffer[j] == '\0'
      ensures parser.nmeaData == Parsed(old(Handed(buffer[..], index)), parser.metres, parser.battery)
      ensures parser.counter == if old(parser.counter) + 1 == CounterWrap then 0 else old(parser.counter) + 1
      ensures parser.ptrStack.Contents() == Pushed(old(parser.ptrStack.Contents()), parser.nmeaData)
    {
      ghost var handed := Handed(buffer[..], index);
      ghost var before := parser.ptrStack.Contents();
      ClearTail();
      assert parser.ptrStack.Contents() == before && CString(buffer[..]) == handed;
      parser.ParseSentence(CString(buffer[..]));
      ghost var data, count, after := parser.nmeaData, parser.counter, parser.ptrStack.Contents();
      ZeroBuffer();
      assert parser.nmeaData == data && parser.counter == count && parser.ptrStack.Contents() == after;
      index := 0;
    }

    /** The clearing loop: every slot after `index` set to '\0'. */
    method ClearTail()
      requires buffer.Length == NmeaBufferSize + 1 && index <= NmeaBufferSize
      modifies buffer
      ensures buffer[..] == Cleared(old(buffer[..]), index)
    {
      for y := index + 1 to NmeaBufferSize + 1
        invariant forall j :: 0 <= j < buffer.Length ==>
                    buffer[j] == if index < j < y then '\0' else old(buffer[j])
      {
        buffer[y] := '\0';
      }
      assert buffer[..] == Cleared(old(buffer[..]), index);
    }

    /** `memset(nmeaBuffer, 0, NMEA_BUFFER_SIZE + 1)`. */
    method ZeroBuffer()
      modifies buffer
      ensures forall j :: 0 <= j < buffer.Length ==> buffer[j] == '\0'
    {
      forall k | 0 <= k < buffer.Length {
        buffer[k] := '\0';
      }
    }

    /** `decodeNMEAInput(c)`: a start character (re)starts a sentence at
        slot 0; '*' moves a sentence into its checksum; CR or LF hands a
        collected sentence to the parser, or is ignored when idle; any
        other byte is appended while collecting and ignored while idle. */
    method Decode(c: char)
      requires Valid()
      requires Accumulating() && !IsStart(c) && c != '\r' && c != '\n' ==> index < NmeaBufferSize
      requires Accumulating() && (c == '\r' || c == '\n') ==> FieldsFit(Pending())
      modifies this, buffer, parser, parser.ptrStack, parser.ptrStack.stack
      ensures Valid()
      ensures IsStart(c) ==>
                status == Receiving && index == 1 && buffer[..] == old(buffer[..])[0 := c] &&
                unchanged(parser, parser.ptrStack, parser.ptrStack.stack)
      ensures !IsStart(c) && c != '\r' && c != '\n' && old(Accumulating()) ==>
                status == (if c == '*' then Checksumming else old(status)) &&
                index == old(index) + 1 && buffer[..] == old(buffer[..])[old(index) := c] &&
                unchanged(parser, parser.ptrStack, parser.ptrStack.stack)
      ensures !IsStart(c) && !old(Accumulating()) ==>
                status == Invalid && index == 0 && unchanged(buffer) &&
                unchanged(parser, parser.ptrStack, parser.ptrStack.stack)
      ensures (c == '\r' || c == '\n') && old(Accumulating()) ==>
                status == Invalid && index == 0 &&
                (forall j :: 0 <= j < buffer.Length ==> buffer[j] == '\0') &&
                parser.nmeaData == Parsed(old(Pending()), parser.metres, parser.battery) &&
                parser.counter == (if old(parser.counter) + 1 == CounterWrap then 0 else old(parser.counter) + 1) &&
                parser.ptrStack.Contents() == Pushed(old(parser.ptrStack.Contents()), parser.nmeaData)
      ensures old(Clean()) && !(IsStart(c) && old(Accumulating())) ==> Clean()
    {
      ghost var wasChecksumming := status == Checksumming;
      Classify(c);
      Dispatch(c, wasChecksumming);
    }

    /** The first `switch` of `decodeNMEAInput`: what the byte does to the status. */
    method Classify(c: char)
      modifies this
      ensures IsStart(c) ==> status == Receiving && index == 0 && dataReady == old(dataReady)
      ensures c == '*' ==>
                status == (if old(status) == Receiving then Checksumming else old(status)) &&
                index == old(index) && dataReady == old(dataReady)
      ensures c == '\r' || c == '\n' ==>
                index == old(index) &&
                if old(Accumulating()) then status == Terminating && dataReady
                else status == Invalid && dataReady == old(dataReady)
      ensures !IsStart(c) && c != '*' && c != '\r' && c != '\n' ==> unchanged(this)
    {
      if c == '~' || c == '!' || c == '$' {
        status := Receiving;
        index := 0;
      } else if c == '*' {
        if status == Receiving {
          status := Checksumming;
        }
      } else if c == '\n' || c == '\r' {
        if status == Receiving || status == Checksumming {
          dataReady := true;
          status := Terminating;
        } else {
          status := Invalid;
        }
      }
    }

    /** The second `switch` of `decodeNMEAInput`: act on the status the byte left. */
    method Dispatch(c: char, ghost wasChecksumming: bool)
      requires buffer.Length == NmeaBufferSize + 1 && parser.Valid()
      requires index <= NmeaBufferSize && buffer[NmeaBufferSize] == '\0'
      requires status == Invalid || Accumulating() || status == Terminating
      requires status == Invalid ==>
                 !dataReady && index == 0 && forall j :: 0 <= j < buffer.Length ==> buffer[j] == '\0'
      requires Accumulating() ==>
                 !dataReady && index < NmeaBufferSize && (IsStart(c) ==> index == 0) &&
                 (!IsStart(c) ==> c != '\r' && c != '\n' && Collected(wasChecksumming, index, buffer[..])) &&
                 (status == Checksumming <==> !IsStart(c) && (wasChecksumming || c == '*'))
      requires status == Terminating ==>
                 dataReady && Accepts(Handed(buffer[..], index)) && FieldsFit(Handed(buffer[..], index))
      modifies this, buffer, parser, parser.ptrStack, parser.ptrStack.stack
      ensures Valid()
      ensures old(status) == Invalid ==>
                status == Invalid && index == 0 && unchanged(buffer) &&
                unchanged(parser, parser.ptrStack, parser.ptrStack.stack)
      ensures old(Accumulating()) ==>
                status == old(status) && index == old(index) + 1 && buffer[..] == old(buffer[..])[old(index) := c] &&
                unchanged(parser, parser.ptrStack, parser.ptrStack.stack)
      ensures old(status) == Terminating ==>
                status == Invalid && index == 0 &&
                (forall j :: 0 <= j < buffer.Length ==> buffer[j] == '\0') &&
                parser.nmeaData == Parsed(old(Handed(buffer[..], index)), parser.metres, parser.battery) &&
                parser.counter == (if old(parser.counter) + 1 == CounterWrap then 0 else old(parser.counter) + 1) &&
                parser.ptrStack.Contents() == Pushed(old(parser.ptrStack.Contents()), parser.nmeaData)
    {
      match status {
        case Invalid =>
          index := 0;
          dataReady := false;
        case Receiving =>
          Collect(c, wasChecksumming);
        case Checksumming =>
          Collect(c, wasChecksumming);
        case Terminating =>
          Flush();
        case _ =>
      }
    }

    /** The `TERMINATING` branch: back to `INVALID` and, with a sentence
        pending, hand it to the parser and empty the buffer. */
    method Flush()
      requires status == Terminating && dataReady
      requires buffer.Length == NmeaBufferSize + 1 && parser.Valid()
      requires index <= NmeaBufferSize && buffer[NmeaBufferSize] == '\0'
      requires Accepts(Handed(buffer[..], index)) && FieldsFit(Handed(buffer[..], index))
      modifies this, buffer, parser, parser.ptrStack, parser.ptrStack.stack
      ensures Valid()
      ensures status == Invalid && index == 0
      ensures forall j :: 0 <= j < buffer.Length ==> buffer[j] == '\0'
      ensures parser.nmeaData == Parsed(old(Handed(buffer[..], index)), parser.metres, parser.battery)
      ensures parser.counter == (if old(parser.counter) + 1 == CounterWrap then 0 else old(parser.counter) + 1)
      ensures parser.ptrStack.Contents() == Pushed(old(parser.ptrStack.Contents()), parser.nmeaData)
    {
      status := Invalid;
      if dataReady {
        dataReady := false;
        Terminate();
      }
    }

    /** The `RECEIVING`/`CHECKSUMMING` branch: `nmeaBuffer[nmeaIndex++] = c`;
        `index` is 0 after a start character, otherwise the collected length. */
    method Collect(c: char, ghost wasChecksumming: bool)
      requires buffer.Length == NmeaBufferSize + 1 && index < NmeaBufferSize
      requires IsStart(c) ==> index == 0
      requires !IsStart(c) ==> c != '\r' && c != '\n' && Collected(wasChecksumming, index, buffer[..])
      modifies this, buffer
      ensures index == old(index) + 1 && buffer[..] == old(buffer[..])[old(index) := c]
      ensures status == old(status) && dataReady == old(dataReady)
      ensures Collected(!IsStart(c) && (wasChecksumming || c == '*'), index, buffer[..])
    {
      ghost var b := buffer[..];
      buffer[index] := c;
      index := index + 1;
      if IsStart(c) {
        CollectedStart(b, c);
      } else {
        CollectedStore(wasChecksumming, index - 1, b, c);
      }
    }
  }

  /** With nothing left of an abandoned sentence, the parser receives exactly
      the collected bytes (when none of them is NUL). */
  lemma CleanPending(f: NmeaFramer)
    requires f.Valid() && f.Clean() && f.Accumulating() && '\0' !in f.buffer[..f.index]
    ensures f.Pending() == f.buffer[..f.index]
  {
    HandedIs(f.buffer[..], f.index);
  }

  /** A byte left at `index` by an abandoned, longer sentence is handed to
      the parser after the collected bytes. */
  lemma StalePending(f: NmeaFramer)
    requires f.Valid() && f.Accumulating() && f.buffer[f.index] != '\0' && '\0' !in f.buffer[..f.index]
    ensures f.Pending() == f.buffer[..f.index + 1]
  {
    HandedIs(f.buffer[..], f.index);
  }

  /** A fresh engine that has received `$AB`. */
  method ReceiveAB(metres: string -> string, battery: string -> string) returns (f: NmeaFramer)
    ensures f.Valid() && f.status == Receiving && f.index == 3
    ensures f.buffer[0] == '$' && f.buffer[1] == 'A'
    ensures f.parser.metres == metres && f.parser.battery == battery
    ensures f.parser.ptrStack.Contents() == []
    ensures fresh(f) && fresh(f.buffer) && fresh(f.parser) && fresh(f.parser.ptrStack) && fresh(f.parser.ptrStack.stack)
  {
    var st := new NmeaStack();
    var p := new NmeaParser(st, metres, battery);
    f := new NmeaFramer(p);
    f.Decode('$');
    f.Decode('A');
    f.Decode('B');
  }

  /** `$AB`, a restart with `$`, then CR: the parser receives "$A", not "$". */
  method RestartLeaksStaleByte(metres: string -> string, battery: string -> string) returns (sent: NMEAData)
    ensures sent == Parsed("$A", metres, battery) && sent != Parsed("$", metres, battery)
  {
    var f := ReceiveAB(metres, battery);
    f.Decode('$');
    assert f.buffer[0] == '$' && f.buffer[1] == 'A' && f.index == 1;
    assert f.buffer[..2] == "$A";
    StalePending(f);
    assert f.Pending() == "$A";
    assert CommaCount("$A") == 0;
    f.Decode('\r');
    sent := f.parser.ptrStack.Pop();
    StaleRecordDiffers(metres, battery);
  }

  lemma StaleRecordDiffers(metres: string -> string, battery: string -> string)
    ensures Parsed("$A", metres, battery) != Parsed("$", metres, battery)
  {
    assert NoComma("$A") && NoComma("$");
    NoCommaSentence("$A", metres, battery);
    NoCommaSentence("$", metres, battery);
    NoCommaDistinct("$A", "$", metres, battery);
  }
}
