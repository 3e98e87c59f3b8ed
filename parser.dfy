/** `NMEAParser`: splits a raw sentence into fields, rebuilds its body,
    appends a checksum when none is present, rewrites the two legacy
    sentences named in the filter string, terminates the result with CR LF
    and pushes it onto the stack. */
module Parser {
  import opened Text
  import opened Fields
  import opened ChecksumCodec
  import opened Record
  import opened Stack

  /** `NMEA_SPECIALTY`: the legacy tags `_DBK` and `_TOB` concatenated. */
  const SpecialtyFilter := "$IIDBK$PSTOB"
  const Dbk := "$IIDBK"
  const Tob := "$PSTOB"
  const DbtTag := "$AODBT"
  const XdrTag := "$AOXDR"
  /** `counter` is an `unsigned long`, 32 bits wide on the target. */
  const CounterWrap := 0x1_0000_0000

  /** The parser acts on a sentence whose first character is a start character;
      Arduino's `operator[]` reads '\0' at index 0 of an empty string. */
  predicate Accepts(s: string)
  {
    |s| > 0 && IsStart(s[0])
  }

  /** The fields of `s` fit the 21 slots of a record (k commas give k + 1 fields). */
  predicate FieldsFit(s: string)
  {
    CommaCount(s) < MaxNmeaFields
  }

  /** The tag is found somewhere in the concatenated filter string. */
  predicate InFilter(tag: string)
  {
    Find(SpecialtyFilter, tag) > -1
  }

  /** `xs` in the first slots of a 21-slot field array, the rest "". */
  function Padded(xs: seq<string>): (r: seq<string>)
    requires |xs| <= MaxNmeaFields
    ensures |r| == MaxNmeaFields && r[..|xs|] == xs
    ensures forall j :: |xs| <= j < MaxNmeaFields ==> r[j] == ""
  {
    xs + seq(MaxNmeaFields - |xs|, _ => "")
  }

  /** The record the field-splitting loop leaves behind: the split fields and the rebuilt body. */
  function SplitRecord(s: string): (r: NMEAData)
    requires Accepts(s) && FieldsFit(s)
    ensures WellFormed(r)
  {
    SplitFieldsCount(s);
    NMEAData(Padded(SplitFields(s)), |SplitFields(s)|, s)
  }

  /** A record whose sentence is the comma-join of its first `n` fields followed by its checksum. */
  function Rewritten(f: seq<string>, n: nat): (r: NMEAData)
    requires |f| == MaxNmeaFields && n <= MaxNmeaFields
    ensures WellFormed(r)
  {
    NMEAData(f, n, Join(f[..n]) + Checksum(Join(f[..n])))
  }

  /** The DBT fields while the shift loop is at `i`: tag, then `in[j + 1]` in slot j for 1 <= j < i. */
  function DbtShift(d: NMEAData, i: int): (f: seq<string>)
    requires WellFormed(d) && i < MaxNmeaFields
    ensures |f| == MaxNmeaFields
  {
    seq(MaxNmeaFields, j requires 0 <= j < MaxNmeaFields =>
      if j == 0 then DbtTag else if j < i then d.fields[j + 1] else "")
  }

  /** `$IIDBK` rewritten as `$AODBT`: the fields after the status flag move one
      slot left (for slots below `nrOfFields - 2`), slot 3 receives the metres
      rendering of slot 1, slot 4 "M", slots 5 and 6 "". */
  function DbtFields(d: NMEAData, metres: string -> string): (f: seq<string>)
    requires WellFormed(d)
    ensures |f| == MaxNmeaFields
  {
    var shifted := DbtShift(d, d.nrOfFields - 2);
    shifted[3 := metres(shifted[1])][4 := "M"][5 := ""][6 := ""]
  }

  /** `$PSTOB` rewritten as `$AOXDR,U,<value>,<UNIT>,BATT`. */
  function XdrFields(d: NMEAData, battery: string -> string): (f: seq<string>)
    requires WellFormed(d)
    ensures |f| == MaxNmeaFields
  {
    EmptyFields()[0 := XdrTag][1 := "U"][2 := battery(d.fields[1])][3 := Upper(d.fields[2])][4 := "BATT"]
  }

  /** `nmeaSpecialty`: the rewritten record for `$IIDBK` and `$PSTOB`, and an
      empty record for any other tag, including other substrings of the filter. */
  function Specialty(d: NMEAData, metres: string -> string, battery: string -> string): (r: NMEAData)
    requires WellFormed(d)
    ensures WellFormed(r)
  {
    if !InFilter(d.fields[0]) then EmptyRecord()
    else if d.fields[0] == Dbk then Rewritten(DbtFields(d, metres), 7)
    else if d.fields[0] == Tob then Rewritten(XdrFields(d, battery), 5)
    else EmptyRecord()
  }

  /** The record `parseNMEASentence` pushes for an accepted sentence. */
  function Parsed(s: string, metres: string -> string, battery: string -> string): (r: NMEAData)
    requires Accepts(s) && FieldsFit(s)
    ensures WellFormed(r)
    ensures |r.sentence| >= 2 && r.sentence[|r.sentence| - 2..] == NmeaTerminator
  {
    var d := SplitRecord(s);
    var e :=
      if InFilter(d.fields[0]) then Specialty(d, metres, battery)
      else if IndexOfFrom(d.sentence, '*', 0) < 1 then d.(sentence := d.sentence + Checksum(d.sentence))
      else d;
    e.(sentence := e.sentence + NmeaTerminator)
  }

  /** Position of the last ',' before position `i` of `s`, or -1. */
  function PrevComma(s: string, i: nat): (r: int)
    requires i <= |s|
    ensures -1 <= r < i
    ensures r >= 0 ==> s[r] == ','
    ensures forall j :: r < j < i ==> s[j] != ','
    decreases i
  {
    if i == 0 then -1 else if s[i - 1] == ',' then i - 1 else PrevComma(s, i - 1)
  }

  /** The text between the comma at `lastIndex` (or the start, for -1) and `currentIndex`. */
  function Span(s: string, lastIndex: int, currentIndex: int): string
    requires -1 <= lastIndex < currentIndex <= |s|
  {
    if lastIndex < 0 then s[..currentIndex] else s[lastIndex + 1..currentIndex]
  }

  /** What has been stored once the splitting loop has consumed `s[..lastIndex]`. */
  ghost function Done(s: string, lastIndex: int): seq<string>
    requires lastIndex <= |s|
    decreases lastIndex
  {
    if lastIndex < 0 then []
    else
      var p := PrevComma(s, lastIndex);
      (if p < 0 then [] else Done(s, p)) + [Subst(Span(s, p, lastIndex))]
  }

  /** A comma (or the start) followed by comma-free text up to `currentIndex` is the last comma before it. */
  lemma PrevCommaIs(s: string, lastIndex: int, currentIndex: nat)
    requires -1 <= lastIndex < currentIndex <= |s|
    requires lastIndex >= 0 ==> s[lastIndex] == ','
    requires forall j :: lastIndex < j < currentIndex ==> s[j] != ','
    ensures PrevComma(s, currentIndex) == lastIndex
  {
    var p := PrevComma(s, currentIndex);
    assert p >= 0 ==> s[p] == ',';
    assert lastIndex >= 0 ==> s[lastIndex] == ',';
  }

  /** The last comma before `i` is the last comma of the prefix `s[..i]`. */
  lemma PrevCommaOfPrefix(s: string, i: nat)
    requires i <= |s|
    ensures PrevComma(s, i) == LastComma(s[..i])
  {
    var t := s[..i];
    var p, q := PrevComma(s, i), LastComma(t);
    if p >= 0 {
      assert t[p] == ',';
    }
    if q >= 0 {
      assert s[q] == ',';
    }
  }

  lemma SubstAllSnoc(spans: seq<string>, span: string)
    ensures SubstAll(spans + [span]) == SubstAll(spans) + [Subst(span)]
  {
    assert (spans + [span])[..|spans|] == spans;
  }

  /** What has been stored is the stored form of the spans of the consumed prefix. */
  lemma {:induction false} DoneSpans(s: string, lastIndex: nat)
    requires lastIndex <= |s|
    ensures Done(s, lastIndex) == SubstAll(Spans(s[..lastIndex]))
    decreases lastIndex
  {
    var t := s[..lastIndex];
    PrevCommaOfPrefix(s, lastIndex);
    var p := LastComma(t);
    if p >= 0 {
      var span := t[p + 1..];
      assert Spans(t) == Spans(t[..p]) + [span];
      assert t[..p] == s[..p];
      assert span == Span(s, p, lastIndex);
      DoneSpans(s, p);
      SubstAllSnoc(Spans(s[..p]), span);
      assert Done(s, lastIndex) == Done(s, p) + [Subst(span)];
    } else {
      assert Spans(t) == [t];
      assert SubstAll([t]) == [Subst(t)];
      assert Done(s, lastIndex) == [Subst(t)];
    }
  }

  /** The field the splitting loop stores for the span between `lastIndex` and `currentIndex`. */
  function StoredSpan(s: string, lastIndex: int, currentIndex: int): string
    requires -1 <= lastIndex && currentIndex <= |s|
  {
    if currentIndex - lastIndex <= 1 then "0"
    else if lastIndex < 0 then s[..currentIndex]
    else s[lastIndex + 1..currentIndex]
  }

  /** Where the splitting loop looks next after a comma (or the start) at `i`:
      the next comma, or the end of the string. */
  function NextComma(s: string, i: int): int
    requires -1 <= i
  {
    if IndexOfFrom(s, ',', i + 1) < 0 then |s| else IndexOfFrom(s, ',', i + 1)
  }

  /** The state of the splitting loop over `s`: `lastIndex` is the comma last
      consumed (-1 before the first), `currentIndex` the end of the next span,
      the first `nr` fields are the stored spans so far (after the extra "0"
      of a comma-less string) and `sentence` is the consumed prefix. */
  ghost predicate SplitInv(s: string, noComma: bool, lastIndex: int, currentIndex: int,
                           nr: nat, fields: seq<string>, sentence: string)
  {
    -1 <= lastIndex <= |s| && lastIndex != 0 &&
    |fields| == MaxNmeaFields && nr <= MaxNmeaFields &&
    (noComma <==> CommaCount(s) == 0) &&
    (lastIndex >= 0 ==> lastIndex == |s| || s[lastIndex] == ',') &&
    (lastIndex < 0 ==> nr <= if noComma then 1 else 0) &&
    (nr == 0 ==> lastIndex < 0) &&
    (nr > 0 ==> fields[..nr] == (if noComma then ["0"] else []) + Done(s, lastIndex)) &&
    (forall j :: nr <= j < MaxNmeaFields ==> fields[j] == "") &&
    sentence == (if lastIndex < 0 then "" else s[..lastIndex]) &&
    (lastIndex < 0 && nr == 0 ==> currentIndex == IndexOfFrom(s, ',', 0)) &&
    (!(lastIndex < 0 && nr == 0) && lastIndex < |s| ==>
       lastIndex < currentIndex <= |s| &&
       (currentIndex == |s| || s[currentIndex] == ',') &&
       forall j :: lastIndex < j < currentIndex ==> s[j] != ',')
  }

  /** The loop's stored field is the stored form of the span. */
  lemma StoredSpanIsSubst(s: string, lastIndex: int, currentIndex: int)
    requires -1 <= lastIndex < currentIndex <= |s|
    ensures StoredSpan(s, lastIndex, currentIndex) == Subst(Span(s, lastIndex, currentIndex))
  {
    assert |Span(s, lastIndex, currentIndex)| == currentIndex - lastIndex - 1;
  }

  /** Consuming the span that ends at `currentIndex` stores one more field. */
  lemma DoneStep(s: string, lastIndex: int, currentIndex: int)
    requires -1 <= lastIndex < currentIndex <= |s|
    requires lastIndex >= 0 ==> s[lastIndex] == ','
    requires forall j :: lastIndex < j < currentIndex ==> s[j] != ','
    ensures Done(s, currentIndex) == Done(s, lastIndex) + [StoredSpan(s, lastIndex, currentIndex)]
  {
    PrevCommaIs(s, lastIndex, currentIndex);
    StoredSpanIsSubst(s, lastIndex, currentIndex);
  }

  /** Consuming the span that ends at `currentIndex` extends the rebuilt body
      by ',' (unless it is the first span) and the span itself. */
  lemma SentenceStep(s: string, lastIndex: int, currentIndex: int)
    requires -1 <= lastIndex < currentIndex <= |s|
    requires lastIndex >= 0 ==> s[lastIndex] == ','
    ensures lastIndex >= 0 ==> s[..currentIndex] == s[..lastIndex] + "," + s[lastIndex + 1..currentIndex]
    ensures lastIndex < 0 ==> s[..currentIndex] == s[lastIndex + 1..currentIndex]
  {
    if lastIndex >= 0 {
      assert s[..currentIndex] == s[..lastIndex] + [s[lastIndex]] + s[lastIndex + 1..currentIndex];
    } else {
      assert lastIndex + 1 == 0;
    }
  }

  /** A prefix ending before a comma leaves room for at least one more field. */
  lemma DoneRoom(s: string, lastIndex: nat)
    requires lastIndex < |s| && s[lastIndex] == ',' && FieldsFit(s)
    ensures |Done(s, lastIndex)| < MaxNmeaFields && CommaCount(s) > 0
  {
    DoneSpans(s, lastIndex);
    SpansCount(s[..lastIndex]);
    CommaCountPrefix(s, lastIndex);
  }

  /** The splitting loop's state before the first iteration. */
  lemma SplitInvInit(s: string)
    requires Accepts(s)
    ensures SplitInv(s, IndexOfFrom(s, ',', 0) < 0, -1, IndexOfFrom(s, ',', 0), 0, EmptyFields(), "")
  {
    CommaCountZero(s);
  }

  /** Storing the span that ends at a comma or at the end appends it to the stored fields. */
  lemma StoreSpan(s: string, head: seq<string>, lastIndex: int, currentIndex: int,
                  nr: nat, fields: seq<string>)
    requires FieldsFit(s)
    requires -1 <= lastIndex < currentIndex <= |s|
    requires lastIndex >= 0 ==> s[lastIndex] == ',' && head == []
    requires forall j :: lastIndex < j < currentIndex ==> s[j] != ','
    requires |fields| == MaxNmeaFields && |head| <= 1
    requires nr <= MaxNmeaFields && fields[..nr] == head + Done(s, lastIndex)
    ensures nr < MaxNmeaFields
    ensures fields[nr := StoredSpan(s, lastIndex, currentIndex)][..nr + 1] == head + Done(s, currentIndex)
  {
    if lastIndex >= 0 {
      DoneRoom(s, lastIndex);
    }
    var stored := StoredSpan(s, lastIndex, currentIndex);
    assert fields[nr := stored][..nr + 1] == fields[..nr] + [stored];
    DoneStep(s, lastIndex, currentIndex);
  }

  /** One iteration stores the next span: the stored fields grow by it. */
  lemma StepFields(s: string, noComma: bool, lastIndex: int, currentIndex: int,
                   nr: nat, fields: seq<string>, sentence: string)
    requires Accepts(s) && FieldsFit(s)
    requires SplitInv(s, noComma, lastIndex, currentIndex, nr, fields, sentence)
    requires lastIndex < |s|
    ensures currentIndex <= |s| && nr < MaxNmeaFields
    ensures fields[nr := StoredSpan(s, lastIndex, currentIndex)][..nr + 1] ==
              (if noComma then ["0"] else []) + Done(s, currentIndex)
  {
    var head: seq<string> := if noComma then ["0"] else [];
    if currentIndex < 0 {
      CommaCountZero(s);
      assert fields[nr := StoredSpan(s, lastIndex, currentIndex)][..nr + 1] == ["0"];
    } else {
      if nr == 0 || lastIndex >= 0 {
        CommaCountZero(s);
        assert s[if nr == 0 then currentIndex else lastIndex] == ',';
        assert head == [];
      }
      StoreSpan(s, head, lastIndex, currentIndex, nr, fields);
    }
  }

  /** One iteration extends the rebuilt body to the consumed prefix. */
  lemma StepSentence(s: string, noComma: bool, lastIndex: int, currentIndex: int,
                     nr: nat, fields: seq<string>, sentence: string)
    requires Accepts(s)
    requires SplitInv(s, noComma, lastIndex, currentIndex, nr, fields, sentence)
    requires lastIndex < |s|
    ensures currentIndex <= |s|
    ensures (if lastIndex > 0 then sentence + "," else sentence) +
            (if currentIndex - lastIndex > 1 then s[lastIndex + 1..currentIndex] else "") ==
            (if currentIndex < 0 then "" else s[..currentIndex])
  {
    if currentIndex >= 0 {
      SentenceStep(s, lastIndex, currentIndex);
    }
  }

  /** After an iteration the next span ends at the next comma or at the end. */
  lemma StepScan(s: string, noComma: bool, lastIndex: int, currentIndex: int,
                 nr: nat, fields: seq<string>, sentence: string)
    requires Accepts(s)
    requires SplitInv(s, noComma, lastIndex, currentIndex, nr, fields, sentence)
    requires lastIndex < |s|
    ensures -1 <= currentIndex <= |s| && currentIndex != 0
    ensures currentIndex >= 0 ==> currentIndex == |s| || s[currentIndex] == ','
    ensures currentIndex < 0 ==> noComma && nr == 0
    ensures currentIndex < |s| ==>
              currentIndex < NextComma(s, currentIndex) <= |s| &&
              (NextComma(s, currentIndex) == |s| || s[NextComma(s, currentIndex)] == ',') &&
              forall j :: currentIndex < j < NextComma(s, currentIndex) ==> s[j] != ','
  {
    if currentIndex < 0 {
      CommaCountZero(s);
    }
  }

  /** One iteration of the splitting loop keeps its state description. */
  lemma SplitInvStep(s: string, noComma: bool, lastIndex: int, currentIndex: int,
                     nr: nat, fields: seq<string>, sentence: string)
    requires Accepts(s) && FieldsFit(s)
    requires SplitInv(s, noComma, lastIndex, currentIndex, nr, fields, sentence)
    requires lastIndex < |s|
    ensures currentIndex <= |s| && nr < MaxNmeaFields
    ensures SplitInv(s, noComma, currentIndex, NextComma(s, currentIndex), nr + 1,
                     fields[nr := StoredSpan(s, lastIndex, currentIndex)],
                     (if lastIndex > 0 then sentence + "," else sentence) +
                     (if currentIndex - lastIndex > 1 then s[lastIndex + 1..currentIndex] else ""))
  {
    StepFields(s, noComma, lastIndex, currentIndex, nr, fields, sentence);
    StepSentence(s, noComma, lastIndex, currentIndex, nr, fields, sentence);
    StepScan(s, noComma, lastIndex, currentIndex, nr, fields, sentence);
  }

  /** Having consumed all of `s`, the stored fields are the split fields. */
  lemma DoneAll(s: string, head: seq<string>, nr: nat, fields: seq<string>)
    requires head == if CommaCount(s) == 0 then ["0"] else []
    requires nr <= |fields| && fields[..nr] == head + Done(s, |s|)
    ensures fields[..nr] == SplitFields(s)
  {
    assert s[..|s|] == s;
    DoneSpans(s, |s|);
  }

  /** Fields that hold `xs` followed by empty slots are `Padded(xs)`. */
  lemma PaddedFields(fields: seq<string>, xs: seq<string>)
    requires |fields| == MaxNmeaFields && |xs| <= MaxNmeaFields
    requires fields[..|xs|] == xs
    requires forall j :: |xs| <= j < MaxNmeaFields ==> fields[j] == ""
    ensures fields == Padded(xs)
  {
    assert fields == fields[..|xs|] + fields[|xs|..];
  }

  /** When the splitting loop has consumed the whole string it holds the split fields and `s` itself. */
  lemma SplitInvDone(s: string, noComma: bool, currentIndex: int, nr: nat, fields: seq<string>, sentence: string)
    requires Accepts(s) && FieldsFit(s)
    requires SplitInv(s, noComma, |s|, currentIndex, nr, fields, sentence)
    ensures NMEAData(fields, nr, sentence) == SplitRecord(s) && sentence == s
  {
    assert s[..|s|] == s;
    DoneAll(s, if noComma then ["0"] else [], nr, fields);
    PaddedFields(fields, SplitFields(s));
  }

  /** The field-splitting loop of `parseNMEASentence`: each span between commas
      becomes a field ("0" when empty) and the body is rebuilt by appending
      ',' and the non-empty spans. */
  method SplitSentence(nmeaStr: string) returns (d: NMEAData)
    requires Accepts(nmeaStr) && FieldsFit(nmeaStr)
    ensures d == SplitRecord(nmeaStr)
    ensures d.sentence == nmeaStr
  {
    var s := nmeaStr;
    var sentenceLength := |s|;
    var fields := EmptyFields();
    var nrOfFields := 0;
    var sentence := "";
    var lastIndex := -1;
    var currentIndex := IndexOfFrom(s, ',', 0);
    ghost var noComma := currentIndex < 0;
    SplitInvInit(s);
    while lastIndex < sentenceLength
      invariant SplitInv(s, noComma, lastIndex, currentIndex, nrOfFields, fields, sentence)
      decreases sentenceLength - lastIndex, if currentIndex < 0 then 1 else 0
    {
      SplitInvStep(s, noComma, lastIndex, currentIndex, nrOfFields, fields, sentence);
      ghost var nextFields := fields[nrOfFields := StoredSpan(s, lastIndex, currentIndex)];
      ghost var nextSentence := (if lastIndex > 0 then sentence + "," else sentence) +
                                (if currentIndex - lastIndex > 1 then s[lastIndex + 1..currentIndex] else "");
      ghost var nextIndex := NextComma(s, currentIndex);
      assert SplitInv(s, noComma, currentIndex, nextIndex, nrOfFields + 1, nextFields, nextSentence);
      if lastIndex > 0 {
        sentence := sentence + ",";
      }
      if currentIndex - lastIndex > 1 {
        fields := fields[nrOfFields := s[lastIndex + 1..currentIndex]];
        sentence := sentence + fields[nrOfFields];
      } else {
        fields := fields[nrOfFields := "0"];
      }
      nrOfFields := nrOfFields + 1;
      lastIndex := currentIndex;
      currentIndex := IndexOfFrom(s, ',', lastIndex + 1);
      if currentIndex < 0 {
        currentIndex := sentenceLength;
      }
      assert fields == nextFields && sentence == nextSentence && currentIndex == nextIndex;
    }
    SplitInvDone(s, noComma, currentIndex, nrOfFields, fields, sentence);
    d := NMEAData(fields, nrOfFields, sentence);
  }

  /** The join loop of `nmeaSpecialty`: ',' before every field but the first. */
  method JoinFields(fields: seq<string>, n: nat) returns (sentence: string)
    requires n <= |fields|
    ensures sentence == Join(fields[..n])
  {
    sentence := "";
    for i := 0 to n
      invariant sentence == Join(fields[..i])
    {
      if i > 0 {
        sentence := sentence + ",";
      }
      sentence := sentence + fields[i];
      assert fields[..i + 1][..i] == fields[..i];
    }
  }

  class NmeaParser {
    const ptrStack: NmeaStack
    /** `String(x.toFloat() * FTM, 1)`: feet to metres, one decimal. */
    const metres: string -> string
    /** `String(x.toFloat() + BATTERY_OFFSET, 1)`: the 0.2 V calibration, one decimal. */
    const battery: string -> string
    var nmeaData: NMEAData
    /** Sentences parsed since power-up. */
    var counter: nat

    ghost predicate Valid()
      reads this, ptrStack
    {
      ptrStack.Valid() && WellFormed(nmeaData) && counter < CounterWrap
    }

    constructor (st: NmeaStack, metres: string -> string, battery: string -> string)
      requires st.Valid()
      ensures Valid() && ptrStack == st && this.metres == metres && this.battery == battery
      ensures nmeaData == EmptyRecord() && counter == 0
    {
      ptrStack := st;
      this.metres := metres;
      this.battery := battery;
      counter := 0;
      new;
      Reset();
    }

    /** Clears the working record. */
    method Reset()
      modifies this
      ensures nmeaData == EmptyRecord() && counter == old(counter)
    {
      nmeaData := EmptyRecord();
    }

    method GetCounter() returns (r: nat)
      ensures r == counter
    {
      r := counter;
    }

    /** The `$IIDBK` branch of `nmeaSpecialty`. */
    method RewriteDbk(nmeaIn: NMEAData) returns (nmeaOut: NMEAData)
      requires WellFormed(nmeaIn)
      ensures nmeaOut == Rewritten(DbtFields(nmeaIn, metres), 7)
    {
      var f := EmptyFields();
      f := f[0 := DbtTag];
      var i := 1;
      while i < nmeaIn.nrOfFields - 2
        invariant 1 <= i < MaxNmeaFields && (i <= nmeaIn.nrOfFields - 2 || i == 1)
        invariant |f| == MaxNmeaFields
        invariant forall j :: 0 <= j < MaxNmeaFields ==> f[j] == DbtShift(nmeaIn, i)[j]
      {
        f := f[i := nmeaIn.fields[i + 1]];
        i := i + 1;
      }
      assert f == DbtShift(nmeaIn, nmeaIn.nrOfFields - 2);
      f := f[3 := metres(f[1])];
      f := f[4 := "M"];
      f := f[5 := ""];
      f := f[6 := ""];
      assert f == DbtFields(nmeaIn, metres);
      var sentence := JoinFields(f, 7);
      var cs := ComputeChecksum(sentence);
      nmeaOut := NMEAData(f, 7, sentence + cs);
    }

    /** The `$PSTOB` branch of `nmeaSpecialty`, after its reset. */
    method RewriteTob(nmeaIn: NMEAData) returns (nmeaOut: NMEAData)
      requires WellFormed(nmeaIn)
      ensures nmeaOut == Rewritten(XdrFields(nmeaIn, battery), 5)
    {
      var f := EmptyFields();
      f := f[0 := XdrTag];
      f := f[1 := "U"];
      f := f[2 := battery(nmeaIn.fields[1])];
      f := f[3 := Upper(nmeaIn.fields[2])];
      f := f[4 := "BATT"];
      var sentence := JoinFields(f, 5);
      var cs := ComputeChecksum(sentence);
      nmeaOut := NMEAData(f, 5, sentence + cs);
    }

    /** `nmeaSpecialty`; the `$PSTOB` branch also resets the working record. */
    method NmeaSpecialty(nmeaIn: NMEAData) returns (nmeaOut: NMEAData)
      requires Valid() && WellFormed(nmeaIn)
      modifies this
      ensures Valid() && counter == old(counter)
      ensures nmeaOut == Specialty(nmeaIn, metres, battery)
      ensures nmeaData == if InFilter(nmeaIn.fields[0]) && nmeaIn.fields[0] == Tob then EmptyRecord() else old(nmeaData)
    {
      var filter := SpecialtyFilter;
      nmeaOut := EmptyRecord();
      if Find(filter, nmeaIn.fields[0]) > -1 {
        if nmeaIn.fields[0] == Dbk {
          nmeaOut := RewriteDbk(nmeaIn);
          return;
        }
        if nmeaIn.fields[0] == Tob {
          Reset();
          nmeaOut := RewriteTob(nmeaIn);
          return;
        }
      }
    }

    /** `parseNMEASentence`: for an accepted sentence, pushes exactly one record
        (even when the stack is full and drops it) and counts it; anything else
        only clears the working record. */
    method ParseSentence(nmeaStr: string)
      requires Valid()
      requires Accepts(nmeaStr) ==> FieldsFit(nmeaStr)
      modifies this, ptrStack, ptrStack.stack
      ensures Valid()
      ensures Accepts(nmeaStr) ==>
                nmeaData == Parsed(nmeaStr, metres, battery) &&
                counter == (if old(counter) + 1 == CounterWrap then 0 else old(counter) + 1) &&
                ptrStack.Contents() == Pushed(old(ptrStack.Contents()), nmeaData)
      ensures !Accepts(nmeaStr) ==>
                nmeaData == EmptyRecord() && counter == old(counter) &&
                unchanged(ptrStack, ptrStack.stack)
    {
      Reset();
      var first := if |nmeaStr| > 0 then nmeaStr[0] else '\0';
      if first == '$' || first == '!' || first == '~' {
        ghost var c0 := counter;
        ghost var split := SplitRecord(nmeaStr);
        nmeaData := SplitSentence(nmeaStr);
        if Find(SpecialtyFilter, nmeaData.fields[0]) > -1 {
          nmeaData := NmeaSpecialty(nmeaData);
          assert nmeaData == Specialty(split, metres, battery);
        } else if IndexOfFrom(nmeaData.sentence, '*', 0) < 1 {
          var cs := ComputeChecksum(nmeaData.sentence);
          nmeaData := nmeaData.(sentence := nmeaData.sentence + cs);
        }
        assert counter == c0;
        nmeaData := nmeaData.(sentence := nmeaData.sentence + NmeaTerminator);
        assert nmeaData == Parsed(nmeaStr, metres, battery);
        var _ := ptrStack.Push(nmeaData);
        counter := if counter + 1 == CounterWrap then 0 else counter + 1;
      }
    }
  }
}
