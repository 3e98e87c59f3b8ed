/** What `parseNMEASentence` promises about the records it pushes: which tags
    the filter string catches, what a sentence outside the filter becomes,
    how the two legacy sentences are rewritten, and that every checksum it
    appends is one a receiver accepts. */
module ParserFacts {
  import opened Text
  import opened Fields
  import opened ChecksumCodec
  import opened Record
  import opened Parser

  /** The tag the parser looks up in the filter: the first stored field. */
  function Tag(s: string): (t: string)
    requires Accepts(s) && FieldsFit(s)
    ensures t != ""
  {
    SplitFieldsCount(s);
    assert SplitRecord(s).fields[0] == SplitFields(s)[0];
    SplitRecord(s).fields[0]
  }

  lemma SubstAllClean(spans: seq<string>)
    requires forall k :: 0 <= k < |spans| ==> NoComma(spans[k])
    ensures forall k :: 0 <= k < |spans| ==> SubstAll(spans)[k] != "" && NoComma(SubstAll(spans)[k])
  {
    assert NoComma("0");
  }

  /** Every stored field is non-empty and free of commas. */
  lemma SplitFieldsClean(s: string)
    ensures forall k :: 0 <= k < |SplitFields(s)| ==>
              SplitFields(s)[k] != "" && NoComma(SplitFields(s)[k])
  {
    SpansNoComma(s);
    SubstAllClean(Spans(s));
    assert NoComma("0");
  }

  /** The first stored field, tag included: the text before the first comma,
      or "0" for a sentence without one. */
  lemma TagIs(s: string)
    requires Accepts(s) && FieldsFit(s)
    ensures Tag(s) == if NoComma(s) then "0" else s[..IndexOfFrom(s, ',', 0)]
  {
    SplitFieldsCount(s);
    if NoComma(s) {
      SplitFieldsNoComma(s);
    } else {
      SplitFieldsShape(s);
      assert s[0] != ',';
      assert IndexOfFrom(s, ',', 0) > 0;
    }
  }

  /** `'*' in s` is what the parser's `indexOf('*') < 1` test detects, the
      first character being a start character. */
  lemma StarTest(s: string)
    requires Accepts(s)
    ensures IndexOfFrom(s, '*', 0) < 1 <==> '*' !in s
  {
    var r := IndexOfFrom(s, '*', 0);
    if '*' in s {
      var j :| 0 <= j < |s| && s[j] == '*';
      assert r != -1;
    }
  }

  /** A sentence whose tag is outside the filter keeps its fields and its
      text; a checksum is appended exactly when it carries no '*'. */
  lemma PassThrough(s: string, metres: string -> string, battery: string -> string)
    requires Accepts(s) && FieldsFit(s) && !InFilter(Tag(s))
    ensures Parsed(s, metres, battery).nrOfFields == |SplitFields(s)|
    ensures Parsed(s, metres, battery).fields[..|SplitFields(s)|] == SplitFields(s)
    ensures Parsed(s, metres, battery).sentence ==
              s + (if '*' in s then "" else Checksum(s)) + NmeaTerminator
  {
    StarTest(s);
  }

  /** The line a pass-through sentence without a '*' is sent as (before CR LF)
      is one a receiver accepts. */
  lemma PassThroughChecksummed(s: string, metres: string -> string, battery: string -> string)
    requires Accepts(s) && FieldsFit(s) && !InFilter(Tag(s)) && '*' !in s
    ensures var line := Parsed(s, metres, battery).sentence;
            line[..|line| - 2] == s + Checksum(s) && ChecksumMatches(line[..|line| - 2])
  {
    PassThrough(s, metres, battery);
    ChecksumValidates(s);
    var line := Parsed(s, metres, battery).sentence;
    assert line == (s + Checksum(s)) + NmeaTerminator;
  }

  /** A comma-less sentence is stored as the fields "0" and the whole
      sentence, and passes through unchanged. */
  lemma NoCommaSentence(s: string, metres: string -> string, battery: string -> string)
    requires Accepts(s) && NoComma(s)
    ensures FieldsFit(s)
    ensures Parsed(s, metres, battery).nrOfFields == 2
    ensures Parsed(s, metres, battery).fields[..2] == ["0", s]
    ensures Parsed(s, metres, battery).sentence ==
              s + (if '*' in s then "" else Checksum(s)) + NmeaTerminator
  {
    CommaCountZero(s);
    SplitFieldsNoComma(s);
    TagIs(s);
    assert '0' !in SpecialtyFilter;
    FilterFirstChar(Tag(s));
    PassThrough(s, metres, battery);
  }

  /** Different comma-less sentences are stored as different records. */
  lemma NoCommaDistinct(s: string, t: string, metres: string -> string, battery: string -> string)
    requires Accepts(s) && NoComma(s) && FieldsFit(s)
    requires Accepts(t) && NoComma(t) && FieldsFit(t)
    requires s != t
    ensures Parsed(s, metres, battery) != Parsed(t, metres, battery)
  {
    var ds, dt := Parsed(s, metres, battery), Parsed(t, metres, battery);
    assert ds.fields[1] == s by {
      NoCommaSentence(s, metres, battery);
      assert ds.fields[..2][1] == s;
    }
    assert dt.fields[1] == t by {
      NoCommaSentence(t, metres, battery);
      assert dt.fields[..2][1] == t;
    }
  }

  /** A tag the filter catches begins with a character of the filter string. */
  lemma FilterFirstChar(tag: string)
    requires tag != []
    ensures InFilter(tag) ==> tag[0] in SpecialtyFilter
  {
    var f := SpecialtyFilter;
    if InFilter(tag) {
      var r := Find(f, tag);
      assert f[r..r + |tag|][0] == f[r];
    }
  }

  /** A prefix of the filter string, or of its `$PSTOB` half, is caught. */
  lemma FilterCatchesPrefixes(tag: string)
    requires tag != [] && (tag <= SpecialtyFilter || tag <= Tob)
    ensures InFilter(tag)
  {
    var f := SpecialtyFilter;
    if tag <= f {
      assert OccursAt(f, tag, 0);
    } else {
      assert f[6..] == Tob;
      assert f[6..6 + |tag|] == tag;
      assert OccursAt(f, tag, 6);
    }
  }

  /** The filter string has its start characters at positions 0 and 6 only. */
  lemma FilterStarts(r: nat)
    requires r < |SpecialtyFilter| && IsStart(SpecialtyFilter[r])
    ensures r == 0 || r == 6
  {
  }

  /** A caught tag that begins with a start character is a prefix of the
      filter string or of its `$PSTOB` half. */
  lemma FilterCaughtArePrefixes(tag: string)
    requires tag != [] && IsStart(tag[0]) && InFilter(tag)
    ensures tag[0] == '$' && (tag <= SpecialtyFilter || tag <= Tob)
  {
    var f := SpecialtyFilter;
    var r := Find(f, tag);
    assert f[r..r + |tag|][0] == f[r];
    FilterStarts(r);
    if r == 6 {
      assert f[6..] == Tob;
      assert tag == Tob[..|tag|];
    }
  }

  /** The filter catches a tag that begins with '$' exactly when it is a
      prefix of "$IIDBK$PSTOB" or of "$PSTOB", and no tag beginning with '!'
      or '~'. */
  lemma FilterTags(tag: string)
    requires |tag| > 0 && IsStart(tag[0])
    ensures InFilter(tag) <==> tag[0] == '$' && (tag <= SpecialtyFilter || tag <= Tob)
  {
    if InFilter(tag) {
      FilterCaughtArePrefixes(tag);
    } else if tag[0] == '$' && (tag <= SpecialtyFilter || tag <= Tob) {
      FilterCatchesPrefixes(tag);
    }
  }

  /** A tag the filter catches that is neither `$IIDBK` nor `$PSTOB` (a
      prefix of either, such as "$IIDB") yields an empty record, which is
      still pushed, as a bare CR LF. */
  lemma PartialTagDropped(s: string, metres: string -> string, battery: string -> string)
    requires Accepts(s) && FieldsFit(s) && InFilter(Tag(s)) && Tag(s) != Dbk && Tag(s) != Tob
    ensures Parsed(s, metres, battery) == NMEAData(EmptyFields(), 0, NmeaTerminator)
  {
  }

  /** The filter catches both legacy tags. */
  lemma FilterHasLegacyTags()
    ensures InFilter(Dbk) && InFilter(Tob)
  {
    assert OccursAt(SpecialtyFilter, Dbk, 0);
    assert OccursAt(SpecialtyFilter, Tob, 6);
  }

  /** A sentence whose tag the filter catches is pushed as the record
      `nmeaSpecialty` returns, terminated. */
  lemma ParsedInFilter(s: string, metres: string -> string, battery: string -> string)
    requires Accepts(s) && FieldsFit(s) && InFilter(Tag(s))
    ensures var e := Specialty(SplitRecord(s), metres, battery);
            Parsed(s, metres, battery) == e.(sentence := e.sentence + NmeaTerminator)
  {
  }

  /** Slot `j` of the record the splitting loop leaves: the j-th stored field, or "" past the last. */
  function Slot(s: string, j: nat): (r: string)
    requires Accepts(s) && FieldsFit(s) && j < MaxNmeaFields
    ensures r == if j < |SplitFields(s)| then SplitFields(s)[j] else ""
  {
    SplitFieldsCount(s);
    SplitRecord(s).fields[j]
  }

  /** `nmeaSpecialty` on a `$IIDBK` record. */
  lemma DbkSpecialty(d: NMEAData, metres: string -> string, battery: string -> string)
    requires WellFormed(d) && d.fields[0] == Dbk
    ensures Specialty(d, metres, battery) == Rewritten(DbtFields(d, metres), 7)
  {
    assert OccursAt(SpecialtyFilter, Dbk, 0);
  }

  lemma DbtLayout(d: NMEAData, metres: string -> string)
    requires WellFormed(d)
    ensures var f := DbtFields(d, metres);
            var n := d.nrOfFields;
            f[..7] == [DbtTag, (if n > 3 then d.fields[2] else ""), (if n > 4 then d.fields[3] else ""),
                       metres(if n > 3 then d.fields[2] else ""), "M", "", ""] &&
            forall j :: 7 <= j < MaxNmeaFields ==> f[j] == (if j < n - 2 then d.fields[j + 1] else "")
  {
    var f := DbtFields(d, metres);
    assert f[..7] == [f[0], f[1], f[2], f[3], f[4], f[5], f[6]];
  }

  /** `$IIDBK,<flag>,<feet>,<unit>,...` becomes
      `$AODBT,<feet>,<unit>,<metres>,M,,` with a checksum: the flag is dropped,
      the fields after it move one slot left, and the metres value is
      rendered from the feet value. Fields that moved beyond slot 6 stay in
      the record but are not sent. */
  lemma DbkToDbt(s: string, metres: string -> string, battery: string -> string)
    requires Accepts(s) && FieldsFit(s) && Tag(s) == Dbk
    ensures var r := Parsed(s, metres, battery);
            var n := |SplitFields(s)|;
            r.nrOfFields == 7 &&
            r.fields[..7] == [DbtTag, (if n > 3 then Slot(s, 2) else ""), (if n > 4 then Slot(s, 3) else ""),
                              metres(if n > 3 then Slot(s, 2) else ""), "M", "", ""] &&
            (forall j :: 7 <= j < MaxNmeaFields ==> r.fields[j] == (if j < n - 2 then Slot(s, j + 1) else "")) &&
            r.sentence == Join(r.fields[..7]) + Checksum(Join(r.fields[..7])) + NmeaTerminator
  {
    var d := SplitRecord(s);
    assert Parsed(s, metres, battery) == Rewritten(DbtFields(d, metres), 7).(sentence := Rewritten(DbtFields(d, metres), 7).sentence + NmeaTerminator) by {
      assert d.fields[0] == Tag(s);
      FilterHasLegacyTags();
      DbkSpecialty(d, metres, battery);
      ParsedInFilter(s, metres, battery);
    }
    DbtLayout(d, metres);
  }

  /** `nmeaSpecialty` on a `$PSTOB` record. */
  lemma TobSpecialty(d: NMEAData, metres: string -> string, battery: string -> string)
    requires WellFormed(d) && d.fields[0] == Tob
    ensures Specialty(d, metres, battery) == Rewritten(XdrFields(d, battery), 5)
  {
    assert OccursAt(SpecialtyFilter, Tob, 6);
  }

  lemma XdrLayout(d: NMEAData, battery: string -> string)
    requires WellFormed(d)
    ensures var f := XdrFields(d, battery);
            f[..5] == [XdrTag, "U", battery(d.fields[1]), Upper(d.fields[2]), "BATT"] &&
            forall j :: 5 <= j < MaxNmeaFields ==> f[j] == ""
  {
    var f := XdrFields(d, battery);
    assert f[..5] == [f[0], f[1], f[2], f[3], f[4]];
  }

  /** `$PSTOB,<volts>,<unit>` becomes `$AOXDR,U,<volts + offset>,<UNIT>,BATT`
      with a checksum; the unit is upper-cased and every other slot is empty. */
  lemma TobToXdr(s: string, metres: string -> string, battery: string -> string)
    requires Accepts(s) && FieldsFit(s) && Tag(s) == Tob
    ensures var r := Parsed(s, metres, battery);
            r.nrOfFields == 5 &&
            r.fields[..5] == [XdrTag, "U", battery(Slot(s, 1)), Upper(Slot(s, 2)), "BATT"] &&
            (forall j :: 5 <= j < MaxNmeaFields ==> r.fields[j] == "") &&
            r.sentence == Join(r.fields[..5]) + Checksum(Join(r.fields[..5])) + NmeaTerminator
  {
    var d := SplitRecord(s);
    assert d.fields[0] == Tob;
    TobSpecialty(d, metres, battery);
    ParsedInFilter(s, metres, battery);
    XdrLayout(d, battery);
  }

  /** A joined field list begins with its first field. */
  lemma {:induction false} JoinStartsWith(xs: seq<string>)
    requires |xs| >= 1
    ensures xs[0] <= Join(xs)
    decreases |xs|
  {
    if |xs| > 1 {
      var init := xs[..|xs| - 1];
      JoinStartsWith(init);
      assert init[0] == xs[0];
      assert Join(xs) == Join(init) + ("," + xs[|xs| - 1]);
    }
  }

  /** The sentence of a rewritten record starts with its first field and
      ends in a checksum a receiver accepts. */
  lemma RewrittenChecksummed(f: seq<string>, n: nat)
    requires |f| == MaxNmeaFields && 1 <= n <= MaxNmeaFields && f[0] != ""
    ensures var line := Rewritten(f, n).sentence;
            |line| >= 3 && ChecksumMatches(line) && f[0] <= line[..|line| - 3]
  {
    var body := Join(f[..n]);
    JoinStartsWith(f[..n]);
    ChecksumDecodes(body);
    ChecksumValidates(body);
    var line := body + Checksum(body);
    assert line[..|line| - 3] == body;
  }

  /** `nmeaSpecialty` gives the two legacy sentences their new tag and a
      checksum a receiver accepts. */
  lemma SpecialtyChecksummed(d: NMEAData, metres: string -> string, battery: string -> string)
    requires WellFormed(d) && (d.fields[0] == Dbk || d.fields[0] == Tob)
    ensures var line := Specialty(d, metres, battery).sentence;
            |line| >= 3 && ChecksumMatches(line) &&
            (if d.fields[0] == Dbk then DbtTag else XdrTag) <= line[..|line| - 3]
  {
    if d.fields[0] == Dbk {
      DbkSpecialty(d, metres, battery);
      RewrittenChecksummed(DbtFields(d, metres), 7);
    } else {
      TobSpecialty(d, metres, battery);
      RewrittenChecksummed(XdrFields(d, battery), 5);
    }
  }

  /** A legacy sentence is sent as its rewritten form, terminated. */
  lemma ParsedLegacy(s: string, metres: string -> string, battery: string -> string)
    requires Accepts(s) && FieldsFit(s) && (Tag(s) == Dbk || Tag(s) == Tob)
    ensures Parsed(s, metres, battery).sentence == Specialty(SplitRecord(s), metres, battery).sentence + NmeaTerminator
  {
    FilterHasLegacyTags();
    ParsedInFilter(s, metres, battery);
  }
}
