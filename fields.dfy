/** Comma-separated fields of an NMEA 0183 sentence body: the spans between
    commas, their comma-join, and the two round trips between them. */
module Fields {
  import opened Text

  /** Number of ',' in `s`. */
  function CommaCount(s: string): nat
  {
    if s == [] then 0 else CommaCount(s[..|s| - 1]) + (if s[|s| - 1] == ',' then 1 else 0)
  }

  predicate NoComma(s: string)
  {
    forall j :: 0 <= j < |s| ==> s[j] != ','
  }

  /** Position of the last ',' in `s`, or -1. */
  function LastComma(s: string): (r: int)
    ensures -1 <= r < |s|
    ensures r >= 0 ==> s[r] == ','
    ensures forall j :: r < j < |s| ==> s[j] != ','
  {
    if s == [] then -1
    else if s[|s| - 1] == ',' then |s| - 1
    else LastComma(s[..|s| - 1])
  }

  /** The spans of `s` between commas, in order: k commas give k + 1 spans,
      the empty string standing for two adjacent commas or a comma at either end. */
  function Spans(s: string): (r: seq<string>)
    ensures |r| >= 1
    decreases |s|
  {
    var i := LastComma(s);
    if i < 0 then [s] else Spans(s[..i]) + [s[i + 1..]]
  }

  /** The strings of `xs` joined with ',' between neighbours. */
  function Join(xs: seq<string>): string
  {
    if |xs| == 0 then ""
    else if |xs| == 1 then xs[0]
    else Join(xs[..|xs| - 1]) + "," + xs[|xs| - 1]
  }

  /** The stored form of one span: an empty span becomes the literal "0". */
  function Subst(span: string): string
  {
    if span == "" then "0" else span
  }

  function SubstAll(spans: seq<string>): (r: seq<string>)
    ensures |r| == |spans|
    ensures forall k :: 0 <= k < |spans| ==> r[k] == Subst(spans[k])
  {
    if spans == [] then [] else SubstAll(spans[..|spans| - 1]) + [Subst(spans[|spans| - 1])]
  }

  /** The fields the sentence parser stores for `s`: the stored forms of its
      spans, preceded by an extra "0" when `s` has no comma at all (the
      parser's first pass over a comma-less string finds an empty span). */
  function SplitFields(s: string): seq<string>
  {
    (if CommaCount(s) == 0 then ["0"] else []) + SubstAll(Spans(s))
  }

  lemma {:induction false} CommaCountAppend(a: string, b: string)
    ensures CommaCount(a + b) == CommaCount(a) + CommaCount(b)
    decreases |b|
  {
    if b == [] {
      assert a + b == a;
    } else {
      assert (a + b)[..|a + b| - 1] == a + b[..|b| - 1];
      CommaCountAppend(a, b[..|b| - 1]);
    }
  }

  lemma {:induction false} CommaCountZero(s: string)
    ensures CommaCount(s) == 0 <==> NoComma(s)
    decreases |s|
  {
    if s != [] {
      CommaCountZero(s[..|s| - 1]);
      assert forall j :: 0 <= j < |s| - 1 ==> s[..|s| - 1][j] == s[j];
    }
  }

  /** A comma at position `i` leaves at least one comma of `s` after the prefix `s[..i]`. */
  lemma CommaCountPrefix(s: string, i: nat)
    requires i < |s| && s[i] == ','
    ensures CommaCount(s[..i]) + 1 <= CommaCount(s)
  {
    assert s == s[..i] + ([s[i]] + s[i + 1..]);
    CommaCountAppend(s[..i], [s[i]] + s[i + 1..]);
    CommaCountAppend([s[i]], s[i + 1..]);
    assert [s[i]][..0] == [];
  }

  /** k commas give k + 1 spans. */
  lemma {:induction false} SpansCount(s: string)
    ensures |Spans(s)| == CommaCount(s) + 1
    decreases |s|
  {
    var i := LastComma(s);
    if i < 0 {
      CommaCountZero(s);
    } else {
      SpansCount(s[..i]);
      assert s == s[..i] + ([s[i]] + s[i + 1..]);
      CommaCountAppend(s[..i], [s[i]] + s[i + 1..]);
      CommaCountAppend([s[i]], s[i + 1..]);
      assert [s[i]][..0] == [];
      CommaCountZero(s[i + 1..]);
    }
  }

  /** No span contains a comma. */
  lemma {:induction false} SpansNoComma(s: string)
    ensures forall k :: 0 <= k < |Spans(s)| ==> NoComma(Spans(s)[k])
    decreases |s|
  {
    var i := LastComma(s);
    if i >= 0 {
      SpansNoComma(s[..i]);
    }
  }

  /** Joining the spans rebuilds the string exactly. */
  lemma {:induction false} JoinSpans(s: string)
    ensures Join(Spans(s)) == s
    decreases |s|
  {
    var i := LastComma(s);
    if i >= 0 {
      var p := Spans(s[..i]);
      JoinSpans(s[..i]);
      assert (p + [s[i + 1..]])[..|p|] == p;
      assert s == s[..i] + "," + s[i + 1..];
    }
  }

  /** Splitting a join of comma-free strings gives the strings back. */
  lemma {:induction false} SpansJoin(xs: seq<string>)
    requires |xs| >= 1
    requires forall k :: 0 <= k < |xs| ==> NoComma(xs[k])
    ensures Spans(Join(xs)) == xs
    decreases |xs|
  {
    if |xs| > 1 {
      var init := xs[..|xs| - 1];
      var last := xs[|xs| - 1];
      var j := Join(init);
      var s := j + "," + last;
      assert Join(xs) == s;
      var i := LastComma(s);
      assert s[|j|] == ',';
      assert i == |j|;
      assert s[..i] == j && s[i + 1..] == last;
      SpansJoin(init);
    }
  }

  /** The first span is everything before the first comma (the whole string if there is none). */
  lemma {:induction false} FirstSpan(s: string)
    ensures Spans(s)[0] == if NoComma(s) then s else s[..IndexOfFrom(s, ',', 0)]
    decreases |s|
  {
    var i := LastComma(s);
    if i < 0 {
      assert NoComma(s);
    } else {
      var p := s[..i];
      FirstSpan(p);
      assert Spans(s)[0] == Spans(p)[0];
      var f := IndexOfFrom(s, ',', 0);
      assert !NoComma(s) by { assert s[i] == ','; }
      if NoComma(p) {
        assert f == i;
      } else {
        var g := IndexOfFrom(p, ',', 0);
        assert g == f;
        assert p[..g] == s[..f];
      }
    }
  }

  /** The field layout the parser produces for a sentence with at least one
      comma: one field per span, the first being the text before the first
      comma (the tag with its start character), each non-empty span stored
      verbatim and each empty one as "0". */
  lemma SplitFieldsShape(s: string)
    requires !NoComma(s)
    ensures |SplitFields(s)| == CommaCount(s) + 1
    ensures SplitFields(s)[0] == Subst(s[..IndexOfFrom(s, ',', 0)])
    ensures forall k :: 0 <= k < |SplitFields(s)| ==>
              (Spans(s)[k] == "" ==> SplitFields(s)[k] == "0") &&
              (Spans(s)[k] != "" ==> SplitFields(s)[k] == Spans(s)[k])
  {
    CommaCountZero(s);
    SpansCount(s);
    FirstSpan(s);
  }

  /** A comma-less string is stored as the two fields "0" and the string itself. */
  lemma SplitFieldsNoComma(s: string)
    requires s != [] && NoComma(s)
    ensures SplitFields(s) == ["0", s]
  {
    CommaCountZero(s);
    assert Spans(s) == [s];
  }

  /** How many fields the parser stores: two for a comma-less string, otherwise one per span. */
  lemma SplitFieldsCount(s: string)
    ensures |SplitFields(s)| == if CommaCount(s) == 0 then 2 else CommaCount(s) + 1
  {
    SpansCount(s);
  }
}
