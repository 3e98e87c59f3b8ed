/** The NMEA 0183 checksum as the engine computes it: the exclusive-or of the
    8-bit values of every character after the first, rendered as '*' and two
    lower-case hexadecimal digits; and the check a receiver applies to a
    sentence that carries one. */
module ChecksumCodec {

  /** The 8-bit value the firmware sees for a character (`byte cs ^= str[n]`
      keeps the low eight bits). */
  function ByteOf(c: char): bv8
  {
    ((c as int) % 256) as bv8
  }

  /** Exclusive-or of the bytes of `s`. */
  function Xor(s: string): bv8
  {
    if s == [] then 0 else Xor(s[..|s| - 1]) ^ ByteOf(s[|s| - 1])
  }

  /** The value the checksum routine accumulates: every character from index 1 on. */
  function BodyXor(s: string): bv8
  {
    if |s| <= 1 then 0 else Xor(s[1..])
  }

  /** A lower-case hexadecimal digit for 0..15, as Arduino's `String(x, HEX)` prints it. */
  function Digit(d: nat): char
    requires d < 16
  {
    if d < 10 then ('0' as int + d) as char else ('a' as int + d - 10) as char
  }

  /** Arduino's `String(x, HEX)` for a byte: no leading zero. */
  function HexString(x: nat): string
    requires x < 256
  {
    if x < 16 then [Digit(x)] else [Digit(x / 16), Digit(x % 16)]
  }

  /** The checksum suffix for an accumulated value: a '0' is padded in below 0x10. */
  function Render(cs: nat): string
    requires cs < 256
  {
    if cs < 0x10 then "*0" + HexString(cs) else "*" + HexString(cs)
  }

  /** The suffix the engine appends to `s`. */
  function Checksum(s: string): string
  {
    Render(BodyXor(s) as int)
  }

  /** Value of a hexadecimal digit of either case, -1 for any other character. */
  function HexValue(c: char): int
  {
    if '0' <= c <= '9' then c as int - '0' as int
    else if 'a' <= c <= 'f' then c as int - 'a' as int + 10
    else if 'A' <= c <= 'F' then c as int - 'A' as int + 10
    else -1
  }

  /** A receiver's view: `line` ends in '*' and two hexadecimal digits whose
      value is the exclusive-or of everything between the start character and the '*'. */
  predicate ChecksumMatches(line: string)
  {
    |line| >= 4 && line[|line| - 3] == '*' &&
    HexValue(line[|line| - 2]) >= 0 && HexValue(line[|line| - 1]) >= 0 &&
    HexValue(line[|line| - 2]) * 16 + HexValue(line[|line| - 1]) == BodyXor(line[..|line| - 3]) as int
  }

  /** The rendered checksum is '*' and exactly two lower-case digits that read back as the value. */
  lemma RenderDecodes(cs: nat)
    requires cs < 256
    ensures |Render(cs)| == 3 && Render(cs)[0] == '*'
    ensures '0' <= Render(cs)[1] <= '9' || 'a' <= Render(cs)[1] <= 'f'
    ensures '0' <= Render(cs)[2] <= '9' || 'a' <= Render(cs)[2] <= 'f'
    ensures HexValue(Render(cs)[1]) * 16 + HexValue(Render(cs)[2]) == cs
  {
    if cs >= 16 {
      assert cs == (cs / 16) * 16 + cs % 16;
    }
  }

  /** The checksum of `s` is '*', two hex digits, and decodes to the exclusive-or of `s[1..]`. */
  lemma ChecksumDecodes(s: string)
    ensures |Checksum(s)| == 3 && Checksum(s)[0] == '*'
    ensures HexValue(Checksum(s)[1]) * 16 + HexValue(Checksum(s)[2]) == BodyXor(s) as int
    ensures |s| <= 1 ==> Checksum(s) == "*00"
  {
    RenderDecodes(BodyXor(s) as int);
  }

  /** Appending the checksum to a body gives a line a receiver accepts. */
  lemma ChecksumValidates(body: string)
    requires |body| >= 1
    ensures ChecksumMatches(body + Checksum(body))
  {
    var line := body + Checksum(body);
    ChecksumDecodes(body);
    RenderDecodes(BodyXor(body) as int);
    assert line[..|line| - 3] == body;
    assert line[|line| - 3..] == Checksum(body);
  }

  lemma {:induction false} XorAppend(a: string, b: string)
    ensures Xor(a + b) == Xor(a) ^ Xor(b)
    decreases |b|
  {
    if b == [] {
      assert a + b == a;
    } else {
      assert (a + b)[..|a + b| - 1] == a + b[..|b| - 1];
      XorAppend(a, b[..|b| - 1]);
    }
  }

  /** The exclusive-or of `p + [c] + q` splits around `c`. */
  lemma XorAround(p: string, c: char, q: string)
    ensures Xor(p + [c] + q) == Xor(p) ^ ByteOf(c) ^ Xor(q)
  {
    XorAppend(p + [c], q);
    assert (p + [c])[..|p|] == p;
  }

  /** Different accumulated values render differently. */
  lemma ChecksumInjective(s: string, t: string)
    requires BodyXor(s) != BodyXor(t)
    ensures Checksum(s) != Checksum(t)
  {
    ChecksumDecodes(s);
    ChecksumDecodes(t);
    assert BodyXor(s) as int != BodyXor(t) as int;
  }

  /** Changing the byte value of any one character after the first changes the checksum. */
  lemma ChecksumDetectsSingleChange(s: string, t: string, i: nat)
    requires |s| == |t| && 1 <= i < |s|
    requires s[..i] == t[..i] && s[i + 1..] == t[i + 1..]
    requires ByteOf(s[i]) != ByteOf(t[i])
    ensures Checksum(s) != Checksum(t)
  {
    var p, q := s[1..i], s[i + 1..];
    assert p == t[1..i];
    assert s[1..] == p + [s[i]] + q;
    assert t[1..] == p + [t[i]] + q;
    XorAround(p, s[i], q);
    XorAround(p, t[i], q);
    ChecksumInjective(s, t);
  }

  /** The checksum loop of the engine: the same always-true character filter,
      the same 8-bit accumulator, the same zero padding. */
  method ComputeChecksum(str: string) returns (r: string)
    ensures r == Checksum(str)
  {
    var cs: bv8 := 0;
    var n := 1;
    while n < |str|
      invariant 1 <= n
      invariant |str| >= 1 ==> n <= |str| && cs == Xor(str[1..n])
      invariant |str| == 0 ==> cs == 0
    {
      var ch := str[n];
      if ch != '$' || ch != '!' || ch != '*' {
        assert str[1..n + 1][..n - 1] == str[1..n];
        cs := cs ^ ByteOf(ch);
      }
      n := n + 1;
    }
    if |str| >= 1 {
      assert str[1..n] == str[1..];
    }
    if cs < 0x10 {
      r := "*0" + HexString(cs as int);
    } else {
      r := "*" + HexString(cs as int);
    }
  }
}
