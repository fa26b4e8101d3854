/** Decimal numerals. The transcript carries numbers as decimal strings;
    `long(s)` reads them, and the decryption-proof challenge hashes the
    strings themselves, so both views of a commitment are needed. */
module Decimal {
  import opened Wrappers

  predicate IsDigit(c: char)
  {
    '0' <= c <= '9'
  }

  predicate AllDigits(s: string)
  {
    forall k :: 0 <= k < |s| ==> IsDigit(s[k])
  }

  function DigitValue(c: char): (d: nat)
    requires IsDigit(c)
    ensures d < 10
  {
    (c as int - '0' as int) as nat
  }

  function DigitChar(d: nat): (c: char)
    requires d < 10
    ensures IsDigit(c) && DigitValue(c) == d
  {
    (('0' as int) + d) as char
  }

  /** The value of a string of digits, most significant first. */
  function DigitsValue(s: string): nat
    requires AllDigits(s)
    decreases |s|
  {
    if |s| == 0 then 0 else DigitsValue(s[..|s| - 1]) * 10 + DigitValue(s[|s| - 1])
  }

  /** Python's whitespace among ASCII characters: tab, line feed, vertical
      tab, form feed, carriage return, the four separators 28-31 and space. */
  predicate IsSpace(c: char)
  {
    9 <= c as int <= 13 || 28 <= c as int <= 32
  }

  predicate AllSpace(s: string)
  {
    forall k :: 0 <= k < |s| ==> IsSpace(s[k])
  }

  /** The numeral `long(s)` reads, cut into its parts: leading blanks, an
      optional sign, blanks, the digits, an optional `L` suffix, and
      trailing blanks. */
  datatype LongParts = LongParts(lead: string, sign: string, gap: string, digits: string, suffix: string, trail: string)

  /** The parts spell a numeral `long()` accepts in base 10. */
  predicate WellFormed(p: LongParts)
  {
    && AllSpace(p.lead)
    && (p.sign == [] || p.sign == ['+'] || p.sign == ['-'])
    && AllSpace(p.gap)
    && |p.digits| > 0 && AllDigits(p.digits)
    && (p.suffix == [] || p.suffix == ['L'] || p.suffix == ['l'])
    && AllSpace(p.trail)
  }

  function Joined(p: LongParts): string
  {
    p.lead + p.sign + p.gap + p.digits + p.suffix + p.trail
  }

  /** The number the parts denote. */
  function SignedValue(p: LongParts): int
    requires AllDigits(p.digits)
  {
    var v: int := DigitsValue(p.digits);
    if p.sign == ['-'] then -v else v
  }

  /** The end of the run of blanks that starts at position i. */
  function SpaceEnd(s: string, i: nat): (r: nat)
    requires i <= |s|
    ensures i <= r <= |s|
    ensures forall k :: i <= k < r ==> IsSpace(s[k])
    ensures r < |s| ==> !IsSpace(s[r])
    decreases |s| - i
  {
    if i < |s| && IsSpace(s[i]) then SpaceEnd(s, i + 1) else i
  }

  /** The end of the run of digits that starts at position i. */
  function DigitEnd(s: string, i: nat): (r: nat)
    requires i <= |s|
    ensures i <= r <= |s|
    ensures forall k :: i <= k < r ==> IsDigit(s[k])
    ensures r < |s| ==> !IsDigit(s[r])
    decreases |s| - i
  {
    if i < |s| && IsDigit(s[i]) then DigitEnd(s, i + 1) else i
  }

  /** s cut greedily into the parts of a numeral, as `long()` scans it. */
  function Split(s: string): (p: LongParts)
    ensures Joined(p) == s
  {
    var i1 := SpaceEnd(s, 0);
    var i2 := if i1 < |s| && (s[i1] == '+' || s[i1] == '-') then i1 + 1 else i1;
    var i3 := SpaceEnd(s, i2);
    var i4 := DigitEnd(s, i3);
    var i5 := if i4 < |s| && (s[i4] == 'L' || s[i4] == 'l') then i4 + 1 else i4;
    SliceJoin(s, i1, i2, i3, i4, i5);
    LongParts(s[..i1], s[i1..i2], s[i2..i3], s[i3..i4], s[i4..i5], s[i5..])
  }

  lemma SliceJoin(s: string, i1: nat, i2: nat, i3: nat, i4: nat, i5: nat)
    requires i1 <= i2 <= i3 <= i4 <= i5 <= |s|
    ensures s[..i1] + s[i1..i2] + s[i2..i3] + s[i3..i4] + s[i4..i5] + s[i5..] == s
  {
    assert s[..i1] + s[i1..i2] == s[..i2];
    assert s[..i2] + s[i2..i3] == s[..i3];
    assert s[..i3] + s[i3..i4] == s[..i4];
    assert s[..i4] + s[i4..i5] == s[..i5];
    assert s[..i5] + s[i5..] == s;
  }

  /** Python 2's `long(s)` in base 10: blanks around the numeral, a sign
      and blanks after it, and a trailing `L` or `l` are accepted. Whatever
      it accepts is a well-formed numeral, read with its sign. */
  function ParseLong(s: string): (r: Option<int>)
    ensures r.Some? ==> exists p :: WellFormed(p) && Joined(p) == s && SignedValue(p) == r.value
  {
    var p := Split(s);
    if WellFormed(p) then Some(SignedValue(p)) else None
  }

  lemma {:induction false} SpaceEndAt(s: string, i: nat, j: nat)
    requires i <= j <= |s|
    requires forall k :: i <= k < j ==> IsSpace(s[k])
    requires j < |s| ==> !IsSpace(s[j])
    ensures SpaceEnd(s, i) == j
    decreases j - i
  {
    if i < j {
      SpaceEndAt(s, i + 1, j);
    }
  }

  lemma {:induction false} DigitEndAt(s: string, i: nat, j: nat)
    requires i <= j <= |s|
    requires forall k :: i <= k < j ==> IsDigit(s[k])
    requires j < |s| ==> !IsDigit(s[j])
    ensures DigitEnd(s, i) == j
    decreases j - i
  {
    if i < j {
      DigitEndAt(s, i + 1, j);
    }
  }

  /** Every well-formed numeral is accepted, with the value it spells: with
      the contract of `ParseLong`, `long(s)` succeeds exactly on the strings
      that split into well-formed parts. */
  lemma ParseLongAccepts(p: LongParts)
    requires WellFormed(p)
    ensures ParseLong(Joined(p)) == Some(SignedValue(p))
  {
    var q := Split(Joined(p));
    SplitFinds(p);
    assert SignedValue(q) == SignedValue(p);
  }

  /** Scanning a joined numeral finds its sign, its digits and its suffix,
      and only blanks around them. */
  lemma SplitFinds(p: LongParts)
    requires WellFormed(p)
    ensures WellFormed(Split(Joined(p)))
    ensures Split(Joined(p)).sign == p.sign && Split(Joined(p)).digits == p.digits
  {
    var s := Joined(p);
    var a := |p.lead|;
    var b := a + |p.sign|;
    var c := b + |p.gap|;
    var d := c + |p.digits|;
    var e := d + |p.suffix|;
    JoinedParts(p, a, b, c, d, e);
    SpacesIn(s, 0, a);
    SpacesIn(s, b, c);
    DigitsIn(s, c, d);
    SpacesIn(s, e, |s|);
    assert !IsSpace(s[c]) && !(s[c] == '+' || s[c] == '-');
    var i1 := if p.sign == [] then c else a;
    var i2 := if p.sign == [] then c else b;
    if p.sign == [] {
      SpaceEndAt(s, 0, c);
      SpaceEndAt(s, c, c);
    } else {
      assert s[a] == p.sign[0];
      SpaceEndAt(s, 0, a);
      SpaceEndAt(s, b, c);
    }
    DigitEndAt(s, c, d);
    if p.suffix == [] {
      assert d < |s| ==> IsSpace(s[d]);
    } else {
      assert s[d] == p.suffix[0];
    }
    SplitAt(s, i1, i2, c, d, e);
    var q := Split(s);
    if p.sign == [] {
      assert q.sign == [] && q.gap == [];
      assert AllSpace(q.lead) by {
        forall k | 0 <= k < c ensures IsSpace(q.lead[k]) {
          assert q.lead[k] == s[k];
        }
      }
    } else {
      assert q.lead == p.lead && q.sign == p.sign && q.gap == p.gap;
    }
    assert q.digits == s[c..d];
    assert q.suffix == s[d..e];
    assert q.trail == s[e..];
    assert q.digits == p.digits && q.sign == p.sign;
  }

  /** Split in terms of the positions where its scan stops. */
  lemma SplitAt(s: string, i1: nat, i2: nat, i3: nat, i4: nat, i5: nat)
    requires i1 == SpaceEnd(s, 0)
    requires i2 == if i1 < |s| && (s[i1] == '+' || s[i1] == '-') then i1 + 1 else i1
    requires i3 == SpaceEnd(s, i2)
    requires i4 == DigitEnd(s, i3)
    requires i5 == if i4 < |s| && (s[i4] == 'L' || s[i4] == 'l') then i4 + 1 else i4
    ensures Split(s) == LongParts(s[..i1], s[i1..i2], s[i2..i3], s[i3..i4], s[i4..i5], s[i5..])
  {
  }

  lemma SpacesIn(s: string, i: nat, j: nat)
    requires i <= j <= |s| && AllSpace(s[i..j])
    ensures forall k :: i <= k < j ==> IsSpace(s[k])
  {
    assert forall k :: i <= k < j ==> s[k] == s[i..j][k - i];
  }

  lemma DigitsIn(s: string, i: nat, j: nat)
    requires i <= j <= |s| && AllDigits(s[i..j])
    ensures forall k :: i <= k < j ==> IsDigit(s[k])
  {
    assert forall k :: i <= k < j ==> s[k] == s[i..j][k - i];
  }

  /** Where each part of a joined numeral sits. */
  lemma JoinedParts(p: LongParts, a: nat, b: nat, c: nat, d: nat, e: nat)
    requires a == |p.lead| && b == a + |p.sign| && c == b + |p.gap|
    requires d == c + |p.digits| && e == d + |p.suffix|
    ensures e <= |Joined(p)|
    ensures Joined(p)[..a] == p.lead && Joined(p)[a..b] == p.sign && Joined(p)[b..c] == p.gap
    ensures Joined(p)[c..d] == p.digits && Joined(p)[d..e] == p.suffix && Joined(p)[e..] == p.trail
  {
  }

  /** `str(n)`: the canonical numeral of n. */
  function Render(n: nat): (s: string)
    ensures |s| > 0 && AllDigits(s)
    decreases n
  {
    if n < 10 then [DigitChar(n)] else Render(n / 10) + [DigitChar(n % 10)]
  }

  /** A canonical numeral: non-empty, all digits, no leading zero unless it
      is "0" itself. */
  predicate Canonical(s: string)
  {
    |s| > 0 && AllDigits(s) && (s[0] != '0' || |s| == 1)
  }

  /** Reading back a rendered number gives the number: the conversion the
      transcript relies on is lossless. */
  lemma ParseRender(n: nat)
    ensures Canonical(Render(n))
    ensures ParseLong(Render(n)) == Some(n)
  {
    RenderValue(n);
    var p := LongParts([], [], [], Render(n), [], []);
    assert Joined(p) == Render(n);
    ParseLongAccepts(p);
  }

  /** The numeral of n is canonical and its digits denote n. */
  lemma {:induction false} RenderValue(n: nat)
    ensures Canonical(Render(n))
    ensures DigitsValue(Render(n)) == n
    decreases n
  {
    var s := Render(n);
    if n >= 10 {
      RenderValue(n / 10);
      var init := Render(n / 10);
      assert s[..|s| - 1] == init;
      assert s[0] == init[0];
      assert DigitsValue(s) == DigitsValue(init) * 10 + n % 10;
    } else {
      assert s == [DigitChar(n)];
      assert s[..|s| - 1] == [];
      assert DigitsValue(s) == DigitsValue([]) * 10 + DigitValue(DigitChar(n));
    }
  }

  /** A numeral with a non-zero leading digit denotes a positive number. */
  lemma {:induction false} LeadingDigitPositive(s: string)
    requires |s| > 0 && AllDigits(s) && s[0] != '0'
    ensures DigitsValue(s) > 0
    decreases |s|
  {
    if |s| > 1 {
      var init := s[..|s| - 1];
      LeadingDigitPositive(init);
    }
  }

  /** Rendering the value of a canonical numeral gives the numeral back, so
      canonical numerals and numbers are in one-to-one correspondence. */
  lemma {:induction false} RenderParse(s: string)
    requires Canonical(s)
    ensures Render(DigitsValue(s)) == s
    decreases |s|
  {
    if |s| > 1 {
      var init := s[..|s| - 1];
      assert Canonical(init);
      LeadingDigitPositive(init);
      RenderParse(init);
      var v, d := DigitsValue(init), DigitValue(s[|s| - 1]);
      assert DigitsValue(s) == v * 10 + d;
      assert (v * 10 + d) / 10 == v && (v * 10 + d) % 10 == d;
      assert DigitChar(d) == s[|s| - 1];
      assert s == init + [s[|s| - 1]];
    } else {
      assert DigitChar(DigitValue(s[0])) == s[0];
    }
  }
}
