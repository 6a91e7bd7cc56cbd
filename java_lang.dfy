/** The pieces of the Java platform and of commons-lang that the core leans
    on: null strings, `Character.isWhitespace`, `StringUtils.isBlank`, the
    32- and 64-bit integer ranges, `Integer.valueOf` / `Long.valueOf`,
    `String.format("%0Nd", n)`, and the decimal text Redis keeps counters in. */
module JavaLang {
  import opened Wrappers

  /** A Java `String` reference; `None` is `null`. */
  type JString = Option<string>

  const IntMin: int := -0x8000_0000
  const IntMax: int := 0x7FFF_FFFF
  const LongMin: int := -0x8000_0000_0000_0000
  const LongMax: int := 0x7FFF_FFFF_FFFF_FFFF

  /** A Java `int`. */
  type Int32 = x: int | IntMin <= x <= IntMax
  /** A Java `long`. */
  type Int64 = x: int | LongMin <= x <= LongMax

  /** `Character.isWhitespace`: the space, line and paragraph separators other
      than the no-break spaces U+00A0, U+2007 and U+202F, and the controls
      U+0009..U+000D and U+001C..U+001F. */
  predicate IsWhitespace(c: char) {
    c == ' ' || ('\t' <= c <= '\r') || ('\U{1C}' <= c <= '\U{1F}')
    || c == '\U{1680}' || ('\U{2000}' <= c <= '\U{2006}') || ('\U{2008}' <= c <= '\U{200A}')
    || c == '\U{2028}' || c == '\U{2029}' || c == '\U{205F}' || c == '\U{3000}'
  }

  /** `StringUtils.isBlank`: null, empty, or whitespace only. */
  predicate IsBlank(s: JString) {
    s.None? || forall i :: 0 <= i < |s.value| ==> IsWhitespace(s.value[i])
  }

  lemma BlankCases()
    ensures IsBlank(None) && IsBlank(Some("")) && IsBlank(Some(" \t\n"))
    ensures !IsBlank(Some("k")) && !IsBlank(Some(" k "))
    ensures !IsBlank(Some("\U{A0}"))
  {
    assert Some("k").value[0] == 'k';
    assert Some(" k ").value[1] == 'k';
    assert Some("\U{A0}").value[0] == '\U{A0}';
  }

  predicate IsDigit(c: char) {
    '0' <= c <= '9'
  }

  predicate AllDigits(s: string) {
    forall i :: 0 <= i < |s| ==> IsDigit(s[i])
  }

  function DigitChar(d: nat): (c: char)
    requires d < 10
    ensures IsDigit(c) && c as int - '0' as int == d
  {
    ('0' as int + d) as char
  }

  /** The value of a run of decimal digits, most significant first. */
  function DigitsValue(s: string): nat
    requires AllDigits(s)
  {
    if s == [] then 0 else DigitsValue(s[..|s| - 1]) * 10 + (s[|s| - 1] as int - '0' as int)
  }

  /** The shortest decimal digits of `n`. */
  function NatToDigits(n: nat): (s: string)
    ensures |s| >= 1 && AllDigits(s)
  {
    if n < 10 then [DigitChar(n)] else NatToDigits(n / 10) + [DigitChar(n % 10)]
  }

  /** `Long.toString(n)`, which is also how Redis writes an integer value. */
  function Show(n: int): string {
    if n < 0 then "-" + NatToDigits(-n) else NatToDigits(n)
  }

  lemma {:induction false} DigitsValueOfNatToDigits(n: nat)
    ensures DigitsValue(NatToDigits(n)) == n
    ensures NatToDigits(n)[0] == '0' ==> n == 0
  {
    if n >= 10 {
      var s := NatToDigits(n);
      DigitsValueOfNatToDigits(n / 10);
      assert s[..|s| - 1] == NatToDigits(n / 10);
      assert s[0] == NatToDigits(n / 10)[0];
    }
  }

  /** A digit run that does not start with `0` is worth at least one. */
  lemma {:induction false} LeadingDigitPositive(s: string)
    requires AllDigits(s) && |s| >= 1 && s[0] != '0'
    ensures DigitsValue(s) >= 1
  {
    if |s| > 1 {
      LeadingDigitPositive(s[..|s| - 1]);
    }
  }

  /** A digit run without a leading zero is the shortest digits of its value. */
  lemma {:induction false} NatToDigitsOfDigitsValue(s: string)
    requires AllDigits(s) && |s| >= 1 && (s[0] != '0' || |s| == 1)
    ensures NatToDigits(DigitsValue(s)) == s
  {
    if |s| > 1 {
      var p := s[..|s| - 1];
      LeadingDigitPositive(p);
      NatToDigitsOfDigitsValue(p);
      assert s == p + [s[|s| - 1]];
    }
  }

  /** Redis's `string2ll`: the text must be exactly the canonical decimal form
      of a 64-bit value (no sign `+`, no leading zeros, no `-0`, no spaces). */
  function ParseRedisInt(s: string): Option<Int64> {
    if |s| >= 2 && s[0] == '-' && AllDigits(s[1..]) && s[1] != '0' then
      var v: int := -(DigitsValue(s[1..]) as int);
      if LongMin <= v then Some(v) else None
    else if |s| >= 1 && AllDigits(s) && (s[0] != '0' || |s| == 1) then
      var v := DigitsValue(s);
      if v <= LongMax then Some(v) else None
    else None
  }

  /** What Redis writes as an integer it reads back. */
  lemma ParseRedisIntShow(n: Int64)
    ensures ParseRedisInt(Show(n)) == Some(n)
  {
    if n < 0 {
      var m: nat := -(n as int);
      DigitsValueOfNatToDigits(m);
      assert Show(n)[1..] == NatToDigits(m);
    } else {
      DigitsValueOfNatToDigits(n);
    }
  }

  /** And it reads an integer only from the text it would write for it. */
  lemma ShowParseRedisInt(s: string)
    requires ParseRedisInt(s).Some?
    ensures Show(ParseRedisInt(s).value) == s
  {
    if |s| >= 2 && s[0] == '-' && AllDigits(s[1..]) && s[1] != '0' {
      LeadingDigitPositive(s[1..]);
      NatToDigitsOfDigitsValue(s[1..]);
      assert s == "-" + s[1..];
    } else {
      NatToDigitsOfDigitsValue(s);
    }
  }

  /** `Integer.parseInt` / `Long.parseLong` in radix 10 over the range
      `[lo, hi]`: an optional `+` or `-`, then at least one digit, leading
      zeros allowed; `None` is the `NumberFormatException`. */
  function ParseJavaInteger(s: string, lo: int, hi: int): Option<int> {
    if |s| >= 2 && (s[0] == '-' || s[0] == '+') && AllDigits(s[1..]) then
      var v: int := if s[0] == '-' then -(DigitsValue(s[1..]) as int) else DigitsValue(s[1..]);
      if lo <= v <= hi then Some(v) else None
    else if |s| >= 1 && AllDigits(s) then
      var v := DigitsValue(s);
      if lo <= v <= hi then Some(v) else None
    else None
  }

  /** `Integer.valueOf(s)`. */
  function ParseInt(s: string): (r: Option<Int32>)
    ensures r.Some? ==> |s| >= 1
  {
    match ParseJavaInteger(s, IntMin, IntMax)
    case Some(v) => Some(v)
    case None => None
  }

  /** `Long.valueOf(s)`. */
  function ParseLong(s: string): (r: Option<Int64>)
    ensures r.Some? ==> |s| >= 1
  {
    match ParseJavaInteger(s, LongMin, LongMax)
    case Some(v) => Some(v)
    case None => None
  }

  /** Java reads back every `int` it prints. */
  lemma ParseIntShow(n: Int32)
    ensures ParseInt(Show(n)) == Some(n)
  {
    if n < 0 {
      var m: nat := -(n as int);
      var d := NatToDigits(m);
      DigitsValueOfNatToDigits(m);
      assert Show(n)[0] == '-' && Show(n)[1..] == d;
      assert ParseJavaInteger(Show(n), IntMin, IntMax) == Some(n as int);
    } else {
      DigitsValueOfNatToDigits(n);
      assert IsDigit(Show(n)[0]);
      assert ParseJavaInteger(Show(n), IntMin, IntMax) == Some(n as int);
    }
  }

  /** Java's parse accepts what Redis's does, and more (a `+`, leading zeros). */
  lemma ParseLongAcceptsRedisInt(s: string)
    requires ParseRedisInt(s).Some?
    ensures ParseLong(s) == ParseRedisInt(s)
  {
  }

  lemma ParseExamples()
    ensures ParseInt("6379") == Some(6379)
    ensures ParseInt("+5") == Some(5) && ParseInt("007") == Some(7)
    ensures ParseInt("6379 ") == None && ParseInt("b") == None && ParseInt("") == None
    ensures ParseInt("-") == None
    ensures ParseRedisInt("007") == None && ParseRedisInt("+5") == None && ParseRedisInt("-0") == None
  {
    assert !IsDigit(' ');
    assert DigitsValue("6379") == 6379 by {
      assert "6379"[..3] == "637";
      assert "637"[..2] == "63";
      assert "63"[..1] == "6";
    }
    assert DigitsValue("007") == 7 by {
      assert "007"[..2] == "00";
      assert "00"[..1] == "0";
    }
    assert "+5"[1..] == "5";
  }

  function Zeros(n: nat): (s: string)
    ensures |s| == n && forall i :: 0 <= i < n ==> s[i] == '0'
  {
    if n == 0 then "" else "0" + Zeros(n - 1)
  }

  /** `String.format("%0" + width + "d", n)` for `width >= 1`: the sign, then
      zeros up to the width, then the digits; never truncated. */
  function ZeroPad(n: int, width: nat): string
    requires width >= 1
  {
    var digits := NatToDigits(if n < 0 then -n else n);
    var sign := if n < 0 then "-" else "";
    var pad := width - |sign| - |digits|;
    sign + Zeros(if pad > 0 then pad else 0) + digits
  }

  function Pow10(k: nat): (r: nat)
    ensures r >= 1
  {
    if k == 0 then 1 else 10 * Pow10(k - 1)
  }

  /** A value below `10^k` has at most `k` digits. */
  lemma {:induction false} NatToDigitsLength(n: nat, k: nat)
    requires n < Pow10(k)
    ensures k >= 1 ==> |NatToDigits(n)| <= k
  {
    if n >= 10 {
      NatToDigitsLength(n / 10, k - 1);
    }
  }

  /** Zero padding a non-negative value below `10^width` gives exactly `width`
      digits whose value is the number. */
  lemma ZeroPadFixedWidth(n: nat, width: nat)
    requires width >= 1 && n < Pow10(width)
    ensures |ZeroPad(n, width)| == width && AllDigits(ZeroPad(n, width))
    ensures DigitsValue(ZeroPad(n, width)) == n
  {
    NatToDigitsLength(n, width);
    var z := Zeros(width - |NatToDigits(n)|);
    assert ZeroPad(n, width) == z + NatToDigits(n);
    DigitsValueOfNatToDigits(n);
    LeadingZerosIgnored(z, NatToDigits(n));
  }

  lemma {:induction false} LeadingZerosIgnored(z: string, d: string)
    requires AllDigits(d) && forall i :: 0 <= i < |z| ==> z[i] == '0'
    ensures AllDigits(z + d) && DigitsValue(z + d) == DigitsValue(d) + DigitsValue(z) * Pow10(|d|)
    ensures DigitsValue(z) == 0
  {
    ZerosWorthNothing(z);
    if d != [] {
      var p := d[..|d| - 1];
      assert (z + d)[..|z + d| - 1] == z + p;
      LeadingZerosIgnored(z, p);
    } else {
      assert z + d == z;
    }
  }

  lemma {:induction false} ZerosWorthNothing(z: string)
    requires forall i :: 0 <= i < |z| ==> z[i] == '0'
    ensures AllDigits(z) && DigitsValue(z) == 0
  {
    if z != [] {
      ZerosWorthNothing(z[..|z| - 1]);
    }
  }

  /** The position where `x` first occurs in `xs`. */
  function FirstIndex<X(==)>(xs: seq<X>, x: X): (r: nat)
    requires x in xs
    ensures r < |xs| && xs[r] == x && x !in xs[..r]
  {
    if xs[0] == x then 0
    else
      var r := 1 + FirstIndex(xs[1..], x);
      assert xs[..r] == [xs[0]] + xs[1..][..r - 1];
      r
  }

  /** An occurrence with no earlier one is the first. */
  lemma FirstIndexUnique<X>(xs: seq<X>, x: X, k: nat)
    requires k < |xs| && xs[k] == x && x !in xs[..k]
    ensures FirstIndex(xs, x) == k
  {
  }

  /** Appending does not move the first occurrence of an element already
      present, and places a new element last. */
  lemma FirstIndexAppend<X>(init: seq<X>, x: X)
    ensures forall y :: y in init ==> FirstIndex(init + [x], y) == FirstIndex(init, y)
    ensures x !in init ==> FirstIndex(init + [x], x) == |init|
  {
    forall y | y in init
      ensures FirstIndex(init + [x], y) == FirstIndex(init, y)
    {
      var k := FirstIndex(init, y);
      assert (init + [x])[..k] == init[..k];
      FirstIndexUnique(init + [x], y, k);
    }
    if x !in init {
      assert (init + [x])[..|init|] == init;
      FirstIndexUnique(init + [x], x, |init|);
    }
  }

  /** The elements of a `LinkedHashSet` after adding `xs` in order: first
      occurrences, in order of arrival. */
  function LinkedSet<X(==, !new)>(xs: seq<X>): (r: seq<X>)
    ensures forall x :: x in r <==> x in xs
    ensures forall i, j :: 0 <= i < j < |r| ==> r[i] != r[j]
    ensures |r| <= |xs|
    ensures forall i, j {:trigger FirstIndex(xs, r[i]), FirstIndex(xs, r[j])} ::
              0 <= i < j < |r| ==> FirstIndex(xs, r[i]) < FirstIndex(xs, r[j])
  {
    if xs == [] then []
    else
      var init := xs[..|xs| - 1];
      var p := LinkedSet(init);
      var x := xs[|xs| - 1];
      assert xs == init + [x];
      FirstIndexAppend(init, x);
      if x in p then p else p + [x]
  }

  /** Without repetitions nothing is dropped. */
  lemma {:induction false} LinkedSetOfDistinct<X(!new)>(xs: seq<X>)
    requires forall i, j :: 0 <= i < j < |xs| ==> xs[i] != xs[j]
    ensures LinkedSet(xs) == xs
  {
    if xs != [] {
      var init := xs[..|xs| - 1];
      var x := xs[|xs| - 1];
      LinkedSetOfDistinct(init);
      assert x !in init;
      assert xs == init + [x];
    }
  }
}
