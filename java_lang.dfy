/** The few pieces of java.lang the core leans on: 32-bit int bounds and
    wrap-around, truncating `%`, the overflowing `Math.abs`, `String.hashCode`
    over UTF-16 units, `String.isBlank`, `String.trim`, `String.indexOf(char)`,
    and `Integer.valueOf(String)` and `%0wd` formatting over ASCII digits. */
module JavaLang {
  import opened Wrappers

  /** An octet of a datagram or of UTF-8 text. */
  newtype byte = x: int | 0 <= x < 256

  const IntMin: int := -0x8000_0000
  const IntMax: int := 0x7fff_ffff

  predicate IsInt32(x: int) {
    IntMin <= x <= IntMax
  }

  /** Two's-complement wrap-around of a mathematical integer into an `int`. */
  function Wrap32(x: int): (r: int)
    ensures IsInt32(r)
    ensures (r - x) % 0x1_0000_0000 == 0
    ensures IsInt32(x) ==> r == x
  {
    ((x - IntMin) % 0x1_0000_0000) + IntMin
  }

  /** `Math.abs(int)`: the negation of `Integer.MIN_VALUE` overflows back to itself. */
  function Abs32(x: int): (r: int)
    requires IsInt32(x)
    ensures IsInt32(r)
    ensures x != IntMin ==> r >= 0 && (r == x || r == -x)
    ensures x == IntMin ==> r < 0
  {
    if x == IntMin then IntMin else if x < 0 then -x else x
  }

  /** Java's `a % b` for `b > 0`: truncates toward zero, so the sign follows `a`. */
  function Rem(a: int, b: int): (r: int)
    requires b > 0
    ensures a >= 0 ==> 0 <= r < b
    ensures a < 0 ==> -b < r <= 0
  {
    if a >= 0 then a % b else -((-a) % b)
  }

  /** Above the Basic Multilingual Plane a Java `String` stores a character
      as two UTF-16 code units: a high surrogate, then a low one. */
  function HighSurrogate(c: char): int
    requires c as int >= 0x1_0000
  {
    0xD800 + (c as int - 0x1_0000) / 0x400
  }

  function LowSurrogate(c: char): int
    requires c as int >= 0x1_0000
  {
    0xDC00 + (c as int - 0x1_0000) % 0x400
  }

  /** The two surrogates lie in their own ranges and give the character back. */
  lemma SurrogatePair(c: char)
    requires c as int >= 0x1_0000
    ensures 0xD800 <= HighSurrogate(c) < 0xDC00 <= LowSurrogate(c) < 0xE000
    ensures (HighSurrogate(c) - 0xD800) * 0x400 + (LowSurrogate(c) - 0xDC00) + 0x1_0000 == c as int
  {
  }

  /** One step of `String.hashCode()` over a code unit u: 31*h + u, in `int`. */
  function HashStep(h: int, u: int): (r: int)
    ensures IsInt32(r)
  {
    Wrap32(31 * h + u)
  }

  /** One character's share of `String.hashCode()`: a step for each of its
      UTF-16 code units in turn. */
  function CharHash(h: int, c: char): (r: int)
    ensures IsInt32(r)
  {
    if c as int < 0x1_0000 then HashStep(h, c as int)
    else HashStep(HashStep(h, HighSurrogate(c)), LowSurrogate(c))
  }

  /** `String.hashCode()`: the hash over the string's UTF-16 code units. */
  function HashCode(s: string): (h: int)
    ensures IsInt32(h)
  {
    if s == [] then 0 else CharHash(HashCode(s[..|s| - 1]), s[|s| - 1])
  }

  /** The hash of a string extended by one character: one step for a
      character of the Basic Multilingual Plane, one for each of its two
      surrogates above it. */
  lemma HashCodeSnoc(s: string, c: char)
    ensures c as int < 0x1_0000 ==> HashCode(s + [c]) == HashStep(HashCode(s), c as int)
    ensures c as int >= 0x1_0000 ==>
      HashCode(s + [c]) == HashStep(HashStep(HashCode(s), HighSurrogate(c)), LowSurrogate(c))
  {
    assert (s + [c])[..|s|] == s;
  }

  /** A character outside the Basic Multilingual Plane hashes as its two
      surrogates: "\U{1F600}" is 31 * 0xD83D + 0xDE00. */
  lemma SupplementaryHash()
    ensures HashCode("\U{1F600}") == 1772899
  {
    var c := '\U{1F600}';
    assert HighSurrogate(c) == 0xD83D && LowSurrogate(c) == 0xDE00;
    assert HashStep(0, 0xD83D) == 0xD83D;
    assert HashStep(0xD83D, 0xDE00) == 1772899;
    HashCodeSnoc([], c);
    assert [] + [c] == "\U{1F600}";
  }

  /** One of the strings whose hash is `Integer.MIN_VALUE`. */
  lemma MinHashName()
    ensures HashCode("GydZG_") == IntMin
  {
    var s1 := ['G'];
    HashCodeSnoc([], 'G');
    assert HashCode(s1) == 71;
    var s2 := s1 + ['y'];
    HashCodeSnoc(s1, 'y');
    assert HashCode(s2) == 2322;
    var s3 := s2 + ['d'];
    HashCodeSnoc(s2, 'd');
    assert HashCode(s3) == 72082;
    var s4 := s3 + ['Z'];
    HashCodeSnoc(s3, 'Z');
    assert HashCode(s4) == 2234632;
    var s5 := s4 + ['G'];
    HashCodeSnoc(s4, 'G');
    assert HashCode(s5) == 69273663;
    var s6 := s5 + ['_'];
    HashCodeSnoc(s5, '_');
    assert s6 == "GydZG_";
  }

  /** `Character.isWhitespace`: the Unicode space, line and paragraph separators
      other than the non-breaking ones, plus the ASCII and C0 separators. */
  predicate IsWhitespace(c: char) {
    var u := c as int;
    (9 <= u <= 13) || (28 <= u <= 32) || u == 0x1680 || (0x2000 <= u <= 0x2006)
    || (0x2008 <= u <= 0x200A) || u == 0x2028 || u == 0x2029 || u == 0x205F || u == 0x3000
  }

  /** `String.isBlank()`: empty or white space only. */
  predicate IsBlank(s: string) {
    forall i | 0 <= i < |s| :: IsWhitespace(s[i])
  }

  /** A Java `String` reference that is null or blank. */
  predicate IsNullOrBlank(s: Option<string>) {
    s.None? || IsBlank(s.value)
  }

  /** The leading half of `String.trim()`: every leading character at or
      below U+0020 is dropped. */
  function TrimStart(s: string): (t: string)
    ensures |t| <= |s| && t == s[|s| - |t|..]
    ensures forall i | 0 <= i < |s| - |t| :: s[i] <= ' '
    ensures |t| > 0 ==> t[0] > ' '
  {
    if |s| > 0 && s[0] <= ' ' then TrimStart(s[1..]) else s
  }

  /** The trailing half of `String.trim()`. */
  function TrimEnd(s: string): (t: string)
    ensures |t| <= |s| && t == s[..|t|]
    ensures forall i | |t| <= i < |s| :: s[i] <= ' '
    ensures |t| > 0 ==> t[|t| - 1] > ' '
  {
    if |s| > 0 && s[|s| - 1] <= ' ' then TrimEnd(s[..|s| - 1]) else s
  }

  /** `t` is the part of `s` from position `k` on, with only characters at
      or below U+0020 before it and after it. */
  predicate MiddleOf(t: string, s: string, k: int) {
    && 0 <= k <= |s| - |t|
    && t == s[k..k + |t|]
    && (forall i | 0 <= i < k :: s[i] <= ' ')
    && (forall i | k + |t| <= i < |s| :: s[i] <= ' ')
  }

  /** A suffix of `s` after only characters at or below U+0020, cut down to
      a prefix before only such characters, is a middle of `s`. */
  lemma MiddleFromEnds(s: string, u: string, t: string)
    requires |u| <= |s| && u == s[|s| - |u|..]
    requires forall i | 0 <= i < |s| - |u| :: s[i] <= ' '
    requires |t| <= |u| && t == u[..|t|]
    requires forall i | |t| <= i < |u| :: u[i] <= ' '
    ensures MiddleOf(t, s, |s| - |u|)
  {
    var k := |s| - |u|;
    assert t == s[k..k + |t|];
    assert forall i | k + |t| <= i < |s| :: s[i] == u[i - k];
  }

  /** `String.trim()`: what is left once both ends are dropped is the middle
      of `s`, and everything dropped is at or below U+0020. */
  function Trim(s: string): (t: string)
    ensures |t| <= |s|
    ensures |t| > 0 ==> t[0] > ' ' && t[|t| - 1] > ' '
    ensures exists k :: MiddleOf(t, s, k)
  {
    var u := TrimStart(s);
    var t := TrimEnd(u);
    MiddleFromEnds(s, u, t);
    t
  }

  /** `String.indexOf(char)`: the first position of `c`, or -1. */
  function IndexOf(s: string, c: char): (r: int)
    ensures -1 <= r < |s|
    ensures r >= 0 ==> s[r] == c
    ensures forall i | 0 <= i < |s| && (r < 0 || i < r) :: s[i] != c
  {
    if s == [] then -1
    else if s[0] == c then 0
    else var k := IndexOf(s[1..], c); if k < 0 then -1 else k + 1
  }

  predicate IsDigit(c: char) {
    '0' <= c <= '9'
  }

  predicate AllDigits(s: string) {
    forall i | 0 <= i < |s| :: IsDigit(s[i])
  }

  /** The value of a run of decimal digits, most significant first. */
  function DecimalValue(ds: string): (n: nat)
    requires AllDigits(ds)
  {
    if ds == [] then 0 else DecimalValue(ds[..|ds| - 1]) * 10 + ((ds[|ds| - 1] as int) - ('0' as int))
  }

  function Pow10(w: nat): (p: nat)
    ensures p >= 1
  {
    if w == 0 then 1 else 10 * Pow10(w - 1)
  }

  /** `Integer.valueOf(String)` over ASCII digits: an optional `+` or `-`, then
      one or more of `0` to `9`, with a value that fits an `int`; any other
      text is `None`, for the NumberFormatException. Java also accepts every
      other Unicode decimal digit (`Character.digit`), which this model
      treats as not a digit. */
  function ParseInt(s: string): (r: Option<int>)
    ensures r.Some? ==> IsInt32(r.value)
  {
    if |s| == 0 then None
    else
      var digits := if s[0] == '-' || s[0] == '+' then s[1..] else s;
      if |digits| == 0 || !AllDigits(digits) then None
      else
        var v: int := if s[0] == '-' then -(DecimalValue(digits) as int) else DecimalValue(digits);
        if IsInt32(v) then Some(v) else None
  }

  /** The decimal text of `n` in ASCII digits, zero-padded on the left to `w`
      digits (`String.format("%0" + w + "d", n)` when `n` has at most `w`
      digits and the default locale uses the ASCII digits). */
  function ZeroPadded(n: nat, w: nat): (s: string)
    ensures |s| == w && AllDigits(s)
  {
    if w == 0 then [] else ZeroPadded(n / 10, w - 1) + [(('0' as int) + n % 10) as char]
  }

  lemma {:induction false} ZeroPaddedValue(n: nat, w: nat)
    requires n < Pow10(w)
    ensures DecimalValue(ZeroPadded(n, w)) == n
  {
    if w > 0 {
      var s := ZeroPadded(n, w);
      ZeroPaddedValue(n / 10, w - 1);
      assert s[..|s| - 1] == ZeroPadded(n / 10, w - 1);
    }
  }

  /** Formatting a non-negative `int` with `%0wd` and parsing it back gives it back. */
  lemma ParseZeroPadded(n: nat, w: nat)
    requires n < Pow10(w) && n <= IntMax && w > 0
    ensures ParseInt(ZeroPadded(n, w)) == Some(n)
  {
    var s := ZeroPadded(n, w);
    assert IsDigit(s[0]);
    ZeroPaddedValue(n, w);
  }
}
