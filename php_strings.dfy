/**
 * The PHP string primitives the modelled code is built from: byte strings,
 * trim/ltrim/rtrim, strtr, substr, explode/implode, integer-to-string
 * conversion and ASCII case folding.  They are generic over the element type
 * so that byte strings and text share one definition.
 */
module PhpStrings {

  /** A PHP string is a sequence of bytes. */
  type byte = x: int | 0 <= x < 256

  // ---------------------------------------------------------------------------
  // ltrim, rtrim, trim: strip the longest leading / trailing run of characters
  // taken from a mask (PHP's php_trim).
  // ---------------------------------------------------------------------------

  /** `ltrim($s, $mask)`: the longest prefix made of mask characters is removed. */
  function LTrim<T(==)>(s: seq<T>, mask: set<T>): (r: seq<T>)
    ensures |r| <= |s| && r == s[|s| - |r|..]
    ensures forall k :: 0 <= k < |s| - |r| ==> s[k] in mask
    ensures r == [] || r[0] !in mask
    decreases |s|
  {
    if |s| > 0 && s[0] in mask then LTrim(s[1..], mask) else s
  }

  /** `rtrim($s, $mask)`: the longest suffix made of mask characters is removed. */
  function RTrim<T(==)>(s: seq<T>, mask: set<T>): (r: seq<T>)
    ensures |r| <= |s| && r == s[..|r|]
    ensures forall k :: |r| <= k < |s| ==> s[k] in mask
    ensures r == [] || r[|r| - 1] !in mask
    decreases |s|
  {
    if |s| > 0 && s[|s| - 1] in mask then RTrim(s[..|s| - 1], mask) else s
  }

  /**
   * `trim($s, $mask)`: both runs are removed; what is left is the contiguous
   * middle of `s`, starting where ltrim stops.
   */
  function Trim<T(==)>(s: seq<T>, mask: set<T>): (r: seq<T>)
    ensures var lead := |s| - |LTrim(s, mask)|;
      && lead + |r| <= |s|
      && r == s[lead..lead + |r|]
      && (forall k :: 0 <= k < lead ==> s[k] in mask)
      && (forall k :: lead + |r| <= k < |s| ==> s[k] in mask)
    ensures r == [] || (r[0] !in mask && r[|r| - 1] !in mask)
  {
    RTrim(LTrim(s, mask), mask)
  }

  /** Removing a leading run of mask characters in front of a non-mask character. */
  lemma {:induction false} LTrimRun<T>(lead: seq<T>, rest: seq<T>, mask: set<T>)
    requires forall k :: 0 <= k < |lead| ==> lead[k] in mask
    requires rest == [] || rest[0] !in mask
    ensures LTrim(lead + rest, mask) == rest
    decreases |lead|
  {
    if |lead| > 0 {
      assert (lead + rest)[1..] == lead[1..] + rest;
      LTrimRun(lead[1..], rest, mask);
    }
  }

  /** Removing a trailing run of mask characters behind a non-mask character. */
  lemma {:induction false} RTrimRun<T>(rest: seq<T>, trail: seq<T>, mask: set<T>)
    requires forall k :: 0 <= k < |trail| ==> trail[k] in mask
    requires rest == [] || rest[|rest| - 1] !in mask
    ensures RTrim(rest + trail, mask) == rest
    decreases |trail|
  {
    if |trail| > 0 {
      var n := |trail| - 1;
      assert (rest + trail)[..|rest| + n] == rest + trail[..n];
      RTrimRun(rest, trail[..n], mask);
    }
  }

  /**
   * trim is determined by its result's shape: whenever `s` splits into a run
   * of mask characters, a middle that neither starts nor ends with one, and
   * another run, trim returns exactly that middle.
   */
  lemma {:induction false} TrimUnique<T>(lead: seq<T>, mid: seq<T>, trail: seq<T>, mask: set<T>)
    requires forall k :: 0 <= k < |lead| ==> lead[k] in mask
    requires forall k :: 0 <= k < |trail| ==> trail[k] in mask
    requires mid == [] || (mid[0] !in mask && mid[|mid| - 1] !in mask)
    ensures Trim(lead + mid + trail, mask) == mid
  {
    if mid == [] {
      assert lead + mid + trail == (lead + trail) + [];
      LTrimRun(lead + trail, [], mask);
    } else {
      assert lead + mid + trail == lead + (mid + trail);
      LTrimRun(lead, mid + trail, mask);
      RTrimRun(mid, trail, mask);
    }
  }

  /** The element-wise image of a sequence under `f`. */
  function MapSeq<T, U>(f: T -> U, s: seq<T>): (r: seq<U>)
    ensures |r| == |s|
    ensures forall i :: 0 <= i < |s| ==> r[i] == f(s[i])
  {
    seq(|s|, i requires 0 <= i < |s| => f(s[i]))
  }

  /**
   * trim commutes with any character mapping that neither moves a character
   * into the mask nor out of it.
   */
  lemma TrimMap<T>(f: T -> T, s: seq<T>, mask: set<T>)
    requires forall c :: f(c) in mask <==> c in mask
    ensures Trim(MapSeq(f, s), mask) == MapSeq(f, Trim(s, mask))
  {
    var mid := Trim(s, mask);
    var a, b := TrimParts(s, mask);
    MapSeqAppend3(f, a, mid, b);
    MapKeepsMask(f, a, mask);
    MapKeepsMask(f, b, mask);
    MapKeepsEnds(f, mid, mask);
    TrimUnique(MapSeq(f, a), MapSeq(f, mid), MapSeq(f, b), mask);
  }

  /** `s` is the trimmed middle between two runs of mask elements. */
  lemma TrimParts<T>(s: seq<T>, mask: set<T>) returns (a: seq<T>, b: seq<T>)
    ensures s == a + Trim(s, mask) + b
    ensures forall k :: 0 <= k < |a| ==> a[k] in mask
    ensures forall k :: 0 <= k < |b| ==> b[k] in mask
  {
    var lead := |s| - |LTrim(s, mask)|;
    var mid := Trim(s, mask);
    a, b := s[..lead], s[lead + |mid|..];
    assert s == a + mid + b;
  }

  /** A mapping that keeps mask membership maps a run of mask elements to one. */
  lemma MapKeepsMask<T>(f: T -> T, a: seq<T>, mask: set<T>)
    requires forall c :: f(c) in mask <==> c in mask
    requires forall k :: 0 <= k < |a| ==> a[k] in mask
    ensures forall k :: 0 <= k < |MapSeq(f, a)| ==> MapSeq(f, a)[k] in mask
  {
  }

  /** ... and a sequence whose ends are outside the mask to one whose ends are too. */
  lemma MapKeepsEnds<T>(f: T -> T, a: seq<T>, mask: set<T>)
    requires forall c :: f(c) in mask <==> c in mask
    requires a == [] || (a[0] !in mask && a[|a| - 1] !in mask)
    ensures var m := MapSeq(f, a); m == [] || (m[0] !in mask && m[|m| - 1] !in mask)
  {
  }

  lemma MapSeqAppend3<T, U>(f: T -> U, a: seq<T>, b: seq<T>, c: seq<T>)
    ensures MapSeq(f, a + b + c) == MapSeq(f, a) + MapSeq(f, b) + MapSeq(f, c)
  {
    MapSeqAppend(f, a, b);
    MapSeqAppend(f, a + b, c);
  }

  lemma MapSeqAppend<T, U>(f: T -> U, a: seq<T>, b: seq<T>)
    ensures MapSeq(f, a + b) == MapSeq(f, a) + MapSeq(f, b)
  {
  }

  // ---------------------------------------------------------------------------
  // strtr with two translation strings (PHP's php_strtr).
  // ---------------------------------------------------------------------------

  /**
   * The image of one character: only the first min(|from|, |to|) pairs take
   * part, and when a character occurs twice in `from` the later pair wins.
   */
  function TranslateChar<T(==)>(c: T, from: seq<T>, to: seq<T>): T
    decreases |from|
  {
    var n := if |from| < |to| then |from| else |to|;
    if n == 0 then c
    else if c == from[n - 1] then to[n - 1]
    else TranslateChar(c, from[..n - 1], to[..n - 1])
  }

  /** `strtr($s, $from, $to)`. */
  function Strtr<T(==)>(s: seq<T>, from: seq<T>, to: seq<T>): seq<T> {
    MapSeq(c => TranslateChar(c, from, to), s)
  }

  /** strtr with two distinct source characters, spelled out. */
  lemma TranslatePair<T>(c: T, a: T, b: T, x: T, y: T)
    requires a != b
    ensures TranslateChar(c, [a, b], [x, y]) == if c == b then y else if c == a then x else c
  {
    assert [a, b][..1] == [a] && [x, y][..1] == [x];
    assert [a][..0] == [] && [x][..0] == [];
    assert TranslateChar(c, [a], [x]) == if c == a then x else TranslateChar(c, [], []);
  }

  // ---------------------------------------------------------------------------
  // substr (PHP 8 semantics).
  // ---------------------------------------------------------------------------

  /**
   * `substr($s, $offset, $length)`: a negative offset counts from the end, a
   * negative length leaves that many characters off the end, and both are
   * clamped to the string.
   */
  function Substr<T>(s: seq<T>, offset: int, length: int): (r: seq<T>)
    ensures offset == 0 && 0 <= length ==> r == s[..if length < |s| then length else |s|]
    ensures offset == 0 && length < 0 ==> r == s[..if |s| + length < 0 then 0 else |s| + length]
  {
    var n := |s|;
    if offset > n then []
    else
      var f := if offset >= 0 then offset else if -offset > n then 0 else n + offset;
      var l := if length < 0 then (if -length > n - f then 0 else n - f + length)
               else if length > n - f then n - f else length;
      s[f..f + l]
  }

  // ---------------------------------------------------------------------------
  // explode and implode on a one-character separator.
  // ---------------------------------------------------------------------------

  /** The number of occurrences of `x` in `s`. */
  function Count<T(==)>(x: T, s: seq<T>): nat {
    if |s| == 0 then 0 else (if s[0] == x then 1 else 0) + Count(x, s[1..])
  }

  /**
   * `explode($sep, $s)`: the pieces between separators; the empty string
   * gives one empty piece.
   */
  function Explode<T(==)>(sep: T, s: seq<T>): (parts: seq<seq<T>>)
    ensures |parts| == Count(sep, s) + 1
    ensures forall i :: 0 <= i < |parts| ==> sep !in parts[i]
  {
    if |s| == 0 then [[]]
    else
      var rest := Explode(sep, s[1..]);
      if s[0] == sep then [[]] + rest
      else [[s[0]] + rest[0]] + rest[1..]
  }

  /** `implode($sep, $parts)`. */
  function Implode<T>(sep: T, parts: seq<seq<T>>): seq<T> {
    if |parts| == 0 then []
    else if |parts| == 1 then parts[0]
    else parts[0] + [sep] + Implode(sep, parts[1..])
  }

  /** Exploding a string whose first piece `a` holds no separator. */
  lemma {:induction false} ExplodePrefix<T>(sep: T, a: seq<T>, b: seq<T>)
    requires sep !in a
    ensures Explode(sep, a + b) == [a + Explode(sep, b)[0]] + Explode(sep, b)[1..]
    decreases |a|
  {
    if |a| == 0 {
      var e := Explode(sep, b);
      assert a + b == b && a + e[0] == e[0];
      assert e == [e[0]] + e[1..];
    } else {
      assert (a + b)[1..] == a[1..] + b;
      ExplodePrefix(sep, a[1..], b);
      assert [a[0]] + (a[1..] + Explode(sep, b)[0]) == a + Explode(sep, b)[0];
    }
  }

  /** explode undoes implode when no piece holds the separator. */
  lemma {:induction false} ExplodeImplode<T>(sep: T, parts: seq<seq<T>>)
    requires |parts| >= 1
    requires forall i :: 0 <= i < |parts| ==> sep !in parts[i]
    ensures Explode(sep, Implode(sep, parts)) == parts
  {
    if |parts| == 1 {
      ExplodePrefix(sep, parts[0], []);
      assert parts[0] + [] == parts[0];
    } else {
      var tail := Implode(sep, parts[1..]);
      ExplodeImplode(sep, parts[1..]);
      assert Implode(sep, parts) == parts[0] + ([sep] + tail);
      ExplodePrefix(sep, parts[0], [sep] + tail);
      var st := [sep] + tail;
      assert st[0] == sep && st[1..] == tail;
      assert Explode(sep, st) == [[]] + parts[1..];
      assert parts[0] + [] == parts[0];
      assert parts == [parts[0]] + parts[1..];
    }
  }

  // ---------------------------------------------------------------------------
  // Decimal digits: PHP's conversion of an integer to a string.
  // ---------------------------------------------------------------------------

  predicate IsDigit(c: char) {
    '0' <= c <= '9'
  }

  predicate AllDigits(s: string) {
    forall i :: 0 <= i < |s| ==> IsDigit(s[i])
  }

  function DigitChar(d: int): char
    requires 0 <= d < 10
  {
    ('0' as int + d) as char
  }

  /** The number a string of decimal digits denotes (leading zeros allowed). */
  function DigitsValue(s: string): nat
    requires AllDigits(s)
  {
    if |s| == 0 then 0 else DigitsValue(s[..|s| - 1]) * 10 + (s[|s| - 1] as int - '0' as int)
  }

  /** The decimal digits of `n`, most significant first, without leading zeros. */
  function Decimal(n: nat): (r: string)
    ensures |r| >= 1 && AllDigits(r)
    ensures r[0] != '0' || n == 0
    ensures DigitsValue(r) == n
  {
    if n < 10 then [DigitChar(n)]
    else
      var r := Decimal(n / 10) + [DigitChar(n % 10)];
      assert r[..|r| - 1] == Decimal(n / 10);
      r
  }

  /** A leading zero does not change the value of a digit string. */
  lemma {:induction false} DigitsValueLeadingZero(s: string)
    requires AllDigits(s)
    ensures AllDigits(['0'] + s) && DigitsValue(['0'] + s) == DigitsValue(s)
  {
    if |s| > 0 {
      var z := ['0'] + s;
      assert z[..|z| - 1] == ['0'] + s[..|s| - 1];
      DigitsValueLeadingZero(s[..|s| - 1]);
    }
  }

  /** `(string) $i` for a PHP integer. */
  function IntToString(i: int): (r: string)
    ensures |r| >= 1
  {
    if i < 0 then "-" + Decimal(-i) else Decimal(i)
  }

  /** The length of the longest prefix of `s` made of decimal digits. */
  function DigitPrefixLength(s: string): (n: nat)
    ensures n <= |s| && AllDigits(s[..n])
    ensures n == |s| || !IsDigit(s[n])
  {
    if |s| > 0 && IsDigit(s[0]) then
      var n := 1 + DigitPrefixLength(s[1..]);
      assert s[..n] == [s[0]] + s[1..][..n - 1];
      n
    else 0
  }

  // ---------------------------------------------------------------------------
  // ASCII text.
  // ---------------------------------------------------------------------------

  /** `strtolower` on one character: only 'A'..'Z' change. */
  function LowerChar(c: char): char {
    if 'A' <= c <= 'Z' then (c as int + 32) as char else c
  }

  /** `strtoupper` on one character: only 'a'..'z' change. */
  function UpperChar(c: char): char {
    if 'a' <= c <= 'z' then (c as int - 32) as char else c
  }

  function Lower(s: string): string {
    MapSeq(LowerChar, s)
  }

  function Upper(s: string): string {
    MapSeq(UpperChar, s)
  }

  /** Case folding forgets the case of a letter. */
  lemma LowerUpper(s: string)
    ensures Lower(Upper(s)) == Lower(s)
  {
  }

  predicate IsAscii(s: string) {
    forall i :: 0 <= i < |s| ==> s[i] as int < 128
  }

  /** The bytes of an ASCII string. */
  function AsciiBytes(s: string): seq<byte>
    requires IsAscii(s)
  {
    seq(|s|, i requires 0 <= i < |s| => s[i] as int)
  }

  /** The truth value of a string (PHP's boolean conversion): false for "" and "0" only. */
  predicate StringToBool(s: string) {
    s != "" && s != "0"
  }
}
