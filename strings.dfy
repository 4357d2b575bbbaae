/** The parts of Rust's string library that the core relies on, on ASCII
    text: character classes, `trim`, `split`, `to_lowercase`, and the
    formatting and parsing of integers. */
module Strings {
  import opened Wrappers

  /** char::is_digit(10). */
  predicate IsDigit(c: char)
  {
    '0' <= c <= '9'
  }

  /** char::is_alphabetic, on ASCII. */
  predicate IsAlpha(c: char)
  {
    'a' <= c <= 'z' || 'A' <= c <= 'Z'
  }

  /** char::is_whitespace, on ASCII: tab, line feed, vertical tab, form
      feed, carriage return and space. */
  predicate IsSpace(c: char)
  {
    '\t' <= c <= '\r' || c == ' '
  }

  predicate AllDigits(s: string)
  {
    forall i :: 0 <= i < |s| ==> IsDigit(s[i])
  }

  // ---------------------------------------------------------------------
  // trim

  /** str::trim_start: `s` without its leading whitespace. */
  function TrimStart(s: string): (r: string)
    ensures |r| <= |s| && r == s[|s| - |r|..]
    ensures r == [] || !IsSpace(r[0])
    ensures forall i :: 0 <= i < |s| - |r| ==> IsSpace(s[i])
  {
    if |s| > 0 && IsSpace(s[0]) then
      var r := TrimStart(s[1..]);
      assert forall i :: 1 <= i < |s| - |r| ==> s[i] == s[1..][i - 1];
      r
    else s
  }

  /** str::trim_end: `s` without its trailing whitespace. */
  function TrimEnd(s: string): (r: string)
    ensures |r| <= |s| && r == s[..|r|]
    ensures r == [] || !IsSpace(r[|r| - 1])
    ensures forall i :: |r| <= i < |s| ==> IsSpace(s[i])
  {
    if |s| > 0 && IsSpace(s[|s| - 1]) then TrimEnd(s[..|s| - 1]) else s
  }

  /** str::trim: `s` without leading and trailing whitespace. */
  function Trim(s: string): string
  {
    TrimEnd(TrimStart(s))
  }

  /** Trimming twice is trimming once. */
  lemma TrimIdempotent(s: string)
    ensures Trim(Trim(s)) == Trim(s)
  {
    var t := TrimStart(s);
    var r := TrimEnd(t);
    assert r == [] || r[0] == t[0];
    assert TrimStart(r) == r;
  }

  // ---------------------------------------------------------------------
  // split

  /** `pat` occurs in `s` at position `k`. */
  predicate OccursAt(s: string, pat: string, k: nat)
  {
    k + |pat| <= |s| && s[k..k + |pat|] == pat
  }

  /** The first position at or after `from` where `pat` occurs in `s`. */
  function Find(s: string, pat: string, from: nat): (r: Option<nat>)
    requires |pat| > 0
    ensures r.Some? ==> from <= r.value && OccursAt(s, pat, r.value)
    ensures r.Some? ==> forall k :: from <= k < r.value ==> !OccursAt(s, pat, k)
    ensures r.None? ==> forall k :: from <= k ==> !OccursAt(s, pat, k)
    decreases |s| - from
  {
    if from + |pat| > |s| then None
    else if s[from..from + |pat|] == pat then Some(from)
    else Find(s, pat, from + 1)
  }

  /** str::split with a string pattern: the pieces of `s` between the
      non-overlapping occurrences of `pat`, found from the left. The empty
      pattern separates every character and both ends. */
  function Split(s: string, pat: string): (r: seq<string>)
    ensures |r| >= 1
  {
    if pat == [] then [""] + seq(|s|, i requires 0 <= i < |s| => [s[i]]) + [""]
    else SplitOn(s, pat)
  }

  /** str::split with a non-empty pattern. */
  function SplitOn(s: string, pat: string): (r: seq<string>)
    requires |pat| > 0
    ensures |r| >= 1
    decreases |s|
  {
    match Find(s, pat, 0)
    case None => [s]
    case Some(i) => [s[..i]] + SplitOn(s[i + |pat|..], pat)
  }

  /** The pieces joined back with `pat` between them (slice::join). */
  function Join(parts: seq<string>, pat: string): string
    decreases |parts|
  {
    if |parts| == 0 then ""
    else if |parts| == 1 then parts[0]
    else parts[0] + pat + Join(parts[1..], pat)
  }

  lemma JoinCons(head: string, tail: seq<string>, pat: string)
    requires |tail| >= 1
    ensures Join([head] + tail, pat) == head + pat + Join(tail, pat)
  {
    assert ([head] + tail)[1..] == tail;
  }

  /** Splitting on a non-empty pattern loses nothing: joining the pieces
      with the pattern gives back the text. */
  lemma {:induction false} SplitJoin(s: string, pat: string)
    requires |pat| > 0
    ensures Join(Split(s, pat), pat) == s
    decreases |s|
  {
    match Find(s, pat, 0)
    case None =>
    case Some(i) =>
      var rest := s[i + |pat|..];
      SplitJoin(rest, pat);
      JoinCons(s[..i], SplitOn(rest, pat), pat);
      assert s[i..i + |pat|] == pat;
      assert s == s[..i] + s[i..i + |pat|] + rest;
  }

  /** No piece of a split holds the pattern. */
  lemma {:induction false} SplitPiecesFree(s: string, pat: string)
    requires |pat| > 0
    ensures forall p :: p in Split(s, pat) ==> Find(p, pat, 0).None?
    decreases |s|
  {
    match Find(s, pat, 0)
    case None =>
    case Some(i) =>
      var rest := s[i + |pat|..];
      SplitPiecesFree(rest, pat);
      var head := s[..i];
      if Find(head, pat, 0).Some? {
        var k := Find(head, pat, 0).value;
        assert head[k..k + |pat|] == s[k..k + |pat|];
        assert OccursAt(s, pat, k);
      }
  }

  // ---------------------------------------------------------------------
  // to_lowercase

  function LowerChar(c: char): char
  {
    if 'A' <= c <= 'Z' then (c as int + 32) as char else c
  }

  /** str::to_lowercase, on ASCII. */
  function Lower(s: string): (r: string)
    ensures |r| == |s|
    ensures forall i :: 0 <= i < |s| ==> !('A' <= r[i] <= 'Z')
    ensures forall i :: 0 <= i < |s| ==> (s[i] == r[i] || ('A' <= s[i] <= 'Z' && r[i] as int == s[i] as int + 32))
  {
    seq(|s|, i requires 0 <= i < |s| => LowerChar(s[i]))
  }

  // ---------------------------------------------------------------------
  // integers

  function DigitChar(d: nat): (c: char)
    requires d < 10
    ensures IsDigit(c)
  {
    ('0' as int + d) as char
  }

  function DigitOf(c: char): (d: nat)
    requires IsDigit(c)
    ensures d < 10 && DigitChar(d) == c
  {
    c as int - '0' as int
  }

  /** The decimal digits of `n`, most significant first, without leading
      zeros ("0" for zero). */
  function Digits(n: nat): (r: string)
    ensures |r| >= 1 && AllDigits(r)
    ensures |r| > 1 ==> r[0] != '0'
    decreases n
  {
    if n < 10 then [DigitChar(n)] else Digits(n / 10) + [DigitChar(n % 10)]
  }

  /** format!("{}", i): Rust's decimal rendering of an integer. */
  function Decimal(i: int): (r: string)
    ensures |r| >= 1
  {
    if i < 0 then "-" + Digits(-i) else Digits(i)
  }

  /** The number a string of decimal digits denotes. */
  function DigitsValue(s: string): nat
    requires AllDigits(s)
  {
    if |s| == 0 then 0 else DigitsValue(s[..|s| - 1]) * 10 + DigitOf(s[|s| - 1])
  }

  /** str::parse for integers, before the range check: an optional sign
      followed by at least one decimal digit. */
  function ParseInt(s: string): Option<int>
  {
    var neg := |s| > 0 && s[0] == '-';
    var digits := if |s| > 0 && (s[0] == '-' || s[0] == '+') then s[1..] else s;
    if |digits| == 0 || !AllDigits(digits) then None
    else
      var v: int := DigitsValue(digits);
      Some(if neg then -v else v)
  }

  const I64_MIN: int := -0x8000_0000_0000_0000
  const I64_MAX: int := 0x7fff_ffff_ffff_ffff

  /** str::parse::<i64>. */
  function ParseI64(s: string): (r: Option<int>)
    ensures r.Some? ==> I64_MIN <= r.value <= I64_MAX
  {
    match ParseInt(s)
    case Some(i) => if I64_MIN <= i <= I64_MAX then Some(i) else None
    case None => None
  }

  lemma {:induction false} DigitsValueOf(n: nat)
    ensures DigitsValue(Digits(n)) == n
    decreases n
  {
    var d := Digits(n);
    if n >= 10 {
      DigitsValueOf(n / 10);
      assert d[..|d| - 1] == Digits(n / 10);
    }
  }

  /** Parsing the rendering of an integer gives the integer back. */
  lemma DecimalParses(i: int)
    ensures ParseInt(Decimal(i)) == Some(i)
  {
    var s := Decimal(i);
    if i < 0 {
      DigitsValueOf(-i);
      assert s[1..] == Digits(-i);
    } else {
      DigitsValueOf(i);
      assert s[0] != '-' && s[0] != '+';
    }
  }

  /** Distinct integers render differently. */
  lemma DecimalInjective(a: int, b: int)
    requires Decimal(a) == Decimal(b)
    ensures a == b
  {
    DecimalParses(a);
    DecimalParses(b);
  }
}
