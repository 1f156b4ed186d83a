/**
  The parts of `java.lang.String` and `Integer` the server calls, written out
  so that their edge cases are explicit: `trim`, cutting at the first `#`,
  ASCII `toLowerCase`, `startsWith`, `split("\\.")` and `Integer.parseInt`.
 */
module JavaStrings {
  import opened Base

  // ---------------------------------------------------------------- trim

  /** `String.trim` strips every leading and trailing char at or below U+0020. */
  predicate IsTrimmed(c: char) {
    c as int <= 0x20
  }

  /** Neither end of `s` is a char that `trim` would strip. */
  predicate TrimmedEnds(s: string) {
    s == [] || (!IsTrimmed(s[0]) && !IsTrimmed(s[|s| - 1]))
  }

  /** How many chars `trim` strips from the front of `s`. */
  function LeadingTrimmed(s: string): (n: nat)
    ensures n <= |s|
    ensures forall k :: 0 <= k < n ==> IsTrimmed(s[k])
    ensures n < |s| ==> !IsTrimmed(s[n])
  {
    if s != [] && IsTrimmed(s[0]) then 1 + LeadingTrimmed(s[1..]) else 0
  }

  /** How many chars `trim` strips from the back of `s`. */
  function TrailingTrimmed(s: string): (n: nat)
    ensures n <= |s|
    ensures forall k :: |s| - n <= k < |s| ==> IsTrimmed(s[k])
    ensures n < |s| ==> !IsTrimmed(s[|s| - 1 - n])
  {
    if s != [] && IsTrimmed(s[|s| - 1]) then 1 + TrailingTrimmed(s[..|s| - 1]) else 0
  }

  /** `r` is the part of `s` that starts at `a`, and everything of `s`
      before and after that part is a char `trim` removes. */
  predicate MiddleOf(s: string, r: string, a: nat) {
    && a + |r| <= |s|
    && (forall k :: 0 <= k < |r| ==> r[k] == s[a + k])
    && (forall k :: 0 <= k < a ==> IsTrimmed(s[k]))
    && (forall k :: a + |r| <= k < |s| ==> IsTrimmed(s[k]))
  }

  /** `String.trim`: what is left of `s` once every leading and every
      trailing char at or below U+0020 is stripped. */
  function Trim(s: string): (r: string)
    ensures TrimmedEnds(r)
    ensures |r| <= |s|
    ensures r == [] <==> forall k :: 0 <= k < |s| ==> IsTrimmed(s[k])
    ensures forall i :: 0 <= i < |r| ==> r[i] in s
    ensures exists a: nat :: MiddleOf(s, r, a)
  {
    var a := LeadingTrimmed(s);
    if a == |s| then
      assert MiddleOf(s, [], a);
      []
    else
      var b := TrailingTrimmed(s);
      assert b <= |s| - 1 - a;
      assert MiddleOf(s, s[a..|s| - b], a);
      s[a..|s| - b]
  }

  /** `trim` is the only middle part of `s` with nothing to trim at either
      end: its contract pins the result down completely. */
  lemma TrimUnique(s: string, r: string, a: nat)
    requires MiddleOf(s, r, a) && TrimmedEnds(r)
    ensures r == Trim(s)
  {
    var t := Trim(s);
    if r == [] {
      assert forall k :: 0 <= k < |s| ==> IsTrimmed(s[k]);
    } else {
      assert s[a] == r[0];
      var b: nat :| MiddleOf(s, t, b);
      assert t != [];
      assert s[b] == t[0];
      assert a == b;
      assert s[a + |r| - 1] == r[|r| - 1];
      assert s[b + |t| - 1] == t[|t| - 1];
      assert |r| == |t|;
      assert forall k :: 0 <= k < |r| ==> r[k] == t[k];
    }
  }

  /** Trimming a string that is already trimmed changes nothing. */
  lemma TrimFixesTrimmed(s: string)
    requires TrimmedEnds(s)
    ensures Trim(s) == s
  {
  }

  // ---------------------------------------------------------- comments

  /** `l.contains("#") ? l.substring(0, l.indexOf("#")) : l`. */
  function CutComment(s: string): (r: string)
    ensures |r| <= |s|
    ensures forall k :: 0 <= k < |r| ==> r[k] == s[k]
    ensures '#' !in r
    ensures |r| < |s| ==> s[|r|] == '#'
  {
    if s == [] || s[0] == '#' then [] else [s[0]] + CutComment(s[1..])
  }

  // ------------------------------------------------------- lower case

  /** `Character.toLowerCase` on ASCII letters; every other char is kept. */
  function LowerChar(c: char): char {
    if 'A' <= c <= 'Z' then (c as int + 32) as char else c
  }

  /** `String.toLowerCase`, restricted to ASCII case mapping. */
  function ToLower(s: string): (r: string)
    ensures |r| == |s|
    ensures forall i :: 0 <= i < |s| ==> r[i] == LowerChar(s[i])
  {
    seq(|s|, i requires 0 <= i < |s| => LowerChar(s[i]))
  }

  predicate StartsWith(s: string, prefix: string) {
    |prefix| <= |s| && s[..|prefix|] == prefix
  }

  // ------------------------------------------------------------ split

  /** Every piece of `s` between dots, empty ones included: `count('.') + 1` pieces. */
  function DotPieces(s: string): (r: seq<string>)
    ensures |r| >= 1
    ensures forall k :: 0 <= k < |r| ==> '.' !in r[k]
  {
    if s == [] then [[]]
    else
      var rest := DotPieces(s[1..]);
      if s[0] == '.' then [[]] + rest else [[s[0]] + rest[0]] + rest[1..]
  }

  /** Glues pieces back together with a dot between neighbours. */
  function JoinDots(parts: seq<string>): string
    requires |parts| >= 1
  {
    if |parts| == 1 then parts[0] else parts[0] + "." + JoinDots(parts[1..])
  }

  /** Cutting at the dots and gluing at the dots is the identity. */
  lemma {:induction false} JoinDotPieces(s: string)
    ensures JoinDots(DotPieces(s)) == s
  {
    if s != [] {
      JoinDotPieces(s[1..]);
      var rest := DotPieces(s[1..]);
      if s[0] == '.' {
        assert DotPieces(s) == [[]] + rest;
        assert JoinDots(DotPieces(s)) == "." + JoinDots(rest);
      } else if |rest| == 1 {
        assert JoinDots(DotPieces(s)) == [s[0]] + rest[0];
      } else {
        assert DotPieces(s)[1..] == rest[1..];
        assert JoinDots(rest) == rest[0] + "." + JoinDots(rest[1..]);
      }
    }
  }

  /** A dot-free first piece splits off unchanged. */
  lemma {:induction false} DotPiecesCons(x: string, y: string)
    requires '.' !in x
    ensures DotPieces(x + "." + y) == [x] + DotPieces(y)
  {
    if x != [] {
      assert (x + "." + y)[1..] == x[1..] + "." + y;
      DotPiecesCons(x[1..], y);
      var rest := DotPieces(x[1..] + "." + y);
      assert x[0] != '.';
      assert DotPieces(x + "." + y) == [[x[0]] + rest[0]] + rest[1..];
      assert [x[0]] + x[1..] == x;
    } else {
      assert (x + "." + y)[1..] == y;
    }
  }

  /** Removes the empty pieces at the end of the list (and only those). */
  function DropTrailingEmpty(parts: seq<string>): (r: seq<string>)
    ensures |r| <= |parts|
    ensures forall k :: 0 <= k < |r| ==> r[k] == parts[k]
    ensures r == [] || r[|r| - 1] != []
    ensures forall k :: |r| <= k < |parts| ==> parts[k] == []
  {
    if parts != [] && parts[|parts| - 1] == [] then DropTrailingEmpty(parts[..|parts| - 1])
    else parts
  }

  /** `s.split("\\.")`: a string with no dot is returned whole; otherwise
      the pieces between dots, with trailing empty pieces removed. */
  function SplitDots(s: string): (r: seq<string>)
    ensures forall k :: 0 <= k < |r| ==> '.' !in r[k]
  {
    if '.' !in s then [s] else DropTrailingEmpty(DotPieces(s))
  }

  // ---------------------------------------------------------- numbers

  predicate IsDigit(c: char) {
    '0' <= c <= '9'
  }

  predicate AllDigits(s: string) {
    forall i :: 0 <= i < |s| ==> IsDigit(s[i])
  }

  /** The value of a string of decimal digits, most significant first. */
  function DigitsValue(s: string): nat
    requires AllDigits(s)
  {
    if s == [] then 0 else DigitsValue(s[..|s| - 1]) * 10 + (s[|s| - 1] as int - '0' as int)
  }

  const IntMin: int := -0x8000_0000
  const IntMax: int := 0x7FFF_FFFF

  /** `Integer.parseInt(s)`, radix 10: an optional sign, then at least one
      digit, and the value must fit a Java `int`; anything else is `None`
      (a `NumberFormatException`). */
  function ParseInt(s: string): (r: Option<int>)
    ensures r.Some? ==> IntMin <= r.value <= IntMax
    ensures r.Some? ==> forall i :: 0 <= i < |s| ==> IsDigit(s[i]) || (i == 0 && s[0] in "+-")
    ensures r.Some? ==> s != [] && IsDigit(s[|s| - 1])
  {
    if s == [] then None
    else
      var signed := s[0] == '-' || s[0] == '+';
      var digits := if signed then s[1..] else s;
      if digits == [] || !AllDigits(digits) then None
      else
        assert IsDigit(s[|s| - 1]);
        var v: int := if s[0] == '-' then 0 - DigitsValue(digits) as int else DigitsValue(digits);
        if IntMin <= v <= IntMax then Some(v) else None
  }
  /** The value `parseInt` returns, case by case: unsigned digits, `+`
      then digits, `-` then digits. Every such text within the `int` range
      parses to its signed decimal value; outside the range it fails. */
  lemma ParseIntValue(s: string)
    ensures s != [] && AllDigits(s) ==>
              ParseInt(s) == (if DigitsValue(s) <= IntMax then Some(DigitsValue(s) as int) else None)
    ensures |s| >= 2 && s[0] == '+' && AllDigits(s[1..]) ==>
              ParseInt(s) == (if DigitsValue(s[1..]) <= IntMax then Some(DigitsValue(s[1..]) as int) else None)
    ensures |s| >= 2 && s[0] == '-' && AllDigits(s[1..]) ==>
              ParseInt(s) == (if IntMin <= 0 - DigitsValue(s[1..]) as int then Some(0 - DigitsValue(s[1..]) as int) else None)
  {
  }


  /** The shortest decimal text of `n` (what `Integer.toString` prints). */
  function Decimal(n: nat): (r: string)
    ensures r != [] && AllDigits(r)
    ensures DigitsValue(r) == n
  {
    var d := [(n % 10 + '0' as int) as char];
    if n < 10 then d
    else
      var r := Decimal(n / 10) + d;
      assert r[..|r| - 1] == Decimal(n / 10);
      r
  }

  /** `parseInt` reads back what `Decimal` prints, for every non-negative `int`. */
  lemma ParseDecimal(n: nat)
    requires n <= IntMax
    ensures ParseInt(Decimal(n)) == Some(n)
  {
  }
}
