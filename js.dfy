/**
 * The JavaScript built-ins the game's code relies on, restricted to what
 * the model admits: case mapping of ASCII letters, `String.prototype.trim`
 * with JavaScript's whitespace set, the truncating `%` operator,
 * `indexOf`/`replace` with a string pattern, `parseInt(_, 10)`, and the
 * dynamically typed value a field of a parsed JSON body may hold.
 */
module Js {
  import opened Wrappers

  // ---------------------------------------------------------------------
  // Dynamically typed values
  // ---------------------------------------------------------------------

  /** A field of a parsed request body. A missing field reads as Undefined;
      numbers are integers in this model; objects and arrays are Compound. */
  datatype Value = Undefined | Null | Bool(b: bool) | Number(n: int) | Str(s: string) | Compound

  /** JavaScript truthiness, as tested by `if (v)`, `v || w` and `v && w`. */
  predicate Truthy(v: Value) {
    match v
    case Undefined => false
    case Null => false
    case Bool(b) => b
    case Number(n) => n != 0
    case Str(s) => s != ""
    case Compound => true
  }

  // ---------------------------------------------------------------------
  // Numbers
  // ---------------------------------------------------------------------

  /** `a % b` on integers with b > 0: the remainder takes the sign of `a`
      (truncating division), unlike Dafny's Euclidean `%`. */
  function Rem(a: int, b: int): (r: int)
    requires b > 0
    ensures a >= 0 ==> r == a % b
    ensures a < 0 ==> r == -((-a) % b) && -b < r <= 0
  {
    if a >= 0 then a % b else -((-a) % b)
  }

  // ---------------------------------------------------------------------
  // Characters and case mapping
  // ---------------------------------------------------------------------

  predicate IsAscii(s: string) {
    forall i | 0 <= i < |s| :: s[i] as int < 128
  }

  predicate IsUpperLetter(c: char) { 'A' <= c <= 'Z' }

  predicate IsLowerLetter(c: char) { 'a' <= c <= 'z' }

  /** `c.toUpperCase()` for one character; only ASCII letters change. */
  function UpperChar(c: char): (r: char)
    ensures !IsLowerLetter(r)
    ensures !IsLowerLetter(c) ==> r == c
    ensures IsLowerLetter(c) ==> IsUpperLetter(r) && r as int == c as int - 32
  {
    if IsLowerLetter(c) then (c as int - 32) as char else c
  }

  /** `c.toLowerCase()` for one character; only ASCII letters change. */
  function LowerChar(c: char): (r: char)
    ensures !IsUpperLetter(r)
    ensures !IsUpperLetter(c) ==> r == c
    ensures IsUpperLetter(c) ==> IsLowerLetter(r) && r as int == c as int + 32
    ensures IsSpace(r) <==> IsSpace(c)
  {
    if IsUpperLetter(c) then (c as int + 32) as char else c
  }

  /** `s.toUpperCase()` */
  function ToUpper(s: string): (r: string)
    ensures |r| == |s|
    ensures forall i | 0 <= i < |s| :: r[i] == UpperChar(s[i])
  {
    if s == [] then [] else [UpperChar(s[0])] + ToUpper(s[1..])
  }

  /** `s.toLowerCase()` */
  function ToLower(s: string): (r: string)
    ensures |r| == |s|
    ensures forall i | 0 <= i < |s| :: r[i] == LowerChar(s[i])
  {
    if s == [] then [] else [LowerChar(s[0])] + ToLower(s[1..])
  }

  /** Two strings that differ at most in the case of ASCII letters. */
  predicate SameUpToCase(a: string, b: string) {
    |a| == |b| && forall i | 0 <= i < |a| :: LowerChar(a[i]) == LowerChar(b[i])
  }

  // ---------------------------------------------------------------------
  // trim
  // ---------------------------------------------------------------------

  /** The WhiteSpace and LineTerminator code points that `trim` removes
      (section 12.2 and 12.3 of ECMA-262). */
  predicate IsSpace(c: char) {
    || c == '\t' || c == '\n' || c == '\U{B}' || c == '\U{C}' || c == '\r' || c == ' '
    || c == '\U{A0}' || c == '\U{1680}' || ('\U{2000}' <= c <= '\U{200A}')
    || c == '\U{2028}' || c == '\U{2029}' || c == '\U{202F}' || c == '\U{205F}'
    || c == '\U{3000}' || c == '\U{FEFF}'
  }

  /** Every character of `s` is whitespace (written by recursion so that
      facts about pieces of a string stay cheap; AllSpaceAt gives the
      per-index reading). */
  predicate AllSpace(s: string) {
    s == [] || (IsSpace(s[0]) && AllSpace(s[1..]))
  }

  lemma {:induction false} AllSpaceAt(s: string)
    ensures AllSpace(s) <==> forall i | 0 <= i < |s| :: IsSpace(s[i])
    decreases |s|
  {
    if s != [] {
      AllSpaceAt(s[1..]);
      assert forall i | 1 <= i < |s| :: s[i] == s[1..][i - 1];
    }
  }

  lemma {:induction false} AllSpaceConcat(a: string, b: string)
    ensures AllSpace(a + b) <==> AllSpace(a) && AllSpace(b)
    decreases |a|
  {
    if a != [] {
      assert (a + b)[1..] == a[1..] + b;
      AllSpaceConcat(a[1..], b);
    } else {
      assert a + b == b;
    }
  }

  /** `s.trimStart()`: the suffix left after removing leading whitespace. */
  function TrimStart(s: string): (r: string)
    ensures |r| <= |s| && r == s[|s| - |r|..]
    ensures AllSpace(s[..|s| - |r|])
    ensures r != [] ==> !IsSpace(r[0])
  {
    if s != [] && IsSpace(s[0]) then
      var t := TrimStart(s[1..]);
      TrimStartStep(s, t);
      t
    else s
  }

  /** One leading space more: what `TrimStart(s[1..])` promises about
      `s[1..]` it promises about `s`. */
  lemma TrimStartStep(s: string, t: string)
    requires s != [] && IsSpace(s[0])
    requires |t| <= |s| - 1 && t == s[1..][|s| - 1 - |t|..]
    requires AllSpace(s[1..][..|s| - 1 - |t|])
    ensures t == s[|s| - |t|..]
    ensures AllSpace(s[..|s| - |t|])
  {
    var n := |s| - |t|;
    assert s[..n][1..] == s[1..][..n - 1];
    assert s[1..][n - 1..] == s[n..];
  }

  /** `s.trimEnd()`: the prefix left after removing trailing whitespace. */
  function TrimEnd(s: string): (r: string)
    ensures |r| <= |s| && r == s[..|r|]
    ensures AllSpace(s[|r|..])
    ensures r != [] ==> !IsSpace(r[|r| - 1])
  {
    if s != [] && IsSpace(s[|s| - 1]) then
      var r := TrimEnd(s[..|s| - 1]);
      TrimEndStep(s, r);
      r
    else s
  }

  /** One trailing space more: what `TrimEnd(s[..|s| - 1])` promises
      about `s[..|s| - 1]` it promises about `s`. */
  lemma TrimEndStep(s: string, r: string)
    requires s != [] && IsSpace(s[|s| - 1])
    requires |r| <= |s| - 1 && r == s[..|s| - 1][..|r|]
    requires AllSpace(s[..|s| - 1][|r|..])
    ensures r == s[..|r|]
    ensures AllSpace(s[|r|..])
  {
    var last := [s[|s| - 1]];
    assert s[|r|..] == s[..|s| - 1][|r|..] + last;
    AllSpaceConcat(s[..|s| - 1][|r|..], last);
    assert last[1..] == [];
  }

  /** `s.trim()`: a contiguous piece of `s` with no whitespace at either
      end, empty exactly when `s` is all whitespace. */
  function Trim(s: string): (r: string)
    ensures |r| <= |s|
    ensures r != [] ==> !IsSpace(r[0]) && !IsSpace(r[|r| - 1])
    ensures r == [] <==> AllSpace(s)
  {
    var t := TrimStart(s);
    var r := TrimEnd(t);
    TrimPiece(s, t, r);
    r
  }

  /** `r` occurs in `s` between a run of whitespace before it and one
      after it. */
  predicate IsPiece(s: string, r: string) {
    exists k | 0 <= k <= |s| - |r| ::
      r == s[k..k + |r|] && AllSpace(s[..k]) && AllSpace(s[k + |r|..])
  }

  /** `r` is the piece of `s` at offset `k`: before it a run of whitespace
      that ends at a non-space character (or at the end of `s`), after it
      only whitespace. */
  predicate PieceAt(s: string, r: string, k: int) {
    0 <= k && k + |r| <= |s| && r == s[k..k + |r|] &&
    AllSpace(s[..k]) && AllSpace(s[k + |r|..]) && (k < |s| ==> !IsSpace(s[k]))
  }

  /** `trim` returns the piece of `s` that starts after its leading
      whitespace run, the run `trimStart` removes. */
  lemma TrimIsPiece(s: string)
    ensures PieceAt(s, Trim(s), |s| - |TrimStart(s)|)
  {
    var t := TrimStart(s);
    var r := TrimEnd(t);
    assert PieceAt(s, r, |s| - |t|) by {
      TrimPiece(s, t, r);
      assert |s| - |t| < |s| ==> s[|s| - |t|] == t[0];
    }
    assert Trim(s) == r;
  }

  /** What `trimEnd` after `trimStart` leaves: a piece of `s` with no
      whitespace at either end, between two runs of whitespace. */
  lemma TrimPiece(s: string, t: string, r: string)
    requires |t| <= |s| && t == s[|s| - |t|..] && AllSpace(s[..|s| - |t|])
    requires t != [] ==> !IsSpace(t[0])
    requires |r| <= |t| && r == t[..|r|] && AllSpace(t[|r|..])
    requires r != [] ==> !IsSpace(r[|r| - 1])
    ensures r != [] ==> !IsSpace(r[0])
    ensures r == [] <==> AllSpace(s)
    ensures var k := |s| - |t|;
      r == s[k..k + |r|] && AllSpace(s[..k]) && AllSpace(s[k + |r|..])
  {
    var k := |s| - |t|;
    PrefixOfSuffix(s, t, r);
    AllSpaceConcat(s[..k], t);
  }

  /** Where a prefix `r` of a suffix `t` of `s` sits in `s`. */
  lemma PrefixOfSuffix(s: string, t: string, r: string)
    requires |t| <= |s| && t == s[|s| - |t|..]
    requires |r| <= |t| && r == t[..|r|]
    ensures var k := |s| - |t|;
      s == s[..k] + t && r == s[k..k + |r|] && s[k + |r|..] == t[|r|..] &&
      (r == [] ==> t[|r|..] == t) && (r != [] ==> r[0] == t[0])
  {
    var k := |s| - |t|;
    assert s[k..k + |r|] == t[..|r|];
  }

  /** A string with no whitespace at either end is its own trim. */
  lemma TrimOfTrimmed(s: string)
    requires s != [] && !IsSpace(s[0]) && !IsSpace(s[|s| - 1])
    ensures Trim(s) == s
  {
    assert TrimStart(s) == s;
  }

  lemma {:induction false} TrimStartOfSpace(w: string, s: string)
    requires AllSpace(w)
    ensures TrimStart(w + s) == TrimStart(s)
    decreases |w|
  {
    if w == [] {
      assert w + s == s;
    } else {
      assert (w + s)[1..] == w[1..] + s;
      TrimStartOfSpace(w[1..], s);
    }
  }

  lemma {:induction false} TrimEndOfSpace(s: string, w: string)
    requires AllSpace(w)
    ensures TrimEnd(s + w) == TrimEnd(s)
    decreases |w|
  {
    if w == [] {
      assert s + w == s;
    } else {
      assert w == w[..|w| - 1] + [w[|w| - 1]];
      AllSpaceConcat(w[..|w| - 1], [w[|w| - 1]]);
      assert (s + w)[..|s + w| - 1] == s + w[..|w| - 1];
      TrimEndOfSpace(s, w[..|w| - 1]);
    }
  }

  lemma {:induction false} TrimStartEndOfSpace(s: string, w: string)
    requires AllSpace(w)
    ensures TrimEnd(TrimStart(s + w)) == TrimEnd(TrimStart(s))
    decreases |s|
  {
    if s == [] {
      assert s + w == w + [];
      TrimStartOfSpace(w, []);
    } else if IsSpace(s[0]) {
      assert (s + w)[1..] == s[1..] + w;
      TrimStartEndOfSpace(s[1..], w);
    } else {
      TrimEndOfSpace(s, w);
    }
  }

  /** `trim` ignores whitespace added at either end. */
  lemma TrimPadding(w1: string, s: string, w2: string)
    requires AllSpace(w1) && AllSpace(w2)
    ensures Trim(w1 + s + w2) == Trim(s)
  {
    var x := w1 + s + w2;
    assert TrimEnd(TrimStart(x)) == TrimEnd(TrimStart(s)) by {
      assert x == w1 + (s + w2);
      TrimStartOfSpace(w1, s + w2);
      TrimStartEndOfSpace(s, w2);
    }
    TrimOfSameParts(x, s);
  }

  /** `trim` is `trimEnd` after `trimStart`. */
  lemma TrimOfSameParts(x: string, y: string)
    requires TrimEnd(TrimStart(x)) == TrimEnd(TrimStart(y))
    ensures Trim(x) == Trim(y)
  {}

  lemma {:induction false} TrimStartUpToCase(a: string, b: string)
    requires SameUpToCase(a, b)
    ensures SameUpToCase(TrimStart(a), TrimStart(b))
    decreases |a|
  {
    if a != [] {
      assert LowerChar(a[0]) == LowerChar(b[0]);
      assert IsSpace(a[0]) <==> IsSpace(b[0]);
      if IsSpace(a[0]) {
        TrimStartUpToCase(a[1..], b[1..]);
      }
    }
  }

  lemma {:induction false} TrimEndUpToCase(a: string, b: string)
    requires SameUpToCase(a, b)
    ensures SameUpToCase(TrimEnd(a), TrimEnd(b))
    decreases |a|
  {
    if a != [] {
      assert LowerChar(a[|a| - 1]) == LowerChar(b[|b| - 1]);
      assert IsSpace(a[|a| - 1]) <==> IsSpace(b[|b| - 1]);
      if IsSpace(a[|a| - 1]) {
        TrimEndUpToCase(a[..|a| - 1], b[..|b| - 1]);
      }
    }
  }

  /** Trimming and lower-casing, in that order, erase differences of
      letter case. */
  lemma TrimLowerUpToCase(a: string, b: string)
    requires SameUpToCase(a, b)
    ensures ToLower(Trim(a)) == ToLower(Trim(b))
  {
    TrimStartUpToCase(a, b);
    TrimEndUpToCase(TrimStart(a), TrimStart(b));
  }

  // ---------------------------------------------------------------------
  // indexOf and replace with a string pattern
  // ---------------------------------------------------------------------

  predicate OccursAt(s: string, pat: string, k: int) {
    0 <= k && k + |pat| <= |s| && s[k..k + |pat|] == pat
  }

  lemma OccursAtTail(s: string, pat: string)
    requires s != []
    ensures forall k :: OccursAt(s[1..], pat, k) ==> OccursAt(s, pat, k + 1)
    ensures forall k :: OccursAt(s, pat, k) ==> k == 0 || OccursAt(s[1..], pat, k - 1)
  {
    forall k ensures OccursAt(s[1..], pat, k) ==> OccursAt(s, pat, k + 1) {
      if 0 <= k && k + |pat| <= |s| - 1 {
        assert s[1..][k..k + |pat|] == s[k + 1..k + 1 + |pat|];
      }
    }
    forall k ensures OccursAt(s, pat, k) ==> k == 0 || OccursAt(s[1..], pat, k - 1) {
      if 1 <= k && k + |pat| <= |s| {
        assert s[1..][k - 1..k - 1 + |pat|] == s[k..k + |pat|];
      }
    }
  }

  /** `s.indexOf(pat)`: the first position where `pat` occurs, if any. */
  function IndexOf(s: string, pat: string): (r: Option<nat>)
    ensures r.Some? ==> OccursAt(s, pat, r.value)
    ensures r.Some? ==> forall k | 0 <= k < r.value :: !OccursAt(s, pat, k)
    ensures r.None? ==> forall k :: !OccursAt(s, pat, k)
    decreases |s|
  {
    if |s| < |pat| then None
    else if s[..|pat|] == pat then Some(0)
    else
      OccursAtTail(s, pat);
      match IndexOf(s[1..], pat)
      case None => None
      case Some(k) => Some(k + 1)
  }

  /** `s.replace(pat, rep)` with a string pattern: only the first
      occurrence is replaced. */
  function ReplaceFirst(s: string, pat: string, rep: string): (r: string)
    ensures IndexOf(s, pat).None? ==> r == s
    ensures IndexOf(s, pat).Some? ==>
      exists k | OccursAt(s, pat, k) && (forall j | 0 <= j < k :: !OccursAt(s, pat, j)) ::
        r == s[..k] + rep + s[k + |pat|..]
  {
    match IndexOf(s, pat)
    case None => s
    case Some(k) => s[..k] + rep + s[k + |pat|..]
  }

  // ---------------------------------------------------------------------
  // parseInt(_, 10)
  // ---------------------------------------------------------------------

  predicate IsDigit(c: char) { '0' <= c <= '9' }

  /** The longest prefix of `s` made of decimal digits. */
  function DigitPrefix(s: string): (r: string)
    ensures |r| <= |s| && r == s[..|r|]
    ensures forall i | 0 <= i < |r| :: IsDigit(r[i])
    ensures |r| < |s| ==> !IsDigit(s[|r|])
  {
    if s != [] && IsDigit(s[0]) then [s[0]] + DigitPrefix(s[1..]) else []
  }

  /** The value of a string of decimal digits. */
  function DigitsValue(d: string): nat
    requires forall i | 0 <= i < |d| :: IsDigit(d[i])
  {
    if d == [] then 0
    else
      var last := d[|d| - 1];
      assert IsDigit(last);
      DigitsValue(d[..|d| - 1]) * 10 + (last as int - '0' as int)
  }

  /** `parseInt(s, 10)`: leading whitespace is skipped, then one sign,
      then the longest run of digits is read; None stands for NaN. */
  function ParseInt(s: string): (r: Option<int>)
    ensures AllSpace(s) ==> r == None
    decreases |s|
  {
    if s != [] && IsSpace(s[0]) then ParseInt(s[1..]) else ParseSigned(s)
  }

  /** The whitespace parseInt skips is the whitespace `trimStart` removes. */
  lemma {:induction false} ParseIntAfterTrimStart(s: string)
    ensures ParseInt(s) == ParseSigned(TrimStart(s))
    decreases |s|
  {
    if s != [] && IsSpace(s[0]) {
      ParseIntAfterTrimStart(s[1..]);
    }
  }

  /** parseInt on a string without leading whitespace. */
  function ParseSigned(t: string): Option<int> {
    var negative := t != [] && t[0] == '-';
    var rest := if t != [] && (t[0] == '-' || t[0] == '+') then t[1..] else t;
    var digits := DigitPrefix(rest);
    if digits == [] then None
    else
      var v: int := DigitsValue(digits);
      Some(if negative then -v else v)
  }

  /** A string that starts with a non-space character is its own
      `trimStart`. */
  lemma TrimStartOfNonSpace(s: string)
    requires s != [] && !IsSpace(s[0])
    ensures TrimStart(s) == s
  {
  }

  /** One step of parseInt each: a leading space is skipped, a string
      that starts with a digit reads as its digit prefix, one that starts
      with a sign as the (negated, for '-') digits after it, and one that
      starts with anything else is NaN. */
  lemma ParseIntAfterSpace(s: string)
    requires s != [] && IsSpace(s[0])
    ensures ParseInt(s) == ParseInt(s[1..])
  {
  }

  lemma ParseIntUnsigned(s: string)
    requires s != [] && IsDigit(s[0])
    ensures ParseInt(s) == Some(DigitsValue(DigitPrefix(s)))
  {
  }

  lemma ParseIntAfterMinus(s: string)
    requires s != [] && s[0] == '-'
    ensures ParseInt(s) == if DigitPrefix(s[1..]) == [] then None else Some(-(DigitsValue(DigitPrefix(s[1..])) as int))
  {
  }

  lemma ParseIntAfterPlus(s: string)
    requires s != [] && s[0] == '+'
    ensures ParseInt(s) == if DigitPrefix(s[1..]) == [] then None else Some(DigitsValue(DigitPrefix(s[1..])) as int)
  {
  }

  lemma ParseIntNoDigits(s: string)
    requires s != [] && !IsSpace(s[0]) && !IsDigit(s[0]) && s[0] != '-' && s[0] != '+'
    ensures ParseInt(s) == None
  {
  }

  lemma SingleDigit(s: string)
    requires |s| == 1 && IsDigit(s[0])
    ensures DigitPrefix(s) == s && DigitsValue(s) == s[0] as int - '0' as int
  {
    assert s[1..] == [] && s[..0] == [];
  }

  lemma TwoDigits(s: string)
    requires |s| >= 3 && IsDigit(s[0]) && IsDigit(s[1]) && !IsDigit(s[2])
    ensures DigitPrefix(s) == s[..2]
    ensures DigitsValue(s[..2]) == 10 * (s[0] as int - '0' as int) + (s[1] as int - '0' as int)
  {
    assert DigitPrefix(s[1..][1..]) == [];
    assert s[..2][..1] == [s[0]];
    SingleDigit([s[0]]);
  }

  /** Values from the definition of parseInt: a plain number, leading
      whitespace and trailing garbage, a sign, and NaN. */
  lemma ParseIntPlain(s: string)
    requires s == "7"
    ensures ParseInt(s) == Some(7)
  {
    assert s[0] == '7';
    ParseIntUnsigned(s);
    SingleDigit(s);
  }

  lemma ParseIntPrefix(s: string)
    requires s == " 12abc"
    ensures ParseInt(s) == Some(12)
  {
    assert s[0] == ' ' && s[1] == '1' && s[2] == '2' && s[3] == 'a';
    ParseIntAfterSpace(s);
    var t := s[1..];
    assert t[0] == '1' && t[1] == '2' && t[2] == 'a';
    ParseIntUnsigned(t);
    TwoDigits(t);
  }

  lemma ParseIntNegative(s: string)
    requires s == "-3"
    ensures ParseInt(s) == Some(-3)
  {
    assert s[0] == '-' && s[1] == '3';
    ParseIntAfterMinus(s);
    SingleDigit(s[1..]);
  }

  lemma ParseIntNaN(s: string)
    requires s == "abc"
    ensures ParseInt(s) == None
    ensures ParseInt("") == None
  {
    assert s[0] == 'a';
    ParseIntNoDigits(s);
  }
}
