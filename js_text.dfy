/** The parts of JavaScript's string and number semantics the bot relies on:
    `String.prototype.split` with a string separator, the conversion of an
    integer Number to a String (as a template literal performs it), and the
    global `parseInt` called without a radix (ECMA-262, section 18.2.5). */
module JsText {
  import opened Wrappers

  // ---------------------------------------------------------------------
  // Searching and splitting

  /** `sep` occurs in `s` starting at index `i`. */
  predicate OccursAt(s: string, sep: string, i: nat) {
    i + |sep| <= |s| && s[i..i + |sep|] == sep
  }

  /** No character of `s` is a character of `sep`: `sep` can then neither
      occur inside `s` nor straddle one of its ends. */
  predicate Avoids(s: string, sep: string) {
    forall i :: 0 <= i < |s| ==> s[i] !in sep
  }

  /** The leftmost occurrence of `sep` in `s` at or after `from`. */
  function FindFrom(s: string, sep: string, from: nat): (r: Option<nat>)
    requires |sep| > 0
    ensures r.Some? ==> from <= r.value && OccursAt(s, sep, r.value)
    ensures r.Some? ==> forall i: nat :: from <= i < r.value ==> !OccursAt(s, sep, i)
    ensures r.None? ==> forall i: nat :: from <= i ==> !OccursAt(s, sep, i)
    decreases |s| - from
  {
    if from + |sep| > |s| then None
    else if s[from..from + |sep|] == sep then Some(from)
    else FindFrom(s, sep, from + 1)
  }

  /** `s.indexOf(sep)`, with None for -1. */
  function IndexOf(s: string, sep: string): (r: Option<nat>)
    requires |sep| > 0
  {
    FindFrom(s, sep, 0)
  }

  /** `s.split(sep)` for a non-empty string separator: the pieces between
      the leftmost non-overlapping occurrences of `sep`, scanning from the
      left. */
  function Split(s: string, sep: string): (parts: seq<string>)
    requires |sep| > 0
    ensures |parts| >= 1
    decreases |s|
  {
    match IndexOf(s, sep)
    case None => [s]
    case Some(i) => [s[..i]] + Split(s[i + |sep|..], sep)
  }

  /** The parts of a split hold no separator, and every cut is made at the
      leftmost occurrence; the first part is the prefix of `s` up to the
      leftmost occurrence, or all of `s` when there is none. */
  lemma {:induction false} SplitParts(s: string, sep: string)
    requires |sep| > 0
    ensures SeparatorFree(Split(s, sep), sep)
    ensures LeftmostCuts(Split(s, sep), sep)
    ensures |Split(s, sep)| == 1 <==> IndexOf(s, sep).None?
    ensures IndexOf(s, sep).None? ==> Split(s, sep) == [s]
    ensures IndexOf(s, sep).Some? ==> Split(s, sep)[0] == s[..IndexOf(s, sep).value]
    decreases |s|
  {
    SplitCutsLeftmost(s, sep);
    match IndexOf(s, sep)
    case None =>
      assert IndexOf(Split(s, sep)[0], sep).None?;
    case Some(i) =>
      var rest := s[i + |sep|..];
      var tail := Split(rest, sep);
      SplitParts(rest, sep);
      BeforeFirst(s, sep, i);
      assert Split(s, sep) == [s[..i]] + tail;
      forall k | 0 <= k < |Split(s, sep)|
        ensures IndexOf(Split(s, sep)[k], sep).None?
      {
        if k > 0 {
          assert Split(s, sep)[k] == tail[k - 1];
        }
      }
  }

  /** Every cut of a split is at the leftmost occurrence of what remains. */
  lemma {:induction false} SplitCutsLeftmost(s: string, sep: string)
    requires |sep| > 0
    ensures LeftmostCuts(Split(s, sep), sep)
    decreases |s|
  {
    match IndexOf(s, sep)
    case None =>
    case Some(i) =>
      var tail := Split(s[i + |sep|..], sep);
      SplitCutsLeftmost(s[i + |sep|..], sep);
      assert Split(s, sep) == [s[..i]] + tail;
      CutAtFirst(s, sep, i);
      assert s[..i] + sep == s[..i + |sep|];
      forall k | 0 <= k < |Split(s, sep)| - 1
        ensures IndexOf(Split(s, sep)[k] + sep, sep) == Some(|Split(s, sep)[k]|)
      {
        if k > 0 {
          assert Split(s, sep)[k] == tail[k - 1];
        }
      }
  }

  /** Each part but the last, followed by the separator, has its leftmost
      occurrence right after the part: the cut after it is the leftmost
      one. */
  predicate LeftmostCuts(parts: seq<string>, sep: string)
    requires |sep| > 0
  {
    forall k :: 0 <= k < |parts| - 1 ==> IndexOf(parts[k] + sep, sep) == Some(|parts[k]|)
  }

  /** The prefix of `s` that ends with its leftmost occurrence has that
      occurrence as its own leftmost one. */
  lemma CutAtFirst(s: string, sep: string, i: nat)
    requires |sep| > 0 && IndexOf(s, sep) == Some(i)
    ensures IndexOf(s[..i + |sep|], sep) == Some(i)
  {
    var t := s[..i + |sep|];
    assert t[i..i + |sep|] == s[i..i + |sep|];
    assert OccursAt(t, sep, i);
    match IndexOf(t, sep)
    case None =>
    case Some(j) =>
      OccursInPrefix(s, sep, i + |sep|, j);
  }

  /** If `p + sep` has its leftmost occurrence after `p`, so does
      `p + sep + rest`. */
  lemma IndexOfPrefixed(p: string, sep: string, rest: string)
    requires |sep| > 0 && IndexOf(p + sep, sep) == Some(|p|)
    ensures IndexOf(p + sep + rest, sep) == Some(|p|)
  {
    var s := p + sep + rest;
    assert s[|p|..|p| + |sep|] == sep;
    assert OccursAt(s, sep, |p|);
    match IndexOf(s, sep)
    case None =>
    case Some(v) =>
      if v < |p| {
        assert s[v..v + |sep|] == (p + sep)[v..v + |sep|];
        assert OccursAt(p + sep, sep, v);
        assert false;
      }
  }

  /** The facts `JoinSplit`, `SplitParts` state determine the split: any
      list of separator-free parts, cut at the leftmost occurrences, whose
      join is `s` is `Split(s, sep)`. */
  lemma {:induction false} SplitUnique(s: string, sep: string, parts: seq<string>)
    requires |sep| > 0 && |parts| >= 1
    requires Join(parts, sep) == s && SeparatorFree(parts, sep) && LeftmostCuts(parts, sep)
    ensures parts == Split(s, sep)
    decreases |parts|
  {
    if |parts| > 1 {
      var tail := parts[1..];
      var rest := Join(tail, sep);
      assert s == parts[0] + sep + rest;
      TailParts(parts, sep);
      SplitUnique(rest, sep, tail);
      SplitAtCut(parts[0], sep, rest);
      assert parts == [parts[0]] + tail;
    }
  }

  /** Dropping the first part keeps both properties of a list of parts. */
  lemma TailParts(parts: seq<string>, sep: string)
    requires |sep| > 0 && |parts| >= 1
    requires SeparatorFree(parts, sep) && LeftmostCuts(parts, sep)
    ensures SeparatorFree(parts[1..], sep) && LeftmostCuts(parts[1..], sep)
  {
    var tail := parts[1..];
    forall k | 0 <= k < |tail|
      ensures IndexOf(tail[k], sep).None?
    {
      assert tail[k] == parts[k + 1];
    }
    forall k | 0 <= k < |tail| - 1
      ensures IndexOf(tail[k] + sep, sep) == Some(|tail[k]|)
    {
      assert tail[k] == parts[k + 1];
    }
  }

  /** A split cuts `p` off first when the leftmost occurrence in `p + sep`
      is right after `p`. */
  lemma SplitAtCut(p: string, sep: string, rest: string)
    requires |sep| > 0 && IndexOf(p + sep, sep) == Some(|p|)
    ensures Split(p + sep + rest, sep) == [p] + Split(rest, sep)
  {
    var s := p + sep + rest;
    IndexOfPrefixed(p, sep, rest);
    assert s[..|p|] == p;
    assert s[|p| + |sep|..] == rest;
  }

  /** No part contains the separator. */
  predicate SeparatorFree(parts: seq<string>, sep: string)
    requires |sep| > 0
  {
    forall k :: 0 <= k < |parts| ==> IndexOf(parts[k], sep).None?
  }

  /** The text before the leftmost occurrence does not contain `sep`. */
  lemma BeforeFirst(s: string, sep: string, i: nat)
    requires |sep| > 0 && IndexOf(s, sep) == Some(i)
    ensures IndexOf(s[..i], sep).None?
  {
    match IndexOf(s[..i], sep)
    case None =>
    case Some(j) =>
      OccursInPrefix(s, sep, i, j);
      assert false;
  }

  /** An occurrence inside a prefix is an occurrence in the whole string,
      and it starts before the prefix ends. */
  lemma OccursInPrefix(s: string, sep: string, i: nat, j: nat)
    requires |sep| > 0 && i <= |s| && OccursAt(s[..i], sep, j)
    ensures j < i && OccursAt(s, sep, j)
  {
    assert s[..i][j..j + |sep|] == s[j..j + |sep|];
  }

  /** `parts.join(sep)` */
  function Join(parts: seq<string>, sep: string): string {
    if |parts| == 0 then ""
    else if |parts| == 1 then parts[0]
    else parts[0] + sep + Join(parts[1..], sep)
  }

  /** Joining the pieces of a split gives the string back. */
  lemma {:induction false} JoinSplit(s: string, sep: string)
    requires |sep| > 0
    ensures Join(Split(s, sep), sep) == s
    decreases |s|
  {
    var r := IndexOf(s, sep);
    if r.Some? {
      var i := r.value;
      var rest := s[i + |sep|..];
      var tail := Split(rest, sep);
      JoinSplit(rest, sep);
      assert Split(s, sep) == [s[..i]] + tail;
      assert ([s[..i]] + tail)[1..] == tail;
      assert Join([s[..i]] + tail, sep) == s[..i] + sep + Join(tail, sep);
      assert s == s[..i] + s[i..i + |sep|] + rest;
    }
  }

  /** An occurrence starts with the separator's first character. */
  lemma OccursHead(s: string, sep: string, i: nat)
    requires |sep| > 0 && OccursAt(s, sep, i)
    ensures i < |s| && s[i] == sep[0]
  {
    assert s[i..i + |sep|][0] == s[i];
  }

  /** A string that avoids the separator's characters does not contain it. */
  lemma IndexOfAvoiding(p: string, sep: string)
    requires |sep| > 0 && Avoids(p, sep)
    ensures IndexOf(p, sep) == None
  {
    match IndexOf(p, sep)
    case None =>
    case Some(v) =>
      OccursHead(p, sep, v);
      assert false;
  }

  /** In `p + sep + rest`, the leftmost occurrence of `sep` is right after
      `p` when `p` avoids the separator's characters. */
  lemma IndexOfAfter(p: string, sep: string, rest: string)
    requires |sep| > 0 && Avoids(p, sep)
    ensures IndexOf(p + sep + rest, sep) == Some(|p|)
  {
    var s := p + sep + rest;
    assert s[|p|..|p| + |sep|] == sep;
    assert OccursAt(s, sep, |p|);
    match IndexOf(s, sep)
    case None =>
    case Some(v) =>
      if v < |p| {
        assert s[v] == p[v];
        OccursHead(s, sep, v);
        assert false;
      }
  }

  /** Splitting `p + sep + rest` cuts `p` off first when `p` avoids the
      separator's characters. */
  lemma SplitAfter(p: string, sep: string, rest: string)
    requires |sep| > 0 && Avoids(p, sep)
    ensures Split(p + sep + rest, sep) == [p] + Split(rest, sep)
  {
    var s := p + sep + rest;
    IndexOfAfter(p, sep, rest);
    assert s[..|p|] == p;
    assert s[|p| + |sep|..] == rest;
  }

  /** Splitting a join gives the pieces back, provided no piece holds a
      character of the separator. */
  lemma {:induction false} SplitJoin(parts: seq<string>, sep: string)
    requires |sep| > 0 && |parts| >= 1
    requires forall k :: 0 <= k < |parts| ==> Avoids(parts[k], sep)
    ensures Split(Join(parts, sep), sep) == parts
    decreases |parts|
  {
    if |parts| == 1 {
      IndexOfAvoiding(parts[0], sep);
    } else {
      var tail := parts[1..];
      assert forall k :: 0 <= k < |tail| ==> Avoids(tail[k], sep) by {
        forall k | 0 <= k < |tail|
          ensures Avoids(tail[k], sep)
        {
          assert tail[k] == parts[k + 1];
        }
      }
      SplitJoin(tail, sep);
      SplitAfter(parts[0], sep, Join(tail, sep));
      assert parts == [parts[0]] + tail;
    }
  }

  /** A concatenation avoids a separator when both halves do. */
  lemma AvoidsConcat(a: string, b: string, sep: string)
    requires Avoids(a, sep) && Avoids(b, sep)
    ensures Avoids(a + b, sep)
  {
    forall i | 0 <= i < |a + b|
      ensures (a + b)[i] !in sep
    {
      if i < |a| { assert (a + b)[i] == a[i]; } else { assert (a + b)[i] == b[i - |a|]; }
    }
  }

  // ---------------------------------------------------------------------
  // Digits

  /** The value of `c` as a digit in base `radix` (2 to 36): 0-9, then the
      letters a-z or A-Z for 10 to 35. */
  function DigitValue(c: char, radix: nat): (r: Option<nat>)
    ensures r.Some? ==> r.value < radix
  {
    var v: int :=
      if '0' <= c <= '9' then c as int - '0' as int
      else if 'a' <= c <= 'z' then c as int - 'a' as int + 10
      else if 'A' <= c <= 'Z' then c as int - 'A' as int + 10
      else -1;
    if 0 <= v < radix then Some(v) else None
  }

  predicate IsDigit(c: char, radix: nat) {
    DigitValue(c, radix).Some?
  }

  /** The decimal digit character for `d`. */
  function DigitChar(d: nat): (c: char)
    requires d < 10
    ensures DigitValue(c, 10) == Some(d)
  {
    (d + '0' as int) as char
  }

  /** The value of a string of base-`radix` digits, most significant first. */
  function DigitsValue(s: string, radix: nat): nat
    requires forall i :: 0 <= i < |s| ==> IsDigit(s[i], radix)
  {
    if s == [] then 0
    else
      assert IsDigit(s[|s| - 1], radix);
      DigitsValue(s[..|s| - 1], radix) * radix + DigitValue(s[|s| - 1], radix).value
  }

  /** The length of the longest prefix of `s` made of base-`radix` digits. */
  function DigitRun(s: string, radix: nat): (n: nat)
    ensures n <= |s|
    ensures forall i :: 0 <= i < n ==> IsDigit(s[i], radix)
    ensures n < |s| ==> !IsDigit(s[n], radix)
  {
    if |s| > 0 && IsDigit(s[0], radix) then 1 + DigitRun(s[1..], radix) else 0
  }

  /** A run of digits followed by a non-digit (or nothing) is exactly the
      run. */
  lemma {:induction false} DigitRunOf(d: string, rest: string, radix: nat)
    requires forall i :: 0 <= i < |d| ==> IsDigit(d[i], radix)
    requires rest == [] || !IsDigit(rest[0], radix)
    ensures DigitRun(d + rest, radix) == |d|
    decreases |d|
  {
    if d == [] {
      assert d + rest == rest;
    } else {
      assert (d + rest)[1..] == d[1..] + rest;
      DigitRunOf(d[1..], rest, radix);
    }
  }

  // ---------------------------------------------------------------------
  // Number to String

  /** The decimal numeral of `n` without leading zeros, as `String(n)`
      writes it for an integer Number below 10^21. */
  function NatToDecimal(n: nat): (r: string)
    ensures |r| >= 1
    ensures forall i :: 0 <= i < |r| ==> IsDigit(r[i], 10)
    ensures (r[0] == '0') == (n == 0)
    ensures DigitsValue(r, 10) == n
  {
    if n < 10 then [DigitChar(n)]
    else
      var r := NatToDecimal(n / 10) + [DigitChar(n % 10)];
      assert r[..|r| - 1] == NatToDecimal(n / 10);
      r
  }

  /** `String(n)` for an integer `n`: a minus sign for negatives, then the
      decimal numeral of its magnitude. */
  function IntToString(n: int): (r: string)
    ensures |r| >= 1
    ensures forall i :: 0 <= i < |r| ==> IsDigit(r[i], 10) || r[i] == '-'
  {
    if n < 0 then "-" + NatToDecimal(-n) else NatToDecimal(n)
  }

  // ---------------------------------------------------------------------
  // parseInt

  /** StrWhiteSpaceChar of ECMA-262: the white space and line terminator
      code points that `parseInt` skips before the number. */
  predicate AllWhiteSpace(w: string) {
    forall i :: 0 <= i < |w| ==> IsStrWhiteSpace(w[i])
  }

  predicate IsStrWhiteSpace(c: char) {
    var n := c as int;
    n == 0x09 || n == 0x0A || n == 0x0B || n == 0x0C || n == 0x0D || n == 0x20 ||
    n == 0xA0 || n == 0x1680 || (0x2000 <= n <= 0x200A) || n == 0x2028 ||
    n == 0x2029 || n == 0x202F || n == 0x205F || n == 0x3000 || n == 0xFEFF
  }

  function TrimStart(s: string): (t: string)
    ensures |t| <= |s| && t == s[|s| - |t|..]
    ensures t == [] || !IsStrWhiteSpace(t[0])
  {
    if |s| > 0 && IsStrWhiteSpace(s[0]) then TrimStart(s[1..]) else s
  }

  /** `parseInt(s)` with no radix; None is NaN. Leading white space is
      skipped, then the rest is read by ParseSigned. */
  function ParseInt(s: string): Option<int> {
    ParseSigned(TrimStart(s))
  }

  /** One optional sign, then the unsigned reading of ParseMagnitude. */
  function ParseSigned(t: string): Option<int> {
    if |t| > 0 && t[0] == '-' then
      match ParseMagnitude(t[1..])
      case None => None
      case Some(m) => Some(-m)
    else if |t| > 0 && t[0] == '+' then ParseMagnitude(t[1..])
    else ParseMagnitude(t)
  }

  /** The unsigned part of `parseInt`: a "0x" or "0X" prefix switches to
      base 16, and the longest run of digits that follows is read; anything
      after the run is ignored. No digits at all gives NaN. */
  function ParseMagnitude(u: string): Option<int> {
    var hex := |u| >= 2 && u[0] == '0' && (u[1] == 'x' || u[1] == 'X');
    var radix := if hex then 16 else 10;
    var digits := if hex then u[2..] else u;
    var n := DigitRun(digits, radix);
    if n == 0 then None else Some(DigitsValue(digits[..n], radix))
  }

  /** What may follow a numeral without changing what `parseInt` reads:
      nothing, or a character that is not a decimal digit and not the `x`
      of a hexadecimal prefix. */
  predicate EndsNumeral(rest: string) {
    rest == [] || (!IsDigit(rest[0], 10) && rest[0] != 'x' && rest[0] != 'X')
  }

  /** The unsigned reading of a decimal numeral followed by a non-digit. */
  lemma ParseMagnitudeOf(m: nat, rest: string)
    requires EndsNumeral(rest)
    ensures ParseMagnitude(NatToDecimal(m) + rest) == Some(m)
  {
    var d := NatToDecimal(m);
    var u := d + rest;
    assert u[0] == d[0];
    if |u| >= 2 && u[0] == '0' {
      assert |d| == 1;
      assert u[1] == rest[0];
    }
    DigitRunOf(d, rest, 10);
    assert u[..|d|] == d;
  }

  /** `parseInt` reads back the integer that `String` wrote, whatever
      non-digit text follows it: `parseInt(String(n) + rest) == n`. */
  lemma ParseIntOfString(n: int, rest: string)
    requires EndsNumeral(rest)
    ensures ParseInt(IntToString(n) + rest) == Some(n)
  {
    if n < 0 {
      NegativeString(n, rest);
      ParseNegative(n, rest);
    } else {
      ParseNonNegative(n, rest);
    }
  }

  lemma ParseNegative(n: int, rest: string)
    requires EndsNumeral(rest) && n < 0
    ensures ParseInt(['-'] + (NatToDecimal(-n) + rest)) == Some(n)
  {
    ParseMagnitudeOf(-n, rest);
    MinusSign(NatToDecimal(-n) + rest, -n);
  }

  /** A minus sign before text whose unsigned reading is m reads as -m. */
  lemma MinusSign(u: string, m: int)
    requires ParseMagnitude(u) == Some(m)
    ensures ParseInt(['-'] + u) == Some(-m)
  {
    var s := ['-'] + u;
    assert s[1..] == u;
    NotSpace(s);
    ParseIntMinus(s, m);
  }

  /** `String(n)` for a negative `n` is a minus sign before the numeral. */
  lemma NegativeString(n: int, rest: string)
    requires n < 0
    ensures IntToString(n) + rest == ['-'] + (NatToDecimal(-n) + rest)
  {
  }

  /** A leading minus sign negates the unsigned reading. */
  lemma ParseIntMinus(s: string, m: int)
    requires |s| > 0 && s[0] == '-' && TrimStart(s) == s
    requires ParseMagnitude(s[1..]) == Some(m)
    ensures ParseInt(s) == Some(-m)
  {
    assert ParseSigned(s) == Some(-m);
  }

  lemma ParseNonNegative(m: nat, rest: string)
    requires EndsNumeral(rest)
    ensures ParseInt(NatToDecimal(m) + rest) == Some(m)
  {
    var d := NatToDecimal(m);
    var s := d + rest;
    assert s[0] == d[0];
    DecimalDigit(d[0]);
    NotSpace(s);
    ParseMagnitudeOf(m, rest);
  }

  /** A decimal digit is neither white space nor a sign. */
  lemma DecimalDigit(c: char)
    requires IsDigit(c, 10)
    ensures '0' <= c <= '9'
  {
  }

  /** A string that starts with a character other than white space is left
      alone by TrimStart. */
  lemma NotSpace(s: string)
    requires |s| > 0 && (s[0] == '-' || '0' <= s[0] <= '9')
    ensures TrimStart(s) == s
  {
  }

  /** parseInt of the whole numeral. */
  lemma ParseIntRoundTrip(n: int)
    ensures ParseInt(IntToString(n)) == Some(n)
  {
    ParseIntOfString(n, "");
    assert IntToString(n) + "" == IntToString(n);
  }

  /** `parseInt("3abc")` is 3: the run of digits stops at the letter. */
  lemma ParseIntStopsAtLetter()
    ensures ParseInt("3abc") == Some(3)
  {
    assert IntToString(3) == "3";
    assert EndsNumeral("abc");
    ParseIntOfString(3, "abc");
    assert "3" + "abc" == "3abc";
  }

  /** `parseInt("")` and `parseInt("abc")` are NaN: there is no digit. */
  lemma ParseIntNoDigits()
    ensures ParseInt("") == None
    ensures ParseInt("abc") == None
  {
    assert TrimStart("abc") == "abc";
    assert !IsDigit('a', 10);
    assert DigitRun("abc", 10) == 0;
  }

  /** Leading white space is skipped: it does not change what TrimStart
      leaves. */
  lemma {:induction false} TrimWhiteSpace(w: string, s: string)
    requires AllWhiteSpace(w)
    ensures TrimStart(w + s) == TrimStart(s)
    decreases |w|
  {
    if w == [] {
      assert w + s == s;
    } else {
      assert IsStrWhiteSpace(w[0]);
      assert (w + s)[0] == w[0] && (w + s)[1..] == w[1..] + s;
      assert AllWhiteSpace(w[1..]) by {
        forall i | 0 <= i < |w[1..]|
          ensures IsStrWhiteSpace(w[1..][i])
        {
          assert w[1..][i] == w[i + 1];
        }
      }
      TrimWhiteSpace(w[1..], s);
    }
  }

  /** TrimStart removes white space only: everything it drops is white
      space (and, by its contract, it stops at the first other character). */
  lemma {:induction false} TrimStartDropsWhiteSpace(s: string)
    ensures AllWhiteSpace(s[..|s| - |TrimStart(s)|])
    decreases |s|
  {
    if |s| > 0 && IsStrWhiteSpace(s[0]) {
      var r := s[1..];
      var t := TrimStart(r);
      assert TrimStart(s) == t;
      var k := |s| - |t|;
      TrimStartDropsWhiteSpace(r);
      assert |r| - |t| == k - 1;
      var w := r[..k - 1];
      WhiteSpaceCons(s[0], w);
      assert s[..k] == [s[0]] + w;
    }
  }

  /** A white-space character before white space is white space. */
  lemma WhiteSpaceCons(c: char, w: string)
    requires IsStrWhiteSpace(c) && AllWhiteSpace(w)
    ensures AllWhiteSpace([c] + w)
  {
    forall i | 0 <= i < |[c] + w|
      ensures IsStrWhiteSpace(([c] + w)[i])
    {
      if i > 0 {
        assert ([c] + w)[i] == w[i - 1];
      }
    }
  }

  /** `parseInt` ignores leading white space. */
  lemma ParseIntSkipsWhiteSpace(w: string, s: string)
    requires AllWhiteSpace(w)
    ensures ParseInt(w + s) == ParseInt(s)
  {
    TrimWhiteSpace(w, s);
  }

  /** `parseInt(" " + String(n))` is n: a leading space is skipped. */
  lemma ParseIntAfterSpace(n: int)
    ensures ParseInt(" " + IntToString(n)) == Some(n)
  {
    assert AllWhiteSpace(" ") by {
      assert IsStrWhiteSpace(" "[0]);
    }
    ParseIntSkipsWhiteSpace(" ", IntToString(n));
    ParseIntRoundTrip(n);
  }
}
