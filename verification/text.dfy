/**
 * String operations with the meaning the Python `str` methods used by the
 * spider and the pipelines have: strip, split, join, lower, `in`,
 * startswith, replace and `str()` of an integer.
 */
module Text {

  /** Python's `str.isspace` for one character. */
  predicate IsSpace(c: char) {
    || c == ' '
    || ('\t' <= c <= '\r')
    || ('\U{1c}' <= c <= '\U{1f}')
    || c == '\U{85}' || c == '\U{a0}' || c == '\U{1680}'
    || ('\U{2000}' <= c <= '\U{200a}')
    || c == '\U{2028}' || c == '\U{2029}' || c == '\U{202f}' || c == '\U{205f}' || c == '\U{3000}'
  }

  predicate NotSpace(c: char) {
    !IsSpace(c)
  }

  /** Drops the leading characters that satisfy `drop`. */
  function TrimStart(s: string, drop: char -> bool): (r: string)
    ensures |r| <= |s| && r == s[|s| - |r|..]
    ensures forall k | 0 <= k < |s| - |r| :: drop(s[k])
    ensures r != [] ==> !drop(r[0])
    decreases |s|
  {
    if s != [] && drop(s[0]) then TrimStart(s[1..], drop) else s
  }

  /** Drops the trailing characters that satisfy `drop`. */
  function TrimEnd(s: string, drop: char -> bool): (r: string)
    ensures |r| <= |s| && r == s[..|r|]
    ensures forall k | |r| <= k < |s| :: drop(s[k])
    ensures r != [] ==> !drop(r[|r| - 1])
    decreases |s|
  {
    if s != [] && drop(s[|s| - 1]) then TrimEnd(s[..|s| - 1], drop) else s
  }

  /**
   * The longest middle slice of `s` that neither starts nor ends with a
   * character satisfying `drop`: everything cut off satisfies `drop`.
   */
  function StripWhere(s: string, drop: char -> bool): (r: string)
    ensures r != [] ==> !drop(r[0]) && !drop(r[|r| - 1])
    ensures exists i :: StrippedAt(s, r, i, drop)
  {
    var t := TrimStart(s, drop);
    var r := TrimEnd(t, drop);
    TrimBoth(s, t, r, drop);
    r
  }

  /** A tail of `s` cut at its end leaves a slice of `s` with only dropped characters around it. */
  lemma TrimBoth(s: string, t: string, r: string, drop: char -> bool)
    requires |t| <= |s| && t == s[|s| - |t|..]
    requires forall k | 0 <= k < |s| - |t| :: drop(s[k])
    requires |r| <= |t| && r == t[..|r|]
    requires forall k | |r| <= k < |t| :: drop(t[k])
    ensures StrippedAt(s, r, |s| - |t|, drop)
  {
    var i := |s| - |t|;
    forall k | 0 <= k < |r| ensures r[k] == s[i + k] {
      assert r[k] == t[k];
    }
    forall k | i + |r| <= k < |s| ensures drop(s[k]) {
      assert s[k] == t[k - i];
    }
  }

  /** `r` sits at index `i` of `s`, and every character of `s` around it satisfies `drop`. */
  ghost predicate StrippedAt(s: string, r: string, i: int, drop: char -> bool) {
    && 0 <= i <= |s| - |r|
    && r == s[i..i + |r|]
    && (forall k | 0 <= k < i :: drop(s[k]))
    && (forall k | i + |r| <= k < |s| :: drop(s[k]))
  }

  /** `s.strip()`. */
  function Strip(s: string): string {
    StripWhere(s, IsSpace)
  }

  /** `s.strip(chars)`. */
  function StripChars(s: string, chars: set<char>): string {
    StripWhere(s, c => c in chars)
  }

  function LowerChar(c: char): char {
    if 'A' <= c <= 'Z' then (c as int + 32) as char else c
  }

  /** `s.lower()` on ASCII letters. */
  function Lower(s: string): (r: string)
    ensures |r| == |s|
    ensures forall i | 0 <= i < |s| :: r[i] == LowerChar(s[i])
  {
    seq(|s|, i requires 0 <= i < |s| => LowerChar(s[i]))
  }

  /** `sub in s`. */
  predicate Contains(s: string, sub: string) {
    exists i | 0 <= i <= |s| - |sub| :: OccursAt(s, sub, i)
  }

  /** `sub` occurs in `s` starting at index `i`. */
  predicate OccursAt(s: string, sub: string, i: int) {
    0 <= i <= |s| - |sub| && s[i..i + |sub|] == sub
  }

  lemma ContainsTail(s: string, sub: string)
    requires s != []
    ensures Contains(s[1..], sub) ==> Contains(s, sub)
  {
    if Contains(s[1..], sub) {
      var i :| 0 <= i <= |s[1..]| - |sub| && OccursAt(s[1..], sub, i);
      assert s[1..][i..i + |sub|] == s[i + 1..i + 1 + |sub|];
      assert OccursAt(s, sub, i + 1);
    }
  }

  /** `s.startswith(prefix)`. */
  predicate StartsWith(s: string, prefix: string) {
    |prefix| <= |s| && s[..|prefix|] == prefix
  }

  /** `"".join(parts)`. */
  function Concat(parts: seq<string>): string {
    if parts == [] then [] else parts[0] + Concat(parts[1..])
  }

  /** `sep.join(parts)`. */
  function JoinWith(parts: seq<string>, sep: string): string {
    if parts == [] then []
    else if |parts| == 1 then parts[0]
    else parts[0] + sep + JoinWith(parts[1..], sep)
  }

  function CountChar(s: string, c: char): nat {
    multiset(s)[c]
  }

  function IndexOf(s: string, c: char): (i: nat)
    requires c in s
    ensures i < |s| && s[i] == c && c !in s[..i]
  {
    if s[0] == c then 0 else 1 + IndexOf(s[1..], c)
  }

  /** `s.split(sep)` for a one-character separator. */
  function Split(s: string, sep: char): (r: seq<string>)
    decreases |s|
  {
    if sep !in s then [s]
    else
      var i := IndexOf(s, sep);
      [s[..i]] + Split(s[i + 1..], sep)
  }

  /** There is one part more than there are separators, and no part holds the separator. */
  lemma {:induction false} SplitParts(s: string, sep: char)
    ensures |Split(s, sep)| == CountChar(s, sep) + 1
    ensures forall p | p in Split(s, sep) :: sep !in p
    decreases |s|
  {
    if sep in s {
      var i := IndexOf(s, sep);
      SplitParts(s[i + 1..], sep);
      assert s == s[..i] + [sep] + s[i + 1..];
      assert multiset(s) == multiset(s[..i]) + multiset{sep} + multiset(s[i + 1..]);
    }
  }

  /** Splitting on a character and joining back with it gives the string back. */
  lemma {:induction false} SplitJoin(s: string, sep: char)
    ensures JoinWith(Split(s, sep), [sep]) == s
    decreases |s|
  {
    if sep in s {
      var i := IndexOf(s, sep);
      SplitJoin(s[i + 1..], sep);
      assert s == s[..i] + [sep] + s[i + 1..];
    }
  }

  /** The number of leading characters of `s` that are (`space`) or are not (`!space`) whitespace. */
  function Span(s: string, space: bool): (n: nat)
    ensures n <= |s|
    ensures forall k | 0 <= k < n :: IsSpace(s[k]) == space
    ensures n < |s| ==> IsSpace(s[n]) != space
  {
    if s == [] || IsSpace(s[0]) != space then 0 else 1 + Span(s[1..], space)
  }

  /** `s.split()`: the maximal runs of non-whitespace characters, in order. */
  function Words(s: string): (r: seq<string>)
    ensures forall j | 0 <= j < |r| :: IsWord(r[j])
    decreases |s|
  {
    var t := s[Span(s, true)..];
    if t == [] then []
    else
      var n := Span(t, false);
      [t[..n]] + Words(t[n..])
  }

  /** A non-empty string without whitespace. */
  predicate IsWord(w: string) {
    w != [] && forall k | 0 <= k < |w| :: NotSpace(w[k])
  }

  /** `s.replace(a, b)` for single characters. */
  function ReplaceChar(s: string, a: char, b: char): (r: string)
    ensures |r| == |s|
    ensures a != b ==> a !in r
  {
    seq(|s|, i requires 0 <= i < |s| => if s[i] == a then b else s[i])
  }

  /** `s.replace(t, '')`: occurrences of `t`, found left to right without overlap, removed. */
  function RemoveAll(s: string, t: string): (r: string)
    ensures |r| <= |s|
    decreases |s|
  {
    if t == [] || |s| < |t| then s
    else if s[..|t|] == t then RemoveAll(s[|t|..], t)
    else [s[0]] + RemoveAll(s[1..], t)
  }

  /** A text that holds `t` loses at least one copy of it. */
  lemma {:induction false} RemoveAllShrinks(s: string, t: string)
    requires t != [] && Contains(s, t)
    ensures |RemoveAll(s, t)| <= |s| - |t|
    decreases |s|
  {
    var i :| 0 <= i <= |s| - |t| && OccursAt(s, t, i);
    if s[..|t|] != t {
      ContainsHead(s, t);
      RemoveAllShrinks(s[1..], t);
    }
  }

  /** A text that does not hold `t` is unchanged. */
  lemma {:induction false} RemoveAllAbsent(s: string, t: string)
    requires !Contains(s, t)
    ensures RemoveAll(s, t) == s
    decreases |s|
  {
    if t != [] && |s| >= |t| {
      assert !OccursAt(s, t, 0);
      ContainsTail(s, t);
      RemoveAllAbsent(s[1..], t);
    }
  }

  /** `replace(t, '')` changes a text exactly when the text holds `t`. */
  lemma RemoveAllChanges(s: string, t: string)
    requires t != []
    ensures RemoveAll(s, t) == s <==> !Contains(s, t)
  {
    if Contains(s, t) {
      RemoveAllShrinks(s, t);
    } else {
      RemoveAllAbsent(s, t);
    }
  }

  /** The number of copies of `t` that `replace(t, '')` finds and removes. */
  function Copies(s: string, t: string): nat
    decreases |s|
  {
    if t == [] || |s| < |t| then 0
    else if s[..|t|] == t then 1 + Copies(s[|t|..], t)
    else Copies(s[1..], t)
  }

  /** `replace(t, '')` removes whole copies of `t`: the length lost is their total length. */
  lemma {:induction false} RemoveAllCopies(s: string, t: string)
    ensures |s| - |RemoveAll(s, t)| == Copies(s, t) * |t|
    decreases |s|
  {
    if t != [] && |s| >= |t| {
      if s[..|t|] == t {
        var rest := s[|t|..];
        RemoveAllCopies(rest, t);
        assert RemoveAll(s, t) == RemoveAll(rest, t) && Copies(s, t) == Copies(rest, t) + 1;
        OneMoreCopy(|s|, |rest|, |RemoveAll(rest, t)|, Copies(rest, t), |t|);
      } else {
        RemoveAllCopies(s[1..], t);
        assert RemoveAll(s, t) == [s[0]] + RemoveAll(s[1..], t) && Copies(s, t) == Copies(s[1..], t);
      }
    }
  }

  lemma OneMoreCopy(n: int, m: int, r: int, c: int, k: int)
    requires n == m + k && m - r == c * k
    ensures n - r == (c + 1) * k
  {
  }

  /** A text that holds `sub` but does not start with it holds `sub` after its first character. */
  lemma ContainsHead(s: string, sub: string)
    requires s != [] && sub != [] && !OccursAt(s, sub, 0)
    ensures Contains(s, sub) ==> Contains(s[1..], sub)
  {
    if Contains(s, sub) {
      var i :| 0 <= i <= |s| - |sub| && OccursAt(s, sub, i);
      assert i != 0;
      assert s[1..][i - 1..i - 1 + |sub|] == s[i..i + |sub|];
      assert OccursAt(s[1..], sub, i - 1);
    }
  }

  /** Text before the first occurrence of `t` is kept; that occurrence is removed. */
  lemma RemoveAllSkip(x: string, t: string, y: string)
    requires t != [] && forall k | 0 <= k < |x| :: x[k] != t[0]
    ensures RemoveAll(x + t + y, t) == x + RemoveAll(y, t)
  {
    assert x + t + y == x + (t + y);
    RemoveAllKeep(x, t + y, t);
    RemoveAllFront(t, y);
  }

  /** A prefix holding no character that starts `t` is kept as it is. */
  lemma {:induction false} RemoveAllKeep(x: string, s: string, t: string)
    requires t != [] && forall k | 0 <= k < |x| :: x[k] != t[0]
    ensures RemoveAll(x + s, t) == x + RemoveAll(s, t)
    decreases |x|
  {
    if x != [] {
      var x1 := x[1..];
      assert x == [x[0]] + x1;
      assert x + s == [x[0]] + (x1 + s);
      RemoveAllCons(x[0], x1 + s, t);
      RemoveAllKeep(x1, s, t);
      assert [x[0]] + (x1 + RemoveAll(s, t)) == ([x[0]] + x1) + RemoveAll(s, t);
    } else {
      assert x + s == s;
    }
  }

  /**
   * Counting copies by where they sit: a prefix with no character that
   * starts `t` holds none, and the copy of `t` after it is found once,
   * before the copies of the rest.
   */
  lemma CopiesSkip(x: string, t: string, y: string)
    requires t != [] && forall k | 0 <= k < |x| :: x[k] != t[0]
    ensures Copies(x, t) == 0
    ensures Copies(x + t + y, t) == 1 + Copies(y, t)
  {
    assert x + t + y == x + (t + y);
    CopiesKeep(x, t + y, t);
    CopiesKeep(x, [], t);
    assert x + [] == x;
    var u := t + y;
    assert u[..|t|] == t && u[|t|..] == y;
  }

  /** A prefix with no character that starts `t` adds no copy. */
  lemma {:induction false} CopiesKeep(x: string, s: string, t: string)
    requires t != [] && forall k | 0 <= k < |x| :: x[k] != t[0]
    ensures Copies(x + s, t) == Copies(s, t)
    decreases |x|
  {
    if x != [] {
      var x1 := x[1..];
      assert x == [x[0]] + x1;
      assert x + s == [x[0]] + (x1 + s);
      CopiesCons(x[0], x1 + s, t);
      CopiesKeep(x1, s, t);
    } else {
      assert x + s == s;
    }
  }

  /** A leading character that cannot start `t` adds no copy. */
  lemma CopiesCons(c: char, s: string, t: string)
    requires t != [] && c != t[0]
    ensures Copies([c] + s, t) == Copies(s, t)
  {
    var u := [c] + s;
    assert u[1..] == s;
    if |u| >= |t| {
      assert u[..|t|][0] == c;
    }
  }

  /** A leading copy of `t` is removed. */
  lemma RemoveAllFront(t: string, y: string)
    requires t != []
    ensures RemoveAll(t + y, t) == RemoveAll(y, t)
  {
    var s := t + y;
    assert s[..|t|] == t && s[|t|..] == y;
  }

  /** A leading character that cannot start `t` is kept. */
  lemma RemoveAllCons(c: char, s: string, t: string)
    requires t != [] && c != t[0]
    ensures RemoveAll([c] + s, t) == [c] + RemoveAll(s, t)
  {
    var u := [c] + s;
    assert u[1..] == s;
    if |u| >= |t| {
      assert u[..|t|][0] == c;
    }
  }

  predicate IsDigit(c: char) {
    '0' <= c <= '9'
  }

  function DigitChar(d: nat): (c: char)
    requires d < 10
    ensures IsDigit(c)
  {
    ('0' as int + d) as char
  }

  function DigitValue(c: char): nat
    requires IsDigit(c)
  {
    c as int - '0' as int
  }

  /** The number a string of decimal digits denotes. */
  function DigitsValue(ds: string): nat
    requires forall k | 0 <= k < |ds| :: IsDigit(ds[k])
  {
    if ds == [] then 0 else DigitsValue(ds[..|ds| - 1]) * 10 + DigitValue(ds[|ds| - 1])
  }

  /** `str(n)` for a natural number: its decimal digits, no leading zero. */
  function NatToString(n: nat): (r: string)
    ensures r != []
    ensures forall k | 0 <= k < |r| :: IsDigit(r[k])
    ensures |r| > 1 ==> r[0] != '0'
  {
    if n < 10 then [DigitChar(n)] else NatToString(n / 10) + [DigitChar(n % 10)]
  }

  /** Reading back the digits `str(n)` prints gives `n`. */
  lemma {:induction false} NatToStringValue(n: nat)
    ensures DigitsValue(NatToString(n)) == n
  {
    if n >= 10 {
      NatToStringValue(n / 10);
      var s := NatToString(n);
      assert s[..|s| - 1] == NatToString(n / 10);
    }
  }

  /** Different numbers print differently. */
  lemma NatToStringInjective(m: nat, n: nat)
    requires NatToString(m) == NatToString(n)
    ensures m == n
  {
    NatToStringValue(m);
    NatToStringValue(n);
  }

  /** `str(i)` for an integer. */
  function IntToString(i: int): (r: string)
    ensures r != []
  {
    if i < 0 then "-" + NatToString(-i) else NatToString(i)
  }
}
