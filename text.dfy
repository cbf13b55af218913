/**
 * The Python string operations the scrapers and the mailer rely on:
 * `str.lower()`, `in`, `str.find`, `str.split(sep)`, `sep.join(parts)`,
 * `str.strip()` and `str.strip(chars)`, and `str(n)` for a natural number.
 */
module Text {
  import opened Wrappers

  /** Python's `str.isspace()`: the characters that `str.strip()` removes. */
  predicate IsSpace(c: char) {
    c == ' ' || ('\t' <= c <= '\r') || ('\U{1C}' <= c <= '\U{1F}')
    || c == '\U{85}' || c == '\U{A0}' || c == '\U{1680}'
    || ('\U{2000}' <= c <= '\U{200A}') || c == '\U{2028}' || c == '\U{2029}'
    || c == '\U{202F}' || c == '\U{205F}' || c == '\U{3000}'
  }

  /** `str.lower()` restricted to ASCII letters. */
  function LowerChar(c: char): char {
    if 'A' <= c <= 'Z' then (c as int + 32) as char else c
  }

  function Lower(s: string): string {
    seq(|s|, i requires 0 <= i < |s| => LowerChar(s[i]))
  }

  lemma LowerConcat(a: string, b: string)
    ensures Lower(a + b) == Lower(a) + Lower(b)
  {
    assert forall i :: 0 <= i < |a + b| ==> Lower(a + b)[i] == (Lower(a) + Lower(b))[i];
  }

  // ---------------------------------------------------------------- search

  /** `t` occurs in `s` at index `i`. */
  predicate At(s: string, t: string, i: int) {
    0 <= i && i + |t| <= |s| && s[i..i + |t|] == t
  }

  /** Python's `t in s`. */
  predicate Contains(s: string, t: string) {
    exists i | 0 <= i <= |s| - |t| :: At(s, t, i)
  }

  lemma ContainsInLeft(a: string, b: string, t: string)
    requires Contains(a, t)
    ensures Contains(a + b, t)
  {
    var i :| 0 <= i <= |a| - |t| && At(a, t, i);
    assert (a + b)[i..i + |t|] == a[i..i + |t|];
    assert At(a + b, t, i);
  }

  lemma ContainsInRight(a: string, b: string, t: string)
    requires Contains(b, t)
    ensures Contains(a + b, t)
  {
    var i :| 0 <= i <= |b| - |t| && At(b, t, i);
    assert (a + b)[|a| + i..|a| + i + |t|] == b[i..i + |t|];
    assert At(a + b, t, |a| + i);
  }

  lemma SliceHasChar(s: string, i: nat, n: nat, j: nat)
    requires i <= j < i + n <= |s|
    ensures s[j] in s[i..i + n]
  {
    assert s[i..i + n][j - i] == s[j];
  }

  /** An occurrence of a pattern without `c` cannot straddle a `c`: it lies on one side. */
  lemma ContainsAcross(a: string, c: char, b: string, t: string)
    requires c !in t
    requires Contains(a + [c] + b, t)
    ensures Contains(a, t) || Contains(b, t)
  {
    var s := a + [c] + b;
    var i :| 0 <= i <= |s| - |t| && At(s, t, i);
    if i + |t| <= |a| {
      assert a[i..i + |t|] == s[i..i + |t|];
      assert At(a, t, i);
    } else if i >= |a| + 1 {
      var j := i - |a| - 1;
      assert b[j..j + |t|] == s[i..i + |t|];
      assert At(b, t, j);
    } else {
      SliceHasChar(s, i, |t|, |a|);
      assert false;
    }
  }

  /** The first occurrence of `t` in `s` at or after index `k` (`s.find(t, k)`). */
  function FindFrom(s: string, t: string, k: nat): (r: Option<nat>)
    ensures r.Some? ==> k <= r.value <= |s| - |t|
    decreases |s| - k
  {
    if k + |t| > |s| then None
    else if |t| == 0 || s[k..k + |t|] == t then Some(k)
    else FindFrom(s, t, k + 1)
  }

  /** The search finds an occurrence, and none is skipped. */
  lemma {:induction false} FindFromSpec(s: string, t: string, k: nat)
    ensures FindFrom(s, t, k).Some? ==> At(s, t, FindFrom(s, t, k).value)
    ensures FindFrom(s, t, k).Some? ==> forall j :: k <= j < FindFrom(s, t, k).value ==> !At(s, t, j)
    ensures FindFrom(s, t, k).None? ==> forall j :: k <= j ==> !At(s, t, j)
    decreases |s| - k
  {
    if k + |t| <= |s| && !(|t| == 0 || s[k..k + |t|] == t) {
      FindFromSpec(s, t, k + 1);
    }
  }

  /** Any index where `t` occurs with no earlier occurrence is what the search finds. */
  lemma FindFromIsFirst(s: string, t: string, i: nat)
    requires At(s, t, i)
    requires forall j :: 0 <= j < i ==> !At(s, t, j)
    ensures FindFrom(s, t, 0) == Some(i)
  {
    FindFromSpec(s, t, 0);
  }

  lemma FindFromNone(s: string, t: string)
    requires !Contains(s, t)
    ensures FindFrom(s, t, 0) == None
  {
    FindFromSpec(s, t, 0);
  }

  // ---------------------------------------------------------------- split/join

  /** Python's `s.split(sep)` for a non-empty separator. */
  function Split(s: string, sep: string): (parts: seq<string>)
    requires |sep| > 0
    ensures |parts| >= 1
    decreases |s|
  {
    match FindFrom(s, sep, 0)
    case None => [s]
    case Some(i) => [s[..i]] + Split(s[i + |sep|..], sep)
  }

  /** Python's `sep.join(parts)`. */
  function Join(parts: seq<string>, sep: string): string {
    if |parts| == 0 then ""
    else if |parts| == 1 then parts[0]
    else parts[0] + sep + Join(parts[1..], sep)
  }

  /** Joining a piece in front of at least one more piece puts the separator between them. */
  lemma JoinCons(x: string, tail: seq<string>, sep: string)
    requires |tail| >= 1
    ensures Join([x] + tail, sep) == x + sep + Join(tail, sep)
  {
    assert ([x] + tail)[1..] == tail;
  }

  /** Joining the pieces of a split with the same separator gives back the string. */
  lemma {:induction false} JoinSplit(s: string, sep: string)
    requires |sep| > 0
    ensures Join(Split(s, sep), sep) == s
    decreases |s|
  {
    var f := FindFrom(s, sep, 0);
    if f.Some? {
      var i := f.value;
      FindFromSpec(s, sep, 0);
      var rest := s[i + |sep|..];
      var tail := Split(rest, sep);
      JoinSplit(rest, sep);
      assert Split(s, sep) == [s[..i]] + tail;
      JoinCons(s[..i], tail, sep);
      assert s[i..i + |sep|] == sep;
      assert s == s[..i] + s[i..i + |sep|] + rest;
    }
  }

  /** No piece of a split contains the separator. */
  lemma {:induction false} SplitPartsAvoidSep(s: string, sep: string)
    requires |sep| > 0
    ensures forall p :: p in Split(s, sep) ==> !Contains(p, sep)
    decreases |s|
  {
    FindFromSpec(s, sep, 0);
    match FindFrom(s, sep, 0)
    case None =>
    case Some(i) =>
      var rest := s[i + |sep|..];
      SplitPartsAvoidSep(rest, sep);
      var head := s[..i];
      forall j | 0 <= j <= |head| - |sep|
        ensures !At(head, sep, j)
      {
        assert !At(s, sep, j);
        assert head[j..j + |sep|] == s[j..j + |sep|];
      }
  }

  /** For a one-character separator, an occurrence is just that character. */
  lemma AtChar(s: string, c: char, j: int)
    ensures At(s, [c], j) <==> 0 <= j < |s| && s[j] == c
  {
    if 0 <= j < |s| {
      assert s[j..j + 1] == [s[j]];
    }
  }

  /** A separator that occurs splits the text into at least two parts. */
  lemma SplitOnPresent(s: string, sep: string)
    requires |sep| > 0 && Contains(s, sep)
    ensures |Split(s, sep)| >= 2
  {
    FindFromSpec(s, sep, 0);
  }

  /** Text that starts with the separator and holds no other copy of it splits into "" and the rest. */
  lemma SplitAfterLeadingSep(sep: string, rest: string)
    requires |sep| > 0 && !Contains(rest, sep)
    ensures Split(sep + rest, sep) == ["", rest]
  {
    var s := sep + rest;
    assert At(s, sep, 0) by {
      assert s[0..|sep|] == sep;
    }
    FindFromIsFirst(s, sep, 0);
    assert s[|sep|..] == rest;
    FindFromNone(rest, sep);
  }

  /** The first field of a split on a character is the text before its first copy. */
  lemma SplitCharFirst(head: string, c: char, tail: string)
    requires c !in head
    ensures Split(head + [c] + tail, [c])[0] == head
  {
    SplitCharConcat(head, c, tail);
    SplitCharNone(head, c);
  }

  /** One unfolding of a split at the occurrence the search finds. */
  lemma SplitAtFound(s: string, sep: string, i: nat)
    requires |sep| > 0 && FindFrom(s, sep, 0) == Some(i)
    ensures Split(s, sep) == [s[..i]] + Split(s[i + |sep|..], sep)
  {
  }

  /** A split on a one-character separator distributes over an occurrence of it. */
  lemma {:induction false} SplitCharConcat(a: string, c: char, b: string)
    ensures Split(a + [c] + b, [c]) == Split(a, [c]) + Split(b, [c])
    decreases |a|
  {
    var s := a + [c] + b;
    FindFromSpec(a, [c], 0);
    var i: nat := if FindFrom(a, [c], 0).Some? then FindFrom(a, [c], 0).value else |a|;
    assert i <= |a|;
    assert s[i] == c by {
      if i < |a| { AtChar(a, c, i); }
    }
    AtChar(s, c, i);
    forall j | 0 <= j < i ensures !At(s, [c], j) {
      AtChar(a, c, j);
      AtChar(s, c, j);
    }
    FindFromIsFirst(s, [c], i);
    SplitAtFound(s, [c], i);
    if i == |a| {
      assert s[..i] == a && s[i + 1..] == b;
      assert Split(a, [c]) == [a];
    } else {
      var a' := a[i + 1..];
      assert s[..i] == a[..i];
      assert s[i + 1..] == a' + [c] + b;
      var tailS := Split(s[i + 1..], [c]);
      var tailA := Split(a', [c]);
      assert tailS == tailA + Split(b, [c]) by {
        SplitCharConcat(a', c, b);
      }
      assert Split(a, [c]) == [a[..i]] + tailA by {
        SplitAtFound(a, [c], i);
      }
      assert Split(s, [c]) == [a[..i]] + tailS;
    }
  }

  /** A split of a string without the one-character separator has a single piece. */
  lemma SplitCharNone(s: string, c: char)
    requires c !in s
    ensures Split(s, [c]) == [s]
  {
    forall j | 0 <= j <= |s| - 1 ensures !At(s, [c], j) {
      assert s[j..j + 1] == [s[j]];
    }
    FindFromNone(s, [c]);
  }

  // ---------------------------------------------------------------- strip

  /** The first index at or after `i` whose character is not dropped. */
  function KeepFrom(s: string, drop: char -> bool, i: nat): (r: nat)
    requires i <= |s|
    ensures i <= r <= |s|
    ensures forall k :: i <= k < r ==> drop(s[k])
    ensures r == |s| || !drop(s[r])
    decreases |s| - i
  {
    if i < |s| && drop(s[i]) then KeepFrom(s, drop, i + 1) else i
  }

  /** The index just after the last character before `j`, and not before `lo`, that is not dropped. */
  function KeepUntil(s: string, drop: char -> bool, lo: nat, j: nat): (r: nat)
    requires lo <= j <= |s|
    ensures lo <= r <= j
    ensures forall k :: r <= k < j ==> drop(s[k])
    ensures r == lo || !drop(s[r - 1])
    decreases j
  {
    if j > lo && drop(s[j - 1]) then KeepUntil(s, drop, lo, j - 1) else j
  }

  /** `r` is the slice of `s` at `i`, and everything around it is dropped. */
  predicate TrimmedAt(s: string, drop: char -> bool, r: string, i: int) {
    0 <= i <= |s| - |r| && r == s[i..i + |r|]
    && (forall k :: 0 <= k < i ==> drop(s[k]))
    && (forall k :: i + |r| <= k < |s| ==> drop(s[k]))
  }

  /** Python's `s.strip(chars)` with the set of characters given as a predicate. */
  function Trim(s: string, drop: char -> bool): (r: string)
    ensures exists i :: TrimmedAt(s, drop, r, i)
    ensures r == [] || (!drop(r[0]) && !drop(r[|r| - 1]))
  {
    var i := KeepFrom(s, drop, 0);
    var j := KeepUntil(s, drop, i, |s|);
    assert TrimmedAt(s, drop, s[i..j], i);
    s[i..j]
  }

  /** Python's `s.strip()`. */
  function Strip(s: string): string {
    Trim(s, IsSpace)
  }

  /** Python's `s.strip(c)` for a single character `c`. */
  function StripChar(s: string, c: char): string {
    Trim(s, x => x == c)
  }

  /** Stripping changes nothing when neither end is a dropped character. */
  lemma TrimUnchanged(s: string, drop: char -> bool)
    requires s == [] || (!drop(s[0]) && !drop(s[|s| - 1]))
    ensures Trim(s, drop) == s
  {
  }

  /** Dropped characters around a body whose ends are kept are exactly what stripping removes. */
  lemma TrimAround(pre: string, body: string, post: string, drop: char -> bool)
    requires forall k :: 0 <= k < |pre| ==> drop(pre[k])
    requires forall k :: 0 <= k < |post| ==> drop(post[k])
    requires body != [] && !drop(body[0]) && !drop(body[|body| - 1])
    ensures Trim(pre + body + post, drop) == body
  {
    var s := pre + body + post;
    var i := KeepFrom(s, drop, 0);
    assert s[|pre|] == body[0];
    assert i == |pre|;
    var j := KeepUntil(s, drop, i, |s|);
    assert s[|pre| + |body| - 1] == body[|body| - 1];
    assert j == |pre| + |body|;
    assert s[i..j] == body;
  }

  /** `strip()` removes the white space around a body that has none at its ends. */
  lemma StripAround(pre: string, body: string, post: string)
    requires forall k :: 0 <= k < |pre| ==> IsSpace(pre[k])
    requires forall k :: 0 <= k < |post| ==> IsSpace(post[k])
    requires body != [] && !IsSpace(body[0]) && !IsSpace(body[|body| - 1])
    ensures Strip(pre + body + post) == body
  {
    TrimAround(pre, body, post, IsSpace);
  }

  /** `strip(c)` removes the copies of `c` around a body that does not start or end with `c`. */
  lemma StripCharAround(pre: string, body: string, post: string, c: char)
    requires forall k :: 0 <= k < |pre| ==> pre[k] == c
    requires forall k :: 0 <= k < |post| ==> post[k] == c
    requires body != [] && body[0] != c && body[|body| - 1] != c
    ensures StripChar(pre + body + post, c) == body
  {
    TrimAround(pre, body, post, x => x == c);
  }

  // ---------------------------------------------------------------- numbers

  function DigitChar(d: nat): char
    requires d < 10
  {
    ('0' as int + d) as char
  }

  /** Python's `str(n)` for a natural number. */
  function NatToString(n: nat): string
    decreases n
  {
    if n < 10 then [DigitChar(n)] else NatToString(n / 10) + [DigitChar(n % 10)]
  }

  predicate IsDigit(c: char) {
    '0' <= c <= '9'
  }

  function DigitValue(c: char): nat
    requires IsDigit(c)
  {
    c as int - '0' as int
  }

  /** The value of a string of decimal digits (Python's `int(s)` on digits). */
  function ParseNat(s: string): nat
    requires forall i :: 0 <= i < |s| ==> IsDigit(s[i])
    decreases |s|
  {
    if s == [] then 0
    else 10 * ParseNat(s[..|s| - 1]) + DigitValue(s[|s| - 1])
  }

  /** The decimal rendering of a count is non-empty, all digits, and reads back as the count. */
  lemma {:induction false} NatToStringRoundTrip(n: nat)
    ensures |NatToString(n)| > 0
    ensures forall i :: 0 <= i < |NatToString(n)| ==> IsDigit(NatToString(n)[i])
    ensures ParseNat(NatToString(n)) == n
    decreases n
  {
    if n >= 10 {
      NatToStringRoundTrip(n / 10);
      var s := NatToString(n);
      assert s[..|s| - 1] == NatToString(n / 10);
    }
  }
}
