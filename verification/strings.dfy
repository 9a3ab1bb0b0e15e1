/** String helpers for the browser built-ins the core relies on:
    `String.prototype.includes`, `String.prototype.toLowerCase` (on ASCII letters)
    and splitting on a delimiter character. */
module Strings {
  import opened Wrappers

  /** `m` occurs in `s` starting at index `i`. */
  ghost predicate OccursAt(s: string, m: string, i: int) {
    0 <= i && i + |m| <= |s| && s[i..i + |m|] == m
  }

  /** Moving the start of the haystack one character on moves every occurrence one index back. */
  lemma OccursAtTail(s: string, m: string, i: int)
    requires |s| > 0 && i >= 0
    ensures OccursAt(s[1..], m, i) <==> OccursAt(s, m, i + 1)
  {
  }

  /** `s.includes(m)`: true exactly when `m` occurs somewhere in `s`. */
  function Includes(s: string, m: string): (b: bool)
    ensures b <==> exists i :: OccursAt(s, m, i)
    decreases |s|
  {
    if |m| > |s| then
      false
    else if s[..|m|] == m then
      assert OccursAt(s, m, 0);
      true
    else
      var b := Includes(s[1..], m);
      assert b ==> exists i :: OccursAt(s, m, i) by {
        if b {
          var i :| OccursAt(s[1..], m, i);
          OccursAtTail(s, m, i);
        }
      }
      assert (exists i :: OccursAt(s, m, i)) ==> b by {
        if exists i :: OccursAt(s, m, i) {
          var i :| OccursAt(s, m, i);
          assert i != 0;
          OccursAtTail(s, m, i - 1);
        }
      }
      b
  }

  /** Lower-cases one character: only `A`-`Z` change. */
  function LowerChar(c: char): (d: char)
    ensures 'A' <= c <= 'Z' ==> 'a' <= d <= 'z' && d as int - c as int == 'a' as int - 'A' as int
    ensures !('A' <= c <= 'Z') ==> d == c
  {
    if 'A' <= c <= 'Z' then (c as int - 'A' as int + 'a' as int) as char else c
  }

  /** `s.toLowerCase()` on the ASCII letters; every other character is kept. */
  function ToLower(s: string): (r: string)
    ensures |r| == |s|
    ensures forall i :: 0 <= i < |s| ==> r[i] == LowerChar(s[i])
  {
    seq(|s|, i requires 0 <= i < |s| => LowerChar(s[i]))
  }

  /** `m` occurs in `s` at index `i` when letter case in `s` is ignored. */
  ghost predicate OccursAtIgnoringCase(s: string, m: string, i: int) {
    0 <= i && i + |m| <= |s| && forall j :: 0 <= j < |m| ==> LowerChar(s[i + j]) == m[j]
  }

  /** Searching the lower-cased string finds `m` exactly where a case-blind comparison does. */
  lemma ToLowerOccursAt(s: string, m: string, i: int)
    ensures OccursAt(ToLower(s), m, i) <==> OccursAtIgnoringCase(s, m, i)
  {
  }

  /** `s.toLowerCase().includes(m)` holds exactly when `m` occurs in `s` ignoring case. */
  lemma IncludesIgnoringCase(s: string, m: string)
    ensures Includes(ToLower(s), m) <==> exists i :: OccursAtIgnoringCase(s, m, i)
  {
    if Includes(ToLower(s), m) {
      var i :| OccursAt(ToLower(s), m, i);
      ToLowerOccursAt(s, m, i);
    }
    if exists i :: OccursAtIgnoringCase(s, m, i) {
      var i :| OccursAtIgnoringCase(s, m, i);
      ToLowerOccursAt(s, m, i);
    }
  }

  lemma ConcatAssoc(a: string, b: string, c: string)
    ensures (a + b) + c == a + (b + c)
  {
  }

  /** Index of the first occurrence of `d` in `s`, if any. */
  function IndexOf(s: string, d: char): (r: Option<nat>)
    ensures r.None? <==> d !in s
    ensures r.Some? ==> r.value < |s| && s[r.value] == d && d !in s[..r.value]
    decreases |s|
  {
    if s == [] then
      None
    else if s[0] == d then
      Some(0)
    else
      match IndexOf(s[1..], d)
      case None =>
        assert s == [s[0]] + s[1..];
        None
      case Some(i) =>
        assert s[..i + 1] == [s[0]] + s[1..][..i];
        Some(i + 1)
  }

  /** The first `d` after a prefix free of `d` is the one right after the prefix. */
  lemma IndexOfAfterPrefix(a: string, d: char, b: string)
    requires d !in a
    ensures IndexOf(a + [d] + b, d) == Some(|a|)
  {
    var s := a + [d] + b;
    var r := IndexOf(s, d);
    assert s[|a|] == d;
    assert r.Some?;
  }

  /** Splits `s` at every occurrence of `d`, like `s.split(d)`. */
  function Split(s: string, d: char): (parts: seq<string>)
    ensures |parts| >= 1
    ensures forall k :: 0 <= k < |parts| ==> d !in parts[k]
    decreases |s|
  {
    match IndexOf(s, d)
    case None => [s]
    case Some(i) => [s[..i]] + Split(s[i + 1..], d)
  }

  /** Puts the parts back together with `d` between neighbours, like `parts.join(d)`. */
  function Join(parts: seq<string>, d: char): string
    requires |parts| >= 1
    decreases |parts|
  {
    if |parts| == 1 then parts[0] else parts[0] + [d] + Join(parts[1..], d)
  }

  /** Splitting loses nothing: joining the parts gives back the original string. */
  lemma {:induction false} JoinSplit(s: string, d: char)
    ensures Join(Split(s, d), d) == s
    decreases |s|
  {
    match IndexOf(s, d)
    case None =>
    case Some(i) =>
      var parts := Split(s, d);
      assert parts == [s[..i]] + Split(s[i + 1..], d);
      assert parts[1..] == Split(s[i + 1..], d);
      JoinSplit(s[i + 1..], d);
      assert s == s[..i] + [d] + s[i + 1..];
  }

  /** A `d`-free head followed by `d` splits off as the first part. */
  lemma SplitAfterHead(a: string, d: char, b: string)
    requires d !in a
    ensures Split(a + [d] + b, d) == [a] + Split(b, d)
  {
    var s := a + [d] + b;
    IndexOfAfterPrefix(a, d, b);
    assert s[..|a|] == a;
    assert s[|a| + 1..] == b;
  }
}
