/**
  The operations of java.lang.String that the recognizer relies on (trim,
  toUpperCase, indexOf), and a substring-containment predicate used to state
  facts about the DOT text.
 */
module JavaString {

  /** String.trim removes every leading and trailing character whose code is at most U+0020. */
  predicate IsTrimmable(c: char) {
    c <= ' '
  }

  /** Drops the leading trimmable characters. */
  function TrimLeading(s: string): (r: string)
    ensures |r| <= |s| && r == s[|s| - |r|..]
    ensures forall i :: 0 <= i < |s| - |r| ==> IsTrimmable(s[i])
    ensures r != [] ==> !IsTrimmable(r[0])
  {
    if s != [] && IsTrimmable(s[0]) then TrimLeading(s[1..]) else s
  }

  /** Drops the trailing trimmable characters. */
  function TrimTrailing(s: string): (r: string)
    ensures |r| <= |s| && r == s[..|r|]
    ensures forall i :: |r| <= i < |s| ==> IsTrimmable(s[i])
    ensures r != [] ==> !IsTrimmable(r[|r| - 1])
  {
    if s != [] && IsTrimmable(s[|s| - 1]) then TrimTrailing(s[..|s| - 1]) else s
  }

  /** String.trim. */
  function Trim(s: string): (r: string)
    ensures r != [] ==> !IsTrimmable(r[0]) && !IsTrimmable(r[|r| - 1])
  {
    TrimTrailing(TrimLeading(s))
  }

  /** A string whose ends are not trimmable is its own trim, whatever padding surrounds it. */
  lemma {:induction false} TrimPadding(pre: string, core: string, post: string)
    requires forall i :: 0 <= i < |pre| ==> IsTrimmable(pre[i])
    requires forall i :: 0 <= i < |post| ==> IsTrimmable(post[i])
    requires core != [] ==> !IsTrimmable(core[0]) && !IsTrimmable(core[|core| - 1])
    ensures Trim(pre + core + post) == core
  {
    if core == [] {
      assert pre + core + post == (pre + post) + [];
      TrimLeadingPadding(pre + post, []);
    } else {
      assert pre + core + post == pre + (core + post);
      TrimLeadingPadding(pre, core + post);
      TrimTrailingPadding(core, post);
    }
  }

  /** Padding around a string with non-trimmable ends does not change its trim. */
  lemma TrimIgnoresPadding(pre: string, core: string, post: string)
    requires forall i :: 0 <= i < |pre| ==> IsTrimmable(pre[i])
    requires forall i :: 0 <= i < |post| ==> IsTrimmable(post[i])
    requires core != [] ==> !IsTrimmable(core[0]) && !IsTrimmable(core[|core| - 1])
    ensures Trim(pre + core + post) == Trim(core)
  {
    TrimPadding(pre, core, post);
    var e: string := [];
    assert e + core + e == core;
    TrimPadding(e, core, e);
  }

  lemma {:induction false} TrimLeadingPadding(pre: string, rest: string)
    requires forall i :: 0 <= i < |pre| ==> IsTrimmable(pre[i])
    requires rest != [] ==> !IsTrimmable(rest[0])
    ensures TrimLeading(pre + rest) == rest
  {
    if pre != [] {
      assert (pre + rest)[1..] == pre[1..] + rest;
      TrimLeadingPadding(pre[1..], rest);
    } else {
      assert pre + rest == rest;
    }
  }

  lemma {:induction false} TrimTrailingPadding(rest: string, post: string)
    requires forall i :: 0 <= i < |post| ==> IsTrimmable(post[i])
    requires rest != [] ==> !IsTrimmable(rest[|rest| - 1])
    ensures TrimTrailing(rest + post) == rest
  {
    if post != [] {
      assert (rest + post)[..|rest + post| - 1] == rest + post[..|post| - 1];
      TrimTrailingPadding(rest, post[..|post| - 1]);
    } else {
      assert rest + post == rest;
    }
  }

  /** Character.toUpperCase restricted to the ASCII letters. */
  function UpperChar(c: char): char {
    if 'a' <= c <= 'z' then (c as int - 32) as char else c
  }

  /**
    String.toUpperCase on ASCII letters: each a-z becomes the same letter in
    capitals, every other character stays where it was, so no a-z is left.
   */
  function ToUpper(s: string): (r: string)
    ensures |r| == |s|
    ensures forall i :: 0 <= i < |r| ==> !('a' <= r[i] <= 'z')
    ensures forall i :: 0 <= i < |s| && 'a' <= s[i] <= 'z' ==> r[i] as int == s[i] as int - 32
    ensures forall i :: 0 <= i < |s| && !('a' <= s[i] <= 'z') ==> r[i] == s[i]
  {
    seq(|s|, i requires 0 <= i < |s| => UpperChar(s[i]))
  }

  /** The only strings whose upper case is the one-letter string [u] are [u] and its lower-case letter. */
  lemma UpperIsLetter(s: string, u: char)
    requires 'A' <= u <= 'Z'
    ensures ToUpper(s) == [u] <==> s == [u] || s == [(u as int + 32) as char]
  {
    if ToUpper(s) == [u] {
      assert |s| == 1 && UpperChar(s[0]) == u;
      assert s == [s[0]];
    }
  }

  /** t occurs in s at index i. */
  predicate OccursAt(t: string, s: string, i: int) {
    0 <= i && i + |t| <= |s| && s[i..i + |t|] == t
  }

  /** t occurs somewhere in s. */
  predicate Contains(s: string, t: string) {
    exists i :: 0 <= i <= |s| && OccursAt(t, s, i)
  }

  /** A string that lacks a character of t cannot contain t. */
  lemma MissingCharNotContained(s: string, t: string, c: char)
    requires c in t && c !in s
    ensures !Contains(s, t)
  {
  }

  /**
    The first index at or after k where t occurs, or -1: String.indexOf(t, k)
    for the k = 0 used here (for an empty t and k > |s| Java returns |s| instead).
   */
  function IndexFrom(s: string, t: string, k: nat): (r: int)
    decreases |s| - k
    ensures r == -1 || (k <= r && OccursAt(t, s, r))
    ensures forall j :: k <= j && (r == -1 || j < r) ==> !OccursAt(t, s, j)
  {
    if k + |t| > |s| then -1
    else if s[k..k + |t|] == t then k
    else IndexFrom(s, t, k + 1)
  }

  /** String.indexOf(t). */
  function IndexOf(s: string, t: string): int {
    IndexFrom(s, t, 0)
  }

  /** indexOf finds t at k when t occurs at k and its first character appears nowhere before k. */
  lemma IndexOfFirst(s: string, t: string, k: nat)
    requires t != [] && OccursAt(t, s, k)
    requires forall j :: 0 <= j < k ==> s[j] != t[0]
    ensures IndexOf(s, t) == k
  {
    var r := IndexOf(s, t);
    assert 0 <= r <= k;
    assert s[r..r + |t|][0] == s[r];
  }
}
