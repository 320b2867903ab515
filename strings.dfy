/**
 * The JavaScript string operations the proxy and its SVG parsers rely on:
 * `indexOf`, `includes`, `slice`-based splicing and `String.prototype.replace`
 * with a string pattern (first occurrence only, `$` patterns expanded).
 * Strings are sequences of Unicode scalar values, where JavaScript uses
 * UTF-16 code units: positions agree on text without astral characters.
 */
module Strings {
  import opened Wrappers

  /** `t` occurs in `s` starting at index `i`. */
  predicate OccursAt(s: string, t: string, i: nat) {
    i + |t| <= |s| && s[i..i + |t|] == t
  }

  /**
   * The first occurrence of `t` at or after `from`: `s.indexOf(t, from)` for a
   * `from` within `s`. JavaScript clamps a larger `from` to the length, so
   * there an empty `t` is found at the end while this gives `None`; the
   * handler and the parsers only search from 0, through `IndexOf`.
   */
  function IndexOfFrom(s: string, t: string, from: nat): (r: Option<nat>)
    ensures r.Some? ==> from <= r.value && OccursAt(s, t, r.value)
    ensures r.Some? ==> forall j :: from <= j < r.value ==> !OccursAt(s, t, j)
    ensures r.None? ==> forall j :: from <= j ==> !OccursAt(s, t, j)
    decreases |s| - from
  {
    if from + |t| > |s| then None
    else if OccursAt(s, t, from) then Some(from)
    else IndexOfFrom(s, t, from + 1)
  }

  /** `s.indexOf(t)`. */
  function IndexOf(s: string, t: string): Option<nat> {
    IndexOfFrom(s, t, 0)
  }

  /** `s.includes(t)`, as lodash `_.includes` does for strings. */
  predicate Contains(s: string, t: string)
    ensures Contains(s, t) <==> exists i :: OccursAt(s, t, i)
  {
    IndexOf(s, t).Some?
  }

  /** An occurrence of `u + t` contains an occurrence of `t`. */
  lemma OccursInSuffix(s: string, u: string, t: string, i: nat)
    requires OccursAt(s, u + t, i)
    ensures OccursAt(s, t, i + |u|)
  {
    assert s[i + |u|..i + |u| + |t|] == (u + t)[|u|..];
  }

  /**
   * `insertAt(string, start, newSubStr)` of both SVG parsers:
   * `string.slice(0, start) + newSubStr + string.slice(start)`. A `start` past
   * the end is clamped to the length, as `slice` does.
   */
  function InsertAt(s: string, start: nat, t: string): (r: string)
    ensures var k := if start <= |s| then start else |s|;
      && |r| == |s| + |t|
      && r[..k] == s[..k]
      && OccursAt(r, t, k)
      && r[k + |t|..] == s[k..]
  {
    var k := if start <= |s| then start else |s|;
    s[..k] + t + s[k..]
  }

  /**
   * GetSubstitution for a replacement string when the pattern is a string
   * (so there are no capture groups): `$$` is a dollar sign, `$&` the matched
   * text, `` $` `` the text before the match, `$'` the text after it; any other
   * `$` is kept literally. A replacement without a dollar sign is inserted
   * verbatim.
   */
  function Expand(repl: string, matched: string, before: string, after: string): (r: string)
    ensures '$' !in repl ==> r == repl
    decreases |repl|
  {
    if |repl| == 0 then ""
    else if repl[0] == '$' && |repl| >= 2 && repl[1] in "$&`'" then
      (if repl[1] == '$' then "$"
       else if repl[1] == '&' then matched
       else if repl[1] == '`' then before
       else after)
      + Expand(repl[2..], matched, before, after)
    else [repl[0]] + Expand(repl[1..], matched, before, after)
  }

  /** The four `$` patterns on their own: a dollar sign, the match, the text before it, the text after it. */
  lemma ExpandPatterns(matched: string, before: string, after: string)
    ensures Expand("$$", matched, before, after) == "$"
    ensures Expand("$&", matched, before, after) == matched
    ensures Expand("$`", matched, before, after) == before
    ensures Expand("$'", matched, before, after) == after
  {
    assert "$$"[2..] == "$&"[2..] == "$`"[2..] == "$'"[2..] == "";
  }

  /** A `$` pattern at the front is expanded on its own, and the rest after it. */
  lemma ExpandPatternThen(c: char, rest: string, matched: string, before: string, after: string)
    requires c in "$&`'"
    ensures Expand(['$', c] + rest, matched, before, after)
      == Expand(['$', c], matched, before, after) + Expand(rest, matched, before, after)
  {
    assert (['$', c] + rest)[2..] == rest;
    assert ['$', c][2..] == "";
  }

  /** A `$` that starts no pattern is kept literally. */
  lemma ExpandLoneDollar(c: char, rest: string, matched: string, before: string, after: string)
    requires c !in "$&`'"
    ensures Expand(['$', c] + rest, matched, before, after) == "$" + Expand([c] + rest, matched, before, after)
  {
    assert (['$', c] + rest)[1..] == [c] + rest;
  }

  /** A `$` at the very end, with nothing after it, is kept literally. */
  lemma ExpandTrailingDollar(matched: string, before: string, after: string)
    ensures Expand("$", matched, before, after) == "$"
  {
    assert "$"[1..] == "";
  }

  /** Dollar-free text at the front is copied, and the rest expanded after it. */
  lemma {:induction false} ExpandPlainThen(x: string, rest: string, matched: string, before: string, after: string)
    requires '$' !in x
    ensures Expand(x + rest, matched, before, after) == x + Expand(rest, matched, before, after)
    decreases |x|
  {
    if |x| == 0 {
      assert x + rest == rest;
    } else {
      var tail := x[1..];
      assert '$' !in tail by { assert forall k :: 0 <= k < |tail| ==> tail[k] == x[k + 1]; }
      ExpandPlainThen(tail, rest, matched, before, after);
      ExpandPlainHead(x[0], tail + rest, matched, before, after);
      assert x + rest == [x[0]] + (tail + rest);
      assert x == [x[0]] + tail;
      JoinAssoc([x[0]], tail, Expand(rest, matched, before, after));
    }
  }

  /** A character other than `$` at the front is copied. */
  lemma ExpandPlainHead(c: char, rest: string, matched: string, before: string, after: string)
    requires c != '$'
    ensures Expand([c] + rest, matched, before, after) == [c] + Expand(rest, matched, before, after)
  {
    assert ([c] + rest)[1..] == rest;
  }

  /**
   * `s.replace(pattern, repl)` with a string `pattern`: only the first
   * occurrence is replaced; without an occurrence `s` is returned unchanged.
   */
  function ReplaceFirst(s: string, pattern: string, repl: string): (r: string)
    ensures IndexOf(s, pattern).None? ==> r == s
    ensures IndexOf(s, pattern).Some? ==>
      var k := IndexOf(s, pattern).value;
      && k + |pattern| <= |s| <= |r| + |pattern|
      && r[..k] == s[..k]
      && r[|r| - (|s| - k - |pattern|)..] == s[k + |pattern|..]
  {
    match IndexOf(s, pattern)
    case None => s
    case Some(k) =>
      s[..k] + Expand(repl, pattern, s[..k], s[k + |pattern|..]) + s[k + |pattern|..]
  }

  /** With a dollar-free replacement, the first occurrence is spliced out and `repl` put in its place. */
  lemma ReplaceFirstSplice(s: string, pattern: string, repl: string)
    requires '$' !in repl
    requires IndexOf(s, pattern).Some?
    ensures var k := IndexOf(s, pattern).value;
      ReplaceFirst(s, pattern, repl) == s[..k] + repl + s[k + |pattern|..]
  {
    var k := IndexOf(s, pattern).value;
    assert Expand(repl, pattern, s[..k], s[k + |pattern|..]) == repl;
  }

  /** Replacing the first occurrence of a dollar-free text by itself changes nothing. */
  lemma ReplaceFirstSelf(s: string, pattern: string)
    requires '$' !in pattern
    ensures ReplaceFirst(s, pattern, pattern) == s
  {
    if IndexOf(s, pattern).Some? {
      ReplaceFirstSplice(s, pattern, pattern);
      var k := IndexOf(s, pattern).value;
      assert s[k..k + |pattern|] == pattern;
      assert s[..k] + s[k..k + |pattern|] + s[k + |pattern|..] == s;
    }
  }

  /** Cutting `[a, b)` out of `s` and inserting `u` at `tag`, before the cut, moves only the text between them. */
  lemma InsertBeforeCut(s: string, tag: nat, a: nat, b: nat, u: string)
    requires tag <= a <= b <= |s|
    ensures InsertAt(s[..a] + s[b..], tag, u) == s[..tag] + u + s[tag..a] + s[b..]
  {
    var d := s[..a] + s[b..];
    assert d[..tag] == s[..tag];
    assert d[tag..] == s[tag..a] + s[b..];
  }

  /** Concatenation is associative. */
  lemma JoinAssoc(p: string, q: string, r: string)
    ensures (p + q) + r == p + (q + r)
  {
  }

  /** The text before a cut splits at any point before it. */
  lemma CutSplit(s: string, tag: nat, a: nat, b: nat)
    requires tag <= a <= b <= |s|
    ensures s[..tag] + (s[tag..a] + s[b..]) == s[..a] + s[b..]
  {
    assert s[..a] == s[..tag] + s[tag..a];
  }

  /** A text that agrees with `t` up to the end of an occurrence of `u` has that occurrence too, and the same prefix before it. */
  lemma PrefixKeepsOccurrence(a: string, t: string, i: nat, u: string)
    requires OccursAt(t, u, i)
    requires |a| >= i + |u| && a[..i + |u|] == t[..i + |u|]
    ensures a[..i] == t[..i] && OccursAt(a, u, i)
  {
    assert a[..i] == a[..i + |u|][..i];
    assert a[i..i + |u|] == a[..i + |u|][i..];
    assert t[i..i + |u|] == t[..i + |u|][i..];
  }
}
