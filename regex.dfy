/**
 * Hand-written matchers for the regular expressions the SVG parsers use, with
 * JavaScript's leftmost, greedy, backtracking semantics worked out per pattern,
 * and the global (`/g`) operations built on them: `match` (all non-overlapping
 * matches, left to right) and `replace` (every match rewritten).
 */
module Regex {
  import opened Wrappers
  import opened Strings

  /** The patterns, named after what they match in SVG markup. */
  datatype Pattern =
    | SvgOpen            // <svg[^>]*>
    | Shape              // <(rect|circle|ellipse|line|polyline|polygon|path|text)[^>]+>
    | NodeTag            // <\w+
    | StyleDecl(prop: string)  // prop:[^;"]*;?   (prop is "fill" or "stroke")
    | AttrDecl(prop: string)   // prop="[^"]*"
    | StyledNode         // <[^>]*style=".*"[^>]*>

  /** The alternatives of the shapes pattern, in the order the regex tries them. */
  const ShapeNames: seq<string> :=
    ["rect", "circle", "ellipse", "line", "polyline", "polygon", "path", "text"]

  /** `\w`: an ASCII letter, digit or underscore. */
  predicate IsWordChar(c: char) {
    ('A' <= c <= 'Z') || ('a' <= c <= 'z') || ('0' <= c <= '9') || c == '_'
  }

  /** `[^>]` */
  predicate NotGt(c: char) { c != '>' }

  /** `[^"]` */
  predicate NotQuote(c: char) { c != '"' }

  /** `[^;"]` */
  predicate NotSemiOrQuote(c: char) { c != ';' && c != '"' }

  /** `.`: anything but a line terminator. */
  predicate NotLineTerminator(c: char) {
    c != '\n' && c != '\r' && c != '\U{2028}' && c != '\U{2029}'
  }

  /** A greedy `[…]*` run from `i`: the first index at or after `i` whose character is not `ok`, or the end. */
  function Span(s: string, i: nat, ok: char -> bool): (r: nat)
    requires i <= |s|
    ensures i <= r <= |s|
    ensures forall k :: i <= k < r ==> ok(s[k])
    ensures r < |s| ==> !ok(s[r])
    decreases |s| - i
  {
    if i == |s| || !ok(s[i]) then i else Span(s, i + 1, ok)
  }

  /** A run is determined by its characterisation. */
  lemma SpanIs(s: string, i: nat, ok: char -> bool, r: nat)
    requires i <= r <= |s|
    requires forall k :: i <= k < r ==> ok(s[k])
    requires r < |s| ==> !ok(s[r])
    ensures Span(s, i, ok) == r
  {
  }

  /** `<svg[^>]*>` at `i`: `[^>]*` stops at the first `>`, which must exist. */
  function SvgOpenAt(s: string, i: nat): (r: Option<nat>)
    ensures r.Some? ==> i < r.value <= |s|
  {
    if OccursAt(s, "<svg", i) && Span(s, i + 4, NotGt) < |s| then Some(Span(s, i + 4, NotGt) + 1)
    else None
  }

  /**
   * The shapes pattern at `i`, trying the alternatives `names` in order: `<`,
   * the name, then `[^>]+` (at least one character that is not `>`), then `>`.
   */
  function ShapeAt(s: string, i: nat, names: seq<string>): (r: Option<nat>)
    requires i < |s|
    ensures r.Some? ==> i < r.value <= |s|
    ensures r.Some? ==> s[i] == '<' && exists k :: 0 <= k < |names| && OccursAt(s, names[k], i + 1)
    decreases |names|
  {
    if |names| == 0 then None
    else
      var p := i + 1 + |names[0]|;
      if s[i] == '<' && OccursAt(s, names[0], i + 1) && p < |s| && s[p] != '>' && Span(s, p, NotGt) < |s|
      then Some(Span(s, p, NotGt) + 1)
      else
        var r := ShapeAt(s, i, names[1..]);
        if r.Some? then
          var k :| 0 <= k < |names[1..]| && OccursAt(s, names[1..][k], i + 1);
          assert OccursAt(s, names[k + 1], i + 1);
          r
        else r
  }

  /** `<\w+` at `i`. */
  function NodeTagAt(s: string, i: nat): (r: Option<nat>)
    ensures r.Some? ==> i < r.value <= |s|
  {
    if i + 1 < |s| && s[i] == '<' && IsWordChar(s[i + 1]) then Some(Span(s, i + 1, IsWordChar))
    else None
  }

  /** `prop:[^;"]*;?` at `i`: the optional `;` is taken when present. */
  function StyleDeclAt(s: string, i: nat, prop: string): (r: Option<nat>)
    ensures r.Some? ==> i < r.value <= |s|
  {
    if OccursAt(s, prop + ":", i) then
      var e := Span(s, i + |prop| + 1, NotSemiOrQuote);
      Some(if e < |s| && s[e] == ';' then e + 1 else e)
    else None
  }

  /** `prop="[^"]*"` at `i`. */
  function AttrDeclAt(s: string, i: nat, prop: string): (r: Option<nat>)
    ensures r.Some? ==> i < r.value <= |s|
  {
    if OccursAt(s, prop + "=\"", i) && Span(s, i + |prop| + 2, NotQuote) < |s|
    then Some(Span(s, i + |prop| + 2, NotQuote) + 1)
    else None
  }

  /**
   * The `".*"[^>]*>` tail of the styled-node pattern, with `.*` starting at
   * `lo`: greedy `.*` tries the closing quote at `q`, `q - 1`, … down to `lo`;
   * after the quote `[^>]*>` needs a `>` somewhere later.
   */
  function QuoteSearch(s: string, lo: nat, q: nat): (r: Option<nat>)
    requires lo <= q <= |s|
    ensures r.Some? ==> lo < r.value <= |s|
    decreases q - lo
  {
    if q < |s| && s[q] == '"' && Span(s, q + 1, NotGt) < |s| then Some(Span(s, q + 1, NotGt) + 1)
    else if q == lo then None
    else QuoteSearch(s, lo, q - 1)
  }

  /**
   * The styled-node pattern from `i`, with the leading `[^>]*` ending at `p`:
   * greedy `[^>]*` tries `p`, `p - 1`, … down to `i + 1`; at each, `style="`
   * must follow and `.*` runs to the end of the line before backtracking.
   */
  function StyleAttrSearch(s: string, i: nat, p: nat): (r: Option<nat>)
    requires i < p <= |s|
    ensures r.Some? ==> i < r.value <= |s|
    decreases p
  {
    var found :=
      if OccursAt(s, "style=\"", p) then QuoteSearch(s, p + 7, Span(s, p + 7, NotLineTerminator))
      else None;
    if found.Some? then found
    else if p == i + 1 then None
    else StyleAttrSearch(s, i, p - 1)
  }

  /** `<[^>]*style=".*"[^>]*>` at `i`. */
  function StyledNodeAt(s: string, i: nat): (r: Option<nat>)
    requires i < |s|
    ensures r.Some? ==> i < r.value <= |s|
  {
    if s[i] == '<' then StyleAttrSearch(s, i, Span(s, i + 1, NotGt)) else None
  }

  /** The end of the match of `p` starting exactly at `i`, if there is one; matches are never empty. */
  function MatchAt(p: Pattern, s: string, i: nat): (r: Option<nat>)
    ensures r.Some? ==> i < r.value <= |s|
  {
    if i >= |s| then None
    else
      match p
      case SvgOpen => SvgOpenAt(s, i)
      case Shape => ShapeAt(s, i, ShapeNames)
      case NodeTag => NodeTagAt(s, i)
      case StyleDecl(prop) => StyleDeclAt(s, i, prop)
      case AttrDecl(prop) => AttrDeclAt(s, i, prop)
      case StyledNode => StyledNodeAt(s, i)
  }

  /** The leftmost match of `p` at or after `from`, as (start, end). */
  function FirstMatch(p: Pattern, s: string, from: nat): (r: Option<(nat, nat)>)
    ensures r.Some? ==> from <= r.value.0 && MatchAt(p, s, r.value.0) == Some(r.value.1)
    ensures r.Some? ==> forall j :: from <= j < r.value.0 ==> MatchAt(p, s, j).None?
    ensures r.None? ==> forall j :: from <= j ==> MatchAt(p, s, j).None?
    decreases |s| - from
  {
    if from >= |s| then None
    else
      match MatchAt(p, s, from)
      case Some(e) => Some((from, e))
      case None => FirstMatch(p, s, from + 1)
  }

  /**
   * What `s.match(p)` finds with the `/g` flag: every match, left to right,
   * each search resuming where the previous match ended.
   */
  function AllMatches(p: Pattern, s: string, from: nat): (ms: seq<(nat, nat)>)
    ensures forall k :: 0 <= k < |ms| ==>
      from <= ms[k].0 < ms[k].1 <= |s| && MatchAt(p, s, ms[k].0) == Some(ms[k].1)
    ensures forall k :: 0 < k < |ms| ==> ms[k - 1].1 <= ms[k].0
    ensures |ms| > 0 ==> FirstMatch(p, s, from) == Some(ms[0])
    ensures |ms| == 0 <==> FirstMatch(p, s, from).None?
    decreases |s| - from
  {
    match FirstMatch(p, s, from)
    case None => []
    case Some((i, e)) => [(i, e)] + AllMatches(p, s, e)
  }

  /**
   * `ms` is a chain of searches with `next`: each element after the first is
   * what `next` finds from where the previous one ended, and after the last
   * `next` finds nothing.
   */
  predicate Chained(ms: seq<(nat, nat)>, next: nat -> Option<(nat, nat)>) {
    && (forall k :: 0 < k < |ms| ==> next(ms[k - 1].1) == Some(ms[k]))
    && (|ms| > 0 ==> next(ms[|ms| - 1].1).None?)
  }

  /** A chain stays a chain with one more element in front that `next` leads from. */
  lemma ChainCons(m: (nat, nat), rest: seq<(nat, nat)>, next: nat -> Option<(nat, nat)>)
    requires Chained(rest, next)
    requires if |rest| > 0 then next(m.1) == Some(rest[0]) else next(m.1).None?
    ensures Chained([m] + rest, next)
  {
    var ms := [m] + rest;
    assert forall k :: 0 < k < |ms| ==> ms[k] == rest[k - 1];
  }

  /**
   * No match is skipped: each match after the first is the leftmost one from
   * where the previous match ended, and after the last there is none.
   */
  lemma {:induction false} AllMatchesComplete(p: Pattern, s: string, from: nat)
    ensures Chained(AllMatches(p, s, from), x => FirstMatch(p, s, x))
    decreases |s| - from
  {
    match FirstMatch(p, s, from)
    case None =>
    case Some((i, e)) =>
      AllMatchesComplete(p, s, e);
      ChainCons((i, e), AllMatches(p, s, e), x => FirstMatch(p, s, x));
  }

  /** The matched texts of `s.match(p)` with `/g`; empty where JavaScript gives `null`. */
  function MatchTexts(p: Pattern, s: string): (ts: seq<string>)
    ensures |ts| == |AllMatches(p, s, 0)|
    ensures forall k :: 0 <= k < |ts| ==>
      var m := AllMatches(p, s, 0)[k]; ts[k] == s[m.0..m.1]
  {
    var ms := AllMatches(p, s, 0);
    seq(|ms|, k requires 0 <= k < |ms| => s[ms[k].0..ms[k].1])
  }

  /**
   * `s.replace(p, f)` with `/g`, from `from` on: the text between matches is
   * copied, each match is replaced by `f` of its text.
   */
  function ReplaceFrom(p: Pattern, s: string, from: nat, f: string -> string): (r: string)
    requires from <= |s|
    ensures FirstMatch(p, s, from).None? ==> r == s[from..]
    decreases |s| - from
  {
    match FirstMatch(p, s, from)
    case None => s[from..]
    case Some((i, e)) => s[from..i] + f(s[i..e]) + ReplaceFrom(p, s, e, f)
  }

  /** The replacement callback that keeps each match. */
  function Keep(t: string): string { t }

  /** The replacement that deletes each match (`replace(p, '')`). */
  function Drop(t: string): string { "" }

  /** Three adjacent slices make up the suffix they start. */
  lemma Tile(s: string, a: nat, b: nat, c: nat)
    requires a <= b <= c <= |s|
    ensures s[a..b] + s[b..c] + s[c..] == s[a..]
  {
    assert s[a..] == s[a..b] + s[b..];
    assert s[b..] == s[b..c] + s[c..];
  }

  /** Replacing every match by its own text gives back the input: matches and the gaps between them tile the string. */
  lemma {:induction false} ReplaceKeepIsIdentity(p: Pattern, s: string, from: nat)
    requires from <= |s|
    ensures ReplaceFrom(p, s, from, Keep) == s[from..]
    decreases |s| - from
  {
    match FirstMatch(p, s, from)
    case None =>
    case Some((i, e)) =>
      ReplaceKeepIsIdentity(p, s, e);
      Tile(s, from, i, e);
  }

  /** `ms` are spans of `s` at or after `from`, in order and not overlapping. */
  predicate Spans(s: string, from: nat, ms: seq<(nat, nat)>) {
    && (forall k :: 0 <= k < |ms| ==> from <= ms[k].0 <= ms[k].1 <= |s|)
    && (forall k, l :: 0 <= k < l < |ms| ==> ms[k].1 <= ms[l].0)
  }

  /**
   * Rewriting a list of spans: the text before each span is copied, the span
   * becomes `f` of its text, and the text after the last span is copied.
   */
  function Splice(s: string, from: nat, ms: seq<(nat, nat)>, f: string -> string): (r: string)
    requires from <= |s| && Spans(s, from, ms)
    ensures |ms| == 0 ==> r == s[from..]
    decreases |ms|
  {
    if |ms| == 0 then s[from..]
    else
      var rest := ms[1..];
      assert forall k :: 0 <= k < |rest| ==> rest[k] == ms[k + 1];
      s[from..ms[0].0] + f(s[ms[0].0..ms[0].1]) + Splice(s, ms[0].1, rest, f)
  }

  /** A cons of spans that starts at or after `from` and ends before the rest start. */
  lemma SpansCons(s: string, from: nat, m: (nat, nat), rest: seq<(nat, nat)>)
    requires from <= m.0 <= m.1 <= |s| && Spans(s, m.1, rest)
    ensures Spans(s, from, [m] + rest) && ([m] + rest)[1..] == rest
  {
    var ms := [m] + rest;
    assert forall l :: 0 < l < |ms| ==> ms[l] == rest[l - 1];
  }

  /** The matches of the global `match` are spans in order. */
  lemma {:induction false} AllMatchesSpans(p: Pattern, s: string, from: nat)
    ensures Spans(s, from, AllMatches(p, s, from))
    decreases |s| - from
  {
    match FirstMatch(p, s, from)
    case None =>
    case Some((i, e)) =>
      AllMatchesSpans(p, s, e);
      SpansCons(s, from, (i, e), AllMatches(p, s, e));
  }

  /**
   * The global `replace` is the splice of the global `match`: the text
   * between matches is copied and every match `t` becomes `f(t)`.
   */
  lemma {:induction false} ReplaceFromIsSplice(p: Pattern, s: string, from: nat, f: string -> string)
    requires from <= |s|
    ensures Spans(s, from, AllMatches(p, s, from))
    ensures ReplaceFrom(p, s, from, f) == Splice(s, from, AllMatches(p, s, from), f)
    decreases |s| - from
  {
    AllMatchesSpans(p, s, from);
    match FirstMatch(p, s, from)
    case None =>
    case Some((i, e)) =>
      var rest := AllMatches(p, s, e);
      ReplaceFromIsSplice(p, s, e, f);
      SpansCons(s, from, (i, e), rest);
      assert AllMatches(p, s, from) == [(i, e)] + rest;
  }

  /** With a single match, the global `replace` rewrites that match and copies the rest. */
  lemma ReplaceOneMatch(p: Pattern, s: string, a: nat, b: nat, f: string -> string)
    requires AllMatches(p, s, 0) == [(a, b)]
    ensures a <= b <= |s| && ReplaceFrom(p, s, 0, f) == s[..a] + f(s[a..b]) + s[b..]
  {
    ReplaceFromIsSplice(p, s, 0, f);
    assert [(a, b)][1..] == [];
  }

  /** With a single match, the global `match` gives that match's text alone. */
  lemma OneMatchText(p: Pattern, s: string, a: nat, b: nat)
    requires AllMatches(p, s, 0) == [(a, b)]
    ensures a <= b <= |s| && MatchTexts(p, s) == [s[a..b]]
  {
    AllMatchesSpans(p, s, 0);
  }

  /** With a single match, the global `replace(p, '')` cuts out that match. */
  lemma DropOneMatch(p: Pattern, s: string, a: nat, b: nat)
    requires AllMatches(p, s, 0) == [(a, b)]
    ensures a <= b <= |s| && ReplaceFrom(p, s, 0, Drop) == s[..a] + s[b..]
  {
    ReplaceOneMatch(p, s, a, b, Drop);
    assert Drop(s[a..b]) == "";
  }

  /** A run in `y` is the same run, shifted, in `x + y`. */
  lemma SpanShift(x: string, y: string, j: nat, ok: char -> bool)
    requires j <= |y|
    ensures Span(x + y, |x| + j, ok) == |x| + Span(y, j, ok)
  {
    var e := Span(y, j, ok);
    forall k | |x| + j <= k < |x| + e ensures ok((x + y)[k]) {
      assert (x + y)[k] == y[k - |x|];
    }
    if |x| + e < |x + y| {
      assert (x + y)[|x| + e] == y[e];
    }
    SpanIs(x + y, |x| + j, ok, |x| + e);
  }

  /** An attribute match looks only forward, so text written in front of it shifts it and changes nothing else. */
  lemma AttrDeclShift(x: string, y: string, j: nat, prop: string)
    ensures MatchAt(AttrDecl(prop), x + y, |x| + j).Some? <==> MatchAt(AttrDecl(prop), y, j).Some?
  {
    var t := prop + "=\"";
    if j < |y| && j + |t| <= |y| {
      assert (x + y)[|x| + j..|x| + j + |t|] == y[j..j + |t|];
      SpanShift(x, y, j + |prop| + 2, NotQuote);
    }
  }

  /** No match before `n` and none from `n` on: no match at all. */
  lemma NoMatchFromZero(p: Pattern, s: string, n: nat)
    requires forall j: nat :: j < n ==> MatchAt(p, s, j).None?
    requires forall j: nat :: n <= j ==> MatchAt(p, s, j).None?
    ensures FirstMatch(p, s, 0).None?
  {
  }

  /** Where `pre + y` has no attribute match, `x + y` has none from the end of `x` on. */
  lemma NoAttrDeclAfter(x: string, y: string, pre: string, prop: string)
    requires FirstMatch(AttrDecl(prop), pre + y, 0).None?
    ensures forall j: nat :: |x| <= j ==> MatchAt(AttrDecl(prop), x + y, j).None?
  {
    forall j: nat | |x| <= j ensures MatchAt(AttrDecl(prop), x + y, j).None? {
      AttrDeclShift(x, y, j - |x|, prop);
      AttrDeclShift(pre, y, j - |x|, prop);
    }
  }

  /** Everything before the first declaration is copied unchanged by a global replace of the declarations. */
  lemma ReplaceKeepsPrefix(p: Pattern, s: string, from: nat, f: string -> string, i: nat)
    requires p.StyleDecl? || p.AttrDecl?
    requires from <= i <= |s|
    requires FirstMatch(p, s, from).None? || FirstMatch(p, s, from).value.0 >= i
    ensures |ReplaceFrom(p, s, from, f)| >= i - from
    ensures ReplaceFrom(p, s, from, f)[..i - from] == s[from..i]
  {
    match FirstMatch(p, s, from)
    case None =>
      assert s[from..][..i - from] == s[from..i];
    case Some((m, e)) =>
      PrefixOfJoin(s[from..m], f(s[m..e]), ReplaceFrom(p, s, e, f), i - from);
      assert s[from..m][..i - from] == s[from..i];
  }

  /** A prefix no longer than the first part of a concatenation is a prefix of that part. */
  lemma PrefixOfJoin(a: string, b: string, c: string, n: nat)
    requires n <= |a|
    ensures |a + b + c| >= n && (a + b + c)[..n] == a[..n]
  {
  }

  /** The first match of `<svg[^>]*>`: `<svg`, then no `>` until the one that closes it. */
  lemma SvgOpenForm(s: string, i: nat, e: nat)
    requires MatchAt(SvgOpen, s, i) == Some(e)
    ensures i + 5 <= e && OccursAt(s, "<svg", i) && s[e - 1] == '>'
    ensures forall k :: i + 4 <= k < e - 1 ==> s[k] != '>'
  {
  }

  /**
   * The text of a `<svg[^>]*>` match, found anywhere, is itself a match
   * there: the pattern decides from the text alone.
   */
  lemma SvgOpenTextMatches(s: string, i: nat, e: nat, j: nat)
    requires MatchAt(SvgOpen, s, i) == Some(e)
    requires OccursAt(s, s[i..e], j)
    ensures MatchAt(SvgOpen, s, j) == Some(j + (e - i))
  {
    SvgOpenForm(s, i, e);
    var n := e - i;
    forall k | j <= k < j + n ensures s[k] == s[i + (k - j)] {
      assert s[j..j + n][k - j] == s[i..e][k - j];
    }
    assert s[j..j + 4] == s[i..i + 4];
    assert OccursAt(s, "<svg", j);
    forall k | j + 4 <= k < j + n - 1 ensures NotGt(s[k]) {
      assert s[k] == s[i + (k - j)];
    }
    assert s[j + n - 1] == s[e - 1];
    SpanIs(s, j + 4, NotGt, j + n - 1);
  }

  /**
   * `s.indexOf(text)` of the first `<svg[^>]*>` match's text finds that match:
   * an earlier occurrence would be an earlier match.
   */
  lemma IndexOfFirstSvgOpen(s: string)
    requires FirstMatch(SvgOpen, s, 0).Some?
    ensures var (i, e) := FirstMatch(SvgOpen, s, 0).value;
      IndexOf(s, s[i..e]) == Some(i)
  {
    var (i, e) := FirstMatch(SvgOpen, s, 0).value;
    assert OccursAt(s, s[i..e], i);
    var k := IndexOf(s, s[i..e]).value;
    if k < i {
      SvgOpenTextMatches(s, i, e, k);
      assert false;
    }
  }

  /** `<\w+` matches exactly at a `<` followed by a word character, and takes the longest run of word characters. */
  lemma NodeTagAtForm(s: string, i: nat)
    ensures NodeTagAt(s, i).Some? <==> i + 1 < |s| && s[i] == '<' && IsWordChar(s[i + 1])
    ensures NodeTagAt(s, i).Some? ==> var e := NodeTagAt(s, i).value;
      && i + 2 <= e <= |s|
      && (forall k :: i + 1 <= k < e ==> IsWordChar(s[k]))
      && (e < |s| ==> !IsWordChar(s[e]))
  {
  }

  /**
   * `prop:[^;"]*;?` matches exactly where `prop:` occurs; the value has no `"`
   * and no `;` except a final one, and stops only at a `"`, after a `;`, or at
   * the end.
   */
  lemma StyleDeclAtForm(s: string, i: nat, prop: string)
    ensures StyleDeclAt(s, i, prop).Some? <==> OccursAt(s, prop + ":", i)
    ensures StyleDeclAt(s, i, prop).Some? ==> var e := StyleDeclAt(s, i, prop).value;
      && i + |prop| + 1 <= e <= |s|
      && (forall k :: i + |prop| + 1 <= k < e ==> s[k] != '"' && (s[k] == ';' ==> k == e - 1))
      && (e < |s| && s[e - 1] != ';' ==> s[e] == '"')
  {
  }

  /**
   * `prop="[^"]*"` matches where `prop="` occurs and a closing quote follows;
   * the match ends at the first quote after the opening one.
   */
  lemma AttrDeclAtForm(s: string, i: nat, prop: string)
    ensures AttrDeclAt(s, i, prop).Some? ==> var e := AttrDeclAt(s, i, prop).value;
      && OccursAt(s, prop + "=\"", i) && i + |prop| + 3 <= e <= |s| && s[e - 1] == '"'
      && (forall k :: i + |prop| + 2 <= k < e - 1 ==> s[k] != '"')
    ensures AttrDeclAt(s, i, prop).None? && OccursAt(s, prop + "=\"", i) ==>
      forall k :: i + |prop| + 2 <= k < |s| ==> s[k] != '"'
  {
  }

  /** The tail search of the styled-node pattern ends every match with `>`. */
  lemma {:induction false} QuoteSearchEndsAtGt(s: string, lo: nat, q: nat)
    requires lo <= q <= |s|
    ensures QuoteSearch(s, lo, q).Some? ==> s[QuoteSearch(s, lo, q).value - 1] == '>'
    decreases q - lo
  {
    if !(q < |s| && s[q] == '"' && Span(s, q + 1, NotGt) < |s|) && q != lo {
      QuoteSearchEndsAtGt(s, lo, q - 1);
    }
  }

  /** A styled-node match starts with `<` and ends with `>`. */
  lemma {:induction false} StyleAttrSearchEndsAtGt(s: string, i: nat, p: nat)
    requires i < p <= |s|
    ensures StyleAttrSearch(s, i, p).Some? ==> s[StyleAttrSearch(s, i, p).value - 1] == '>'
    decreases p
  {
    if OccursAt(s, "style=\"", p) {
      QuoteSearchEndsAtGt(s, p + 7, Span(s, p + 7, NotLineTerminator));
    }
    if p > i + 1 {
      StyleAttrSearchEndsAtGt(s, i, p - 1);
    }
  }

  /** Every shape match starts with `<` and a word character, so `<\w+` matches at its start. */
  lemma ShapeHasNodeTag(s: string, i: nat, e: nat)
    requires MatchAt(Shape, s, i) == Some(e)
    ensures MatchAt(NodeTag, s[i..e], 0).Some?
    ensures FirstMatch(NodeTag, s[i..e], 0).Some? && FirstMatch(NodeTag, s[i..e], 0).value.0 == 0
  {
    var k :| 0 <= k < |ShapeNames| && OccursAt(s, ShapeNames[k], i + 1);
    assert |ShapeNames[k]| > 0 && IsWordChar(ShapeNames[k][0]);
    assert s[i + 1] == ShapeNames[k][0];
    ShapeLong(s, i, e, ShapeNames);
    var t := s[i..e];
    assert t[0] == '<' && t[1] == s[i + 1];
    assert NodeTagAt(t, 0).Some?;
  }

  /** A shape match is longer than `<` and the first character of its name. */
  lemma {:induction false} ShapeLong(s: string, i: nat, e: nat, names: seq<string>)
    requires i < |s|
    requires ShapeAt(s, i, names) == Some(e)
    ensures i + 2 < e
    decreases |names|
  {
    var p := i + 1 + |names[0]|;
    if s[i] == '<' && OccursAt(s, names[0], i + 1) && p < |s| && s[p] != '>' && Span(s, p, NotGt) < |s| {
    } else {
      ShapeLong(s, i, e, names[1..]);
    }
  }

  /** Below `p`, down to `lo`, no `style="` starts: the backtracking search goes on down to `lo`. */
  lemma {:induction false} StyleAttrSearchSkips(s: string, i: nat, lo: nat, p: nat)
    requires i < lo <= p <= |s|
    requires forall k :: lo < k <= p ==> !OccursAt(s, "style=\"", k)
    ensures StyleAttrSearch(s, i, p) == StyleAttrSearch(s, i, lo)
    decreases p
  {
    if p > lo {
      StyleAttrSearchSkips(s, i, lo, p - 1);
    }
  }

  /** Going down from `hi`, the tail search stops at the first quote it meets, here one whose `[^>]*>` ends the text. */
  lemma {:induction false} QuoteSearchFindsQuote(s: string, lo: nat, hi: nat, q: nat)
    requires lo <= q <= hi < |s| && s[q] == '"'
    requires forall k :: q <= k <= hi && s[k] == '"' ==> Span(s, k + 1, NotGt) == |s| - 1
    ensures QuoteSearch(s, lo, hi) == Some(|s|)
    decreases hi
  {
    if s[hi] != '"' {
      QuoteSearchFindsQuote(s, lo, hi - 1, q);
    }
  }

  /**
   * A single tag `<…>` (no other `>`, one line) whose last `style="` is
   * followed somewhere by a quote is a styled node as a whole: `[^>]*`
   * backtracks from the `>` to that `style="`, and `.*` from the end of the
   * line to the last quote, so any quotes in between (the one closing the
   * style, those of later attributes) are swallowed, as in
   * `<rect style="fill:red" x="1">`.
   */
  lemma StyledNodeWhole(s: string, a: nat, q: nat)
    requires |s| >= 2 && s[0] == '<' && s[|s| - 1] == '>'
    requires forall k :: 0 < k < |s| - 1 ==> s[k] != '>'
    requires forall k :: 0 <= k < |s| ==> NotLineTerminator(s[k])
    requires 0 < a && OccursAt(s, "style=\"", a)
    requires forall k :: a < k ==> !OccursAt(s, "style=\"", k)
    requires a + 7 <= q < |s| - 1 && s[q] == '"'
    ensures MatchAt(StyledNode, s, 0) == Some(|s|)
  {
    var last := |s| - 1;
    forall y | q < y <= last ensures Span(s, y, NotGt) == last {
      SpanIs(s, y, NotGt, last);
    }
    QuoteSearchFindsQuote(s, a + 7, last, q);
    assert QuoteSearch(s, a + 7, |s|) == Some(|s|);
    SpanIs(s, a + 7, NotLineTerminator, |s|);
    assert StyleAttrSearch(s, 0, a) == Some(|s|);
    SpanIs(s, 1, NotGt, last);
    StyleAttrSearchSkips(s, 0, a, last);
  }

  /** An alternative whose first letter is not the one after `<` is skipped. */
  lemma ShapeAtSkips(s: string, i: nat, names: seq<string>)
    requires i + 1 < |s| && |names| > 0 && |names[0]| > 0 && names[0][0] != s[i + 1]
    ensures ShapeAt(s, i, names) == ShapeAt(s, i, names[1..])
  {
    if i + 1 + |names[0]| <= |s| {
      assert s[i + 1..i + 1 + |names[0]|][0] == s[i + 1];
    }
  }

  /**
   * Where none of the first three alternatives can start, the fourth decides:
   * its name, then `[^>]+>` up to the first `>`.
   */
  lemma ShapeAtFourth(s: string, e: nat, names: seq<string>)
    requires |names| > 3 && |names[0]| > 0 && |names[1]| > 0 && |names[2]| > 0
    requires 1 < |s| && s[0] == '<' && OccursAt(s, names[3], 1)
    requires names[0][0] != s[1] && names[1][0] != s[1] && names[2][0] != s[1]
    requires |names[3]| + 3 <= e <= |s| && s[e - 1] == '>'
    requires forall k :: 1 + |names[3]| <= k < e - 1 ==> s[k] != '>'
    ensures ShapeAt(s, 0, names) == Some(e)
  {
    SpanIs(s, 1 + |names[3]|, NotGt, e - 1);
    ShapeAtSkips(s, 0, names);
    ShapeAtSkips(s, 0, names[1..]);
    assert names[1..][1..] == names[2..];
    ShapeAtSkips(s, 0, names[2..]);
    assert names[2..][1..] == names[3..];
  }
}
