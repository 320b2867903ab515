/**
 * The `svgWithFill` parser: turns an SVG document into a template whose shapes
 * take their fill colour from `attributes.style.background`, and which emits a
 * `<defs>` block when the template is given `defs`.
 */
module SvgWithFill {
  import opened Wrappers
  import opened Strings
  import opened Regex

  /** The template expression every replaced fill becomes. */
  const Placeholder: string := "<%= attributes.style.background %>"

  /** The template block inserted right after the `<svg …>` tag. */
  const DefsTemplate: string := "\n<% if(defs && defs.length){ %><defs><%= defs.join('') %></defs><% } %>"

  /** `isNoneOrTransparent`: the value mentions `none` or `transparent` anywhere. */
  predicate IsNoneOrTransparent(v: string)
    ensures IsNoneOrTransparent(v) <==>
      (exists i :: OccursAt(v, "none", i)) || (exists i :: OccursAt(v, "transparent", i))
  {
    Contains(v, "none") || Contains(v, "transparent")
  }

  /** The placeholder names no colour that would count as none or transparent. */
  lemma PlaceholderIsAColour()
    ensures !IsNoneOrTransparent(Placeholder)
  {
    PlaceholderHasNoNone();
    PlaceholderHasNoTransparent();
  }

  lemma PlaceholderHasNoNone()
    ensures forall i: nat :: !OccursAt(Placeholder, "none", i)
  {
    forall i: nat | i + 4 <= |Placeholder| ensures !OccursAt(Placeholder, "none", i) {
      if Placeholder[i + 1] != 'o' {
        MismatchAt(Placeholder, "none", i, 1);
      } else {
        MismatchAt(Placeholder, "none", i, 2);
      }
    }
  }

  lemma PlaceholderHasNoTransparent()
    ensures forall i: nat :: !OccursAt(Placeholder, "transparent", i)
  {
    assert 'p' !in Placeholder;
    forall i: nat | i + 11 <= |Placeholder| ensures !OccursAt(Placeholder, "transparent", i) {
      MismatchAt(Placeholder, "transparent", i, 5);
    }
  }

  /** `t` does not occur at `i` when one of its characters differs there. */
  lemma MismatchAt(s: string, t: string, i: nat, k: nat)
    requires i + |t| <= |s| && k < |t| && s[i + k] != t[k]
    ensures !OccursAt(s, t, i)
  {
    assert s[i..i + |t|][k] == s[i + k];
  }

  /** The callback given to `_.replace` for `fill="…"` attributes: a token is either kept or becomes the placeholder. */
  function FillAttrToken(token: string): (r: string)
    ensures r == token || r == Placeholder
    ensures IsNoneOrTransparent(token) ==> r == token
    ensures !IsNoneOrTransparent(token) ==> r == Placeholder
  {
    if !IsNoneOrTransparent(token) then Placeholder else token
  }

  /** A `fill="…"` token is none or transparent after the callback exactly when it was before. */
  lemma FillAttrTokenKeepsKind(token: string)
    ensures IsNoneOrTransparent(FillAttrToken(token)) <==> IsNoneOrTransparent(token)
  {
    PlaceholderIsAColour();
  }

  /** Applying the callback to its own output changes nothing more. */
  lemma FillAttrTokenIdempotent(token: string)
    ensures FillAttrToken(FillAttrToken(token)) == FillAttrToken(token)
  {
    PlaceholderIsAColour();
  }

  /** `shape.match(/<\w+/g)` is not null, so destructuring its first element succeeds. */
  predicate HasNodeTag(shape: string) {
    FirstMatch(NodeTag, shape, 0).Some?
  }

  /** `nodeTag.length`: the length of the first `<\w+` match. */
  function TagLength(shape: string): nat
    requires HasNodeTag(shape)
  {
    var (i, e) := FirstMatch(NodeTag, shape, 0).value;
    e - i
  }

  /**
   * The body of the reduce callback: the new text of one shape. A style `fill:`
   * that is not none/transparent is dropped (all of them) and the placeholder is
   * inserted after the tag name; `fill="…"` attributes become the placeholder
   * unless none/transparent; a shape left with neither gets the placeholder.
   */
  function RewriteShape(shape: string): (r: string)
    requires HasNodeTag(shape)
    ensures Contains(r, "fill=") || Contains(r, Placeholder)
  {
    var tag := TagLength(shape);
    var fill := FirstMatch(StyleDecl("fill"), shape, 0);
    var styled :=
      if fill.Some? && !IsNoneOrTransparent(shape[fill.value.0..fill.value.1]) then
        InsertAt(ReplaceFrom(StyleDecl("fill"), shape, 0, Drop), tag, " " + Placeholder)
      else shape;
    var attributed := ReplaceFrom(AttrDecl("fill"), styled, 0, FillAttrToken);
    if !Contains(attributed, "fill=") && !Contains(attributed, Placeholder) then
      var r := InsertAt(attributed, tag, " " + Placeholder);
      OccursInSuffix(r, " ", Placeholder, if tag <= |attributed| then tag else |attributed|);
      r
    else attributed
  }

  /**
   * The lodash `reduce`: each shape's first occurrence in the running text is
   * replaced by its rewrite. Shapes that do not occur in the text leave it as
   * it is.
   */
  function FoldShapes(shapes: seq<string>, acc: string): (r: string)
    requires forall k :: 0 <= k < |shapes| ==> HasNodeTag(shapes[k])
    ensures (forall k :: 0 <= k < |shapes| ==> !Contains(acc, shapes[k])) ==> r == acc
    decreases |shapes|
  {
    if |shapes| == 0 then acc
    else FoldShapes(shapes[1..], ReplaceFirst(acc, shapes[0], RewriteShape(shapes[0])))
  }

  /**
   * Shapes that the rewrite leaves as they are, and that hold no `$` (which
   * `replace` would expand), leave the document as it is.
   */
  lemma {:induction false} FoldFixedShapes(shapes: seq<string>, acc: string)
    requires forall k :: 0 <= k < |shapes| ==> HasNodeTag(shapes[k])
    requires forall k :: 0 <= k < |shapes| ==> RewriteShape(shapes[k]) == shapes[k] && '$' !in shapes[k]
    ensures FoldShapes(shapes, acc) == acc
    decreases |shapes|
  {
    if |shapes| > 0 {
      var tail := shapes[1..];
      assert forall k :: 0 <= k < |tail| ==> tail[k] == shapes[k + 1];
      ReplaceFirstSelf(acc, shapes[0]);
      FoldFixedShapes(tail, acc);
    }
  }

  /**
   * The body with `template` (the defs template) spliced in at
   * `indexOf(match[0]) + match[0].length`, or None when there is no `<svg …>`
   * tag. The splice point is the end of the first `<svg …>` match, and nothing
   * else in the body changes.
   */
  function WithDefs(body: string, template: string): (r: Option<string>)
    ensures r.None? <==> FirstMatch(SvgOpen, body, 0).None?
    ensures r.Some? ==>
      var e := FirstMatch(SvgOpen, body, 0).value.1;
      r.value == body[..e] + template + body[e..]
  {
    match FirstMatch(SvgOpen, body, 0)
    case None => None
    case Some((i, e)) =>
      var m := body[i..e];
      IndexOfFirstSvgOpen(body);
      var afterIndex := IndexOf(body, m).value + |m|;
      Some(InsertAt(body, afterIndex, template))
  }

  /** Every text that `body.match(regex.shapes)` returns has a tag name. */
  lemma ShapesHaveTags(s: string)
    ensures forall k :: 0 <= k < |MatchTexts(Shape, s)| ==> HasNodeTag(MatchTexts(Shape, s)[k])
  {
    var ms := AllMatches(Shape, s, 0);
    forall k | 0 <= k < |MatchTexts(Shape, s)| ensures HasNodeTag(MatchTexts(Shape, s)[k]) {
      ShapeHasNodeTag(s, ms[k].0, ms[k].1);
    }
  }

  /** The exported transform. Without an `<svg …>` tag the body is returned as it is. */
  function Transform(body: string): (r: string)
    ensures FirstMatch(SvgOpen, body, 0).None? ==> r == body
  {
    match WithDefs(body, DefsTemplate)
    case None => body
    case Some(withDefs) =>
      ShapesHaveTags(withDefs);
      FoldShapes(MatchTexts(Shape, withDefs), withDefs)
  }

  /**
   * With a single shape match, whose text first occurs where it was matched,
   * the fold rewrites that one shape in place.
   */
  lemma FoldOneShape(w: string, i: nat, e: nat)
    requires AllMatches(Shape, w, 0) == [(i, e)]
    requires HasNodeTag(w[i..e]) && IndexOf(w, w[i..e]) == Some(i) && '$' !in RewriteShape(w[i..e])
    ensures forall k :: 0 <= k < |MatchTexts(Shape, w)| ==> HasNodeTag(MatchTexts(Shape, w)[k])
    ensures FoldShapes(MatchTexts(Shape, w), w) == w[..i] + RewriteShape(w[i..e]) + w[e..]
  {
    var t := w[i..e];
    assert MatchTexts(Shape, w) == [t];
    ReplaceFirstSplice(w, t, RewriteShape(t));
  }

  /**
   * A document with a single shape whose text first occurs where it was
   * matched: the transform is the document with the defs template spliced in
   * (`w`) and that one shape rewritten in place.
   */
  lemma TransformOneShape(body: string, w: string, i: nat, e: nat)
    requires WithDefs(body, DefsTemplate) == Some(w)
    requires AllMatches(Shape, w, 0) == [(i, e)]
    requires HasNodeTag(w[i..e]) && IndexOf(w, w[i..e]) == Some(i) && '$' !in RewriteShape(w[i..e])
    ensures Transform(body) == w[..i] + RewriteShape(w[i..e]) + w[e..]
  {
    FoldOneShape(w, i, e);
  }

  /** A `fill="` attribute match is an occurrence of `fill=`. */
  lemma AttrMatchHasFillEq(s: string, i: nat)
    requires MatchAt(AttrDecl("fill"), s, i).Some?
    ensures OccursAt(s, "fill=", i)
  {
    assert s[i..i + 5] == s[i..i + 6][..5];
  }

  /**
   * A shape with no `fill:` style, no `fill=` and no placeholder gets exactly one
   * placeholder, right after its tag name, and is otherwise unchanged.
   */
  lemma UnfilledShapeGetsPlaceholder(shape: string)
    requires HasNodeTag(shape)
    requires FirstMatch(StyleDecl("fill"), shape, 0).None?
    requires !Contains(shape, "fill=") && !Contains(shape, Placeholder)
    ensures RewriteShape(shape) == InsertAt(shape, TagLength(shape), " " + Placeholder)
  {
    if FirstMatch(AttrDecl("fill"), shape, 0).Some? {
      AttrMatchHasFillEq(shape, FirstMatch(AttrDecl("fill"), shape, 0).value.0);
      assert false;
    }
  }

  /** With `f` fixing every match, a global replace changes nothing. */
  lemma {:induction false} ReplaceFixedMatches(p: Pattern, s: string, from: nat, f: string -> string)
    requires from <= |s|
    requires forall i: nat, e: nat :: from <= i && MatchAt(p, s, i) == Some(e) ==> f(s[i..e]) == s[i..e]
    ensures ReplaceFrom(p, s, from, f) == s[from..]
    decreases |s| - from
  {
    match FirstMatch(p, s, from)
    case None =>
    case Some((i, e)) =>
      assert f(s[i..e]) == s[i..e];
      ReplaceFixedMatches(p, s, e, f);
      Tile(s, from, i, e);
  }

  /**
   * A shape without a `fill:` style whose `fill="…"` attributes all say none or
   * transparent, and which has at least one, is left exactly as it is.
   */
  lemma TransparentShapeUnchanged(shape: string)
    requires HasNodeTag(shape)
    requires FirstMatch(StyleDecl("fill"), shape, 0).None?
    requires FirstMatch(AttrDecl("fill"), shape, 0).Some?
    requires forall i: nat, e: nat :: MatchAt(AttrDecl("fill"), shape, i) == Some(e) ==> IsNoneOrTransparent(shape[i..e])
    ensures RewriteShape(shape) == shape
  {
    ReplaceFixedMatches(AttrDecl("fill"), shape, 0, FillAttrToken);
    AttrMatchHasFillEq(shape, FirstMatch(AttrDecl("fill"), shape, 0).value.0);
  }

  /** The placeholder has no `f`: no `fill="` can start inside it. */
  lemma PlaceholderHasNoF()
    ensures 'f' !in Placeholder
  {
  }

  /**
   * In a text that starts with a tag name `<\w+` of length `tag` followed by
   * `u` (a space, then no `f`), no `fill="` attribute starts before the end of
   * `u`: up to the tag's end a `=` would have to be a word character, across
   * it the space would have to be part of `fill="`, and inside `u` there is no
   * `f` to start it.
   */
  lemma NoFillAttrBefore(t: string, tag: nat, u: string)
    requires OccursAt(t, u, tag) && |u| > 0 && u[0] == ' ' && 'f' !in u
    requires 2 <= tag && t[0] == '<' && forall k :: 1 <= k < tag ==> IsWordChar(t[k])
    ensures forall j: nat :: j < tag + |u| ==> MatchAt(AttrDecl("fill"), t, j).None?
  {
    forall j: nat | j < tag + |u| ensures MatchAt(AttrDecl("fill"), t, j).None? {
      AttrDeclAtForm(t, j, "fill");
      var w := "fill=\"";
      if j + 6 <= |t| {
        var d := if j + 5 < tag then 4 else if j < tag then tag - j else 0;
        assert d < 6 && t[j + d] != w[d] by {
          if j + 5 < tag {
            assert IsWordChar(t[j + 4]);
          } else if j < tag {
            assert t[tag] == u[0];
          } else {
            assert t[j] == u[j - tag];
          }
        }
        assert t[j..j + 6][d] == t[j + d];
      }
    }
  }

  /** The `fill="` replace leaves a placeholder inserted right after the tag name, and the tag name, in place. */
  lemma FillAttrReplaceKeepsInsert(t: string, tag: nat)
    requires OccursAt(t, " " + Placeholder, tag)
    requires 2 <= tag && t[0] == '<' && forall k :: 1 <= k < tag ==> IsWordChar(t[k])
    ensures var a := ReplaceFrom(AttrDecl("fill"), t, 0, FillAttrToken);
      tag <= |a| && a[..tag] == t[..tag] && OccursAt(a, " " + Placeholder, tag)
  {
    var u := " " + Placeholder;
    PlaceholderHasNoF();
    assert u[0] == ' ' && 'f' !in u;
    NoFillAttrBefore(t, tag, u);
    ReplaceKeepsPrefix(AttrDecl("fill"), t, 0, FillAttrToken, tag + |u|);
    PrefixKeepsOccurrence(ReplaceFrom(AttrDecl("fill"), t, 0, FillAttrToken), t, tag, u);
  }

  /**
   * A shape whose first `fill:` declaration (not none or transparent) comes
   * after its tag name keeps its tag name and has the placeholder inserted
   * right after it: the declarations are dropped, and the `fill="` replace and
   * the final check leave the inserted placeholder alone.
   */
  lemma StyleFillBecomesPlaceholder(shape: string)
    requires HasNodeTag(shape) && FirstMatch(NodeTag, shape, 0).value.0 == 0
    requires var fill := FirstMatch(StyleDecl("fill"), shape, 0);
      && fill.Some? && TagLength(shape) <= fill.value.0
      && !IsNoneOrTransparent(shape[fill.value.0..fill.value.1])
    ensures var r := RewriteShape(shape); var tag := TagLength(shape);
      tag <= |r| && r[..tag] == shape[..tag] && OccursAt(r, " " + Placeholder, tag)
  {
    var tag := TagLength(shape);
    NodeTagAtForm(shape, 0);
    ReplaceKeepsPrefix(StyleDecl("fill"), shape, 0, Drop, tag);
    var styled := InsertAt(ReplaceFrom(StyleDecl("fill"), shape, 0, Drop), tag, " " + Placeholder);
    assert styled[..tag] == shape[..tag];
    forall k | 1 <= k < tag ensures IsWordChar(styled[k]) {
      assert styled[k] == styled[..tag][k] == shape[k];
    }
    FillAttrReplaceKeepsInsert(styled, tag);
    var attributed := ReplaceFrom(AttrDecl("fill"), styled, 0, FillAttrToken);
    OccursInSuffix(attributed, " ", Placeholder, tag);
  }

  /**
   * A shape with a single `fill:` declaration (not none or transparent) after
   * its tag name, and no `fill="…"` attribute once that declaration is cut
   * out: the declaration is removed and the placeholder goes right after the
   * tag name; nothing else changes.
   */
  lemma StyleFillMoved(shape: string, a: nat, b: nat)
    requires HasNodeTag(shape) && FirstMatch(NodeTag, shape, 0).value.0 == 0
    requires AllMatches(StyleDecl("fill"), shape, 0) == [(a, b)] && TagLength(shape) <= a
    requires !IsNoneOrTransparent(shape[a..b])
    requires FirstMatch(AttrDecl("fill"), shape[..a] + shape[b..], 0).None?
    ensures var tag := TagLength(shape);
      RewriteShape(shape) == shape[..tag] + (" " + Placeholder) + shape[tag..a] + shape[b..]
  {
    var tag := TagLength(shape);
    var u := " " + Placeholder;
    DropOneMatch(StyleDecl("fill"), shape, a, b);
    InsertBeforeCut(shape, tag, a, b, u);
    var w := shape[..tag] + u + shape[tag..a] + shape[b..];
    assert InsertAt(ReplaceFrom(StyleDecl("fill"), shape, 0, Drop), tag, u) == w;
    NodeTagAtForm(shape, 0);
    NoFillAttrInMoved(shape, tag, a, b);
    assert ReplaceFrom(AttrDecl("fill"), w, 0, FillAttrToken) == w[0..] == w;
    assert OccursAt(w, Placeholder, tag + 1) by {
      assert w[tag + 1..tag + 1 + |Placeholder|] == u[1..];
    }
  }

  /**
   * Moving a `fill:` declaration behind the placeholder creates no `fill="`
   * attribute: none starts in the tag name or the placeholder, and after them
   * the text is that of the shape with the declaration cut out.
   */
  lemma NoFillAttrInMoved(shape: string, tag: nat, a: nat, b: nat)
    requires 2 <= tag <= a <= b <= |shape|
    requires shape[0] == '<' && forall k :: 1 <= k < tag ==> IsWordChar(shape[k])
    requires FirstMatch(AttrDecl("fill"), shape[..a] + shape[b..], 0).None?
    ensures FirstMatch(AttrDecl("fill"), shape[..tag] + (" " + Placeholder) + shape[tag..a] + shape[b..], 0).None?
  {
    var x := shape[..tag] + (" " + Placeholder);
    var y := shape[tag..a] + shape[b..];
    CutSplit(shape, tag, a, b);
    NoAttrDeclAfter(x, y, shape[..tag], "fill");
    NoFillAttrInTagged(shape, tag, y);
    NoMatchFromZero(AttrDecl("fill"), x + y, |x|);
    JoinAssoc(x, shape[tag..a], shape[b..]);
  }

  /** No `fill="` attribute starts in the tag name or the placeholder inserted after it. */
  lemma NoFillAttrInTagged(shape: string, tag: nat, y: string)
    requires 2 <= tag <= |shape|
    requires shape[0] == '<' && forall k :: 1 <= k < tag ==> IsWordChar(shape[k])
    ensures var x := shape[..tag] + (" " + Placeholder);
      forall j: nat :: j < |x| ==> MatchAt(AttrDecl("fill"), x + y, j).None?
  {
    var u := " " + Placeholder;
    var w := shape[..tag] + u + y;
    PlaceholderHasNoF();
    assert u[0] == ' ' && 'f' !in u;
    assert OccursAt(w, u, tag) by {
      assert w[tag..tag + |u|] == u;
    }
    forall k | 1 <= k < tag ensures IsWordChar(w[k]) {
      assert w[k] == shape[k];
    }
    NoFillAttrBefore(w, tag, u);
  }

  /**
   * A shape without a `fill:` declaration and with a single `fill="…"`
   * attribute that is not none or transparent gets the placeholder in that
   * attribute's place, and nothing else changes.
   */
  lemma FillAttrBecomesPlaceholder(shape: string, i: nat, e: nat)
    requires HasNodeTag(shape)
    requires FirstMatch(StyleDecl("fill"), shape, 0).None?
    requires FirstMatch(AttrDecl("fill"), shape, 0) == Some((i, e))
    requires FirstMatch(AttrDecl("fill"), shape, e).None?
    requires !IsNoneOrTransparent(shape[i..e])
    ensures RewriteShape(shape) == shape[..i] + Placeholder + shape[e..]
  {
    var r := shape[..i] + Placeholder + shape[e..];
    assert ReplaceFrom(AttrDecl("fill"), shape, 0, FillAttrToken) == shape[0..i] + Placeholder + shape[e..];
    assert r[i..i + |Placeholder|] == Placeholder;
    assert OccursAt(r, Placeholder, i);
  }

  /**
   * The shapes pattern also matches longer tag names that start with a shape
   * name, such as `<linearGradient id="g">`: any tag `<line…>` is a shape
   * match up to its first `>`.
   */
  lemma LinearGradientIsAShape(s: string, e: nat)
    requires OccursAt(s, "<line", 0)
    requires 7 <= e <= |s| && s[e - 1] == '>'
    requires forall k :: 5 <= k < e - 1 ==> s[k] != '>'
    ensures MatchAt(Shape, s, 0) == Some(e)
  {
    assert s[1..5] == s[..5][1..] == "line";
    ShapeNamesStart();
    ShapeAtFourth(s, e, ShapeNames);
  }

  /** The first four alternatives of the shapes pattern. */
  lemma ShapeNamesStart()
    ensures |ShapeNames| > 3 && |ShapeNames[0]| > 0 && |ShapeNames[1]| > 0 && |ShapeNames[2]| > 0
    ensures ShapeNames[0][0] == 'r' && ShapeNames[1][0] == 'c' && ShapeNames[2][0] == 'e' && ShapeNames[3] == "line"
  {
  }
}
