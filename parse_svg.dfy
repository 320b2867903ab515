/**
 * The older SVG recolouring (`parseSvg`): every styled node's `fill:` and
 * `stroke:` declarations become attributes with the fixed colour `#d7006c`,
 * then every `fill="…"` and `stroke="…"` attribute is recoloured. The search
 * for the `<svg …>` tag goes through a module-level regex with the `/g` flag,
 * whose `lastIndex` survives from one call to the next.
 */
module ParseSvg {
  import opened Wrappers
  import opened Strings
  import opened Regex
  import SvgWithFill

  /** The colour every fill and stroke becomes. */
  const Colour: string := "#d7006c"

  /** The attribute inserted for a recoloured fill. */
  const FillAttribute: string := "fill=\"" + Colour + "\""

  /** The attribute inserted for a recoloured stroke. */
  const StrokeAttribute: string := "stroke=\"" + Colour + "\""

  /** The exception raised by `const [nodeTag] = node.match(…)` when the match is null. */
  datatype TypeError = DestructureNull

  /** The constant replacement of the final `fill="…"` pass. */
  function RecolourFill(t: string): string { FillAttribute }

  /** The constant replacement of the final `stroke="…"` pass. */
  function RecolourStroke(t: string): string { StrokeAttribute }

  /**
   * The reduce callback for one styled node. A first `fill:` declaration
   * without `none` removes all of them and inserts ` fill="#d7006c"` at
   * `nodeTag.length`; then the same for `stroke:`, at the same position.
   * Only `none` exempts a declaration; `transparent` does not.
   */
  function RewriteNode(node: string): (r: Result<string, TypeError>)
    ensures r.Failure? <==> forall j :: MatchAt(NodeTag, node, j).None?
  {
    match FirstMatch(NodeTag, node, 0)
    case None => Failure(DestructureNull)
    case Some((t0, t1)) =>
      var tag := t1 - t0;
      var filled := Recolour(node, node, "fill", tag, FillAttribute);
      Success(Recolour(node, filled, "stroke", tag, StrokeAttribute))
  }

  /** The first `prop:` declaration of `node` starts after its tag name and does not say `none`. */
  predicate RecolouredDecl(node: string, prop: string, tag: nat) {
    match FirstMatch(StyleDecl(prop), node, 0)
    case None => false
    case Some((a, b)) => a >= tag && !Contains(node[a..b], "none")
  }

  /**
   * One of the two `if` blocks of the callback: when the first `prop:`
   * declaration of the original `node` does not say `none`, every `prop:`
   * declaration is removed from `current` and ` attr` is inserted at `tag`.
   * Otherwise `current` is left as it is.
   */
  function Recolour(node: string, current: string, prop: string, tag: nat, attr: string): (r: string)
    ensures !RecolouredDecl(node, prop, 0) ==> r == current
    ensures RecolouredDecl(node, prop, 0) ==> Contains(r, " " + attr)
  {
    var has := FirstMatch(StyleDecl(prop), node, 0);
    if has.Some? && !Contains(node[has.value.0..has.value.1], "none") then
      InsertAt(ReplaceFrom(StyleDecl(prop), current, 0, Drop), tag, " " + attr)
    else current
  }

  /** The lodash `reduce` over the styled nodes; an exception in the callback ends it. */
  function FoldNodes(nodes: seq<string>, acc: string): (r: Result<string, TypeError>)
    ensures r.Failure? <==> exists k :: 0 <= k < |nodes| && RewriteNode(nodes[k]).Failure?
    decreases |nodes|
  {
    if |nodes| == 0 then Success(acc)
    else
      match RewriteNode(nodes[0])
      case Failure(err) => Failure(err)
      case Success(node) =>
        FailsInTail(nodes);
        FoldNodes(nodes[1..], ReplaceFirst(acc, nodes[0], node))
  }

  /** When the first node's callback succeeds, some node fails exactly when some later node does. */
  lemma FailsInTail(nodes: seq<string>)
    requires |nodes| > 0 && RewriteNode(nodes[0]).Success?
    ensures (exists k :: 0 <= k < |nodes| && RewriteNode(nodes[k]).Failure?)
      <==> (exists k :: 0 <= k < |nodes[1..]| && RewriteNode(nodes[1..][k]).Failure?)
  {
    var rest := nodes[1..];
    if k :| 0 <= k < |nodes| && RewriteNode(nodes[k]).Failure? {
      assert rest[k - 1] == nodes[k];
    }
    if k :| 0 <= k < |rest| && RewriteNode(rest[k]).Failure? {
      assert nodes[k + 1] == rest[k];
    }
  }

  /**
   * What the promise resolves to once `<svg …>` was found ending at
   * `afterIndex`: defs inserted there, styled nodes rewritten, then every
   * `fill="…"` and `stroke="…"` recoloured, `none` included.
   */
  function RewriteBody(body: string, afterIndex: nat): (r: Result<string, TypeError>)
    ensures var nodes := MatchTexts(StyledNode, InsertAt(body, afterIndex, SvgWithFill.DefsTemplate));
      r.Failure? <==> exists k :: 0 <= k < |nodes| && RewriteNode(nodes[k]).Failure?
  {
    var withDefs := InsertAt(body, afterIndex, SvgWithFill.DefsTemplate);
    match FoldNodes(MatchTexts(StyledNode, withDefs), withDefs)
    case Failure(err) => Failure(err)
    case Success(rewritten) =>
      var fills := ReplaceFrom(AttrDecl("fill"), rewritten, 0, RecolourFill);
      Success(ReplaceFrom(AttrDecl("stroke"), fills, 0, RecolourStroke))
  }

  /**
   * Without styled nodes and without `fill="…"` or `stroke="…"` attributes,
   * the only change is the defs template, right after the `<svg …>` tag.
   */
  lemma PlainBodyGetsDefsOnly(body: string, afterIndex: nat)
    requires var withDefs := InsertAt(body, afterIndex, SvgWithFill.DefsTemplate);
      && FirstMatch(StyledNode, withDefs, 0).None?
      && FirstMatch(AttrDecl("fill"), withDefs, 0).None?
      && FirstMatch(AttrDecl("stroke"), withDefs, 0).None?
    ensures RewriteBody(body, afterIndex) == Success(InsertAt(body, afterIndex, SvgWithFill.DefsTemplate))
  {
    var withDefs := InsertAt(body, afterIndex, SvgWithFill.DefsTemplate);
    assert MatchTexts(StyledNode, withDefs) == [];
    assert withDefs[0..] == withDefs;
  }

  /**
   * Without styled nodes, a single `fill="…"` attribute (none included) becomes
   * ` fill="#d7006c"` in place and the rest is the body with the defs template,
   * when no `stroke="…"` attribute is left to recolour.
   */
  lemma OneFillAttributeRecoloured(body: string, afterIndex: nat, i: nat, e: nat)
    requires var w := InsertAt(body, afterIndex, SvgWithFill.DefsTemplate);
      && FirstMatch(StyledNode, w, 0).None?
      && FirstMatch(AttrDecl("fill"), w, 0) == Some((i, e))
      && FirstMatch(AttrDecl("fill"), w, e).None?
      && FirstMatch(AttrDecl("stroke"), w[..i] + FillAttribute + w[e..], 0).None?
    ensures var w := InsertAt(body, afterIndex, SvgWithFill.DefsTemplate);
      RewriteBody(body, afterIndex) == Success(w[..i] + FillAttribute + w[e..])
  {
    var w := InsertAt(body, afterIndex, SvgWithFill.DefsTemplate);
    assert MatchTexts(StyledNode, w) == [];
    var fills := w[..i] + FillAttribute + w[e..];
    assert ReplaceFrom(AttrDecl("fill"), w, 0, RecolourFill) == w[0..i] + FillAttribute + w[e..];
    assert fills[0..] == fills;
  }

  /**
   * `regex.svg.exec(body)` with the `/g` flag, as (match, new `lastIndex`): the
   * search starts at `lastIndex`; a match moves `lastIndex` to its end, a
   * failed search (or a `lastIndex` past the end) resets it to 0.
   */
  function ExecSvg(body: string, lastIndex: nat): (r: (Option<(nat, nat)>, nat))
    ensures r.0.None? <==> forall j :: lastIndex <= j ==> MatchAt(SvgOpen, body, j).None?
    ensures r.0.None? ==> r.1 == 0
    ensures r.0.Some? ==>
      && lastIndex <= r.0.value.0
      && MatchAt(SvgOpen, body, r.0.value.0) == Some(r.0.value.1)
      && (forall j :: lastIndex <= j < r.0.value.0 ==> MatchAt(SvgOpen, body, j).None?)
      && r.1 == r.0.value.1
  {
    if lastIndex > |body| then (None, 0)
    else
      match FirstMatch(SvgOpen, body, lastIndex)
      case None => (None, 0)
      case Some((i, e)) => (Some((i, e)), e)
  }

  /**
   * One call of the exported function on an already fetched body, as
   * (result, new `lastIndex`): `None` is the promise resolving to `undefined`
   * because no `<svg …>` tag was found from `lastIndex` on.
   */
  function Parse(body: string, lastIndex: nat): (r: (Option<Result<string, TypeError>>, nat))
    ensures r.0.None? <==> forall j :: lastIndex <= j ==> MatchAt(SvgOpen, body, j).None?
    ensures r.0.None? ==> r.1 == 0
    ensures r.0.Some? ==> lastIndex < r.1 <= |body|
    ensures r.0.Some? ==> exists i :: && lastIndex <= i
                                      && MatchAt(SvgOpen, body, i) == Some(r.1)
                                      && forall j :: lastIndex <= j < i ==> MatchAt(SvgOpen, body, j).None?
    ensures r.0.Some? ==> r.0.value == RewriteBody(body, r.1)
  {
    var (svgNode, next) := ExecSvg(body, lastIndex);
    match svgNode
    case None => (None, next)
    case Some((i, e)) => (Some(RewriteBody(body, e)), next)
  }

  /**
   * With a single styled node, whose text first occurs where it was matched,
   * the reduce rewrites that one node in place.
   */
  lemma FoldOneNode(w: string, i: nat, e: nat, node: string)
    requires AllMatches(StyledNode, w, 0) == [(i, e)]
    requires IndexOf(w, w[i..e]) == Some(i)
    requires RewriteNode(w[i..e]) == Success(node) && '$' !in node
    ensures FoldNodes(MatchTexts(StyledNode, w), w) == Success(w[..i] + node + w[e..])
  {
    var t := w[i..e];
    OneMatchText(StyledNode, w, i, e);
    FoldSingleNode(t, w, node);
    ReplaceFirstSplice(w, t, node);
  }

  /** The reduce over a single node replaces the first occurrence of its text by its rewrite. */
  lemma FoldSingleNode(t: string, acc: string, node: string)
    requires RewriteNode(t) == Success(node)
    ensures FoldNodes([t], acc) == Success(ReplaceFirst(acc, t, node))
  {
    assert [t][1..] == [];
  }

  /**
   * A body whose text with defs (`w`) has a single styled node: the promise
   * resolves to `w` with that node rewritten in place, followed by the final
   * `fill="…"` and `stroke="…"` passes over the result.
   */
  lemma OneStyledNodeRewritten(body: string, afterIndex: nat, i: nat, e: nat, node: string)
    requires var w := InsertAt(body, afterIndex, SvgWithFill.DefsTemplate);
      && AllMatches(StyledNode, w, 0) == [(i, e)]
      && IndexOf(w, w[i..e]) == Some(i)
      && RewriteNode(w[i..e]) == Success(node) && '$' !in node
    ensures var w := InsertAt(body, afterIndex, SvgWithFill.DefsTemplate);
      var v := w[..i] + node + w[e..];
      RewriteBody(body, afterIndex)
        == Success(ReplaceFrom(AttrDecl("stroke"), ReplaceFrom(AttrDecl("fill"), v, 0, RecolourFill), 0, RecolourStroke))
  {
    var w := InsertAt(body, afterIndex, SvgWithFill.DefsTemplate);
    FoldOneNode(w, i, e, node);
  }

  /** The module-level `regex.svg` object: the only state that outlives a call. */
  class SvgRegex {
    var lastIndex: nat

    constructor ()
      ensures lastIndex == 0
    {
      lastIndex := 0;
    }

    /** `regex.svg.exec(body)`. */
    method Exec(body: string) returns (svgNode: Option<(nat, nat)>)
      modifies this
      ensures (svgNode, lastIndex) == ExecSvg(body, old(lastIndex))
    {
      if lastIndex > |body| {
        svgNode, lastIndex := None, 0;
        return;
      }
      var i := lastIndex;
      while i < |body|
        invariant lastIndex <= i <= |body|
        invariant forall j :: lastIndex <= j < i ==> MatchAt(SvgOpen, body, j).None?
        invariant FirstMatch(SvgOpen, body, lastIndex) == FirstMatch(SvgOpen, body, i)
        decreases |body| - i
      {
        var m := MatchAt(SvgOpen, body, i);
        if m.Some? {
          svgNode, lastIndex := Some((i, m.value)), m.value;
          return;
        }
        i := i + 1;
      }
      svgNode, lastIndex := None, 0;
    }

    /** The body of the `.then` callback, run on the fetched body. */
    method ParseBody(body: string) returns (r: Option<Result<string, TypeError>>)
      modifies this
      ensures (r, lastIndex) == Parse(body, old(lastIndex))
    {
      var svgNode := Exec(body);
      if svgNode.None? {
        return None;
      }
      r := Some(RewriteBody(body, svgNode.value.1));
    }
  }

  /**
   * The shared `lastIndex` makes a second call on a body with one `<svg …>`
   * tag resolve to `undefined`, and resets the regex for the call after it.
   */
  lemma SecondCallFindsNothing(body: string)
    requires FirstMatch(SvgOpen, body, 0).Some?
    requires FirstMatch(SvgOpen, body, FirstMatch(SvgOpen, body, 0).value.1).None?
    ensures var (first, next) := Parse(body, 0);
      && first.Some?
      && next == FirstMatch(SvgOpen, body, 0).value.1
      && Parse(body, next) == (None, 0)
  {
    var (i, e) := FirstMatch(SvgOpen, body, 0).value;
    assert e <= |body|;
  }

  /**
   * A node without any `<\w+` match makes the callback throw, for instance
   * `< style="">`: a `<` followed by a space, and no other `<`.
   */
  lemma NodeWithoutTagThrows(node: string)
    requires |node| >= 2 && node[0] == '<' && node[1] == ' '
    requires forall j :: 0 < j < |node| ==> node[j] != '<'
    ensures RewriteNode(node) == Failure(DestructureNull)
  {
    assert forall j :: MatchAt(NodeTag, node, j).None?;
  }

  /**
   * No `prop:` declaration starts before the end of `attr` in `tagged`, where
   * `attr` (a space, no colon, a closing quote) was inserted at `tag` after a
   * prefix with no such declaration: across the insertion point the space
   * would have to be part of `prop:`, inside `attr` there is no colon, and a
   * declaration starting in `attr` and running past it would have to contain
   * its closing quote.
   */
  lemma NoDeclBefore(node: string, tag: nat, tagged: string, attr: string, prop: string)
    requires |attr| > 0 && attr[0] == ' ' && attr[|attr| - 1] == '"' && ':' !in attr
    requires ' ' !in prop && '"' !in prop
    requires tag + |attr| <= |tagged|
    requires tag <= |node| && tagged[..tag] == node[..tag]
    requires OccursAt(tagged, attr, tag)
    requires forall j: nat :: j < tag ==> MatchAt(StyleDecl(prop), node, j).None?
    ensures forall j: nat :: j < tag + |attr| ==> MatchAt(StyleDecl(prop), tagged, j).None?
  {
    var decl := prop + ":";
    forall j: nat | j < tag + |attr| ensures !OccursAt(tagged, decl, j) {
      if j + |decl| <= tag {
        assert !OccursAt(node, decl, j) by {
          assert MatchAt(StyleDecl(prop), node, j).None?;
        }
        forall k | j <= k < j + |decl| ensures tagged[k] == node[k] {
          assert tagged[k] == tagged[..tag][k] && node[k] == node[..tag][k];
        }
        assert tagged[j..j + |decl|] == node[j..j + |decl|];
      } else if j + |decl| <= |tagged| {
        var d := if j < tag then tag - j
          else if j + |prop| < tag + |attr| then |prop|
          else tag + |attr| - 1 - j;
        assert d < |decl| && tagged[j + d] != decl[d] by {
          if j < tag {
            assert tagged[tag] == attr[0] by { assert tagged[tag..tag + |attr|][0] == attr[0]; }
            if d < |prop| { assert decl[d] == prop[d]; }
          } else if j + |prop| < tag + |attr| {
            assert tagged[j + d] == attr[j + d - tag] by {
              assert tagged[tag..tag + |attr|][j + d - tag] == attr[j + d - tag];
            }
          } else {
            assert tagged[j + d] == attr[|attr| - 1] by {
              assert tagged[tag..tag + |attr|][|attr| - 1] == attr[|attr| - 1];
            }
            assert decl[d] == prop[d];
          }
        }
        assert tagged[j..j + |decl|][d] == tagged[j + d];
      }
    }
  }

  /**
   * A node whose `fill:` and `stroke:` declarations are both recoloured, both
   * after its tag name, ends up as `<tag stroke="#d7006c" fill="#d7006c"…`: the
   * stroke attribute goes in second, at the same position, ahead of the fill.
   */
  lemma StrokeInsertedBeforeFill(node: string)
    requires FirstMatch(NodeTag, node, 0).Some? && FirstMatch(NodeTag, node, 0).value.0 == 0
    requires RecolouredDecl(node, "fill", FirstMatch(NodeTag, node, 0).value.1)
    requires RecolouredDecl(node, "stroke", FirstMatch(NodeTag, node, 0).value.1)
    ensures RewriteNode(node).Success?
    ensures var tag := FirstMatch(NodeTag, node, 0).value.1;
      var r := RewriteNode(node).value;
      tag <= |r| && r[..tag] == node[..tag] && OccursAt(r, (" " + StrokeAttribute) + (" " + FillAttribute), tag)
  {
    var tag := FirstMatch(NodeTag, node, 0).value.1;
    var fillAttr, strokeAttr := " " + FillAttribute, " " + StrokeAttribute;
    RewriteNodeForm(node, tag);
    AttributesForm();
    InsertTwiceAfterTag(node, tag, fillAttr, strokeAttr);
  }

  /**
   * A node whose `fill:` declaration is recoloured (after its tag name) and
   * whose `stroke:` declaration is not: the tag name is kept, ` fill="#d7006c"`
   * follows it, and no `fill:` declaration is left before the end of that
   * attribute.
   */
  lemma OnlyFillRecoloured(node: string, tag: nat)
    requires FirstMatch(NodeTag, node, 0) == Some((0, tag))
    requires RecolouredDecl(node, "fill", tag) && !RecolouredDecl(node, "stroke", 0)
    ensures RewriteNode(node).Success?
    ensures var r := RewriteNode(node).value;
      && tag <= |r| && r[..tag] == node[..tag]
      && OccursAt(r, " " + FillAttribute, tag)
      && forall j: nat :: j < tag + |FillAttribute| + 1 ==> MatchAt(StyleDecl("fill"), r, j).None?
  {
    var attr := " " + FillAttribute;
    RewriteNodeForm(node, tag);
    ReplaceKeepsPrefix(StyleDecl("fill"), node, 0, Drop, tag);
    var filled := InsertAt(ReplaceFrom(StyleDecl("fill"), node, 0, Drop), tag, attr);
    assert filled[..tag] == node[..tag];
    AttributesForm();
    NoDeclBefore(node, tag, filled, attr, "fill");
  }

  /**
   * A node whose first `fill:` declaration says `none` and whose `stroke:` is
   * not recoloured is left exactly as it is.
   */
  lemma NoneFillKept(node: string, a: nat, b: nat)
    requires FirstMatch(NodeTag, node, 0).Some?
    requires FirstMatch(StyleDecl("fill"), node, 0) == Some((a, b)) && Contains(node[a..b], "none")
    requires !RecolouredDecl(node, "stroke", 0)
    ensures RewriteNode(node) == Success(node)
  {
  }

  /** `fill:transparent;` does not mention `none`. */
  lemma TransparentSaysNoNone()
    ensures !Contains("fill:transparent;", "none")
  {
    var v := "fill:transparent;";
    assert 'o' !in v;
    forall i: nat ensures !OccursAt(v, "none", i) {
      if i + 4 <= |v| {
        assert v[i..i + 4][1] == v[i + 1];
      }
    }
  }

  /**
   * Only `none` exempts a declaration: a first declaration `fill:transparent;`
   * after the tag name is recoloured like any colour.
   */
  lemma TransparentFillRecoloured(node: string, tag: nat, a: nat)
    requires FirstMatch(NodeTag, node, 0) == Some((0, tag))
    requires FirstMatch(StyleDecl("fill"), node, 0) == Some((a, a + 17)) && tag <= a
    requires node[a..a + 17] == "fill:transparent;"
    requires !RecolouredDecl(node, "stroke", 0)
    ensures RewriteNode(node).Success?
    ensures var r := RewriteNode(node).value;
      tag <= |r| && r[..tag] == node[..tag] && OccursAt(r, " " + FillAttribute, tag)
  {
    TransparentSaysNoNone();
    assert RecolouredDecl(node, "fill", tag);
    OnlyFillRecoloured(node, tag);
  }

  /**
   * When the property is recoloured and `current` has a single `prop:`
   * declaration, after the tag name, that declaration is cut out and ` attr`
   * takes its place right after the tag name; the text between moves along.
   */
  lemma RecolourOne(node: string, current: string, prop: string, tag: nat, attr: string, a: nat, b: nat)
    requires RecolouredDecl(node, prop, 0)
    requires AllMatches(StyleDecl(prop), current, 0) == [(a, b)] && tag <= a
    ensures a <= b <= |current|
    ensures Recolour(node, current, prop, tag, attr) == current[..tag] + (" " + attr) + current[tag..a] + current[b..]
  {
    RecolourApplied(node, current, prop, tag, attr);
    DropOneMatch(StyleDecl(prop), current, a, b);
    InsertBeforeCut(current, tag, a, b, " " + attr);
  }

  /**
   * A recoloured property takes the `then` branch of its `if` block: the
   * unfolding of `Recolour` that `RecolourOne` and the `…DeclMoved` lemmas use.
   */
  lemma RecolourApplied(node: string, current: string, prop: string, tag: nat, attr: string)
    requires RecolouredDecl(node, prop, 0)
    ensures Recolour(node, current, prop, tag, attr) == InsertAt(ReplaceFrom(StyleDecl(prop), current, 0, Drop), tag, " " + attr)
  {
  }

  /**
   * A node with a single `fill:` declaration (not `none`) after its tag name,
   * and no recoloured stroke: the declaration is removed and
   * ` fill="#d7006c"` goes right after the tag name; nothing else changes.
   */
  lemma FillDeclMoved(node: string, tag: nat, a: nat, b: nat)
    requires FirstMatch(NodeTag, node, 0) == Some((0, tag))
    requires AllMatches(StyleDecl("fill"), node, 0) == [(a, b)] && tag <= a
    requires !Contains(node[a..b], "none") && !RecolouredDecl(node, "stroke", 0)
    ensures RewriteNode(node) == Success(node[..tag] + (" " + FillAttribute) + node[tag..a] + node[b..])
  {
    RewriteNodeForm(node, tag);
    assert RecolouredDecl(node, "fill", 0);
    RecolourOne(node, node, "fill", tag, FillAttribute, a, b);
  }

  /**
   * A node whose fill is not recoloured and with a single `stroke:`
   * declaration (not `none`) after its tag name: the declaration is removed
   * and ` stroke="#d7006c"` goes right after the tag name; nothing else changes.
   */
  lemma StrokeDeclMoved(node: string, tag: nat, c: nat, d: nat)
    requires FirstMatch(NodeTag, node, 0) == Some((0, tag))
    requires AllMatches(StyleDecl("stroke"), node, 0) == [(c, d)] && tag <= c
    requires !Contains(node[c..d], "none") && !RecolouredDecl(node, "fill", 0)
    ensures RewriteNode(node) == Success(node[..tag] + (" " + StrokeAttribute) + node[tag..c] + node[d..])
  {
    RewriteNodeForm(node, tag);
    assert RecolouredDecl(node, "stroke", 0);
    RecolourOne(node, node, "stroke", tag, StrokeAttribute, c, d);
  }

  /**
   * Both declarations recoloured: the single `fill:` declaration is removed
   * and ` fill="#d7006c"` inserted after the tag name, giving `w`; then the
   * single `stroke:` declaration of `w` is removed and ` stroke="#d7006c"`
   * inserted at the same place, ahead of the fill. The stroke declarations
   * are those of `w`, since cutting the fill declaration out can join text
   * into a new one.
   */
  lemma FillAndStrokeDeclsMoved(node: string, tag: nat, a: nat, b: nat, c: nat, d: nat)
    requires FirstMatch(NodeTag, node, 0) == Some((0, tag))
    requires AllMatches(StyleDecl("fill"), node, 0) == [(a, b)] && tag <= a
    requires !Contains(node[a..b], "none") && RecolouredDecl(node, "stroke", 0)
    requires var w := node[..tag] + (" " + FillAttribute) + node[tag..a] + node[b..];
      AllMatches(StyleDecl("stroke"), w, 0) == [(c, d)] && tag <= c
    ensures var w := node[..tag] + (" " + FillAttribute) + node[tag..a] + node[b..];
      c <= d <= |w| && RewriteNode(node) == Success(w[..tag] + (" " + StrokeAttribute) + w[tag..c] + w[d..])
  {
    var w := node[..tag] + (" " + FillAttribute) + node[tag..a] + node[b..];
    RewriteNodeForm(node, tag);
    assert RecolouredDecl(node, "fill", 0);
    RecolourOne(node, node, "fill", tag, FillAttribute, a, b);
    RecolourOne(node, w, "stroke", tag, StrokeAttribute, c, d);
  }

  /** A node whose tag name ends at `tag` goes through both `if` blocks. */
  lemma RewriteNodeForm(node: string, tag: nat)
    requires FirstMatch(NodeTag, node, 0) == Some((0, tag))
    ensures RewriteNode(node) == Success(Recolour(node, Recolour(node, node, "fill", tag, FillAttribute), "stroke", tag, StrokeAttribute))
  {
    match FirstMatch(NodeTag, node, 0)
    case Some((t0, t1)) =>
      assert t1 - t0 == tag;
  }

  /** The inserted attributes start with a space, end with a quote and have no colon; the property names have neither spaces nor quotes. */
  lemma AttributesForm()
    ensures var attr := " " + FillAttribute;
      |attr| > 0 && attr[0] == ' ' && attr[|attr| - 1] == '"' && ':' !in attr
    ensures ' ' !in "fill" && '"' !in "fill" && ' ' !in "stroke" && '"' !in "stroke"
  {
    assert " " + FillAttribute == " fill=\"#d7006c\"";
  }

  /** Dropping the `fill:` and `stroke:` declarations after `tag` and inserting both attributes at `tag` puts the stroke first. */
  lemma InsertTwiceAfterTag(node: string, tag: nat, fillAttr: string, strokeAttr: string)
    requires tag <= |node|
    requires |fillAttr| > 0 && fillAttr[0] == ' ' && fillAttr[|fillAttr| - 1] == '"' && ':' !in fillAttr
    requires forall j: nat :: j < tag ==> MatchAt(StyleDecl("fill"), node, j).None?
    requires forall j: nat :: j < tag ==> MatchAt(StyleDecl("stroke"), node, j).None?
    ensures var filled := InsertAt(ReplaceFrom(StyleDecl("fill"), node, 0, Drop), tag, fillAttr);
      var r := InsertAt(ReplaceFrom(StyleDecl("stroke"), filled, 0, Drop), tag, strokeAttr);
      tag <= |r| && r[..tag] == node[..tag] && OccursAt(r, strokeAttr + fillAttr, tag)
  {
    assert ' ' !in "stroke" && '"' !in "stroke";
    var removedFill := ReplaceFrom(StyleDecl("fill"), node, 0, Drop);
    ReplaceKeepsPrefix(StyleDecl("fill"), node, 0, Drop, tag);
    var filled := InsertAt(removedFill, tag, fillAttr);
    assert filled[..tag] == node[..tag];
    NoDeclBefore(node, tag, filled, fillAttr, "stroke");
    var removedStroke := ReplaceFrom(StyleDecl("stroke"), filled, 0, Drop);
    ReplaceKeepsPrefix(StyleDecl("stroke"), filled, 0, Drop, tag + |fillAttr|);
    SpliceAfterTag(node, tag, filled, removedStroke, InsertAt(removedStroke, tag, strokeAttr), fillAttr, strokeAttr);
  }

  /** The bookkeeping of `StrokeInsertedBeforeFill`: two insertions at `tag`, with the prefix before them kept. */
  lemma SpliceAfterTag(node: string, tag: nat, filled: string, removed: string, r: string, fillAttr: string, strokeAttr: string)
    requires tag + |fillAttr| <= |filled| && tag <= |node|
    requires filled[..tag] == node[..tag] && OccursAt(filled, fillAttr, tag)
    requires |removed| >= tag + |fillAttr| && removed[..tag + |fillAttr|] == filled[..tag + |fillAttr|]
    requires r == InsertAt(removed, tag, strokeAttr)
    ensures tag <= |r| && r[..tag] == node[..tag] && OccursAt(r, strokeAttr + fillAttr, tag)
  {
    assert removed[..tag] == filled[..tag] by {
      assert removed[..tag] == removed[..tag + |fillAttr|][..tag];
      assert filled[..tag] == filled[..tag + |fillAttr|][..tag];
    }
    assert removed[tag..tag + |fillAttr|] == fillAttr by {
      assert removed[tag..tag + |fillAttr|] == removed[..tag + |fillAttr|][tag..];
      assert filled[tag..tag + |fillAttr|] == filled[..tag + |fillAttr|][tag..];
    }
    assert r[tag + |strokeAttr|..tag + |strokeAttr| + |fillAttr|] == fillAttr by {
      assert r[tag + |strokeAttr|..] == removed[tag..];
      assert r[tag + |strokeAttr|..tag + |strokeAttr| + |fillAttr|] == r[tag + |strokeAttr|..][..|fillAttr|];
      assert removed[tag..tag + |fillAttr|] == removed[tag..][..|fillAttr|];
    }
    assert r[tag..tag + |strokeAttr| + |fillAttr|]
      == r[tag..tag + |strokeAttr|] + r[tag + |strokeAttr|..tag + |strokeAttr| + |fillAttr|];
  }

  /** The final pass recolours `fill="none"` too. */
  lemma NoneAttributeRecoloured()
    ensures ReplaceFrom(AttrDecl("fill"), "fill=\"none\"", 0, RecolourFill) == FillAttribute
  {
    var s := "fill=\"none\"";
    assert |s| == 11 && s[10] == '"';
    assert OccursAt(s, "fill" + "=\"", 0);
    forall k | 6 <= k < 10 ensures NotQuote(s[k]) { }
    SpanIs(s, 6, NotQuote, 10);
    assert MatchAt(AttrDecl("fill"), s, 0) == Some(11);
    assert FirstMatch(AttrDecl("fill"), s, 0) == Some((0, 11));
    assert ReplaceFrom(AttrDecl("fill"), s, 11, RecolourFill) == [];
  }
}
