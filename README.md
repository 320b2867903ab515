# s3-proxy in Dafny

This project models the core of s3-proxy, a serverless handler that fetches a
remote file once, optionally rewrites it with a named parser, and caches it
in an S3 bucket under `proxy/<key>`. Later requests are served from the
bucket. The answer is the bytes as base64 (the default) or as text.

The model has these parts:

- **Strings** (`strings.dfy`) holds the JavaScript string operations the code relies on:
  - `indexOf` and `includes`;
  - the `insertAt` splice that both SVG parsers define;
  - `String.prototype.replace` with a string pattern. It replaces only the first occurrence and expands `$$`, `$&`, `` $` `` and `$'` in the replacement.
- **Regex** (`regex.dfy`) holds the eight regular expressions of the SVG parsers. Each is a hand-written matcher that follows JavaScript's leftmost, greedy, backtracking semantics. On top of them it builds the global `match` (all non-overlapping matches, left to right) and the global `replace`.
- **SvgWithFill** (`svg_with_fill.dfy`) is the `svgWithFill` parser: a defs template after the first `<svg …>` tag, then the fill rewriting of every shape.
- **ParseSvg** (`parse_svg.dfy`) is the older `parseSvg` rewriting, with fill and stroke recoloured to `#d7006c`. Its module-level `/g` regex is a class whose `lastIndex` field survives between calls.
- **Base64** (`base64.dfy`) is the output encoding of section 4 of RFC 4648, with a decoder that inverts it.
- **CacheKey** (`cache_key.dfy`) covers the request defaults, the hash input, the extension, the content type and the object key.
  - The hash input follows JavaScript's `+`: `true + null + null + src` is `"1" + src`, because the first two `+` are numeric.
- **Proxy** (`proxy.dfy`) is the cache-aside flow. It is modelled three ways:
  - a `Bucket` class whose map of objects `PutObject` updates;
  - a specification function `Run` that returns the answer, the bucket afterwards and the calls made;
  - the `Handler` method, proved equal to `Run`.

  md5, `mime.lookup`, the HTTP fetch, the parser registry and the text coding of `Buffer` are parameters (`Collaborators`).

The model follows these behaviours of `index.js`:

- index.js passes a lookup error not named `NoSuchKey` to the callback (index.js:50-51, 79). It does not treat it as a miss.
- index.js passes a failed `putObject` to the callback (index.js:68-82). It does not swallow it.
- The hash input is not collision-resistant. `CacheKey.ParserAndSrcCollide` shows two different requests that share a key.
- There is no structured (JSON) decoding of the answer. A hit answers only the encoded bytes, not the content type.

## Model

| member | source | states |
|---|---|---|
| Strings.IndexOfFrom | parsers/svgWithFill.js:30 | the result is the first occurrence at or after `from`: it occurs there, nowhere earlier, and None means no occurrence at all |
| Strings.Contains | parsers/svgWithFill.js:20 | holds exactly when the text occurs somewhere in the string |
| Strings.InsertAt | parsers/svgWithFill.js:15-17 | with the start clamped to the length: the length is the sum; the prefix before the start is kept; the inserted text sits at the start; the rest follows unchanged (parseSvg.js:19-21 is the same function) |
| Strings.Expand | parsers/svgWithFill.js:62 | a replacement without `$` is inserted verbatim |
| Strings.ExpandPatterns | parsers/svgWithFill.js:62 | `$$` gives a dollar sign, `$&` the matched text, `` $` `` the text before the match and `$'` the text after it |
| Strings.ExpandPatternThen | parsers/svgWithFill.js:62 | a `$` pattern at the front is expanded on its own and the rest is expanded after it |
| Strings.ExpandLoneDollar | parsers/svgWithFill.js:62 | a `$` followed by a character that starts none of the four patterns is kept literally |
| Strings.ExpandTrailingDollar | parsers/svgWithFill.js:62 | a `$` at the very end, with nothing after it, is kept literally |
| Strings.ExpandPlainThen | parsers/svgWithFill.js:62 | dollar-free text at the front is copied, and the rest is expanded after it |
| Strings.ReplaceFirst | parsers/svgWithFill.js:62 | without an occurrence the string is unchanged; otherwise the text before the first occurrence and the text after it are kept |
| Strings.ReplaceFirstSplice | parseSvg.js:55 | a dollar-free replacement takes the place of exactly the first occurrence |
| Regex.SvgOpenAt | parsers/svgWithFill.js:4 | a match of `<svg[^>]*>` is non-empty and within the string |
| Regex.ShapeAt | parsers/svgWithFill.js:8 | a shape match starts with `<` followed by one of the eight names |
| Regex.MatchAt | parseSvg.js:5-11 | a match of any of the patterns at a position is non-empty and ends within the string |
| Regex.NodeTagAtForm | parsers/svgWithFill.js:5 | `<\w+` matches exactly where `<` is followed by a word character, and the match takes every word character that follows (greedy) |
| Regex.StyleDeclAtForm | parsers/svgWithFill.js:6 | `prop:[^;"]*;?` matches exactly where `prop:` occurs; the match holds no quote, ends at the first `;` it takes, and stops short only before a quote (parseSvg.js:8-9 are the same patterns) |
| Regex.AttrDeclAtForm | parsers/svgWithFill.js:7 | a `prop="[^"]*"` match is `prop="`, characters other than a quote, then the closing quote; `prop="` without a later quote does not match (parseSvg.js:10-11 are the same patterns) |
| Regex.StyledNodeWhole | parseSvg.js:6 | a one-line tag `<…>` whose last `style="` is followed by a quote is matched by `<[^>]*style=".*"[^>]*>` as a whole, later quoted attributes included |
| Regex.ShapeAtFourth | parsers/svgWithFill.js:8 | when the first three alternatives cannot start, the fourth decides, and its `[^>]+>` runs to the first `>` |
| Regex.FirstMatch | parsers/svgWithFill.js:24 | the leftmost match at or after `from`: a match there, none before it, and None only when there is none at all |
| Regex.AllMatches | parsers/svgWithFill.js:35 | the global `match`: every element is a match, in increasing and non-overlapping order; the first is the leftmost match; empty exactly when there is no match |
| Regex.AllMatchesComplete | parsers/svgWithFill.js:35 | no match is skipped: each element after the first is the leftmost match from where the previous one ended, and after the last there is no match |
| Regex.MatchTexts | parseSvg.js:35 | one text per match, each the matched slice of the input |
| Regex.ReplaceFrom | parsers/svgWithFill.js:44 | the global `replace` from a position: with no match from there, the rest of the string is returned unchanged |
| Regex.ReplaceFromIsSplice | parsers/svgWithFill.js:44 | the global `replace` from a position is the splice over the global `match` from there: the gaps between matches are copied and each match becomes the callback of its text (parseSvg.js:45, 58 use the same replace) |
| Regex.ReplaceOneMatch | parsers/svgWithFill.js:44 | with a single match, the replace is the text before it, the callback of the match, then the text after it |
| Regex.OneMatchText | parseSvg.js:35 | with a single match, the global `match` gives that match's text alone |
| Regex.DropOneMatch | parseSvg.js:45 | with a single match, `replace(p, '')` cuts out exactly that match |
| Regex.ReplaceKeepIsIdentity | parsers/svgWithFill.js:44 | a global replace that gives every match back unchanged returns the input: matches and gaps tile the string |
| Regex.ReplaceKeepsPrefix | parseSvg.js:45 | a global replace of `prop:` declarations or `prop="…"` attributes copies everything before the first match unchanged, whatever the callback |
| Regex.SvgOpenForm | parsers/svgWithFill.js:4 | a `<svg[^>]*>` match is `<svg`, then characters other than `>`, then `>` |
| Regex.IndexOfFirstSvgOpen | parsers/svgWithFill.js:30 | `indexOf` of the first svg match's text finds that same match, so `afterIndex` is the end of the first match |
| Regex.ShapeHasNodeTag | parsers/svgWithFill.js:38 | every shape match has a `<\w+` match at its start, so destructuring `nodeTag` cannot fail for a shape |
| SvgWithFill.IsNoneOrTransparent | parsers/svgWithFill.js:19-21 | holds exactly when the value contains `none` or `transparent` |
| SvgWithFill.PlaceholderIsAColour | parsers/svgWithFill.js:12 | the placeholder contains neither `none` nor `transparent`, so `isNoneOrTransparent` counts it as a colour |
| SvgWithFill.FillAttrToken | parsers/svgWithFill.js:49-55 | the replace callback gives a token that says none or transparent back unchanged and turns any other into the placeholder |
| SvgWithFill.FillAttrTokenIdempotent | parsers/svgWithFill.js:49-55 | applying the callback to its own output changes nothing more |
| SvgWithFill.FillAttrTokenKeepsKind | parsers/svgWithFill.js:49-55 | the callback's result says none or transparent exactly when its token does |
| SvgWithFill.TagLength | parsers/svgWithFill.js:38 | `nodeTag.length`: the length of the first `<\w+` match; its value is characterised by `Regex.NodeTagAtForm`, and it is used only for shapes that `Regex.ShapeHasNodeTag` shows have one |
| SvgWithFill.RewriteShape | parsers/svgWithFill.js:36-61 | every rewritten shape contains `fill=` or the placeholder |
| SvgWithFill.UnfilledShapeGetsPlaceholder | parsers/svgWithFill.js:57-60 | a shape with no fill style, no `fill=` and no placeholder gets ` <%= attributes.style.background %>` inserted right after its tag name, nothing else |
| SvgWithFill.ReplaceFixedMatches | parsers/svgWithFill.js:49-55 | a global replace whose callback returns every match unchanged changes nothing |
| SvgWithFill.TransparentShapeUnchanged | parsers/svgWithFill.js:49-55 | a shape whose `fill="…"` attributes all say none or transparent, and which has no fill style, is left exactly as it is |
| SvgWithFill.FoldShapes | parsers/svgWithFill.js:35-63 | the reduce over the shapes: when no shape text occurs in the document, the document is returned unchanged (the base case; `FoldFixedShapes` and `FoldOneShape` cover shapes that do occur) |
| SvgWithFill.FoldFixedShapes | parsers/svgWithFill.js:35-63 | when each shape's rewrite is the shape itself and holds no `$`, the reduce returns the document unchanged |
| SvgWithFill.WithDefs | parsers/svgWithFill.js:24-33 | None exactly when there is no `<svg…>` match; otherwise the template (the defs template in `Transform`) is spliced in at the end of the first match, with everything before and after kept |
| SvgWithFill.ShapesHaveTags | parsers/svgWithFill.js:35-38 | every text the shapes pattern matches has a tag name |
| SvgWithFill.Transform | parsers/svgWithFill.js:23-28 | a body without an `<svg…>` match is returned unchanged |
| SvgWithFill.FoldOneShape | parsers/svgWithFill.js:35-63 | when the document has exactly one shape match and its text first occurs there, the reduce replaces exactly that slice by the rewritten shape |
| SvgWithFill.TransformOneShape | parsers/svgWithFill.js:23-63 | the whole parser on a body whose text with defs has one shape: the defs are inserted and that one shape is rewritten in place, everything else kept |
| SvgWithFill.StyleFillBecomesPlaceholder | parsers/svgWithFill.js:40-60 | a shape whose first `fill:` style follows its tag name and is a colour keeps its tag name, immediately followed by ` <%= attributes.style.background %>` |
| SvgWithFill.StyleFillMoved | parsers/svgWithFill.js:40-60 | a shape with a single coloured `fill:` declaration after its tag name, and no `fill="…"` attribute once it is cut out, rewrites to exactly: the tag name, ` <%= attributes.style.background %>`, then the shape with that declaration removed |
| SvgWithFill.FillAttrBecomesPlaceholder | parsers/svgWithFill.js:48-60 | a shape without a fill style and with a single coloured `fill="…"` attribute has exactly that attribute replaced by the placeholder, nothing else |
| SvgWithFill.LinearGradientIsAShape | parsers/svgWithFill.js:8 | any tag starting `<line` whose first `>` comes after two more characters, such as `<linearGradient …>`, is matched as a shape through the `line` alternative |
| ParseSvg.RewriteNode | parseSvg.js:37-55 | the callback throws exactly when the node has no `<\w+` match |
| ParseSvg.RecolouredDecl | parseSvg.js:44 | the test `hasFill && !_.includes(hasFill[0], 'none')` (and the same for stroke) on the original node: the first declaration exists, starts at or after `tag`, and does not contain `none`; `FillDeclMoved`, `StrokeDeclMoved` and `NoneFillKept` state what each outcome does |
| ParseSvg.Recolour | parseSvg.js:44-53 | one `if` block of the callback: when the first declaration of the property is not recoloured the node is unchanged, otherwise the attribute appears in the result |
| ParseSvg.OnlyFillRecoloured | parseSvg.js:44-53 | a node whose fill declaration is recoloured and stroke is not keeps its tag name, immediately followed by ` fill="#d7006c"`, and has no `fill:` declaration left before that point |
| ParseSvg.RecolourOne | parseSvg.js:44-53 | one recoloured property with a single declaration after the tag name: the declaration is cut out and the attribute is put right after the tag name, the text between moving along |
| ParseSvg.FillDeclMoved | parseSvg.js:44-53 | fill recoloured and stroke not, with a single `fill:` declaration: the result is exactly the tag name, ` fill="#d7006c"`, then the node with that declaration removed |
| ParseSvg.StrokeDeclMoved | parseSvg.js:44-53 | stroke recoloured and fill not, with a single `stroke:` declaration: the result is exactly the tag name, ` stroke="#d7006c"`, then the node with that declaration removed |
| ParseSvg.FillAndStrokeDeclsMoved | parseSvg.js:44-53 | both recoloured: the fill declaration is removed and its attribute inserted, then the single stroke declaration of that text is removed and its attribute inserted ahead of the fill's; the result is exactly that text |
| ParseSvg.NoneFillKept | parseSvg.js:44-50 | a node whose first `fill:` says `none` and whose stroke is not recoloured is returned unchanged |
| ParseSvg.TransparentFillRecoloured | parseSvg.js:44-46 | unlike the newer parser, `fill:transparent;` is recoloured: the tag name is followed by ` fill="#d7006c"` |
| ParseSvg.NoDeclBefore | parseSvg.js:45-52 | inserting an attribute (space first, quote last, no colon) at the tag's end creates no `prop:` declaration before the end of the insertion |
| ParseSvg.FoldNodes | parseSvg.js:37-56 | the reduce fails exactly when the callback fails for one of the nodes |
| ParseSvg.RewriteBody | parseSvg.js:30-61 | the rewrite after the `<svg…>` match fails exactly when the callback fails on one of the styled nodes of the body with defs |
| ParseSvg.FoldSingleNode | parseSvg.js:37-56 | the reduce over a single node whose callback succeeds replaces the first occurrence of its text by the new node |
| ParseSvg.FoldOneNode | parseSvg.js:37-56 | when the body has exactly one styled node and its text first occurs there, the reduce replaces exactly that slice by the rewritten node |
| ParseSvg.OneStyledNodeRewritten | parseSvg.js:30-61 | a body whose text with defs has one styled node resolves to that text with the node rewritten in place, then the final `fill="…"` and `stroke="…"` passes |
| ParseSvg.OneFillAttributeRecoloured | parseSvg.js:58-59 | a body with defs that has no styled node, a single `fill="…"` attribute and no `stroke="…"` attribute has exactly that attribute replaced by `fill="#d7006c"` |
| ParseSvg.PlainBodyGetsDefsOnly | parseSvg.js:30-61 | without styled nodes or fill/stroke attributes, the result is the body with the defs template inserted at `afterIndex` |
| ParseSvg.Parse | parseSvg.js:27-62 | the result is undefined exactly when there is no `<svg…>` match from `lastIndex`, and then `lastIndex` is reset to 0; otherwise `lastIndex` moves to the end of the leftmost match from the old `lastIndex`, and the result is the rewrite of the body after that match |
| ParseSvg.ExecSvg | parseSvg.js:27 | `exec` from `lastIndex`: the leftmost match at or after it, with `lastIndex` moved to the match's end; no match (or `lastIndex` past the end) gives null and resets `lastIndex` to 0 |
| ParseSvg.SvgRegex.constructor | parseSvg.js:5 | the regex starts with `lastIndex` 0 |
| ParseSvg.SvgRegex.Exec | parseSvg.js:27 | the search loop gives the match and the new `lastIndex` that `ExecSvg` specifies |
| ParseSvg.SvgRegex.ParseBody | parseSvg.js:27-62 | one call on a fetched body: null without a match from `lastIndex`, else the rewritten body, and the new `lastIndex` |
| ParseSvg.SecondCallFindsNothing | parseSvg.js:27-29 | with one `<svg…>` tag, a second call on the same body resolves to undefined and resets `lastIndex` to 0 |
| ParseSvg.NodeWithoutTagThrows | parseSvg.js:38 | a node that starts with `<` and a space and has no other `<`, such as `< style="">`, has no tag name, so the callback throws |
| ParseSvg.StrokeInsertedBeforeFill | parseSvg.js:44-53 | a node whose fill and stroke declarations are both recoloured starts with its tag name followed by ` stroke="#d7006c" fill="#d7006c"` |
| ParseSvg.InsertTwiceAfterTag | parseSvg.js:44-53 | removing the fill and stroke declarations that follow the tag, then inserting both attributes at the tag's end, keeps the tag and puts the stroke first (for any fill attribute that starts with a space, ends with a quote and has no colon) |
| ParseSvg.NoneAttributeRecoloured | parseSvg.js:58 | the final pass recolours `fill="none"` too |
| Base64.Value | index.js:40 | an alphabet character's value maps back to that character |
| Base64.Encode | index.js:40 | the encoding of n bytes has 4·⌈n/3⌉ characters |
| Base64.EncodeAlphabet | index.js:40 | every character of an encoding is from the alphabet or `=` |
| Base64.DecodeQuad | index.js:40 | part of a decoder that inverts the encoding at this line: a group of four characters gives one to three bytes, and exactly three unless it is the last group |
| Base64.Decode | index.js:40 | a decoder that inverts the encoding at this line: a decodable text of n characters gives at most 3n/4 bytes |
| Base64.DecodeEncode | index.js:40 | decoding an encoding gives back the bytes |
| Base64.EncodeInjective | index.js:40 | different bytes have different encodings |
| Base64.EncodeBody | index.spec.js:435-437 | the bytes of `body` encode as `Ym9keQ==` |
| CacheKey.Decimal | index.js:28 | `String(n)` of a number is a non-empty string of decimal digits, one digit below ten |
| CacheKey.Add | index.js:28 | `+` concatenates the string forms when either side is a string, else adds the numeric values |
| CacheKey.HashInput | index.js:28 | the md5 input `base64 + folder + parser + src`, evaluated left to right with JavaScript's `+`; its form is stated by `HashInputForm` and `HashInputEndsWithSrc` |
| CacheKey.HashInputForm | index.js:28 | with a folder the md5 input is `true`/`false` + folder + parser (or `null`) + src; without a folder it is `1`/`0` + parser (or nothing) + src |
| CacheKey.HashInputEndsWithSrc | index.js:28 | whatever the flag, folder and parser, the md5 input ends with src |
| CacheKey.Hash | index.js:28 | the hash is the id when it is truthy, else md5 of the hash input |
| CacheKey.Split | index.js:29 | `split('.')` gives at least one part, no part contains a dot, and joining the parts with dots gives back the input |
| CacheKey.LastPartIsLastSegment | index.js:29-30 | the last part of the split is the dot-free suffix that follows the last dot, or the whole text |
| CacheKey.Prefix3 | index.js:30 | `substring(0, 3)` is the first min(3, length) characters |
| CacheKey.Extension | index.js:30 | the `null` branch is never taken, since the split always has a part |
| CacheKey.ExtensionOfLastSegment | index.js:29-30 | the extension is the first three characters of the last segment, and is empty exactly when src is empty or ends with a dot |
| CacheKey.ExtensionWithoutDot | index.js:29-30 | a src without a dot gives its own first three characters |
| CacheKey.ExtensionOfPrefixed | index.js:29-30 | text written before a src that has a dot leaves the extension unchanged |
| CacheKey.ContentType | index.js:31 | `mime.lookup` of the extension when it is non-empty, else `application/octet-stream` |
| CacheKey.ObjectKey | index.js:33-37 | `hash.extension` (or `hash` without an extension), below `folder/` when the folder is truthy; its start and end are stated by `ObjectKeyEnds` |
| CacheKey.StoreKey | index.js:44 | the key of every bucket read and write, `proxy/` followed by the object key; its layout is stated by `StoreKeyParts` |
| CacheKey.StoreKeyParts | index.js:33-44 | the store key is `proxy/`, then `folder/` when the folder is truthy, then the hash, then `.ext` when the extension is non-empty |
| CacheKey.ObjectKeyEnds | index.js:33-44 | the key starts with `folder/` when the folder is truthy, else with the hash; it ends with `.ext` when the extension is non-empty, else with the hash; the store key is `proxy/` followed by it |
| CacheKey.IdOverridesHash | index.js:28-37 | with a truthy id, two requests with the same id, folder and extension share a key, whatever their flag, parser, md5 or the rest of src |
| CacheKey.IdKeyExamples | index.spec.js:112-135 | with id `id` and a `.png` src the key is `id.png`, or `folder/id.png` with folder `folder` |
| CacheKey.ParserAndSrcCollide | index.js:28 | parser `p` with a dotted src and no parser with `p` prepended to that src hash the same input and share a store key |
| Proxy.Lookup | index.js:42-49 | a lookup succeeds exactly when the bucket has no fault and holds the key, and gives the stored body; a missing key fails with `NoSuchKey`, and a fault fails with the fault's error |
| Proxy.Bucket.constructor | index.js:15 | the bucket starts with the given objects and faults |
| Proxy.Bucket.GetObject | index.js:42-46 | answers what `Lookup` specifies and changes nothing |
| Proxy.Bucket.PutObject | index.js:68-74 | stores the object under the key, or fails with the put fault and leaves the bucket unchanged |
| Proxy.ParserKey | index.js:27 | the registry key is the parser name, or `"null"` without one |
| Proxy.ParserFor | index.js:27 | a registered parser is the one the registry holds; an unregistered one is the identity on text |
| Proxy.ParseFetched | index.js:58-66 | with the identity parser the stored bytes are the fetched text coded back to bytes |
| Proxy.Run | index.js:42-82 | every run starts with the lookup under `proxy/<key>`, and a failed run leaves the bucket unchanged |
| Proxy.AnswerIsWhatIsStored | index.js:40-81 | a successful answer is the rendering of the object the bucket holds under the store key afterwards |
| Proxy.MissByParserOutput | index.js:58-76 | on a miss with a successful fetch: a text result is coded to bytes and a byte result is kept as it is, then stored and answered; a parser that throws is the answer, and nothing is stored (index.spec.js:264-293) |
| Proxy.Render | index.js:40 | with the base64 flag the answer decodes to exactly the bytes; without it, it is their text |
| Proxy.Handler | index.js:18-83 | the handler's answer, the bucket afterwards and the calls it makes are those of `Run` |
| Proxy.HitServedUnchanged | index.js:42-49 | a hit answers the stored body, makes no fetch and no store, and leaves the bucket unchanged |
| Proxy.CachedBodyAnswer | index.spec.js:203-214 | a cached `body` is answered as `Ym9keQ==` by default |
| Proxy.MissStoresAndAnswers | index.js:50-76 | a miss fetches src, stores the parsed bytes under the same key with the derived content type, and answers exactly what it stored |
| Proxy.OtherLookupErrorNoFetch | index.js:50-79 | a lookup error not named `NoSuchKey` is the answer; there is no fetch and no store |
| Proxy.FailuresLeaveBucket | index.js:50-82 | on any failure nothing is stored; a failed fetch is answered with its error; a failed store is answered with the store's error |
| Proxy.CallsFollowProtocol | index.js:42-76 | the calls are the lookup under the store key, then possibly the fetch of src (only after `NoSuchKey`), then possibly the store under the same key with the derived content type |
| Proxy.OnlyStoreKeyWritten | index.js:68-74 | the bucket is either unchanged, or changed only at the store key, by the object the store call wrote |
| Proxy.SecondRequestHits | index.js:42-49 | after a successful request, the same request again is a hit with the same answer and the same bucket |
| Proxy.IdentityStoresFetchedBytes | index.js:27-62 | with no registered parser and a text coding that gives the bytes back, a miss stores the fetched bytes, and the default answer is their base64 |

## Left out

- AWS SDK configuration, the environment variables, the bucket name and the dev-only self-invocation (index.js:8-16, 85-93) are configuration and I/O. The bucket is an abstract map.
- The `got` fetches are network calls. `fetch` is a parameter in the handler, and the fetched body is an input of `ParseSvg.SvgRegex.ParseBody`.
- md5 and `mime.lookup` are outside libraries. They are parameters, so the model proves only what holds for every md5 and every lookup.
- The parser registry is a parameter map. Keys the registry object inherits from its prototype (such as `constructor`) are not modelled.
- Promise and callback asynchrony is left out. Each request is one sequential run.
- `Buffer`'s UTF-8 coding is an abstract pair of functions. Dafny strings are sequences of Unicode scalar values, while JavaScript strings are UTF-16 code units, so positions (`indexOf`, `slice`, `substring(0, 3)`, `lastIndex`) differ from JavaScript's on text with characters outside the Basic Multilingual Plane.
- A missing `src` throws at index.js:29. In the model `src` is a required string field.
- A `base64` or `folder`/`id`/`parser` value that is neither a boolean/string nor absent is not modelled.
- A parser result that is not a string is handed to `putObject` unchanged (index.js:61-65). The model covers byte results (`Binary`); other values such as objects or numbers are not modelled.
- index.spec.js tests a `Proxy` class (JSON answers, `parseResponse`, swallowed errors) that index.js does not define. That class is not part of this model.
- Regex.MatchAt: its contract, and that of each per-pattern matcher, only bounds the match. What each pattern matches is characterised by `SvgOpenForm`, `NodeTagAtForm`, `StyleDeclAtForm`, `AttrDeclAtForm`, `ShapeAt`, `ShapeAtFourth` and `StyledNodeWhole`; for the styled-node pattern only whole single tags are characterised.
- SvgWithFill.Transform: the whole transform is stated for a body without an `<svg…>` match and, by `TransformOneShape`, for a body with one shape. With several shapes only the fold's invariants (`FoldShapes`, `FoldFixedShapes`) and the per-shape rewrite are stated.
- SvgWithFill.RewriteShape: its contract says only that the result holds `fill=` or the placeholder. The whole result is stated for four kinds of shape: unfilled (`UnfilledShapeGetsPlaceholder`), none or transparent (`TransparentShapeUnchanged`), a single coloured fill declaration after the tag name (`StyleFillMoved`) and a single coloured fill attribute (`FillAttrBecomesPlaceholder`). A shape with several fill declarations, or with both a fill declaration and fill attributes, is stated only by `StyleFillBecomesPlaceholder` (the placeholder follows the tag name), `Regex.ReplaceFromIsSplice` and the contract.
- ParseSvg.RewriteNode: its contract states only when the callback throws. For nodes whose tag name is at the start and which have a single declaration of each recoloured property, the whole success value is stated by `FillDeclMoved`, `StrokeDeclMoved` and `FillAndStrokeDeclsMoved`, and `NoneFillKept` covers a `none` fill. With several declarations of a property only `StrokeInsertedBeforeFill`, `OnlyFillRecoloured` (attributes after the tag name) and `Regex.ReplaceFromIsSplice` (every declaration is cut) apply.
- ParseSvg.SvgRegex.ParseBody: the rewrite is stated as a whole for bodies without styled nodes (`PlainBodyGetsDefsOnly`, `OneFillAttributeRecoloured`) and for bodies with a single styled node (`OneStyledNodeRewritten`). With several styled nodes only the failure condition and the per-node rewrites are stated.
- ParseSvg.FoldNodes: its contract states only when the reduce fails. The success value is stated for one node (`FoldSingleNode`, and `FoldOneNode` for a node rewritten in its own slice). With several nodes, an earlier replacement can create or move a later node's first occurrence, which the model does not characterise.
- ParseSvg.RewriteBody: its contract states only when the promise rejects. The resolved body is stated with no styled node (`PlainBodyGetsDefsOnly`, `OneFillAttributeRecoloured`) and with one (`OneStyledNodeRewritten`), but not with several, for the reason given for `FoldNodes`.
