/**
 * The straight-line part of the handler: the request fields with their
 * defaults, the hash (an explicit `id` or the md5 of a JavaScript `+` chain),
 * the extension taken from `src`, the content type and the object key.
 */
module CacheKey {
  import opened Wrappers
  import opened Strings

  /**
   * The request. `None` is a field that is absent (or, for the three string
   * fields, `null`): `base64` then defaults to true and the others to null.
   */
  datatype Event = Event(base64: Option<bool>, folder: Option<string>, id: Option<string>, parser: Option<string>, src: string)

  /** `base64` after its default. */
  function Base64Flag(ev: Event): bool {
    if ev.base64.Some? then ev.base64.value else true
  }

  /** The JavaScript values that take part in the hash input. */
  datatype JsValue = JsBoolean(b: bool) | JsNull | JsNumber(n: nat) | JsString(s: string)

  /** A string field as a JavaScript value: a missing one is `null`. */
  function FromField(f: Option<string>): JsValue {
    if f.Some? then JsString(f.value) else JsNull
  }

  /** Truthiness of a string field: present and not empty. */
  predicate Truthy(f: Option<string>) {
    f.Some? && f.value != ""
  }

  /** The decimal digits of a natural number, as `String(n)` writes them. */
  function Decimal(n: nat): (r: string)
    ensures |r| >= 1 && forall k :: 0 <= k < |r| ==> '0' <= r[k] <= '9'
    ensures n < 10 ==> r == [('0' as int + n) as char]
  {
    if n < 10 then [('0' as int + n) as char]
    else Decimal(n / 10) + [('0' as int + n % 10) as char]
  }

  /** `ToString` on the values that occur. */
  function ToText(v: JsValue): string {
    match v
    case JsBoolean(b) => if b then "true" else "false"
    case JsNull => "null"
    case JsNumber(n) => Decimal(n)
    case JsString(s) => s
  }

  /** `ToNumber` on the non-string values that occur. */
  function ToNumber(v: JsValue): nat
    requires !v.JsString?
  {
    match v
    case JsBoolean(b) => if b then 1 else 0
    case JsNull => 0
    case JsNumber(n) => n
  }

  /**
   * The binary `+` of JavaScript on primitives: string concatenation when
   * either side is a string, numeric addition otherwise.
   */
  function Add(a: JsValue, b: JsValue): (r: JsValue)
    ensures r.JsString? <==> a.JsString? || b.JsString?
    ensures r.JsString? ==> r.s == ToText(a) + ToText(b)
    ensures !r.JsString? ==> r == JsNumber(ToNumber(a) + ToNumber(b))
  {
    if a.JsString? || b.JsString? then JsString(ToText(a) + ToText(b))
    else JsNumber(ToNumber(a) + ToNumber(b))
  }

  /** The text handed to md5: `base64 + folder + parser + src`, evaluated left to right. */
  function HashInput(ev: Event): string {
    var v := Add(Add(Add(JsBoolean(Base64Flag(ev)), FromField(ev.folder)), FromField(ev.parser)), JsString(ev.src));
    ToText(v)
  }

  /**
   * The shape of the md5 input: with a folder the flag is spelled out as
   * `true`/`false`; without folder and parser, `true + null + null` is the
   * number 1 (or 0), so the input is a single digit followed by `src`; without
   * folder but with a parser, that digit is followed by the parser name.
   */
  lemma HashInputForm(ev: Event)
    ensures ev.folder.Some? ==>
      HashInput(ev) == (if Base64Flag(ev) then "true" else "false") + ev.folder.value
        + (if ev.parser.Some? then ev.parser.value else "null") + ev.src
    ensures ev.folder.None? ==>
      HashInput(ev) == (if Base64Flag(ev) then "1" else "0")
        + (if ev.parser.Some? then ev.parser.value else "") + ev.src
  {
  }

  /** `id || md5(…)`: the explicit id unless it is missing or empty. */
  function Hash(ev: Event, md5: string -> string): (r: string)
    ensures Truthy(ev.id) ==> r == ev.id.value
    ensures !Truthy(ev.id) ==> r == md5(HashInput(ev))
  {
    if Truthy(ev.id) then ev.id.value else md5(HashInput(ev))
  }

  /** `s.split('.')`, one part per stretch between dots; the text `""` gives `[""]`. */
  function Split(s: string): (parts: seq<string>)
    ensures |parts| >= 1
    ensures forall k :: 0 <= k < |parts| ==> '.' !in parts[k]
    ensures Join(parts) == s
    decreases |s|
  {
    match IndexOf(s, ".")
    case None =>
      assert forall i :: 0 <= i < |s| && s[i] == '.' ==> OccursAt(s, ".", i);
      [s]
    case Some(k) =>
      var rest := Split(s[k + 1..]);
      assert forall i :: 0 <= i < k && s[i] == '.' ==> OccursAt(s, ".", i);
      assert s[k..k + 1] == "." && s == s[..k] + "." + s[k + 1..];
      [s[..k]] + rest
  }

  /** The inverse of `Split`: the parts with a dot between each two. */
  function Join(parts: seq<string>): string
    requires |parts| >= 1
  {
    if |parts| == 1 then parts[0] else parts[0] + "." + Join(parts[1..])
  }

  /** `seg` is the last dot-separated segment of `s`: a dot-free suffix preceded by a dot or by nothing. */
  predicate IsLastSegment(s: string, seg: string) {
    && |seg| <= |s|
    && s[|s| - |seg|..] == seg
    && '.' !in seg
    && (|seg| == |s| || s[|s| - |seg| - 1] == '.')
  }

  /** The last part is a suffix of the joined text, after a dot when there are several parts. */
  lemma {:induction false} JoinEndsWithLast(parts: seq<string>)
    requires |parts| >= 1
    ensures var last, j := parts[|parts| - 1], Join(parts);
      && |last| <= |j| && j[|j| - |last|..] == last
      && (if |parts| == 1 then last == j else |last| < |j| && j[|j| - |last| - 1] == '.')
    decreases |parts|
  {
    if |parts| > 1 {
      var tail := parts[1..];
      JoinEndsWithLast(tail);
      var last, j, jt := parts[|parts| - 1], Join(parts), Join(tail);
      assert last == tail[|tail| - 1];
      assert j == parts[0] + "." + jt;
      assert j[|j| - |last|..] == jt[|jt| - |last|..];
      if |tail| == 1 {
        assert j[|j| - |last| - 1] == (parts[0] + ".")[|parts[0]|];
      } else {
        assert j[|j| - |last| - 1] == jt[|jt| - |last| - 1];
      }
    }
  }

  /** The last part of `Split(s)` is the last segment of `s`. */
  lemma LastPartIsLastSegment(s: string)
    ensures IsLastSegment(s, Split(s)[|Split(s)| - 1])
  {
    JoinEndsWithLast(Split(s));
  }

  /** The last segment is unique: it is the longest dot-free suffix. */
  lemma LastSegmentUnique(s: string, a: string, b: string)
    requires IsLastSegment(s, a) && IsLastSegment(s, b)
    ensures a == b
  {
  }

  /** At most the first three characters of `s` (`substring(0, 3)`). */
  function Prefix3(s: string): (r: string)
    ensures |r| == if |s| < 3 then |s| else 3
    ensures r == s[..|r|]
  {
    if |s| < 3 then s else s[..3]
  }

  /**
   * `splitted.length ? _.last(splitted).substring(0, 3) : null`. The split has
   * at least one part, so the null branch is never taken.
   */
  function Extension(src: string): (r: Option<string>)
    ensures r.Some?
  {
    var parts := Split(src);
    if |parts| > 0 then Some(Prefix3(parts[|parts| - 1])) else None
  }

  /**
   * The extension is the first (at most) three characters of the last
   * dot-separated segment of `src`; it is empty exactly when `src` is empty
   * or ends with a dot.
   */
  lemma ExtensionOfLastSegment(src: string, seg: string)
    requires IsLastSegment(src, seg)
    ensures Extension(src) == Some(Prefix3(seg))
    ensures Extension(src).value == "" <==> src == "" || src[|src| - 1] == '.'
  {
    LastPartIsLastSegment(src);
    LastSegmentUnique(src, seg, Split(src)[|Split(src)| - 1]);
    if |seg| == 0 && src != "" {
      assert src[|src| - |seg| - 1] == '.';
    }
  }

  /** Without a dot, the extension is the first three characters of `src` itself. */
  lemma ExtensionWithoutDot(src: string)
    requires '.' !in src
    ensures Extension(src) == Some(Prefix3(src))
  {
    ExtensionOfLastSegment(src, src);
  }

  /** `mime.lookup(extension)` for a non-empty extension, else the generic binary type. */
  function ContentType(src: string, mimeLookup: string -> string): (r: string)
    ensures Extension(src).value != "" ==> r == mimeLookup(Extension(src).value)
    ensures Extension(src).value == "" ==> r == "application/octet-stream"
  {
    var ext := Extension(src);
    if ext.Some? && ext.value != "" then mimeLookup(ext.value) else "application/octet-stream"
  }

  /** The object key: `hash.extension` (or `hash`), below `folder/` when a folder is given. */
  function ObjectKey(ev: Event, md5: string -> string): string {
    var hash := Hash(ev, md5);
    var ext := Extension(ev.src);
    var key := if ext.Some? && ext.value != "" then hash + "." + ext.value else hash;
    if Truthy(ev.folder) then ev.folder.value + "/" + key else key
  }

  /** The key every bucket read and write of one request uses. */
  function StoreKey(ev: Event, md5: string -> string): string {
    "proxy/" + ObjectKey(ev, md5)
  }

  /**
   * `src` is a string, so the last `+` of the md5 input is a concatenation:
   * the input always ends with `src`.
   */
  lemma HashInputEndsWithSrc(ev: Event)
    ensures var r := HashInput(ev);
      |ev.src| <= |r| && r[|r| - |ev.src|..] == ev.src
  {
    var v := Add(Add(JsBoolean(Base64Flag(ev)), FromField(ev.folder)), FromField(ev.parser));
    assert HashInput(ev) == ToText(v) + ev.src;
  }

  /**
   * The object key starts with the folder and a slash, or else with the hash,
   * and ends with a dot and the extension, or else with the hash; the store
   * key is the object key below `proxy/`.
   */
  lemma ObjectKeyEnds(ev: Event, md5: string -> string)
    ensures var r := ObjectKey(ev, md5);
      var lead := if Truthy(ev.folder) then ev.folder.value + "/" else Hash(ev, md5);
      |lead| <= |r| && r[..|lead|] == lead
    ensures var r := ObjectKey(ev, md5);
      var ext := Extension(ev.src).value;
      var tail := if ext != "" then "." + ext else Hash(ev, md5);
      |tail| <= |r| && r[|r| - |tail|..] == tail
    ensures var r := StoreKey(ev, md5);
      |r| >= 6 && r[..6] == "proxy/" && r[6..] == ObjectKey(ev, md5)
  {
  }

  /**
   * The store key splits into the prefix, the optional folder, the hash and
   * the optional extension: the folder and the extension are recoverable
   * from it.
   */
  lemma StoreKeyParts(ev: Event, md5: string -> string)
    ensures var ext := Extension(ev.src).value;
      StoreKey(ev, md5) == "proxy/" + (if Truthy(ev.folder) then ev.folder.value + "/" else "")
        + Hash(ev, md5) + (if ext != "" then "." + ext else "")
  {
  }

  /**
   * With an explicit id, the key depends only on the id, the folder and the
   * extension: neither `base64`, `parser`, md5 nor the rest of `src` matter.
   */
  lemma IdOverridesHash(ev1: Event, ev2: Event, md5a: string -> string, md5b: string -> string)
    requires Truthy(ev1.id) && ev1.id == ev2.id && ev1.folder == ev2.folder
    requires Extension(ev1.src) == Extension(ev2.src)
    ensures StoreKey(ev1, md5a) == StoreKey(ev2, md5b)
  {
  }

  /** A `src` ending in `.png` has the extension `png`. */
  lemma PngExtension(src: string)
    requires |src| >= 4 && src[|src| - 4..] == ".png"
    ensures Extension(src) == Some("png")
  {
    assert src[|src| - 3..] == src[|src| - 4..][1..] == "png";
    assert src[|src| - 4] == src[|src| - 4..][0];
    assert IsLastSegment(src, "png");
    ExtensionOfLastSegment(src, "png");
    assert Prefix3("png") == "png";
  }

  /**
   * The keys index.spec.js expects for `src.png` (or any `src` ending in
   * `.png`): with id `id` it is stored as `id.png`, or `folder/id.png` with a folder.
   */
  lemma IdKeyExamples(src: string, md5: string -> string)
    requires |src| >= 4 && src[|src| - 4..] == ".png"
    ensures ObjectKey(Event(None, None, Some("id"), None, src), md5) == "id.png"
    ensures ObjectKey(Event(None, Some("folder"), Some("id"), None, src), md5) == "folder/id.png"
  {
    PngExtension(src);
    var ev1, ev2 := Event(None, None, Some("id"), None, src), Event(None, Some("folder"), Some("id"), None, src);
    assert Truthy(ev1.id) && Truthy(ev2.id) && Truthy(ev2.folder) && !Truthy(ev1.folder);
    assert ObjectKey(ev1, md5) == "id" + "." + "png";
    assert ObjectKey(ev2, md5) == "folder" + "/" + ("id" + "." + "png");
  }

  /**
   * Two different requests share a key: a parser `p` with a `src` that has a
   * dot, and no parser with `p` written in front of that `src`. Both hash
   * `1` + `p` + `src`, so the second is served what the first stored; for
   * instance parser `p` with `s.png` and no parser with `ps.png`.
   */
  lemma ParserAndSrcCollide(p: string, src: string, md5: string -> string)
    requires '.' in src
    ensures var ev1 := Event(None, None, None, Some(p), src);
      var ev2 := Event(None, None, None, None, p + src);
      HashInput(ev1) == HashInput(ev2) == "1" + p + src && StoreKey(ev1, md5) == StoreKey(ev2, md5)
  {
    var ev1 := Event(None, None, None, Some(p), src);
    var ev2 := Event(None, None, None, None, p + src);
    SameHashInput(p, src);
    ExtensionOfPrefixed(p, src);
    StoreKeyParts(ev1, md5);
    StoreKeyParts(ev2, md5);
  }

  /** The md5 inputs of the two requests of `ParserAndSrcCollide` agree. */
  lemma SameHashInput(p: string, src: string)
    ensures HashInput(Event(None, None, None, Some(p), src)) == "1" + p + src
    ensures HashInput(Event(None, None, None, None, p + src)) == "1" + p + src
  {
    HashInputForm(Event(None, None, None, Some(p), src));
    HashInputForm(Event(None, None, None, None, p + src));
    assert "1" + "" + (p + src) == "1" + p + src;
  }

  /** Text written in front of a `src` that has a dot does not change its extension. */
  lemma ExtensionOfPrefixed(p: string, src: string)
    requires '.' in src
    ensures Extension(p + src) == Extension(src)
  {
    LastPartIsLastSegment(src);
    var seg := Split(src)[|Split(src)| - 1];
    var s2 := p + src;
    assert |seg| < |src|;
    assert s2[|s2| - |seg|..] == src[|src| - |seg|..];
    assert s2[|s2| - |seg| - 1] == src[|src| - |seg| - 1];
    ExtensionOfLastSegment(src, seg);
    ExtensionOfLastSegment(s2, seg);
  }
}
