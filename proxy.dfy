/**
 * The cache-aside flow of the handler: look the object up in the bucket under
 * `proxy/<key>`; on a hit answer with the stored bytes; on a `NoSuchKey` miss
 * fetch `src`, run the parser on its text, store the result with the derived
 * content type and answer with it; any other failure is answered with the
 * error. The answer is the bytes as base64 or as text.
 */
module Proxy {
  import opened Wrappers
  import opened Base64
  import opened CacheKey

  type Bytes = seq<Byte>

  /** An exception; only its `name` is inspected. */
  datatype Error = Error(name: string)

  /** The name of the lookup error that means "not cached yet". */
  const NoSuchKey: string := "NoSuchKey"

  /** What `putObject` stores: the body and its content type. */
  datatype StoredObject = StoredObject(body: Bytes, contentType: string)

  /**
   * What `getObject` answers: the stored body, or the bucket's standing fault
   * when it has one, or a `NoSuchKey` error for a key that is not stored.
   */
  function Lookup(objects: map<string, StoredObject>, fault: Option<Error>, key: string): (r: Result<Bytes, Error>)
    ensures r.Success? <==> fault.None? && key in objects
    ensures r.Success? ==> r.value == objects[key].body
    ensures r.Failure? && fault.None? ==> r.error.name == NoSuchKey
    ensures fault.Some? ==> r == Failure(fault.value)
  {
    if fault.Some? then Failure(fault.value)
    else if key in objects then Success(objects[key].body)
    else Failure(Error(NoSuchKey))
  }

  /**
   * The bucket. `getFault` and `putFault` stand for the failures of the
   * service that are not about the key (permissions, network): when set,
   * every call of that kind fails with that error.
   */
  class Bucket {
    var objects: map<string, StoredObject>
    const getFault: Option<Error>
    const putFault: Option<Error>

    constructor (objects: map<string, StoredObject>, getFault: Option<Error>, putFault: Option<Error>)
      ensures this.objects == objects && this.getFault == getFault && this.putFault == putFault
    {
      this.objects := objects;
      this.getFault := getFault;
      this.putFault := putFault;
    }

    /** `s3.getObject({Key: key})`: the stored body or the error; the bucket does not change. */
    method GetObject(key: string) returns (r: Result<Bytes, Error>)
      ensures r == Lookup(objects, getFault, key)
    {
      if getFault.Some? {
        return Failure(getFault.value);
      }
      if key in objects {
        return Success(objects[key].body);
      }
      return Failure(Error(NoSuchKey));
    }

    /** `s3.putObject({Key: key, Body, ContentType})`: stores `obj` under `key` unless the bucket fails. */
    method PutObject(key: string, obj: StoredObject) returns (r: Result<(), Error>)
      modifies this
      ensures putFault.Some? ==> r == Failure(putFault.value) && objects == old(objects)
      ensures putFault.None? ==> r == Success(()) && objects == old(objects)[key := obj]
    {
      if putFault.Some? {
        return Failure(putFault.value);
      }
      objects := objects[key := obj];
      return Success(());
    }
  }

  /** What a parser gives back: text, bytes, or an exception it throws. */
  datatype ParserOutput = Text(text: string) | Binary(bytes: Bytes) | Thrown(error: Error)

  /**
   * The code outside the handler, as functions: md5, `mime.lookup`, the HTTP
   * fetch of `src`, the parser registry, and the text coding of `Buffer`
   * (`toString()` and `new Buffer(string)`).
   */
  datatype Collaborators = Collaborators(
    md5: string -> string,
    mimeLookup: string -> string,
    fetch: string -> Result<Bytes, Error>,
    parsers: map<string, string -> ParserOutput>,
    decodeText: Bytes -> string,
    encodeText: string -> Bytes)

  /** The registry key `parsers[parser]` looks up: a missing parser is looked up as `"null"`. */
  function ParserKey(ev: Event): (r: string)
    ensures ev.parser.Some? ==> r == ev.parser.value
    ensures ev.parser.None? ==> r == "null"
  {
    ToText(FromField(ev.parser))
  }

  /** `parsers[parser] || _.identity`: the registered parser, or the identity when there is none. */
  function ParserFor(ev: Event, c: Collaborators): (f: string -> ParserOutput)
    ensures ParserKey(ev) in c.parsers ==> f == c.parsers[ParserKey(ev)]
    ensures ParserKey(ev) !in c.parsers ==> forall t :: f(t) == Text(t)
  {
    var key := ParserKey(ev);
    if key in c.parsers then c.parsers[key] else (t: string) => Text(t)
  }

  /** The parser applied to the fetched body's text; a string result becomes bytes. */
  function ParseFetched(ev: Event, c: Collaborators, raw: Bytes): (r: Result<Bytes, Error>)
    ensures ParserKey(ev) !in c.parsers ==> r == Success(c.encodeText(c.decodeText(raw)))
  {
    match ParserFor(ev, c)(c.decodeText(raw))
    case Text(t) => Success(c.encodeText(t))
    case Binary(b) => Success(b)
    case Thrown(e) => Failure(e)
  }

  /** `returns`: the bytes as base64 (the default) or as text. */
  function Render(ev: Event, c: Collaborators, data: Bytes): (r: string)
    ensures Base64Flag(ev) ==> Decode(r) == Some(data)
    ensures !Base64Flag(ev) ==> r == c.decodeText(data)
  {
    DecodeEncode(data);
    if Base64Flag(ev) then Encode(data) else c.decodeText(data)
  }

  /** One call on an outside service, in the order the handler makes them. */
  datatype Call = Get(key: string) | Fetch(url: string) | Put(key: string, obj: StoredObject)

  /** The end of one request: what the callback receives, the bucket afterwards, the calls made. */
  datatype Outcome = Outcome(response: Result<string, Error>, objects: map<string, StoredObject>, calls: seq<Call>)

  /**
   * One request from start to callback, on a bucket holding `objects`. The
   * first call is always the lookup under the store key, and a request that
   * fails leaves the bucket as it was.
   */
  function Run(ev: Event, c: Collaborators, objects: map<string, StoredObject>, getFault: Option<Error>, putFault: Option<Error>): (r: Outcome)
    ensures |r.calls| >= 1 && r.calls[0] == Get(StoreKey(ev, c.md5))
    ensures r.response.Failure? ==> r.objects == objects
  {
    var key := StoreKey(ev, c.md5);
    match Lookup(objects, getFault, key)
    case Success(body) => Outcome(Success(Render(ev, c, body)), objects, [Get(key)])
    case Failure(err) =>
      if err.name != NoSuchKey then Outcome(Failure(err), objects, [Get(key)])
      else
        match c.fetch(ev.src)
        case Failure(e) => Outcome(Failure(e), objects, [Get(key), Fetch(ev.src)])
        case Success(raw) =>
          match ParseFetched(ev, c, raw)
          case Failure(e) => Outcome(Failure(e), objects, [Get(key), Fetch(ev.src)])
          case Success(body) =>
            var obj := StoredObject(body, ContentType(ev.src, c.mimeLookup));
            var calls := [Get(key), Fetch(ev.src), Put(key, obj)];
            if putFault.Some? then Outcome(Failure(putFault.value), objects, calls)
            else Outcome(Success(Render(ev, c, body)), objects[key := obj], calls)
  }

  /** The handler: the calls on the bucket and the collaborators, step by step. */
  method Handler(ev: Event, c: Collaborators, bucket: Bucket) returns (response: Result<string, Error>, calls: seq<Call>)
    modifies bucket
    ensures Outcome(response, bucket.objects, calls) == Run(ev, c, old(bucket.objects), bucket.getFault, bucket.putFault)
  {
    var key := StoreKey(ev, c.md5);
    calls := [Get(key)];
    var cached := bucket.GetObject(key);
    if cached.Success? {
      response := Success(Render(ev, c, cached.value));
      return;
    }
    if cached.error.name != NoSuchKey {
      response := Failure(cached.error);
      return;
    }
    calls := calls + [Fetch(ev.src)];
    var fetched := c.fetch(ev.src);
    if fetched.Failure? {
      response := Failure(fetched.error);
      return;
    }
    var body := ParseFetched(ev, c, fetched.value);
    if body.Failure? {
      response := Failure(body.error);
      return;
    }
    var obj := StoredObject(body.value, ContentType(ev.src, c.mimeLookup));
    calls := calls + [Put(key, obj)];
    var stored := bucket.PutObject(key, obj);
    if stored.Failure? {
      response := Failure(stored.error);
      return;
    }
    response := Success(Render(ev, c, body.value));
  }

  /** A hit answers with the stored bytes, leaves the bucket alone and makes no other call. */
  lemma HitServedUnchanged(ev: Event, c: Collaborators, objects: map<string, StoredObject>, putFault: Option<Error>)
    requires StoreKey(ev, c.md5) in objects
    ensures var out := Run(ev, c, objects, None, putFault);
      && out.response == Success(Render(ev, c, objects[StoreKey(ev, c.md5)].body))
      && out.objects == objects
      && out.calls == [Get(StoreKey(ev, c.md5))]
  {
  }

  /** A cached `body`, asked for with the default flag, is answered as `Ym9keQ==`. */
  lemma CachedBodyAnswer(ev: Event, c: Collaborators, objects: map<string, StoredObject>)
    requires ev.base64.None?
    requires StoreKey(ev, c.md5) in objects && objects[StoreKey(ev, c.md5)].body == [98, 111, 100, 121]
    ensures Run(ev, c, objects, None, None).response == Success("Ym9keQ==")
  {
    EncodeBody();
  }

  /**
   * A miss fetches `src`, stores the parsed result under the same key with the
   * derived content type, and answers with exactly what it stored.
   */
  lemma MissStoresAndAnswers(ev: Event, c: Collaborators, objects: map<string, StoredObject>)
    requires StoreKey(ev, c.md5) !in objects
    requires c.fetch(ev.src).Success? && ParseFetched(ev, c, c.fetch(ev.src).value).Success?
    ensures var key := StoreKey(ev, c.md5);
      var body := ParseFetched(ev, c, c.fetch(ev.src).value).value;
      var obj := StoredObject(body, ContentType(ev.src, c.mimeLookup));
      var out := Run(ev, c, objects, None, None);
      && out.objects == objects[key := obj]
      && out.response == Success(Render(ev, c, out.objects[key].body))
      && out.calls == [Get(key), Fetch(ev.src), Put(key, obj)]
  {
  }

  /** A successful answer is always the rendering of what the bucket then holds under the store key. */
  lemma AnswerIsWhatIsStored(ev: Event, c: Collaborators, objects: map<string, StoredObject>, getFault: Option<Error>, putFault: Option<Error>)
    ensures var out := Run(ev, c, objects, getFault, putFault);
      out.response.Success? ==>
        StoreKey(ev, c.md5) in out.objects && out.response.value == Render(ev, c, out.objects[StoreKey(ev, c.md5)].body)
  {
  }

  /**
   * On a miss, what the parser gives back decides the rest: a string is stored
   * as `new Buffer(string)` and answered; anything else is stored as it is and
   * answered; an exception is answered with no store and the bucket unchanged.
   */
  lemma MissByParserOutput(ev: Event, c: Collaborators, objects: map<string, StoredObject>)
    requires StoreKey(ev, c.md5) !in objects && c.fetch(ev.src).Success?
    ensures var key := StoreKey(ev, c.md5);
      var out := ParserFor(ev, c)(c.decodeText(c.fetch(ev.src).value));
      var stored := if out.Text? then c.encodeText(out.text) else if out.Binary? then out.bytes else [];
      var obj := StoredObject(stored, ContentType(ev.src, c.mimeLookup));
      && (!out.Thrown? ==>
            Run(ev, c, objects, None, None)
              == Outcome(Success(Render(ev, c, stored)), objects[key := obj], [Get(key), Fetch(ev.src), Put(key, obj)]))
      && (out.Thrown? ==>
            Run(ev, c, objects, None, None) == Outcome(Failure(out.error), objects, [Get(key), Fetch(ev.src)]))
  {
  }

  /** A lookup error other than `NoSuchKey` is answered as it is, with no fetch and no store. */
  lemma OtherLookupErrorNoFetch(ev: Event, c: Collaborators, objects: map<string, StoredObject>, err: Error, putFault: Option<Error>)
    requires err.name != NoSuchKey
    ensures Run(ev, c, objects, Some(err), putFault) == Outcome(Failure(err), objects, [Get(StoreKey(ev, c.md5))])
  {
  }

  /**
   * A failed fetch or a failed store is answered with its error; whatever
   * fails, nothing is stored.
   */
  lemma FailuresLeaveBucket(ev: Event, c: Collaborators, objects: map<string, StoredObject>, getFault: Option<Error>, putFault: Option<Error>)
    ensures var out := Run(ev, c, objects, getFault, putFault);
      out.response.Failure? ==> out.objects == objects
    ensures var key := StoreKey(ev, c.md5);
      Lookup(objects, getFault, key).Failure? && Lookup(objects, getFault, key).error.name == NoSuchKey
      && c.fetch(ev.src).Failure? ==>
        Run(ev, c, objects, getFault, putFault) == Outcome(Failure(c.fetch(ev.src).error), objects, [Get(key), Fetch(ev.src)])
    ensures var out := Run(ev, c, objects, getFault, putFault);
      putFault.Some? && |out.calls| == 3 ==> out.response == Failure(putFault.value)
  {
  }

  /**
   * The calls follow the protocol: a lookup under the store key, then possibly
   * the fetch of `src` (only after a `NoSuchKey` error), then possibly the store
   * under the same key with the derived content type.
   */
  lemma CallsFollowProtocol(ev: Event, c: Collaborators, objects: map<string, StoredObject>, getFault: Option<Error>, putFault: Option<Error>)
    ensures var out := Run(ev, c, objects, getFault, putFault);
      var key := StoreKey(ev, c.md5);
      && 1 <= |out.calls| <= 3
      && out.calls[0] == Get(key)
      && (|out.calls| >= 2 ==>
            out.calls[1] == Fetch(ev.src)
            && Lookup(objects, getFault, key).Failure?
            && Lookup(objects, getFault, key).error.name == NoSuchKey)
      && (|out.calls| == 3 ==>
            out.calls[2].Put? && out.calls[2].key == key
            && out.calls[2].obj.contentType == ContentType(ev.src, c.mimeLookup))
  {
  }

  /** The bucket changes at most at the store key, and only by the object the store call wrote. */
  lemma OnlyStoreKeyWritten(ev: Event, c: Collaborators, objects: map<string, StoredObject>, getFault: Option<Error>, putFault: Option<Error>)
    ensures var out := Run(ev, c, objects, getFault, putFault);
      out.objects == objects
      || (|out.calls| == 3 && out.objects == objects[StoreKey(ev, c.md5) := out.calls[2].obj])
  {
  }

  /** After a successful miss, the same request again is a hit with the same answer. */
  lemma SecondRequestHits(ev: Event, c: Collaborators, objects: map<string, StoredObject>)
    requires Run(ev, c, objects, None, None).response.Success?
    ensures var first := Run(ev, c, objects, None, None);
      var second := Run(ev, c, first.objects, None, None);
      second.response == first.response && second.objects == first.objects
      && second.calls == [Get(StoreKey(ev, c.md5))]
  {
  }

  /**
   * Without a registered parser and with a text coding that gives back the
   * fetched bytes, a miss stores those bytes, and the default answer is their
   * base64, which decodes to them.
   */
  lemma IdentityStoresFetchedBytes(ev: Event, c: Collaborators, objects: map<string, StoredObject>)
    requires ParserKey(ev) !in c.parsers && StoreKey(ev, c.md5) !in objects
    requires c.fetch(ev.src).Success? && c.encodeText(c.decodeText(c.fetch(ev.src).value)) == c.fetch(ev.src).value
    ensures var raw := c.fetch(ev.src).value;
      var out := Run(ev, c, objects, None, None);
      && out.objects[StoreKey(ev, c.md5)].body == raw
      && (Base64Flag(ev) ==> out.response == Success(Encode(raw)) && Decode(out.response.value) == Some(raw))
  {
    DecodeEncode(c.fetch(ev.src).value);
  }
}
