/**
 * The worker's request handler as a state transition: a request against the
 * counter store yields the store after the request and the response, if any.
 *
 * The store holds text, as the key-value namespace does. `StoredCount`
 * models `Number(get(key) || "0")` for the values this worker writes: an
 * absent key or an empty value reads as 0, a string of ASCII digits as the
 * number it spells.
 */
module Worker {
  import opened Wrappers
  import Decimal
  import TextSplit
  import CounterKey
  import CounterImage

  type Store = map<string, string>

  /** Query parameters in order, as `URLSearchParams` holds them. */
  type Query = seq<(string, string)>

  datatype Request = Request(verb: string, path: string, query: Query)

  datatype Body =
    | Text(text: string)
    | Png(canvas: CounterImage.Canvas)

  datatype Response = Response(status: nat, contentType: string, body: Body)

  /** The store after a request, and the response if the handler returned one. */
  datatype Step = Step(store: Store, response: Option<Response>)

  const RootPage: string := "<h1>:/</h1>"
  const InvalidImageCount: string := "Invalid image count"
  /** The content type a string body gets when the response names none. */
  const DefaultTextType: string := "text/plain;charset=UTF-8"
  const JsonPrefix: string := "{\"count\":"

  /** The value of the first parameter called `name` (`URLSearchParams.get`). */
  function QueryGet(q: Query, name: string): (r: Option<string>)
    ensures r.None? <==> forall i :: 0 <= i < |q| ==> q[i].0 != name
    ensures r.Some? ==> exists i :: 0 <= i < |q| && q[i] == (name, r.value)
                                   && forall j :: 0 <= j < i ==> q[j].0 != name
  {
    if q == [] then None
    else if q[0].0 == name then Some(q[0].1)
    else QueryGet(q[1..], name)
  }

  /** A stored value this worker can read: empty, or ASCII digits. */
  predicate Readable(v: string) {
    v == "" || Decimal.Parse(v).Some?
  }

  /** Every value in the store is one this worker can read. */
  predicate ReadableStore(store: Store) {
    forall k :: k in store ==> Readable(store[k])
  }

  /** The count stored under `key`; an absent key or an empty value counts as 0. */
  function StoredCount(store: Store, key: string): (n: nat)
    requires ReadableStore(store)
    ensures key !in store || store[key] == "" ==> n == 0
    ensures key in store && store[key] != "" ==> Decimal.Parse(store[key]) == Some(n)
  {
    var text := if key in store && store[key] != "" then store[key] else "0";
    Decimal.Parse(text).value
  }

  /**
   * Read-increment-write of one counter: the value under `key` becomes the
   * text of one more than it was, and nothing else changes.
   */
  function Bump(store: Store, key: string): (after: Store)
    requires ReadableStore(store)
    ensures ReadableStore(after)
    ensures StoredCount(after, key) == StoredCount(store, key) + 1
    ensures after[key] == Decimal.Show(StoredCount(after, key))
    ensures after.Keys == store.Keys + {key}
    ensures forall k :: k in store && k != key ==> after[k] == store[k]
  {
    var count := StoredCount(store, key) + 1;
    Decimal.ParseShow(count);
    store[key := Decimal.Show(count)]
  }

  predicate IsCountingMethod(verb: string) {
    verb == "GET" || verb == "POST" || verb == "PUT" || verb == "PATCH"
  }

  /** A request that increments a counter: a counting method on a path other than the root. */
  predicate IsCounting(req: Request) {
    req.path != "/" && IsCountingMethod(req.verb)
  }

  /** The glyph URLs of an image request; an absent parameter gives no URLs. */
  function ImageUrls(q: Query): (urls: seq<string>)
    ensures QueryGet(q, "images").None? ==> urls == []
    ensures QueryGet(q, "images").Some? ==>
              |urls| == TextSplit.Occurrences(QueryGet(q, "images").value, ';') + 1
    ensures QueryGet(q, "images").Some? ==>
              && (forall i :: 0 <= i < |urls| ==> ';' !in urls[i])
              && TextSplit.Join(urls, ';') == QueryGet(q, "images").value
  {
    match QueryGet(q, "images")
    case None => []
    case Some(v) =>
      TextSplit.JoinSplit(v, ';');
      TextSplit.Split(v, ';')
  }

  /** The JSON text `{"count":n}`. */
  function JsonCount(n: nat): (s: string) {
    JsonPrefix + Decimal.Show(n) + "}"
  }

  /** The response reporting the post-increment `count`, in the representation `type` asks for. */
  function Represent(count: nat, q: Query, measure: string -> CounterImage.Size): (r: Response)
    ensures QueryGet(q, "type") == Some("json") ==>
              r == Response(200, "application/json", Text(JsonCount(count)))
    ensures QueryGet(q, "type") == Some("image") && |ImageUrls(q)| != 10 ==>
              r == Response(400, DefaultTextType, Text(InvalidImageCount))
    ensures QueryGet(q, "type") == Some("image") && |ImageUrls(q)| == 10 ==>
              && r.status == 200 && r.contentType == "image/png" && r.body.Png?
              && r.body.canvas == CounterImage.Render(count, ImageUrls(q), measure)
              && CounterImage.Glyphs(r.body.canvas) == Decimal.Digits(count)
    ensures QueryGet(q, "type") != Some("json") && QueryGet(q, "type") != Some("image") ==>
              r == Response(200, "text/plain", Text(Decimal.Show(count)))
  {
    var kind := QueryGet(q, "type");
    if kind == Some("json") then
      Response(200, "application/json", Text(JsonCount(count)))
    else if kind == Some("image") then
      var urls := ImageUrls(q);
      if |urls| != 10 then Response(400, DefaultTextType, Text(InvalidImageCount))
      else Response(200, "image/png", Png(CounterImage.Render(count, urls, measure)))
    else
      Response(200, "text/plain", Text(Decimal.Show(count)))
  }

  /**
   * One request. The root path answers with a fixed page; a counting request
   * reads the path's counter, writes back one more, and only then picks the
   * representation (so an image request with the wrong number of glyphs has
   * still been counted); any other method gets no response.
   */
  function Handle(store: Store, req: Request, measure: string -> CounterImage.Size): (step: Step)
    requires ReadableStore(store)
    ensures ReadableStore(step.store)
    ensures req.path == "/" ==> step == Step(store, Some(Response(200, "text/html", Text(RootPage))))
    ensures IsCounting(req) ==>
              var key := CounterKey.StoreKey(req.path);
              && step.store == Bump(store, key)
              && step.response == Some(Represent(StoredCount(step.store, key), req.query, measure))
    ensures !IsCounting(req) && req.path != "/" ==> step == Step(store, None)
  {
    if req.path == "/" then
      Step(store, Some(Response(200, "text/html", Text(RootPage))))
    else if IsCountingMethod(req.verb) then
      var key := CounterKey.StoreKey(req.path);
      var store' := Bump(store, key);
      Step(store', Some(Represent(StoredCount(store', key), req.query, measure)))
    else
      Step(store, None)
  }

  /** A request leaves the counter of every other path as it was. */
  lemma OtherPathsUntouched(store: Store, req: Request, path: string, measure: string -> CounterImage.Size)
    requires ReadableStore(store) && req.path != path
    ensures StoredCount(Handle(store, req, measure).store, CounterKey.StoreKey(path))
         == StoredCount(store, CounterKey.StoreKey(path))
  {
    CounterKey.StoreKeyInjective(req.path, path);
  }

  /** Reads the count back from the JSON text; None if the text is not of that shape. */
  function ReadJsonCount(s: string): (r: Option<nat>) {
    if |s| < |JsonPrefix| + 1 || s[..|JsonPrefix|] != JsonPrefix || s[|s| - 1] != '}' then None
    else Decimal.Parse(s[|JsonPrefix|..|s| - 1])
  }

  /** The number a successful response reports, read back from whichever representation it uses. */
  function ReportedCount(r: Response): (n: Option<nat>) {
    if r.status != 200 then None
    else
      match r.body
      case Png(canvas) => Some(Decimal.Value(CounterImage.Glyphs(canvas)))
      case Text(s) =>
        if r.contentType == "application/json" then ReadJsonCount(s)
        else if r.contentType == "text/plain" then Decimal.Parse(s)
        else None
  }

  /** The count written into the JSON body reads back unchanged. */
  lemma ReadJsonCountRoundTrip(n: nat)
    ensures ReadJsonCount(JsonCount(n)) == Some(n)
  {
    var s := JsonCount(n);
    assert s[..|JsonPrefix|] == JsonPrefix;
    assert s[|JsonPrefix|..|s| - 1] == Decimal.Show(n);
    Decimal.ParseShow(n);
  }

  /** The JSON, plain-text and image representations all report the same count. */
  lemma RepresentationsAgree(count: nat, q: Query, measure: string -> CounterImage.Size)
    ensures var r := Represent(count, q, measure);
            r.status == 200 ==> ReportedCount(r) == Some(count)
  {
    var kind := QueryGet(q, "type");
    if kind == Some("json") {
      ReadJsonCountRoundTrip(count);
    } else if kind != Some("image") {
      Decimal.ParseShow(count);
    }
  }

  /** An image request without exactly ten glyph URLs fails with 400, yet the count was still raised. */
  lemma BadGlyphCountStillCounts(store: Store, req: Request, measure: string -> CounterImage.Size)
    requires ReadableStore(store) && IsCounting(req)
    requires QueryGet(req.query, "type") == Some("image") && |ImageUrls(req.query)| != 10
    ensures var step := Handle(store, req, measure);
            && step.response == Some(Response(400, DefaultTextType, Text(InvalidImageCount)))
            && StoredCount(step.store, CounterKey.StoreKey(req.path))
               == StoredCount(store, CounterKey.StoreKey(req.path)) + 1
  {
  }

  /** The store after handling `reqs` one after another. */
  function Run(store: Store, reqs: seq<Request>, measure: string -> CounterImage.Size): (after: Store)
    requires ReadableStore(store)
    ensures ReadableStore(after)
    decreases |reqs|
  {
    if reqs == [] then store
    else Run(Handle(store, reqs[0], measure).store, reqs[1..], measure)
  }

  /** How many of `reqs` are counting requests for `path`. */
  function Hits(reqs: seq<Request>, path: string): (n: nat) {
    if reqs == [] then 0
    else (if reqs[0].path == path && IsCounting(reqs[0]) then 1 else 0) + Hits(reqs[1..], path)
  }

  /** Without concurrent interleavings, a path's counter grows by the number of counting requests for it. */
  lemma {:induction false} RunCounts(store: Store, reqs: seq<Request>, path: string, measure: string -> CounterImage.Size)
    requires ReadableStore(store)
    ensures StoredCount(Run(store, reqs, measure), CounterKey.StoreKey(path))
         == StoredCount(store, CounterKey.StoreKey(path)) + Hits(reqs, path)
    decreases |reqs|
  {
    if reqs != [] {
      var next := Handle(store, reqs[0], measure).store;
      if reqs[0].path == path {
      } else {
        OtherPathsUntouched(store, reqs[0], path, measure);
      }
      RunCounts(next, reqs[1..], path, measure);
    }
  }

  /**
   * The N-th counting request for a path whose counter did not exist is
   * answered with the representation of N, whatever other requests came between.
   */
  lemma NthRequestAnswersN(store: Store, reqs: seq<Request>, req: Request, measure: string -> CounterImage.Size)
    requires ReadableStore(store) && IsCounting(req)
    requires CounterKey.StoreKey(req.path) !in store
    ensures Handle(Run(store, reqs, measure), req, measure).response
         == Some(Represent(Hits(reqs, req.path) + 1, req.query, measure))
  {
    RunCounts(store, reqs, req.path, measure);
  }
}
