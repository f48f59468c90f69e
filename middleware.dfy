/**
 * The request side: `parseRequest`, which reads the htmx request headers into
 * an `HTMXRequest`, and `Middleware`, which hands every request to the next
 * handler, decorated with the parsed record when there is one.
 */
module Middleware {
  import opened Wrappers
  import opened Text
  import opened Http
  import opened Contexts
  import opened Headers
  import opened Types

  /** `strings.TrimSpace(r.Header.Get(name.String()))`. */
  function Field(h: HeaderMap, name: HTMXRequestHeader): (v: string)
    ensures Trimmed(v)
    ensures FirstValue(h, name.String()) == "" ==> v == ""
  {
    TrimSpace(FirstValue(h, name.String()))
  }

  /** Whether every string field of `hr` has no white space at either end. */
  predicate AllTrimmed(hr: HTMXRequest) {
    Trimmed(hr.currentURL) && Trimmed(hr.prompt) && Trimmed(hr.target)
    && Trimmed(hr.triggerName) && Trimmed(hr.trigger)
  }

  /**
   * `parseRequest`: nothing unless the trimmed `HX-Request` value is exactly
   * "true"; otherwise a record whose flags test their trimmed header value
   * against "true" and whose strings are the trimmed header values. It never
   * fails.
   */
  function ParseRequest(h: HeaderMap): (r: Option<HTMXRequest>)
    ensures r.Some? <==> Field(h, HXRequestHeader) == "true"
    ensures r.Some? ==> AllTrimmed(r.value)
  {
    if Field(h, HXRequestHeader) != "true" then None
    else Some(HTMXRequest(
      boosted := Field(h, BoostedRequest) == "true",
      currentURL := Field(h, CurrentURLRequest),
      historyRestore := Field(h, HistoryRestoreRequest) == "true",
      prompt := Field(h, PromptRequest),
      target := Field(h, TargetRequest),
      triggerName := Field(h, TriggerNameRequest),
      trigger := Field(h, TriggerRequest)))
  }

  /** A request with no headers at all is not an htmx request. */
  lemma NoHeadersNotParsed()
    ensures ParseRequest(map[]) == None
  {
    assert Field(map[], HXRequestHeader) == "";
  }

  /** The marker is matched case-sensitively after trimming: "True" is refused, " true\n" accepted. */
  lemma MarkerCaseSensitive(h: HeaderMap)
    ensures FirstValue(h, HXRequestHeader.String()) == "True" ==> ParseRequest(h) == None
    ensures FirstValue(h, HXRequestHeader.String()) == " true\n" ==> ParseRequest(h).Some?
  {
    TrimSpaceKeeps("True");
    var padded := " true\n";
    if FirstValue(h, HXRequestHeader.String()) == padded {
      assert TrimLeft(padded) == TrimLeft(padded[1..]);
      assert padded[1..] == "true\n";
      assert TrimLeft("true\n") == "true\n";
      assert TrimRight("true\n") == TrimRight("true");
      TrimSpaceKeeps("true");
    }
  }

  /** Whether header `name` carries no value. */
  predicate Absent(h: HeaderMap, name: HTMXRequestHeader) {
    FirstValue(h, name.String()) == ""
  }

  /**
   * With the marker set and no other htmx header present, the record has both
   * flags false and every string empty.
   */
  lemma MarkerOnly(h: HeaderMap)
    requires Field(h, HXRequestHeader) == "true"
    requires forall i :: 1 <= i < |RequestHeaders| ==> Absent(h, RequestHeaders[i])
    ensures ParseRequest(h) == Some(HTMXRequest(false, "", false, "", "", "", ""))
  {
    assert Absent(h, RequestHeaders[1]) && Absent(h, RequestHeaders[2]) && Absent(h, RequestHeaders[3]);
    assert Absent(h, RequestHeaders[4]) && Absent(h, RequestHeaders[5]) && Absent(h, RequestHeaders[6]);
    assert Absent(h, RequestHeaders[7]);
  }

  /** The record the package's own tests send in full. */
  const FullRecord := HTMXRequest(
    boosted := true,
    currentURL := "localhost",
    historyRestore := true,
    prompt := "did you do it?",
    target := "target-div",
    triggerName := "thing-id",
    trigger := "add-thing")

  /** Header values sent for `FullRecord`, and the record is read back from them. */
  lemma FullRequestParsed(h: HeaderMap)
    requires FirstValue(h, HXRequestHeader.String()) == "true"
    requires FirstValue(h, BoostedRequest.String()) == "true"
    requires FirstValue(h, CurrentURLRequest.String()) == "localhost"
    requires FirstValue(h, HistoryRestoreRequest.String()) == "true"
    requires FirstValue(h, PromptRequest.String()) == "did you do it?"
    requires FirstValue(h, TriggerRequest.String()) == "add-thing"
    requires FirstValue(h, TargetRequest.String()) == "target-div"
    requires FirstValue(h, TriggerNameRequest.String()) == "thing-id"
    ensures ParseRequest(h) == Some(FullRecord)
  {
    TrimSpaceKeeps("true");
    TrimSpaceKeeps("localhost");
    TrimSpaceKeeps("did you do it?");
    TrimSpaceKeeps("add-thing");
    TrimSpaceKeeps("target-div");
    TrimSpaceKeeps("thing-id");
    assert Field(h, HXRequestHeader) == "true" && Field(h, BoostedRequest) == "true";
    assert Field(h, HistoryRestoreRequest) == "true";
  }

  /** Parsing looks at nothing but the first values of the eight request headers. */
  lemma ParseDependsOnRequestHeaders(h: HeaderMap, g: HeaderMap)
    requires forall i :: 0 <= i < |RequestHeaders| ==>
      FirstValue(h, RequestHeaders[i].String()) == FirstValue(g, RequestHeaders[i].String())
    ensures ParseRequest(h) == ParseRequest(g)
  {
    assert FirstValue(h, RequestHeaders[0].String()) == FirstValue(g, RequestHeaders[0].String());
    assert FirstValue(h, RequestHeaders[1].String()) == FirstValue(g, RequestHeaders[1].String());
    assert FirstValue(h, RequestHeaders[2].String()) == FirstValue(g, RequestHeaders[2].String());
    assert FirstValue(h, RequestHeaders[3].String()) == FirstValue(g, RequestHeaders[3].String());
    assert FirstValue(h, RequestHeaders[4].String()) == FirstValue(g, RequestHeaders[4].String());
    assert FirstValue(h, RequestHeaders[5].String()) == FirstValue(g, RequestHeaders[5].String());
    assert FirstValue(h, RequestHeaders[6].String()) == FirstValue(g, RequestHeaders[6].String());
    assert FirstValue(h, RequestHeaders[7].String()) == FirstValue(g, RequestHeaders[7].String());
  }

  /**
   * The request the next handler receives: the request itself when parsing
   * gives nothing, otherwise the same request (same header collection) with
   * the record attached to its context.
   */
  function Forwarded(r: Request): (f: Request)
    reads r.header
    ensures f.header == r.header
  {
    match ParseRequest(r.header.entries)
    case None => r
    case Some(hr) => Request(r.header, ToContext(hr, Some(r.ctx)))
  }

  /** When parsing gives nothing, the request is passed on unchanged. */
  lemma BypassUnchanged(r: Request)
    requires ParseRequest(r.header.entries) == None
    ensures Forwarded(r) == r
    ensures RequestFromContext(r.ctx) == None ==> RequestFromContext(Forwarded(r).ctx) == None
  {
  }

  /**
   * When parsing succeeds, the next handler finds the parsed record in its
   * request's context, and every other key of the original context still
   * resolves as before.
   */
  lemma DecoratedCarriesRecord(r: Request)
    requires ParseRequest(r.header.entries).Some?
    ensures RequestFromContext(Forwarded(r).ctx) == ParseRequest(r.header.entries)
    ensures forall k :: k != RequestContextKey ==> Value(Forwarded(r).ctx, k) == Value(r.ctx, k)
  {
  }

  /** The next handler: it records every request it is given, in order. */
  class Handler {
    var received: seq<Request>

    constructor ()
      ensures received == []
    {
      received := [];
    }

    /** `ServeHTTP`. */
    method ServeHTTP(r: Request)
      modifies this
      ensures received == old(received) + [r]
    {
      received := received + [r];
    }
  }

  /**
   * The handler `Middleware(next)` returns, applied to `r`: `next` is called
   * exactly once, with `Forwarded(r)`.
   */
  method Serve(next: Handler, r: Request)
    modifies next
    ensures next.received == old(next.received) + [old(Forwarded(r))]
  {
    var res := ParseRequest(r.header.entries);
    if res.Some? {
      var ctx := ToContext(res.value, Some(r.ctx));
      next.ServeHTTP(Request(r.header, ctx));
      return;
    }
    next.ServeHTTP(r);
  }

  /** The headers the package's middleware test sends, in the order it adds them. */
  const Sent: seq<(HTMXRequestHeader, string)> := [
    (HXRequestHeader, "true"), (BoostedRequest, "true"), (CurrentURLRequest, "localhost"),
    (HistoryRestoreRequest, "true"), (PromptRequest, "did you do it?"), (TriggerRequest, "add-thing"),
    (TargetRequest, "target-div"), (TriggerNameRequest, "thing-id")]

  /** The first `n` headers of `Sent` are in `h` with their values; the others are not in `h` at all. */
  ghost predicate SentUpTo(h: HeaderMap, n: nat) {
    && (forall i :: 0 <= i < n && i < |Sent| ==> FirstValue(h, Sent[i].0.String()) == Sent[i].1)
    && (forall i :: n <= i < |Sent| ==> Canonical(Sent[i].0.String()) !in h)
  }

  /** Adding the next header of `Sent` extends what has been sent by one. */
  lemma SendNext(h: HeaderMap, n: nat)
    requires n < |Sent| && SentUpTo(h, n)
    ensures SentUpTo(Append(h, Sent[n].0.String(), Sent[n].1), n + 1)
  {
    var name := Sent[n].0.String();
    forall i | 0 <= i < |Sent| && i != n
      ensures Canonical(Sent[i].0.String()) != Canonical(name)
    {
      DistinctCanonical(Sent[i].0.String(), name);
    }
    forall i | 0 <= i <= n
      ensures FirstValue(Append(h, name, Sent[n].1), Sent[i].0.String()) == Sent[i].1
    {
      GetAfterAdd(h, name, Sent[n].1, Sent[i].0.String());
    }
  }

  /** Once every header of `Sent` is in, the request parses to `FullRecord`. */
  lemma SentParsed(h: HeaderMap)
    requires SentUpTo(h, |Sent|)
    ensures ParseRequest(h) == Some(FullRecord)
  {
    assert FirstValue(h, Sent[0].0.String()) == Sent[0].1;
    assert FirstValue(h, Sent[1].0.String()) == Sent[1].1;
    assert FirstValue(h, Sent[2].0.String()) == Sent[2].1;
    assert FirstValue(h, Sent[3].0.String()) == Sent[3].1;
    assert FirstValue(h, Sent[4].0.String()) == Sent[4].1;
    assert FirstValue(h, Sent[5].0.String()) == Sent[5].1;
    assert FirstValue(h, Sent[6].0.String()) == Sent[6].1;
    assert FirstValue(h, Sent[7].0.String()) == Sent[7].1;
    FullRequestParsed(h);
  }

  /** The header writes of the package's middleware test, on a request that had no headers. */
  method SendFullRequest(header: Header)
    requires header.entries == map[]
    modifies header
    ensures ParseRequest(header.entries) == Some(FullRecord)
  {
    SendNext(header.entries, 0);
    header.Set(Sent[0].0.String(), Sent[0].1);
    SendNext(header.entries, 1);
    header.Add(Sent[1].0.String(), Sent[1].1);
    SendNext(header.entries, 2);
    header.Add(Sent[2].0.String(), Sent[2].1);
    SendNext(header.entries, 3);
    header.Add(Sent[3].0.String(), Sent[3].1);
    SendNext(header.entries, 4);
    header.Add(Sent[4].0.String(), Sent[4].1);
    SendNext(header.entries, 5);
    header.Add(Sent[5].0.String(), Sent[5].1);
    SendNext(header.entries, 6);
    header.Add(Sent[6].0.String(), Sent[6].1);
    SendNext(header.entries, 7);
    header.Add(Sent[7].0.String(), Sent[7].1);
    SentParsed(header.entries);
  }

  /**
   * The middleware round of the package's tests: a plain request reaches the
   * handler with no record in its context; the same request with the htmx
   * headers added reaches it with the full record.
   */
  method MiddlewareScenario() returns (first: Option<HTMXRequest>, second: Option<HTMXRequest>)
    ensures first == None
    ensures second == Some(FullRecord)
  {
    var next := new Handler();
    var header := new Header(map[]);
    var req := Request(header, Background);
    NoHeadersNotParsed();
    BypassUnchanged(req);
    Serve(next, req);
    first := RequestFromContext(next.received[0].ctx);

    SendFullRequest(header);
    DecoratedCarriesRecord(req);
    Serve(next, req);
    second := RequestFromContext(next.received[1].ctx);
  }
}
