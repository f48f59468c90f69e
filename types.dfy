/**
 * The parsed htmx request record, the context carrier that attaches it to a
 * request context, and the strict merge `AddHeaders`.
 */
module Types {
  import opened Wrappers
  import opened Text
  import opened Http
  import opened Contexts
  import opened Headers

  /** `HTMXRequest`: the htmx fields of one inbound request; string fields may be empty. */
  datatype HTMXRequest = HTMXRequest(
    boosted: bool,
    currentURL: string,
    historyRestore: bool,
    prompt: string,
    target: string,
    triggerName: string,
    trigger: string)

  /**
   * Context keys: the package's private `requestContextKey`, or a key of some
   * other package, which can never equal it because its Go type differs.
   */
  datatype Key = RequestContextKey | ForeignKey(id: int)

  /** Context values: a request record, or anything else stored by other code. */
  datatype ContextValue = RequestValue(req: HTMXRequest) | ForeignValue(id: int)

  type RequestContext = Context<Key, ContextValue>

  /** An inbound request: its (shared, mutable) header collection and its context. */
  datatype Request = Request(header: Header, ctx: RequestContext)

  /**
   * `ToContext`: derive a context that carries `hr` under the private key. A
   * nil parent (`None`) is replaced by a fresh empty context.
   */
  function ToContext(hr: HTMXRequest, parent: Option<RequestContext>): (ctx: RequestContext)
    ensures ctx.WithValue? && ctx.parent == (if parent.Some? then parent.value else TODO)
    ensures RequestFromContext(ctx) == Some(hr)
    ensures forall k :: k != RequestContextKey ==> Value(ctx, k) == Value(ctx.parent, k)
  {
    var base := if parent.Some? then parent.value else TODO;
    WithValue(base, RequestContextKey, RequestValue(hr))
  }

  /**
   * `RequestFromContext`: the record under the private key, or `None` when the
   * key is unbound or holds something that is not a request record.
   */
  function RequestFromContext(ctx: RequestContext): (r: Option<HTMXRequest>)
    ensures r.Some? ==> Binds(ctx, RequestContextKey)
  {
    var found: Option<ContextValue> := Value(ctx, RequestContextKey);
    match found
    case Some(RequestValue(req)) => Some(req)
    case _ => None
  }

  /** Attaching and then retrieving gives back the very record attached, whatever the parent held. */
  lemma ContextRoundTrip(hr: HTMXRequest, parent: Option<RequestContext>)
    ensures RequestFromContext(ToContext(hr, parent)) == Some(hr)
    ensures parent.None? ==> ToContext(hr, parent) == WithValue(TODO, RequestContextKey, RequestValue(hr))
  {
  }

  /** A context chain on which nothing was ever attached under the private key yields no record. */
  lemma NothingAttached(ctx: RequestContext)
    requires forall k :: k in Keys(ctx) ==> k != RequestContextKey
    ensures RequestFromContext(ctx) == None
  {
    assert RequestContextKey !in Keys(ctx);
  }

  /** Every key bound anywhere on the chain. */
  function Keys(ctx: RequestContext): (ks: set<Key>)
    ensures forall k :: k in ks <==> Binds(ctx, k)
  {
    match ctx
    case WithValue(parent, k, _) => {k} + Keys(parent)
    case _ => {}
  }

  /*
   * The strict header merge. `AddHeaders` walks its maps in order and each map
   * in an order Go leaves unspecified; `StrictMerge` gives the outcome of one
   * such walk, as a flat list of (header, value) entries.
   */

  /** The error `AddHeaders` returns: "header already set: <name>: <value>". */
  datatype Error = HeaderAlreadySet(name: string, value: string)

  type Entry = (HTMXResponseHeader, string)

  /** The canonical names of all headers in `es`. */
  ghost function NamesOf(es: seq<Entry>): (names: set<string>) {
    set i | 0 <= i < |es| :: Canonical(es[i].0.String())
  }

  /**
   * Write the entries one by one; the first whose header already holds a
   * non-blank value stops the walk with an error, and the writes before it stay.
   */
  function StrictMerge(h: HeaderMap, es: seq<Entry>): (r: (HeaderMap, Option<Error>))
    decreases |es|
  {
    if es == [] then (h, None)
    else
      var (k, v) := es[0];
      if !IsBlank(FirstValue(h, k.String())) then (h, Some(HeaderAlreadySet(k.String(), v)))
      else StrictMerge(Replace(h, k.String(), v), es[1..])
  }

  /** The names of a non-empty list: its first entry's, then the rest's. */
  lemma NamesOfCons(es: seq<Entry>)
    requires es != []
    ensures NamesOf(es) == {Canonical(es[0].0.String())} + NamesOf(es[1..])
  {
    forall n | n in NamesOf(es[1..]) ensures n in NamesOf(es) {
      var i :| 0 <= i < |es[1..]| && n == Canonical(es[1..][i].0.String());
      assert es[1..][i] == es[i + 1];
    }
    forall n | n in NamesOf(es) ensures n == Canonical(es[0].0.String()) || n in NamesOf(es[1..]) {
      var i :| 0 <= i < |es| && n == Canonical(es[i].0.String());
      if i > 0 { assert es[i] == es[1..][i - 1]; }
    }
  }

  /** The walk touches only the headers its entries name; every other header keeps all its values. */
  lemma {:induction false} StrictMergeFrame(h: HeaderMap, es: seq<Entry>, n: string)
    requires n !in NamesOf(es)
    ensures n in StrictMerge(h, es).0 <==> n in h
    ensures n in h ==> StrictMerge(h, es).0[n] == h[n]
    decreases |es|
  {
    if es != [] {
      var (k, v) := es[0];
      NamesOfCons(es);
      if IsBlank(FirstValue(h, k.String())) {
        StrictMergeFrame(Replace(h, k.String(), v), es[1..], n);
      }
    }
  }

  /** A walk over `a + b` is the walk over `a`, then, unless that failed, the walk over `b` from where it left off. */
  lemma {:induction false} StrictMergeAppend(h: HeaderMap, a: seq<Entry>, b: seq<Entry>)
    ensures StrictMerge(h, a + b) ==
      (var o := StrictMerge(h, a); if o.1.Some? then o else StrictMerge(o.0, b))
    decreases |a|
  {
    if a == [] {
      assert a + b == b;
    } else {
      assert (a + b)[0] == a[0];
      assert (a + b)[1..] == a[1..] + b;
      var (k, v) := a[0];
      if IsBlank(FirstValue(h, k.String())) {
        StrictMergeAppend(Replace(h, k.String(), v), a[1..], b);
      }
    }
  }

  /**
   * The walk stops at the first conflict: with `pre` written without error
   * and the next header already non-blank, the result is the error for that
   * entry, the writes of `pre` are kept (no rollback), and `post` is never looked at.
   */
  lemma StopsAtFirstConflict(h: HeaderMap, pre: seq<Entry>, k: HTMXResponseHeader, v: string, post: seq<Entry>)
    requires StrictMerge(h, pre).1.None?
    requires !IsBlank(FirstValue(StrictMerge(h, pre).0, k.String()))
    ensures StrictMerge(h, pre + [(k, v)] + post) == (StrictMerge(h, pre).0, Some(HeaderAlreadySet(k.String(), v)))
  {
    assert pre + [(k, v)] + post == pre + ([(k, v)] + post);
    StrictMergeAppend(h, pre, [(k, v)] + post);
    assert ([(k, v)] + post)[0] == (k, v);
  }

  /** A header that already holds a non-blank value before the call makes the walk fail, whatever the order. */
  lemma {:induction false} ExistingValueConflicts(h: HeaderMap, es: seq<Entry>, i: nat)
    requires i < |es| && !IsBlank(FirstValue(h, es[i].0.String()))
    ensures StrictMerge(h, es).1.Some?
    decreases |es|
  {
    var (k, v) := es[0];
    if IsBlank(FirstValue(h, k.String())) {
      assert i > 0;
      assert Canonical(k.String()) != Canonical(es[i].0.String());
      ExistingValueConflicts(Replace(h, k.String(), v), es[1..], i - 1);
    }
  }

  /**
   * A walk that ends without error has written every entry: each header of
   * the list holds exactly one value, and an entry with a non-blank value
   * holds exactly that value.
   */
  lemma {:induction false} SuccessWritesAll(h: HeaderMap, es: seq<Entry>, i: nat)
    requires i < |es| && StrictMerge(h, es).1.None?
    ensures var n := Canonical(es[i].0.String()); n in StrictMerge(h, es).0 && |StrictMerge(h, es).0[n]| == 1
    ensures !IsBlank(es[i].1) ==> FirstValue(StrictMerge(h, es).0, es[i].0.String()) == es[i].1
    decreases |es|
  {
    var (k, v) := es[0];
    var h' := Replace(h, k.String(), v);
    assert StrictMerge(h, es) == StrictMerge(h', es[1..]);
    if i > 0 {
      SuccessWritesAll(h', es[1..], i - 1);
    } else {
      var n := Canonical(k.String());
      if n !in NamesOf(es[1..]) {
        StrictMergeFrame(h', es[1..], n);
      } else {
        var j :| 0 <= j < |es[1..]| && n == Canonical(es[1..][j].0.String());
        if !IsBlank(v) {
          assert FirstValue(h', es[1..][j].0.String()) == v;
          ExistingValueConflicts(h', es[1..], j);
          assert false;
        }
        SuccessWritesAll(h', es[1..], j);
      }
    }
  }

  /**
   * When no header of the list holds a non-blank value yet and no two entries
   * name the same header, the walk succeeds, in any order.
   */
  lemma {:induction false} FreshNamesSucceed(h: HeaderMap, es: seq<Entry>)
    requires forall i :: 0 <= i < |es| ==> IsBlank(FirstValue(h, es[i].0.String()))
    requires forall i, j :: 0 <= i < j < |es| ==> Canonical(es[i].0.String()) != Canonical(es[j].0.String())
    ensures StrictMerge(h, es).1 == None
    decreases |es|
  {
    if es != [] {
      var (k, v) := es[0];
      var h' := Replace(h, k.String(), v);
      assert IsBlank(FirstValue(h, k.String()));
      assert StrictMerge(h, es) == StrictMerge(h', es[1..]);
      forall i | 0 <= i < |es[1..]| ensures IsBlank(FirstValue(h', es[1..][i].0.String())) {
        assert es[1..][i] == es[i + 1];
        assert Canonical(es[0].0.String()) != Canonical(es[i + 1].0.String());
        GetAfterSet(h, k.String(), v, es[i + 1].0.String());
      }
      forall i, j | 0 <= i < j < |es[1..]|
        ensures Canonical(es[1..][i].0.String()) != Canonical(es[1..][j].0.String())
      {
        assert es[1..][i] == es[i + 1] && es[1..][j] == es[j + 1];
      }
      FreshNamesSucceed(h', es[1..]);
    }
  }

  /** A single entry: written when its header is blank, otherwise the call fails and nothing changes. */
  lemma MergeOne(h: HeaderMap, k: HTMXResponseHeader, v: string)
    ensures StrictMerge(h, [(k, v)]) ==
      if !IsBlank(FirstValue(h, k.String())) then (h, Some(HeaderAlreadySet(k.String(), v)))
      else (Replace(h, k.String(), v), None)
  {
    assert [(k, v)][1..] == [];
  }

  /** Extending a walk that has not failed by one entry: the entry is written, or it is the conflict. */
  lemma MergeStep(h: HeaderMap, es: seq<Entry>, k: HTMXResponseHeader, v: string)
    requires StrictMerge(h, es).1.None?
    ensures var cur := StrictMerge(h, es).0;
      StrictMerge(h, es + [(k, v)]) ==
        if !IsBlank(FirstValue(cur, k.String())) then (cur, Some(HeaderAlreadySet(k.String(), v)))
        else (Replace(cur, k.String(), v), None)
  {
    StrictMergeAppend(h, es, [(k, v)]);
    MergeOne(StrictMerge(h, es).0, k, v);
  }

  /** A header holding only white space counts as unset: it is overwritten without error. */
  lemma WhitespaceOverwritten(h: HeaderMap, k: HTMXResponseHeader, v: string)
    requires IsBlank(FirstValue(h, k.String()))
    ensures StrictMerge(h, [(k, v)]) == (Replace(h, k.String(), v), None)
  {
    MergeOne(h, k, v);
  }

  /**
   * Two merges of the same header with non-blank values: the first succeeds,
   * the second fails with "header already set", and the first value stays.
   */
  lemma SecondMergeConflicts(h: HeaderMap, k: HTMXResponseHeader, v1: string, v2: string)
    requires IsBlank(FirstValue(h, k.String()))
    requires !IsBlank(v1)
    ensures StrictMerge(h, [(k, v1)]).1 == None
    ensures var h1 := StrictMerge(h, [(k, v1)]).0;
      && StrictMerge(h1, [(k, v2)]) == (h1, Some(HeaderAlreadySet(k.String(), v2)))
      && FirstValue(h1, k.String()) == v1
  {
    MergeOne(h, k, v1);
    var h1 := Replace(h, k.String(), v1);
    assert FirstValue(h1, k.String()) == v1;
    MergeOne(h1, k, v2);
  }

  /** Entries drawn from `m`, each key at most once, with the value `m` gives it. */
  ghost predicate DrawnFrom(es: seq<Entry>, m: map<HTMXResponseHeader, string>) {
    && (forall i :: 0 <= i < |es| ==> es[i].0 in m && es[i].1 == m[es[i].0])
    && (forall i, j :: 0 <= i < j < |es| ==> es[i].0 != es[j].0)
  }

  /** The keys the entries cover. */
  ghost function KeysOf(es: seq<Entry>): (ks: set<HTMXResponseHeader>) {
    set i | 0 <= i < |es| :: es[i].0
  }

  /** Drawing one more, not yet drawn key of `m` keeps the entries a draw from `m`. */
  lemma DrawOne(es: seq<Entry>, m: map<HTMXResponseHeader, string>, k: HTMXResponseHeader)
    requires DrawnFrom(es, m) && k in m && k !in KeysOf(es)
    ensures DrawnFrom(es + [(k, m[k])], m)
    ensures KeysOf(es + [(k, m[k])]) == KeysOf(es) + {k}
  {
    var es' := es + [(k, m[k])];
    forall i | 0 <= i < |es| ensures es'[i] == es[i] && es[i].0 != k {
      assert es[i].0 in KeysOf(es);
    }
    assert es'[|es|] == (k, m[k]);
  }

  /** The entries of several walks, one after another. */
  ghost function Flatten(parts: seq<seq<Entry>>): (es: seq<Entry>) {
    if parts == [] then [] else Flatten(parts[..|parts| - 1]) + parts[|parts| - 1]
  }

  /**
   * `AddHeaders`: write every (header, value) of every map into the request's
   * headers, failing with "header already set" on the first header that
   * already holds a non-blank value. `parts[i]` is the order in which map `i`
   * was walked; the walk stops early on a conflict.
   */
  method AddHeaders(r: Request, headers: seq<map<HTMXResponseHeader, string>>)
    returns (err: Option<Error>, ghost parts: seq<seq<Entry>>)
    modifies r.header
    ensures (r.header.entries, err) == StrictMerge(old(r.header.entries), Flatten(parts))
    ensures |parts| <= |headers|
    ensures forall i :: 0 <= i < |parts| ==> DrawnFrom(parts[i], headers[i])
    ensures forall i :: 0 <= i < |parts| - 1 ==> KeysOf(parts[i]) == headers[i].Keys
    ensures err.Some? ==> parts != []
    ensures err.None? ==> |parts| == |headers| && forall i :: 0 <= i < |parts| ==> KeysOf(parts[i]) == headers[i].Keys
  {
    ghost var start := r.header.entries;
    parts := [];
    var i := 0;
    while i < |headers|
      invariant 0 <= i <= |headers| && |parts| == i
      invariant forall j :: 0 <= j < i ==> DrawnFrom(parts[j], headers[j]) && KeysOf(parts[j]) == headers[j].Keys
      invariant StrictMerge(start, Flatten(parts)) == (r.header.entries, None)
    {
      var e;
      ghost var done;
      e, done := AddMap(r.header, headers[i], start, Flatten(parts));
      assert Flatten(parts + [done]) == Flatten(parts) + done by {
        assert (parts + [done])[..|parts|] == parts;
      }
      parts := parts + [done];
      if e.Some? {
        err := e;
        return;
      }
      i := i + 1;
    }
    err := None;
  }

  /**
   * The inner loop of `AddHeaders`: walk one map in an arbitrary order,
   * continuing the walk `before` that started from `start`.
   */
  method AddMap(header: Header, m: map<HTMXResponseHeader, string>, ghost start: HeaderMap, ghost before: seq<Entry>)
    returns (err: Option<Error>, ghost done: seq<Entry>)
    requires StrictMerge(start, before) == (header.entries, None)
    modifies header
    ensures StrictMerge(start, before + done) == (header.entries, err)
    ensures DrawnFrom(done, m)
    ensures err.None? ==> KeysOf(done) == m.Keys
  {
    var rest := m;
    done := [];
    assert before + done == before;
    while rest != map[]
      invariant rest.Keys <= m.Keys && (forall k :: k in rest ==> rest[k] == m[k])
      invariant DrawnFrom(done, m) && KeysOf(done) == m.Keys - rest.Keys
      invariant StrictMerge(start, before + done) == (header.entries, None)
      decreases rest.Keys
    {
      var k :| k in rest;
      var v := rest[k];
      DrawOne(done, m, k);
      MergeStep(start, before + done, k, v);
      BlankIffAllSpace(FirstValue(header.entries, k.String()));
      assert before + done + [(k, v)] == before + (done + [(k, v)]);
      if TrimSpace(FirstValue(header.entries, k.String())) != "" {
        err := Some(HeaderAlreadySet(k.String(), v));
        done := done + [(k, v)];
        return;
      }
      header.Set(k.String(), v);
      done := done + [(k, v)];
      rest := rest - {k};
    }
    err := None;
  }
}
