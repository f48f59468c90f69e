/**
 * The htmx response record and its serialisation into response headers
 * (`HTMXResponse.AddToResponse`).
 */
module Response {
  import opened Wrappers
  import opened Text
  import opened Http
  import opened Headers
  import opened Swap

  /** `HTMXResponse`: what a handler wants to tell the htmx client. */
  datatype HTMXResponse = HTMXResponse(
    location: string,
    pushURL: string,
    redirect: string,
    refresh: bool,
    replaceURL: string,
    reswap: HXSwap,
    trigger: string,
    triggerAfterSettle: string,
    triggerAfterSwap: string)

  /** The record whose every field is at its zero value. */
  const Zero := HTMXResponse("", "", "", false, "", SwapUnknown, "", "", "")

  /** One candidate header of a response: whether it is written, its name, and the value written. */
  type Field = (bool, HTMXResponseHeader, string)

  /** The number of candidate headers. */
  const FieldCount := 9

  /**
   * The `i`th candidate header of `hr`, in the order `AddToResponse` visits
   * them: a string field is written when it is not blank, `HX-Refresh` as
   * "true" when `refresh` holds, and `HX-Reswap` when `reswap` is not zero.
   */
  function FieldAt(hr: HTMXResponse, i: nat): (f: Field)
    requires i < FieldCount
  {
    match i
    case 0 => (!IsBlank(hr.location), LocationResponse, hr.location)
    case 1 => (!IsBlank(hr.pushURL), PushURLResponse, hr.pushURL)
    case 2 => (!IsBlank(hr.redirect), RedirectResponse, hr.redirect)
    case 3 => (hr.refresh, RefreshResponse, "true")
    case 4 => (!IsBlank(hr.replaceURL), ReplaceURLResponse, hr.replaceURL)
    case 5 => (!IsBlank(hr.trigger), TriggerResponse, hr.trigger)
    case 6 => (!IsBlank(hr.triggerAfterSettle), TriggerAfterSettleResponse, hr.triggerAfterSettle)
    case 7 => (hr.reswap != 0, ReswapResponse, String(hr.reswap))
    case 8 => (!IsBlank(hr.triggerAfterSwap), TriggerAfterSwapResponse, hr.triggerAfterSwap)
  }

  /** `fields` with the header of `f` added when `f` is to be written. */
  function Emit(f: Field, fields: map<string, string>): (r: map<string, string>) {
    if f.0 then fields[Canonical(f.1.String()) := f.2] else fields
  }

  /** The headers the first `n` candidates of `hr` produce, by canonical name. */
  function Collect(hr: HTMXResponse, n: nat): (r: map<string, string>)
    requires n <= FieldCount
  {
    if n == 0 then map[] else Emit(FieldAt(hr, n - 1), Collect(hr, n - 1))
  }

  /** The headers a response record stands for, by canonical name. */
  function Serialized(hr: HTMXResponse): (r: map<string, string>) {
    Collect(hr, FieldCount)
  }

  /** Header map `h` once every serialised header has been `Set`: each holds its one value, the rest are as they were. */
  function WriteAll(h: HeaderMap, fields: map<string, string>): (r: HeaderMap)
    ensures r.Keys == h.Keys + fields.Keys
    ensures forall n :: n in fields ==> r[n] == [fields[n]]
    ensures forall n :: n in h && n !in fields ==> r[n] == h[n]
  {
    h + map n | n in fields :: [fields[n]]
  }

  /** Setting one more header is writing one more field. */
  lemma WriteOneMore(h: HeaderMap, fields: map<string, string>, name: HTMXResponseHeader, value: string)
    ensures WriteAll(h, fields)[Canonical(name.String()) := [value]]
      == WriteAll(h, fields[Canonical(name.String()) := value])
  {
    var k := Canonical(name.String());
    var l := WriteAll(h, fields)[k := [value]];
    var r := WriteAll(h, fields[k := value]);
    assert l.Keys == r.Keys;
    forall n | n in l
      ensures l[n] == r[n]
    {
    }
  }

  /** The candidates of `hr`, one by one (so that each step of `AddToResponse` can name its own). */
  lemma FieldsOf(hr: HTMXResponse)
    ensures FieldAt(hr, 0) == (!IsBlank(hr.location), LocationResponse, hr.location)
    ensures FieldAt(hr, 1) == (!IsBlank(hr.pushURL), PushURLResponse, hr.pushURL)
    ensures FieldAt(hr, 2) == (!IsBlank(hr.redirect), RedirectResponse, hr.redirect)
    ensures FieldAt(hr, 3) == (hr.refresh, RefreshResponse, "true")
    ensures FieldAt(hr, 4) == (!IsBlank(hr.replaceURL), ReplaceURLResponse, hr.replaceURL)
    ensures FieldAt(hr, 5) == (!IsBlank(hr.trigger), TriggerResponse, hr.trigger)
    ensures FieldAt(hr, 6) == (!IsBlank(hr.triggerAfterSettle), TriggerAfterSettleResponse, hr.triggerAfterSettle)
    ensures FieldAt(hr, 7) == (hr.reswap != 0, ReswapResponse, String(hr.reswap))
    ensures FieldAt(hr, 8) == (!IsBlank(hr.triggerAfterSwap), TriggerAfterSwapResponse, hr.triggerAfterSwap)
  {
  }

  /**
   * One `if … { header.Set(…) }` step of `AddToResponse`: the `i`th candidate
   * of `hr`, whose test has evaluated to `present`, is `Set` when it holds.
   */
  method SetWhen(header: Header, present: bool, name: HTMXResponseHeader, value: string,
                 ghost hr: HTMXResponse, ghost i: nat, ghost start: HeaderMap)
    requires i < FieldCount && FieldAt(hr, i) == (present, name, value)
    requires header.entries == WriteAll(start, Collect(hr, i))
    modifies header
    ensures header.entries == WriteAll(start, Collect(hr, i + 1))
  {
    if present {
      WriteOneMore(start, Collect(hr, i), name, value);
      header.Set(name.String(), value);
    }
  }

  /** An `if strings.TrimSpace(value) != "" { header.Set(…) }` step of `AddToResponse`. */
  method SetIfNotBlank(header: Header, name: HTMXResponseHeader, value: string,
                       ghost hr: HTMXResponse, ghost i: nat, ghost start: HeaderMap)
    requires i < FieldCount && FieldAt(hr, i) == (!IsBlank(value), name, value)
    requires header.entries == WriteAll(start, Collect(hr, i))
    modifies header
    ensures header.entries == WriteAll(start, Collect(hr, i + 1))
  {
    BlankIffAllSpace(value);
    SetWhen(header, TrimSpace(value) != "", name, value, hr, i, start);
  }

  /**
   * `AddToResponse`: write the record's headers into the response headers
   * with `Set`, one field after another. It never fails.
   */
  method AddToResponse(hr: HTMXResponse, header: Header) returns (err: Option<string>)
    modifies header
    ensures header.entries == WriteAll(old(header.entries), Serialized(hr))
    ensures err == None
  {
    ghost var start := header.entries;
    FieldsOf(hr);
    SetIfNotBlank(header, LocationResponse, hr.location, hr, 0, start);
    SetIfNotBlank(header, PushURLResponse, hr.pushURL, hr, 1, start);
    SetIfNotBlank(header, RedirectResponse, hr.redirect, hr, 2, start);
    SetWhen(header, hr.refresh, RefreshResponse, "true", hr, 3, start);
    SetIfNotBlank(header, ReplaceURLResponse, hr.replaceURL, hr, 4, start);
    SetIfNotBlank(header, TriggerResponse, hr.trigger, hr, 5, start);
    SetIfNotBlank(header, TriggerAfterSettleResponse, hr.triggerAfterSettle, hr, 6, start);
    SetWhen(header, hr.reswap != 0, ReswapResponse, String(hr.reswap), hr, 7, start);
    SetIfNotBlank(header, TriggerAfterSwapResponse, hr.triggerAfterSwap, hr, 8, start);
    err := None;
  }

  /** The canonical key under which the `i`th candidate is stored. */
  function KeyAt(i: nat): (key: string)
    requires i < FieldCount
  {
    Canonical(FieldAt(Zero, i).1.String())
  }

  /** The candidates' keys are pairwise distinct, and none is `HX-Retarget`'s. */
  lemma KeysDistinct(i: nat, j: nat)
    requires i < FieldCount && j < FieldCount
    ensures i != j ==> KeyAt(i) != KeyAt(j)
    ensures KeyAt(i) != Canonical(RetargetResponse.String())
  {
    var n := FieldAt(Zero, i).1.String();
    DistinctCanonical(n, RetargetResponse.String());
    if i != j {
      DistinctCanonical(n, FieldAt(Zero, j).1.String());
    }
  }

  /**
   * After the first `n` candidates, the `i`th candidate's key is present
   * exactly when it was among them and its test held, and then holds its value.
   */
  lemma {:induction false} CollectAt(hr: HTMXResponse, n: nat, i: nat)
    requires n <= FieldCount && i < FieldCount
    ensures KeyAt(i) in Collect(hr, n) <==> i < n && FieldAt(hr, i).0
    ensures i < n && FieldAt(hr, i).0 ==> Collect(hr, n)[KeyAt(i)] == FieldAt(hr, i).2
  {
    if n > 0 {
      CollectAt(hr, n - 1, i);
      KeysDistinct(i, n - 1);
    }
  }

  /** Only candidate keys are ever produced. */
  lemma {:induction false} CollectKeys(hr: HTMXResponse, n: nat, k: string)
    requires n <= FieldCount
    requires k in Collect(hr, n)
    ensures exists i :: 0 <= i < n && k == KeyAt(i)
  {
    if k !in Collect(hr, n - 1) {
      assert k == KeyAt(n - 1);
    } else {
      CollectKeys(hr, n - 1, k);
    }
  }

  /**
   * What `AddToResponse` leaves behind, header by header: the `i`th
   * candidate's header holds exactly its one value when its test holds, and
   * is otherwise as it was before the call.
   */
  lemma Written(h: HeaderMap, hr: HTMXResponse, i: nat)
    requires i < FieldCount
    ensures FieldAt(hr, i).0 ==>
      KeyAt(i) in WriteAll(h, Serialized(hr)) && WriteAll(h, Serialized(hr))[KeyAt(i)] == [FieldAt(hr, i).2]
    ensures !FieldAt(hr, i).0 ==>
      (KeyAt(i) in WriteAll(h, Serialized(hr)) <==> KeyAt(i) in h)
      && (KeyAt(i) in h ==> WriteAll(h, Serialized(hr))[KeyAt(i)] == h[KeyAt(i)])
  {
    CollectAt(hr, FieldCount, i);
  }

  /** `HX-Refresh` is written, as "true", exactly when `refresh` is set. */
  lemma RefreshWritten(hr: HTMXResponse)
    ensures KeyAt(3) == Canonical(RefreshResponse.String())
    ensures KeyAt(3) in Serialized(hr) <==> hr.refresh
    ensures hr.refresh ==> Serialized(hr)[KeyAt(3)] == "true"
  {
    CollectAt(hr, FieldCount, 3);
  }

  /** `HX-Reswap` is written exactly when the mode is not zero, as the mode's token. */
  lemma ReswapWritten(hr: HTMXResponse)
    ensures KeyAt(7) == Canonical(ReswapResponse.String())
    ensures KeyAt(7) in Serialized(hr) <==> hr.reswap != SwapUnknown
    ensures hr.reswap != SwapUnknown ==> Serialized(hr)[KeyAt(7)] == String(hr.reswap) && String(hr.reswap) in Tokens
  {
    CollectAt(hr, FieldCount, 7);
  }

  /** `HX-Retarget` has no field in the record, so it is never written. */
  lemma RetargetNeverWritten(hr: HTMXResponse)
    ensures Canonical(RetargetResponse.String()) !in Serialized(hr)
  {
    var k := Canonical(RetargetResponse.String());
    if k in Serialized(hr) {
      CollectKeys(hr, FieldCount, k);
      var i :| 0 <= i < FieldCount && k == KeyAt(i);
      KeysDistinct(i, i);
    }
  }

  /** Headers that are not candidates keep every value they had. */
  lemma OthersUntouched(h: HeaderMap, hr: HTMXResponse, k: string)
    requires forall i :: 0 <= i < FieldCount ==> k != KeyAt(i)
    ensures k in WriteAll(h, Serialized(hr)) <==> k in h
    ensures k in h ==> WriteAll(h, Serialized(hr))[k] == h[k]
  {
    if k in Serialized(hr) {
      CollectKeys(hr, FieldCount, k);
    }
  }

  /** The zero record writes nothing. */
  lemma {:induction false} ZeroWritesNothing(n: nat)
    requires n <= FieldCount
    ensures Collect(Zero, n) == map[]
  {
    if n > 0 {
      ZeroWritesNothing(n - 1);
    }
  }

  /** Adding the same response twice leaves the headers as adding it once. */
  lemma AddTwice(h: HeaderMap, hr: HTMXResponse)
    ensures WriteAll(WriteAll(h, Serialized(hr)), Serialized(hr)) == WriteAll(h, Serialized(hr))
  {
  }
}
