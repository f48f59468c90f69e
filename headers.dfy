/**
 * The catalogue of htmx header names: typed string constants, each the
 * prefix "HX-" followed by the header's own name.
 */
module Headers {
  import opened Text
  import opened Http

  /** A request header name (`HTMXRequestHeader`, a named string type). */
  datatype HTMXRequestHeader = HTMXRequestHeader(name: string) {
    /** The wire name; converting back gives the same header, so nothing is lost. */
    function String(): (s: string)
      ensures HTMXRequestHeader(s) == this
    {
      name
    }
  }

  /** A response header name (`HTMXResponseHeader`, a named string type). */
  datatype HTMXResponseHeader = HTMXResponseHeader(name: string) {
    /** The wire name; converting back gives the same header, so nothing is lost. */
    function String(): (s: string)
      ensures HTMXResponseHeader(s) == this
    {
      name
    }
  }

  const Prefix: string := "HX-"

  const HXRequestHeader := HTMXRequestHeader(Prefix + "Request")
  const BoostedRequest := HTMXRequestHeader(Prefix + "Boosted")
  const CurrentURLRequest := HTMXRequestHeader(Prefix + "Current-URL")
  const HistoryRestoreRequest := HTMXRequestHeader(Prefix + "History-Restore-Request")
  const PromptRequest := HTMXRequestHeader(Prefix + "Prompt")
  const TriggerRequest := HTMXRequestHeader(Prefix + "Trigger")
  const TriggerNameRequest := HTMXRequestHeader(Prefix + "Trigger-Name")
  const TargetRequest := HTMXRequestHeader(Prefix + "Target")

  const LocationResponse := HTMXResponseHeader(Prefix + "Location")
  const PushURLResponse := HTMXResponseHeader(Prefix + "Push-Url")
  const RedirectResponse := HTMXResponseHeader(Prefix + "Redirect")
  const RefreshResponse := HTMXResponseHeader(Prefix + "Refresh")
  const ReplaceURLResponse := HTMXResponseHeader(Prefix + "Replace-Url")
  const ReswapResponse := HTMXResponseHeader(Prefix + "Reswap")
  const RetargetResponse := HTMXResponseHeader(Prefix + "Retarget")
  const TriggerResponse := HTMXResponseHeader(Prefix + "Trigger")
  const TriggerAfterSettleResponse := HTMXResponseHeader(Prefix + "Trigger-After-Settle")
  const TriggerAfterSwapResponse := HTMXResponseHeader(Prefix + "Trigger-After-Swap")

  /** Every request header the catalogue names. */
  const RequestHeaders: seq<HTMXRequestHeader> := [
    HXRequestHeader, BoostedRequest, CurrentURLRequest, HistoryRestoreRequest,
    PromptRequest, TriggerRequest, TriggerNameRequest, TargetRequest
  ]

  /** Every response header the catalogue names, `RetargetResponse` included. */
  const ResponseHeaders: seq<HTMXResponseHeader> := [
    LocationResponse, PushURLResponse, RedirectResponse, RefreshResponse, ReplaceURLResponse,
    ReswapResponse, RetargetResponse, TriggerResponse, TriggerAfterSettleResponse, TriggerAfterSwapResponse
  ]

  /** Every header name of either kind starts with "HX-". */
  lemma AllPrefixed()
    ensures forall h :: h in RequestHeaders ==> |h.String()| > |Prefix| && h.String()[..|Prefix|] == Prefix
    ensures forall h :: h in ResponseHeaders ==> |h.String()| > |Prefix| && h.String()[..|Prefix|] == Prefix
  {
  }

  /**
   * Names whose lengths differ, or whose characters at index 3 or 5 differ in
   * lower case, are different headers even under case-insensitive lookup.
   */
  lemma DistinctCanonical(a: string, b: string)
    requires |a| > 5 && |b| > 5
    requires |a| != |b| || LowerChar(a[3]) != LowerChar(b[3]) || LowerChar(a[5]) != LowerChar(b[5])
    ensures Canonical(a) != Canonical(b)
  {
    if |a| == |b| && LowerChar(a[3]) != LowerChar(b[3]) {
      assert Canonical(a)[3] != Canonical(b)[3];
    } else if |a| == |b| {
      assert Canonical(a)[5] != Canonical(b)[5];
    }
  }

  /** The eight request header names are pairwise distinct, ignoring case. */
  lemma RequestNamesDistinct()
    ensures forall i, j :: 0 <= i < j < |RequestHeaders| ==>
      Canonical(RequestHeaders[i].String()) != Canonical(RequestHeaders[j].String())
  {
    forall i, j | 0 <= i < j < |RequestHeaders|
      ensures Canonical(RequestHeaders[i].String()) != Canonical(RequestHeaders[j].String())
    {
      DistinctCanonical(RequestHeaders[i].String(), RequestHeaders[j].String());
    }
  }

  /** The ten response header names are pairwise distinct, ignoring case. */
  lemma ResponseNamesDistinct()
    ensures forall i, j :: 0 <= i < j < |ResponseHeaders| ==>
      Canonical(ResponseHeaders[i].String()) != Canonical(ResponseHeaders[j].String())
  {
    forall i, j | 0 <= i < j < |ResponseHeaders|
      ensures Canonical(ResponseHeaders[i].String()) != Canonical(ResponseHeaders[j].String())
    {
      DistinctCanonical(ResponseHeaders[i].String(), ResponseHeaders[j].String());
    }
  }

  /** The two catalogues overlap: the request and the response trigger header are the same name. */
  lemma TriggerNameShared()
    ensures TriggerRequest.String() == TriggerResponse.String() == "HX-Trigger"
  {
  }
}
