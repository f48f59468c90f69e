/**
 * The host's header collection: a map from a case-normalised header name to
 * the list of values sent under it. Lookup is case-insensitive because every
 * access goes through `Canonical`.
 */
module Http {
  import opened Text

  type HeaderMap = map<string, seq<string>>

  /** The normal form of a header name; names that differ only in ASCII case share it. */
  function Canonical(name: string): (key: string)
    ensures |key| == |name|
    ensures forall i :: 0 <= i < |key| ==> !('A' <= key[i] <= 'Z')
  {
    Lower(name)
  }

  /** `Header.Get`: the first value stored under `name`, or "" when there is none. */
  function FirstValue(h: HeaderMap, name: string): (v: string) {
    var key := Canonical(name);
    if key in h && |h[key]| > 0 then h[key][0] else ""
  }

  /** `Header.Set`: every earlier value of `name` is replaced by the single value `value`. */
  function Replace(h: HeaderMap, name: string, value: string): (r: HeaderMap) {
    h[Canonical(name) := [value]]
  }

  /** `Header.Add`: `value` is appended to the values already stored under `name`. */
  function Append(h: HeaderMap, name: string, value: string): (r: HeaderMap) {
    var key := Canonical(name);
    h[key := if key in h then h[key] + [value] else [value]]
  }

  /** After an `Add`, `Get` of the same name returns the earlier first value if there was one, else the value added. */
  lemma GetAfterAdd(h: HeaderMap, name: string, value: string, other: string)
    ensures Canonical(other) == Canonical(name) ==>
      FirstValue(Append(h, name, value), other) ==
        (if Canonical(name) in h && |h[Canonical(name)]| > 0 then h[Canonical(name)][0] else value)
    ensures Canonical(other) != Canonical(name) ==> FirstValue(Append(h, name, value), other) == FirstValue(h, other)
  {
  }

  /** After a `Set`, `Get` of any spelling of the same name returns the value set, and other names are untouched. */
  lemma GetAfterSet(h: HeaderMap, name: string, value: string, other: string)
    ensures Canonical(other) == Canonical(name) ==> FirstValue(Replace(h, name, value), other) == value
    ensures Canonical(other) != Canonical(name) ==> FirstValue(Replace(h, name, value), other) == FirstValue(h, other)
  {
  }

  /** The mutable header collection of one request or response (`http.Header`). */
  class Header {
    var entries: HeaderMap

    constructor (entries: HeaderMap)
      ensures this.entries == entries
    {
      this.entries := entries;
    }

    method Set(name: string, value: string)
      modifies this
      ensures entries == Replace(old(entries), name, value)
    {
      entries := entries[Canonical(name) := [value]];
    }

    method Add(name: string, value: string)
      modifies this
      ensures entries == Append(old(entries), name, value)
    {
      var key := Canonical(name);
      if key in entries {
        entries := entries[key := entries[key] + [value]];
      } else {
        entries := entries[key := [value]];
      }
    }
  }
}
