/**
 * The hx-swap mode: how the client inserts returned content relative to the
 * target element. The Go type is an `int64`, so any 64-bit value is a mode;
 * only 0..8 are named.
 */
module Swap {

  newtype HXSwap = x: int | -0x8000_0000_0000_0000 <= x < 0x8000_0000_0000_0000

  const SwapUnknown: HXSwap := 0
  const SwapInnerHTML: HXSwap := 1
  const SwapOuterHTML: HXSwap := 2
  const SwapBeforeBegin: HXSwap := 3
  const SwapAfterBegin: HXSwap := 4
  const SwapBeforeEnd: HXSwap := 5
  const SwapAfterEnd: HXSwap := 6
  const SwapDelete: HXSwap := 7
  const SwapNone: HXSwap := 8

  /** The canonical token of each named mode, in enum order: `Tokens[i]` belongs to mode `i + 1`. */
  const Tokens: seq<string> :=
    ["innerHTML", "outerHTML", "beforebegin", "afterbegin", "beforeend", "afterend", "delete", "none"]

  /** Whether `x` is one of the eight named, non-zero modes. */
  predicate IsNamed(x: HXSwap) {
    SwapInnerHTML <= x <= SwapNone
  }

  /**
   * `HXSwap.String`: each named mode gives its own token; `SwapUnknown` and
   * every value outside 1..8 fall back to "innerHTML".
   */
  function String(x: HXSwap): (s: string)
    ensures s in Tokens
    ensures IsNamed(x) ==> s == Tokens[x as int - 1]
    ensures !IsNamed(x) ==> s == "innerHTML"
  {
    if x == SwapInnerHTML then "innerHTML"
    else if x == SwapOuterHTML then "outerHTML"
    else if x == SwapBeforeBegin then "beforebegin"
    else if x == SwapAfterBegin then "afterbegin"
    else if x == SwapBeforeEnd then "beforeend"
    else if x == SwapAfterEnd then "afterend"
    else if x == SwapDelete then "delete"
    else if x == SwapNone then "none"
    else "innerHTML"
  }

  /** Distinct named modes have distinct tokens. */
  lemma StringInjective(x: HXSwap, y: HXSwap)
    requires IsNamed(x) && IsNamed(y) && x != y
    ensures String(x) != String(y)
  {
  }

  /**
   * `HXSwapFromString` as written: an exact, case-sensitive match against the
   * tokens of seven modes. There is no case for "beforeend", so that token,
   * like every other unmatched string, yields `SwapInnerHTML`.
   */
  function FromString(s: string): (x: HXSwap)
    ensures IsNamed(x)
    ensures x != SwapBeforeEnd
    ensures x == SwapInnerHTML || String(x) == s
  {
    if s == String(SwapInnerHTML) then SwapInnerHTML
    else if s == String(SwapOuterHTML) then SwapOuterHTML
    else if s == String(SwapBeforeBegin) then SwapBeforeBegin
    else if s == String(SwapAfterBegin) then SwapAfterBegin
    else if s == String(SwapAfterEnd) then SwapAfterEnd
    else if s == String(SwapDelete) then SwapDelete
    else if s == String(SwapNone) then SwapNone
    else SwapInnerHTML
  }

  /** Parsing the token of any named mode but `SwapBeforeEnd` gives the mode back. */
  lemma FromStringRoundTrip(x: HXSwap)
    requires IsNamed(x) && x != SwapBeforeEnd
    ensures FromString(String(x)) == x
  {
  }

  /** Every string but the seven matched tokens, "" and "InnerHTML" included, parses to `SwapInnerHTML`. */
  lemma FromStringDefault(s: string)
    requires forall x: HXSwap :: IsNamed(x) && x != SwapInnerHTML && x != SwapBeforeEnd ==> s != String(x)
    ensures FromString(s) == SwapInnerHTML
  {
  }

  /** The round trip fails for `SwapBeforeEnd`: its own token parses to `SwapInnerHTML`. */
  lemma BeforeEndParsesAsInnerHTML()
    ensures String(SwapBeforeEnd) == "beforeend"
    ensures FromString(String(SwapBeforeEnd)) == SwapInnerHTML != SwapBeforeEnd
  {
  }

  /** `HXSwapFromString` with the "beforeend" case the enum calls for. */
  function FromStringFixed(s: string): (x: HXSwap)
    ensures IsNamed(x)
    ensures x == SwapInnerHTML || String(x) == s
  {
    if s == String(SwapBeforeEnd) then SwapBeforeEnd else FromString(s)
  }

  /** With the fix, parsing inverts formatting on every named mode ... */
  lemma FromStringFixedRoundTrip(x: HXSwap)
    requires IsNamed(x)
    ensures FromStringFixed(String(x)) == x
  {
  }

  /** ... and formatting inverts parsing on every canonical token. */
  lemma FixedTokenRoundTrip(s: string)
    requires s in Tokens
    ensures String(FromStringFixed(s)) == s
  {
  }
}
