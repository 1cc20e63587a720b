/** Optional values, as Kotlin's nullable types are used by the input field. */
module Wrappers {

  /** `None` plays the role of Kotlin's `null`. */
  datatype Option<+T> = None | Some(value: T)

  /** The present values of `xs`, in order: what a loop over `xs` emits when
      each step is guarded by `?.let`, so that a `null` step draws nothing. */
  function Present<T>(xs: seq<Option<T>>): (r: seq<T>)
    ensures |r| <= |xs|
    ensures (forall i :: 0 <= i < |xs| ==> xs[i].Some?) ==>
              |r| == |xs| && forall i :: 0 <= i < |xs| ==> r[i] == xs[i].value
  {
    if |xs| == 0 then []
    else (if xs[0].Some? then [xs[0].value] else []) + Present(xs[1..])
  }

  /** Kotlin's `String.getOrNull`: the character at `k`, or `None` past the end. */
  function GetOrNull(s: string, k: nat): (r: Option<char>)
    ensures r.Some? <==> k < |s|
    ensures r.Some? ==> r.value == s[k]
  {
    if k < |s| then Some(s[k]) else None
  }
}
