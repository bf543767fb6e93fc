/** The optional value used where the controller works with a possibly-null result
    (FirstOrDefault, a missing data type, a lookup that found nothing). */
module Wrappers {

  datatype Option<+T> = None | Some(value: T)

  /** `FirstOrDefault(p)` as a position: the first index whose element satisfies `p`,
      None when no element does. */
  function FirstMatch<T>(s: seq<T>, p: T -> bool): (r: Option<nat>)
    ensures r.Some? ==> r.value < |s| && p(s[r.value])
    ensures r.Some? ==> forall j :: 0 <= j < r.value ==> !p(s[j])
    ensures r.None? <==> forall j :: 0 <= j < |s| ==> !p(s[j])
    decreases |s|
  {
    if |s| == 0 then None
    else if p(s[0]) then Some(0)
    else match FirstMatch(s[1..], p)
      case None => None
      case Some(k) => Some(k + 1)
  }

}
