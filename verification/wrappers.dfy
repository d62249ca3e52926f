/** The optional value used throughout the model for Python's `None`. */
module Wrappers {

  datatype Option<+T> = None | Some(value: T) {

    /** Returns the value in Some, or `default` for None. */
    function GetOr(default: T): T {
      match this
      case Some(v) => v
      case None => default
    }
  }

  /** `f` applied to every element, or None as soon as one application gives None. */
  function MapAll<T, U>(s: seq<T>, f: T -> Option<U>): (r: Option<seq<U>>)
    ensures r.Some? <==> forall i :: 0 <= i < |s| ==> f(s[i]).Some?
    ensures r.Some? ==> |r.value| == |s|
    ensures r.Some? ==> forall i :: 0 <= i < |s| ==> r.value[i] == f(s[i]).value
  {
    if |s| == 0 then Some([])
    else
      assert forall i :: 0 <= i < |s| - 1 ==> s[1..][i] == s[i + 1];
      match f(s[0])
      case None => None
      case Some(c) =>
        match MapAll(s[1..], f)
        case None => None
        case Some(cs) => Some([c] + cs)
  }
}
