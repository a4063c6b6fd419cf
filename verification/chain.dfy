/** First-match-wins composition of optional results: the shape of the
    resolver's `if / else if / else` chain, independent of what is looked up. */
module Chain {
  import opened Wrappers

  /** `i` is the position of the first candidate that produced a value. */
  ghost predicate FirstSomeAt<T>(cands: seq<Option<T>>, i: int)
  {
    && 0 <= i < |cands|
    && cands[i].Some?
    && forall j :: 0 <= j < i ==> cands[j].None?
  }

  /** The value of the first candidate that has one, or `fallback` when none
      does. */
  function FirstMatch<T>(cands: seq<Option<T>>, fallback: T): (r: T)
    ensures (forall i :: 0 <= i < |cands| ==> cands[i].None?) ==> r == fallback
    ensures forall i :: FirstSomeAt(cands, i) ==> r == cands[i].value
    decreases |cands|
  {
    if |cands| == 0 then fallback
    else match cands[0]
      case Some(v) => v
      case None =>
        assert forall i :: FirstSomeAt(cands, i) ==> FirstSomeAt(cands[1..], i - 1);
        FirstMatch(cands[1..], fallback)
  }

  /** The same composition as a loop that stops at the first value. */
  method FirstMatchLoop<T>(cands: seq<Option<T>>, fallback: T) returns (r: T)
    ensures (forall i :: 0 <= i < |cands| ==> cands[i].None?) ==> r == fallback
    ensures forall i :: FirstSomeAt(cands, i) ==> r == cands[i].value
  {
    var i := 0;
    while i < |cands|
      invariant 0 <= i <= |cands|
      invariant forall j :: 0 <= j < i ==> cands[j].None?
    {
      if cands[i].Some? {
        assert FirstSomeAt(cands, i);
        return cands[i].value;
      }
      i := i + 1;
    }
    return fallback;
  }
}
