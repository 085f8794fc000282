/** Small shared vocabulary for both controllers: optional values, the result
    of one store operation, and first-match lookup over an ordered collection
    (the document store's `findOne` returns the first match in natural order). */
module Common {

  datatype Option<+T> = None | Some(value: T)

  /** What one operation leaves behind: the new store contents and the reply. */
  datatype Step<S, R> = Step(state: S, result: R)

  /** Index of the first element satisfying `p`, if any. */
  function FirstWhere<T>(s: seq<T>, p: T -> bool): (r: Option<nat>)
    ensures r.Some? ==> r.value < |s| && p(s[r.value])
    ensures r.Some? ==> forall j :: 0 <= j < r.value ==> !p(s[j])
    ensures r.None? ==> forall j :: 0 <= j < |s| ==> !p(s[j])
  {
    if |s| == 0 then None
    else if p(s[0]) then Some(0)
    else match FirstWhere(s[1..], p)
      case None => None
      case Some(k) => Some(k + 1)
  }

  /** Appending a matching element behind elements that do not match makes it the first match. */
  lemma FirstWhereAppend<T>(s: seq<T>, x: T, p: T -> bool)
    requires forall j :: 0 <= j < |s| ==> !p(s[j])
    requires p(x)
    ensures FirstWhere(s + [x], p) == Some(|s|)
  {
    assert (s + [x])[|s|] == x;
    assert forall j :: 0 <= j < |s| ==> (s + [x])[j] == s[j];
  }

  ghost predicate Distinct<T>(s: seq<T>)
  {
    forall i, j :: 0 <= i < j < |s| ==> s[i] != s[j]
  }

  function Min(a: int, b: int): int
  {
    if a <= b then a else b
  }
}
