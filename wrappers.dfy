/**
 * The optional result of the search, and find_map over a sequence of
 * already-computed outcomes: the first `Some`, or `None` when there is none.
 */
module Wrappers {
  datatype Option<+T> = None | Some(value: T)

  /** The first `Some` of `outs`, scanning from the front; `None` when every outcome is `None`. */
  function FindMap<T>(outs: seq<Option<T>>): (r: Option<T>)
    ensures r.Some? ==> r in outs
    decreases |outs|
  {
    if outs == [] then None
    else if outs[0].Some? then outs[0]
    else FindMap(outs[1..])
  }

  /** find_map yields None exactly when every outcome is None. */
  lemma {:induction false} FindMapNone<T>(outs: seq<Option<T>>)
    ensures FindMap(outs).None? <==> forall i :: 0 <= i < |outs| ==> outs[i].None?
    decreases |outs|
  {
    if outs != [] && outs[0].None? {
      FindMapNone(outs[1..]);
      assert forall i :: 1 <= i < |outs| ==> outs[i] == outs[1..][i - 1];
    }
  }

  /** find_map yields the first Some: if outcome i is Some and all before it are None, the result is outcome i. */
  lemma {:induction false} FindMapFirst<T>(outs: seq<Option<T>>, i: int)
    requires 0 <= i < |outs| && outs[i].Some?
    requires forall j :: 0 <= j < i ==> outs[j].None?
    ensures FindMap(outs) == outs[i]
    decreases i
  {
    if i > 0 {
      var rest := outs[1..];
      assert forall j :: 0 <= j < i - 1 ==> rest[j] == outs[j + 1];
      FindMapFirst(rest, i - 1);
    }
  }
}
