/** Sequences: concatenation, and the last defined value of a sequence of optional ones. */
module Sequences {
  import opened Api

  lemma AppendIsAssociative<T>(a: seq<T>, b: seq<T>, c: seq<T>)
    ensures (a + b) + c == a + (b + c)
  {}

  /** `v` is the last defined entry of `values`, or `initial` if none is defined. */
  ghost predicate LastDefined<T(!new)>(initial: T, values: seq<Option<T>>, v: T) {
    || (v == initial && forall j :: 0 <= j < |values| ==> values[j].None?)
    || exists i :: 0 <= i < |values| && values[i] == Some(v) && forall j :: i < j < |values| ==> values[j].None?
  }

  function LastOf<T>(initial: T, values: seq<Option<T>>): T {
    if values == [] then initial
    else
      var n := |values| - 1;
      if values[n].Some? then values[n].value else LastOf(initial, values[..n])
  }

  lemma {:induction false} LastOfIsLastDefined<T(!new)>(initial: T, values: seq<Option<T>>)
    ensures LastDefined(initial, values, LastOf(initial, values))
    decreases |values|
  {
    if values != [] {
      var (before, n) := (values[..|values| - 1], |values| - 1);
      LastOfIsLastDefined(initial, before);
      assert forall j :: 0 <= j < n ==> before[j] == values[j];
      if values[n].None? {
        if i :| 0 <= i < n && before[i] == Some(LastOf(initial, before)) && forall j :: i < j < n ==> before[j].None? {
          assert values[i] == Some(LastOf(initial, values));
        }
      }
    }
  }

  /** Read from the left, each defined value replaces the one before it. */
  lemma {:induction false} LastOfUnfoldsLeft<T>(initial: T, next: Option<T>, values: seq<Option<T>>)
    ensures LastOf(initial, [next] + values) == LastOf(if next.Some? then next.value else initial, values)
    decreases |values|
  {
    var all := [next] + values;
    if values == [] {
      assert all == [next] && all[..0] == [];
    } else {
      assert all[..|all| - 1] == [next] + values[..|values| - 1];
      LastOfUnfoldsLeft(initial, next, values[..|values| - 1]);
    }
  }
}
