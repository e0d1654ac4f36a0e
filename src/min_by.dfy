/**
 * The two iterator searches the firmware and the server use to pick a slot or a message:
 * `Iterator::position` (the first element satisfying a predicate) and
 * `filter(keep).min_by_key(key)` (the first of the kept elements whose key is minimal).
 * Both answer with an index into the sequence.
 */
module MinBy {
  import opened Wrappers

  /** `xs.iter().position(p)` */
  function FirstWhere<T>(xs: seq<T>, p: T -> bool): (r: Option<nat>)
    ensures r.None? <==> forall i :: 0 <= i < |xs| ==> !p(xs[i])
    ensures r.Some? ==> r.value < |xs| && p(xs[r.value])
    ensures r.Some? ==> forall i :: 0 <= i < r.value ==> !p(xs[i])
  {
    if |xs| == 0 then None
    else if p(xs[0]) then Some(0)
    else
      match FirstWhere(xs[1..], p)
      case None =>
        assert forall i :: 1 <= i < |xs| ==> xs[i] == xs[1..][i - 1];
        None
      case Some(k) =>
        assert forall i :: 1 <= i < k + 1 ==> xs[i] == xs[1..][i - 1];
        Some(k + 1)
  }

  /**
   * `xs.iter().filter(keep).min_by_key(key)`, as an index: among the kept elements one with the
   * least key, and of several with that key the first (`min_by_key` keeps the earlier of two
   * equal elements).
   */
  function MinByKey<T>(xs: seq<T>, keep: T -> bool, key: T -> int): (r: Option<nat>)
    ensures r.None? <==> forall i :: 0 <= i < |xs| ==> !keep(xs[i])
    ensures r.Some? ==> r.value < |xs| && keep(xs[r.value])
    ensures r.Some? ==> forall i :: 0 <= i < |xs| && keep(xs[i]) ==> key(xs[r.value]) <= key(xs[i])
    ensures r.Some? ==> forall i :: 0 <= i < r.value && keep(xs[i]) ==> key(xs[r.value]) < key(xs[i])
  {
    if |xs| == 0 then None
    else
      var init := xs[..|xs| - 1];
      var last := |xs| - 1;
      var prev := MinByKey(init, keep, key);
      assert forall i :: 0 <= i < last ==> xs[i] == init[i];
      if !keep(xs[last]) then prev
      else if prev.Some? && key(xs[prev.value]) <= key(xs[last]) then prev
      else Some(last)
  }

  /** The element `MinByKey` picks is the unique one with the two minimality properties. */
  lemma MinByKeyUnique<T>(xs: seq<T>, keep: T -> bool, key: T -> int, j: nat)
    requires j < |xs| && keep(xs[j])
    requires forall i :: 0 <= i < |xs| && keep(xs[i]) ==> key(xs[j]) <= key(xs[i])
    requires forall i :: 0 <= i < j && keep(xs[i]) ==> key(xs[j]) < key(xs[i])
    ensures MinByKey(xs, keep, key) == Some(j)
  {
  }

  /** The first index satisfying `p` is the one `position` returns. */
  lemma FirstWhereIs<T>(xs: seq<T>, p: T -> bool, k: nat)
    requires k < |xs| && p(xs[k])
    requires forall i :: 0 <= i < k ==> !p(xs[i])
    ensures FirstWhere(xs, p) == Some(k)
  {
    var r := FirstWhere(xs, p);
    assert r.Some?;
  }
}
