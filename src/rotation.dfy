/**
 * The rotation the display loop of pico/src/main.rs drives through the cache: each turn asks
 * `next_display_message_generic` for the slot after `last_message_time` and, when it gets one, moves
 * `last_message_time` to that slot's update time.
 *
 * The main result, `RotationReaches`: while the cache and the clock stand still, every active slot
 * whose update time no other active slot shares is shown within `2 * |slots|` turns, whatever the
 * starting time. (Two active slots with the same time are a real exception: the strict "newer than"
 * filter lets only the first of them be shown.)
 */
module Rotation {
  import opened Wrappers
  import opened MessageBuf

  /** One turn: the next `last_message_time`; unchanged when nothing is active. */
  function Step(all: seq<MessageMeta>, last: nat, now: nat): (t: nat)
    ensures NextDisplayIndex(all, last, now).None? ==> t == last
    ensures NextDisplayIndex(all, last, now).Some? ==> t == all[NextDisplayIndex(all, last, now).value].updatedAt
  {
    match NextDisplayIndex(all, last, now)
    case None => last
    case Some(i) => all[i].updatedAt
  }

  /** `last_message_time` after one turn per entry of `nows`, the clock reading at that turn. */
  function TimeAfter(all: seq<MessageMeta>, last: nat, nows: seq<nat>): nat
  {
    if |nows| == 0 then last
    else Step(all, TimeAfter(all, last, nows[..|nows| - 1]), nows[|nows| - 1])
  }

  /** One more turn is one more `Step`. */
  lemma TimeAfterSnoc(all: seq<MessageMeta>, last: nat, nows: seq<nat>, k: nat)
    requires k < |nows|
    ensures TimeAfter(all, last, nows[..k + 1]) == Step(all, TimeAfter(all, last, nows[..k]), nows[k])
  {
    assert nows[..k + 1][..k] == nows[..k];
  }

  /** The slot shown at turn `k` (0-based). */
  function ShownAt(all: seq<MessageMeta>, last: nat, nows: seq<nat>, k: nat): Option<nat>
    requires k < |nows|
  {
    NextDisplayIndex(all, TimeAfter(all, last, nows[..k]), nows[k])
  }

  /** The same turns, counted from the first one instead of the last. */
  lemma {:induction false} TimeAfterFront(all: seq<MessageMeta>, last: nat, nows: seq<nat>)
    requires |nows| > 0
    ensures TimeAfter(all, last, nows) == TimeAfter(all, Step(all, last, nows[0]), nows[1..])
    decreases |nows|
  {
    if |nows| > 1 {
      var init := nows[..|nows| - 1];
      TimeAfterFront(all, last, init);
      assert init[1..] == nows[1..][..|nows[1..]| - 1];
      assert init[0] == nows[0];
    } else {
      assert nows[..0] == [] && nows[1..] == [];
    }
  }

  /** A window of update times: above `lo`, and below `hi` when there is one. */
  datatype Window = Window(lo: nat, hi: Option<nat>)

  predicate InWindow(m: MessageMeta, w: Window, now: nat)
  {
    IsActive(m, now) && w.lo < m.updatedAt && (w.hi.None? || m.updatedAt < w.hi.value)
  }

  /** How many active slots have an update time inside the window. */
  function CountIn(all: seq<MessageMeta>, w: Window, now: nat): (n: nat)
    ensures n <= |all|
  {
    if |all| == 0 then 0
    else CountIn(all[..|all| - 1], w, now) + (if InWindow(all[|all| - 1], w, now) then 1 else 0)
  }

  /** A narrower window holds fewer slots; strictly fewer when one slot lies only in the wider one. */
  lemma {:induction false} CountNarrower(all: seq<MessageMeta>, wide: Window, narrow: Window, now: nat, s: nat)
    requires forall i :: 0 <= i < |all| && InWindow(all[i], narrow, now) ==> InWindow(all[i], wide, now)
    requires s < |all| && InWindow(all[s], wide, now) && !InWindow(all[s], narrow, now)
    ensures CountIn(all, narrow, now) < CountIn(all, wide, now)
  {
    var init := all[..|all| - 1];
    if s < |all| - 1 {
      CountNarrower(init, wide, narrow, now, s);
    } else {
      CountNoWider(init, wide, narrow, now);
    }
  }

  lemma {:induction false} CountNoWider(all: seq<MessageMeta>, wide: Window, narrow: Window, now: nat)
    requires forall i :: 0 <= i < |all| && InWindow(all[i], narrow, now) ==> InWindow(all[i], wide, now)
    ensures CountIn(all, narrow, now) <= CountIn(all, wide, now)
  {
    if |all| > 0 {
      CountNoWider(all[..|all| - 1], wide, narrow, now);
    }
  }

  /** One slot outside the window keeps the count below the number of slots. */
  lemma {:induction false} CountMissing(all: seq<MessageMeta>, w: Window, now: nat, s: nat)
    requires s < |all| && !InWindow(all[s], w, now)
    ensures CountIn(all, w, now) < |all|
  {
    var init := all[..|all| - 1];
    if s < |all| - 1 {
      CountMissing(init, w, now, s);
    }
  }

  predicate UniqueActiveTime(all: seq<MessageMeta>, j: nat, now: nat)
    requires j < |all|
  {
    forall i :: 0 <= i < |all| && i != j && IsActive(all[i], now) ==> all[i].updatedAt != all[j].updatedAt
  }

  /** `n` turns with the clock reading `now` at each of them. */
  function Turns(n: nat, now: nat): (r: seq<nat>)
    ensures |r| == n && forall i :: 0 <= i < n ==> r[i] == now
  {
    seq(n, _ => now)
  }

  /** `last_message_time` after `k` turns with the clock at `now` throughout, counted from the front. */
  function Iterate(all: seq<MessageMeta>, last: nat, now: nat, k: nat): nat
    decreases k
  {
    if k == 0 then last else Iterate(all, Step(all, last, now), now, k - 1)
  }

  /** `Iterate` is `TimeAfter` over `k` turns at the same clock reading. */
  lemma {:induction false} IterateIsTimeAfter(all: seq<MessageMeta>, last: nat, now: nat, k: nat)
    ensures TimeAfter(all, last, Turns(k, now)) == Iterate(all, last, now, k)
    decreases k
  {
    if k > 0 {
      TimeAfterFront(all, last, Turns(k, now));
      assert Turns(k, now)[1..] == Turns(k - 1, now);
      IterateIsTimeAfter(all, Step(all, last, now), now, k - 1);
    }
  }

  /** One more turn at the end. */
  lemma {:induction false} IterateSnoc(all: seq<MessageMeta>, last: nat, now: nat, k: nat)
    ensures Iterate(all, last, now, k + 1) == Step(all, Iterate(all, last, now, k), now)
    decreases k
  {
    if k > 0 {
      var t := Step(all, last, now);
      IterateSnoc(all, t, now, k - 1);
      assert Iterate(all, last, now, k + 1) == Iterate(all, t, now, k);
      assert Iterate(all, last, now, k) == Iterate(all, t, now, k - 1);
    }
  }

  /** A turn that lands on slot `j`'s time shows slot `j`, the only active slot with that time. */
  lemma ShownWhenReached(all: seq<MessageMeta>, last: nat, now: nat, j: nat)
    requires j < |all| && IsActive(all[j], now) && UniqueActiveTime(all, j, now)
    requires Step(all, last, now) == all[j].updatedAt
    ensures NextDisplayIndex(all, last, now) == Some(j)
  {
    NextDisplayIndexOrder(all, last, now);
  }

  /** From below `T`, a turn that does not reach `T` shows a slot between `last` and `T`. */
  lemma BelowShrinks(all: seq<MessageMeta>, last: nat, now: nat, j: nat)
    requires j < |all| && IsActive(all[j], now) && last < all[j].updatedAt
    requires Step(all, last, now) != all[j].updatedAt
    ensures Step(all, last, now) < all[j].updatedAt
    ensures CountIn(all, Window(Step(all, last, now), Some(all[j].updatedAt)), now)
            < CountIn(all, Window(last, Some(all[j].updatedAt)), now)
  {
    assert Newer(all[j], last, now);
    NextDisplayIndexOrder(all, last, now);
    var s := NextDisplayIndex(all, last, now).value;
    CountNarrower(all, Window(last, Some(all[j].updatedAt)), Window(Step(all, last, now), Some(all[j].updatedAt)), now, s);
  }

  /** While some active slot is newer than `last`, each turn moves past one of them. */
  lemma AboveShrinks(all: seq<MessageMeta>, last: nat, now: nat)
    requires exists i :: 0 <= i < |all| && Newer(all[i], last, now)
    ensures Step(all, last, now) > last
    ensures CountIn(all, Window(Step(all, last, now), None), now) < CountIn(all, Window(last, None), now)
  {
    NextDisplayIndexOrder(all, last, now);
    var s := NextDisplayIndex(all, last, now).value;
    CountNarrower(all, Window(last, None), Window(Step(all, last, now), None), now, s);
  }

  /** With nothing newer, the turn wraps to the oldest active slot, at or below slot `j`'s time. */
  lemma WrapGoesBelow(all: seq<MessageMeta>, last: nat, now: nat, j: nat)
    requires j < |all| && IsActive(all[j], now)
    requires forall i :: 0 <= i < |all| ==> !Newer(all[i], last, now)
    requires Step(all, last, now) != all[j].updatedAt
    ensures Step(all, last, now) < all[j].updatedAt
    ensures CountIn(all, Window(Step(all, last, now), Some(all[j].updatedAt)), now) < |all|
  {
    NextDisplayIndexOrder(all, last, now);
    CountMissing(all, Window(Step(all, last, now), Some(all[j].updatedAt)), now, j);
  }

  /** The turn at which slot `j` is shown when `last` is older than it: only newer slots come first. */
  lemma {:induction false} ReachesFromBelow(all: seq<MessageMeta>, last: nat, now: nat, j: nat) returns (k: nat)
    requires j < |all| && IsActive(all[j], now)
    requires last < all[j].updatedAt
    ensures k <= CountIn(all, Window(last, Some(all[j].updatedAt)), now)
    ensures Iterate(all, last, now, k + 1) == all[j].updatedAt
    decreases CountIn(all, Window(last, Some(all[j].updatedAt)), now)
  {
    var t := Step(all, last, now);
    if t == all[j].updatedAt {
      return 0;
    }
    BelowShrinks(all, last, now, j);
    var k' := ReachesFromBelow(all, t, now, j);
    k := k' + 1;
    assert Iterate(all, last, now, k + 1) == Iterate(all, t, now, k' + 1);
  }

  /** The turn at which slot `j` is shown, counted from `last`, with the clock at `now` throughout. */
  lemma {:induction false} RotationReachesFrom(all: seq<MessageMeta>, last: nat, now: nat, j: nat) returns (k: nat)
    requires j < |all| && IsActive(all[j], now)
    requires last >= all[j].updatedAt
    ensures k <= CountIn(all, Window(last, None), now) + |all|
    ensures Iterate(all, last, now, k + 1) == all[j].updatedAt
    decreases CountIn(all, Window(last, None), now)
  {
    var t := Step(all, last, now);
    if t == all[j].updatedAt {
      return 0;
    }
    var k': nat;
    if exists i :: 0 <= i < |all| && Newer(all[i], last, now) {
      AboveShrinks(all, last, now);
      k' := RotationReachesFrom(all, t, now, j);
    } else {
      WrapGoesBelow(all, last, now, j);
      k' := ReachesFromBelow(all, t, now, j);
    }
    k := k' + 1;
    assert Iterate(all, last, now, k + 1) == Iterate(all, t, now, k' + 1);
  }

  /** Landing on slot `j`'s time after turn `k` means turn `k` shows slot `j`. */
  lemma ReachedTurnShows(all: seq<MessageMeta>, last: nat, now: nat, j: nat, k: nat, n: nat)
    requires k < n && j < |all| && IsActive(all[j], now) && UniqueActiveTime(all, j, now)
    requires Iterate(all, last, now, k + 1) == all[j].updatedAt
    ensures ShownAt(all, last, Turns(n, now), k) == Some(j)
  {
    IterateSnoc(all, last, now, k);
    ShownWhenReached(all, Iterate(all, last, now, k), now, j);
    assert Turns(n, now)[..k] == Turns(k, now);
    IterateIsTimeAfter(all, last, now, k);
  }

  /**
   * Round robin without starvation: with the cache and the clock unchanged, an active slot whose
   * update time is not shared by another active slot is shown within `2 * |all|` turns of any
   * starting `last_message_time`.
   */
  lemma RotationReaches(all: seq<MessageMeta>, last: nat, now: nat, j: nat) returns (k: nat)
    requires j < |all| && IsActive(all[j], now) && UniqueActiveTime(all, j, now)
    ensures k < 2 * |all| && ShownAt(all, last, Turns(2 * |all|, now), k) == Some(j)
  {
    if last < all[j].updatedAt {
      k := ReachesFromBelow(all, last, now, j);
      CountMissing(all, Window(last, Some(all[j].updatedAt)), now, j);
    } else {
      k := RotationReachesFrom(all, last, now, j);
      CountMissing(all, Window(last, None), now, j);
    }
    ReachedTurnShows(all, last, now, j, k, 2 * |all|);
  }
}
