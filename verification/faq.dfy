/**
 * The FAQ component's single-open accordion: `activeIndex` holds the open
 * item or `null` (`None` here), `toggleQuestion` flips it, and an item's
 * answer is displayed exactly when its index is `activeIndex`.
 */
module Faq {
  import opened Wrappers

  /** `toggleQuestion(index)`. */
  function Toggle(active: Option<nat>, index: nat): (next: Option<nat>)
    ensures active == Some(index) ==> next == None
    ensures active != Some(index) ==> next == Some(index)
  {
    if active == Some(index) then None else Some(index)
  }

  /** The display rule `activeIndex === index ? 'block' : 'none'`. */
  predicate Shown(active: Option<nat>, index: nat) {
    active == Some(index)
  }

  /** The shown flags of items 0..count-1. */
  function Panels(active: Option<nat>, count: nat): (shown: seq<bool>)
    ensures |shown| == count
    ensures forall i :: 0 <= i < count ==> (shown[i] <==> Shown(active, i))
  {
    seq(count, i requires 0 <= i < count => Shown(active, i))
  }

  /** Number of `true` entries. */
  function CountTrue(bs: seq<bool>): nat
    decreases |bs|
  {
    if |bs| == 0 then 0 else (if bs[0] then 1 else 0) + CountTrue(bs[1..])
  }

  /** At most one answer is ever displayed; after a toggle of an item
      that was closed, exactly that one. */
  lemma {:induction false} AtMostOneOpen(active: Option<nat>, count: nat)
    ensures CountTrue(Panels(active, count)) <= 1
    ensures active.Some? && active.value < count ==> CountTrue(Panels(active, count)) == 1
    decreases count
  {
    if count > 0 {
      var p := Panels(active, count);
      var q := Panels(active, count - 1);
      AtMostOneOpen(active, count - 1);
      CountTrueSnoc(q, p[count - 1]);
      assert p == q + [p[count - 1]];
      if p[count - 1] {
        assert active == Some(count - 1);
        assert forall i :: 0 <= i < count - 1 ==> !q[i];
        CountTrueNone(q);
      }
    }
  }

  lemma {:induction false} CountTrueSnoc(bs: seq<bool>, b: bool)
    ensures CountTrue(bs + [b]) == CountTrue(bs) + (if b then 1 else 0)
    decreases |bs|
  {
    if |bs| > 0 {
      assert (bs + [b])[1..] == bs[1..] + [b];
      CountTrueSnoc(bs[1..], b);
    } else {
      assert bs + [b] == [b];
    }
  }

  lemma {:induction false} CountTrueNone(bs: seq<bool>)
    requires forall i :: 0 <= i < |bs| ==> !bs[i]
    ensures CountTrue(bs) == 0
    decreases |bs|
  {
    if |bs| > 0 {
      CountTrueNone(bs[1..]);
    }
  }

  /** Toggling the open item closes it; toggling any other item opens
      that one and closes the previous one. */
  lemma ToggleShows(active: Option<nat>, index: nat, other: nat)
    requires other != index
    ensures Shown(Toggle(active, index), index) <==> !Shown(active, index)
    ensures !Shown(Toggle(active, index), other)
  {
  }

  /** Toggling the same item twice restores the state when nothing or
      that item was open; with another item open the second toggle closes
      everything instead. */
  lemma ToggleTwice(active: Option<nat>, index: nat)
    ensures active == None || active == Some(index) ==> Toggle(Toggle(active, index), index) == active
    ensures active.Some? && active != Some(index) ==> Toggle(Toggle(active, index), index) == None
  {
  }
}
