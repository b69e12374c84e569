/** The team section's one-shot entrance trigger: the first scroll value
    above 1000 sets `animateTeam`, and the listener then unsubscribes itself. */
module TeamGate {

  const Threshold: int := 1000

  /** Some scroll value so far is strictly above the threshold. */
  predicate AnyAbove(values: seq<int>)
  {
    exists i :: 0 <= i < |values| && values[i] > Threshold
  }

  /** The component's state: the latch and whether the "change" listener is still attached. */
  datatype GateState = GateState(animateTeam: bool, subscribed: bool)

  const Initial: GateState := GateState(false, true)

  /** One "change" event of the scroll value. An unsubscribed listener is not called,
      a set latch is never cleared, and the state changes only when an attached
      listener sees a value above the threshold. */
  function Step(g: GateState, latest: int): (r: GateState)
    ensures g.animateTeam ==> r.animateTeam
    ensures !g.subscribed ==> r == g
    ensures r != g <==> g.subscribed && latest > Threshold
  {
    if g.subscribed && latest > Threshold then GateState(true, false) else g
  }

  /** The state after the scroll value has emitted `values`, oldest first. The
      listener is attached exactly while the latch is not set. */
  function Run(values: seq<int>): (r: GateState)
    ensures r.subscribed <==> !r.animateTeam
    decreases |values|
  {
    if values == [] then Initial else Step(Run(values[..|values| - 1]), values[|values| - 1])
  }

  /** For any sequence of scroll values, the latch is set exactly when some value
      so far exceeded 1000, and the listener is attached exactly while it is not. */
  lemma {:induction false} RunLatches(values: seq<int>)
    ensures Run(values).animateTeam <==> AnyAbove(values)
    ensures Run(values).subscribed <==> !AnyAbove(values)
    decreases |values|
  {
    if values != [] {
      var init := values[..|values| - 1];
      RunLatches(init);
      assert forall i :: 0 <= i < |init| ==> init[i] == values[i];
      if AnyAbove(init) {
        var i :| 0 <= i < |init| && init[i] > Threshold;
        assert values[i] > Threshold;
      }
    }
  }

  /** Once set, the latch stays set whatever values follow. */
  lemma {:induction false} LatchStaysSet(values: seq<int>, more: seq<int>)
    requires Run(values).animateTeam
    ensures Run(values + more).animateTeam
    decreases |more|
  {
    if more == [] {
      assert values + more == values;
    } else {
      var init := more[..|more| - 1];
      assert (values + more)[..|values + more| - 1] == values + init;
      LatchStaysSet(values, init);
    }
  }

  /** The boundary is strict: a value of exactly 1000 does not fire. */
  lemma ThresholdIsStrict()
    ensures !Run([Threshold]).animateTeam
    ensures Run([Threshold + 1]).animateTeam
  {
    assert [Threshold][..0] == [];
    assert [Threshold + 1][..0] == [];
  }

  /** The mounted component. `seen` records every value the scroll value has
      emitted while the component was mounted. */
  class ScrollGate {
    var animateTeam: bool
    var subscribed: bool
    var mounted: bool
    ghost var seen: seq<int>

    ghost predicate Valid()
      reads this
    {
      (mounted ==> GateState(animateTeam, subscribed) == Run(seen)) && (!mounted ==> !subscribed)
    }

    /** `useState(false)` and the effect that subscribes to "change". */
    constructor ()
      ensures Valid() && mounted && seen == []
      ensures !animateTeam && subscribed
    {
      animateTeam, subscribed, mounted := false, true, true;
      seen := [];
    }

    /** The scroll value emits `latest`. */
    method OnScrollChange(latest: int)
      requires Valid()
      modifies this
      ensures Valid() && mounted == old(mounted)
      ensures seen == if mounted then old(seen) + [latest] else old(seen)
      ensures GateState(animateTeam, subscribed) == Step(GateState(old(animateTeam), old(subscribed)), latest)
      ensures old(animateTeam) ==> animateTeam
    {
      if mounted {
        seen := seen + [latest];
        assert seen[..|seen| - 1] == old(seen);
      }
      if subscribed && latest > Threshold {
        animateTeam := true;
        subscribed := false;
      }
    }

    /** The effect's cleanup on unmount: the listener is removed, the latch is left as it is. */
    method Unmount()
      requires Valid()
      modifies this
      ensures Valid() && !mounted && !subscribed
      ensures animateTeam == old(animateTeam) && seen == old(seen)
    {
      subscribed := false;
      mounted := false;
    }
  }
}
