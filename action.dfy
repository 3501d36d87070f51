/** Timed actions of action.h: an Action owns a StopWatch that starts when the
    action is built, and the ActionManager's ordered-sequence helpers. */
module Actions {
  import opened Timer

  /** finished(): stopped short, or the watch reached its target. */
  predicate ActionFinishedOf(stopShort: bool, started: bool, waited: nat, target: nat) {
    stopShort || FinishedOf(started, waited, target)
  }

  /** Waiting longer never un-finishes an action. */
  lemma FinishedStays(stopShort: bool, started: bool, waited: nat, dt: nat, target: nat)
    requires ActionFinishedOf(stopShort, started, waited, target)
    ensures ActionFinishedOf(stopShort, started, waited + dt, target)
  {
  }

  /** A generic_action with no duration is finished as soon as it is built,
      whatever time it has waited, and its ratio is already 1. */
  lemma ZeroDurationFinished(waited: nat)
    ensures ActionFinishedOf(false, true, waited, 0)
    ensures RatioOf(true, waited, 0) == 1.0
  {
  }

  class Action {
    const watch: StopWatch
    var stopShort: bool

    /** Action(stop_watch): copies the watch, starts it and clears stop_short_. */
    constructor (w: StopWatch)
      ensures fresh(watch)
      ensures watch.started && !stopShort
      ensures watch.durationWaited == w.durationWaited && watch.target == w.target
    {
      var copy := new StopWatch(w.target);
      copy.durationWaited := w.durationWaited;
      copy.Start();
      watch := copy;
      stopShort := false;
    }

    function RatioFinished(): (r: real)
      reads this, watch
      ensures 0.0 <= r <= 1.0
      ensures !watch.started ==> r == 0.0
    {
      watch.Ratio()
    }

    method StopShort()
      modifies this
      ensures stopShort && Finished()
    {
      stopShort := true;
    }

    function Finished(): (b: bool)
      reads this, watch
      ensures stopShort ==> b
      ensures b <==> stopShort || (watch.started && RatioFinished() == 1.0)
    {
      ActionFinishedOf(stopShort, watch.started, watch.durationWaited, watch.target)
    }

    /** run(): consume dt first, so that impl sees the updated ratio; the
        returned value is the ratio impl is given. */
    method Run(dt: nat) returns (seen: real)
      modifies watch
      ensures watch.durationWaited == if old(watch.started) then old(watch.durationWaited) + dt else old(watch.durationWaited)
      ensures watch.started == old(watch.started) && watch.target == old(watch.target)
      ensures seen == RatioFinished() && seen >= old(RatioFinished())
      ensures old(Finished()) ==> Finished()
    {
      if watch.started && Finished() {
        FinishedStays(stopShort, watch.started, watch.durationWaited, dt, watch.target);
      }
      watch.Consume(dt);
      seen := RatioFinished();
    }
  }

  /** GenericAction: impl calls f with the game and the ratio finished. The
      action manager argument of f is not modelled. */
  class GenericAction<G> {
    const action: Action
    const f: (G, real) -> G

    constructor (duration: nat, f: (G, real) -> G)
      ensures fresh(action) && fresh(action.watch) && this.f == f
      ensures action.watch.started && action.watch.durationWaited == 0
      ensures action.watch.target == duration && !action.stopShort
    {
      var w := new StopWatch(duration);
      action := new Action(w);
      this.f := f;
    }

    /** run(): the game after f was applied with the post-consume ratio. */
    method Run(game: G, dt: nat) returns (game': G)
      modifies action.watch
      ensures action.watch.durationWaited == if old(action.watch.started) then old(action.watch.durationWaited) + dt else old(action.watch.durationWaited)
      ensures action.watch.started == old(action.watch.started) && action.watch.target == old(action.watch.target)
      ensures game' == f(game, action.RatioFinished())
    {
      var ratio := action.Run(dt);
      game' := f(game, ratio);
    }
  }

  /** generic_action(f): zero duration, hence finished from the start. */
  method MakeGenericAction<G>(f: (G, real) -> G) returns (a: GenericAction<G>)
    ensures fresh(a) && a.f == f
    ensures a.action.Finished() && a.action.RatioFinished() == 1.0
  {
    a := new GenericAction(0, f);
    ZeroDurationFinished(0);
  }

  /** The reversal of a sequence, characterised element-wise. */
  function Reversed<A>(s: seq<A>): (r: seq<A>)
    ensures |r| == |s|
    ensures forall i :: 0 <= i < |s| ==> r[i] == s[|s| - 1 - i]
  {
    if |s| == 0 then [] else Reversed(s[1..]) + [s[0]]
  }

  lemma {:induction false} ReversedInvolution<A>(s: seq<A>)
    ensures Reversed(Reversed(s)) == s
  {
    var r := Reversed(Reversed(s));
    assert |r| == |s|;
    forall i | 0 <= i < |s| ensures r[i] == s[i] {
      assert r[i] == Reversed(s)[|s| - 1 - i];
    }
  }

  /** The ordered-action part of the ActionManager. add_ordered_action is
      only declared, so the model records the actions handed to it, in call
      order, in `issued`; `ordered` stands for the ordered-action list, which
      no modelled operation changes. */
  class ActionManager<A> {
    var issued: seq<A>
    var ordered: seq<A>

    constructor ()
      ensures issued == [] && ordered == []
    {
      issued := [];
      ordered := [];
    }

    method AddOrderedAction(a: A)
      modifies this
      ensures issued == old(issued) + [a] && ordered == old(ordered)
    {
      issued := issued + [a];
    }

    /** add_ordered_sequence(a, rest...): the rest first, then a, so the
        actions reach add_ordered_action last to first. */
    method AddOrderedSequence(actions: seq<A>)
      modifies this
      decreases |actions|
      ensures issued == old(issued) + Reversed(actions) && ordered == old(ordered)
    {
      if |actions| > 0 {
        AddOrderedSequence(actions[1..]);
        AddOrderedAction(actions[0]);
      }
    }

    /** move_ordered_sequence(v): each element as a one-action sequence, so
        in vector order. */
    method MoveOrderedSequence(v: seq<A>)
      modifies this
      ensures issued == old(issued) + v && ordered == old(ordered)
    {
      for i := 0 to |v|
        invariant issued == old(issued) + v[..i] && ordered == old(ordered)
      {
        AddOrderedSequence([v[i]]);
        assert v[..i + 1] == v[..i] + [v[i]];
      }
    }

    function HaveOrderedActions(): (b: bool)
      reads this
      ensures b <==> ordered != []
    {
      |ordered| != 0
    }
  }
}
