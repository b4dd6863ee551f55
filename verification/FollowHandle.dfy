/** The owner of a follow's close: a shared flag and the handles that a close waits for. */
module FollowHandles {
  import opened Wrappers

  type Id = nat

  /** A thread to wait for or a task to abort; an emptied slot has been dealt with. */
  datatype JoinTarget = Thread(handle: Option<Id>) | Task(handle: Option<Id>)

  /** What closing does to the outside, in order. */
  datatype Effect = FlagSet | Joined(thread: Id) | Aborted(task: Id)

  function EffectsOf(joiners: seq<JoinTarget>): seq<Effect> {
    if joiners == [] then []
    else
      (match joiners[0]
       case Thread(Some(id)) => [Joined(id)]
       case Task(Some(id)) => [Aborted(id)]
       case _ => []) + EffectsOf(joiners[1..])
  }

  predicate AllTaken(joiners: seq<JoinTarget>) {
    forall i :: 0 <= i < |joiners| ==> joiners[i].handle.None?
  }

  lemma {:induction false} EffectsSnoc(joiners: seq<JoinTarget>, j: JoinTarget)
    ensures EffectsOf(joiners + [j]) == EffectsOf(joiners) + EffectsOf([j])
  {
    if joiners == [] {
      assert [] + [j] == [j];
    } else {
      assert (joiners + [j])[1..] == joiners[1..] + [j];
      EffectsSnoc(joiners[1..], j);
    }
  }

  /** Nothing is left to do to slots that are all empty. */
  lemma {:induction false} NothingTwice(joiners: seq<JoinTarget>)
    requires AllTaken(joiners)
    ensures EffectsOf(joiners) == []
  {
    if joiners != [] {
      assert joiners[0].handle.None?;
      NothingTwice(joiners[1..]);
    }
  }

  /** Each thread still there is joined and each task still there is aborted, and nothing else is done. */
  lemma {:induction false} EffectsExactly(joiners: seq<JoinTarget>, id: Id)
    ensures Joined(id) in EffectsOf(joiners) <==> Thread(Some(id)) in joiners
    ensures Aborted(id) in EffectsOf(joiners) <==> Task(Some(id)) in joiners
    ensures FlagSet !in EffectsOf(joiners)
  {
    if joiners != [] {
      EffectsExactly(joiners[1..], id);
      assert joiners == [joiners[0]] + joiners[1..];
    }
  }

  /** They are dealt with in the order of their slots. */
  lemma EffectsInOrder(joiners: seq<JoinTarget>, i: nat)
    requires i < |joiners|
    ensures EffectsOf(joiners)
         == EffectsOf(joiners[..i]) + EffectsOf([joiners[i]]) + EffectsOf(joiners[i + 1..])
    ensures |EffectsOf([joiners[i]])| == if joiners[i].handle.Some? then 1 else 0
  {
    hide EffectsOf;
    assert joiners == joiners[..i] + [joiners[i]] + joiners[i + 1..];
    EffectsAppend(joiners[..i] + [joiners[i]], joiners[i + 1..]);
    EffectsSnoc(joiners[..i], joiners[i]);
    EffectOfOne(joiners[i]);
  }

  lemma EffectOfOne(j: JoinTarget)
    ensures |EffectsOf([j])| == if j.handle.Some? then 1 else 0
  {
    assert [j][1..] == [];
  }

  lemma {:induction false} EffectsAppend(a: seq<JoinTarget>, b: seq<JoinTarget>)
    ensures EffectsOf(a + b) == EffectsOf(a) + EffectsOf(b)
  {
    if a == [] {
      assert a + b == b;
    } else {
      assert (a + b)[1..] == a[1..] + b;
      EffectsAppend(a[1..], b);
    }
  }

  class FollowHandle {
    var closeRequested: bool
    var joiners: seq<JoinTarget>
    ghost var effects: seq<Effect>

    constructor (joiners: seq<JoinTarget>)
      ensures !closeRequested && this.joiners == joiners && effects == []
    {
      closeRequested := false;
      this.joiners := joiners;
      effects := [];
    }

    /** Takes one slot's handle, if it is still there, and joins or aborts it. */
    method JoinBestEffort(i: nat)
      requires i < |joiners|
      modifies this`joiners, this`effects
      ensures joiners == old(joiners)[i := old(joiners)[i].(handle := None)]
      ensures effects == old(effects) + EffectsOf([old(joiners)[i]])
    {
      var target := joiners[i];
      joiners := joiners[i := target.(handle := None)];
      assert [target][1..] == [];
      match target
      case Thread(Some(id)) => effects := effects + [Joined(id)];
      case Task(Some(id)) => effects := effects + [Aborted(id)];
      case _ =>
    }

    /** Sets the flag before anything is joined, then deals with every slot in order. */
    method Release()
      modifies this
      ensures closeRequested && |joiners| == |old(joiners)| && AllTaken(joiners)
      ensures effects == old(effects) + [FlagSet] + EffectsOf(old(joiners))
    {
      closeRequested := true;
      effects := effects + [FlagSet];
      ghost var first := effects;
      for i := 0 to |joiners|
        invariant closeRequested && |joiners| == |old(joiners)|
        invariant forall k :: 0 <= k < i ==> joiners[k].handle.None?
        invariant forall k :: i <= k < |joiners| ==> joiners[k] == old(joiners)[k]
        invariant effects == first + EffectsOf(old(joiners)[..i])
      {
        assert old(joiners)[..i + 1] == old(joiners)[..i] + [old(joiners)[i]];
        EffectsSnoc(old(joiners)[..i], old(joiners)[i]);
        JoinBestEffort(i);
      }
      assert old(joiners)[..|joiners|] == old(joiners);
    }

    /** `close`, behind which the handle is dropped: the drop finds the flag set and the slots empty. */
    method Close()
      modifies this
      ensures closeRequested && AllTaken(joiners)
      ensures effects == old(effects) + [FlagSet] + EffectsOf(old(joiners)) + [FlagSet]
    {
      Release();
      NothingTwice(joiners);
      Release();
    }
  }
}
