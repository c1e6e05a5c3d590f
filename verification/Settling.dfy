/** Cleanup that survives cancellation: each owner stays until the work it started has settled, however often it is
    cancelled meanwhile. Every await and every deed of an owner is one step of its trace, in order. */
module Settling {
  import opened Documents

  /** How one shielded await ends: by a cancellation of the owner, when the work may or may not have settled by then,
      or because the work settled. */
  datatype Wake = Interrupted(settled: bool) | Finished

  predicate Settles(w: Wake) { w.Finished? || w.settled }

  /** The work settles at some point; before that any number of cancellations may arrive. */
  ghost predicate Eventually(wakes: seq<Wake>) { exists k :: 0 <= k < |wakes| && Settles(wakes[k]) }

  function FirstSettled(wakes: seq<Wake>): (k: nat)
    requires Eventually(wakes)
    ensures k < |wakes| && Settles(wakes[k]) && forall i :: 0 <= i < k ==> !Settles(wakes[i])
  {
    if Settles(wakes[0]) then 0
    else
      assert Eventually(wakes[1..]) by {
        var k :| 0 <= k < |wakes| && Settles(wakes[k]);
        assert wakes[1..][k - 1] == wakes[k];
      }
      1 + FirstSettled(wakes[1..])
  }

  /** A cancellation arrived before or with the settlement. */
  ghost predicate Heard(wakes: seq<Wake>)
    requires Eventually(wakes)
  {
    exists i :: 0 <= i <= FirstSettled(wakes) && wakes[i].Interrupted?
  }

  datatype Exit<T> = Returned(value: T) | Cancelled | Raised

  /** The kinds of work that an owner waits for. */
  datatype Work = Launching | Reaping | Extracting | Closing

  /** Starting work, killing a child, one await and how it ended, looking at the result of settled work, and deleting
      the input of an archive worker. */
  datatype Step = Started(work: Work) | Killed | Woke(work: Work, wake: Wake) | Observed(work: Work) | Deleted

  // Traces

  predicate SettledBy(step: Step, work: Work) { step.Woke? && step.work == work && Settles(step.wake) }

  /** Which work must have settled before this step may be taken. */
  function Awaits(step: Step): Option<Work> {
    match step
    case Observed(work) => Some(work)
    case Deleted => Some(Extracting)
    case _ => None
  }

  /** No result is looked at and no input deleted before an await has shown that the work is settled. */
  ghost predicate Patient(trace: seq<Step>) {
    forall i :: 0 <= i < |trace| && Awaits(trace[i]).Some? ==>
      exists j :: 0 <= j < i && SettledBy(trace[j], Awaits(trace[i]).value)
  }

  /** Every work that was started has been seen to settle. */
  ghost predicate Joined(trace: seq<Step>) {
    forall i :: 0 <= i < |trace| && trace[i].Started? ==>
        exists j :: i < j < |trace| && SettledBy(trace[j], trace[i].work)
  }

  /** The awaits of one work up to its settlement. */
  function Waking(work: Work, wakes: seq<Wake>): (steps: seq<Step>)
    ensures |steps| == |wakes| && forall i :: 0 <= i < |wakes| ==> steps[i] == Woke(work, wakes[i])
  {
    if wakes == [] then [] else Waking(work, wakes[..|wakes| - 1]) + [Woke(work, wakes[|wakes| - 1])]
  }

  lemma WakingNext(work: Work, wakes: seq<Wake>, first: nat, k: nat)
    requires first <= k < |wakes|
    ensures Waking(work, wakes[first..k + 1]) == Waking(work, wakes[first..k]) + [Woke(work, wakes[k])]
  {
    var w := wakes[first..k + 1];
    assert w[..|w| - 1] == wakes[first..k];
  }

  lemma WakingNone(work: Work)
    ensures Waking(work, []) == []
  {
  }

  /** Starting one work and waiting until it has settled. */
  function JoinedSteps(work: Work, wakes: seq<Wake>): seq<Step>
    requires Eventually(wakes)
  {
    [Started(work)] + Waking(work, wakes[..FirstSettled(wakes) + 1])
  }

  lemma SettlesAtEnd(work: Work, wakes: seq<Wake>)
    requires Eventually(wakes)
    ensures var steps := JoinedSteps(work, wakes);
            && SettledBy(steps[|steps| - 1], work)
            && forall i :: 0 <= i < |steps| ==> Awaits(steps[i]).None? && (steps[i].Started? ==> i == 0)
  {
  }

  lemma PatientConcat(a: seq<Step>, b: seq<Step>)
    requires Patient(a) && Patient(b)
    ensures Patient(a + b)
  {
    var t := a + b;
    forall i | 0 <= i < |t| && Awaits(t[i]).Some?
      ensures exists j :: 0 <= j < i && SettledBy(t[j], Awaits(t[i]).value)
    {
      if i < |a| {
        var j :| 0 <= j < i && SettledBy(a[j], Awaits(a[i]).value);
        assert SettledBy(t[j], Awaits(t[i]).value);
      } else {
        var j :| 0 <= j < i - |a| && SettledBy(b[j], Awaits(b[i - |a|]).value);
        assert SettledBy(t[|a| + j], Awaits(t[i]).value);
      }
    }
  }

  lemma JoinedConcat(a: seq<Step>, b: seq<Step>)
    requires Joined(a) && Joined(b)
    ensures Joined(a + b)
  {
    var t := a + b;
    forall i | 0 <= i < |t| && t[i].Started?
      ensures exists j :: i < j < |t| && SettledBy(t[j], t[i].work)
    {
      if i < |a| {
        var j :| i < j < |a| && SettledBy(a[j], a[i].work);
        assert SettledBy(t[j], t[i].work);
      } else {
        var j :| i - |a| < j < |b| && SettledBy(b[j], b[i - |a|].work);
        assert SettledBy(t[|a| + j], t[i].work);
      }
    }
  }

  /** Waiting for a work and then looking at it, whatever else is done last. */
  lemma JoinIsPatient(work: Work, wakes: seq<Wake>, last: seq<Step>)
    requires Eventually(wakes) && forall s <- last :: !s.Started? && (Awaits(s).None? || Awaits(s) == Some(work))
    ensures Patient(JoinedSteps(work, wakes) + last) && Joined(JoinedSteps(work, wakes) + last)
  {
    SettlesAtEnd(work, wakes);
    var steps := JoinedSteps(work, wakes);
    var t := steps + last;
    forall i | 0 <= i < |t| && Awaits(t[i]).Some?
      ensures exists j :: 0 <= j < i && SettledBy(t[j], Awaits(t[i]).value)
    {
      assert t[i] in last;
      assert SettledBy(t[|steps| - 1], work);
    }
    forall i | 0 <= i < |t| && t[i].Started?
      ensures exists j :: i < j < |t| && SettledBy(t[j], t[i].work)
    {
      assert SettledBy(t[|steps| - 1], work);
    }
  }

  /** The first k steps show no settlement of this work. */
  ghost predicate Unsettled(trace: seq<Step>, k: nat, work: Work)
    requires k <= |trace|
  {
    forall i :: 0 <= i < k ==> !SettledBy(trace[i], work)
  }

  /** Nothing is deleted or observed in any prefix that holds no settling wake. */
  lemma NothingEarly(trace: seq<Step>, k: nat, work: Work)
    requires Patient(trace) && k <= |trace| && Unsettled(trace, k, work)
    ensures forall i :: 0 <= i < k ==> Awaits(trace[i]) != Some(work)
  {
  }

  // Owners

  /** One asynchronous owner. Its trace is written by the four primitives only. */
  class Owner {
    var trace: seq<Step>

    constructor ()
      ensures trace == []
    {
      trace := [];
    }

    method Start(work: Work)
      modifies this
      ensures trace == old(trace) + [Started(work)]
    {
      trace := trace + [Started(work)];
    }

    /** Await the work under a shield. The k-th await ends as the k-th wake says. */
    method Await(work: Work, wakes: seq<Wake>, k: nat) returns (wake: Wake)
      requires k < |wakes|
      modifies this
      ensures wake == wakes[k] && trace == old(trace) + [Woke(work, wake)]
    {
      wake := wakes[k];
      trace := trace + [Woke(work, wake)];
    }

    /** Look at the result of settled work. */
    method Observe(work: Work)
      modifies this
      ensures trace == old(trace) + [Observed(work)]
    {
      trace := trace + [Observed(work)];
    }

    method Do(deed: Step)
      requires deed.Killed? || deed.Deleted?
      modifies this
      ensures trace == old(trace) + [deed]
    {
      trace := trace + [deed];
    }

    /** Go on awaiting until the work has settled, remembering a cancellation. */
    method JoinFrom(work: Work, wakes: seq<Wake>, first: nat) returns (cancelled: bool)
      requires Eventually(wakes) && first <= FirstSettled(wakes) + 1
      modifies this
      ensures trace == old(trace) + Waking(work, wakes[first..FirstSettled(wakes) + 1])
      ensures cancelled <==> exists i :: first <= i <= FirstSettled(wakes) && wakes[i].Interrupted?
    {
      hide Waking;
      var awaits := first;
      var settled := first > 0 && Settles(wakes[first - 1]);
      cancelled := false;
      WakingNone(work);
      assert wakes[first..first] == [];
      while !settled
        invariant first <= awaits <= FirstSettled(wakes) + 1
        invariant settled <==> awaits == FirstSettled(wakes) + 1
        invariant cancelled <==> exists i :: first <= i < awaits && wakes[i].Interrupted?
        invariant trace == old(trace) + Waking(work, wakes[first..awaits])
        decreases FirstSettled(wakes) + 1 - awaits
      {
        WakingNext(work, wakes, first, awaits);
        var wake := Await(work, wakes, awaits);
        if wake.Interrupted? {
          cancelled := true;
        }
        settled := Settles(wake);
        awaits := awaits + 1;
      }
    }

    /** Start a work and await it; a cancelled first await is followed by as many as the work needs to settle. */
    method Shield(work: Work, wakes: seq<Wake>) returns (interrupted: bool)
      requires Eventually(wakes)
      modifies this
      ensures trace == old(trace) + JoinedSteps(work, wakes)
      ensures interrupted <==> Heard(wakes)
      ensures interrupted <==> wakes[0].Interrupted?
    {
      hide Waking, Heard;
      Start(work);
      var first := Await(work, wakes, 0);
      FirstWake(work, wakes);
      interrupted := first.Interrupted?;
      if interrupted {
        var more := JoinFrom(work, wakes, 1);
      }
      assert trace == old(trace) + JoinedSteps(work, wakes);
    }

    // Child processes

    /** A live child is killed, and the owner stays until it is reaped. The cancellation surfaces unless reaping
        fails. */
    method Reap(exited: bool, fails: bool, wakes: seq<Wake>) returns (exit: Exit<()>)
      requires Eventually(wakes)
      modifies this
      ensures trace == old(trace) + Reaped(exited, wakes)
      ensures exit == if exited then Returned(()) else if fails then Raised else if Heard(wakes)
              then Cancelled else Returned(())
    {
      if exited {
        return Returned(());
      }
      Do(Killed);
      Start(Reaping);
      var cancelled := JoinFrom(Reaping, wakes, 0);
      Observe(Reaping);
      if fails {
        return Raised;
      }
      return if cancelled then Cancelled else Returned(());
    }

    /** How a launch ends decides who owns the child: the caller that received it, or else this owner reaps it. */
    method Spawn(launch: Launch, fails: bool, wakes: seq<Wake>, reaping: seq<Wake>) returns (exit: Exit<bool>)
      requires Eventually(wakes) && Eventually(reaping)
      modifies this
      ensures trace == old(trace) + Spawned(launch, wakes, reaping)
      ensures exit.Returned? <==> launch.Child? && !Heard(wakes)
      ensures exit.Returned? ==> exit.value == launch.exited
      ensures Heard(wakes) ==> exit == if launch.Child? && !launch.exited && fails then Raised else Cancelled
      ensures !Heard(wakes) && launch.Refused? ==> exit == Raised
      ensures !Heard(wakes) && launch.Abandoned? ==> exit == Cancelled
    {
      hide JoinedSteps, Heard, Reaped;
      var interrupted := Shield(Launching, wakes);
      if !interrupted {
        match launch {
          case Child(exited) => return Returned(exited);
          case Refused => return Raised;
          case Abandoned => return Cancelled;
        }
      }
      if launch.Child? {
        var reaped := Reap(launch.exited, fails, reaping);
        if reaped.Raised? {
          return Raised;
        }
      }
      return Cancelled;
    }

    // Archives

    /** The archive is deleted last, after its worker has settled; a cancellation surfaces whatever the worker did. */
    method ReadArchive<T>(worker: Exit<T>, wakes: seq<Wake>) returns (exit: Exit<T>)
      requires Eventually(wakes)
      modifies this
      ensures trace == old(trace) + JoinedSteps(Extracting, wakes) + [Observed(Extracting), Deleted]
      ensures exit == if Heard(wakes) then Cancelled else worker
    {
      hide JoinedSteps, Heard;
      var interrupted := Shield(Extracting, wakes);
      exit := if interrupted then Cancelled else worker;
      Observe(Extracting);
      Do(Deleted);
    }
  }

  lemma FirstWake(work: Work, wakes: seq<Wake>)
    requires Eventually(wakes)
    ensures var k := FirstSettled(wakes) + 1;
            Waking(work, wakes[..k]) == [Woke(work, wakes[0])] + Waking(work, wakes[1..k])
    ensures wakes[0].Interrupted? ==> Heard(wakes)
    ensures wakes[0].Finished? ==> !Heard(wakes) && FirstSettled(wakes) == 0 && Waking(work, wakes[1..1]) == []
  {
    var k := FirstSettled(wakes) + 1;
    var all, rest := Waking(work, wakes[..k]), Waking(work, wakes[1..k]);
    assert forall i :: 1 <= i < k ==> wakes[1..k][i - 1] == wakes[i];
    assert all == [Woke(work, wakes[0])] + rest;
  }

  /** A launch gives a child, is refused by the system, or is itself cancelled. */
  datatype Launch = Child(exited: bool) | Refused | Abandoned

  /** All that is done about a child: nothing when it has exited, and otherwise kill, join, and only then look. */
  function Reaped(exited: bool, wakes: seq<Wake>): seq<Step>
    requires Eventually(wakes)
  {
    if exited then [] else [Killed] + JoinedSteps(Reaping, wakes) + [Observed(Reaping)]
  }

  /** All that is done about a launch: it is joined, and a child that no caller receives is reaped. */
  function Spawned(launch: Launch, wakes: seq<Wake>, reaping: seq<Wake>): seq<Step>
    requires Eventually(wakes) && Eventually(reaping)
  {
    JoinedSteps(Launching, wakes)
    + if launch.Child? && wakes[0].Interrupted? then Reaped(launch.exited, reaping) else []
  }

  // What the traces mean

  lemma PatientNothing()
    ensures Patient([]) && Joined([]) && Patient([Killed]) && Joined([Killed])
  {
  }

  /** A child is never left before it is joined, whatever is cancelled meanwhile. */
  lemma ReapedIsJoined(exited: bool, wakes: seq<Wake>)
    requires Eventually(wakes)
    ensures Patient(Reaped(exited, wakes)) && Joined(Reaped(exited, wakes))
  {
    PatientNothing();
    if !exited {
      JoinIsPatient(Reaping, wakes, [Observed(Reaping)]);
      var rest := JoinedSteps(Reaping, wakes) + [Observed(Reaping)];
      PatientConcat([Killed], rest);
      JoinedConcat([Killed], rest);
      assert Reaped(exited, wakes) == [Killed] + rest;
    }
  }

  /** The owner leaves only after everything it started has settled, and a live child that no caller receives has then
      been killed and seen to settle too. */
  lemma SpawnedIsJoined(launch: Launch, wakes: seq<Wake>, reaping: seq<Wake>)
    requires Eventually(wakes) && Eventually(reaping)
    ensures var trace := Spawned(launch, wakes, reaping);
            && Patient(trace) && Joined(trace)
            && (launch.Child? && !launch.exited && Heard(wakes) ==> Killed in trace && Started(Reaping) in trace)
  {
    hide JoinedSteps, Patient, Joined;
    var head := JoinedSteps(Launching, wakes);
    var tail := if launch.Child? && wakes[0].Interrupted? then Reaped(launch.exited, reaping) else [];
    JoinIsPatient(Launching, wakes, []);
    assert head + [] == head;
    PatientNothing();
    FirstWake(Launching, wakes);
    if launch.Child? {
      ReapedIsJoined(launch.exited, reaping);
      ReapingStarts(launch.exited, reaping);
    }
    PatientConcat(head, tail);
    JoinedConcat(head, tail);
  }

  lemma ReapingStarts(exited: bool, wakes: seq<Wake>)
    requires Eventually(wakes)
    ensures !exited ==> Killed in Reaped(exited, wakes) && Started(Reaping) in Reaped(exited, wakes)
  {
    if !exited {
      assert Reaped(exited, wakes)[0] == Killed && Reaped(exited, wakes)[1] == Started(Reaping);
    }
  }

  /** An archive is deleted only after its worker has settled: it still exists at every earlier point. */
  lemma ArchiveOutlivesWorker(wakes: seq<Wake>)
    requires Eventually(wakes)
    ensures var trace := JoinedSteps(Extracting, wakes) + [Observed(Extracting), Deleted];
            && Patient(trace) && Joined(trace)
            && forall k: nat :: k <= |trace| && Unsettled(trace, k, Extracting) ==> Deleted !in trace[..k]
  {
    hide JoinedSteps, Patient, Joined, Unsettled;
    var trace := JoinedSteps(Extracting, wakes) + [Observed(Extracting), Deleted];
    JoinIsPatient(Extracting, wakes, [Observed(Extracting), Deleted]);
    forall k: nat | k <= |trace| && Unsettled(trace, k, Extracting)
      ensures Deleted !in trace[..k]
    {
      NothingEarly(trace, k, Extracting);
    }
  }

  // The workspace lifetime

  /** Closing runs once, and stays until its cleanup has settled. */
  class Lifetime {
    var closed: bool
    const owner: Owner

    constructor ()
      ensures !closed && fresh(owner) && owner.trace == []
    {
      closed := false;
      owner := new Owner();
    }

    method Close(fails: bool, wakes: seq<Wake>) returns (exit: Exit<()>)
      requires Eventually(wakes)
      modifies this, owner
      ensures closed
      ensures owner.trace == old(owner.trace) + Closed(old(closed), wakes)
      ensures exit ==
              if old(closed) then Returned(())
              else if fails then Raised
              else if Heard(wakes) then Cancelled
              else Returned(())
    {
      hide Waking;
      if closed {
        return Returned(());
      }
      closed := true;
      owner.Start(Closing);
      var cancelled := owner.JoinFrom(Closing, wakes, 0);
      owner.Observe(Closing);
      if fails {
        return Raised;
      }
      return if cancelled then Cancelled else Returned(());
    }
  }

  function Closed(already: bool, wakes: seq<Wake>): seq<Step>
    requires Eventually(wakes)
  {
    if already then [] else JoinedSteps(Closing, wakes) + [Observed(Closing)]
  }

  lemma ClosedIsJoined(already: bool, wakes: seq<Wake>)
    requires Eventually(wakes)
    ensures Patient(Closed(already, wakes)) && Joined(Closed(already, wakes))
  {
    PatientNothing();
    if !already {
      JoinIsPatient(Closing, wakes, [Observed(Closing)]);
    }
  }
}
