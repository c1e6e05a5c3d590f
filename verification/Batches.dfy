/** One source command over all workspaces: the ready boundaries are captured before any of them is worked on. */
module Batches {
  import opened Documents
  import opened Lifecycle
  import opened BoundaryRules
  import opened BoundaryOperations
  import Conversion
  import Titus
  import Runs

  /** Different boundaries, each with services of its own. */
  ghost predicate Ready(boundaries: seq<Boundary>)
    reads set b | b in boundaries
  {
    && Apart(boundaries)
    && forall b <- boundaries :: Consistent(b.world, b.disk) && b.disk.record.Some?
  }

  ghost predicate Apart(boundaries: seq<Boundary>) {
    forall i, j :: 0 <= i < j < |boundaries| ==>
      && boundaries[i] != boundaries[j]
      && boundaries[i].judgeService != boundaries[j].judgeService
      && boundaries[i].reader != boundaries[j].reader
  }

  /** What a stage counts: nothing else than the questions it put to the judge or to the reader. */
  ghost function Asked(b: Boundary, stage: Stage): nat
    reads b.judgeService, b.reader
  {
    match stage
    case Scan => 0
    case Judge => |b.judgeService.asked|
    case Extract => |b.reader.consulted|
  }

  /** Why a stage raises without faults: a scan has nothing to export, or extraction meets an obstruction. */
  ghost predicate Stuck(b: Boundary, stage: Stage)
    reads b
  {
    match stage
    case Scan => b.disk.InPhase(Scan) && !Exportable(b.disk)
    case Judge => false
    case Extract => b.disk.InPhase(Extract) && Obstructed(b.world, b.disk)
  }

  /** The stage did its whole work on the boundary, retries included if they were asked for, or only audited it. */
  ghost predicate StageDid(w: World, was: Disk, now: Disk, stage: Stage, failed: bool, boundary: string,
                           policy: Conversion.Policy)
  {
    match stage
    case Scan => exists work :: ScanDid(was, now, failed, boundary, policy, work)
    case Judge => exists asked :: Judged(was, now, failed, asked)
    case Extract =>
      || (OnlyAudits(was, failed) && now == was)
      || exists settled, met :: Extracted(w, was, now, failed, settled, met)
  }

  /** Run one stage command on one boundary; a scan counts as one when it ran. */
  method RunStage(b: Boundary, stage: Stage, failed: bool, policy: Conversion.Policy, faults: bool)
      returns (outcome: Outcome<nat>)
    requires Consistent(b.world, b.disk) && b.disk.record.Some?
    modifies b, b.scanner, b.judgeService, b.reader
    ensures b.Traced() && b.start == old(b.disk)
    ensures outcome.Raised? ==> faults || Stuck(b, stage)
    ensures Eligible(old(b.disk), stage, failed) != Ok(true) ==> b.disk == old(b.disk) && outcome == Returned(0)
    ensures Eligible(old(b.disk), stage, failed) == Ok(true) && outcome.Returned? ==>
              && b.disk.InPhase(Next(stage))
              && StageDid(b.world, old(b.disk), b.disk, stage, failed, b.boundaryId, policy)
              && if stage == Scan then outcome.value == 1 else Asked(b, stage) == old(Asked(b, stage)) + outcome.value
  {
    hide Consistent, Eligible, Boundary.Traced, Conversion.Converts, ScansOnce, Extracted, ExtractedSoFar, ScanStopped,
         ScannedTargets, Publishes, Judged, JudgedSoFar, RetainsOwed, MetOnce, Disk.Published, Disk.SavedFailure,
         Obstructed, Entered, Exportable, ScanFell;
    SelectedIsLoadable(b.world, b.disk, stage, failed);
    match stage {
      case Scan =>
        ghost var was := b.disk;
        var ran, work := b.ScanBoundary(failed, policy, faults);
        if ran.Raised? && !faults {
          FallenIsNotExportable(was, b.disk, failed, work);
        }
        return if ran.Raised? then Raised else if ran.value then Returned(1) else Returned(0);
      case Judge =>
        var count, _ := b.JudgeBoundary(failed, faults);
        return count;
      case Extract =>
        var count, _, _ := b.ExtractBoundary(failed, faults);
        return count;
    }
  }

  lemma FallenIsNotExportable(was: Disk, now: Disk, failed: bool, work: ScanWork)
    requires ScanFell(was, now, failed, work) && Unexportable(Entered(was, Scan, failed), work.made)
    ensures !Exportable(now)
  {
    hide Entered, Titus.TriedOnly, Titus.Makes, Told;
    var before, after := Entered(was, Scan, failed).targets.value.targets, now.targets.value.targets;
    assert before.Keys == after.Keys;
    assert before != map[] ==> before.Keys != {};
  }

  function Sum(counts: seq<nat>): nat { if counts == [] then 0 else Sum(counts[..|counts| - 1]) + counts[|counts| - 1] }

  lemma SumNext(counts: seq<nat>, n: nat)
    ensures Sum(counts + [n]) == Sum(counts) + n
  {
    assert (counts + [n])[..|counts|] == counts;
  }

  /** What the batch is told to do. */
  datatype Order = Order(stage: Stage, failed: bool, policy: Conversion.Policy)

  /** What one boundary of the batch looks like after its turn. */
  ghost predicate Ran(b: Boundary, c: Order, was: Disk, asked: nat, count: nat)
    reads b, b.judgeService, b.reader
  {
    var stage := c.stage;
    && Consistent(b.world, b.disk) && Evolves(was, b.disk) && b.disk.InPhase(Next(stage))
    && StageDid(b.world, was, b.disk, stage, c.failed, b.boundaryId, c.policy)
    && if stage == Scan then count == 1 else Asked(b, stage) == asked + count
  }

  /** The ready boundaries, before any of them is worked on. */
  method SelectBatch(boundaries: seq<Boundary>, stage: Stage, failed: bool) returns (batch: seq<Boundary>)
    requires Ready(boundaries)
    ensures Ready(batch) && forall b <- batch :: b in boundaries
    ensures forall b <- boundaries :: b in batch <==> Eligible(b.disk, stage, failed) == Ok(true)
  {
    hide Consistent, Eligible;
    batch := [];
    for i := 0 to |boundaries|
      invariant forall b <- batch :: b in boundaries[..i]
      invariant forall b <- boundaries[..i] :: b in batch <==> Eligible(b.disk, stage, failed) == Ok(true)
      invariant Apart(batch)
    {
      var b := boundaries[i];
      assert forall x <- batch :: x != b && x.judgeService != b.judgeService && x.reader != b.reader;
      var eligible := Eligible(b.disk, stage, failed);
      if eligible == Ok(true) {
        batch := batch + [b];
      }
      assert boundaries[..i + 1] == boundaries[..i] + [b];
    }
    assert boundaries[..|boundaries|] == boundaries;
  }

  method RunAndCount(b: Boundary, stage: Stage, failed: bool, policy: Conversion.Policy, faults: bool)
      returns (outcome: Outcome<nat>)
    requires Consistent(b.world, b.disk) && b.disk.record.Some? && Eligible(b.disk, stage, failed) == Ok(true)
    modifies b, b.scanner, b.judgeService, b.reader
    ensures Consistent(b.world, b.disk) && Evolves(old(b.disk), b.disk)
    ensures outcome.Raised? ==> faults || Stuck(b, stage)
    ensures outcome.Returned? ==> Ran(b, Order(stage, failed, policy), old(b.disk), old(Asked(b, stage)), outcome.value)
  {
    hide Consistent, Eligible, Evolves, Obstructed, Asked, Disk.InPhase, StageDid;
    outcome := RunStage(b, stage, failed, policy, faults);
    TracedEvolves(b);
  }

  /** Run the batch, and count. */
  method RunBatch(batch: seq<Boundary>, stage: Stage, failed: bool, policy: Conversion.Policy, faults: bool)
      returns (total: Outcome<nat>, ghost counts: seq<nat>)
    requires Ready(batch) && forall b <- batch :: Eligible(b.disk, stage, failed) == Ok(true)
    modifies set b | b in batch
    modifies set b | b in batch :: b.scanner
    modifies set b | b in batch :: b.judgeService
    modifies set b | b in batch :: b.reader
    ensures forall i :: 0 <= i < |batch| ==>
              Consistent(batch[i].world, batch[i].disk) && Evolves(old(batch[i].disk), batch[i].disk)
    ensures total.Raised? ==>
              faults || exists i :: 0 <= i < |batch| && Stuck(batch[i], stage)
    ensures total.Returned? ==>
              && |counts| == |batch| && total.value == Sum(counts)
              && forall i :: 0 <= i < |batch| ==>
                   Ran(batch[i], Order(stage, failed, policy), old(batch[i].disk), old(Asked(batch[i], stage)),
                       counts[i])
  {
    hide Consistent, Eligible, Evolves, Obstructed, Asked, Ran, Apart, Disk.InPhase;
    counts := [];
    var sum: nat := 0;
    ghost var order := Order(stage, failed, policy);
    ghost var was := seq(|batch|, j requires 0 <= j < |batch| => old(batch[j].disk));
    ghost var asked := seq(|batch|, j requires 0 <= j < |batch| => old(Asked(batch[j], stage)));
    for i := 0 to |batch|
      invariant |counts| == i && sum == Sum(counts)
      invariant forall j :: i <= j < |batch| ==>
                  && batch[j].disk == old(batch[j].disk)
                  && Asked(batch[j], stage) == old(Asked(batch[j], stage))
      invariant forall j :: 0 <= j < i ==>
                  Ran(batch[j], Order(stage, failed, policy), old(batch[j].disk), old(Asked(batch[j], stage)),
                      counts[j])
    {
      var b := batch[i];
      assert b in batch;
      ApartAt(batch, i);
      var outcome := RunAndCount(b, stage, failed, policy, faults);
      if outcome.Raised? {
        AllEvolved(batch, order, was, asked, counts, i);
        return Raised, counts;
      }
      sum := sum + outcome.value;
      SumNext(counts, outcome.value);
      counts := counts + [outcome.value];
    }
    AllEvolved(batch, order, was, asked, counts, |batch|);
    return Returned(sum), counts;
  }

  lemma ApartAt(batch: seq<Boundary>, i: nat)
    requires Apart(batch) && i < |batch|
    ensures forall j :: 0 <= j < |batch| && j != i ==>
              && batch[j] != batch[i] && batch[j].judgeService != batch[i].judgeService
              && batch[j].reader != batch[i].reader
  {
  }

  /** Those that ran and those still to come have kept their histories. */
  lemma AllEvolved(batch: seq<Boundary>, order: Order, was: seq<Disk>, asked: seq<nat>, counts: seq<nat>, i: nat)
    requires |was| == |asked| == |batch| && |counts| <= i <= |batch|
    requires forall j :: 0 <= j < |counts| ==> Ran(batch[j], order, was[j], asked[j], counts[j])
    requires forall j :: |counts| <= j < |batch| ==>
               Consistent(batch[j].world, batch[j].disk) && (batch[j].disk == was[j] || Evolves(was[j], batch[j].disk))
    ensures forall j :: 0 <= j < |batch| ==>
              Consistent(batch[j].world, batch[j].disk) && Evolves(was[j], batch[j].disk)
  {
    hide Consistent, Evolves, Asked, StageDid;
    forall j | 0 <= j < |batch|
      ensures Consistent(batch[j].world, batch[j].disk) && Evolves(was[j], batch[j].disk)
    {
      if j >= |counts| && batch[j].disk == was[j] {
        Runs.EvolvesReflexive(batch[j].world, batch[j].disk);
      }
    }
  }

  /** Capture the whole batch first, then run it. Boundaries outside the batch are not touched, and those inside it
      are handed on and counted unless something raised. */
  method RunSources(boundaries: seq<Boundary>, stage: Stage, failed: bool, policy: Conversion.Policy, faults: bool)
      returns (total: Outcome<nat>, batch: seq<Boundary>, ghost counts: seq<nat>)
    requires Ready(boundaries)
    modifies set b | b in boundaries
    modifies set b | b in boundaries :: b.scanner
    modifies set b | b in boundaries :: b.judgeService
    modifies set b | b in boundaries :: b.reader
    ensures forall b <- boundaries :: b in batch <==> Eligible(old(b.disk), stage, failed) == Ok(true)
    ensures forall b <- boundaries :: b !in batch ==> b.disk == old(b.disk)
    ensures forall b <- batch :: b in boundaries && Consistent(b.world, b.disk) && Evolves(old(b.disk), b.disk)
    ensures total.Raised? ==>
              faults || exists i :: 0 <= i < |batch| && Stuck(batch[i], stage)
    ensures total.Returned? ==>
              && |counts| == |batch| && total.value == Sum(counts)
              && forall i :: 0 <= i < |batch| ==>
                   && batch[i] in boundaries
                   && Ran(batch[i], Order(stage, failed, policy), old(batch[i].disk), old(Asked(batch[i], stage)),
                          counts[i])
  {
    hide Consistent, Eligible, Evolves, Obstructed, Asked, Ran;
    batch := SelectBatch(boundaries, stage, failed);
    total, counts := RunBatch(batch, stage, failed, policy, faults);
  }

  /** A command that obeyed the protocol took nothing back. */
  lemma TracedEvolves(b: Boundary)
    requires b.Traced()
    ensures Consistent(b.world, b.disk) && Evolves(b.start, b.disk)
    ensures b.start.record.Some? ==> b.disk.record.Some?
  {
    hide Consistent, Evolves, Runs.Ascends;
    Runs.RunKeeps(b.world, b.start, b.log);
    if b.start.record.Some? {
      RecordStays(b.world, b.start, b.log);
    }
  }

  lemma {:induction false} RecordStays(w: World, d: Disk, t: Runs.Trace)
    requires d.record.Some?
    ensures Runs.Replay(d, t).record.Some?
  {
    if t != [] {
      RecordStays(w, d, t[..|t| - 1]);
    }
  }
}
