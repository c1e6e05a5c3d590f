/** The mutable aggregate of one boundary: it loads, works in memory, checkpoints, and hands its phase on last. */
module BoundaryOperations {
  import opened Documents
  import opened Evidence
  import opened Lifecycle
  import opened Runs
  import CredentialMerge
  import Conversion
  import opened InventoryMerge
  import opened Services
  import Titus
  import opened BoundaryRules

  class Boundary {
    const world: World
    const backendId: string
    const boundaryId: string

    const scanner: Titus.Scanner
    const judgeService: JudgeService
    const reader: EvidenceReader

    /** The directory, and a record of every write since the current command began. */
    var disk: Disk
    ghost var start: Disk
    ghost var log: Trace
    /** The current command, and on whose behalf it writes. */
    ghost var command: Command
    ghost var writer: Actor

    var record: BoundaryRecord
    var inventory: Inventory
    var report: Report
    var credentials: CredentialsDocument
    var hasReport: bool
    var hasCredentials: bool
    var serving: bool

    constructor (world: World, backendId: string, boundaryId: string, disk: Disk)
      ensures this.world == world && this.disk == disk && this.backendId == backendId && this.boundaryId == boundaryId
    {
      this.world, this.backendId, this.boundaryId, this.disk := world, backendId, boundaryId, disk;
      start, log, writer, command := disk, [], Inventorist, Refresh(None);
      scanner := new Titus.Scanner();
      judgeService := new JudgeService();
      reader := new EvidenceReader();
      record := BoundaryRecord(backendId, boundaryId, Absent, Scan);
      inventory := Inventory(0, boundaryId, map[], []);
      report, credentials := EmptyReport(boundaryId), EmptyCredentials(boundaryId);
      hasReport, hasCredentials, serving := false, false, false;
    }

    /** Every write of the current command was its own and legal, so each point of it leaves a consistent directory,
        and the phase went back only as the command was licensed to take it. */
    ghost predicate Traced()
      reads `disk, `start, `log, `writer, `command
    {
      && Consistent(world, start) && Obeys(world, start, command, log)
      && disk == Replay(start, log) && Consistent(world, disk)
      && writer == ActorOf(command)
    }

    /** Memory shows exactly what the directory holds. */
    ghost predicate Loaded()
      reads this
    {
      && disk.Live() && disk.record == Some(record) && disk.targets == Some(inventory)
      && disk.report == (if hasReport then Some(report) else None)
      && disk.credentials == (if hasCredentials then Some(credentials) else None)
      && (!hasCredentials ==> credentials == EmptyCredentials(boundaryId))
    }

    /** One atomic replacement of one document, or one file operation. */
    method Write(write: Write)
      requires Traced() && Allowed(world, disk, Event(writer, write))
      requires Licensed(start, command) || Forward(disk, Event(writer, write))
      modifies `disk, `log
      ensures Traced() && disk == Apply(old(disk), write) && log == old(log) + [Event(writer, write)]
    {
      hide Consistent, Allowed, Licensed, Forward, Obeys, Replay, Apply;
      StepKeeps(world, disk, Event(writer, write));
      ObeysNext(world, start, command, log, Event(writer, write));
      disk := Apply(disk, write);
      log := log + [Event(writer, write)];
    }

    /** A command starts from the directory as it finds it. */
    method Begin(ghost next: Command)
      requires Consistent(world, disk)
      modifies `start, `log, `writer, `command
      ensures Traced() && start == disk && log == [] && command == next && writer == ActorOf(next)
    {
      hide Consistent, Legal, Replay, Obeys;
      ObeysNothing(world, disk, next);
      start, log, command, writer := disk, [], next, ActorOf(next);
    }

    /** Read the record first, then the other documents of an available boundary. A missing document is an error. */
    method LoadState() returns (loaded: Result<bool, string>)
      modifies `record, `inventory, `report, `credentials, `hasReport, `hasCredentials
      ensures loaded == Load(disk)
      ensures loaded == Ok(true) ==> Loaded()
    {
      if disk.record.None? {
        return Err("missing boundary record");
      }
      record := disk.record.value;
      if record.availability == Absent {
        return Ok(false);
      }
      if disk.targets.None? {
        return Err("missing boundary scan targets");
      }
      if record.phase != Scan && (disk.report.None? || disk.credentials.None?) {
        return Err("phase requires published report and credentials");
      }
      inventory := disk.targets.value;
      hasReport, hasCredentials := disk.report.Some?, disk.credentials.Some?;
      report := if hasReport then disk.report.value else EmptyReport(boundaryId);
      credentials := if hasCredentials then disk.credentials.value else EmptyCredentials(boundaryId);
      return Ok(true);
    }

    ghost function CheckpointEvents(stage: Stage): Trace
      reads `inventory, `report, `credentials, `hasReport, `hasCredentials
    {
      CheckpointOf(stage, inventory, if hasReport then Some(report) else None,
                   if hasCredentials then Some(credentials) else None)
    }

    ghost predicate MayCheckpoint(stage: Stage)
      reads this
    {
      && disk.InPhase(stage)
      && WorkerMay(world, disk, stage, PutTargets(inventory))
      && (hasReport ==> WorkerMay(world, disk, stage, PutReport(report)))
      && (hasCredentials ==> WorkerMay(world, disk, stage, PutCredentials(credentials)))
    }

    method Checkpoint(ghost stage: Stage)
      requires Traced() && MayCheckpoint(stage) && writer == Worker(stage)
      modifies `disk, `log
      ensures Traced() && log == old(log) + CheckpointEvents(stage)
      ensures disk == old(disk).(targets := Some(inventory),
                                 report := if hasReport then Some(report) else old(disk).report,
                                 credentials := if hasCredentials then Some(credentials) else old(disk).credentials)
    {
      hide Consistent, Legal, Replay, WorkerMay, InventoristMay, Disk.InPhase;
      Write(PutTargets(inventory));
      if hasReport {
        IndependentDocuments(world, old(disk), disk, stage, PutReport(report));
        Write(PutReport(report));
      }
      if hasCredentials {
        IndependentDocuments(world, old(disk), disk, stage, PutCredentials(credentials));
        Write(PutCredentials(credentials));
      }
    }

    /** Load selected work and, for an explicit retry, reopen the stage before requeueing its saved failures. */
    method Operation(stage: Stage, failed: bool) returns (entry: Entry)
      requires Consistent(world, disk)
      modifies this
      ensures Traced() && start == old(disk) && command == Source(stage, failed) && writer == Worker(stage)
      ensures entry.Refused? <==> old(disk).record.None?
      ensures entry.NotSelected? <==> Eligible(old(disk), stage, failed) == Ok(false)
      ensures (entry.Refused? || entry.NotSelected?) <==> Eligible(old(disk), stage, failed) != Ok(true)
      ensures !entry.Serving? ==> disk == old(disk) && log == []
      ensures entry.Audit? <==> stage == Extract && OnlyAudits(old(disk), failed)
      ensures entry.Audit? || entry.Serving? ==> Loaded() && disk.targets.Some? && old(disk).targets.Some?
      ensures serving == entry.Serving?
      ensures entry.Serving? ==> disk.InPhase(stage)
      ensures entry.Serving? ==> disk == Entered(old(disk), stage, failed)
      ensures entry.Serving? && failed && old(disk).SavedFailure(stage) ==>
                Requeued(old(disk), disk, stage)
      ensures entry.Serving? && failed ==> NoneFailed(disk, stage)
      ensures !(failed && old(disk).SavedFailure(stage)) ==> disk == old(disk)
      ensures entry.Serving? && failed && old(disk).SavedFailure(stage) ==>
                log == [Event(Worker(stage), PutRecord(record))] + CheckpointEvents(stage)
      ensures entry.Serving? && !(failed && old(disk).SavedFailure(stage)) ==> log == []
    {
      hide Consistent, Legal, Replay, WorkerMay, Eligible, Load, Reopened, Disk.SavedFailure, CheckpointEvents, Traced,
           Requeued, NoneFailed;
      FailureMeans(disk, stage);
      Begin(Source(stage, failed));
      serving := false;
      if disk.record.None? {
        MissingRecordIsRefused(disk, stage, failed);
        return Refused;
      }
      SelectedIsLoadable(world, disk, stage, failed);
      if Eligible(disk, stage, failed) == Ok(false) {
        return NotSelected;
      }
      var loaded := LoadState();
      if failed && disk.SavedFailure(stage) {
        Requeue(stage);
      }
      if record.phase != stage {
        return Audit;
      }
      serving := true;
      return Serving;
    }

    method Requeue(stage: Stage)
      requires Traced() && Loaded() && disk.SavedFailure(stage) && stage.Rank() <= disk.record.value.phase.Rank()
      requires writer == Worker(stage)
      requires Licensed(start, command)
      modifies `disk, `log, `record, `inventory, `credentials
      ensures Traced() && Loaded()
      ensures disk == Reopened(old(disk), stage) && disk.InPhase(stage)
      ensures Requeued(old(disk), disk, stage) && NoneFailed(disk, stage)
      ensures log == old(log) + [Event(Worker(stage), PutRecord(record))] + CheckpointEvents(stage)
    {
      hide Consistent, Legal, Replay, WorkerMay, InventoristMay, Disk.SavedFailure, HandOffReady, CheckpointEvents,
           Obeys, RequeueTargets, RequeueCredentials, Licensed, Forward, Requeued, RequeuedCredentials;
      ReopenedIsRequeued(disk, stage);
      RequeueOnlyOwn(credentials, stage);
      RequeueOnlyOwn(EmptyCredentials(boundaryId), stage);
      MayReopen(world, disk, stage);
      record := record.(phase := stage);
      Write(PutRecord(record));
      RequeueTargetsAllowed(world, disk, stage);
      if hasCredentials {
        RequeueCredentialsAllowed(world, disk, stage);
      }
      if hasReport {
        SameReportAllowed(world, disk, stage);
      }
      if stage == Scan {
        inventory := RequeueTargets(inventory);
      } else {
        credentials := RequeueCredentials(credentials, stage);
      }
      Checkpoint(stage);
    }

    /** Publish readiness after every result is saved and the services are closed. */
    method Advance(stage: Stage)
      requires Traced() && Loaded() && !serving && disk.InPhase(stage) && HandOffReady(disk, stage)
      requires writer == Worker(stage)
      modifies `disk, `log, `record
      ensures Traced() && Loaded()
      ensures disk == old(disk).(record := Some(old(record).(phase := Next(stage))))
      ensures log == old(log) + [Event(Worker(stage), PutRecord(record))]
    {
      hide Consistent, Legal, Replay, InventoristMay, HandOffReady;
      record := record.(phase := Next(stage));
      Write(PutRecord(record));
    }

    // Scan

    /** Checkpoint new scan results. */
    method SaveTargets(targets: map<string, Target>)
      requires Traced() && Loaded() && disk.InPhase(Scan) && writer == Worker(Scan)
      requires targets.Keys == inventory.targets.Keys
      requires forall id <- targets :: TargetStep(inventory.targets[id], targets[id])
      modifies `disk, `log, `inventory
      ensures Traced() && Loaded() && inventory == old(inventory).(targets := targets)
      ensures disk == old(disk).(targets := Some(inventory))
    {
      hide Consistent, Legal, Replay, WorkerMay, InventoristMay, CheckpointEvents;
      ScannedTargetsAllowed(world, disk, inventory.(targets := targets));
      if hasReport {
        SameReportAllowed(world, disk, Scan);
      }
      if hasCredentials {
        SameCredentialsAllowed(world, disk, Scan);
      }
      inventory := inventory.(targets := targets);
      Checkpoint(Scan);
    }

    /** Targets left running by an interrupted scan become pending again. */
    method ResetInterrupted()
      requires Traced() && Loaded() && disk.InPhase(Scan) && writer == Worker(Scan)
      modifies `disk, `log, `inventory
      ensures Traced() && Loaded()
      ensures inventory == old(inventory).(targets := map id | id in old(inventory).targets ::
                                           ResetTarget(old(inventory).targets[id]))
      ensures disk == old(disk).(targets := Some(inventory))
    {
      hide Consistent, Legal, Replay, WorkerMay, InventoristMay, CheckpointEvents, Traced;
      var targets := map id | id in inventory.targets :: ResetTarget(inventory.targets[id]);
      if exists id <- inventory.targets :: inventory.targets[id].result.status.Running? {
        SaveTargets(targets);
      } else {
        assert targets == inventory.targets;
      }
    }

    /** Attempt each pending target once, checkpointing before and after. `made` is what the scanner did. */
    method AttemptTargets(faults: bool)
        returns (interrupted: bool, ghost attempted: seq<string>, ghost made: seq<Titus.Try>)
      requires Traced() && Loaded() && disk.InPhase(Scan) && writer == Worker(Scan)
      requires forall id <- inventory.targets :: !inventory.targets[id].result.status.Running?
      modifies `disk, `log, `inventory, scanner`tries
      ensures Traced() && disk.record == old(disk).record
      ensures scanner.tries == old(scanner.tries) + made
      ensures interrupted ==> faults && Titus.TriedAtMost(made, attempted)
      ensures NoDuplicates(attempted) && forall id <- attempted :: IsPending(old(inventory), id)
      ensures Loaded() && disk.InPhase(Scan)
      ensures disk == old(disk).(targets := Some(inventory), datastore := old(disk).datastore || Titus.Makes(made))
      ensures inventory == old(inventory).(targets := inventory.targets)
      ensures ScannedSoFar(old(inventory), inventory, attempted, made)
      ensures !interrupted ==>
                && Titus.TriedOnly(made, attempted) && inventory.Settled()
                && (forall id :: id in attempted <==> IsPending(old(inventory), id))
                && AttemptedOnly(old(inventory), inventory, attempted) && Told(inventory, made, attempted)
    {
      hide Consistent, InventoristMay, CheckpointEvents, Traced, AttemptedOnly, Titus.TriedOnly, Titus.TriedAtMost,
           Titus.AllOf, Titus.Makes, Told, Titus.Unfinished, Titus.Tells, ScannedSoFar;
      ghost var before := inventory;
      AttemptedNone(before);
      ToldNone(before);
      Titus.TriedNone();
      Titus.NothingMade();
      interrupted, attempted, made := false, [], [];
      var todo := set id | id in inventory.targets && inventory.targets[id].result.status.Pending?;
      while todo != {}
        invariant Traced() && Loaded() && disk.InPhase(Scan)
        invariant disk == old(disk).(targets := Some(inventory), datastore := old(disk).datastore || Titus.Makes(made))
        invariant inventory == before.(targets := inventory.targets)
        invariant forall id :: id in todo <==> IsPending(before, id) && id !in attempted
        invariant NoDuplicates(attempted) && forall id <- attempted :: IsPending(before, id)
        invariant AttemptedOnly(before, inventory, attempted)
        invariant scanner.tries == old(scanner.tries) + made && Titus.TriedOnly(made, attempted)
        invariant Told(inventory, made, attempted)
        decreases todo
      {
        var id :| id in todo;
        todo := todo - {id};
        ghost var result, more;
        UntouchedYet(before, inventory, attempted, id);
        AttemptedAnother(before, inventory, attempted, id);
        ghost var known := inventory;
        interrupted, result, more := AttemptNext(id, faults);
        if interrupted {
          SoFar(before, known, attempted, made, id, result, more);
        } else {
          ToldAnother(known, made, attempted, id, result, more);
        }
        Titus.TriedAnother(made, attempted, more, id);
        Titus.MakesConcat(made, more);
        attempted, made := attempted + [id], made + more;
        if interrupted {
          return;
        }
      }
      AllAttempted(before, inventory, attempted);
      AllSoFar(before, inventory, attempted, made);
    }

    /** Mark one target as running, settle it, and save the result. */
    method AttemptNext(id: string, faults: bool)
        returns (interrupted: bool, ghost result: TargetResult, ghost made: seq<Titus.Try>)
      requires Traced() && Loaded() && disk.InPhase(Scan) && IsPending(inventory, id) && writer == Worker(Scan)
      modifies `disk, `log, `inventory, scanner`tries
      ensures Traced() && disk.record == old(disk).record
      ensures scanner.tries == old(scanner.tries) + made && Titus.AllOf(made, id) && |made| <= Titus.MAX_ATTEMPTS
      ensures Loaded() && disk.InPhase(Scan)
      ensures disk == old(disk).(targets := Some(inventory), datastore := old(disk).datastore || Titus.Makes(made))
      ensures inventory == WithResult(old(inventory), id, result)
      ensures interrupted ==> faults && result.status.Running?
      ensures !interrupted ==>
                && result.status.Settled()
                && Titus.Complete(made) && Titus.Tells(result, made[|made| - 1].attempt)
    {
      hide Consistent, InventoristMay, CheckpointEvents, Traced, Titus.Tells, Titus.AllOf, Titus.Unfinished,
           Titus.Makes;
      var target := inventory.targets[id];
      var clock: int := *;
      target := target.(result := TargetResult(TargetStatus.Running, [], None, Some(clock), None));
      SaveTargets(inventory.targets[id := target]);
      var settled;
      settled, interrupted, made := AttemptTarget(id, target.result, faults);
      result := target.result;
      if interrupted {
        return;
      }
      result := settled;
      SaveTargets(inventory.targets[id := target.(result := settled)]);
    }

    /** One target on the scanner, whose first run that gets so far creates the datastore. */
    method AttemptTarget(id: string, was: TargetResult, faults: bool)
        returns (result: TargetResult, interrupted: bool, ghost made: seq<Titus.Try>)
      requires Traced() && disk.InPhase(Scan) && writer == Worker(Scan)
      modifies `disk, `log, scanner`tries
      ensures Traced() && disk == old(disk).(datastore := old(disk).datastore || Titus.Makes(made))
      ensures scanner.tries == old(scanner.tries) + made && Titus.AllOf(made, id) && |made| <= Titus.MAX_ATTEMPTS
      ensures interrupted ==> faults
      ensures !interrupted ==>
                result.status.Settled() && Titus.Complete(made) && Titus.Tells(result, made[|made| - 1].attempt)
    {
      hide Consistent, InventoristMay, CheckpointEvents, Traced, Titus.AllOf, Titus.Unfinished, Titus.Makes;
      var stored;
      result, interrupted, stored, made := scanner.Scan(id, was, disk.datastore, faults);
      if stored && !disk.datastore {
        Write(CreateDatastore);
      }
    }

    /** Publish the report first and the merged credentials after it. An error between the two leaves the new report
        beside the old credentials. */
    method Publish(policy: Conversion.Policy, faults: bool)
        returns (raised: bool, ghost exports: seq<Option<Titus.Export>>, ghost candidates: CredentialsDocument)
      requires Traced() && Loaded() && disk.InPhase(Scan) && writer == Worker(Scan)
      modifies `disk, `log, `report, `hasReport, `credentials, `hasCredentials, scanner`exports
      ensures Traced()
      ensures scanner.exports == old(scanner.exports) + exports
      ensures !faults ==> (raised <==> !disk.datastore && inventory.targets != map[])
      ensures !faults && raised ==> disk == old(disk) && exports == [None]
      ensures !raised ==>
                && Loaded() && hasReport && hasCredentials
                && disk == old(disk).(report := Some(report), credentials := Some(credentials))
                && Publishes(report, boundaryId, inventory, disk.datastore, exports)
                && Conversion.Converts(policy, report, inventory, candidates)
                && credentials == CredentialMerge.MergeScan(Some(old(credentials)), candidates)
                && credentials.reportGeneratedAt == report.generatedAt
                && log == old(log)
                          + CheckpointOf(Scan, inventory, Some(report),
                                         if old(hasCredentials) then Some(old(credentials)) else None)
                          + CheckpointOf(Scan, inventory, Some(report), Some(credentials))
      ensures raised ==> disk == old(disk).(report := disk.report)
      ensures raised && exports == [None] ==> disk == old(disk)
      ensures raised && exports != [None] ==>
                && Loaded() && hasReport && disk.report == Some(report)
                && Publishes(report, boundaryId, inventory, disk.datastore, exports)
                && credentials == old(credentials) && hasCredentials == old(hasCredentials)
    {
      hide Consistent, Legal, Replay, InventoristMay, CheckpointOf, Conversion.Converts, CredentialMerge.MergeScan,
           WorkerMay;
      raised, exports, candidates := false, [], EmptyCredentials(boundaryId);
      var exported;
      if disk.datastore || inventory.targets != map[] {
        var found := scanner.ExportReport(disk.datastore, faults);
        exports := [found];
        if found.None? {
          return true, exports, candidates;
        }
        exported := Report(boundaryId, found.value.stamp, inventory.errors, found.value.findings);
      } else {
        var stamp: string := *;
        exported := Report(boundaryId, stamp, [], []);
      }
      SaveReport(exported.(errors := exported.errors + inventory.errors));
      var broken: bool := *;
      if broken && faults {
        return true, exports, EmptyCredentials(boundaryId);
      }
      var converted := Conversion.Deduplicate(report, inventory, policy);
      candidates := converted;
      PublicationAllowed(world, disk, credentials, report, inventory, policy, converted);
      SaveCredentials(Scan, CredentialMerge.MergeScan(Some(credentials), converted));
    }

    method SaveReport(published: Report)
      requires Traced() && Loaded() && disk.InPhase(Scan) && writer == Worker(Scan)
      modifies `disk, `log, `report, `hasReport
      ensures Traced() && Loaded() && hasReport && report == published
      ensures disk == old(disk).(report := Some(published)) && log == old(log) + CheckpointEvents(Scan)
    {
      hide Consistent, Legal, Replay, InventoristMay, CheckpointEvents;
      SameTargetsAllowed(world, disk, Scan);
      if hasCredentials {
        SameCredentialsAllowed(world, disk, Scan);
      }
      report, hasReport := published, true;
      Checkpoint(Scan);
    }

    /** Checkpoint the whole aggregate after a change to the credentials. */
    method SaveCredentials(stage: Stage, saved: CredentialsDocument)
      requires Traced() && Loaded() && disk.InPhase(stage) && writer == Worker(stage)
      requires WorkerMay(world, disk, stage, PutCredentials(saved))
      modifies `disk, `log, `credentials, `hasCredentials
      ensures Traced() && Loaded() && hasCredentials && credentials == saved
      ensures disk == old(disk).(credentials := Some(saved)) && log == old(log) + CheckpointEvents(stage)
    {
      hide Consistent, Legal, Replay, InventoristMay, CheckpointEvents, WorkerMay;
      SameTargetsAllowed(world, disk, stage);
      if hasReport {
        SameReportAllowed(world, disk, stage);
      }
      credentials, hasCredentials := saved, true;
      Checkpoint(stage);
    }

    /** The work of a scan between entry and hand-off. */
    method RunScan(policy: Conversion.Policy, faults: bool) returns (raised: bool, ghost work: ScanWork)
      requires Traced() && Loaded() && disk.InPhase(Scan) && writer == Worker(Scan)
      modifies `disk, `log, `inventory, `report, `hasReport, `credentials, `hasCredentials, scanner
      ensures Traced() && disk.record == old(disk).record
      ensures scanner.tries == old(scanner.tries) + work.made
      ensures scanner.exports == old(scanner.exports) + work.exports
      ensures !faults ==> (raised <==> Unexportable(old(disk), work.made))
      ensures TriedWithin(work.made, old(inventory))
      ensures raised ==>
                && disk.targets.Some? && disk.targets.value == old(inventory).(targets := disk.targets.value.targets)
                && disk == old(disk).(targets := disk.targets, report := disk.report,
                                      datastore := old(disk).datastore || Titus.Makes(work.made))
                && ScannedSoFar(old(inventory), disk.targets.value, work.attempted, work.made)
                && (disk.report == old(disk).report
                    || (disk.report.Some? && Publishes(disk.report.value, boundaryId, disk.targets.value,
                                                       disk.datastore, work.exports)))
      ensures !faults && raised ==>
                && disk == old(disk).(targets := disk.targets) && disk.targets.Some?
                && ScannedTargets(old(disk).targets.value, disk.targets.value, work) && work.exports == [None]
      ensures !raised ==>
                && Loaded() && disk.InPhase(Scan) && disk.Published()
                && disk == old(disk).(targets := disk.targets, report := disk.report, credentials := disk.credentials,
                                      datastore := old(disk).datastore || Titus.Makes(work.made))
                && ScannedTargets(old(disk).targets.value, disk.targets.value, work)
                && Publishes(disk.report.value, boundaryId, disk.targets.value, disk.datastore, work.exports)
                && Conversion.Converts(policy, disk.report.value, disk.targets.value, work.candidates)
                && disk.credentials == Some(CredentialMerge.MergeScan(Some(old(credentials)), work.candidates))
    {
      hide Consistent, InventoristMay, CheckpointEvents, Conversion.Converts, CredentialMerge.MergeScan, WorkerMay,
           Traced, Titus.TriedOnly, Titus.TriedAtMost, Titus.Makes, Told, Publishes, ScannedSoFar;
      work := ScanWork([], [], [], EmptyCredentials(boundaryId));
      ghost var before := inventory;
      ResetInterrupted();
      ghost var reset := inventory;
      ghost var attempted, made;
      raised, attempted, made := AttemptTargets(faults);
      work := work.(attempted := attempted, made := made);
      TriedUnfinished(before, reset, attempted, made);
      ResetSoFar(before, reset, inventory, attempted, made);
      if raised {
        return;
      }
      ResetThenAttempt(before, reset, inventory, attempted);
      ghost var exports, candidates;
      raised, exports, candidates := Publish(policy, faults);
      work := work.(exports := exports, candidates := candidates);
    }

    /** The whole scan command. A raised error leaves the phase at scan and everything saved so far on disk. */
    method ScanBoundary(failed: bool, policy: Conversion.Policy, faults: bool)
        returns (outcome: Outcome<bool>, ghost work: ScanWork)
      requires Consistent(world, disk)
      modifies this, scanner
      ensures scanner.tries == old(scanner.tries) + work.made
      ensures scanner.exports == old(scanner.exports) + work.exports
      ensures Eligible(old(disk), Scan, failed) != Ok(true) ==> work.made == [] && work.exports == []
      ensures Eligible(old(disk), Scan, failed) == Ok(true) ==>
                && old(disk).record.Some? && old(disk).targets.Some?
                && TriedWithin(work.made, Entered(old(disk), Scan, failed).targets.value)
      ensures Traced() && start == old(disk) && command == Source(Scan, failed) && !serving
      ensures (outcome.Returned? && !outcome.value) <==> Eligible(old(disk), Scan, failed) == Ok(false)
      ensures outcome.Returned? && !outcome.value ==> disk == old(disk) && log == []
      ensures outcome.Raised? ==> (old(disk).record.None? && disk == old(disk)) || disk.InPhase(Scan)
      ensures outcome.Raised? && Eligible(old(disk), Scan, failed) == Ok(true) ==>
                ScanStopped(old(disk), disk, failed, boundaryId, work)
      ensures !faults && Eligible(old(disk), Scan, failed) == Ok(true) ==>
                && (outcome.Raised? <==> Unexportable(Entered(old(disk), Scan, failed), work.made))
                && (outcome.Raised? ==> ScanFell(old(disk), disk, failed, work))
      ensures outcome.Returned? && outcome.value ==>
                && ScanDid(old(disk), disk, failed, boundaryId, policy, work)
                && log != [] && log[|log| - 1] == Event(Worker(Scan), PutRecord(record))
    {
      hide Consistent, InventoristMay, CheckpointEvents, Conversion.Converts, CredentialMerge.MergeScan, WorkerMay,
           Eligible, Disk.SavedFailure, ScannedTargets, RequeueTargets, Titus.TriedOnly, TriedWithin, Obeys, Replay,
               Titus.Makes, Publishes, Requeued, ScannedSoFar;
      work := ScanWork([], [], [], EmptyCredentials(boundaryId));
      var entry := Operation(Scan, failed);
      if entry.Refused? {
        return Raised, work;
      }
      if !entry.Serving? {
        return Returned(false), work;
      }
      var raised;
      raised, work := RunScan(policy, faults);
      serving := false;
      if raised {
        return Raised, work;
      }
      Advance(Scan);
      return Returned(true), work;
    }

    // Judge

    /** Judge each pending credential once, saving each answer as it comes. A fatal judge error stops the stage. */
    method RunJudge(faults: bool) returns (raised: bool, count: nat, ghost asked: seq<Inquiry>)
      requires Traced() && Loaded() && disk.InPhase(Judge) && hasCredentials && writer == Worker(Judge)
      modifies `disk, `log, `credentials, `hasCredentials, judgeService
      ensures Traced() && Loaded() && hasCredentials && disk == old(disk).(credentials := Some(credentials))
      ensures credentials == old(credentials).(credentials := credentials.credentials)
      ensures judgeService.asked == old(judgeService.asked) + asked
      ensures raised ==>
                && faults && asked != [] && asked[|asked| - 1].answer.Fatal?
                && JudgedOnly(old(credentials).credentials, credentials.credentials, asked[..|asked| - 1])
                && AwaitsJudgment(credentials.credentials, asked[|asked| - 1].id)
      ensures !raised ==>
                && JudgesOnce(old(credentials).credentials, credentials.credentials, asked) && count == |asked|
    {
      hide Consistent, InventoristMay, CheckpointEvents, WorkerMay, Judgment.Valid, JudgedOnly, Traced, JudgedAs,
           AskedAbout;
      ghost var before := credentials;
      raised, count, asked := false, 0, [];
      JudgedNone(credentials.credentials);
      var todo := set id | id in credentials.credentials && credentials.credentials[id].judgment.status.Pending?;
      while todo != {}
        invariant Traced() && Loaded() && hasCredentials && disk == old(disk).(credentials := Some(credentials))
        invariant credentials == before.(credentials := credentials.credentials)
        invariant JudgedOnly(before.credentials, credentials.credentials, asked) && count == |asked|
        invariant forall id :: id in todo <==> AwaitsJudgment(before.credentials, id) && !AskedAbout(asked, id)
        invariant judgeService.asked == old(judgeService.asked) + asked
        decreases todo
      {
        var id :| id in todo;
        todo := todo - {id};
        var result;
        ghost var answer;
        StillAwaits(before.credentials, credentials.credentials, asked, id);
        raised, result, answer := JudgeOne(id, faults);
        ghost var q := Inquiry(id, answer);
        if raised {
          assert (asked + [q])[..|asked|] == asked;
          asked := asked + [q];
          return;
        }
        JudgedAnother(before.credentials, credentials.credentials, asked, q, result);
        AskedAnother(asked, q);
        asked, count := asked + [q], count + 1;
        SaveJudgment(id, result);
      }
    }

    method SaveJudgment(id: string, judgment: Judgment)
      requires Traced() && Loaded() && disk.InPhase(Judge) && hasCredentials && writer == Worker(Judge)
      requires AwaitsJudgment(credentials.credentials, id) && judgment.Valid() && !judgment.status.Pending?
      modifies `disk, `log, `credentials, `hasCredentials
      ensures Traced() && Loaded() && hasCredentials
      ensures var was := old(credentials);
              credentials == was.(credentials := was.credentials[id := was.credentials[id].(judgment := judgment)])
      ensures disk == old(disk).(credentials := Some(credentials))
    {
      hide Consistent, InventoristMay, CheckpointEvents, WorkerMay, Judgment.Valid, Obeys, Replay;
      JudgmentAllowed(world, disk, id, judgment);
      var judged := credentials.credentials[id].(judgment := judgment);
      SaveCredentials(Judge, credentials.(credentials := credentials.credentials[id := judged]));
    }

    /** Ask once. A ruling completes the judgment, any failure is saved with its text, and only a fatal error stops
        the stage. */
    method JudgeOne(id: string, faults: bool) returns (raised: bool, result: Judgment, ghost answer: Answer)
      modifies judgeService
      ensures judgeService.asked == old(judgeService.asked) + [Inquiry(id, answer)]
      ensures raised <==> answer.Fatal?
      ensures raised ==> faults
      ensures !raised ==> JudgedAs(result, answer) && result.Valid() && !result.status.Pending?
    {
      var said := judgeService.Ask(id, faults);
      answer := said;
      raised := false;
      match said {
        case Ruled(verdict, reasoning) =>
          result := Judgment(JudgmentStatus.Completed, Some(verdict), reasoning, None);
        case Declined(message) =>
          result := Judgment(JudgmentStatus.Failed, None, "", Some(ErrorText(message)));
        case Erred(message) =>
          result := Judgment(JudgmentStatus.Failed, None, "", Some(ErrorText(message)));
        case Fatal =>
          raised, result := true, FRESH_JUDGMENT;
      }
    }

    /** The whole judge command. Without a fatal answer every pending judgment is asked about once and says what the
        judge answered; a fatal one leaves the earlier answers saved and the phase at judge. */
    method JudgeBoundary(failed: bool, faults: bool) returns (outcome: Outcome<nat>, ghost asked: seq<Inquiry>)
      requires Consistent(world, disk)
      modifies this, judgeService
      ensures judgeService.asked == old(judgeService.asked) + asked
      ensures Eligible(old(disk), Judge, failed) != Ok(true) ==> asked == [] && disk == old(disk)
      ensures Traced() && start == old(disk) && command == Source(Judge, failed) && !serving
      ensures Eligible(old(disk), Judge, failed) == Ok(false) ==>
                outcome == Returned(0) && disk == old(disk) && log == []
      ensures outcome.Raised? ==> (old(disk).record.None? && disk == old(disk)) || (faults && disk.InPhase(Judge))
      ensures Eligible(old(disk), Judge, failed) == Ok(true) && outcome.Raised? ==>
                JudgedSoFar(old(disk), disk, failed, asked)
      ensures Eligible(old(disk), Judge, failed) == Ok(true) && outcome.Returned? ==>
                && Judged(old(disk), disk, failed, asked)
                && disk.InPhase(Extract) && !disk.PendingJudgment() && outcome.value == |asked|
                && log != [] && log[|log| - 1] == Event(Worker(Judge), PutRecord(record))
    {
      hide Consistent, Legal, Replay, InventoristMay, CheckpointEvents, WorkerMay, Eligible, Disk.SavedFailure,
           Reopened, Requeued, JudgedOnly, AskedAbout, JudgedAs;
      asked := [];
      var entry := Operation(Judge, failed);
      if entry.Refused? {
        return Raised, asked;
      }
      if !entry.Serving? {
        return Returned(0), asked;
      }
      LaterPhasesArePublished(world, disk);
      ghost var before := credentials.credentials;
      var raised, count;
      raised, count, asked := RunJudge(faults);
      serving := false;
      if raised {
        return Raised, asked;
      }
      NothingUnjudged(before, credentials.credentials, asked);
      Advance(Judge);
      return Returned(count), asked;
    }

    // Extract

    /** Report each retained credential whose file is gone, and change nothing. A consistent directory misses none. */
    method AuditEvidence() returns (missing: set<string>)
      requires Loaded()
      ensures forall id :: id in missing <==>
                           id in credentials.credentials && EvidenceMissing(disk.files, credentials.credentials[id])
      ensures Consistent(world, disk) ==> missing == {}
    {
      hide EvidenceMissing, Consistent;
      missing := {};
      var todo := credentials.credentials.Keys;
      while todo != {}
        invariant todo <= credentials.credentials.Keys
        invariant forall id :: id in missing <==>
                               && id in credentials.credentials && id !in todo
                               && EvidenceMissing(disk.files, credentials.credentials[id])
        decreases todo
      {
        var id :| id in todo;
        todo := todo - {id};
        if EvidenceMissing(disk.files, credentials.credentials[id]) {
          missing := missing + {id};
        }
      }
      if Consistent(world, disk) {
        NothingMissing();
      }
    }

    lemma NothingMissing()
      requires Loaded() && Consistent(world, disk)
      ensures forall id <- credentials.credentials :: !EvidenceMissing(disk.files, credentials.credentials[id])
    {
      hide Consistent, EvidenceMissing;
      if hasCredentials {
        assert CredentialsOf(disk) == credentials.credentials;
        forall id | id in credentials.credentials
          ensures !EvidenceMissing(disk.files, credentials.credentials[id])
        {
          if credentials.credentials[id].extraction.status.Retained? {
            RetainedExists(world, disk, id);
          } else {
            NotRetained(disk.files, credentials.credentials[id]);
          }
        }
      }
    }

    /** One file operation of a retention. */
    method Touch(id: string, op: FileOp)
      requires Traced() && Loaded() && disk.InPhase(Extract) && id in credentials.credentials && hasCredentials
      requires writer == Worker(Extract)
      requires credentials.credentials[id].extraction.status.Pending? && HasHome(world, credentials.credentials[id])
      requires OperatesOn(disk.files, EvidencePath(world, credentials.credentials[id]), op)
      modifies `disk, `log
      ensures Traced() && Loaded() && disk == old(disk).(files := Operate(old(disk).files, op))
      ensures old(log) <= log
    {
      hide Consistent, Legal, Replay, InventoristMay, WorkerMay, OperatesOn, HasHome;
      assert CredentialsOf(disk) == credentials.credentials;
      MayRetain(world, disk, id, op);
      Write(File(id, op));
    }

    /** The file system hands out an inode that is not in use. */
    method ChooseInode() returns (inode: nat)
      requires Traced()
      ensures disk.files.Valid() && inode !in disk.files.data
    {
      hide Legal, Replay;
      FreshInode(disk.files.data.Keys);
      inode :| inode !in disk.files.data;
    }

    lemma FinishRetention(id: string, before: Files, content: Bytes, inode: nat, adopted: bool)
      requires Traced() && Loaded() && id in credentials.credentials && HasHome(world, credentials.credentials[id])
      requires hasCredentials
      requires before.Valid() && inode !in before.data
      requires var p := EvidencePath(world, credentials.credentials[id]);
               && disk.files == OperateAll(before, Retain(before, p, content, inode).ops)
               && adopted == Retain(before, p, content, inode).adopted
      ensures RetainedAs(before, disk.files, EvidencePath(world, credentials.credentials[id]), content, inode, adopted)
    {
      hide Legal, Replay, OperateAll, RetainedAs;
      assert CredentialsOf(disk) == credentials.credentials;
      FilesAreValid(world, disk);
      RetentionDone(world, before, disk, id, content, inode, adopted);
    }

    /** Create the evidence file without replacing one, or adopt what an interrupted attempt left. */
    method RetainEvidence(id: string, content: Bytes) returns (adopted: bool)
      requires Traced() && Loaded() && disk.InPhase(Extract) && id in credentials.credentials && hasCredentials
      requires writer == Worker(Extract)
      requires credentials.credentials[id].extraction.status.Pending? && HasHome(world, credentials.credentials[id])
      modifies `disk, `log
      ensures Traced() && Loaded() && disk == old(disk).(files := disk.files) && old(log) <= log
      ensures old(disk).files.Valid()
      ensures exists inode: nat ::
                RetainedAs(old(disk).files, disk.files, EvidencePath(world, credentials.credentials[id]), content,
                           inode, adopted)
    {
      hide Consistent, Legal, Replay, InventoristMay, CheckpointEvents, Home, Temporary, Plain, WorkerMay, RetainedAs,
           OperateAll, Traced;
      var p := EvidencePath(world, credentials.credentials[id]);
      var t := Temporary(p);
      ghost var before := disk.files;
      var inode := ChooseInode();
      RetainSteps(before, p, content, inode);
      Touch(id, Truncate(t, inode));
      Touch(id, Fill(t, content));
      if p !in disk.files.names {
        Touch(id, Link(t, p));
        adopted := true;
      } else {
        adopted := disk.files.Has(p) && disk.files.Read(p) == content;
      }
      Touch(id, Unlink(t));
      FinishRetention(id, before, content, inode, adopted);
    }

    /** The temporary file cannot be written in full: it is dropped again. */
    method InterruptRetention(id: string, written: Bytes)
      requires Traced() && Loaded() && disk.InPhase(Extract) && hasCredentials && writer == Worker(Extract)
      requires AwaitsExtraction(credentials.credentials, id) && HasHome(world, credentials.credentials[id])
      modifies `disk, `log
      ensures Traced() && Loaded() && disk == old(disk).(files := disk.files) && old(disk).files.Valid()
      ensures old(log) <= log
      ensures TornAs(old(disk).files, disk.files, EvidencePath(world, credentials.credentials[id]), written)
    {
      hide Consistent, InventoristMay, CheckpointEvents, Home, Temporary, Plain, WorkerMay, Traced, TornAs, OperateAll;
      var p := EvidencePath(world, credentials.credentials[id]);
      var t := Temporary(p);
      ghost var before := disk.files;
      var inode := ChooseInode();
      RewriteSteps(before, p, written, inode, 3);
      assert RewriteOps(p, written, inode)[..3] == RewriteOps(p, written, inode);
      Touch(id, Truncate(t, inode));
      Touch(id, Fill(t, written));
      Touch(id, Unlink(t));
      TornMeans(before, disk.files, p, written, inode);
    }

    lemma CredentialIsValid(id: string)
      requires Traced() && Loaded() && hasCredentials && id in credentials.credentials
      ensures credentials.credentials[id].Valid() && disk.files.Valid()
    {
      hide Legal, Replay;
      assert CredentialsOf(disk) == credentials.credentials;
      SoundAt(world, disk, id);
    }

    /** Attempt one extraction, reading once. Failures are saved with the credential; only a conflicting artifact stops
        the stage. */
    method ExtractOne(id: string, faults: bool)
        returns (raised: bool, extraction: Extraction, ghost met: Encounter)
      requires Traced() && Loaded() && disk.InPhase(Extract) && hasCredentials && writer == Worker(Extract)
      requires AwaitsExtraction(credentials.credentials, id)
      modifies `disk, `log, reader
      ensures Traced() && Loaded() && disk == old(disk).(files := disk.files) && old(log) <= log
      ensures reader.consulted == old(reader.consulted) + [met] && met.id == id
      ensures old(disk).files.Valid() && credentials.credentials[id].Valid()
      ensures !faults ==>
                && met.reading == Ok(world.content(credentials.credentials[id].occurrences[0])) && met.fault.NoFault?
      ensures raised <==>
              met.fault.Reaches() && Conflicts(world, old(disk).files, credentials.credentials[id], met.reading)
      ensures raised ==> TurnedAway(world, old(disk).files, disk.files, credentials.credentials[id], met.reading)
      ensures !raised ==>
                Attempted(world, old(disk).files, disk.files, credentials.credentials[id], met.reading, met.fault,
                          met.message, extraction)
      ensures var c := credentials.credentials[id].(extraction := extraction);
              !raised ==> c.Valid() && EvidenceKept(world, disk.files, c)
    {
      hide Consistent, InventoristMay, WorkerMay, Home, Temporary, Plain, RetainedAs, OperateAll, Traced, EvidenceKept,
           TornAs;
      var c := credentials.credentials[id];
      CredentialIsValid(id);
      var x := reader.Read(world, id, c.occurrences[0], faults);
      met := x;
      raised := false;
      if x.reading.Err? {
        extraction := FailedExtraction(ErrorText(x.reading.error));
        FailureKeepsNothing(world, disk.files, c, ErrorText(x.reading.error));
        return;
      }
      if !Plain(world.fileName(c.occurrences[0])) {
        NotPlainIsText();
        FailureKeepsNothing(world, disk.files, c, NOT_PLAIN);
        return false, FailedExtraction(NOT_PLAIN), x;
      }
      extraction := FailedExtraction(ErrorText(x.message));
      if x.fault.Unplaced? || x.fault.Unopened? {
        if x.fault.Unopened? {
          Touch(id, Unlink(Temporary(EvidencePath(world, c))));
        }
        FailureKeepsNothing(world, disk.files, c, ErrorText(x.message));
        return;
      }
      if x.fault.Torn? {
        InterruptRetention(id, x.fault.written);
        FailureKeepsNothing(world, disk.files, c, ErrorText(x.message));
        return;
      }
      var adopted := RetainEvidence(id, x.reading.value);
      RetentionMeans(old(disk).files, disk.files, EvidencePath(world, c), x.reading.value, adopted);
      if !adopted {
        return true, extraction, x;
      }
      if x.fault.Late? {
        FailureKeepsNothing(world, disk.files, c, ErrorText(x.message));
        return;
      }
      extraction := RetainedExtraction(world, EvidencePath(world, c), x.reading.value);
      RetentionIsKept(world, disk.files, c, x.reading.value);
    }

    method SkipOne(id: string) returns (extraction: Extraction)
      requires Traced() && Loaded() && disk.InPhase(Extract) && hasCredentials
      requires AwaitsExtraction(credentials.credentials, id) && writer == Worker(Extract)
      requires !credentials.credentials[id].judgment.PermitsExtraction()
      ensures var c := credentials.credentials[id];
              && extraction == SkippedExtraction(c) && c.(extraction := extraction).Valid() && Skippable(c)
    {
      hide Legal, Replay, Consistent;
      assert CredentialsOf(disk) == credentials.credentials;
      SkipIsTruthful(world, disk, id);
      extraction := SkippedExtraction(credentials.credentials[id]);
    }

    method SaveExtraction(id: string, extraction: Extraction)
      requires Traced() && Loaded() && disk.InPhase(Extract) && hasCredentials
      requires AwaitsExtraction(credentials.credentials, id) && writer == Worker(Extract)
      requires var c := credentials.credentials[id];
               && c.(extraction := extraction).Valid()
               && (if c.judgment.PermitsExtraction()
                   then (extraction.status.Retained? || extraction.status.Failed?)
                        && EvidenceKept(world, disk.files, c.(extraction := extraction))
                   else extraction == SkippedExtraction(c))
      modifies `disk, `log, `credentials, `hasCredentials
      ensures Traced() && Loaded() && hasCredentials
      ensures var was := old(credentials);
              credentials == was.(credentials := was.credentials[id := was.credentials[id].(extraction := extraction)])
      ensures disk == old(disk).(credentials := Some(credentials)) && old(log) <= log
    {
      hide Consistent, Legal, Replay, InventoristMay, CheckpointEvents, WorkerMay, EvidenceKept, Credential.Valid,
           Judgment.PermitsExtraction;
      ExtractionAllowed(world, disk, id, extraction);
      var settled := credentials.credentials[id].(extraction := extraction);
      SaveCredentials(Extract, credentials.(credentials := credentials.credentials[id := settled]));
    }

    /** Settle each pending extraction once, reading once for each that the judgment permits, and saving what came of
        it each time. Only a conflict stops it, and without faults that is an obstruction, which stays. */
    method RunExtract(faults: bool)
        returns (raised: bool, count: nat, ghost settled: seq<string>, ghost met: seq<Encounter>)
      requires Traced() && Loaded() && disk.InPhase(Extract) && hasCredentials && writer == Worker(Extract)
      modifies `disk, `log, `credentials, `hasCredentials, reader
      ensures Traced() && Loaded() && hasCredentials
      ensures disk == old(disk).(credentials := Some(credentials), files := disk.files)
      ensures credentials == old(credentials).(credentials := credentials.credentials)
      ensures ExtractedOnly(old(credentials).credentials, credentials.credentials, settled)
      ensures reader.consulted == old(reader.consulted) + met && OwedOnce(old(credentials).credentials, Ids(met))
      ensures !raised ==>
                && ExtractsOnce(old(credentials).credentials, credentials.credentials, settled, met)
                && count == |met| && Answered(world, disk, met)
      ensures raised ==>
                && met != [] && Answered(world, disk, met[..|met| - 1])
                && StoppedAt(world, old(credentials).credentials, disk, met[|met| - 1])
      ensures !faults ==> Faultless(world, old(credentials).credentials, met)
      ensures !faults ==> (raised <==> Obstructed(world, old(disk)))
      ensures !faults && raised ==> Obstructed(world, disk)
    {
      hide Consistent, InventoristMay, CheckpointEvents, WorkerMay, ExtractedOnly, Traced, AwaitsExtraction,
           Obstructed, ExtractionSettles, MetAll, Judgment.PermitsExtraction, Obstructs, SameObstructions, Touched,
               SettledClear, OwedOnce, Answered, Evolves, Faultless, Ids, ToldOf, Conflicts, StoppedAt;
      ghost var before, files := credentials.credentials, disk.files;
      raised, count, settled, met := false, 0, [], [];
      ExtractedNone(before);
      var todo := set id | id in credentials.credentials && credentials.credentials[id].extraction.status.Pending?;
      TodoIsAll(before, todo);
      NothingChanged(world, files, before, todo);
      ClearNone(world, files, before);
      NothingMet(world, before, disk);
      while todo != {}
        invariant Traced() && Loaded() && hasCredentials
        invariant disk == old(disk).(credentials := Some(credentials), files := disk.files)
        invariant credentials == old(credentials).(credentials := credentials.credentials)
        invariant ExtractedOnly(before, credentials.credentials, settled)
        invariant MetAll(before, settled, met) && count == |met| && Answered(world, disk, met)
        invariant reader.consulted == old(reader.consulted) + met
        invariant forall id :: id in todo <==> AwaitsExtraction(before, id) && id !in settled
        invariant !faults ==> Faultless(world, before, met)
        invariant !faults ==> SameObstructions(world, files, disk.files, before, todo)
        invariant !faults ==> SettledClear(world, files, before, settled)
        decreases todo
      {
        var id :| id in todo;
        StillUnextracted(before, credentials.credentials, settled, id);
        AwaitsMeans(before, id);
        ghost var was, m := disk, credentials.credentials;
        assert CredentialsOf(was) == m;
        var permitted := credentials.credentials[id].judgment.PermitsExtraction();
        ghost var extraction, x;
        raised, extraction, x := ExtractNext(id, faults);
        ObstructionFound(world, files, was.files, before, todo, id);
        if permitted {
          MetAnother(before, settled, met, id, x);
          if !faults {
            FaultlessAnother(world, before, met, x);
          }
        }
        if raised {
          assert (met + [x])[..|met|] == met;
          FilesMoved(world, was, disk, met);
          Stopped(world, before, disk, x);
          met := met + [x];
          if !faults {
            ObstructedBy(world, old(disk), id);
            ObstructedBy(world, disk, id);
          }
          return;
        }
        assert todo - {id} + {id} == todo;
        todo := todo - {id};
        if !faults {
          TodoSpared(world, was, disk.files, files, before, settled, id, todo);
          ClearAnother(world, files, before, settled, id);
        }
        ExtractedAnother(before, m, settled, id, extraction);
        UnmetYet(before, settled, met, id);
        AnsweredAnother(world, was, disk, met, id, extraction);
        if permitted {
          AnsweredNext(world, disk, met, x);
          count := count + 1;
          met := met + [x];
        } else {
          MetAnother(before, settled, met, id, x);
        }
        settled := settled + [id];
      }
      MetIsOwed(before, settled, met);
      if !faults {
        AllClear(world, old(disk), settled);
      }
    }

    /** What was written since an earlier point of this command took nothing back. */
    lemma SinceKeeps(was: Disk, before: Trace)
      requires Traced() && before <= log && was == Replay(start, before)
      ensures Evolves(was, disk)
    {
      hide Consistent, Legal, Ascends, Licensed, Evolves, Replay;
      var k := |before|;
      assert log[..k] == before;
      LegalPrefix(world, start, log, k);
      RunKeeps(world, start, log[..k]);
      LegalFrom(world, start, log, k);
      ReplayFrom(start, log, k);
      RunKeeps(world, was, log[k..]);
    }

    /** Settle and save one pending extraction. */
    method ExtractNext(id: string, faults: bool)
        returns (raised: bool, ghost extraction: Extraction, ghost met: Encounter)
      requires Traced() && Loaded() && disk.InPhase(Extract) && hasCredentials && writer == Worker(Extract)
      requires AwaitsExtraction(credentials.credentials, id)
      modifies `disk, `log, `credentials, `hasCredentials, reader
      ensures Traced() && Loaded() && hasCredentials
      ensures disk == old(disk).(credentials := Some(credentials), files := disk.files)
      ensures old(disk).files.Valid() && Consistent(world, old(disk)) && Evolves(old(disk), disk)
      ensures met.id == id
      ensures var was, c := old(credentials), old(credentials).credentials[id];
              && (raised ==> credentials == was && c.judgment.PermitsExtraction())
              && (!raised ==>
                    && credentials == was.(credentials := was.credentials[id := c.(extraction := extraction)])
                    && ExtractionSettles(c, c.(extraction := extraction)))
              && reader.consulted == old(reader.consulted) + (if c.judgment.PermitsExtraction() then [met] else [])
              && (!raised && c.judgment.PermitsExtraction() ==> ToldOf(world, disk, met))
              && (raised ==> met.fault.Reaches() && Conflicts(world, disk.files, c, met.reading))
      ensures var c := old(credentials).credentials[id];
              !faults ==>
                && (raised <==> c.judgment.PermitsExtraction() && Obstructs(world, old(disk).files, c))
                && (raised ==> Obstructs(world, disk.files, c))
                && Touched(world, old(disk).files, disk.files, c)
                && (c.judgment.PermitsExtraction() ==>
                      c.occurrences != [] && met.reading == Ok(world.content(c.occurrences[0])) && met.fault.NoFault?)
    {
      hide Consistent, InventoristMay, CheckpointEvents, WorkerMay, EvidenceKept, Credential.Valid, Obeys, Replay,
           ExtractionSettles, Judgment.PermitsExtraction, Obstructs, RetainedAs, Evolves, ExtractedAs, Conflicts,
               SkippedExtraction;
      CredentialIsValid(id);
      ghost var c := credentials.credentials[id];
      ghost var was, before := disk, log;
      var settled;
      raised, met := false, Encounter(id, Err(""), NoFault, "");
      if credentials.credentials[id].judgment.PermitsExtraction() {
        raised, settled, met := ExtractPermitted(id, faults);
      } else {
        settled := SkipOne(id);
      }
      extraction := settled;
      if raised {
        SinceKeeps(was, before);
        return;
      }
      assert ExtractionSettles(c, c.(extraction := settled)) by {
        ThisSettles(c, settled);
      }
      SaveExtraction(id, settled);
      SinceKeeps(was, before);
    }

    /** One permitted extraction, with whatever storage faults occur. */
    method ExtractPermitted(id: string, faults: bool)
        returns (raised: bool, extraction: Extraction, ghost met: Encounter)
      requires Traced() && Loaded() && disk.InPhase(Extract) && hasCredentials && writer == Worker(Extract)
      requires AwaitsExtraction(credentials.credentials, id) && credentials.credentials[id].judgment.PermitsExtraction()
      modifies `disk, `log, reader
      ensures Traced() && Loaded() && disk == old(disk).(files := disk.files) && old(log) <= log
      ensures reader.consulted == old(reader.consulted) + [met] && met.id == id
      ensures old(disk).files.Valid() && Consistent(world, old(disk)) && credentials.credentials[id].occurrences != []
      ensures !raised ==> extraction.status.Retained? || extraction.status.Failed?
      ensures var c := credentials.credentials[id].(extraction := extraction);
              !raised ==> c.Valid() && EvidenceKept(world, disk.files, c) && ExtractedAs(world, disk.files, c, met)
      ensures raised ==> met.fault.Reaches() && Conflicts(world, disk.files, credentials.credentials[id], met.reading)
      ensures !faults ==>
                && met.reading == Ok(world.content(credentials.credentials[id].occurrences[0])) && met.fault.NoFault?
                && (raised <==> Obstructs(world, old(disk).files, credentials.credentials[id]))
                && Touched(world, old(disk).files, disk.files, credentials.credentials[id])
                && (raised ==> Obstructs(world, disk.files, credentials.credentials[id]))
    {
      hide Consistent, InventoristMay, CheckpointEvents, WorkerMay, EvidenceKept, Obeys, Replay,
           Judgment.PermitsExtraction, Conflicts, Attempted, TurnedAway, Touched, ExtractedAs;
      raised, extraction, met := ExtractOne(id, faults);
      ghost var c := credentials.credentials[id];
      if raised {
        RefusalObstructsAgain(world, old(disk).files, disk.files, c, met.reading);
      } else {
        AttemptedEnds(world, old(disk).files, disk.files, c, met.reading, met.fault, met.message, extraction);
        AttemptedTells(world, old(disk).files, disk.files, c, met, extraction);
      }
    }

    /** The work of an extraction between entry and hand-off, and the hand-off. */
    method ServeExtract(faults: bool)
        returns (raised: bool, count: nat, ghost settled: seq<string>, ghost met: seq<Encounter>)
      requires Traced() && Loaded() && disk.InPhase(Extract) && hasCredentials && writer == Worker(Extract)
      modifies `disk, `log, `record, `credentials, `hasCredentials, `serving, reader
      ensures Traced() && !serving && disk.credentials.Some?
      ensures disk == old(disk).(record := disk.record, credentials := disk.credentials, files := disk.files)
      ensures disk.credentials.value == old(credentials).(credentials := CredentialsOf(disk))
      ensures reader.consulted == old(reader.consulted) + met && OwedOnce(old(credentials).credentials, Ids(met))
      ensures !raised ==>
                && disk.InPhase(Done) && !disk.PendingExtraction()
                && ExtractsOnce(old(credentials).credentials, CredentialsOf(disk), settled, met)
                && count == |met| && Answered(world, disk, met)
                && log != [] && log[|log| - 1] == Event(Worker(Extract), PutRecord(record))
      ensures raised ==>
                && disk.record == old(disk).record && met != [] && Answered(world, disk, met[..|met| - 1])
                && ExtractedOnly(old(credentials).credentials, CredentialsOf(disk), settled)
                && StoppedAt(world, old(credentials).credentials, disk, met[|met| - 1])
      ensures !faults ==> (raised <==> Obstructed(world, old(disk)))
      ensures !faults && raised ==> Obstructed(world, disk)
      ensures !faults && !raised ==>
                forall id :: Owes(old(credentials).credentials, id) ==> Retains(world, disk, id)
    {
      hide Consistent, Legal, Replay, InventoristMay, CheckpointEvents, WorkerMay, ExtractsOnce, OwedOnce, Obstructed,
           Answered, Faultless, Retains, ExtractedOnly, Ids, StoppedAt, Owes;
      ghost var before := credentials.credentials;
      raised, count, settled, met := RunExtract(faults);
      serving := false;
      if raised {
        return;
      }
      NothingPending(before, credentials.credentials, settled, met);
      if !faults {
        FaultlessRetains(world, before, disk, met, settled);
      }
      ghost var done := disk;
      Advance(Extract);
      SameDocuments(world, done, disk, met);
    }

    /** The whole extract command. */
    method ExtractBoundary(failed: bool, faults: bool)
        returns (outcome: Outcome<nat>, ghost settled: seq<string>, ghost met: seq<Encounter>)
      requires Consistent(world, disk)
      modifies this, reader
      ensures reader.consulted == old(reader.consulted) + met
      ensures Eligible(old(disk), Extract, failed) != Ok(true) || OnlyAudits(old(disk), failed) ==>
                met == [] && disk == old(disk)
      ensures met != [] ==> MetOnce(old(disk), failed, met)
      ensures Traced() && start == old(disk) && command == Source(Extract, failed) && !serving
      ensures Eligible(old(disk), Extract, failed) == Ok(false) || OnlyAudits(old(disk), failed) ==>
                outcome == Returned(0) && disk == old(disk) && log == []
      ensures outcome.Raised? ==> (old(disk).record.None? && disk == old(disk)) || disk.InPhase(Extract)
      ensures Eligible(old(disk), Extract, failed) == Ok(true) && outcome.Raised? ==>
                ExtractedSoFar(world, old(disk), disk, failed, settled, met)
      ensures !faults && Eligible(old(disk), Extract, failed) == Ok(true) ==>
                (outcome.Raised? <==> Blocked(world, old(disk), failed))
                    && (outcome.Raised? ==> Obstructed(world, disk))
      ensures Eligible(old(disk), Extract, failed) == Ok(true) && outcome.Returned? ==>
                disk.InPhase(Done) && !disk.PendingExtraction()
      ensures Eligible(old(disk), Extract, failed) == Ok(true) && outcome.Returned?
              && !OnlyAudits(old(disk), failed) ==>
                && Extracted(world, old(disk), disk, failed, settled, met) && outcome.value == |met|
                && log != [] && log[|log| - 1] == Event(Worker(Extract), PutRecord(record))
      ensures !faults && Eligible(old(disk), Extract, failed) == Ok(true) && outcome.Returned?
              && !OnlyAudits(old(disk), failed) ==>
                RetainsOwed(world, old(disk), disk, failed)
    {
      hide Consistent, Legal, Replay, InventoristMay, CheckpointEvents, WorkerMay, Eligible, Disk.SavedFailure,
           Reopened, ExtractsOnce, OwedOnce, Obstructed, Requeued, Answered, Retains, ExtractedOnly, Ids, StoppedAt;
      settled, met := [], [];
      var entry := Operation(Extract, failed);
      if entry.Refused? {
        return Raised, settled, met;
      }
      if entry.NotSelected? {
        return Returned(0), settled, met;
      }
      var missing := AuditEvidence();
      if entry.Audit? {
        DoneIsSettled(world, disk);
        return Returned(0), settled, met;
      }
      LaterPhasesArePublished(world, disk);
      var raised, count;
      raised, count, settled, met := ServeExtract(faults);
      return if raised then Raised else Returned(count), settled, met;
    }

    // Inventory

    /** Discover the boundary again. Existing readiness is revoked before targets change, and granted after. */
    method RefreshInventory(discovery: Discovery) returns (outcome: Outcome<bool>)
      requires Consistent(world, disk)
      requires discovery.Found? ==> discovery.inventory.Valid()
      modifies this
      ensures Traced() && start == old(disk)
      ensures command == Refresh(if discovery.Found? then Some(discovery.inventory.targets.Keys) else None)
      ensures outcome.Raised? <==> discovery.Failing? || (discovery.Found? && discovery.inventory.errors != [])
      ensures outcome.Returned? && !outcome.value <==> discovery.Gone? && old(disk).record.None?
      ensures !(outcome.Returned? && outcome.value) ==> disk == old(disk) && log == []
      ensures outcome.Returned? && outcome.value && discovery.Gone? ==>
                && old(disk).record.Some?
                && disk == old(disk).(record := Some(old(disk).record.value.(availability := Absent)), targets := None)
                && log == [Event(Inventorist, PutRecord(record)), Event(Inventorist, DropTargets)]
      ensures outcome.Returned? && outcome.value && discovery.Found? ==>
                && Merges(old(disk).targets, discovery.inventory, inventory)
                && disk == old(disk).(record := Some(record), targets := Some(inventory))
                && record == BoundaryRecord(backendId, inventory.boundary, Available, record.phase)
                && record.phase == (if old(disk).Live() && old(disk).targets.Some?
                                       && old(disk).targets.value.targets.Keys == inventory.targets.Keys
                                    then old(disk).record.value.phase else Scan)
                && log == EntryEvents(old(disk), record, inventory)
    {
      hide Consistent, Legal, Replay, WorkerMay, RefreshedTargets;
      Begin(Refresh(if discovery.Found? then Some(discovery.inventory.targets.Keys) else None));
      match discovery {
        case Failing => return Raised;
        case Gone =>
          if disk.record.None? {
            return Returned(false);
          }
          record := disk.record.value.(availability := Absent);
          Write(PutRecord(record));
          Write(DropTargets);
          return Returned(true);
        case Found(found) =>
          var merged := MergeInventory(disk.targets, found);
          if merged.Err? {
            return Raised;
          }
          Enter(found, merged.value);
          return Returned(true);
      }
    }

    /** Write the record and the targets in the order that never strands new work. */
    method Enter(ghost found: Inventory, merged: Inventory)
      requires Traced() && start == disk && log == [] && command == Refresh(Some(found.targets.Keys))
      requires found.Valid() && Merges(disk.targets, found, merged)
      modifies this
      ensures Traced() && start == old(start) && command == old(command) && inventory == merged
      ensures disk == old(disk).(record := Some(record), targets := Some(inventory))
      ensures record == BoundaryRecord(backendId, merged.boundary, Available, RefreshedPhase(old(disk), merged))
      ensures log == EntryEvents(old(disk), record, inventory)
    {
      hide Consistent, Legal, Replay, WorkerMay, RefreshedTargets;
      var was := disk.record;
      var phase := RefreshedPhase(disk, merged);
      var refreshed := BoundaryRecord(backendId, merged.boundary, Available, phase);
      RefreshAllowed(world, disk, found, merged, refreshed);
      if was.Some? && was.value.availability.Available? && was.value.phase != phase {
        Write(PutRecord(refreshed));
        Write(PutTargets(merged));
      } else {
        Write(PutTargets(merged));
        Write(PutRecord(refreshed));
      }
      record, inventory := refreshed, merged;
    }

    /** Enroll a boundary only when it has no record yet. */
    method EnrollInventory(discovery: Discovery) returns (outcome: Outcome<bool>)
      requires Consistent(world, disk)
      requires discovery.Found? ==> discovery.inventory.Valid()
      modifies this
      ensures Traced() && start == old(disk)
      ensures command == Refresh(if discovery.Found? then Some(discovery.inventory.targets.Keys) else None)
      ensures old(disk).record.Some? ==> outcome.Returned? && !outcome.value && disk == old(disk) && log == []
      ensures outcome.Returned? && outcome.value ==>
                && old(disk).record.None? && disk.InPhase(Scan) && discovery.Found?
                   && Merges(old(disk).targets, discovery.inventory, inventory)
                && disk == old(disk).(record := Some(record), targets := Some(inventory))
                && record == BoundaryRecord(backendId, inventory.boundary, Available, Scan)
      ensures !(outcome.Returned? && outcome.value) ==> disk == old(disk) && log == []
      ensures old(disk).record.None? ==>
                (outcome.Returned? && outcome.value <==> discovery.Found? && discovery.inventory.errors == [])
    {
      hide Consistent, Legal, Replay, Merges;
      Begin(Refresh(if discovery.Found? then Some(discovery.inventory.targets.Keys) else None));
      if disk.record.Some? {
        return Returned(false);
      }
      outcome := RefreshInventory(discovery);
    }

    // The whole pipeline

    /** The current command took nothing back. */
    lemma LogKeeps()
      requires Traced()
      ensures Evolves(start, disk)
    {
      hide Consistent, Legal, Ascends, Licensed, Evolves;
      RunKeeps(world, start, log);
    }

    method PassScan(retry: bool, policy: Conversion.Policy) returns (fell: bool, ghost t: ScanTrail)
      requires Consistent(world, disk) && disk.Live()
      modifies this, scanner
      ensures ScanStep(world, old(disk), retry, boundaryId, policy, t) && disk == t.now
      ensures Consistent(world, disk) && disk.Live() && (fell <==> disk.InPhase(Scan))
      ensures fell <==> ScanFalls(old(disk), retry, t.work.made)
      ensures scanner.tries == old(scanner.tries) + t.work.made
      ensures scanner.exports == old(scanner.exports) + t.work.exports
    {
      hide Consistent, Eligible, Disk.SavedFailure, Disk.Published, Obeys, Replay, Evolves, Entered, Unexportable,
           ScannedTargets, Conversion.Converts, CredentialMerge.MergeScan, Titus.Makes, TriedWithin, Publishes;
      SelectedIsLoadable(world, disk, Scan, retry);
      var scanned, work := ScanBoundary(retry, policy, false);
      LogKeeps();
      t := ScanTrail(log, disk, work);
      fell := scanned.Raised?;
    }

    method PassJudge(retry: bool) returns (ghost t: JudgeTrail)
      requires Consistent(world, disk) && disk.Live()
      modifies this, judgeService
      ensures JudgeStep(world, old(disk), retry, t) && disk == t.now
      ensures Consistent(world, disk) && disk.Live()
      ensures if old(disk).InPhase(Scan) then disk == old(disk) else disk.InPhase(Extract) || disk.InPhase(Done)
      ensures judgeService.asked == old(judgeService.asked) + t.asked
    {
      hide Consistent, Eligible, Disk.SavedFailure, Obeys, Replay, Evolves, Entered, Judged, AwaitsJudgment;
      SelectedIsLoadable(world, disk, Judge, retry);
      var judged, asked := JudgeBoundary(retry, false);
      LogKeeps();
      t := JudgeTrail(log, disk, asked);
    }

    method PassExtract(retry: bool) returns (conflict: bool, ghost t: ExtractTrail)
      requires Consistent(world, disk) && disk.Live()
      modifies this, reader
      ensures ExtractStep(world, old(disk), retry, t) && disk == t.now && Consistent(world, disk)
      ensures old(disk).InPhase(Scan) ==> disk == old(disk)
      ensures old(disk).InPhase(Extract) || old(disk).InPhase(Done) ==>
                && (conflict <==> Blocked(world, old(disk), retry))
                && (if conflict then disk.InPhase(Extract) && Obstructed(world, disk) else disk.InPhase(Done))
      ensures reader.consulted == old(reader.consulted) + t.met
    {
      hide Consistent, Eligible, Disk.SavedFailure, Obeys, Replay, Evolves, Entered, Extracted, Obstructed, Blocked,
           MetOnce, RetainsOwed, ExtractedSoFar;
      SelectedIsLoadable(world, disk, Extract, retry);
      var extracted, settled, met := ExtractBoundary(retry, false);
      LogKeeps();
      t := ExtractTrail(log, disk, settled, met);
      conflict := extracted.Raised?;
    }

    /** One fault-free scan, judge and extract command, whatever state earlier crashes left and whatever each command
        was told to retry. The boundary is finished unless its scan has nothing to export, which leaves it in scan, or
        a destination that extraction owes is obstructed, which leaves it in extract and obstructed. It is always
        finished when it can export and its files are tended. */
    method Pass(retryScan: bool, retryJudge: bool, retryExtract: bool, policy: Conversion.Policy)
        returns (end: PassEnd, ghost scan: ScanTrail, ghost judge: JudgeTrail, ghost extract: ExtractTrail)
      requires Consistent(world, disk) && disk.Live()
      modifies this, scanner, judgeService, reader
      ensures ScanStep(world, old(disk), retryScan, boundaryId, policy, scan)
      ensures JudgeStep(world, scan.now, retryJudge, judge)
      ensures ExtractStep(world, judge.now, retryExtract, extract) && disk == extract.now
      ensures Consistent(world, disk) && Evolves(old(disk), disk)
      ensures scanner.tries == old(scanner.tries) + scan.work.made
      ensures scanner.exports == old(scanner.exports) + scan.work.exports
      ensures judgeService.asked == old(judgeService.asked) + judge.asked
      ensures reader.consulted == old(reader.consulted) + extract.met
      ensures end.Unexported? <==> ScanFalls(old(disk), retryScan, scan.work.made)
      ensures end.Unexported? ==> disk == scan.now && disk.InPhase(Scan)
      ensures end.Conflicting? <==> !end.Unexported? && Blocked(world, judge.now, retryExtract)
      ensures end.Conflicting? ==> disk.InPhase(Extract) && Obstructed(world, disk)
      ensures end.Finished? ==>
                disk.InPhase(Done) && disk.Published() && !disk.PendingJudgment() && !disk.PendingExtraction()
      ensures Tended(world, old(disk)) && Exportable(old(disk)) ==> end.Finished?
    {
      hide Consistent, Eligible, Disk.Published, Obeys, Replay, Evolves, Entered, Obstructed, Blocked, Unexportable,
           ScanDid, ScanFell, Judged, Extracted, ExtractedSoFar, Tended, Exportable;
      var fell, conflict;
      fell, scan := PassScan(retryScan, policy);
      judge := PassJudge(retryJudge);
      conflict, extract := PassExtract(retryExtract);
      end := if fell then Unexported else if conflict then Conflicting else Finished;
      PassKeeps(world, old(disk), scan.now, judge.now, disk);
      if end.Finished? {
        DoneIsPublished(world, disk);
      }
      TendedFinishes(world, old(disk), retryScan, scan, retryJudge, judge, retryExtract);
    }
  }
}
