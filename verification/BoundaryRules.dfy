/** What the boundary commands decide and compute in memory, and why each resulting write obeys the protocol. */
module BoundaryRules {
  import opened Documents
  import opened Evidence
  import opened Lifecycle
  import opened Runs
  import CredentialMerge
  import Conversion
  import opened InventoryMerge
  import opened Services
  import Titus

  datatype Outcome<T> = Raised | Returned(value: T)

  /** How a command enters a boundary: its record is missing, it does not belong to the batch, it is only audited, or
      it is served. */
  datatype Entry = Refused | NotSelected | Audit | Serving

  // Selection

  /** Whether the boundary belongs in the batch of this command. */
  function Eligible(d: Disk, stage: Stage, failed: bool): Result<bool, string> {
    if d.record.None? then Err("missing boundary record")
    else if d.record.value.availability.Absent? then Ok(false)
    else
      var phase := d.record.value.phase;
      if phase == stage || (stage == Extract && phase == Done) then Ok(true)
      else if !failed || phase.Rank() < stage.Rank() then Ok(false)
      else if stage == Scan then
        if d.targets.None? then Err("missing scan targets") else Ok(d.SavedFailure(Scan))
      else Ok(d.SavedFailure(Judge))
  }

  /** What `_load` would do: read the documents, decline an absent boundary, or fail on a missing document. */
  function Load(d: Disk): Result<bool, string> {
    if d.record.None? then Err("missing boundary record")
    else if d.record.value.availability.Absent? then Ok(false)
    else if d.targets.None? then Err("missing boundary scan targets")
    else if d.record.value.phase != Scan && (d.report.None? || d.credentials.None?)
    then Err("phase requires published report and credentials")
    else Ok(true)
  }

  /** Nothing of this stage has failed. */
  ghost predicate NoneFailed(d: Disk, stage: Stage) {
    match stage
    case Scan =>
      d.targets.Some? ==> forall id <- d.targets.value.targets :: !d.targets.value.targets[id].result.status.Failed?
    case Judge => forall id <- CredentialsOf(d) :: !CredentialsOf(d)[id].judgment.status.Failed?
    case Extract => forall id <- CredentialsOf(d) :: !CredentialsOf(d)[id].extraction.status.Failed?
  }

  lemma FailureMeans(d: Disk, stage: Stage)
    ensures d.SavedFailure(stage) <==> !NoneFailed(d, stage)
  {
    match stage {
      case Scan =>
      case Judge => assert d.credentials.Some? ==> CredentialsOf(d) == d.credentials.value.credentials;
      case Extract => assert d.credentials.Some? ==> CredentialsOf(d) == d.credentials.value.credentials;
    }
  }

  /** After any crash neither selection nor loading of a registered boundary meets a missing document, and a selected
      boundary is either in the phase of the stage, finished and due for audit, or has a saved failure to retry. */
  lemma SelectedIsLoadable(w: World, d: Disk, stage: Stage, failed: bool)
    requires Consistent(w, d) && d.record.Some?
    ensures Load(d) == Ok(d.Live())
    ensures Eligible(d, stage, failed) == Ok(
              && d.Live()
              && (d.InPhase(stage)
                  || (stage == Extract && d.InPhase(Done))
                  || (failed && stage.Rank() < d.record.value.phase.Rank() && !NoneFailed(d, stage))))
  {
    FailureMeans(d, stage);
  }

  lemma MissingRecordIsRefused(d: Disk, stage: Stage, failed: bool)
    requires d.record.None?
    ensures Eligible(d, stage, failed).Err?
  {
  }

  /** The writes of one checkpoint, in order. */
  function CheckpointOf(stage: Stage, targets: Inventory, report: Option<Report>,
                        credentials: Option<CredentialsDocument>): Trace {
    [Event(Worker(stage), PutTargets(targets))]
    + (if report.Some? then [Event(Worker(stage), PutReport(report.value))] else [])
    + (if credentials.Some? then [Event(Worker(stage), PutCredentials(credentials.value))] else [])
  }

  // In-memory documents

  function EmptyReport(boundary: string): Report { Report(boundary, "", [], []) }

  function EmptyCredentials(boundary: string): CredentialsDocument { CredentialsDocument(boundary, "", map[], []) }

  function RequeueTarget(t: Target): Target {
    if t.result.status.Failed? then t.(result := t.result.(status := TargetStatus.Pending)) else t
  }

  function RequeueJudgment(c: Credential): Credential {
    if c.judgment.status.Failed? then c.(judgment := c.judgment.(status := JudgmentStatus.Pending)) else c
  }

  function RequeueExtraction(c: Credential): Credential {
    if c.extraction.status.Failed? then c.(extraction := c.extraction.(status := ExtractionStatus.Pending)) else c
  }

  function RequeueTargets(i: Inventory): Inventory {
    i.(targets := map id | id in i.targets :: RequeueTarget(i.targets[id]))
  }

  function RequeueCredentials(c: CredentialsDocument, stage: Stage): CredentialsDocument {
    match stage
    case Scan => c
    case Judge => c.(credentials := map id | id in c.credentials :: RequeueJudgment(c.credentials[id]))
    case Extract => c.(credentials := map id | id in c.credentials :: RequeueExtraction(c.credentials[id]))
  }

  /** A retry of scans touches no credential, and an empty history has nothing to retry. */
  lemma RequeueOnlyOwn(c: CredentialsDocument, stage: Stage)
    ensures stage == Scan || c.credentials == map[] ==> RequeueCredentials(c, stage) == c
  {
  }

  /** The directory after an explicit retry has reopened the stage. */
  function Reopened(d: Disk, stage: Stage): Disk
    requires d.record.Some? && d.targets.Some?
  {
    d.(record := Some(d.record.value.(phase := stage)),
       targets := Some(if stage == Scan then RequeueTargets(d.targets.value) else d.targets.value),
       credentials := if d.credentials.Some? then Some(RequeueCredentials(d.credentials.value, stage)) else None)
  }

  /** What an explicit retry changes: the record goes back to this stage, each of its failures is pending again with
      everything else that was saved about it, and nothing else moves. */
  ghost predicate Requeued(was: Disk, now: Disk, stage: Stage) {
    && was.record.Some? && was.targets.Some? && now.targets.Some? && (was.credentials.Some? <==> now.credentials.Some?)
    && now == was.(record := Some(was.record.value.(phase := stage)), targets := now.targets,
                   credentials := now.credentials)
    && now.targets.value == was.targets.value.(targets := now.targets.value.targets)
    && RequeuedTargets(was.targets.value.targets, now.targets.value.targets, stage)
    && (was.credentials.Some? ==>
          && now.credentials.value == was.credentials.value.(credentials := now.credentials.value.credentials)
          && RequeuedCredentials(was.credentials.value.credentials, now.credentials.value.credentials, stage))
  }

  ghost predicate RequeuedTargets(was: map<string, Target>, now: map<string, Target>, stage: Stage) {
    && now.Keys == was.Keys
    && forall id <- was ::
         now[id] == if stage == Scan && was[id].result.status.Failed?
                    then was[id].(result := was[id].result.(status := TargetStatus.Pending)) else was[id]
  }

  ghost predicate RequeuedCredentials(was: map<string, Credential>, now: map<string, Credential>, stage: Stage) {
    && now.Keys == was.Keys
    && forall id <- was ::
         now[id] == if stage == Judge && was[id].judgment.status.Failed?
                    then was[id].(judgment := was[id].judgment.(status := JudgmentStatus.Pending))
                    else if stage == Extract && was[id].extraction.status.Failed?
                    then was[id].(extraction := was[id].extraction.(status := ExtractionStatus.Pending)) else was[id]
  }

  /** A retry leaves no failure of its stage saved, and reopening the stage is what it does. */
  lemma ReopenedIsRequeued(d: Disk, stage: Stage)
    requires d.record.Some? && d.targets.Some?
    ensures Requeued(d, Reopened(d, stage), stage) && NoneFailed(Reopened(d, stage), stage)
  {
    var now := Reopened(d, stage);
    assert d.credentials.Some? && stage == Scan ==>
        RequeuedCredentials(d.credentials.value.credentials, now.credentials.value.credentials, stage);
  }

  lemma SoundAt(w: World, d: Disk, id: string)
    requires Consistent(w, d) && id in CredentialsOf(d)
    ensures CredentialSound(w, d.files, CredentialsOf(d)[id])
  {
  }

  lemma RequeueTargetsAllowed(w: World, d: Disk, stage: Stage)
    requires Consistent(w, d) && d.InPhase(stage)
    ensures d.targets.Some? && WorkerMay(w, d, stage, PutTargets(Reopened(d, stage).targets.value))
  {
  }

  lemma RequeueMeans(c: CredentialsDocument, stage: Stage)
    ensures RequeuedCredentials(c.credentials, RequeueCredentials(c, stage).credentials, stage)
  {
  }

  lemma RequeuedStep(w: World, files: Files, c: Credential)
    requires CredentialSound(w, files, c)
    ensures RequeueJudgment(c).Valid() && JudgmentStep(c.judgment, RequeueJudgment(c).judgment)
    ensures RequeueExtraction(c).Valid() && ExtractionStep(w, files, c.extraction, RequeueExtraction(c))
  {
  }

  lemma RequeueCredentialsAllowed(w: World, d: Disk, stage: Stage)
    requires Consistent(w, d) && d.InPhase(stage) && d.credentials.Some?
    ensures WorkerMay(w, d, stage, PutCredentials(RequeueCredentials(d.credentials.value, stage)))
    ensures RequeuedCredentials(d.credentials.value.credentials,
                                RequeueCredentials(d.credentials.value, stage).credentials, stage)
  {
    RequeueMeans(d.credentials.value, stage);
    if stage == Scan {
      RequeueOnlyOwn(d.credentials.value, stage);
      SameCredentialsAllowed(w, d, stage);
    } else {
      hide Consistent, RequeuedCredentials, ExtractionStep, JudgmentStep, CredentialSound, EvidenceKept,
           Credential.Valid;
      var was, now := d.credentials.value.credentials, RequeueCredentials(d.credentials.value, stage).credentials;
      assert CredentialsOf(d) == was;
      forall id | id in was
        ensures now[id].Valid() && now[id].credentialId == id
        ensures stage == Judge ==> JudgmentStep(was[id].judgment, now[id].judgment)
        ensures stage == Extract ==> ExtractionStep(w, d.files, was[id].extraction, now[id])
      {
        SoundAt(w, d, id);
        IndexedAt(w, d, id);
        RequeuedStep(w, d.files, was[id]);
      }
    }
  }

  /** The directory once a selected command has been entered. */
  function Entered(d: Disk, stage: Stage, failed: bool): Disk
    requires d.record.Some? && d.targets.Some?
  {
    if failed && d.SavedFailure(stage) then Reopened(d, stage) else d
  }

  // Permission of each in-memory change

  lemma LegalNone(w: World, d: Disk)
    ensures Legal(w, d, []) && Replay(d, []) == d
  {
  }

  lemma SameTargetsAllowed(w: World, d: Disk, stage: Stage)
    requires d.InPhase(stage) && d.targets.Some?
    ensures WorkerMay(w, d, stage, PutTargets(d.targets.value))
  {
  }

  lemma SameReportAllowed(w: World, d: Disk, stage: Stage)
    requires d.InPhase(stage) && d.report.Some?
    ensures WorkerMay(w, d, stage, PutReport(d.report.value))
  {
  }

  lemma MayReopen(w: World, d: Disk, stage: Stage)
    requires d.Live() && stage.Rank() <= d.record.value.phase.Rank() && d.SavedFailure(stage)
    ensures WorkerMay(w, d, stage, PutRecord(d.record.value.(phase := stage)))
  {
  }

  lemma SameCredentialsAllowed(w: World, d: Disk, stage: Stage)
    requires Consistent(w, d) && d.InPhase(stage) && d.credentials.Some?
    ensures WorkerMay(w, d, stage, PutCredentials(d.credentials.value))
  {
    assert CredentialsOf(d) == d.credentials.value.credentials;
    forall id | id in CredentialsOf(d) {
      SoundAt(w, d, id);
    }
  }

  /** What one document says never decides whether another may be written in the same phase. */
  lemma IndependentDocuments(w: World, d: Disk, d': Disk, stage: Stage, write: Write)
    requires d'.record == d.record && d'.credentials == d.credentials && d'.files == d.files
    requires d'.report == d.report || stage == Scan || write.PutCredentials?
    requires write.PutReport? || write.PutCredentials?
    ensures WorkerMay(w, d, stage, write) == WorkerMay(w, d', stage, write)
  {
    assert CredentialsOf(d') == CredentialsOf(d);
  }

  lemma ScannedTargetsAllowed(w: World, d: Disk, i: Inventory)
    requires d.InPhase(Scan) && d.targets.Some? && i == d.targets.value.(targets := i.targets)
    requires i.targets.Keys == d.targets.value.targets.Keys
    requires forall id <- i.targets :: TargetStep(d.targets.value.targets[id], i.targets[id])
    ensures WorkerMay(w, d, Scan, PutTargets(i))
  {
  }

  /** What a scan publishes extends the history it loaded. */
  lemma PublicationAllowed(w: World, d: Disk, known: CredentialsDocument, report: Report, inventory: Inventory,
                           policy: Conversion.Policy, candidates: CredentialsDocument)
    requires Consistent(w, d) && d.InPhase(Scan) && known.credentials == CredentialsOf(d)
    requires Conversion.Converts(policy, report, inventory, candidates)
    ensures var merged := CredentialMerge.MergeScan(Some(known), candidates);
            && WorkerMay(w, d, Scan, PutCredentials(merged))
            && merged.reportGeneratedAt == report.generatedAt
  {
    hide Conversion.Converts, Consistent, CredentialMerge.Distinct;
    var was, now := CredentialsOf(d), CredentialMerge.MergeScan(Some(known), candidates).credentials;
    assert candidates.reportGeneratedAt == report.generatedAt by {
      ConvertedStamp(policy, report, inventory, candidates);
    }
    forall id | id in now
      ensures now[id].Valid() && now[id].credentialId == id && NoDuplicates(now[id].occurrences)
      ensures id in was ==> ExtendsCredential(was[id], now[id])
      ensures id !in was ==> id != "" && DiscoveredFresh(now[id])
    {
      PublishedEntry(w, d, report, inventory, policy, candidates, id);
    }
  }

  lemma ConvertedStamp(policy: Conversion.Policy, report: Report, inventory: Inventory, candidates: CredentialsDocument)
    requires Conversion.Converts(policy, report, inventory, candidates)
    ensures candidates.reportGeneratedAt == report.generatedAt
  {
  }

  lemma PublishedEntry(w: World, d: Disk, report: Report, inventory: Inventory,
                       policy: Conversion.Policy, candidates: CredentialsDocument, id: string)
    requires Consistent(w, d) && Conversion.Converts(policy, report, inventory, candidates)
    requires id in CredentialsOf(d) || id in candidates.credentials
    ensures var was := CredentialsOf(d);
            var c := CredentialMerge.MergeEntry(id, was, candidates.credentials);
            && c.Valid() && c.credentialId == id && NoDuplicates(c.occurrences)
            && (id in was ==> ExtendsCredential(was[id], c))
            && (id !in was ==> id != "" && DiscoveredFresh(c))
  {
    hide Conversion.Converts, Consistent, CredentialMerge.Distinct;
    var was := CredentialsOf(d);
    if id in was {
      SoundAt(w, d, id);
      assert was[id].credentialId == id by { IndexedAt(w, d, id); }
    }
    if id in candidates.credentials {
      Conversion.ConvertedIsFresh(policy, report, inventory, candidates, id);
      var found := candidates.credentials[id].occurrences;
      var known := if id in was then was[id].occurrences else [];
      CredentialMerge.DistinctSound(known + found);
      CredentialMerge.DistinctSound(found);
      CredentialMerge.DistinctFixed(found);
      CredentialMerge.MergeOccurrencesExtends(known, found);
    }
  }

  lemma IndexedAt(w: World, d: Disk, id: string)
    requires Consistent(w, d) && id in CredentialsOf(d)
    ensures CredentialsOf(d)[id].credentialId == id
  {
  }

  function ResetTarget(t: Target): Target {
    if t.result.status.Running? then t.(result := t.result.(status := TargetStatus.Pending)) else t
  }

  predicate IsPending(i: Inventory, id: string) { id in i.targets && i.targets[id].result.status.Pending? }

  /** The saved result of each of these targets tells how the last attempt on it ended. */
  ghost predicate Told(i: Inventory, tries: seq<Titus.Try>, ids: seq<string>) {
    forall id <- ids :: id in i.targets && Titus.ToldBy(i.targets[id].result, tries, id)
  }

  lemma ToldNone(i: Inventory)
    ensures Told(i, [], [])
  {
  }

  lemma ToldAnother(i: Inventory, tries: seq<Titus.Try>, ids: seq<string>, id: string, r: TargetResult,
                    more: seq<Titus.Try>)
    requires Told(i, tries, ids) && Titus.TriedOnly(tries, ids) && id in i.targets && id !in ids
    requires Titus.AllOf(more, id) && Titus.Complete(more) && Titus.Tells(r, more[|more| - 1].attempt)
    ensures Told(WithResult(i, id, r), tries + more, ids + [id])
  {
    hide Titus.Complete, Titus.Tells, Titus.AllOf, Titus.Times, Titus.ToldBy;
    Titus.ToldByOwn(r, tries, more, id);
    forall x | x in ids
      ensures Titus.ToldBy(i.targets[x].result, tries + more, x)
    {
      Titus.StillToldBy(i.targets[x].result, tries, more, id, x);
    }
  }

  /** A scan that may have been interrupted: each attempted target has a result that tells how its last attempt ended,
      except that the last one may still be running; targets left running by an earlier scan are pending, and all others
      are as they were. */
  ghost predicate ScannedSoFar(was: Inventory, now: Inventory, attempted: seq<string>, tries: seq<Titus.Try>) {
    && now.targets.Keys == was.targets.Keys
    && (forall id <- was.targets ::
          && now.targets[id].scope == was.targets[id].scope
          && (id !in attempted ==>
                now.targets[id].result == if was.targets[id].result.status.Running?
                                          then was.targets[id].result.(status := TargetStatus.Pending)
                                          else was.targets[id].result))
    && forall i :: 0 <= i < |attempted| ==>
         && attempted[i] in now.targets
         && var r := now.targets[attempted[i]].result;
            Titus.ToldBy(r, tries, attempted[i]) || (i == |attempted| - 1 && r.status.Running?)
  }

  lemma SoFar(was: Inventory, known: Inventory, attempted: seq<string>, tries: seq<Titus.Try>, id: string,
              r: TargetResult, more: seq<Titus.Try>)
    requires AttemptedOnly(was, known, attempted) && Told(known, tries, attempted)
    requires IsPending(was, id) && id !in attempted && r.status.Running? && Titus.AllOf(more, id)
    requires forall id <- was.targets :: !was.targets[id].result.status.Running?
    ensures id in known.targets
    ensures ScannedSoFar(was, WithResult(known, id, r), attempted + [id], tries + more)
  {
    hide Titus.ToldBy, Titus.AllOf;
    forall i | 0 <= i < |attempted|
      ensures attempted[i] in known.targets
      ensures Titus.ToldBy(known.targets[attempted[i]].result, tries + more, attempted[i])
    {
      assert attempted[i] in attempted;
      Titus.StillToldBy(known.targets[attempted[i]].result, tries, more, id, attempted[i]);
    }
  }

  lemma AllSoFar(was: Inventory, now: Inventory, attempted: seq<string>, tries: seq<Titus.Try>)
    requires AttemptedOnly(was, now, attempted) && Told(now, tries, attempted)
    requires forall id <- was.targets :: !was.targets[id].result.status.Running?
    ensures ScannedSoFar(was, now, attempted, tries)
  {
    hide Titus.ToldBy;
  }

  lemma ResetSoFar(was: Inventory, reset: Inventory, now: Inventory, attempted: seq<string>, tries: seq<Titus.Try>)
    requires reset == was.(targets := map id | id in was.targets :: ResetTarget(was.targets[id]))
    requires ScannedSoFar(reset, now, attempted, tries)
    ensures ScannedSoFar(was, now, attempted, tries)
  {
    hide Titus.ToldBy;
    forall id | id in was.targets
      ensures reset.targets[id] == ResetTarget(was.targets[id])
    {
    }
  }

  /** Exactly the attempted targets have new results, all of them settled. */
  ghost predicate AttemptedOnly(was: Inventory, now: Inventory, attempted: seq<string>) {
    && now.targets.Keys == was.targets.Keys
    && forall id <- was.targets ::
         && now.targets[id].scope == was.targets[id].scope
         && (if id in attempted then now.targets[id].result.status.Settled() else now.targets[id] == was.targets[id])
  }

  function WithResult(i: Inventory, id: string, r: TargetResult): Inventory
    requires id in i.targets
  {
    i.(targets := i.targets[id := i.targets[id].(result := r)])
  }

  lemma AttemptedNone(i: Inventory)
    ensures AttemptedOnly(i, i, [])
  {
  }

  lemma UntouchedYet(was: Inventory, now: Inventory, attempted: seq<string>, id: string)
    requires AttemptedOnly(was, now, attempted) && IsPending(was, id) && id !in attempted
    ensures IsPending(now, id)
  {
  }

  lemma AttemptedAnother(was: Inventory, now: Inventory, attempted: seq<string>, id: string)
    requires AttemptedOnly(was, now, attempted) && IsPending(now, id)
    ensures forall r: TargetResult :: r.status.Settled() ==>
              AttemptedOnly(was, WithResult(now, id, r), attempted + [id])
  {
  }

  lemma AllAttempted(was: Inventory, now: Inventory, attempted: seq<string>)
    requires AttemptedOnly(was, now, attempted)
    requires forall id <- was.targets :: !was.targets[id].result.status.Running?
    requires forall id :: IsPending(was, id) ==> id in attempted
    ensures now.Settled()
  {
    forall id | id in was.targets
      ensures now.targets[id].result.status.Settled()
    {
      assert IsPending(was, id) ==> id in attempted;
    }
  }

  predicate Unfinished(i: Inventory, id: string) { id in i.targets && !i.targets[id].result.status.Settled() }

  /** The scanner was run on unfinished targets only, at most three times on each. */
  ghost predicate TriedWithin(made: seq<Titus.Try>, i: Inventory) {
    forall id :: Titus.Times(made, id) <= if Unfinished(i, id) then Titus.MAX_ATTEMPTS else 0
  }

  /** Only unfinished targets are ever attempted, at most three times each. */
  lemma TriedUnfinished(was: Inventory, reset: Inventory, attempted: seq<string>, made: seq<Titus.Try>)
    requires reset == was.(targets := map id | id in was.targets :: ResetTarget(was.targets[id]))
    requires forall id <- attempted :: IsPending(reset, id)
    requires Titus.TriedAtMost(made, attempted) || Titus.TriedOnly(made, attempted)
    ensures TriedWithin(made, was)
  {
    forall id: string
      ensures Titus.Times(made, id) <= if Unfinished(was, id) then Titus.MAX_ATTEMPTS else 0
    {
      assert id in attempted ==> IsPending(reset, id);
    }
  }

  /** Every unfinished target was attempted once and settled, and no other target changed. */
  ghost predicate ScansOnce(was: Inventory, now: Inventory, attempted: seq<string>) {
    && NoDuplicates(attempted)
    && (forall id :: id in attempted <==> id in was.targets && !was.targets[id].result.status.Settled())
    && AttemptedOnly(was, now, attempted)
    && now.Settled()
  }

  lemma ResetThenAttempt(was: Inventory, reset: Inventory, now: Inventory, attempted: seq<string>)
    requires reset == was.(targets := map id | id in was.targets :: ResetTarget(was.targets[id]))
    requires NoDuplicates(attempted) && forall id :: id in attempted <==> IsPending(reset, id)
    requires AttemptedOnly(reset, now, attempted) && now.Settled()
    ensures ScansOnce(was, now, attempted)
  {
    forall id | id in was.targets
      ensures reset.targets[id] == ResetTarget(was.targets[id])
      ensures id in attempted <==> !was.targets[id].result.status.Settled()
    {
      assert id in attempted <==> IsPending(reset, id);
    }
  }

  // Judgment

  predicate AwaitsJudgment(m: map<string, Credential>, id: string) { id in m && m[id].judgment.status.Pending? }

  /** The saved judgment says what the judge answered: its ruling, or the text of its failure. */
  predicate JudgedAs(j: Judgment, a: Answer) {
    match a
    case Ruled(verdict, reasoning) => j == Judgment(JudgmentStatus.Completed, Some(verdict), reasoning, None)
    case Declined(message) => j == Judgment(JudgmentStatus.Failed, None, "", Some(ErrorText(message)))
    case Erred(message) => j == Judgment(JudgmentStatus.Failed, None, "", Some(ErrorText(message)))
    case Fatal => false
  }

  ghost predicate AskedAbout(asked: seq<Inquiry>, id: string) { exists q <- asked :: q.id == id }

  /** The judge was asked once about each of these credentials, their judgments say what it answered, and nothing else
      changed. */
  ghost predicate JudgedOnly(was: map<string, Credential>, now: map<string, Credential>, asked: seq<Inquiry>) {
    && (forall i, j :: 0 <= i < j < |asked| ==> asked[i].id != asked[j].id)
    && now.Keys == was.Keys
    && (forall q <- asked ::
          && AwaitsJudgment(was, q.id)
          && now[q.id] == was[q.id].(judgment := now[q.id].judgment) && JudgedAs(now[q.id].judgment, q.answer))
    && forall id <- was :: !AskedAbout(asked, id) ==> now[id] == was[id]
  }

  /** The judge was asked once about every pending judgment, and nothing else changed. */
  ghost predicate JudgesOnce(was: map<string, Credential>, now: map<string, Credential>, asked: seq<Inquiry>) {
    JudgedOnly(was, now, asked) && forall id :: AwaitsJudgment(was, id) ==> AskedAbout(asked, id)
  }

  lemma JudgedNone(m: map<string, Credential>)
    ensures JudgedOnly(m, m, []) && forall id :: !AskedAbout([], id)
  {
  }

  lemma AskedAnother(asked: seq<Inquiry>, q: Inquiry)
    ensures forall id :: AskedAbout(asked + [q], id) <==> AskedAbout(asked, id) || id == q.id
  {
    forall id | AskedAbout(asked, id) || id == q.id
      ensures AskedAbout(asked + [q], id)
    {
      var x :| x in asked + [q] && x.id == id;
    }
  }

  lemma NotAsked(asked: seq<Inquiry>, id: string)
    requires !AskedAbout(asked, id)
    ensures forall i :: 0 <= i < |asked| ==> asked[i].id != id
  {
    forall i | 0 <= i < |asked|
      ensures asked[i].id != id
    {
      assert asked[i] in asked;
    }
  }

  lemma JudgedAnother(was: map<string, Credential>, now: map<string, Credential>, asked: seq<Inquiry>, q: Inquiry,
                      j: Judgment)
    requires JudgedOnly(was, now, asked) && AwaitsJudgment(was, q.id) && !AskedAbout(asked, q.id)
    requires JudgedAs(j, q.answer)
    ensures q.id in now && JudgedOnly(was, now[q.id := now[q.id].(judgment := j)], asked + [q])
  {
    hide JudgedAs, AskedAbout;
    AskedAnother(asked, q);
    NotAsked(asked, q.id);
  }

  /** Nothing is pending once every answer is saved. */
  lemma NothingUnjudged(was: map<string, Credential>, now: map<string, Credential>, asked: seq<Inquiry>)
    requires JudgesOnce(was, now, asked)
    ensures forall id <- now :: !now[id].judgment.status.Pending?
  {
    forall id | id in now
      ensures !now[id].judgment.status.Pending?
    {
      if AskedAbout(asked, id) {
        var q :| q in asked && q.id == id;
      } else {
        assert !AwaitsJudgment(was, id);
      }
    }
  }

  const ERROR_NAME := "Exception"

  const ERROR_LIMIT := 500

  /** A saved failure is never silent and never long: an error without text is named by its type. */
  function ErrorText(message: string): (text: string)
    ensures 0 < |text| <= 500
    ensures message != "" ==> text <= message && (|text| == |message| || |text| == 500)
  {
    if message == "" then ERROR_NAME else if |message| <= ERROR_LIMIT then message else message[..ERROR_LIMIT]
  }

  lemma StillAwaits(was: map<string, Credential>, now: map<string, Credential>, asked: seq<Inquiry>, id: string)
    requires JudgedOnly(was, now, asked) && AwaitsJudgment(was, id) && !AskedAbout(asked, id)
    ensures AwaitsJudgment(now, id)
  {
  }

  lemma JudgmentAllowed(w: World, d: Disk, id: string, j: Judgment)
    requires Consistent(w, d) && d.InPhase(Judge) && d.credentials.Some?
    requires id in d.credentials.value.credentials && d.credentials.value.credentials[id].judgment.status.Pending?
    requires j.Valid() && !j.status.Pending?
    ensures var c := d.credentials.value;
            WorkerMay(w, d, Judge, PutCredentials(c.(credentials :=
                                                     c.credentials[id := c.credentials[id].(judgment := j)])))
  {
    var was := d.credentials.value.credentials;
    assert CredentialsOf(d) == was;
    forall x | x in was
      ensures CredentialSound(w, d.files, was[x])
    {
      SoundAt(w, d, x);
    }
  }

  // Extraction

  const NOT_PLAIN := "evidence filename must be a plain safe filename"

  function SkippedExtraction(c: Credential): Extraction {
    Extraction(ExtractionStatus.Skipped, None, None, None, c.extraction.error,
               Some(if c.judgment.status.Failed? then JUDGMENT_FAILED else JUDGED_INVALID))
  }

  function FailedExtraction(error: string): Extraction {
    Extraction(ExtractionStatus.Failed, None, None, None, Some(error), None)
  }

  function RetainedExtraction(w: World, path: Path, content: Bytes): Extraction {
    Extraction(ExtractionStatus.Retained, Some(path), Some(|content|), Some(w.hash(content)), None, None)
  }

  predicate AwaitsExtraction(m: map<string, Credential>, id: string) { id in m && m[id].extraction.status.Pending? }

  /** A pending extraction is attempted where the judgment permits it, and skipped with the true reason elsewhere. */
  ghost predicate ExtractionSettles(was: Credential, now: Credential) {
    && now == was.(extraction := now.extraction)
    && if was.judgment.PermitsExtraction() then now.extraction.status.Retained? || now.extraction.status.Failed?
       else && now.extraction ==
               Extraction(ExtractionStatus.Skipped, None, None, None, was.extraction.error, now.extraction.reason)
            && (now.extraction.reason == Some(JUDGMENT_FAILED) <==> was.judgment.status.Failed?)
            && (now.extraction.reason == Some(JUDGED_INVALID) <==> was.judgment.RuledInvalid())
            && (was.judgment.status.Failed? || was.judgment.RuledInvalid())
  }

  /** These credentials, each of them once, have settled extractions, and nothing else changed. */
  ghost predicate ExtractedOnly(was: map<string, Credential>, now: map<string, Credential>, settled: seq<string>) {
    && NoDuplicates(settled)
    && (forall id <- settled :: AwaitsExtraction(was, id))
    && now.Keys == was.Keys
    && forall id <- was :: if id in settled then ExtractionSettles(was[id], now[id]) else now[id] == was[id]
  }

  /** Every pending extraction was settled once, and those that the judgment permits were attempted once. */
  ghost predicate ExtractsOnce(was: map<string, Credential>, now: map<string, Credential>, settled: seq<string>,
                               met: seq<Encounter>) {
    && ExtractedOnly(was, now, settled)
    && (forall id :: AwaitsExtraction(was, id) ==> id in settled)
    && OwedOnce(was, Ids(met)) && forall id :: Owes(was, id) ==> id in Ids(met)
  }

  lemma ExtractedNone(m: map<string, Credential>)
    ensures ExtractedOnly(m, m, []) && MetAll(m, [], [])
  {
  }

  lemma ExtractedAnother(was: map<string, Credential>, now: map<string, Credential>, settled: seq<string>, id: string,
                         e: Extraction)
    requires ExtractedOnly(was, now, settled) && AwaitsExtraction(was, id) && id !in settled
    requires ExtractionSettles(was[id], was[id].(extraction := e))
    ensures now.Keys == was.Keys && ExtractedOnly(was, now[id := now[id].(extraction := e)], settled + [id])
  {
  }

  /** Its judgment failed or ruled it invalid, and not both. */
  predicate Skippable(c: Credential) {
    c.judgment.status.Failed? <==> !c.judgment.RuledInvalid()
  }

  lemma ThisSettles(c: Credential, e: Extraction)
    requires if c.judgment.PermitsExtraction() then e.status.Retained? || e.status.Failed?
             else e == SkippedExtraction(c) && Skippable(c)
    ensures ExtractionSettles(c, c.(extraction := e))
  {
    SkipReasonsDiffer();
  }

  lemma NothingPending(was: map<string, Credential>, now: map<string, Credential>, settled: seq<string>,
                       met: seq<Encounter>)
    requires ExtractsOnce(was, now, settled, met)
    ensures forall id <- now :: !now[id].extraction.status.Pending?
  {
    forall id | id in now
      ensures !now[id].extraction.status.Pending?
    {
      assert AwaitsExtraction(was, id) ==> id in settled;
    }
  }

  lemma StillUnextracted(was: map<string, Credential>, now: map<string, Credential>, settled: seq<string>, id: string)
    requires ExtractedOnly(was, now, settled) && AwaitsExtraction(was, id) && id !in settled
    ensures AwaitsExtraction(now, id) && now[id] == was[id]
  {
  }

  lemma ExtractionAllowed(w: World, d: Disk, id: string, e: Extraction)
    requires Consistent(w, d) && d.InPhase(Extract) && d.credentials.Some?
    requires id in d.credentials.value.credentials
    requires var c := d.credentials.value.credentials[id];
             && c.extraction.status.Pending? && c.(extraction := e).Valid()
             && (if c.judgment.PermitsExtraction()
                 then (e.status.Retained? || e.status.Failed?) && EvidenceKept(w, d.files, c.(extraction := e))
                 else e == SkippedExtraction(c))
    ensures var c := d.credentials.value;
            WorkerMay(w, d, Extract, PutCredentials(c.(credentials :=
                                                       c.credentials[id := c.credentials[id].(extraction := e)])))
  {
    var was := d.credentials.value.credentials;
    assert CredentialsOf(d) == was;
    forall x | x in was
      ensures CredentialSound(w, d.files, was[x])
    {
      SoundAt(w, d, x);
    }
  }

  /** In the extract phase no judgment is pending, so a skip is called invalid exactly when it is. */
  lemma SkipIsTruthful(w: World, d: Disk, id: string)
    requires Consistent(w, d) && d.InPhase(Extract) && id in CredentialsOf(d)
    requires !CredentialsOf(d)[id].judgment.PermitsExtraction()
    ensures var c := CredentialsOf(d)[id];
            && c.(extraction := SkippedExtraction(c)).Valid() && Skippable(c)
            && (SkippedExtraction(c).reason == Some(JUDGED_INVALID) <==> c.judgment.RuledInvalid())
  {
    SoundAt(w, d, id);
    assert id in d.credentials.value.credentials && !CredentialsOf(d)[id].judgment.status.Pending?;
    SkipReasonsDiffer();
  }

  /** Once its temporary name is gone, no other name reaches a linked destination. */
  lemma LinkedIsSole(w: World, d: Disk, id: string)
    requires Loadable(w, d) && id in CredentialsOf(d) && HasHome(w, CredentialsOf(d)[id])
    requires var p := EvidencePath(w, CredentialsOf(d)[id]); p in d.files.names && Temporary(p) !in d.files.names
    ensures d.files.Sole(EvidencePath(w, CredentialsOf(d)[id]))
  {
    var all := CredentialsOf(d);
    var p := EvidencePath(w, all[id]);
    forall q | q in d.files.names && d.files.names[q] == d.files.names[p] && q != p
      ensures false
    {
      assert Twins(w, all, q, p);
      var x :| x in all && HasHome(w, all[x]) && var r := EvidencePath(w, all[x]);
        (q == r && p == Temporary(r)) || (p == r && q == Temporary(r));
      TemporaryDiffers(p);
      if x != id {
        assert CredentialSound(w, d.files, all[id]) && CredentialSound(w, d.files, all[x]);
        PathsApart(w, all[id], all[x]);
      }
      assert false;
    }
  }

  lemma FilesAreValid(w: World, d: Disk)
    requires Consistent(w, d)
    ensures d.files.Valid() && Loadable(w, d)
  {
  }

  lemma MayRetain(w: World, d: Disk, id: string, op: FileOp)
    requires Consistent(w, d) && d.InPhase(Extract) && id in CredentialsOf(d)
    requires CredentialsOf(d)[id].extraction.status.Pending? && HasHome(w, CredentialsOf(d)[id])
    requires OperatesOn(d.files, EvidencePath(w, CredentialsOf(d)[id]), op)
    ensures WorkerMay(w, d, Extract, File(id, op))
  {
    SoundAt(w, d, id);
  }

  /** What one retention did to the directory. */
  ghost predicate RetainedAs(before: Files, after: Files, p: Path, content: Bytes, inode: nat, adopted: bool)
    requires p != [] && before.Valid()
  {
    && inode !in before.data
    && after == OperateAll(before, Retain(before, p, content, inode).ops)
    && adopted == Retain(before, p, content, inode).adopted
    && (adopted <==> p !in before.names || before.Read(p) == content || LooseEnd(before, p))
    && (adopted ==> after.Has(p) && after.Sole(p) && after.Read(p) == content)
  }

  lemma RetentionDone(w: World, before: Files, d: Disk, id: string, content: Bytes, inode: nat, adopted: bool)
    requires before.Valid() && Loadable(w, d) && id in CredentialsOf(d) && HasHome(w, CredentialsOf(d)[id])
    requires inode !in before.data
    requires var p := EvidencePath(w, CredentialsOf(d)[id]);
             && d.files == OperateAll(before, Retain(before, p, content, inode).ops)
             && adopted == Retain(before, p, content, inode).adopted
    ensures RetainedAs(before, d.files, EvidencePath(w, CredentialsOf(d)[id]), content, inode, adopted)
  {
    hide Home, Temporary, Retain, OperateAll, Loadable;
    var p := EvidencePath(w, CredentialsOf(d)[id]);
    RetainFrame(before, p, content, inode);
    if p in before.names {
      OrphanAdoption(before, p, content, inode);
    } else {
      FreeIsAdopted(before, p, content, inode);
    }
    if adopted {
      LinkedIsSole(w, d, id);
    }
  }

  lemma FreeIsAdopted(before: Files, p: Path, content: Bytes, inode: nat)
    requires p != [] && p !in before.names
    ensures Retain(before, p, content, inode).adopted
  {
  }

  lemma NotPlainIsText()
    ensures NOT_PLAIN != ""
  {
    assert |NOT_PLAIN| > 0;
  }

  lemma FailureKeepsNothing(w: World, files: Files, c: Credential, error: string)
    requires c.Valid() && error != ""
    ensures c.(extraction := FailedExtraction(error)).Valid()
    ensures EvidenceKept(w, files, c.(extraction := FailedExtraction(error)))
  {
  }

  /** Other bytes are at the destination already, and not just under its own temporary name. */
  predicate Conflicts(w: World, files: Files, c: Credential, reading: Result<Bytes, string>) {
    && reading.Ok? && c.occurrences != [] && Plain(w.fileName(c.occurrences[0]))
    && var p := EvidencePath(w, c);
       files.Has(p) && files.Read(p) != reading.value && !LooseEnd(files, p)
  }

  /** A torn write leaves a free destination free and an occupied one as it was, unless it shared the temporary
      inode. */
  ghost predicate TornAs(before: Files, after: Files, p: Path, written: Bytes)
    requires p != [] && before.Valid()
  {
    && (exists inode: nat :: inode !in before.data && after == OperateAll(before, RewriteOps(p, written, inode)))
    && BytesAt(after, p) ==
       if p !in before.names then None else Some(if LooseEnd(before, p) then written else before.Read(p))
  }

  lemma TornMeans(before: Files, after: Files, p: Path, written: Bytes, inode: nat)
    requires p != [] && before.Valid() && inode !in before.data
    requires after == OperateAll(before, RewriteOps(p, written, inode))
    ensures TornAs(before, after, p, written)
  {
    hide OperateAll, Temporary, Retain;
    assert RewriteOps(p, written, inode)[..3] == RewriteOps(p, written, inode);
    if p in before.names {
      OccupiedDestination(before, p, written, inode, 3);
    } else {
      TornLeavesFree(before, p, written, inode);
    }
  }

  lemma TornLeavesFree(before: Files, p: Path, written: Bytes, inode: nat)
    requires p != [] && before.Valid() && inode !in before.data && p !in before.names
    ensures BytesAt(OperateAll(before, RewriteOps(p, written, inode)), p) == None
  {
    hide OperateAll;
    TemporaryDiffers(p);
    assert RewriteOps(p, written, inode)[..3] == RewriteOps(p, written, inode);
    RewriteSteps(before, p, written, inode, 3);
  }

  // What extraction saves

  /** The saved extraction says what the attempt met: evidence and its true description, or why there is none. */
  ghost predicate ExtractedAs(w: World, files: Files, c: Credential, x: Encounter)
    requires c.occurrences != []
  {
    var name := w.fileName(c.occurrences[0]);
    if x.reading.Ok? && Plain(name) && x.fault.NoFault? then
      var p, content := Home(c.credentialId) + [name], x.reading.value;
      && c.extraction ==
         Extraction(ExtractionStatus.Retained, Some(p), Some(|content|), Some(w.hash(content)), None, None)
      && BytesAt(files, p) == Some(content)
    else
      c.extraction ==
        Extraction(ExtractionStatus.Failed, None, None, None,
                   Some(if x.reading.Err? then ErrorText(x.reading.error)
                        else if !Plain(name) then NOT_PLAIN else ErrorText(x.message)), None)
  }

  /** Each of these encounters is told by what is saved now. */
  ghost predicate Answered(w: World, d: Disk, met: seq<Encounter>) {
    forall x <- met :: ToldOf(w, d, x)
  }

  ghost predicate ToldOf(w: World, d: Disk, x: Encounter) {
    && x.id in CredentialsOf(d) && CredentialsOf(d)[x.id].occurrences != []
    && ExtractedAs(w, d.files, CredentialsOf(d)[x.id], x)
  }

  /** The credentials concerned, in order. */
  function Ids(met: seq<Encounter>): seq<string> {
    seq(|met|, i requires 0 <= i < |met| => met[i].id)
  }

  lemma IdsNext(met: seq<Encounter>, x: Encounter)
    ensures Ids(met + [x]) == Ids(met) + [x.id]
  {
  }

  /** A later result changes nothing about an earlier one. */
  lemma StillTold(w: World, was: Disk, now: Disk, id: string, e: Extraction, x: Encounter)
    requires ToldOf(w, was, x) && Evolves(was, now) && x.id != id && id in CredentialsOf(was)
    requires CredentialsOf(now) == CredentialsOf(was)[id := CredentialsOf(was)[id].(extraction := e)]
    ensures ToldOf(w, now, x)
  {
    hide Home, Plain, CredentialMerge.HistoryEvolves;
  }

  lemma AnsweredAnother(w: World, was: Disk, now: Disk, met: seq<Encounter>, id: string, e: Extraction)
    requires Answered(w, was, met) && Evolves(was, now) && id !in Ids(met) && id in CredentialsOf(was)
    requires CredentialsOf(now) == CredentialsOf(was)[id := CredentialsOf(was)[id].(extraction := e)]
    ensures Answered(w, now, met)
  {
    hide ToldOf, Evolves;
    forall x | x in met
      ensures ToldOf(w, now, x)
    {
      var i :| 0 <= i < |met| && met[i] == x;
      assert Ids(met)[i] == x.id;
      StillTold(w, was, now, id, e, x);
    }
  }

  lemma NothingMet(w: World, m: map<string, Credential>, d: Disk)
    ensures Answered(w, d, []) && Faultless(w, m, [])
  {
  }

  lemma AnsweredNext(w: World, d: Disk, met: seq<Encounter>, x: Encounter)
    requires Answered(w, d, met) && ToldOf(w, d, x)
    ensures Answered(w, d, met + [x])
  {
    hide ToldOf;
  }

  /** File operations that take nothing back leave every saved result true. */
  lemma FilesMoved(w: World, was: Disk, now: Disk, met: seq<Encounter>)
    requires Answered(w, was, met) && Evolves(was, now) && CredentialsOf(now) == CredentialsOf(was)
    ensures Answered(w, now, met)
  {
    hide Home, Plain, CredentialMerge.HistoryEvolves;
    forall x | x in met
      ensures ToldOf(w, now, x)
    {
      assert ToldOf(w, was, x);
    }
  }

  lemma SameDocuments(w: World, was: Disk, now: Disk, met: seq<Encounter>)
    requires now == was.(record := now.record)
    ensures Answered(w, was, met) ==> Answered(w, now, met)
    ensures forall id :: Retains(w, was, id) ==> Retains(w, now, id)
  {
    hide Home, Plain;
    if Answered(w, was, met) {
      forall x | x in met
        ensures ToldOf(w, now, x)
      {
        assert ToldOf(w, was, x);
      }
    }
  }

  lemma Stopped(w: World, was: map<string, Credential>, now: Disk, x: Encounter)
    requires AwaitsExtraction(was, x.id) && was[x.id].judgment.PermitsExtraction()
    requires x.id in CredentialsOf(now) && CredentialsOf(now)[x.id] == was[x.id]
    requires x.fault.Reaches() && Conflicts(w, now.files, was[x.id], x.reading)
    ensures StoppedAt(w, was, now, x)
  {
    hide Conflicts;
  }

  lemma FaultlessAnother(w: World, m: map<string, Credential>, met: seq<Encounter>, x: Encounter)
    requires Faultless(w, m, met) && x.id in m && m[x.id].occurrences != []
    requires x.reading == Ok(w.content(m[x.id].occurrences[0])) && x.fault.NoFault?
    ensures Faultless(w, m, met + [x])
  {
  }

  /** Without faults the locator was read as what it denotes, and storage did not fail. */
  ghost predicate Faultless(w: World, m: map<string, Credential>, met: seq<Encounter>) {
    forall x <- met ::
      && x.id in m && m[x.id].occurrences != []
      && x.reading == Ok(w.content(m[x.id].occurrences[0])) && x.fault.NoFault?
  }

  /** The content of the first occurrence is retained, and truly described, exactly when its file name is plain. */
  ghost predicate Retains(w: World, d: Disk, id: string) {
    && id in CredentialsOf(d) && CredentialsOf(d)[id].occurrences != []
    && var c := CredentialsOf(d)[id];
       var content, p := w.content(c.occurrences[0]), Home(id) + [w.fileName(c.occurrences[0])];
       if Plain(w.fileName(c.occurrences[0])) then
         && c.extraction ==
            Extraction(ExtractionStatus.Retained, Some(p), Some(|content|), Some(w.hash(content)), None, None)
         && BytesAt(d.files, p) == Some(content)
       else c.extraction == Extraction(ExtractionStatus.Failed, None, None, None, Some(NOT_PLAIN), None)
  }

  /** Without faults everything owed is retained, as far as its file name allows. */
  lemma FaultlessRetains(w: World, was: map<string, Credential>, d: Disk, met: seq<Encounter>, settled: seq<string>)
    requires Consistent(w, d) && Answered(w, d, met) && Faultless(w, was, met)
    requires ExtractsOnce(was, CredentialsOf(d), settled, met)
    ensures forall id :: Owes(was, id) ==> Retains(w, d, id)
  {
    hide Home, Plain, Consistent;
    forall id | Owes(was, id)
      ensures Retains(w, d, id)
    {
      var i :| 0 <= i < |Ids(met)| && Ids(met)[i] == id;
      assert met[i] in met;
      assert ToldOf(w, d, met[i]);
      IndexedAt(w, d, id);
    }
  }

  /** What an attempt that did not raise left behind is what its result says. */
  lemma AttemptedTells(w: World, before: Files, after: Files, c: Credential, x: Encounter, e: Extraction)
    requires c.Valid() && before.Valid() && Attempted(w, before, after, c, x.reading, x.fault, x.message, e)
    ensures ExtractedAs(w, after, c.(extraction := e), x)
  {
    hide Home, Plain, TornAs, Retain, OperateAll, Temporary;
  }

  // Obstruction

  /** Bytes other than those of the first occurrence are at the destination of a credential. */
  predicate Obstructs(w: World, files: Files, c: Credential) {
    c.occurrences != [] && Conflicts(w, files, c, Ok(w.content(c.occurrences[0])))
  }

  /** A credential that extraction owes evidence is obstructed. */
  ghost predicate Obstructed(w: World, d: Disk) {
    exists id :: Owes(CredentialsOf(d), id) && Obstructs(w, d.files, CredentialsOf(d)[id])
  }

  predicate Owes(m: map<string, Credential>, id: string) {
    AwaitsExtraction(m, id) && m[id].judgment.PermitsExtraction()
  }

  /** The files after an attempt that ran to its end, if it came to touch them. */
  ghost predicate Touched(w: World, before: Files, after: Files, c: Credential)
    requires before.Valid()
  {
    || after == before
    || (HasHome(w, c)
        && exists inode: nat, content, adopted ::
             RetainedAs(before, after, EvidencePath(w, c), content, inode, adopted))
  }

  lemma RetentionSpares(w: World, d: Disk, after: Files, id: string, x: string, content: Bytes, inode: nat,
                        adopted: bool)
    requires Consistent(w, d) && id in CredentialsOf(d) && x in CredentialsOf(d) && x != id && d.files.Valid()
    requires HasHome(w, CredentialsOf(d)[id]) && HasHome(w, CredentialsOf(d)[x])
    requires RetainedAs(d.files, after, EvidencePath(w, CredentialsOf(d)[id]), content, inode, adopted)
    ensures var p := EvidencePath(w, CredentialsOf(d)[x]);
            BytesAt(after, p) == BytesAt(d.files, p) && LooseEnd(after, p) == LooseEnd(d.files, p)
  {
    hide Home, Temporary, Plain, OperateAll, Retain, Consistent;
    var all := CredentialsOf(d);
    var p, q := EvidencePath(w, all[id]), EvidencePath(w, all[x]);
    SoundAt(w, d, id);
    SoundAt(w, d, x);
    IndexedAt(w, d, id);
    IndexedAt(w, d, x);
    PathsApart(w, all[id], all[x]);
    PathsApart(w, all[x], all[id]);
    if Temporary(p) == Temporary(q) {
      TemporaryInjective(p, q);
    }
    RetainFrame(d.files, p, content, inode);
    if q in d.files.names && Temporary(p) in d.files.names && d.files.names[q] == d.files.names[Temporary(p)] {
      SharedIsOwn(w, d, id, q);
    }
    var t := Temporary(q);
    assert q in after.names <==> q in d.files.names;
    assert t in after.names <==> t in d.files.names;
  }

  lemma SharedIsOwn(w: World, d: Disk, id: string, q: Path)
    requires Consistent(w, d) && id in CredentialsOf(d) && HasHome(w, CredentialsOf(d)[id])
    requires var t := Temporary(EvidencePath(w, CredentialsOf(d)[id]));
             q != t && q in d.files.names && t in d.files.names && d.files.names[q] == d.files.names[t]
    ensures q == EvidencePath(w, CredentialsOf(d)[id])
  {
    assert Twins(w, CredentialsOf(d), Temporary(EvidencePath(w, CredentialsOf(d)[id])), q);
    TwinOfTemporary(w, d, id, q);
  }

  /** An attempt on one credential neither raises nor removes an obstruction of another. */
  lemma AttemptSpares(w: World, d: Disk, after: Files, id: string, x: string)
    requires Consistent(w, d) && id in CredentialsOf(d) && x in CredentialsOf(d) && x != id && d.files.Valid()
    requires Touched(w, d.files, after, CredentialsOf(d)[id])
    ensures Obstructs(w, after, CredentialsOf(d)[x]) == Obstructs(w, d.files, CredentialsOf(d)[x])
  {
    hide Consistent, RetainedAs, LooseEnd, Home;
    var c, other := CredentialsOf(d)[id], CredentialsOf(d)[x];
    if after != d.files && HasHome(w, other) {
      var inode: nat, content, adopted :| RetainedAs(d.files, after, EvidencePath(w, c), content, inode, adopted);
      RetentionSpares(w, d, after, id, x, content, inode, adopted);
      var p := EvidencePath(w, other);
      assert BytesAt(after, p) == BytesAt(d.files, p);
    }
  }

  /** Obstructions are what they were among the credentials still to come. */
  ghost predicate SameObstructions(w: World, was: Files, now: Files, m: map<string, Credential>, todo: set<string>) {
    forall id <- todo :: id in m && Obstructs(w, now, m[id]) == Obstructs(w, was, m[id])
  }

  lemma NothingChanged(w: World, files: Files, m: map<string, Credential>, todo: set<string>)
    requires todo <= m.Keys
    ensures SameObstructions(w, files, files, m, todo)
  {
  }

  lemma ObstructionFound(w: World, was: Files, now: Files, m: map<string, Credential>, todo: set<string>, id: string)
    requires id in todo
    ensures SameObstructions(w, was, now, m, todo) ==> id in m && Obstructs(w, now, m[id]) == Obstructs(w, was, m[id])
  {
  }

  lemma TodoSpared(w: World, d: Disk, after: Files, first: Files, was: map<string, Credential>, settled: seq<string>,
                   id: string, todo: set<string>)
    requires Consistent(w, d) && d.files.Valid() && ExtractedOnly(was, CredentialsOf(d), settled)
    requires AwaitsExtraction(was, id) && id !in settled && id !in todo
    requires forall x <- todo :: AwaitsExtraction(was, x) && x !in settled
    requires id in CredentialsOf(d) && Touched(w, d.files, after, CredentialsOf(d)[id])
    requires SameObstructions(w, first, d.files, was, todo + {id})
    ensures SameObstructions(w, first, after, was, todo)
  {
    hide Consistent, Obstructs, Touched, ExtractedOnly, AwaitsExtraction;
    forall x | x in todo
      ensures x in was && Obstructs(w, after, was[x]) == Obstructs(w, first, was[x])
    {
      StillUnextracted(was, CredentialsOf(d), settled, x);
      StillThere(CredentialsOf(d), x);
      AttemptSpares(w, d, after, id, x);
    }
  }

  /** Each of these is owed an extraction, and none is named twice. */
  ghost predicate OwedOnce(m: map<string, Credential>, ids: seq<string>) {
    NoDuplicates(ids) && forall id <- ids :: Owes(m, id)
  }

  /** Exactly those of the settled extractions were attempted that the judgment permits, each of them once. */
  ghost predicate MetAll(m: map<string, Credential>, settled: seq<string>, met: seq<Encounter>) {
    && NoDuplicates(Ids(met))
    && forall id :: id in Ids(met) <==> id in settled && Owes(m, id)
  }

  lemma MetAnother(m: map<string, Credential>, settled: seq<string>, met: seq<Encounter>, id: string, x: Encounter)
    requires MetAll(m, settled, met) && AwaitsExtraction(m, id) && id !in settled && x.id == id
    ensures if m[id].judgment.PermitsExtraction()
            then MetAll(m, settled + [id], met + [x]) && OwedOnce(m, Ids(met + [x]))
            else MetAll(m, settled + [id], met)
  {
    IdsNext(met, x);
  }

  lemma UnmetYet(m: map<string, Credential>, settled: seq<string>, met: seq<Encounter>, id: string)
    requires MetAll(m, settled, met) && id !in settled
    ensures id !in Ids(met)
  {
  }

  lemma MetIsOwed(m: map<string, Credential>, settled: seq<string>, met: seq<Encounter>)
    requires MetAll(m, settled, met)
    ensures OwedOnce(m, Ids(met)) && forall id <- Ids(met) :: id in settled
    ensures (forall id :: AwaitsExtraction(m, id) ==> id in settled) ==> forall id :: Owes(m, id) ==> id in Ids(met)
  {
  }

  lemma TodoIsAll(m: map<string, Credential>, todo: set<string>)
    requires todo == set id | id in m && m[id].extraction.status.Pending?
    ensures todo <= m.Keys && forall id :: id in todo <==> AwaitsExtraction(m, id)
  {
  }

  lemma AwaitsMeans(m: map<string, Credential>, id: string)
    requires AwaitsExtraction(m, id)
    ensures id in m
  {
  }

  /** None of the settled extractions was obstructed at first. */
  ghost predicate SettledClear(w: World, first: Files, was: map<string, Credential>, settled: seq<string>) {
    forall id <- settled :: Owes(was, id) ==> !Obstructs(w, first, was[id])
  }

  lemma ClearNone(w: World, first: Files, was: map<string, Credential>)
    ensures SettledClear(w, first, was, [])
  {
  }

  lemma ClearAnother(w: World, first: Files, was: map<string, Credential>, settled: seq<string>, id: string)
    requires SettledClear(w, first, was, settled)
    requires id in was && !(was[id].judgment.PermitsExtraction() && Obstructs(w, first, was[id]))
    ensures SettledClear(w, first, was, settled + [id])
  {
  }

  lemma AllClear(w: World, d: Disk, settled: seq<string>)
    requires SettledClear(w, d.files, CredentialsOf(d), settled)
    requires forall id :: AwaitsExtraction(CredentialsOf(d), id) ==> id in settled
    ensures !Obstructed(w, d)
  {
    hide Obstructs;
  }

  lemma ObstructedBy(w: World, d: Disk, id: string)
    requires AwaitsExtraction(CredentialsOf(d), id) && CredentialsOf(d)[id].judgment.PermitsExtraction()
    requires Obstructs(w, d.files, CredentialsOf(d)[id])
    ensures Obstructed(w, d)
  {
    assert Owes(CredentialsOf(d), id);
  }

  lemma StillThere(m: map<string, Credential>, id: string)
    requires AwaitsExtraction(m, id)
    ensures id in m
  {
  }

  /** A command would meet an obstruction among what it owes once it has reopened its retries. */
  ghost predicate Blocked(w: World, d: Disk, failed: bool) {
    && d.record.Some? && d.targets.Some?
    && var entered := Entered(d, Extract, failed);
       entered.InPhase(Extract) && Obstructed(w, entered)
  }

  lemma RefusedAgain(w: World, before: Files, after: Files, c: Credential, content: Bytes, inode: nat)
    requires before.Valid() && HasHome(w, c) && RetainedAs(before, after, EvidencePath(w, c), content, inode, false)
    ensures var p := EvidencePath(w, c);
            before.Has(p) && BytesAt(after, p) == BytesAt(before, p) && !LooseEnd(after, p)
  {
    hide Temporary, OperateAll, Retain;
    var p := EvidencePath(w, c);
    RetainFrame(before, p, content, inode);
    OrphanAdoption(before, p, content, inode);
  }

  /** A refused retention leaves the obstruction where it was. */
  lemma RefusalObstructsAgain(w: World, before: Files, after: Files, c: Credential, reading: Result<Bytes, string>)
    requires before.Valid() && TurnedAway(w, before, after, c, reading)
    ensures Conflicts(w, after, c, reading) && Touched(w, before, after, c)
  {
    hide RetainedAs, LooseEnd, Home, Temporary;
    var inode: nat :| RetainedAs(before, after, EvidencePath(w, c), reading.value, inode, false);
    RefusedAgain(w, before, after, c, reading.value, inode);
    StillRefused(before, after, EvidencePath(w, c), reading.value, inode);
  }

  lemma StillRefused(before: Files, after: Files, p: Path, content: Bytes, inode: nat)
    requires p != [] && before.Valid() && RetainedAs(before, after, p, content, inode, false)
    requires before.Has(p) && BytesAt(after, p) == BytesAt(before, p)
    ensures after.Has(p) && after.Read(p) != content
  {
    hide Temporary, OperateAll, Retain;
  }

  /** What an attempt that did not raise left on disk and in the result. */
  ghost predicate Attempted(w: World, before: Files, after: Files, c: Credential, reading: Result<Bytes, string>,
                            fault: StorageFault, message: string, e: Extraction)
    requires c.Valid() && before.Valid()
  {
    if reading.Err? then after == before && e == FailedExtraction(ErrorText(reading.error))
    else if !Plain(w.fileName(c.occurrences[0])) then after == before && e == FailedExtraction(NOT_PLAIN)
    else if fault.Unplaced? then after == before && e == FailedExtraction(ErrorText(message))
    else if fault.Unopened? then
      after == Operate(before, Unlink(Temporary(EvidencePath(w, c)))) && e == FailedExtraction(ErrorText(message))
    else if fault.Torn? then
      && TornAs(before, after, EvidencePath(w, c), fault.written)
      && e == FailedExtraction(ErrorText(message))
    else
      var p := EvidencePath(w, c);
      && (exists inode: nat :: RetainedAs(before, after, p, reading.value, inode, true))
      && e == if fault.Late? then FailedExtraction(ErrorText(message)) else RetainedExtraction(w, p, reading.value)
  }

  lemma AttemptedEnds(w: World, before: Files, after: Files, c: Credential, reading: Result<Bytes, string>,
                      fault: StorageFault, message: string, e: Extraction)
    requires c.Valid() && before.Valid() && Attempted(w, before, after, c, reading, fault, message, e)
    ensures e.status.Retained? || e.status.Failed?
    ensures fault.Reaches() ==> Touched(w, before, after, c)
  {
    hide RetainedAs, TornAs, Home;
  }

  /** What a raised conflict left on disk. */
  ghost predicate TurnedAway(w: World, before: Files, after: Files, c: Credential, reading: Result<Bytes, string>)
    requires before.Valid()
  {
    && reading.Ok? && HasHome(w, c)
    && exists inode: nat :: RetainedAs(before, after, EvidencePath(w, c), reading.value, inode, false)
  }

  lemma RetentionMeans(before: Files, after: Files, p: Path, content: Bytes, adopted: bool)
    requires p != [] && before.Valid() && exists inode: nat :: RetainedAs(before, after, p, content, inode, adopted)
    ensures !adopted <==> before.Has(p) && before.Read(p) != content && !LooseEnd(before, p)
    ensures adopted ==> after.Has(p) && after.Sole(p) && after.Read(p) == content
  {
    hide Retain, OperateAll, Temporary;
  }

  lemma RetentionIsKept(w: World, files: Files, c: Credential, content: Bytes)
    requires c.Valid() && HasHome(w, c)
    requires var p := EvidencePath(w, c); files.Has(p) && files.Sole(p) && files.Read(p) == content
    ensures var now := c.(extraction := RetainedExtraction(w, EvidencePath(w, c), content));
            now.Valid() && EvidenceKept(w, files, now)
  {
  }

  lemma LaterPhasesArePublished(w: World, d: Disk)
    requires Consistent(w, d) && d.Live() && !d.InPhase(Scan)
    ensures d.credentials.Some? && d.report.Some?
  {
  }

  /** The history before a command, empty when none was ever published. */
  function KnownCredentials(d: Disk, boundary: string): CredentialsDocument {
    if d.credentials.Some? then d.credentials.value else EmptyCredentials(boundary)
  }

  /** There are targets, but neither an earlier scan nor these runs left a datastore to export. */
  predicate Unexportable(d: Disk, made: seq<Titus.Try>) {
    d.targets.Some? && d.targets.value.targets != map[] && !d.datastore && !Titus.Makes(made)
  }

  /** What a scan did: the targets it attempted, every run and every export of the scanner, and what the report
      converts to. */
  datatype ScanWork = ScanWork(attempted: seq<string>, made: seq<Titus.Try>, exports: seq<Option<Titus.Export>>,
                               candidates: CredentialsDocument)

  /** The report is that of the one export, which a datastore or a target calls for; otherwise it is empty. */
  ghost predicate Publishes(report: Report, boundary: string, inventory: Inventory, datastore: bool,
                            exports: seq<Option<Titus.Export>>)
  {
    && report.boundaryId == boundary
    && if datastore || inventory.targets != map[] then
         && exports == [Some(Titus.Export.Export(report.generatedAt, report.findings))]
         && report.errors == inventory.errors + inventory.errors
       else exports == [] && report.findings == [] && report.errors == inventory.errors
  }

  /** Each unfinished target was attempted once and has a result that tells how its last attempt ended. */
  ghost predicate ScannedTargets(was: Inventory, now: Inventory, work: ScanWork) {
    && now == was.(targets := now.targets)
    && ScansOnce(was, now, work.attempted) && Titus.TriedOnly(work.made, work.attempted)
    && Told(now, work.made, work.attempted)
  }

  /** What a finished scan command did: each unfinished target once, and one publication of what the export and the
      report convert to. */
  ghost predicate ScanDid(was: Disk, now: Disk, failed: bool, boundary: string, policy: Conversion.Policy,
                          work: ScanWork)
  {
    && was.record.Some? && was.targets.Some? && now.InPhase(Judge) && now.Published()
    && now == was.(record := Some(was.record.value.(phase := Judge)), targets := now.targets, report := now.report,
                   credentials := now.credentials, datastore := was.datastore || Titus.Makes(work.made))
    && ScannedTargets(Entered(was, Scan, failed).targets.value, now.targets.value, work)
    && Publishes(now.report.value, boundary, now.targets.value, now.datastore, work.exports)
    && Conversion.Converts(policy, now.report.value, now.targets.value, work.candidates)
    && now.credentials == Some(CredentialMerge.MergeScan(Some(KnownCredentials(was, boundary)), work.candidates))
  }

  /** What a scan did whose export failed: each unfinished target once, and nothing else. */
  ghost predicate ScanFell(was: Disk, now: Disk, failed: bool, work: ScanWork) {
    && was.record.Some? && was.targets.Some? && now.InPhase(Scan) && now.targets.Some?
    && now == Entered(was, Scan, failed).(targets := now.targets)
    && ScannedTargets(Entered(was, Scan, failed).targets.value, now.targets.value, work)
    && work.exports == [None]
  }

  /** What a scan left that an error stopped: no credential changed, and no saved result is false. */
  ghost predicate ScanStopped(was: Disk, now: Disk, failed: bool, boundary: string, work: ScanWork) {
    && was.record.Some? && was.targets.Some? && now.targets.Some?
    && var entered := Entered(was, Scan, failed);
       && now == entered.(targets := now.targets, report := now.report,
                          datastore := was.datastore || Titus.Makes(work.made))
       && now.targets.value == entered.targets.value.(targets := now.targets.value.targets)
       && ScannedSoFar(entered.targets.value, now.targets.value, work.attempted, work.made)
       && (now.report == entered.report
           || (now.report.Some?
               && Publishes(now.report.value, boundary, now.targets.value, now.datastore, work.exports)))
  }

  /** What a finished judge command changed: the record and the judgments it owed. */
  ghost predicate Judged(was: Disk, now: Disk, failed: bool, asked: seq<Inquiry>) {
    && was.record.Some? && was.targets.Some?
    && var entered := Entered(was, Judge, failed);
       && entered.credentials.Some? && now.credentials.Some?
       && now == entered.(record := now.record, credentials := now.credentials)
       && now.credentials.value == entered.credentials.value.(credentials := CredentialsOf(now))
       && JudgesOnce(CredentialsOf(entered), CredentialsOf(now), asked)
  }

  /** What a judge command changed that a fatal answer stopped: the judgments it was given before. */
  ghost predicate JudgedSoFar(was: Disk, now: Disk, failed: bool, asked: seq<Inquiry>) {
    && was.record.Some? && was.targets.Some? && asked != [] && asked[|asked| - 1].answer.Fatal?
    && var entered := Entered(was, Judge, failed);
       && entered.credentials.Some? && now.credentials.Some?
       && now == entered.(credentials := now.credentials)
       && now.credentials.value == entered.credentials.value.(credentials := CredentialsOf(now))
       && JudgedOnly(CredentialsOf(entered), CredentialsOf(now), asked[..|asked| - 1])
       && AwaitsJudgment(CredentialsOf(now), asked[|asked| - 1].id)
  }

  /** What a finished extract command changed: the record, the extractions it owed, and evidence files. */
  ghost predicate Extracted(w: World, was: Disk, now: Disk, failed: bool, settled: seq<string>, met: seq<Encounter>) {
    && was.record.Some? && was.targets.Some?
    && var entered := Entered(was, Extract, failed);
       && entered.credentials.Some? && now.credentials.Some?
       && now == entered.(record := now.record, credentials := now.credentials, files := now.files)
       && now.credentials.value == entered.credentials.value.(credentials := CredentialsOf(now))
       && ExtractsOnce(CredentialsOf(entered), CredentialsOf(now), settled, met)
       && Answered(w, now, met)
  }

  /** No reading but of what was owed, and none twice. */
  ghost predicate MetOnce(was: Disk, failed: bool, met: seq<Encounter>) {
    was.record.Some? && was.targets.Some? && OwedOnce(CredentialsOf(Entered(was, Extract, failed)), Ids(met))
  }

  /** Everything that was owed is retained, as far as its file name allows. */
  ghost predicate RetainsOwed(w: World, was: Disk, now: Disk, failed: bool) {
    && was.record.Some? && was.targets.Some?
    && forall id :: Owes(CredentialsOf(Entered(was, Extract, failed)), id) ==> Retains(w, now, id)
  }

  /** A conflict stopped extraction: what it met before is saved, and the credential it stopped at is as it was. */
  ghost predicate ExtractedSoFar(w: World, was: Disk, now: Disk, failed: bool, settled: seq<string>,
                                 met: seq<Encounter>) {
    && was.record.Some? && was.targets.Some? && met != []
    && var entered := Entered(was, Extract, failed);
       && entered.credentials.Some? && now.credentials.Some?
       && now == entered.(credentials := now.credentials, files := now.files)
       && now.credentials.value == entered.credentials.value.(credentials := CredentialsOf(now))
       && ExtractedOnly(CredentialsOf(entered), CredentialsOf(now), settled)
       && Answered(w, now, met[..|met| - 1])
       && StoppedAt(w, CredentialsOf(entered), now, met[|met| - 1])
  }

  /** Other bytes than those read are at the destination of this credential, which is as it was. */
  ghost predicate StoppedAt(w: World, was: map<string, Credential>, now: Disk, x: Encounter) {
    && Owes(was, x.id) && x.id in CredentialsOf(now) && CredentialsOf(now)[x.id] == was[x.id]
    && x.fault.Reaches() && Conflicts(w, now.files, was[x.id], x.reading)
  }

  // A pass of all three stages

  /** How a fault-free pass ends: in done, in scan because there was nothing to export, or in extract because a
      destination is obstructed. */
  datatype PassEnd = Finished | Unexported | Conflicting

  /** The writes of one command, the directory after them, and what it asked of its services. */
  datatype ScanTrail = ScanTrail(log: Trace, now: Disk, work: ScanWork)

  datatype JudgeTrail = JudgeTrail(log: Trace, now: Disk, asked: seq<Inquiry>)

  datatype ExtractTrail = ExtractTrail(log: Trace, now: Disk, settled: seq<string>, met: seq<Encounter>)

  /** These are the writes of this command from this directory, and they took nothing back. */
  ghost predicate Commanded(w: World, was: Disk, c: Command, log: Trace, now: Disk) {
    Obeys(w, was, c, log) && now == Replay(was, log) && Evolves(was, now)
  }

  /** A scan that is due finds nothing to export. */
  predicate ScanFalls(was: Disk, failed: bool, made: seq<Titus.Try>) {
    && Eligible(was, Scan, failed) == Ok(true) && was.record.Some? && was.targets.Some?
    && Unexportable(Entered(was, Scan, failed), made)
  }

  ghost predicate ScanStep(w: World, was: Disk, failed: bool, boundary: string, policy: Conversion.Policy,
                           t: ScanTrail) {
    && Commanded(w, was, Source(Scan, failed), t.log, t.now)
    && if Eligible(was, Scan, failed) != Ok(true) then t.now == was && t.work.made == [] && t.work.exports == []
       else if ScanFalls(was, failed, t.work.made) then ScanFell(was, t.now, failed, t.work)
       else ScanDid(was, t.now, failed, boundary, policy, t.work)
  }

  ghost predicate JudgeStep(w: World, was: Disk, failed: bool, t: JudgeTrail) {
    && Commanded(w, was, Source(Judge, failed), t.log, t.now)
    && if Eligible(was, Judge, failed) != Ok(true) then t.now == was && t.asked == []
       else Judged(was, t.now, failed, t.asked) && t.now.InPhase(Extract)
  }

  ghost predicate ExtractStep(w: World, was: Disk, failed: bool, t: ExtractTrail) {
    && Commanded(w, was, Source(Extract, failed), t.log, t.now)
    && if Eligible(was, Extract, failed) != Ok(true) || OnlyAudits(was, failed) then t.now == was && t.met == []
       else if Blocked(w, was, failed) then
         t.now.InPhase(Extract) && Obstructed(w, t.now) && ExtractedSoFar(w, was, t.now, failed, t.settled, t.met)
       else
         && Extracted(w, was, t.now, failed, t.settled, t.met) && t.now.InPhase(Done)
         && RetainsOwed(w, was, t.now, failed)
  }

  /** A scan of these targets can export: there are none, or a datastore is there. */
  predicate Exportable(d: Disk) {
    d.datastore || (d.targets.Some? && d.targets.value.targets == map[])
  }

  /** Every file is the evidence of a known credential or its temporary name, and nothing that may still be owed is
      obstructed. */
  ghost predicate Tended(w: World, d: Disk) {
    && (forall p <- d.files.names :: exists id <- CredentialsOf(d) :: Names(w, CredentialsOf(d)[id], p))
    && forall id <- CredentialsOf(d) :: MayBeOwed(CredentialsOf(d)[id]) ==> !Obstructs(w, d.files, CredentialsOf(d)[id])
  }

  ghost predicate Names(w: World, c: Credential, p: Path) {
    HasHome(w, c) && (p == EvidencePath(w, c) || p == Temporary(EvidencePath(w, c)))
  }

  predicate MayBeOwed(c: Credential) { c.extraction.status.Pending? || c.extraction.status.Failed? }

  predicate OnlyAudits(d: Disk, failed: bool) { d.InPhase(Done) && !(failed && d.SavedFailure(Extract)) }

  lemma DoneIsSettled(w: World, d: Disk)
    requires Consistent(w, d) && d.InPhase(Done)
    ensures !d.PendingExtraction()
  {
  }

  lemma DoneIsPublished(w: World, d: Disk)
    requires Consistent(w, d) && d.InPhase(Done)
    ensures d.Published() && !d.PendingJudgment() && !d.PendingExtraction()
  {
  }

  // Inventory

  /** What the backend says of a boundary: discovery fails, the boundary is gone, or these are its targets. */
  datatype Discovery = Failing | Gone | Found(inventory: Inventory)

  /** The phase survives only when an available boundary keeps exactly its targets. */
  function RefreshedPhase(d: Disk, merged: Inventory): Phase {
    if d.Live() && d.targets.Some? && d.targets.value.targets.Keys == merged.targets.Keys
        then d.record.value.phase else Scan
  }

  /** Readiness is revoked before targets change, and otherwise granted after them. */
  function EntryEvents(was: Disk, record: BoundaryRecord, targets: Inventory): Trace {
    var r, t := Event(Inventorist, PutRecord(record)), Event(Inventorist, PutTargets(targets));
    if was.Live() && was.record.value.phase != record.phase then [r, t] else [t, r]
  }

  lemma RefreshAllowed(w: World, d: Disk, found: Inventory, merged: Inventory, r: BoundaryRecord)
    requires Consistent(w, d) && found.Valid() && Merges(d.targets, found, merged)
    requires r.availability.Available? && r.phase == RefreshedPhase(d, merged)
    ensures if d.Live() && d.record.value.phase != r.phase
            then InventoristMay(d, PutRecord(r)) && InventoristMay(d.(record := Some(r)), PutTargets(merged))
            else InventoristMay(d, PutTargets(merged)) && InventoristMay(d.(targets := Some(merged)), PutRecord(r))
  {
    MergeIsStable(d.targets, found, merged, merged);
  }

  function Parent(p: Path): Path { if p == [] then [] else p[..|p| - 1] }

  /** The retained path names an existing file directly inside the directory of the credential. */
  predicate EvidenceExists(files: Files, id: string, e: Extraction) {
    && e.outputPath.Some?
    && Parent(Resolve(e.outputPath.value)) == Resolve(Home(id))
    && e.outputPath.value in files.names
  }

  predicate EvidenceMissing(files: Files, c: Credential) {
    c.extraction.status.Retained? && !EvidenceExists(files, c.credentialId, c.extraction)
  }

  /** Only extraction touches files. */
  lemma {:induction false} FilesStay(w: World, d: Disk, t: Trace, stage: Stage)
    requires Legal(w, d, t) && WrittenBy(t, Worker(stage)) && stage != Extract
    ensures Replay(d, t).files == d.files
  {
    if t != [] {
      FilesStay(w, d, t[..|t| - 1], stage);
      assert t[|t| - 1] in t;
    }
  }

  lemma PassKeeps(w: World, a: Disk, b: Disk, c: Disk, d: Disk)
    requires Evolves(a, b) && Evolves(b, c) && Evolves(c, d)
    ensures Evolves(a, d)
  {
    hide Evolves;
    EvolvesTransitive(w, a, b, c);
    EvolvesTransitive(w, a, c, d);
  }

  lemma ExportableNeverFalls(was: Disk, failed: bool, made: seq<Titus.Try>)
    requires Exportable(was)
    ensures !ScanFalls(was, failed, made)
  {
    hide Eligible, Disk.SavedFailure;
  }

  /** What is owed later was known and could be owed before, or was unknown; in neither case is its destination in
      use. */
  lemma TendedIsClear(w: World, d: Disk, ready: Disk, failed: bool)
    requires Consistent(w, d) && Consistent(w, ready) && Evolves(d, ready) && ready.files == d.files && Tended(w, d)
    ensures !Blocked(w, ready, failed)
  {
    hide Consistent, Tended, Obstructs, Evolves, Disk.SavedFailure;
    if Blocked(w, ready, failed) {
      var m := CredentialsOf(Entered(ready, Extract, failed));
      var id :| Owes(m, id) && Obstructs(w, ready.files, m[id]);
      var c := CredentialsOf(ready)[id];
      ObstructionNeedsOccurrence(w, ready.files, c, m[id]);
      TendedSpares(w, d, ready, id);
    }
  }

  lemma ObstructionNeedsOccurrence(w: World, files: Files, c: Credential, reopened: Credential)
    requires reopened == c.(extraction := reopened.extraction)
    ensures Obstructs(w, files, c) == Obstructs(w, files, reopened)
  {
    hide Home, Plain, LooseEnd;
  }

  lemma TendedSpares(w: World, d: Disk, ready: Disk, id: string)
    requires Consistent(w, d) && Consistent(w, ready) && Evolves(d, ready) && ready.files == d.files && Tended(w, d)
    requires id in CredentialsOf(ready) && MayBeOwed(CredentialsOf(ready)[id])
    ensures !Obstructs(w, ready.files, CredentialsOf(ready)[id])
  {
    hide Consistent, LooseEnd, Home, Plain, Temporary;
    var was, c := CredentialsOf(d), CredentialsOf(ready)[id];
    SoundAt(w, ready, id);
    IndexedAt(w, ready, id);
    if id in was {
      SoundAt(w, d, id);
      SameDestination(w, was[id], c, d.files);
    } else if HasHome(w, c) && EvidencePath(w, c) in d.files.names {
      var other :| other in was && Names(w, was[other], EvidencePath(w, c));
      SoundAt(w, d, other);
      IndexedAt(w, d, other);
      PathsApart(w, was[other], c);
      PathsApart(w, c, was[other]);
    }
  }

  lemma SameDestination(w: World, was: Credential, now: Credential, files: Files)
    requires CredentialMerge.CredentialEvolves(was, now) && was.occurrences != [] && MayBeOwed(now)
    ensures MayBeOwed(was) && Obstructs(w, files, was) == Obstructs(w, files, now)
  {
    hide Home, Plain, LooseEnd;
    assert was.occurrences[0] == now.occurrences[0];
  }

  lemma TendedFinishes(w: World, d: Disk, retryScan: bool, scan: ScanTrail, retryJudge: bool, judge: JudgeTrail,
                       retryExtract: bool)
    requires Consistent(w, d)
    requires Commanded(w, d, Source(Scan, retryScan), scan.log, scan.now)
    requires Commanded(w, scan.now, Source(Judge, retryJudge), judge.log, judge.now)
    ensures Exportable(d) ==> !ScanFalls(d, retryScan, scan.work.made)
    ensures Tended(w, d) ==> !Blocked(w, judge.now, retryExtract)
  {
    hide Consistent, Tended, Blocked, ScanFalls, Exportable, Evolves, Legal, Replay, Licensed, Ascends;
    if Exportable(d) {
      ExportableNeverFalls(d, retryScan, scan.work.made);
    }
    FilesStay(w, d, scan.log, Scan);
    RunKeeps(w, d, scan.log);
    FilesStay(w, scan.now, judge.log, Judge);
    RunKeeps(w, scan.now, judge.log);
    EvolvesTransitive(w, d, scan.now, judge.now);
    if Tended(w, d) {
      TendedIsClear(w, d, judge.now, retryExtract);
    }
  }

  lemma NotRetained(files: Files, c: Credential)
    requires !c.extraction.status.Retained?
    ensures !EvidenceMissing(files, c)
  {
  }

  /** The audit misses a retained credential with a path of its own exactly when no file has that name. */
  lemma MissingIsAbsent(w: World, files: Files, c: Credential)
    requires c.extraction.status.Retained? && HasHome(w, c) && c.extraction.outputPath == Some(EvidencePath(w, c))
    ensures EvidenceMissing(files, c) <==> EvidencePath(w, c) !in files.names
  {
    var p := EvidencePath(w, c);
    assert p[..|p| - 1] == Home(c.credentialId) && p[|p| - 1] == w.fileName(c.occurrences[0]);
    assert Resolve(p) == Resolve(Home(c.credentialId)) + [p[|p| - 1]];
  }

  /** The audit of a consistent directory finds every retained file. */
  lemma RetainedExists(w: World, d: Disk, id: string)
    requires Consistent(w, d) && id in CredentialsOf(d) && CredentialsOf(d)[id].extraction.status.Retained?
    ensures !EvidenceMissing(d.files, CredentialsOf(d)[id])
  {
    SoundAt(w, d, id);
    MissingIsAbsent(w, d.files, CredentialsOf(d)[id]);
  }
}
