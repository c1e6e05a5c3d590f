/** One boundary directory as a protocol of atomic single-document writes.
    Nothing is transactional across documents: a crash may fall between any two writes, so every statement
    about runs holds after each write. Safety rests on which write each actor may make in which phase. */
module Lifecycle {
  import opened Documents
  import opened CredentialMerge
  import opened Evidence

  /** What this model does not compute: the digest, and what a locator immutably denotes, its file name and its
      bytes. */
  datatype World = World(hash: Hasher, fileName: string -> string, content: string -> Bytes)

  /** The directory: four documents, the files below it, and whether the Titus datastore exists. */
  datatype Disk = Disk(
    record: Option<BoundaryRecord>,
    targets: Option<Inventory>,
    report: Option<Report>,
    credentials: Option<CredentialsDocument>,
    files: Files,
    datastore: bool)
  {
    /** The boundary is registered and available, in this phase. */
    predicate InPhase(p: Phase) { Live() && record.value.phase == p }

    predicate Live() { record.Some? && record.value.availability.Available? }

    ghost predicate PendingJudgment() {
      credentials.Some? && exists id <- credentials.value.credentials ::
          credentials.value.credentials[id].judgment.status.Pending?
    }

    ghost predicate PendingExtraction() {
      credentials.Some? && exists id <- credentials.value.credentials ::
          credentials.value.credentials[id].extraction.status.Pending?
    }

    /** A saved failure of this stage, which an explicit retry may take up again. */
    predicate SavedFailure(stage: Stage) {
      match stage
      case Scan =>
          targets.Some? && exists id <- targets.value.targets :: targets.value.targets[id].result.status.Failed?
      case Judge =>
        credentials.Some? && exists id <- credentials.value.credentials ::
            credentials.value.credentials[id].judgment.status.Failed?
      case Extract =>
        credentials.Some? && exists id <- credentials.value.credentials ::
            credentials.value.credentials[id].extraction.status.Failed?
    }

    /** Scan work is published: both documents exist, carry one generation stamp, and no target is unfinished. */
    ghost predicate Published() {
      && targets.Some? && targets.value.Settled()
      && report.Some? && credentials.Some?
      && report.value.generatedAt == credentials.value.reportGeneratedAt
    }
  }

  const EMPTY := Disk(None, None, None, None, Files(map[], map[]), false)

  datatype Write =
    | PutRecord(record: BoundaryRecord)
    | PutTargets(targets: Inventory)
    | PutReport(report: Report)
    | PutCredentials(credentials: CredentialsDocument)
    | DropTargets
    | File(credentialId: string, op: FileOp)
    | CreateDatastore

  /** Who writes: the inventory commands, or the source command of one stage. */
  datatype Actor = Inventorist | Worker(stage: Stage)

  datatype Event = Event(actor: Actor, write: Write)

  function Apply(d: Disk, w: Write): Disk {
    match w
    case PutRecord(r) => d.(record := Some(r))
    case PutTargets(t) => d.(targets := Some(t))
    case PutReport(r) => d.(report := Some(r))
    case PutCredentials(c) => d.(credentials := Some(c))
    case DropTargets => d.(targets := None)
    case File(_, op) => d.(files := Operate(d.files, op))
    case CreateDatastore => d.(datastore := true)
  }

  // What each stage may do to an item

  /** A scan attempt or retry: a scanned target is never touched again. */
  predicate TargetStep(was: Target, now: Target) {
    was.scope == now.scope && (was.result.status.Scanned? ==> now == was)
  }

  /** Retry a failure with its diagnostic kept, or settle a pending judgment. */
  predicate JudgmentStep(was: Judgment, now: Judgment) {
    || now == was
    || (was.status.Failed? && now == was.(status := JudgmentStatus.Pending))
    || (was.status.Pending? && !now.status.Pending?)
  }

  /** Evidence comes from the first occurrence only. */
  function EvidencePath(w: World, c: Credential): Path
    requires c.occurrences != []
  {
    Home(c.credentialId) + [w.fileName(c.occurrences[0])]
  }

  /** A retained record describes the bytes at the credential's own destination, which no other name reaches. */
  ghost predicate EvidenceKept(w: World, files: Files, c: Credential)
    requires c.Valid()
  {
    c.extraction.status.Retained? ==>
      var p := EvidencePath(w, c);
      && Plain(w.fileName(c.occurrences[0]))
      && c.extraction.outputPath == Some(p)
      && files.Has(p) && files.Sole(p)
      && c.extraction.size == Some(|files.Read(p)|)
      && c.extraction.sha256 == Some(w.hash(files.Read(p)))
  }

  /** Retry a failure with its diagnostic kept, or settle a pending extraction as the judgment demands. */
  ghost predicate ExtractionStep(w: World, files: Files, was: Extraction, c: Credential)
    requires c.Valid()
  {
    var j, now := c.judgment, c.extraction;
    || now == was
    || (was.status.Failed? && now == was.(status := ExtractionStatus.Pending))
    || (was.status.Pending? && j.PermitsExtraction() && (now.status.Retained? || now.status.Failed?)
        && EvidenceKept(w, files, c))
    || (was.status.Pending? && !j.PermitsExtraction() && now.status.Skipped?
        && now.reason == Some(if j.status.Failed? then JUDGMENT_FAILED else JUDGED_INVALID))
  }

  predicate ExtendsCredential(was: Credential, now: Credential) {
    && now == was.(value := now.value, occurrences := now.occurrences)
    && was.occurrences <= now.occurrences
    && now.value == FirstTruthy(was.value, now.value)
  }

  ghost predicate DiscoveredFresh(c: Credential) {
    c.judgment == FRESH_JUDGMENT && c.extraction == FRESH_EXTRACTION && NoDuplicates(c.occurrences)
  }

  /** Publication of a scan: known credentials are extended, new ones start untouched. */
  ghost predicate ScanUpdate(was: map<string, Credential>, now: map<string, Credential>) {
    && was.Keys <= now.Keys
    && (forall id <- was :: ExtendsCredential(was[id], now[id]) && NoDuplicates(now[id].occurrences))
    && (forall id <- now.Keys - was.Keys :: id != "" && DiscoveredFresh(now[id]))
  }

  ghost predicate JudgeUpdate(was: map<string, Credential>, now: map<string, Credential>) {
    && was.Keys == now.Keys
    && forall id <- was ::
         && now[id] == was[id].(judgment := now[id].judgment)
         && JudgmentStep(was[id].judgment, now[id].judgment)
  }

  ghost predicate ExtractUpdate(w: World, files: Files, was: map<string, Credential>, now: map<string, Credential>) {
    && was.Keys == now.Keys
    && forall id <- was ::
         && now[id] == was[id].(extraction := now[id].extraction)
         && now[id].Valid()
         && ExtractionStep(w, files, was[id].extraction, now[id])
  }

  function CredentialsOf(d: Disk): map<string, Credential> {
    if d.credentials.Some? then d.credentials.value.credentials else map[]
  }

  // The protocol

  ghost predicate HandOffReady(d: Disk, stage: Stage) {
    match stage
    case Scan => d.Published()
    case Judge => !d.PendingJudgment()
    case Extract => !d.PendingExtraction()
  }

  /** Record writes of a source command: the hand-off, or an explicit retry that reopens this stage. */
  ghost predicate WorkerRecord(d: Disk, stage: Stage, r: BoundaryRecord) {
    && d.Live()
    && ((d.InPhase(stage) && r == d.record.value.(phase := Next(stage)) && HandOffReady(d, stage))
        || (r == d.record.value.(phase := stage) && stage.Rank() <= d.record.value.phase.Rank()
            && d.SavedFailure(stage)))
  }

  /** File operations touch only the temporary name and the free destination of a pending credential. */
  ghost predicate RetentionMay(w: World, d: Disk, id: string, op: FileOp) {
    && id in CredentialsOf(d)
    && var c := CredentialsOf(d)[id];
       && c.Valid() && c.extraction.status.Pending? && Plain(w.fileName(c.occurrences[0]))
       && OperatesOn(d.files, EvidencePath(w, c), op)
  }

  predicate OperatesOn(files: Files, destination: Path, op: FileOp)
    requires destination != []
  {
    match op
    case Truncate(t, i) => t == Temporary(destination) && i !in files.data
    case Fill(t, _) => t == Temporary(destination)
    case Link(t, p) => t == Temporary(destination) && p == destination
    case Unlink(t) => t == Temporary(destination)
  }

  ghost predicate WorkerMay(w: World, d: Disk, stage: Stage, write: Write) {
    match write
    case PutRecord(r) => WorkerRecord(d, stage, r)
    case PutTargets(t) =>
      && d.InPhase(stage) && d.targets.Some?
      && (if stage == Scan
          then t == d.targets.value.(targets := t.targets) && t.targets.Keys == d.targets.value.targets.Keys
               && forall id <- t.targets :: TargetStep(d.targets.value.targets[id], t.targets[id])
          else t == d.targets.value)
    case PutReport(r) => d.InPhase(stage) && (stage == Scan || d.report == Some(r))
    case PutCredentials(c) =>
      && d.InPhase(stage) && c.Valid()
      && match stage {
           case Scan => ScanUpdate(CredentialsOf(d), c.credentials)
           case Judge =>
             && d.credentials.Some? && d.credentials == Some(c.(credentials := d.credentials.value.credentials))
             && JudgeUpdate(d.credentials.value.credentials, c.credentials)
           case Extract =>
             && d.credentials.Some? && d.credentials == Some(c.(credentials := d.credentials.value.credentials))
             && ExtractUpdate(w, d.files, d.credentials.value.credentials, c.credentials)
         }
    case DropTargets => false
    case File(id, op) => d.InPhase(Extract) && stage == Extract && RetentionMay(w, d, id, op)
    case CreateDatastore => d.InPhase(Scan) && stage == Scan
  }

  /** A refresh that keeps every target ID keeps every result. */
  ghost predicate SameTargets(was: Inventory, now: Inventory) {
    was.targets.Keys == now.targets.Keys && forall id <- was.targets :: now.targets[id].result == was.targets[id].result
  }

  /** A refresh reuses the result of every target it already knew and starts the others. */
  ghost predicate RefreshedTargets(was: Option<Inventory>, now: Inventory) {
    forall id <- now.targets :: now.targets[id].result ==
      if was.Some? && id in was.value.targets then was.value.targets[id].result else FRESH_RESULT
  }

  /** Inventory runs alone. It reopens an available boundary before changing targets, and enrolls or restores it
      after. */
  ghost predicate InventoristMay(d: Disk, write: Write) {
    match write
    case PutTargets(t) =>
      && t.Valid() && RefreshedTargets(d.targets, t)
      && (!d.Live() || d.InPhase(Scan) || (d.targets.Some? && SameTargets(d.targets.value, t)))
    case PutRecord(r) =>
      if r.availability.Absent? then d.record.Some? && r == d.record.value.(availability := Absent)
      else && d.targets.Some?
           && (r.phase == Scan || (d.Live() && r.phase == d.record.value.phase))
    case DropTargets => d.record.Some? && d.record.value.availability.Absent?
    case _ => false
  }

  ghost predicate Allowed(w: World, d: Disk, e: Event) {
    match e.actor
    case Inventorist => InventoristMay(d, e.write)
    case Worker(stage) => WorkerMay(w, d, stage, e.write)
  }

  // The invariant every crash leaves behind

  ghost predicate CredentialSound(w: World, files: Files, c: Credential) {
    && c.Valid()
    && c.credentialId != ""
    && NoDuplicates(c.occurrences)
    && EvidenceKept(w, files, c)
    && (c.extraction.status.Skipped? && c.extraction.reason == Some(JUDGED_INVALID) ==> c.judgment.RuledInvalid())
  }

  ghost predicate HasHome(w: World, c: Credential) { c.occurrences != [] && Plain(w.fileName(c.occurrences[0])) }

  /** The two names that a crash during retention may leave on one inode. */
  ghost predicate Twins(w: World, credentials: map<string, Credential>, a: Path, b: Path) {
    exists id <- credentials ::
      && HasHome(w, credentials[id])
      && var p := EvidencePath(w, credentials[id]);
         (a == p && b == Temporary(p)) || (b == p && a == Temporary(p))
  }

  ghost predicate Tidy(w: World, d: Disk) {
    forall a <- d.files.names, b <- d.files.names ::
      a != b && d.files.names[a] == d.files.names[b] ==> Twins(w, CredentialsOf(d), a, b)
  }

  ghost predicate Loadable(w: World, d: Disk) {
    && d.files.Valid() && Tidy(w, d)
    && (d.targets.Some? ==> d.targets.value.Valid())
    && (d.credentials.Some? ==> d.credentials.value.Valid())
    && (forall id <- CredentialsOf(d) :: CredentialSound(w, d.files, CredentialsOf(d)[id]))
  }

  ghost predicate PhaseSound(d: Disk) {
    d.Live() ==>
      && d.targets.Some?
      && (!d.InPhase(Scan) ==> d.Published())
      && (d.InPhase(Extract) || d.InPhase(Done) ==> !d.PendingJudgment())
      && (d.InPhase(Done) ==> !d.PendingExtraction())
  }

  ghost predicate Consistent(w: World, d: Disk) {
    Loadable(w, d) && PhaseSound(d)
  }

  predicate BytesStay(was: Files, now: Files, path: Option<Path>) {
    path.Some? && was.Has(path.value) && now.Has(path.value) && now.Read(path.value) == was.Read(path.value)
  }

  /** What no later write takes back. */
  ghost predicate Evolves(d: Disk, d': Disk) {
    && HistoryEvolves(CredentialsOf(d), CredentialsOf(d'))
    && (d.credentials.Some? ==> d'.credentials.Some?)
    && (forall id <- CredentialsOf(d) :: CredentialsOf(d)[id].extraction.status.Retained? ==>
          BytesStay(d.files, d'.files, CredentialsOf(d)[id].extraction.outputPath))
  }

  lemma CredentialsStepKeeps(w: World, d: Disk, stage: Stage, c: CredentialsDocument)
    requires Consistent(w, d) && WorkerMay(w, d, stage, PutCredentials(c))
    ensures forall id <- c.credentials :: CredentialSound(w, d.files, c.credentials[id])
    ensures HistoryEvolves(CredentialsOf(d), c.credentials)
    ensures stage == Extract ==>
              forall id <- c.credentials :: !c.credentials[id].judgment.status.Pending?
  {
    var was, now := CredentialsOf(d), c.credentials;
    forall id | id in now
      ensures CredentialSound(w, d.files, now[id])
      ensures id in was ==> CredentialEvolves(was[id], now[id])
    {
      assert now[id].Valid();
      if id in was {
        assert CredentialSound(w, d.files, was[id]);
        match stage {
          case Scan =>
          case Judge =>
          case Extract =>
            SkipReasonsDiffer();
            assert id in d.credentials.value.credentials && !was[id].judgment.status.Pending?;
        }
      } else {
        assert id in now.Keys - was.Keys;
      }
    }
  }

  lemma SkipReasonsDiffer()
    ensures JUDGED_INVALID != JUDGMENT_FAILED
  {
    assert |JUDGED_INVALID| != |JUDGMENT_FAILED|;
  }

  lemma CredentialsWriteKeeps(w: World, d: Disk, stage: Stage, c: CredentialsDocument)
    requires Consistent(w, d) && WorkerMay(w, d, stage, PutCredentials(c))
    ensures Consistent(w, Apply(d, PutCredentials(c))) && Evolves(d, Apply(d, PutCredentials(c)))
  {
    CredentialsStepKeeps(w, d, stage, c);
    TwinsStay(w, d, Apply(d, PutCredentials(c)));
  }

  lemma TwinsExtend(w: World, was: map<string, Credential>, now: map<string, Credential>, a: Path, b: Path)
    requires Twins(w, was, a, b) && HistoryEvolves(was, now)
    ensures Twins(w, now, a, b)
  {
    hide Home, Temporary, Plain;
    var id :| id in was && HasHome(w, was[id]) && var p := EvidencePath(w, was[id]);
      (a == p && b == Temporary(p)) || (b == p && a == Temporary(p));
    assert CredentialEvolves(was[id], now[id]);
    assert now[id].occurrences[0] == was[id].occurrences[0];
    assert EvidencePath(w, now[id]) == EvidencePath(w, was[id]);
  }

  lemma TwinsStay(w: World, d: Disk, d': Disk)
    requires Loadable(w, d) && d'.files == d.files && HistoryEvolves(CredentialsOf(d), CredentialsOf(d'))
    ensures Tidy(w, d')
  {
    hide HistoryEvolves, CredentialsOf, CredentialSound, Twins;
    forall a, b | a in d.files.names && b in d.files.names && a != b && d.files.names[a] == d.files.names[b]
      ensures Twins(w, CredentialsOf(d'), a, b)
    {
      TwinsExtend(w, CredentialsOf(d), CredentialsOf(d'), a, b);
    }
  }

  lemma RecordWriteKeeps(w: World, d: Disk, e: Event)
    requires Consistent(w, d) && Allowed(w, d, e) && e.write.PutRecord?
    ensures Consistent(w, Apply(d, e.write)) && Evolves(d, Apply(d, e.write))
  {
    assert CredentialsOf(Apply(d, e.write)) == CredentialsOf(d);
  }

  lemma TargetsWriteKeeps(w: World, d: Disk, e: Event)
    requires Consistent(w, d) && Allowed(w, d, e) && e.write.PutTargets?
    ensures Consistent(w, Apply(d, e.write)) && Evolves(d, Apply(d, e.write))
  {
    assert CredentialsOf(Apply(d, e.write)) == CredentialsOf(d);
  }

  lemma OperationKeeps(files: Files, destination: Path, op: FileOp, p: Path)
    requires files.Valid() && destination != [] && OperatesOn(files, destination, op)
    requires p in files.names && files.Sole(p) && p != destination && p != Temporary(destination)
    ensures var after := Operate(files, op);
            after.Valid() && after.Has(p) && after.Sole(p) && after.Read(p) == files.Read(p)
  {
  }

  lemma PathsApart(w: World, a: Credential, b: Credential)
    requires a.occurrences != [] && b.occurrences != [] && a.credentialId != b.credentialId
    requires a.credentialId != "" && b.credentialId != ""
    requires Plain(w.fileName(a.occurrences[0])) && Plain(w.fileName(b.occurrences[0]))
    ensures EvidencePath(w, a) != EvidencePath(w, b) && EvidencePath(w, a) != Temporary(EvidencePath(w, b))
  {
    DestinationsMeet(a.credentialId, w.fileName(a.occurrences[0]), b.credentialId, w.fileName(b.occurrences[0]));
    TemporaryIsApart(b.credentialId, w.fileName(b.occurrences[0]), a.credentialId, w.fileName(a.occurrences[0]));
  }

  /** Only the linked name itself shares an inode with the temporary name of its credential. */
  lemma TwinOfTemporary(w: World, d: Disk, id: string, x: Path)
    requires Loadable(w, d) && id in CredentialsOf(d) && HasHome(w, CredentialsOf(d)[id])
    requires var p := EvidencePath(w, CredentialsOf(d)[id]);
             Twins(w, CredentialsOf(d), Temporary(p), x) || Twins(w, CredentialsOf(d), x, Temporary(p))
    ensures x == EvidencePath(w, CredentialsOf(d)[id])
  {
    var all := CredentialsOf(d);
    var p := EvidencePath(w, all[id]);
    var t := Temporary(p);
    var other :| other in all && HasHome(w, all[other]) && var q := EvidencePath(w, all[other]);
      (t == q && x == Temporary(q)) || (x == q && t == Temporary(q));
    TemporaryDiffers(p);
    if other != id {
      assert CredentialSound(w, d.files, all[id]) && CredentialSound(w, d.files, all[other]);
      PathsApart(w, all[other], all[id]);
      if t == Temporary(EvidencePath(w, all[other])) {
        TemporaryInjective(p, EvidencePath(w, all[other]));
      }
      assert false;
    }
  }

  lemma LinkTidy(w: World, d: Disk, id: string, x: Path)
    requires Loadable(w, d) && id in CredentialsOf(d) && HasHome(w, CredentialsOf(d)[id])
    requires var p := EvidencePath(w, CredentialsOf(d)[id]);
             p !in d.files.names && Temporary(p) in d.files.names && x in d.files.names
             && d.files.names[x] == d.files.names[Temporary(p)]
    ensures x == Temporary(EvidencePath(w, CredentialsOf(d)[id]))
  {
    var t := Temporary(EvidencePath(w, CredentialsOf(d)[id]));
    if x != t {
      assert Twins(w, CredentialsOf(d), t, x);
      TwinOfTemporary(w, d, id, x);
    }
  }

  lemma OwnTwins(w: World, all: map<string, Credential>, id: string)
    requires id in all && HasHome(w, all[id])
    ensures var p := EvidencePath(w, all[id]); Twins(w, all, p, Temporary(p)) && Twins(w, all, Temporary(p), p)
  {
  }

  lemma OperationTidy(w: World, d: Disk, id: string, op: FileOp)
    requires Loadable(w, d) && RetentionMay(w, d, id, op)
    ensures Tidy(w, d.(files := Operate(d.files, op)))
  {
    hide Twins, Home, Temporary, Plain, CredentialSound;
    var all, d' := CredentialsOf(d), d.(files := Operate(d.files, op));
    var p := EvidencePath(w, all[id]);
    assert CredentialsOf(d') == all;
    OwnTwins(w, all, id);
    forall a, b | a in d'.files.names && b in d'.files.names && a != b && d'.files.names[a] == d'.files.names[b]
      ensures Twins(w, all, a, b)
    {
      if !(a in d.files.names && b in d.files.names) && op.Link? {
        LinkTidy(w, d, id, if a == p then b else a);
      }
    }
  }

  lemma FileWriteKeeps(w: World, d: Disk, e: Event)
    requires Consistent(w, d) && Allowed(w, d, e) && e.write.File?
    ensures Consistent(w, Apply(d, e.write)) && Evolves(d, Apply(d, e.write))
  {
    var all, c, after := CredentialsOf(d), CredentialsOf(d)[e.write.credentialId], Operate(d.files, e.write.op);
    assert CredentialsOf(Apply(d, e.write)) == all;
    assert after.Valid();
    OperationTidy(w, d, e.write.credentialId, e.write.op);
    forall id | id in all
      ensures CredentialSound(w, after, all[id])
      ensures all[id].extraction.status.Retained? ==> BytesStay(d.files, after, all[id].extraction.outputPath)
    {
      assert CredentialSound(w, d.files, all[id]);
      if all[id].extraction.status.Retained? {
        PathsApart(w, all[id], c);
        OperationKeeps(d.files, EvidencePath(w, c), e.write.op, EvidencePath(w, all[id]));
      }
    }
  }

  lemma OtherWriteKeeps(w: World, d: Disk, e: Event)
    requires Consistent(w, d) && Allowed(w, d, e)
    requires e.write.PutReport? || e.write.DropTargets? || e.write.CreateDatastore?
    ensures Consistent(w, Apply(d, e.write)) && Evolves(d, Apply(d, e.write))
  {
    assert CredentialsOf(Apply(d, e.write)) == CredentialsOf(d);
  }

  /** One write keeps the invariant and takes nothing back. */
  lemma StepKeeps(w: World, d: Disk, e: Event)
    requires Consistent(w, d) && Allowed(w, d, e)
    ensures Consistent(w, Apply(d, e.write)) && Evolves(d, Apply(d, e.write))
  {
    if e.write.PutRecord? {
      RecordWriteKeeps(w, d, e);
    } else if e.write.PutCredentials? {
      CredentialsWriteKeeps(w, d, e.actor.stage, e.write.credentials);
    } else if e.write.PutTargets? {
      TargetsWriteKeeps(w, d, e);
    } else if e.write.File? {
      FileWriteKeeps(w, d, e);
    } else {
      OtherWriteKeeps(w, d, e);
    }
  }
}
