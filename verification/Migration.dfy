/** The offline migration of legacy boundary documents: what it accepts, what it writes, and how it survives a crash.
    A stored document is its payload; two payloads are equal exactly when their bytes are. */
module Migration {
  import opened Documents
  import Evidence
  import Lifecycle

  // Legacy documents

  datatype LegacyTargetStatus = Pending | Running | Scanned | Failed | Partial | Unrecognized

  datatype LegacyResult = LegacyResult(
    status: LegacyTargetStatus,
    retryable: Option<bool>,
    errors: seq<string>,
    returnCode: Option<int>,
    startedAt: Option<int>,
    finishedAt: Option<int>)

  datatype LegacyTarget = LegacyTarget(scope: Scope, result: LegacyResult)

  datatype LegacyInventory = LegacyInventory(
    publicationPending: bool,
    generatedAt: int,
    boundary: string,
    targets: map<string, LegacyTarget>,
    errors: seq<string>)
  {
    predicate Unfinished() {
      publicationPending || exists id <- targets ::
          targets[id].result.status.Pending? || targets[id].result.status.Running?
    }
  }

  datatype LegacyVerdict = VALID | INVALID | UNKNOWN | PENDING | ERROR | Unrecognized

  datatype LegacyExtractionStatus = RETAINED | ERROR | Unrecognized

  datatype LegacyExtraction = LegacyExtraction(
    status: LegacyExtractionStatus,
    outputPath: Option<Path>,
    size: Option<int>,
    sha256: Option<string>,
    error: Option<string>)

  datatype LegacyCredential = LegacyCredential(
    credentialId: string,
    value: Option<string>,
    occurrences: seq<string>,
    verdict: LegacyVerdict,
    reasoning: string,
    extraction: Option<LegacyExtraction>)

  datatype LegacyCredentials = LegacyCredentials(
    boundaryId: string,
    reportGeneratedAt: string,
    credentials: map<string, LegacyCredential>,
    errors: seq<string>)

  /** A stored document in its legacy or its current schema; anything else is foreign. */
  datatype Stored =
    | OldRecord(backendId: string, boundary: string, availability: Availability)
    | NewRecord(record: BoundaryRecord)
    | OldTargets(legacyTargets: LegacyInventory)
    | NewTargets(targets: Inventory)
    | OldReport(legacyReport: Report, incomplete: bool)
    | NewReport(report: Report)
    | OldCredentials(legacyCredentials: LegacyCredentials)
    | NewCredentials(credentials: CredentialsDocument)
    | Foreign

  datatype Kind = TargetsKind | ReportKind | CredentialsKind | RecordKind

  /** A boundary by the decoded names of its backend and boundary directories. */
  datatype Key = Key(backend: string, boundary: string)

  datatype Place = Place(key: Key, kind: Kind)

  type Stock = map<Place, Stored>

  // Conversion

  const LEGACY_FAILURE := "legacy judgment failed"

  function ConvertJudgment(c: LegacyCredential): Option<Judgment> {
    match c.verdict
    case VALID => Some(Judgment(JudgmentStatus.Completed, Some(IsValid), c.reasoning, None))
    case INVALID => Some(Judgment(JudgmentStatus.Completed, Some(IsInvalid), c.reasoning, None))
    case UNKNOWN => Some(Judgment(JudgmentStatus.Completed, Some(IsUnknown), c.reasoning, None))
    case PENDING => Some(Judgment(JudgmentStatus.Pending, None, c.reasoning, None))
    case ERROR =>
        Some(Judgment(JudgmentStatus.Failed, None, "", Some(if c.reasoning != "" then c.reasoning else LEGACY_FAILURE)))
    case Unrecognized => None
  }

  function ConvertExtraction(e: Option<LegacyExtraction>): Option<Extraction> {
    if e.None? then Some(FRESH_EXTRACTION)
    else
      match e.value.status
      case RETAINED =>
        Some(Extraction(ExtractionStatus.Retained, e.value.outputPath, e.value.size, e.value.sha256, e.value.error,
                        None))
      case ERROR =>
        Some(Extraction(ExtractionStatus.Failed, e.value.outputPath, e.value.size, e.value.sha256, e.value.error, None))
      case Unrecognized => None
  }

  predicate Convertible(c: LegacyCredential) { ConvertJudgment(c).Some? && ConvertExtraction(c.extraction).Some? }

  function ConvertCredential(c: LegacyCredential): Credential
    requires Convertible(c)
  {
    Credential(c.credentialId, c.value, c.occurrences, ConvertJudgment(c).value, ConvertExtraction(c.extraction).value)
  }

  predicate AllConvertible(legacy: LegacyCredentials) {
    forall id <- legacy.credentials :: Convertible(legacy.credentials[id])
  }

  function Converted(legacy: LegacyCredentials): CredentialsDocument
    requires AllConvertible(legacy)
  {
    CredentialsDocument(legacy.boundaryId, legacy.reportGeneratedAt,
                        map id | id in legacy.credentials :: ConvertCredential(legacy.credentials[id]), legacy.errors)
  }

  function ConvertStatus(s: LegacyTargetStatus): Option<TargetStatus> {
    match s
    case Pending => Some(TargetStatus.Pending)
    case Running => Some(TargetStatus.Running)
    case Scanned => Some(TargetStatus.Scanned)
    case Failed => Some(TargetStatus.Failed)
    case Partial => Some(TargetStatus.Failed)
    case Unrecognized => None
  }

  predicate Recognized(legacy: LegacyInventory) {
    forall id <- legacy.targets :: ConvertStatus(legacy.targets[id].result.status).Some?
  }

  function ConvertTarget(t: LegacyTarget): Target
    requires ConvertStatus(t.result.status).Some?
  {
    var r := t.result;
    Target(t.scope, TargetResult(ConvertStatus(r.status).value, r.errors, r.returnCode, r.startedAt, r.finishedAt))
  }

  function ConvertInventory(legacy: LegacyInventory): Inventory
    requires Recognized(legacy)
  {
    Inventory(legacy.generatedAt, legacy.boundary, map id | id in legacy.targets ::
              ConvertTarget(legacy.targets[id]), legacy.errors)
  }

  // The phase of a migrated boundary

  predicate AnyPendingJudgment(c: CredentialsDocument) {
    exists id <- c.credentials :: c.credentials[id].judgment.status.Pending?
  }

  predicate AnyPendingExtraction(c: CredentialsDocument) {
    exists id <- c.credentials :: c.credentials[id].extraction.status.Pending?
  }

  function InitialPhase(availability: Availability, targets: Option<LegacyInventory>, report: Option<Report>,
                        credentials: Option<CredentialsDocument>): Result<Phase, string> {
    if availability.Absent? then Ok(Scan)
    else if targets.None? then Err("available boundary has no scan targets")
    else if targets.value.Unfinished() then Ok(Scan)
    else if report.None? && credentials.None? then Ok(Scan)
    else if report.None? || credentials.None? || report.value.generatedAt != credentials.value.reportGeneratedAt
    then Err("ambiguous publication; provide an explicit --phase override")
    else if AnyPendingJudgment(credentials.value) then Ok(Judge)
    else if AnyPendingExtraction(credentials.value) then Ok(Extract)
    else Ok(Done)
  }

  /** An explicit rescan needs no further evidence; any other override must not pass the initial phase. */
  function ChoosePhase(wanted: Option<Phase>, initial: Result<Phase, string>): Result<Phase, string> {
    if wanted.Some? && wanted.value.Scan? then Ok(Scan)
    else if initial.Err? || wanted.None? then initial
    else if wanted.value.Rank() > initial.value.Rank() then Err("phase override bypasses pending work")
    else Ok(wanted.value)
  }

  // Preflight of one boundary

  /** The documents of one boundary once each has its legacy schema and its credentials are converted. */
  datatype Legacy = Legacy(
    availability: Availability,
    targets: Option<LegacyInventory>,
    report: Option<Report>,
    credentials: Option<CredentialsDocument>)

  function Find(docs: Stock, key: Key, kind: Kind): Option<Stored> {
    if Place(key, kind) in docs then Some(docs[Place(key, kind)]) else None
  }

  predicate LegacySchemas(docs: Stock, key: Key) {
    var t, r, c := Find(docs, key, TargetsKind), Find(docs, key, ReportKind), Find(docs, key, CredentialsKind);
    && (t.Some? ==> t.value.OldTargets? && Recognized(t.value.legacyTargets))
    && (r.Some? ==> r.value.OldReport?)
    && (c.Some? ==> c.value.OldCredentials? && AllConvertible(c.value.legacyCredentials))
  }

  function ReadLegacy(docs: Stock, key: Key, availability: Availability): Legacy
    requires LegacySchemas(docs, key)
  {
    var t, r, c := Find(docs, key, TargetsKind), Find(docs, key, ReportKind), Find(docs, key, CredentialsKind);
    Legacy(availability,
           if t.Some? then Some(t.value.legacyTargets) else None,
           if r.Some? then Some(r.value.legacyReport) else None,
           if c.Some? then Some(Converted(c.value.legacyCredentials)) else None)
  }

  /** The converted documents belong to this boundary and satisfy the current validators. */
  predicate Acceptable(l: Legacy, boundary: string) {
    && (l.targets.Some? ==>
          && Recognized(l.targets.value) && l.targets.value.boundary == boundary
          && ConvertInventory(l.targets.value).Valid())
    && (l.report.Some? ==> l.report.value.boundaryId == boundary)
    && (l.credentials.Some? ==> l.credentials.value.boundaryId == boundary && l.credentials.value.Valid())
    && (l.availability.Available? <==> l.targets.Some?)
  }

  datatype Change = Change(place: Place, original: Stored, converted: Stored)

  /** The writes of one boundary: siblings first and the record last. */
  function Changes(docs: Stock, key: Key, l: Legacy, record: BoundaryRecord): seq<Change>
    requires Acceptable(l, key.boundary) && Place(key, RecordKind) in docs
    requires l.targets.Some? <==> Place(key, TargetsKind) in docs
    requires l.report.Some? <==> Place(key, ReportKind) in docs
    requires l.credentials.Some? <==> Place(key, CredentialsKind) in docs
  {
    var t, r, c, b := Place(key, TargetsKind), Place(key, ReportKind), Place(key, CredentialsKind),
        Place(key, RecordKind);
    (if l.targets.Some? then [Change(t, docs[t], NewTargets(ConvertInventory(l.targets.value)))] else [])
    + (if l.report.Some? then [Change(r, docs[r], NewReport(l.report.value))] else [])
    + (if l.credentials.Some? then [Change(c, docs[c], NewCredentials(l.credentials.value))] else [])
    + [Change(b, docs[b], NewRecord(record))]
  }

  /** What the preflight decides for one boundary: its writes, none when it is migrated already, or a rejection. */
  function Plan(docs: Stock, key: Key, phases: map<string, Phase>): Result<seq<Change>, string>
    requires Place(key, RecordKind) in docs
  {
    match docs[Place(key, RecordKind)]
    case NewRecord(r) =>
      if r.boundary == key.boundary && r.backendId == key.backend then Ok([]) else Err("boundary identity mismatch")
    case OldRecord(backendId, boundary, availability) =>
      if boundary != key.boundary || backendId != key.backend then Err("boundary identity mismatch")
      else if !LegacySchemas(docs, key) then Err("unexpected schema")
      else
        var l := ReadLegacy(docs, key, availability);
        var phase := ChoosePhase(if boundary in phases then Some(phases[boundary]) else None,
                                 InitialPhase(availability, l.targets, l.report, l.credentials));
        if phase.Err? then Err(phase.error)
        else if !Acceptable(l, boundary) then Err("invalid document")
        else Ok(Changes(docs, key, l, BoundaryRecord(backendId, boundary, availability, phase.value)))
    case _ => Err("expected boundary schema 1")
  }

  // What an accepted boundary becomes

  function Apply(docs: Stock, c: Change): Stock { docs[c.place := c.converted] }

  function ApplyAll(docs: Stock, changes: seq<Change>): Stock {
    if changes == [] then docs else Apply(ApplyAll(docs, changes[..|changes| - 1]), changes[|changes| - 1])
  }

  /** The boundary directory as the runtime reads it; a document that is not in the current schema is not read. */
  function DiskOf(docs: Stock, key: Key, files: Evidence.Files, datastore: bool): Lifecycle.Disk {
    var b, t, r, c := Find(docs, key, RecordKind), Find(docs, key, TargetsKind), Find(docs, key, ReportKind),
        Find(docs, key, CredentialsKind);
    Lifecycle.Disk(if b.Some? && b.value.NewRecord? then Some(b.value.record) else None,
                   if t.Some? && t.value.NewTargets? then Some(t.value.targets) else None,
                   if r.Some? && r.value.NewReport? then Some(r.value.report) else None,
                   if c.Some? && c.value.NewCredentials? then Some(c.value.credentials) else None,
                   files, datastore)
  }

  /** Exactly what the plan of a legacy boundary leaves on disk. */
  ghost predicate Becomes(docs: Stock, key: Key, after: Stock, phase: Phase) {
    && Place(key, RecordKind) in docs && docs[Place(key, RecordKind)].OldRecord?
    && LegacySchemas(docs, key)
    && var was := docs[Place(key, RecordKind)];
       var l := ReadLegacy(docs, key, was.availability);
       && Acceptable(l, key.boundary)
       && after.Keys == docs.Keys
       && Find(after, key, RecordKind) ==
          Some(NewRecord(BoundaryRecord(key.backend, key.boundary, was.availability, phase)))
       && Find(after, key, TargetsKind) ==
          (if l.targets.Some? then Some(NewTargets(ConvertInventory(l.targets.value))) else None)
       && Find(after, key, ReportKind) == (if l.report.Some? then Some(NewReport(l.report.value)) else None)
       && Find(after, key, CredentialsKind) ==
          (if l.credentials.Some? then Some(NewCredentials(l.credentials.value)) else None)
  }

  lemma {:induction false} ApplyConcat(docs: Stock, a: seq<Change>, b: seq<Change>)
    ensures ApplyAll(docs, a + b) == ApplyAll(ApplyAll(docs, a), b)
  {
    if b == [] {
      assert a + b == a;
    } else {
      assert (a + b)[..|a + b| - 1] == a + b[..|b| - 1];
      ApplyConcat(docs, a, b[..|b| - 1]);
    }
  }

  lemma ApplyMaybe(docs: Stock, some: bool, c: Change)
    ensures ApplyAll(docs, if some then [c] else []) == if some then Apply(docs, c) else docs
  {
    assert ApplyAll(docs, []) == docs;
    assert [c][..0] == [];
  }

  /** An accepted boundary becomes its converted documents, in the phase that was chosen. */
  lemma PlanBecomes(docs: Stock, key: Key, phases: map<string, Phase>)
    requires Place(key, RecordKind) in docs && docs[Place(key, RecordKind)].OldRecord? && Plan(docs, key, phases).Ok?
    ensures LegacySchemas(docs, key)
    ensures var l := ReadLegacy(docs, key, docs[Place(key, RecordKind)].availability);
            var phase := ChoosePhase(if key.boundary in phases then Some(phases[key.boundary]) else None,
                                     InitialPhase(l.availability, l.targets, l.report, l.credentials));
            phase.Ok? && Becomes(docs, key, ApplyAll(docs, Plan(docs, key, phases).value), phase.value)
  {
    hide InitialPhase, ChoosePhase, LegacySchemas, Acceptable, ConvertInventory, ApplyAll, ReadLegacy, Changes;
    ReadsWhatIsThere(docs, key, docs[Place(key, RecordKind)].availability);
    var l := ReadLegacy(docs, key, docs[Place(key, RecordKind)].availability);
    var phase := ChoosePhase(if key.boundary in phases then Some(phases[key.boundary]) else None,
                             InitialPhase(l.availability, l.targets, l.report, l.credentials));
    ChangesBecome(docs, key, l, BoundaryRecord(key.backend, key.boundary, l.availability, phase.value));
  }

  lemma ReadsWhatIsThere(docs: Stock, key: Key, availability: Availability)
    requires LegacySchemas(docs, key)
    ensures var l := ReadLegacy(docs, key, availability);
            && l.availability == availability
            && (l.targets.Some? <==> Place(key, TargetsKind) in docs)
            && (l.report.Some? <==> Place(key, ReportKind) in docs)
            && (l.credentials.Some? <==> Place(key, CredentialsKind) in docs)
            && (l.targets.Some? ==> Recognized(l.targets.value))
  {
  }

  lemma ChangesBecome(docs: Stock, key: Key, l: Legacy, record: BoundaryRecord)
    requires Acceptable(l, key.boundary) && Place(key, RecordKind) in docs
    requires l.targets.Some? <==> Place(key, TargetsKind) in docs
    requires l.report.Some? <==> Place(key, ReportKind) in docs
    requires l.credentials.Some? <==> Place(key, CredentialsKind) in docs
    ensures var after := ApplyAll(docs, Changes(docs, key, l, record));
            && after.Keys == docs.Keys
            && (forall p <- docs :: p.key != key ==> after[p] == docs[p])
            && Find(after, key, RecordKind) == Some(NewRecord(record))
            && Find(after, key, TargetsKind) ==
               (if l.targets.Some? then Some(NewTargets(ConvertInventory(l.targets.value))) else None)
            && Find(after, key, ReportKind) == (if l.report.Some? then Some(NewReport(l.report.value)) else None)
            && Find(after, key, CredentialsKind) ==
               (if l.credentials.Some? then Some(NewCredentials(l.credentials.value)) else None)
  {
    hide ConvertInventory, ApplyAll;
    var t, r, c, b := Place(key, TargetsKind), Place(key, ReportKind), Place(key, CredentialsKind),
        Place(key, RecordKind);
    var ct := Change(t, if t in docs then docs[t] else Foreign,
                     if l.targets.Some? then NewTargets(ConvertInventory(l.targets.value)) else Foreign);
    var cr := Change(r, if r in docs then docs[r] else Foreign,
                     if l.report.Some? then NewReport(l.report.value) else Foreign);
    var cc := Change(c, if c in docs then docs[c] else Foreign,
                     if l.credentials.Some? then NewCredentials(l.credentials.value) else Foreign);
    var cb := Change(b, docs[b], NewRecord(record));
    var st := if l.targets.Some? then [ct] else [];
    var sr := if l.report.Some? then [cr] else [];
    var sc := if l.credentials.Some? then [cc] else [];
    assert Changes(docs, key, l, record) == st + sr + sc + [cb];
    ApplyConcat(docs, st + sr + sc, [cb]);
    ApplyConcat(docs, st + sr, sc);
    ApplyConcat(docs, st, sr);
    var d1 := ApplyAll(docs, st);
    ApplyMaybe(docs, l.targets.Some?, ct);
    var d2 := ApplyAll(d1, sr);
    ApplyMaybe(d1, l.report.Some?, cr);
    var d3 := ApplyAll(d2, sc);
    ApplyMaybe(d2, l.credentials.Some?, cc);
    ApplyMaybe(d3, true, cb);
  }

  // The runtime invariant

  function LegacyCredentialsOf(docs: Stock, key: Key): map<string, LegacyCredential> {
    var c := Find(docs, key, CredentialsKind);
    if c.Some? && c.value.OldCredentials? then c.value.legacyCredentials.credentials else map[]
  }

  ghost predicate LegacyHome(w: Lifecycle.World, c: LegacyCredential) {
    c.occurrences != [] && Evidence.Plain(w.fileName(c.occurrences[0]))
  }

  function LegacyPath(w: Lifecycle.World, c: LegacyCredential): Path
    requires c.occurrences != []
  {
    Evidence.Home(c.credentialId) + [w.fileName(c.occurrences[0])]
  }

  /** What the runtime relies on in one credential and the tool does not check: an ID, occurrences without repetition,
      and retained evidence as recorded at the destination of the first occurrence. */
  ghost predicate LegacyKept(w: Lifecycle.World, files: Evidence.Files, c: LegacyCredential) {
    && c.credentialId != "" && NoDuplicates(c.occurrences)
    && (c.extraction.Some? && c.extraction.value.status.RETAINED? ==>
          && LegacyHome(w, c)
          && var e, p := c.extraction.value, LegacyPath(w, c);
             && e.outputPath == Some(p) && files.Has(p) && files.Sole(p)
             && e.size == Some(|files.Read(p)|) && e.sha256 == Some(w.hash(files.Read(p))))
  }

  ghost predicate LegacyTwins(w: Lifecycle.World, credentials: map<string, LegacyCredential>, a: Path, b: Path) {
    exists id <- credentials ::
      && LegacyHome(w, credentials[id])
      && var p := LegacyPath(w, credentials[id]);
         (a == p && b == Evidence.Temporary(p)) || (b == p && a == Evidence.Temporary(p))
  }

  /** The same for the whole legacy boundary, with no hard links but those that a stopped retention leaves. */
  ghost predicate LegacyFaithful(w: Lifecycle.World, docs: Stock, key: Key, files: Evidence.Files) {
    var all := LegacyCredentialsOf(docs, key);
    && files.Valid()
    && (forall a <- files.names, b <- files.names ::
          a != b && files.names[a] == files.names[b] ==> LegacyTwins(w, all, a, b))
    && forall id <- all :: LegacyKept(w, files, all[id])
  }

  /** No inventory is pending or running, so everything converts to a settled target. */
  lemma FinishedIsSettled(legacy: LegacyInventory)
    requires Recognized(legacy) && !legacy.Unfinished()
    ensures ConvertInventory(legacy).Settled()
  {
  }

  /** The chosen phase never claims more than the documents hold. */
  lemma ChosenPhase(l: Legacy, wanted: Option<Phase>, phase: Phase)
    requires ChoosePhase(wanted, InitialPhase(l.availability, l.targets, l.report, l.credentials)) == Ok(phase)
    ensures l.availability.Absent? ==> phase == Scan
    ensures phase != Scan ==>
              && l.targets.Some? && !l.targets.value.Unfinished()
              && l.report.Some? && l.credentials.Some?
              && l.report.value.generatedAt == l.credentials.value.reportGeneratedAt
    ensures phase == Extract || phase == Done ==> l.credentials.Some? && !AnyPendingJudgment(l.credentials.value)
    ensures phase == Done ==> l.credentials.Some? && !AnyPendingExtraction(l.credentials.value)
  {
    hide LegacyInventory.Unfinished, AnyPendingJudgment, AnyPendingExtraction;
  }

  /** The phase invariant of the converted documents, said of the legacy ones. */
  ghost predicate Deserves(l: Legacy, phase: Phase)
    requires l.targets.Some? ==> Recognized(l.targets.value)
  {
    l.availability.Available? ==>
      && l.targets.Some?
      && (phase != Scan ==>
            && ConvertInventory(l.targets.value).Settled() && l.report.Some? && l.credentials.Some?
            && l.report.value.generatedAt == l.credentials.value.reportGeneratedAt)
      && (phase == Extract || phase == Done ==> !AnyPendingJudgment(l.credentials.value))
      && (phase == Done ==> !AnyPendingExtraction(l.credentials.value))
  }

  lemma DeservedIsSound(docs: Stock, key: Key, after: Stock, phase: Phase, files: Evidence.Files, datastore: bool)
    requires Becomes(docs, key, after, phase)
    ensures var l := ReadLegacy(docs, key, docs[Place(key, RecordKind)].availability);
            && (l.targets.Some? ==> Recognized(l.targets.value))
            && (Lifecycle.PhaseSound(DiskOf(after, key, files, datastore)) <==> Deserves(l, phase))
  {
    hide Converted, ConvertInventory, Recognized, LegacySchemas, ReadLegacy, Inventory.Settled;
    ReadsWhatIsThere(docs, key, docs[Place(key, RecordKind)].availability);
  }

  lemma PhaseIsSound(docs: Stock, key: Key, after: Stock, phase: Phase, wanted: Option<Phase>, files: Evidence.Files,
                     datastore: bool)
    requires Becomes(docs, key, after, phase)
    requires var l := ReadLegacy(docs, key, docs[Place(key, RecordKind)].availability);
             ChoosePhase(wanted, InitialPhase(l.availability, l.targets, l.report, l.credentials)) == Ok(phase)
    ensures Lifecycle.PhaseSound(DiskOf(after, key, files, datastore))
  {
    hide Converted, ConvertInventory, Recognized, LegacySchemas, ChoosePhase, InitialPhase, LegacyInventory.Unfinished,
         ReadLegacy, Lifecycle.PhaseSound, DiskOf;
    var l := ReadLegacy(docs, key, docs[Place(key, RecordKind)].availability);
    ReadsWhatIsThere(docs, key, docs[Place(key, RecordKind)].availability);
    ChosenPhase(l, wanted, phase);
    if phase != Scan {
      FinishedIsSettled(l.targets.value);
    }
    DeservedIsSound(docs, key, after, phase, files, datastore);
  }

  /** Every accepted legacy boundary, under any accepted override, ends in a phase that its documents deserve and in
      documents that pass their validators. */
  lemma MigrationIsSound(docs: Stock, key: Key, phases: map<string, Phase>, files: Evidence.Files, datastore: bool)
    requires Place(key, RecordKind) in docs && docs[Place(key, RecordKind)].OldRecord? && Plan(docs, key, phases).Ok?
    ensures var d := DiskOf(ApplyAll(docs, Plan(docs, key, phases).value), key, files, datastore);
            && Lifecycle.PhaseSound(d)
            && (d.targets.Some? ==> d.targets.value.Valid())
            && (d.credentials.Some? ==> d.credentials.value.Valid())
  {
    hide Plan, ApplyAll, InitialPhase, ChoosePhase, Lifecycle.PhaseSound, ReadLegacy, Becomes, DiskOf;
    PlanBecomes(docs, key, phases);
    var l := ReadLegacy(docs, key, docs[Place(key, RecordKind)].availability);
    var wanted := if key.boundary in phases then Some(phases[key.boundary]) else None;
    var phase := ChoosePhase(wanted, InitialPhase(l.availability, l.targets, l.report, l.credentials)).value;
    ReadsWhatIsThere(docs, key, docs[Place(key, RecordKind)].availability);
    var after := ApplyAll(docs, Plan(docs, key, phases).value);
    PhaseIsSound(docs, key, after, phase, wanted, files, datastore);
    DocumentsAreValid(docs, key, after, phase, files, datastore);
  }

  lemma DocumentsAreValid(docs: Stock, key: Key, after: Stock, phase: Phase, files: Evidence.Files, datastore: bool)
    requires Becomes(docs, key, after, phase)
    ensures var d := DiskOf(after, key, files, datastore);
            && (d.targets.Some? ==> d.targets.value.Valid())
            && (d.credentials.Some? ==> d.credentials.value.Valid())
            && d.files == files
            && Lifecycle.CredentialsOf(d).Keys == LegacyCredentialsOf(docs, key).Keys
            && forall id <- LegacyCredentialsOf(docs, key) ::
                 && Convertible(LegacyCredentialsOf(docs, key)[id])
                 && Lifecycle.CredentialsOf(d)[id] == ConvertCredential(LegacyCredentialsOf(docs, key)[id])
  {
    hide Recognized, ConvertInventory, Inventory.Valid, Credential.Valid;
    var c := Find(docs, key, CredentialsKind);
    if c.Some? {
      ConvertedKeys(c.value.legacyCredentials);
    }
  }

  lemma KeptMatches(w: Lifecycle.World, files: Evidence.Files, c: LegacyCredential)
    requires Convertible(c) && ConvertCredential(c).Valid()
    ensures Lifecycle.CredentialSound(w, files, ConvertCredential(c)) <==> LegacyKept(w, files, c)
  {
    hide Evidence.Home, Evidence.Plain;
  }

  lemma TwinsMatch(w: Lifecycle.World, legacy: map<string, LegacyCredential>, now: map<string, Credential>, a: Path,
                   b: Path)
    requires now.Keys == legacy.Keys
    requires forall id <- legacy :: Convertible(legacy[id]) && now[id] == ConvertCredential(legacy[id])
    ensures Lifecycle.Twins(w, now, a, b) <==> LegacyTwins(w, legacy, a, b)
  {
    hide Evidence.Home, Evidence.Plain, Evidence.Temporary, Convertible;
    if LegacyTwins(w, legacy, a, b) {
      var id :| id in legacy && LegacyHome(w, legacy[id]) && var p := LegacyPath(w, legacy[id]);
        (a == p && b == Evidence.Temporary(p)) || (b == p && a == Evidence.Temporary(p));
      assert Lifecycle.HasHome(w, now[id]);
    }
    if Lifecycle.Twins(w, now, a, b) {
      var id :| id in now && Lifecycle.HasHome(w, now[id]) && var p := Lifecycle.EvidencePath(w, now[id]);
        (a == p && b == Evidence.Temporary(p)) || (b == p && a == Evidence.Temporary(p));
      assert LegacyHome(w, legacy[id]);
    }
  }

  /** The whole runtime invariant holds after the migration of an accepted boundary exactly when the legacy history
      was faithful. */
  lemma MigrationEstablishes(w: Lifecycle.World, docs: Stock, key: Key, phases: map<string, Phase>,
                             files: Evidence.Files, datastore: bool)
    requires Place(key, RecordKind) in docs && docs[Place(key, RecordKind)].OldRecord? && Plan(docs, key, phases).Ok?
    ensures Lifecycle.Consistent(w, DiskOf(ApplyAll(docs, Plan(docs, key, phases).value), key, files, datastore)) <==>
            LegacyFaithful(w, docs, key, files)
  {
    hide Plan, ApplyAll, InitialPhase, ChoosePhase, Lifecycle.PhaseSound, ReadLegacy, Becomes, DiskOf,
         Lifecycle.Loadable, LegacyFaithful;
    MigrationIsSound(docs, key, phases, files, datastore);
    PlanBecomes(docs, key, phases);
    var after := ApplyAll(docs, Plan(docs, key, phases).value);
    var d := DiskOf(after, key, files, datastore);
    var phase: Phase :| Becomes(docs, key, after, phase);
    DocumentsAreValid(docs, key, after, phase, files, datastore);
    LoadableMatches(w, docs, key, d);
  }

  lemma LoadableMatches(w: Lifecycle.World, docs: Stock, key: Key, d: Lifecycle.Disk)
    requires (d.targets.Some? ==> d.targets.value.Valid()) && (d.credentials.Some? ==> d.credentials.value.Valid())
    requires Lifecycle.CredentialsOf(d).Keys == LegacyCredentialsOf(docs, key).Keys
    requires forall id <- LegacyCredentialsOf(docs, key) ::
               && Convertible(LegacyCredentialsOf(docs, key)[id])
               && Lifecycle.CredentialsOf(d)[id] == ConvertCredential(LegacyCredentialsOf(docs, key)[id])
    ensures Lifecycle.Loadable(w, d) <==> LegacyFaithful(w, docs, key, d.files)
  {
    hide Lifecycle.Twins, LegacyTwins, Lifecycle.CredentialSound, LegacyKept, LegacyCredentialsOf, Convertible,
         ConvertCredential, Inventory.Valid, Credential.Valid;
    var was, now := LegacyCredentialsOf(docs, key), Lifecycle.CredentialsOf(d);
    forall id | id in was
      ensures Lifecycle.CredentialSound(w, d.files, now[id]) <==> LegacyKept(w, d.files, was[id])
    {
      assert d.credentials.Some? && now[id].Valid();
      KeptMatches(w, d.files, was[id]);
    }
    forall a, b
      ensures Lifecycle.Twins(w, now, a, b) <==> LegacyTwins(w, was, a, b)
    {
      TwinsMatch(w, was, now, a, b);
    }
  }

  lemma ConvertedKeys(legacy: LegacyCredentials)
    requires AllConvertible(legacy)
    ensures Converted(legacy).credentials.Keys == legacy.credentials.Keys
  {
  }

  /** No credential ID, occurrence, value, ruling, evidence record, finding, target or document error is lost. */
  ghost predicate KeepsHistory(docs: Stock, key: Key, d: Lifecycle.Disk) {
    var t, r, c := Find(docs, key, TargetsKind), Find(docs, key, ReportKind), Find(docs, key, CredentialsKind);
    && (t.Some? ==> t.value.OldTargets? && d.targets.Some? && KeepsTargets(t.value.legacyTargets, d.targets.value))
    && (r.Some? ==> r.value.OldReport? && d.report == Some(r.value.legacyReport))
    && (c.Some? ==>
          && c.value.OldCredentials? && d.credentials.Some?
          && KeepsCredentials(c.value.legacyCredentials, d.credentials.value))
    && (t.None? ==> d.targets.None?) && (r.None? ==> d.report.None?) && (c.None? ==> d.credentials.None?)
  }

  ghost predicate KeepsTargets(was: LegacyInventory, now: Inventory) {
    && now == Inventory(was.generatedAt, was.boundary, now.targets, was.errors)
    && was.targets.Keys == now.targets.Keys
    && forall id <- was.targets ::
         var o, n := was.targets[id], now.targets[id];
         && n.scope == o.scope && n.result.errors == o.result.errors && n.result.returnCode == o.result.returnCode
         && n.result.startedAt == o.result.startedAt && n.result.finishedAt == o.result.finishedAt
         && (n.result.status.Pending? <==> o.result.status.Pending?)
         && (n.result.status.Running? <==> o.result.status.Running?)
         && (n.result.status.Scanned? <==> o.result.status.Scanned?)
         && (n.result.status.Failed? <==> o.result.status.Failed? || o.result.status.Partial?)
  }

  function LegacyRuling(v: LegacyVerdict): Option<Verdict> {
    match v
    case VALID => Some(IsValid)
    case INVALID => Some(IsInvalid)
    case UNKNOWN => Some(IsUnknown)
    case _ => None
  }

  ghost predicate KeepsCredentials(was: LegacyCredentials, now: CredentialsDocument) {
    && now == CredentialsDocument(was.boundaryId, was.reportGeneratedAt, now.credentials, was.errors)
    && was.credentials.Keys == now.credentials.Keys
    && forall id <- was.credentials :: KeepsCredential(was.credentials[id], now.credentials[id])
  }

  ghost predicate KeepsCredential(o: LegacyCredential, n: Credential) {
    && o.credentialId == n.credentialId && o.value == n.value && o.occurrences == n.occurrences
    && n.judgment.verdict == LegacyRuling(o.verdict)
    && (n.judgment.status.Completed? <==> LegacyRuling(o.verdict).Some?)
    && (o.verdict.ERROR? <==> n.judgment.status.Failed?) && (o.verdict.PENDING? <==> n.judgment.status.Pending?)
    && (if o.verdict.ERROR?
        then n.judgment.reasoning == ""
             && n.judgment.error == Some(if o.reasoning == "" then LEGACY_FAILURE else o.reasoning)
        else n.judgment.reasoning == o.reasoning && n.judgment.error == None)
    && match o.extraction
       case None => n.extraction == Extraction(ExtractionStatus.Pending, None, None, None, None, None)
       case Some(e) =>
         && (e.status.RETAINED? <==> n.extraction.status.Retained?)
         && (e.status.ERROR? <==> n.extraction.status.Failed?)
         && n.extraction == Extraction(n.extraction.status, e.outputPath, e.size, e.sha256, e.error, None)
  }

  lemma ConversionKeeps(legacy: LegacyCredentials)
    requires AllConvertible(legacy)
    ensures KeepsCredentials(legacy, Converted(legacy))
  {
    forall id | id in legacy.credentials
      ensures Convertible(legacy.credentials[id])
    {
    }
  }

  lemma InventoryKeeps(legacy: LegacyInventory)
    requires Recognized(legacy)
    ensures KeepsTargets(legacy, ConvertInventory(legacy))
  {
  }

  lemma MigrationKeepsHistory(docs: Stock, key: Key, phases: map<string, Phase>, files: Evidence.Files, datastore: bool)
    requires Place(key, RecordKind) in docs && docs[Place(key, RecordKind)].OldRecord? && Plan(docs, key, phases).Ok?
    ensures KeepsHistory(docs, key, DiskOf(ApplyAll(docs, Plan(docs, key, phases).value), key, files, datastore))
  {
    hide Plan, ApplyAll, InitialPhase, ChoosePhase, KeepsTargets, KeepsCredentials, ConvertInventory, Converted,
         Recognized, AllConvertible;
    PlanBecomes(docs, key, phases);
    var t, c := Find(docs, key, TargetsKind), Find(docs, key, CredentialsKind);
    if t.Some? {
      InventoryKeeps(t.value.legacyTargets);
    }
    if c.Some? {
      ConversionKeeps(c.value.legacyCredentials);
    }
  }

  /** For an available boundary without a pending legacy publication, an override is accepted exactly when the phase
      it names is sound for the converted documents. */
  lemma OverrideIsAcceptedWhenSound(docs: Stock, key: Key, after: Stock, phase: Phase, files: Evidence.Files,
                                    datastore: bool)
    requires Becomes(docs, key, after, phase)
    requires docs[Place(key, RecordKind)].availability.Available?
    requires Find(docs, key, TargetsKind).Some? && !Find(docs, key, TargetsKind).value.legacyTargets.publicationPending
    ensures var l := ReadLegacy(docs, key, Available);
            ChoosePhase(Some(phase), InitialPhase(Available, l.targets, l.report, l.credentials)) == Ok(phase) <==>
            Lifecycle.PhaseSound(DiskOf(after, key, files, datastore))
  {
    hide Converted, Recognized, LegacySchemas, ConvertInventory, LegacyInventory.Unfinished, AnyPendingJudgment,
         AnyPendingExtraction, Inventory.Settled, Lifecycle.PhaseSound, DiskOf;
    DeservedIsSound(docs, key, after, phase, files, datastore);
    var l := ReadLegacy(docs, key, docs[Place(key, RecordKind)].availability);
    UnsettledIsUnfinished(l.targets.value);
  }

  lemma UnsettledIsUnfinished(legacy: LegacyInventory)
    requires Recognized(legacy)
    ensures legacy.Unfinished() <==> legacy.publicationPending || !ConvertInventory(legacy).Settled()
  {
    var now := ConvertInventory(legacy);
    assert forall id <- legacy.targets ::
        now.targets[id].result.status.Settled() <==>
            !(legacy.targets[id].result.status.Pending? || legacy.targets[id].result.status.Running?);
  }

  // What is accepted, said of the legacy documents

  /** The legacy targets: recognised, of this boundary, under their own IDs, and with one version of each scope. */
  ghost predicate GoodTargets(legacy: LegacyInventory, boundary: string) {
    && legacy.boundary == boundary
    && (forall id <- legacy.targets ::
          && !legacy.targets[id].result.status.Unrecognized?
          && id == legacy.targets[id].scope.id + "@" + legacy.targets[id].scope.version)
    && forall a <- legacy.targets, b <- legacy.targets :: a != b ==>
         || legacy.targets[a].scope.kind != legacy.targets[b].scope.kind
         || legacy.targets[a].scope.id != legacy.targets[b].scope.id
  }

  /** A legacy credential: recognised, under its own ID, with named occurrences, and with evidence that is described
      in full or not at all. */
  ghost predicate GoodCredential(id: string, c: LegacyCredential) {
    && c.credentialId == id && c.occurrences != [] && "" !in c.occurrences && !c.verdict.Unrecognized?
    && match c.extraction
       case None => true
       case Some(e) =>
         match e.status
         case RETAINED =>
           && e.outputPath.Some? && e.outputPath.value != [] && e.size.Some? && 0 <= e.size.value
           && e.sha256.Some? && e.sha256.value != ""
         case ERROR =>
           e.outputPath.None? && e.size.None? && e.sha256.None? && e.error.Some? && e.error.value != ""
         case Unrecognized => false
  }

  ghost predicate GoodCredentials(legacy: LegacyCredentials, boundary: string) {
    && legacy.boundaryId == boundary
    && forall id <- legacy.credentials :: GoodCredential(id, legacy.credentials[id])
  }

  /** Every document of the boundary is a legacy one that can be converted, and targets belong to an available
      boundary. */
  ghost predicate GoodDocuments(docs: Stock, key: Key, availability: Availability) {
    var t, r, c := Find(docs, key, TargetsKind), Find(docs, key, ReportKind), Find(docs, key, CredentialsKind);
    && (t.Some? ==> t.value.OldTargets? && GoodTargets(t.value.legacyTargets, key.boundary))
    && (r.Some? ==> r.value.OldReport? && r.value.legacyReport.boundaryId == key.boundary)
    && (c.Some? ==> c.value.OldCredentials? && GoodCredentials(c.value.legacyCredentials, key.boundary))
    && (availability.Available? <==> t.Some?)
  }

  ghost predicate UnfinishedWork(t: LegacyInventory) {
    t.publicationPending || exists id <- t.targets ::
        t.targets[id].result.status == LegacyTargetStatus.Pending
        || t.targets[id].result.status == LegacyTargetStatus.Running
  }

  /** Scan work is complete and published with one stamp. */
  ghost predicate OldPublished(docs: Stock, key: Key) {
    var t, r, c := Find(docs, key, TargetsKind), Find(docs, key, ReportKind), Find(docs, key, CredentialsKind);
    && t.Some? && t.value.OldTargets? && !UnfinishedWork(t.value.legacyTargets)
    && r.Some? && r.value.OldReport? && c.Some? && c.value.OldCredentials?
    && r.value.legacyReport.generatedAt == c.value.legacyCredentials.reportGeneratedAt
  }

  /** Scan work is complete, and something but not one whole publication is there. */
  ghost predicate Ambiguous(docs: Stock, key: Key) {
    var t, r, c := Find(docs, key, TargetsKind), Find(docs, key, ReportKind), Find(docs, key, CredentialsKind);
    && t.Some? && t.value.OldTargets? && !UnfinishedWork(t.value.legacyTargets)
    && (r.Some? || c.Some?) && !OldPublished(docs, key)
  }

  ghost predicate AwaitsRuling(all: map<string, LegacyCredential>) { exists id <- all :: all[id].verdict.PENDING? }

  ghost predicate AwaitsEvidence(all: map<string, LegacyCredential>) { exists id <- all :: all[id].extraction.None? }

  /** An override other than a rescan needs its earlier stages finished. */
  ghost predicate Reached(docs: Stock, key: Key, phase: Phase) {
    && OldPublished(docs, key)
    && var all := LegacyCredentialsOf(docs, key);
       && (phase == Extract || phase == Done ==> !AwaitsRuling(all))
       && (phase == Done ==> !AwaitsEvidence(all))
  }

  /** What the tool accepts of one boundary. */
  ghost predicate Migratable(docs: Stock, key: Key, phases: map<string, Phase>)
    requires Place(key, RecordKind) in docs
  {
    match docs[Place(key, RecordKind)]
    case NewRecord(r) => r.boundary == key.boundary && r.backendId == key.backend
    case OldRecord(backendId, boundary, availability) =>
      && boundary == key.boundary && backendId == key.backend
      && GoodDocuments(docs, key, availability)
      && if key.boundary in phases
         then phases[key.boundary] == Scan || Reached(docs, key, phases[key.boundary])
         else !Ambiguous(docs, key)
    case _ => false
  }

  lemma GoodTargetsMatch(legacy: LegacyInventory, boundary: string)
    ensures GoodTargets(legacy, boundary) <==>
            Recognized(legacy) && legacy.boundary == boundary && ConvertInventory(legacy).Valid()
    ensures UnfinishedWork(legacy) <==> legacy.Unfinished()
  {
    if Recognized(legacy) {
      var now := ConvertInventory(legacy);
      assert now.targets.Keys == legacy.targets.Keys;
      assert forall id <- legacy.targets :: now.targets[id].scope == legacy.targets[id].scope;
    }
  }

  lemma GoodCredentialMatches(id: string, c: LegacyCredential)
    ensures GoodCredential(id, c) <==>
            Convertible(c) && ConvertCredential(c).credentialId == id && ConvertCredential(c).Valid()
    ensures Convertible(c) ==>
              && (ConvertCredential(c).judgment.status.Pending? <==> c.verdict.PENDING?)
              && (ConvertCredential(c).extraction.status.Pending? <==> c.extraction.None?)
  {
  }

  lemma GoodCredentialsMatch(legacy: LegacyCredentials, boundary: string)
    ensures GoodCredentials(legacy, boundary) <==>
            AllConvertible(legacy) && legacy.boundaryId == boundary && Converted(legacy).Valid()
    ensures AllConvertible(legacy) ==>
              && Converted(legacy).boundaryId == legacy.boundaryId
              && Converted(legacy).reportGeneratedAt == legacy.reportGeneratedAt
              && (AnyPendingJudgment(Converted(legacy)) <==> AwaitsRuling(legacy.credentials))
              && (AnyPendingExtraction(Converted(legacy)) <==> AwaitsEvidence(legacy.credentials))
  {
    hide GoodCredential, ConvertCredential, Convertible, Credential.Valid;
    forall id | id in legacy.credentials
      ensures GoodCredential(id, legacy.credentials[id]) <==>
              && Convertible(legacy.credentials[id])
              && ConvertCredential(legacy.credentials[id]).credentialId == id
              && ConvertCredential(legacy.credentials[id]).Valid()
      ensures Convertible(legacy.credentials[id]) ==>
                var now := ConvertCredential(legacy.credentials[id]);
                && (now.judgment.status.Pending? <==> legacy.credentials[id].verdict.PENDING?)
                && (now.extraction.status.Pending? <==> legacy.credentials[id].extraction.None?)
    {
      GoodCredentialMatches(id, legacy.credentials[id]);
    }
    if AllConvertible(legacy) {
      var now := Converted(legacy).credentials;
      assert now.Keys == legacy.credentials.Keys;
      assert forall id <- legacy.credentials :: now[id] == ConvertCredential(legacy.credentials[id]);
    }
  }

  lemma GoodDocumentsMatch(docs: Stock, key: Key, availability: Availability)
    ensures GoodDocuments(docs, key, availability) <==>
            LegacySchemas(docs, key) && Acceptable(ReadLegacy(docs, key, availability), key.boundary)
  {
    hide GoodTargets, GoodCredentials, Recognized, ConvertInventory, AllConvertible, Converted, Inventory.Valid,
         CredentialsDocument.Valid;
    var t, c := Find(docs, key, TargetsKind), Find(docs, key, CredentialsKind);
    if t.Some? && t.value.OldTargets? {
      GoodTargetsMatch(t.value.legacyTargets, key.boundary);
    }
    if c.Some? && c.value.OldCredentials? {
      GoodCredentialsMatch(c.value.legacyCredentials, key.boundary);
    }
  }

  /** How the legacy documents read decides what they claim. */
  lemma ReadingMatches(docs: Stock, key: Key, availability: Availability)
    requires LegacySchemas(docs, key)
    ensures var l, all := ReadLegacy(docs, key, availability), LegacyCredentialsOf(docs, key);
            && (OldPublished(docs, key) <==>
                && l.targets.Some? && !l.targets.value.Unfinished() && l.report.Some? && l.credentials.Some?
                && l.report.value.generatedAt == l.credentials.value.reportGeneratedAt)
            && (Ambiguous(docs, key) <==>
                && l.targets.Some? && !l.targets.value.Unfinished() && (l.report.Some? || l.credentials.Some?)
                && !OldPublished(docs, key))
            && (l.credentials.Some? ==>
                  && (AnyPendingJudgment(l.credentials.value) <==> AwaitsRuling(all))
                  && (AnyPendingExtraction(l.credentials.value) <==> AwaitsEvidence(all)))
  {
    hide Recognized, ConvertInventory, AllConvertible, Converted, Inventory.Valid, CredentialsDocument.Valid,
         LegacyInventory.Unfinished, UnfinishedWork, AnyPendingJudgment, AnyPendingExtraction, AwaitsRuling,
             AwaitsEvidence;
    var t, c := Find(docs, key, TargetsKind), Find(docs, key, CredentialsKind);
    if t.Some? {
      GoodTargetsMatch(t.value.legacyTargets, key.boundary);
    }
    if c.Some? {
      GoodCredentialsMatch(c.value.legacyCredentials, key.boundary);
    }
  }

  /** The phase is decided exactly when the override, or without one the publication, allows it. */
  lemma PhaseIsDecided(docs: Stock, key: Key, availability: Availability, wanted: Option<Phase>)
    requires LegacySchemas(docs, key) && Acceptable(ReadLegacy(docs, key, availability), key.boundary)
    ensures var l := ReadLegacy(docs, key, availability);
            ChoosePhase(wanted, InitialPhase(availability, l.targets, l.report, l.credentials)).Ok? <==>
            if wanted.Some? then wanted.value == Scan || Reached(docs, key, wanted.value) else !Ambiguous(docs, key)
  {
    hide LegacySchemas, ReadLegacy, Recognized, ConvertInventory, Inventory.Valid, CredentialsDocument.Valid,
         LegacyInventory.Unfinished, AnyPendingJudgment, AnyPendingExtraction, OldPublished, Ambiguous, AwaitsRuling,
             AwaitsEvidence;
    ReadingMatches(docs, key, availability);
    ReadsWhatIsThere(docs, key, availability);
    AvailableHasTargets(ReadLegacy(docs, key, availability), key.boundary);
  }

  lemma AvailableHasTargets(l: Legacy, boundary: string)
    requires Acceptable(l, boundary)
    ensures l.availability.Available? <==> l.targets.Some?
  {
  }

  /** Exactly what can be converted without guessing is accepted. */
  lemma PlanIsAccepted(docs: Stock, key: Key, phases: map<string, Phase>)
    requires Place(key, RecordKind) in docs
    ensures Plan(docs, key, phases).Ok? <==> Migratable(docs, key, phases)
  {
    hide LegacySchemas, ReadLegacy, Acceptable, InitialPhase, ChoosePhase, GoodDocuments, Reached, Ambiguous, Changes;
    var stored := docs[Place(key, RecordKind)];
    if stored.OldRecord? {
      GoodDocumentsMatch(docs, key, stored.availability);
      if GoodDocuments(docs, key, stored.availability) {
        PhaseIsDecided(docs, key, stored.availability,
                       if key.boundary in phases then Some(phases[key.boundary]) else None);
      }
    }
  }

  // The recorded phase

  /** No later phase would be sound for the same documents. */
  ghost predicate Highest(d: Lifecycle.Disk) {
    && d.record.Some? && Lifecycle.PhaseSound(d)
    && forall q: Phase :: q.Rank() > d.record.value.phase.Rank() ==>
         !Lifecycle.PhaseSound(d.(record := Some(d.record.value.(phase := q))))
  }

  /** The record of a migrated boundary: an override names its phase; an absent boundary and one with a pending legacy
      publication are scanned again; every other boundary is as far as its documents allow. */
  ghost predicate PhaseIsDue(docs: Stock, key: Key, phases: map<string, Phase>, d: Lifecycle.Disk) {
    && Place(key, RecordKind) in docs && docs[Place(key, RecordKind)].OldRecord? && d.record.Some?
    && d.record.value == BoundaryRecord(key.backend, key.boundary, docs[Place(key, RecordKind)].availability,
                                        d.record.value.phase)
    && var t, p := Find(docs, key, TargetsKind), d.record.value.phase;
       if key.boundary in phases then p == phases[key.boundary]
       else if t.None? || (t.value.OldTargets? && t.value.legacyTargets.publicationPending) then p == Scan
       else Highest(d)
  }

  lemma InitialIsHighest(l: Legacy, phase: Phase)
    requires l.availability.Available? && l.targets.Some? && Recognized(l.targets.value)
    requires !l.targets.value.publicationPending
    requires InitialPhase(l.availability, l.targets, l.report, l.credentials) == Ok(phase)
    ensures forall q: Phase :: q.Rank() > phase.Rank() ==> !Deserves(l, q)
  {
    hide ConvertInventory, Recognized, LegacyInventory.Unfinished, Inventory.Settled, AnyPendingJudgment,
         AnyPendingExtraction;
    UnsettledIsUnfinished(l.targets.value);
  }

  lemma PhaseOfMigrated(docs: Stock, key: Key, phases: map<string, Phase>, files: Evidence.Files, datastore: bool)
    requires Place(key, RecordKind) in docs && docs[Place(key, RecordKind)].OldRecord? && Plan(docs, key, phases).Ok?
    ensures PhaseIsDue(docs, key, phases, DiskOf(ApplyAll(docs, Plan(docs, key, phases).value), key, files, datastore))
  {
    hide Plan, ApplyAll, InitialPhase, Lifecycle.PhaseSound, ReadLegacy, LegacySchemas, Becomes, DiskOf, Highest;
    PlanBecomes(docs, key, phases);
    MigrationIsSound(docs, key, phases, files, datastore);
    var availability := docs[Place(key, RecordKind)].availability;
    var l := ReadLegacy(docs, key, availability);
    ReadsWhatIsThere(docs, key, availability);
    var wanted := if key.boundary in phases then Some(phases[key.boundary]) else None;
    var phase := ChoosePhase(wanted, InitialPhase(availability, l.targets, l.report, l.credentials)).value;
    var after := ApplyAll(docs, Plan(docs, key, phases).value);
    RecordOf(docs, key, after, phase, files, datastore);
    RescanIsInitial(docs, key, availability);
    if wanted.None? && l.targets.Some? && !l.targets.value.publicationPending {
      MigratedIsHighest(docs, key, after, phase, files, datastore);
    }
  }

  lemma RecordOf(docs: Stock, key: Key, after: Stock, phase: Phase, files: Evidence.Files, datastore: bool)
    requires Becomes(docs, key, after, phase)
    ensures DiskOf(after, key, files, datastore).record ==
            Some(BoundaryRecord(key.backend, key.boundary, docs[Place(key, RecordKind)].availability, phase))
    ensures docs[Place(key, RecordKind)].availability.Available? <==> Find(docs, key, TargetsKind).Some?
    ensures LegacySchemas(docs, key)
  {
    hide Recognized, ConvertInventory, AllConvertible, Converted, Inventory.Valid, CredentialsDocument.Valid;
  }

  lemma RescanIsInitial(docs: Stock, key: Key, availability: Availability)
    requires LegacySchemas(docs, key)
    ensures var l, t := ReadLegacy(docs, key, availability), Find(docs, key, TargetsKind);
            && (t.Some? ==> t.value.OldTargets? && l.targets == Some(t.value.legacyTargets))
            && (t.None? ==> l.targets.None?)
            && (availability.Absent? || (l.targets.Some? && l.targets.value.publicationPending) ==>
                  InitialPhase(availability, l.targets, l.report, l.credentials) == Ok(Scan))
  {
    hide Recognized, AllConvertible, Converted;
  }

  lemma MigratedIsHighest(docs: Stock, key: Key, after: Stock, phase: Phase, files: Evidence.Files, datastore: bool)
    requires Becomes(docs, key, after, phase) && docs[Place(key, RecordKind)].availability.Available?
    requires LegacySchemas(docs, key)
    requires var l := ReadLegacy(docs, key, Available);
             && l.targets.Some? && !l.targets.value.publicationPending
             && InitialPhase(Available, l.targets, l.report, l.credentials) == Ok(phase)
    requires Lifecycle.PhaseSound(DiskOf(after, key, files, datastore))
    ensures Highest(DiskOf(after, key, files, datastore))
  {
    hide Recognized, ConvertInventory, AllConvertible, Converted, InitialPhase, Lifecycle.PhaseSound, ReadLegacy,
         LegacySchemas, Becomes, DiskOf, Deserves;
    RecordOf(docs, key, after, phase, files, datastore);
    ReadsWhatIsThere(docs, key, Available);
    var l, d := ReadLegacy(docs, key, Available), DiskOf(after, key, files, datastore);
    forall q: Phase | q.Rank() > phase.Rank()
      ensures !Lifecycle.PhaseSound(d.(record := Some(d.record.value.(phase := q))))
    {
      OtherPhase(docs, key, after, phase, q, files, datastore);
      DeservedIsSound(docs, key, InPhase(after, key, q), q, files, datastore);
      InitialIsHighest(l, phase);
    }
  }

  function InPhase(docs: Stock, key: Key, q: Phase): Stock {
    match Find(docs, key, RecordKind)
    case Some(NewRecord(r)) => docs[Place(key, RecordKind) := NewRecord(r.(phase := q))]
    case _ => docs
  }

  lemma OtherPhase(docs: Stock, key: Key, after: Stock, phase: Phase, q: Phase, files: Evidence.Files, datastore: bool)
    requires Becomes(docs, key, after, phase)
    ensures var d := DiskOf(after, key, files, datastore);
            && d.record.Some? && Becomes(docs, key, InPhase(after, key, q), q)
            && DiskOf(InPhase(after, key, q), key, files, datastore) ==
               d.(record := Some(d.record.value.(phase := q)))
  {
    hide Recognized, ConvertInventory, AllConvertible, Converted, Inventory.Valid, CredentialsDocument.Valid;
  }
}
