/** The migration of a whole workspace: preflight of every boundary, backups, and records last. */
module MigrationRun {
  import opened Documents
  import opened Migration
  import Evidence
  import Lifecycle

  datatype Batch = Batch(changes: seq<Change>, count: nat)

  /** Every boundary is planned before anything is written; one rejection rejects them all. */
  function Preflight(docs: Stock, order: seq<Key>, phases: map<string, Phase>): Result<Batch, string>
    requires forall k <- order :: Place(k, RecordKind) in docs
  {
    if order == [] then Ok(Batch([], 0))
    else
      var front, last := Preflight(docs, order[..|order| - 1], phases), Plan(docs, order[|order| - 1], phases);
      if front.Err? then front
      else if last.Err? then Err(last.error)
      else Ok(Batch(front.value.changes + last.value, front.value.count + if last.value == [] then 0 else 1))
  }

  // The shape of one plan

  ghost predicate DistinctPlaces(changes: seq<Change>) {
    forall i, j :: 0 <= i < j < |changes| ==> changes[i].place != changes[j].place
  }

  predicate Current(s: Stored) { s.NewRecord? || s.NewTargets? || s.NewReport? || s.NewCredentials? }

  /** Each write converts an existing legacy document of this boundary, once, and the record comes last. */
  ghost predicate Planned(docs: Stock, key: Key, changes: seq<Change>) {
    && DistinctPlaces(changes)
    && (forall c <- changes ::
          && c.place.key == key && c.place in docs && c.original == docs[c.place]
          && Current(c.converted) && !Current(c.original))
    && (changes != [] ==>
          && changes[|changes| - 1].place == Place(key, RecordKind)
          && docs[Place(key, RecordKind)].OldRecord? && changes[|changes| - 1].converted.NewRecord?
          && changes[|changes| - 1].converted.record.boundary == key.boundary
          && changes[|changes| - 1].converted.record.backendId == key.backend
          && forall kind :: Place(key, kind) in docs ==> exists c <- changes :: c.place == Place(key, kind))
  }

  lemma PlanIsPlanned(docs: Stock, key: Key, phases: map<string, Phase>)
    requires Place(key, RecordKind) in docs && Plan(docs, key, phases).Ok?
    ensures Planned(docs, key, Plan(docs, key, phases).value)
    ensures Plan(docs, key, phases).value == [] <==> docs[Place(key, RecordKind)].NewRecord?
  {
    hide InitialPhase, ChoosePhase, ConvertInventory, Converted, ReadLegacy, Planned, Changes;
    if docs[Place(key, RecordKind)].OldRecord? {
      var availability := docs[Place(key, RecordKind)].availability;
      var l := ReadLegacy(docs, key, availability);
      ReadsWhatIsThere(docs, key, availability);
      var phase := ChoosePhase(if key.boundary in phases then Some(phases[key.boundary]) else None,
                               InitialPhase(availability, l.targets, l.report, l.credentials));
      ChangesArePlanned(docs, key, l, BoundaryRecord(key.backend, key.boundary, availability, phase.value));
    } else {
      NothingIsPlanned(docs, key);
    }
  }

  lemma NothingIsPlanned(docs: Stock, key: Key)
    ensures Planned(docs, key, [])
  {
  }

  lemma ChangesArePlanned(docs: Stock, key: Key, l: Legacy, record: BoundaryRecord)
    requires Acceptable(l, key.boundary) && Place(key, RecordKind) in docs && docs[Place(key, RecordKind)].OldRecord?
    requires record.boundary == key.boundary && record.backendId == key.backend && LegacySchemas(docs, key)
    requires l.targets.Some? <==> Place(key, TargetsKind) in docs
    requires l.report.Some? <==> Place(key, ReportKind) in docs
    requires l.credentials.Some? <==> Place(key, CredentialsKind) in docs
    ensures Planned(docs, key, Changes(docs, key, l, record)) && Changes(docs, key, l, record) != []
  {
    hide ConvertInventory, Acceptable;
    var cs := Changes(docs, key, l, record);
    assert cs[|cs| - 1].place == Place(key, RecordKind);
    forall kind | Place(key, kind) in docs
      ensures exists c <- cs :: c.place == Place(key, kind)
    {
      match kind {
        case TargetsKind => assert cs[0].place == Place(key, kind);
        case ReportKind => assert cs[if l.targets.Some? then 1 else 0].place == Place(key, kind);
        case CredentialsKind => assert cs[|cs| - 2].place == Place(key, kind);
        case RecordKind => assert cs[|cs| - 1].place == Place(key, kind);
      }
    }
  }

  // Locality

  ghost predicate SameAt(docs: Stock, docs': Stock, key: Key) {
    forall kind :: Find(docs, key, kind) == Find(docs', key, kind)
  }

  lemma PlanIsLocal(docs: Stock, docs': Stock, key: Key, phases: map<string, Phase>)
    requires SameAt(docs, docs', key) && Place(key, RecordKind) in docs
    ensures Place(key, RecordKind) in docs' && Plan(docs, key, phases) == Plan(docs', key, phases)
  {
    hide InitialPhase, ChoosePhase, ConvertInventory, Converted, Acceptable, AllConvertible, Recognized;
    assert Find(docs, key, RecordKind) == Find(docs', key, RecordKind);
    assert Find(docs, key, TargetsKind) == Find(docs', key, TargetsKind);
    assert Find(docs, key, ReportKind) == Find(docs', key, ReportKind);
    assert Find(docs, key, CredentialsKind) == Find(docs', key, CredentialsKind);
  }

  lemma {:induction false} PreflightIsLocal(docs: Stock, docs': Stock, order: seq<Key>, phases: map<string, Phase>)
    requires forall k <- order :: SameAt(docs, docs', k) && Place(k, RecordKind) in docs
    ensures forall k <- order :: Place(k, RecordKind) in docs'
    ensures Preflight(docs, order, phases) == Preflight(docs', order, phases)
  {
    hide Plan;
    if order != [] {
      PreflightIsLocal(docs, docs', order[..|order| - 1], phases);
      PlanIsLocal(docs, docs', order[|order| - 1], phases);
    }
  }

  lemma {:induction false} ApplyElsewhere(docs: Stock, changes: seq<Change>, p: Place)
    requires forall c <- changes :: c.place != p
    ensures p in ApplyAll(docs, changes) <==> p in docs
    ensures p in docs ==> ApplyAll(docs, changes)[p] == docs[p]
  {
    if changes != [] {
      ApplyElsewhere(docs, changes[..|changes| - 1], p);
    }
  }

  lemma {:induction false} ApplyHere(docs: Stock, changes: seq<Change>, i: nat)
    requires i < |changes| && DistinctPlaces(changes)
    ensures changes[i].place in ApplyAll(docs, changes)
            && ApplyAll(docs, changes)[changes[i].place] == changes[i].converted
  {
    var front := changes[..|changes| - 1];
    if i < |front| {
      assert front[i] == changes[i];
      ApplyHere(docs, front, i);
    }
  }

  /** A record in the current schema means that every document beside it is converted. */
  ghost predicate RecordLast(docs: Stock, key: Key) {
    Place(key, RecordKind) in docs && docs[Place(key, RecordKind)].NewRecord? ==>
      forall kind :: Place(key, kind) in docs ==> Current(docs[Place(key, kind)])
  }

  /** An interrupted boundary is never converted twice: between its first and its last write it is rejected,
      and after its last write nothing is left to do. */
  lemma PartialPlan(docs: Stock, docs1: Stock, key: Key, phases: map<string, Phase>, j: nat)
    requires Place(key, RecordKind) in docs && Plan(docs, key, phases).Ok? && SameAt(docs, docs1, key)
    requires RecordLast(docs, key) && j <= |Plan(docs, key, phases).value|
    ensures var plan := Plan(docs, key, phases).value;
            var docs' := ApplyAll(docs1, plan[..j]);
            && Place(key, RecordKind) in docs' && RecordLast(docs', key)
            && (j == 0 ==> Plan(docs', key, phases) == Ok(plan))
            && (0 < j < |plan| ==> Plan(docs', key, phases).Err?)
            && (0 < j == |plan| ==> Plan(docs', key, phases) == Ok([]))
  {
    hide Plan, Planned, SameAt, LegacySchemas;
    PlanIsPlanned(docs, key, phases);
    var plan := Plan(docs, key, phases).value;
    var docs' := ApplyAll(docs1, plan[..j]);
    PlanIsLocal(docs, docs1, key, phases);
    if j == 0 {
      assert docs' == docs1;
      RecordLastIsLocal(docs, docs1, key);
    } else if j < |plan| {
      HalfConverted(docs, docs1, key, plan, j);
      HalfIsRejected(docs', key, phases);
    } else {
      assert plan[..j] == plan;
      AllConverted(docs, docs1, key, plan);
      ConvertedIsDone(docs', key, phases);
    }
  }

  lemma RecordLastIsLocal(docs: Stock, docs': Stock, key: Key)
    requires SameAt(docs, docs', key) && RecordLast(docs, key)
    ensures RecordLast(docs', key)
  {
    assert Find(docs, key, RecordKind) == Find(docs', key, RecordKind);
    forall kind | Place(key, kind) in docs' && Place(key, RecordKind) in docs'
        && docs'[Place(key, RecordKind)].NewRecord?
      ensures Current(docs'[Place(key, kind)])
    {
      assert Find(docs, key, kind) == Find(docs', key, kind);
    }
  }

  lemma HalfIsRejected(docs: Stock, key: Key, phases: map<string, Phase>)
    requires Place(key, RecordKind) in docs && docs[Place(key, RecordKind)].OldRecord? && !LegacySchemas(docs, key)
    ensures Plan(docs, key, phases).Err? && RecordLast(docs, key)
  {
  }

  lemma ConvertedIsDone(docs: Stock, key: Key, phases: map<string, Phase>)
    requires Place(key, RecordKind) in docs && docs[Place(key, RecordKind)].NewRecord?
    requires var r := docs[Place(key, RecordKind)].record; r.boundary == key.boundary && r.backendId == key.backend
    ensures Plan(docs, key, phases) == Ok([])
  {
  }

  lemma NotLegacy(docs: Stock, key: Key, kind: Kind)
    requires kind != RecordKind && Place(key, kind) in docs && Current(docs[Place(key, kind)])
    ensures !LegacySchemas(docs, key)
  {
    var s := Find(docs, key, kind);
    assert s.Some? && Current(s.value);
    if kind == TargetsKind {
      assert Find(docs, key, TargetsKind) == s;
    } else if kind == ReportKind {
      assert Find(docs, key, ReportKind) == s;
    } else {
      assert Find(docs, key, CredentialsKind) == s;
    }
  }

  lemma HalfConverted(docs: Stock, docs1: Stock, key: Key, plan: seq<Change>, j: nat)
    requires Planned(docs, key, plan) && SameAt(docs, docs1, key) && 0 < j < |plan|
    ensures var docs' := ApplyAll(docs1, plan[..j]);
            && Place(key, RecordKind) in docs' && docs'[Place(key, RecordKind)].OldRecord? && !LegacySchemas(docs', key)
  {
    var record := Place(key, RecordKind);
    var docs' := ApplyAll(docs1, plan[..j]);
    assert Find(docs, key, RecordKind) == Find(docs1, key, RecordKind);
    forall c | c in plan[..j]
      ensures c.place != record
    {
      var i :| 0 <= i < j && plan[i] == c;
    }
    ApplyElsewhere(docs1, plan[..j], record);
    var first := plan[0];
    assert plan[..j][0] == first && first in plan[..j];
    ApplyHere(docs1, plan[..j], 0);
    assert plan[..j][0].place != record;
    assert Find(docs', key, first.place.kind) == Some(first.converted);
    NotLegacy(docs', key, first.place.kind);
  }

  lemma AllConverted(docs: Stock, docs1: Stock, key: Key, plan: seq<Change>)
    requires Planned(docs, key, plan) && SameAt(docs, docs1, key) && plan != []
    ensures var docs' := ApplyAll(docs1, plan);
            && RecordLast(docs', key) && Place(key, RecordKind) in docs' && docs'[Place(key, RecordKind)].NewRecord?
            && var r := docs'[Place(key, RecordKind)].record; r.boundary == key.boundary && r.backendId == key.backend
  {
    var docs' := ApplyAll(docs1, plan);
    ApplyHere(docs1, plan, |plan| - 1);
    forall kind | Place(key, kind) in docs'
      ensures Current(docs'[Place(key, kind)])
    {
      assert Find(docs, key, kind) == Find(docs1, key, kind);
      if Place(key, kind) !in docs {
        ApplyElsewhere(docs1, plan, Place(key, kind));
      } else {
        var c :| c in plan && c.place == Place(key, kind);
        var i :| 0 <= i < |plan| && plan[i] == c;
        ApplyHere(docs1, plan, i);
      }
    }
  }

  // Crash points

  ghost predicate Listed(docs: Stock, order: seq<Key>) {
    NoDuplicates(order) && forall k <- order :: Place(k, RecordKind) in docs
  }

  /** The first m writes end between two boundaries. */
  predicate BetweenBoundaries(docs: Stock, order: seq<Key>, phases: map<string, Phase>, m: nat)
    requires forall k <- order :: Place(k, RecordKind) in docs
    requires Preflight(docs, order, phases).Ok?
  {
    if order == [] then m == 0
    else
      var front := order[..|order| - 1];
      if m <= |Preflight(docs, front, phases).value.changes| then BetweenBoundaries(docs, front, phases, m)
      else m == |Preflight(docs, order, phases).value.changes|
  }

  lemma {:induction false} ChangesAreListed(docs: Stock, order: seq<Key>, phases: map<string, Phase>)
    requires Listed(docs, order) && Preflight(docs, order, phases).Ok?
    ensures var batch := Preflight(docs, order, phases).value;
            && forall c <- batch.changes ::
                 c.place.key in order && c.place in docs && c.original == docs[c.place] && Current(c.converted)
                     && !Current(c.original)
    ensures DistinctPlaces(Preflight(docs, order, phases).value.changes)
    ensures BetweenBoundaries(docs, order, phases, |Preflight(docs, order, phases).value.changes|)
  {
    if order != [] {
      var front, last := order[..|order| - 1], order[|order| - 1];
      ChangesAreListed(docs, front, phases);
      PlanIsPlanned(docs, last, phases);
      assert forall c <- Preflight(docs, front, phases).value.changes :: c.place.key != last;
    }
  }

  lemma SameElsewhere(docs: Stock, changes: seq<Change>, key: Key)
    requires forall c <- changes :: c.place.key != key
    ensures SameAt(docs, ApplyAll(docs, changes), key)
  {
    forall kind
      ensures Find(docs, key, kind) == Find(ApplyAll(docs, changes), key, kind)
    {
      ApplyElsewhere(docs, changes, Place(key, kind));
    }
  }

  /** What a stop after the first m document writes leaves behind: records still come last everywhere, a second run is
      accepted exactly when the stop fell between two boundaries, and then exactly the missing writes remain. */
  ghost predicate Resumable(docs: Stock, order: seq<Key>, phases: map<string, Phase>, m: nat, now: Stock)
    requires forall k <- order :: Place(k, RecordKind) in docs
    requires Preflight(docs, order, phases).Ok? && m <= |Preflight(docs, order, phases).value.changes|
  {
    && (forall k <- order :: Place(k, RecordKind) in now && RecordLast(now, k))
    && (Preflight(now, order, phases).Ok? <==> BetweenBoundaries(docs, order, phases, m))
    && (Preflight(now, order, phases).Ok? ==>
        Preflight(now, order, phases).value.changes == Preflight(docs, order, phases).value.changes[m..])
  }

  lemma {:induction false} CrashPoint(docs: Stock, order: seq<Key>, phases: map<string, Phase>, m: nat)
    requires Listed(docs, order) && Preflight(docs, order, phases).Ok?
    requires m <= |Preflight(docs, order, phases).value.changes|
    requires forall k <- order :: RecordLast(docs, k)
    ensures Resumable(docs, order, phases, m, ApplyAll(docs, Preflight(docs, order, phases).value.changes[..m]))
  {
    hide Plan, RecordLast, SameAt, ApplyAll;
    var changes := Preflight(docs, order, phases).value.changes;
    if order == [] {
      ApplyNothing(docs);
    } else {
      var front, last := order[..|order| - 1], order[|order| - 1];
      var done, plan := Preflight(docs, front, phases).value.changes, Plan(docs, last, phases).value;
      if m <= |done| {
        CrashPoint(docs, front, phases, m);
        CrashBefore(docs, order, phases, m);
      } else {
        CrashPoint(docs, front, phases, |done|);
        ChangesAreListed(docs, front, phases);
        assert done[..|done|] == done;
        CrashWithin(docs, order, phases, m - |done|);
      }
    }
  }

  lemma ApplyNothing(docs: Stock)
    ensures ApplyAll(docs, []) == docs
  {
  }

  /** The stop came before the last boundary was touched. */
  lemma CrashBefore(docs: Stock, order: seq<Key>, phases: map<string, Phase>, m: nat)
    requires Listed(docs, order) && order != [] && Preflight(docs, order, phases).Ok?
    requires forall k <- order :: RecordLast(docs, k)
    requires var front := order[..|order| - 1];
             var done := Preflight(docs, front, phases).value.changes;
             m <= |done| && Resumable(docs, front, phases, m, ApplyAll(docs, done[..m]))
    ensures Resumable(docs, order, phases, m, ApplyAll(docs, Preflight(docs, order, phases).value.changes[..m]))
  {
    hide Plan, RecordLast, SameAt, ApplyAll;
    var changes := Preflight(docs, order, phases).value.changes;
    var front, last := order[..|order| - 1], order[|order| - 1];
    var done, plan := Preflight(docs, front, phases).value.changes, Plan(docs, last, phases).value;
    var now := ApplyAll(docs, done[..m]);
    assert changes[..m] == done[..m] && changes[m..] == done[m..] + plan;
    ChangesAreListed(docs, front, phases);
    SameElsewhere(docs, done[..m], last);
    PlanIsLocal(docs, now, last, phases);
    RecordLastIsLocal(docs, now, last);
    assert order == front + [last];
  }

  /** Writes at one boundary leave the plans of the others alone. */
  lemma OthersStay(before: Stock, others: seq<Key>, phases: map<string, Phase>, changes: seq<Change>)
    requires forall k <- others :: Place(k, RecordKind) in before && RecordLast(before, k)
    requires forall c <- changes :: c.place.key !in others
    ensures var now := ApplyAll(before, changes);
            && (forall k <- others :: Place(k, RecordKind) in now && RecordLast(now, k))
            && Preflight(before, others, phases) == Preflight(now, others, phases)
  {
    hide Plan, RecordLast, SameAt, ApplyAll;
    var now := ApplyAll(before, changes);
    forall k | k in others
      ensures SameAt(before, now, k) && RecordLast(now, k)
    {
      SameElsewhere(before, changes, k);
      RecordLastIsLocal(before, now, k);
    }
    PreflightIsLocal(before, now, others, phases);
  }

  lemma PlanStaysHome(docs: Stock, key: Key, phases: map<string, Phase>)
    requires Place(key, RecordKind) in docs && Plan(docs, key, phases).Ok?
    ensures forall c <- Plan(docs, key, phases).value :: c.place.key == key
  {
    hide Plan;
    PlanIsPlanned(docs, key, phases);
  }

  /** With the other boundaries finished, the last one alone decides about a rerun. */
  lemma LastDecides(docs: Stock, order: seq<Key>, phases: map<string, Phase>, j: nat, now: Stock)
    requires Listed(docs, order) && order != [] && Preflight(docs, order, phases).Ok?
    requires 0 < j <= |Plan(docs, order[|order| - 1], phases).value|
    requires forall k <- order :: Place(k, RecordKind) in now && RecordLast(now, k)
    requires Preflight(now, order[..|order| - 1], phases).Ok?
    requires Preflight(now, order[..|order| - 1], phases).value.changes == []
    requires j < |Plan(docs, order[|order| - 1], phases).value| ==> Plan(now, order[|order| - 1], phases).Err?
    requires j == |Plan(docs, order[|order| - 1], phases).value| ==> Plan(now, order[|order| - 1], phases) == Ok([])
    ensures var m := |Preflight(docs, order[..|order| - 1], phases).value.changes| + j;
            Resumable(docs, order, phases, m, now)
  {
    hide Plan, RecordLast;
  }

  /** The stop came after at least one write of the last boundary. */
  lemma CrashWithin(docs: Stock, order: seq<Key>, phases: map<string, Phase>, j: nat)
    requires Listed(docs, order) && order != [] && Preflight(docs, order, phases).Ok?
    requires forall k <- order :: RecordLast(docs, k)
    requires 0 < j <= |Plan(docs, order[|order| - 1], phases).value|
    requires var front := order[..|order| - 1];
             var done := Preflight(docs, front, phases).value.changes;
             && Resumable(docs, front, phases, |done|, ApplyAll(docs, done))
             && BetweenBoundaries(docs, front, phases, |done|)
    ensures var m := |Preflight(docs, order[..|order| - 1], phases).value.changes| + j;
            Resumable(docs, order, phases, m, ApplyAll(docs, Preflight(docs, order, phases).value.changes[..m]))
  {
    hide Plan, RecordLast, SameAt, ApplyAll, BetweenBoundaries;
    var changes := Preflight(docs, order, phases).value.changes;
    var front, last := order[..|order| - 1], order[|order| - 1];
    var done, plan := Preflight(docs, front, phases).value.changes, Plan(docs, last, phases).value;
    var m := |done| + j;
    assert changes[..m] == done + plan[..j];
    ApplyConcat(docs, done, plan[..j]);
    var before := ApplyAll(docs, done);
    var now := ApplyAll(before, plan[..j]);
    ChangesAreListed(docs, front, phases);
    SameElsewhere(docs, done, last);
    PartialPlan(docs, before, last, phases, j);
    PlanStaysHome(docs, last, phases);
    assert forall c <- plan[..j] :: c in plan;
    OthersStay(before, front, phases, plan[..j]);
    LastDecides(docs, order, phases, j, now);
  }

  lemma {:induction false} NothingToCount(docs: Stock, order: seq<Key>, phases: map<string, Phase>)
    requires Listed(docs, order) && Preflight(docs, order, phases).Ok?
    ensures Preflight(docs, order, phases).value.changes == [] <==> Preflight(docs, order, phases).value.count == 0
  {
    if order != [] {
      NothingToCount(docs, order[..|order| - 1], phases);
    }
  }

  // The tool

  /** A backup is written in place: a crash may leave it torn, and a torn backup never equals its original. */
  datatype Saved = Torn | Complete(document: Stored)

  type Backups = map<Place, Saved>

  datatype Snapshot = Snapshot(documents: Stock, backups: Backups)

  /** Directory and override checks that concern the whole workspace. */
  predicate Identified(markers: map<string, string>, order: seq<Key>, phases: map<string, Phase>) {
    && markers != map[]
    && (forall b <- markers :: markers[b] == b)
    && (forall id <- phases :: exists k <- order :: k.boundary == id)
  }

  predicate Usable(changes: seq<Change>, backups: Backups) {
    forall c <- changes :: c.place in backups ==> backups[c.place] == Complete(c.original)
  }

  predicate AllSaved(changes: seq<Change>, backups: Backups) {
    forall c <- changes :: c.place in backups && backups[c.place] == Complete(c.original)
  }

  /** Backups are only ever added, and only of the documents that are about to change. */
  ghost predicate BackupsGrow(changes: seq<Change>, was: Backups, now: Backups) {
    && (forall p <- was :: p in now && now[p] == was[p])
    && (forall p <- now :: p !in was ==>
        exists c <- changes :: c.place == p && (now[p].Torn? || now[p] == Complete(c.original)))
  }

  /** Between two file operations: some prefix of the writes is done, and none before every backup is complete. */
  ghost predicate SafePoint(documents: Stock, backups: Backups, changes: seq<Change>, s: Snapshot, m: nat) {
    && m <= |changes| && s.documents == ApplyAll(documents, changes[..m])
    && (m > 0 ==> AllSaved(changes, s.backups))
    && BackupsGrow(changes, backups, s.backups)
  }

  ghost predicate Safe(documents: Stock, backups: Backups, changes: seq<Change>, s: Snapshot) {
    exists m: nat :: SafePoint(documents, backups, changes, s, m)
  }

  /** Nothing is ever lost: each document still has its original bytes or a complete copy of them. */
  lemma AlwaysRecoverable(docs: Stock, order: seq<Key>, phases: map<string, Phase>, backups: Backups, s: Snapshot,
                          p: Place)
    requires Listed(docs, order) && Preflight(docs, order, phases).Ok?
    requires Safe(docs, backups, Preflight(docs, order, phases).value.changes, s) && p in docs
    ensures p in s.documents
    ensures s.documents[p] == docs[p] || (p in s.backups && s.backups[p] == Complete(docs[p]))
  {
    hide Plan, ApplyAll, DistinctPlaces;
    var changes := Preflight(docs, order, phases).value.changes;
    ChangesAreListed(docs, order, phases);
    var m: nat :| SafePoint(docs, backups, changes, s, m);
    if c :| c in changes[..m] && c.place == p {
      assert c in changes;
      KeysStay(docs, changes[..m], p);
    } else {
      ApplyElsewhere(docs, changes[..m], p);
    }
  }

  lemma {:induction false} KeysStay(docs: Stock, changes: seq<Change>, p: Place)
    requires p in docs
    ensures p in ApplyAll(docs, changes)
  {
    if changes != [] {
      KeysStay(docs, changes[..|changes| - 1], p);
    }
  }

  predicate NoneTorn(changes: seq<Change>, backups: Backups) {
    forall c <- changes :: c.place in backups ==> backups[c.place] != Torn
  }

  /** After a crash at any point a second run is accepted exactly when no boundary is half converted and no backup is
      torn, and it then ends in the very documents that the uninterrupted run would have produced. */
  lemma RerunAfterCrash(docs: Stock, order: seq<Key>, phases: map<string, Phase>, backups: Backups, s: Snapshot, m: nat)
    requires Listed(docs, order) && Preflight(docs, order, phases).Ok? && forall k <- order :: RecordLast(docs, k)
    requires var changes := Preflight(docs, order, phases).value.changes;
             Usable(changes, backups) && SafePoint(docs, backups, changes, s, m)
    ensures Listed(s.documents, order)
    ensures var changes, again := Preflight(docs, order, phases).value.changes, Preflight(s.documents, order, phases);
            && ((again.Ok? && Usable(again.value.changes, s.backups)) <==>
                BetweenBoundaries(docs, order, phases, m) && NoneTorn(changes, s.backups))
            && (again.Ok? ==> ApplyAll(s.documents, again.value.changes) == ApplyAll(docs, changes))
  {
    hide Plan, ApplyAll, RecordLast, DistinctPlaces, BetweenBoundaries;
    var changes := Preflight(docs, order, phases).value.changes;
    CrashPoint(docs, order, phases, m);
    ChangesAreListed(docs, order, phases);
    var again := Preflight(s.documents, order, phases);
    if again.Ok? {
      ApplyConcat(docs, changes[..m], changes[m..]);
      assert changes[..m] + changes[m..] == changes;
      if m > 0 {
        assert forall c <- changes[m..] :: c in changes;
      } else {
        assert changes[0..] == changes;
        UsableUnlessTorn(docs, changes, backups, s.backups);
      }
    }
    if m == 0 {
      NothingIsBetween(docs, order, phases);
    }
  }

  lemma {:induction false} NothingIsBetween(docs: Stock, order: seq<Key>, phases: map<string, Phase>)
    requires Listed(docs, order) && Preflight(docs, order, phases).Ok?
    ensures BetweenBoundaries(docs, order, phases, 0)
  {
    if order != [] {
      NothingIsBetween(docs, order[..|order| - 1], phases);
    }
  }

  lemma UsableUnlessTorn(docs: Stock, changes: seq<Change>, was: Backups, now: Backups)
    requires Usable(changes, was) && BackupsGrow(changes, was, now)
    requires forall c <- changes :: c.place in docs && c.original == docs[c.place]
    ensures Usable(changes, now) <==> NoneTorn(changes, now)
  {
  }

  /** After a complete run a second one finds nothing to do. */
  lemma RerunIsIdle(docs: Stock, order: seq<Key>, phases: map<string, Phase>)
    requires Listed(docs, order) && Preflight(docs, order, phases).Ok? && forall k <- order :: RecordLast(docs, k)
    ensures var after := ApplyAll(docs, Preflight(docs, order, phases).value.changes);
            Listed(after, order) && Preflight(after, order, phases) == Ok(Batch([], 0))
  {
    hide Plan, ApplyAll, RecordLast;
    var changes := Preflight(docs, order, phases).value.changes;
    assert changes[..|changes|] == changes && changes[|changes|..] == [];
    CrashPoint(docs, order, phases, |changes|);
    ChangesAreListed(docs, order, phases);
    NothingToCount(ApplyAll(docs, changes), order, phases);
  }

  lemma {:induction false} RejectionSpreads(docs: Stock, order: seq<Key>, phases: map<string, Phase>, i: nat)
    requires i <= |order| && forall k <- order :: Place(k, RecordKind) in docs
    requires Preflight(docs, order[..i], phases).Err?
    ensures Preflight(docs, order, phases) == Preflight(docs, order[..i], phases)
  {
    if i == |order| {
      assert order[..i] == order;
    } else {
      var front := order[..|order| - 1];
      assert front[..i] == order[..i];
      RejectionSpreads(docs, front, phases, i);
    }
  }

  lemma GrowNothing(changes: seq<Change>, backups: Backups)
    ensures BackupsGrow(changes, backups, backups)
  {
  }

  lemma ApplyNext(docs: Stock, changes: seq<Change>, i: nat)
    requires i < |changes|
    ensures ApplyAll(docs, changes[..i + 1]) == Apply(ApplyAll(docs, changes[..i]), changes[i])
  {
    assert changes[..i + 1][..i] == changes[..i];
  }

  lemma SafeAfter(docs: Stock, backups: Backups, changes: seq<Change>, s: Snapshot, m: nat)
    requires SafePoint(docs, backups, changes, s, m)
    ensures Safe(docs, backups, changes, s)
  {
  }

  /** Both steps of one backup are safe points. */
  lemma GrowOne(docs: Stock, changes: seq<Change>, was: Backups, now: Backups, i: nat)
    requires i < |changes| && BackupsGrow(changes, was, now) && (changes[i].place in now <==> changes[i].place in was)
    ensures var c := changes[i];
            c.place !in now ==>
              && Safe(docs, was, changes, Snapshot(docs, now[c.place := Torn]))
              && Safe(docs, was, changes, Snapshot(docs, now[c.place := Complete(c.original)]))
              && BackupsGrow(changes, was, now[c.place := Complete(c.original)])
  {
    var c := changes[i];
    ApplyNothing(docs);
    assert changes[..0] == [];
    if c.place !in now {
      assert SafePoint(docs, was, changes, Snapshot(docs, now[c.place := Torn]), 0);
      assert SafePoint(docs, was, changes, Snapshot(docs, now[c.place := Complete(c.original)]), 0);
    }
  }

  // The edits of one boundary

  method ConvertCredentials(legacy: LegacyCredentials) returns (r: Result<CredentialsDocument, string>)
    ensures r.Ok? <==> AllConvertible(legacy)
    ensures r.Ok? ==> r.value == Converted(legacy)
  {
    var credentials: map<string, Credential> := map[];
    var todo := legacy.credentials.Keys;
    while todo != {}
      invariant todo <= legacy.credentials.Keys && credentials.Keys == legacy.credentials.Keys - todo
      invariant forall id <- credentials ::
                Convertible(legacy.credentials[id]) && credentials[id] == ConvertCredential(legacy.credentials[id])
    {
      var id :| id in todo;
      todo := todo - {id};
      var c := legacy.credentials[id];
      var judgment, extraction := ConvertJudgment(c), ConvertExtraction(c.extraction);
      if judgment.None? || extraction.None? {
        assert !Convertible(legacy.credentials[id]);
        return Err("invalid legacy credentials");
      }
      credentials := credentials[id :=
                                 Credential(c.credentialId, c.value, c.occurrences, judgment.value, extraction.value)];
    }
    assert credentials == Converted(legacy).credentials;
    return Ok(CredentialsDocument(legacy.boundaryId, legacy.reportGeneratedAt, credentials, legacy.errors));
  }

  method ConvertTargets(legacy: LegacyInventory) returns (r: Result<Inventory, string>)
    ensures r.Ok? <==> Recognized(legacy)
    ensures r.Ok? ==> r.value == ConvertInventory(legacy)
  {
    var targets: map<string, Target> := map[];
    var todo := legacy.targets.Keys;
    while todo != {}
      invariant todo <= legacy.targets.Keys && targets.Keys == legacy.targets.Keys - todo
      invariant forall id <- targets ::
                  ConvertStatus(legacy.targets[id].result.status).Some?
                      && targets[id] == ConvertTarget(legacy.targets[id])
    {
      var id :| id in todo;
      todo := todo - {id};
      var was := legacy.targets[id].result;
      var status := ConvertStatus(was.status);
      if status.None? {
        assert !(ConvertStatus(legacy.targets[id].result.status).Some?);
        return Err("invalid scan targets");
      }
      targets := targets[id := Target(legacy.targets[id].scope,
                                      TargetResult(status.value, was.errors, was.returnCode, was.startedAt,
                                                   was.finishedAt))];
    }
    assert targets == ConvertInventory(legacy).targets;
    return Ok(Inventory(legacy.generatedAt, legacy.boundary, targets, legacy.errors));
  }

  lemma {:induction false} ApplySame(a: Stock, b: Stock, key: Key, changes: seq<Change>)
    requires SameAt(a, b, key)
    ensures SameAt(ApplyAll(a, changes), ApplyAll(b, changes), key)
  {
    if changes != [] {
      var front := changes[..|changes| - 1];
      ApplySame(a, b, key, front);
      forall kind
        ensures Find(ApplyAll(a, changes), key, kind) == Find(ApplyAll(b, changes), key, kind)
      {
        assert Find(ApplyAll(a, front), key, kind) == Find(ApplyAll(b, front), key, kind);
      }
    }
  }

  /** The whole run leaves each boundary as its own plan would. */
  lemma {:induction false} EachIsMigrated(docs: Stock, order: seq<Key>, phases: map<string, Phase>, key: Key)
    requires Listed(docs, order) && Preflight(docs, order, phases).Ok? && key in order
    ensures Plan(docs, key, phases).Ok?
    ensures SameAt(ApplyAll(docs, Preflight(docs, order, phases).value.changes),
                   ApplyAll(docs, Plan(docs, key, phases).value), key)
  {
    hide Plan, ApplyAll, SameAt;
    var front, last := order[..|order| - 1], order[|order| - 1];
    var done, plan := Preflight(docs, front, phases).value.changes, Plan(docs, last, phases).value;
    ApplyConcat(docs, done, plan);
    ChangesAreListed(docs, front, phases);
    PlanIsPlanned(docs, last, phases);
    if key == last {
      SameElsewhere(docs, done, key);
      ApplySame(docs, ApplyAll(docs, done), key, plan);
      SameIsSymmetric(ApplyAll(docs, plan), ApplyAll(ApplyAll(docs, done), plan), key);
    } else {
      EachIsMigrated(docs, front, phases, key);
      SameElsewhere(ApplyAll(docs, done), plan, key);
      SameIsTransitive(ApplyAll(ApplyAll(docs, done), plan), ApplyAll(docs, done),
                       ApplyAll(docs, Plan(docs, key, phases).value), key);
    }
  }

  lemma SameIsSymmetric(a: Stock, b: Stock, key: Key)
    requires SameAt(a, b, key)
    ensures SameAt(b, a, key)
  {
  }

  lemma SameIsTransitive(a: Stock, b: Stock, c: Stock, key: Key)
    requires SameAt(b, a, key) && SameAt(b, c, key)
    ensures SameAt(a, c, key)
  {
    forall kind
      ensures Find(a, key, kind) == Find(c, key, kind)
    {
      assert Find(b, key, kind) == Find(a, key, kind) && Find(b, key, kind) == Find(c, key, kind);
    }
  }

  /** After a complete accepted run every legacy boundary is in the phase that is due to it, passes its validators and
      has kept its history; the whole runtime invariant holds exactly when that history was faithful. */
  lemma WholeRunEstablishes(w: Lifecycle.World, docs: Stock, order: seq<Key>, phases: map<string, Phase>, key: Key,
                            files: Evidence.Files, datastore: bool)
    requires Listed(docs, order) && Preflight(docs, order, phases).Ok? && key in order
    requires docs[Place(key, RecordKind)].OldRecord?
    ensures var d := DiskOf(ApplyAll(docs, Preflight(docs, order, phases).value.changes), key, files, datastore);
            && Lifecycle.PhaseSound(d) && PhaseIsDue(docs, key, phases, d) && KeepsHistory(docs, key, d)
            && (d.targets.Some? ==> d.targets.value.Valid())
            && (d.credentials.Some? ==> d.credentials.value.Valid())
            && (Lifecycle.Consistent(w, d) <==> LegacyFaithful(w, docs, key, files))
  {
    hide Plan, ApplyAll, Preflight, LegacyFaithful, Lifecycle.Consistent, KeepsHistory, Lifecycle.PhaseSound,
         Inventory.Valid, CredentialsDocument.Valid, PhaseIsDue;
    EachIsMigrated(docs, order, phases, key);
    var whole := ApplyAll(docs, Preflight(docs, order, phases).value.changes);
    var own := ApplyAll(docs, Plan(docs, key, phases).value);
    assert forall kind :: Find(whole, key, kind) == Find(own, key, kind);
    assert DiskOf(whole, key, files, datastore) == DiskOf(own, key, files, datastore);
    MigrationIsSound(docs, key, phases, files, datastore);
    PhaseOfMigrated(docs, key, phases, files, datastore);
    MigrationEstablishes(w, docs, key, phases, files, datastore);
    MigrationKeepsHistory(docs, key, phases, files, datastore);
  }

  /** The legacy boundaries among these. */
  function Legacies(docs: Stock, order: seq<Key>): set<Key>
    requires forall k <- order :: Place(k, RecordKind) in docs
  {
    set k | k in order && docs[Place(k, RecordKind)].OldRecord?
  }

  /** The workspace is accepted exactly when every boundary can be converted without guessing, and the count is of the
      legacy ones. */
  lemma {:induction false} PreflightIsAccepted(docs: Stock, order: seq<Key>, phases: map<string, Phase>)
    requires Listed(docs, order)
    ensures Preflight(docs, order, phases).Ok? <==> forall k <- order :: Migratable(docs, k, phases)
    ensures Preflight(docs, order, phases).Ok? ==>
              Preflight(docs, order, phases).value.count == |Legacies(docs, order)|
  {
    hide Plan, Migratable, Legacies;
    if order == [] {
      LegaciesNone(docs);
    } else {
      var front, last := order[..|order| - 1], order[|order| - 1];
      PreflightIsAccepted(docs, front, phases);
      PlanIsAccepted(docs, last, phases);
      LegaciesNext(docs, front, last);
      assert order == front + [last];
      if Plan(docs, last, phases).Ok? {
        PlanIsPlanned(docs, last, phases);
        AcceptedIsRecord(docs, last, phases);
      }
    }
  }

  lemma LegaciesNone(docs: Stock)
    ensures |Legacies(docs, [])| == 0
  {
    assert Legacies(docs, []) == {};
  }

  lemma LegaciesNext(docs: Stock, front: seq<Key>, last: Key)
    requires (forall k <- front :: Place(k, RecordKind) in docs) && Place(last, RecordKind) in docs && last !in front
    ensures |Legacies(docs, front + [last])| ==
            |Legacies(docs, front)| + if docs[Place(last, RecordKind)].OldRecord? then 1 else 0
  {
    assert Legacies(docs, front + [last]) ==
           Legacies(docs, front) + if docs[Place(last, RecordKind)].OldRecord? then {last} else {};
  }

  lemma AcceptedIsRecord(docs: Stock, key: Key, phases: map<string, Phase>)
    requires Place(key, RecordKind) in docs && Migratable(docs, key, phases)
    ensures docs[Place(key, RecordKind)].OldRecord? <==> !docs[Place(key, RecordKind)].NewRecord?
  {
  }

  /** The documents that change are exactly those of the legacy boundaries. */
  lemma {:induction false} ChangesCover(docs: Stock, order: seq<Key>, phases: map<string, Phase>)
    requires Listed(docs, order) && Preflight(docs, order, phases).Ok?
    ensures forall c <- Preflight(docs, order, phases).value.changes ::
              c.place in docs && c.place.key in Legacies(docs, order) && c.original == docs[c.place]
    ensures forall p <- docs :: p.key in Legacies(docs, order) ==> IsChanged(docs, order, phases, p)
  {
    hide Plan;
    if order != [] {
      var front, last := order[..|order| - 1], order[|order| - 1];
      ChangesCover(docs, front, phases);
      PlanIsPlanned(docs, last, phases);
      forall p | p in docs && p.key in Legacies(docs, order)
        ensures IsChanged(docs, order, phases, p)
      {
        if p.key == last {
          var c :| c in Plan(docs, last, phases).value && c.place == p;
          assert c in Preflight(docs, order, phases).value.changes;
        } else {
          assert p.key in Legacies(docs, front);
          var c :| c in Preflight(docs, front, phases).value.changes && c.place == p;
          assert c in Preflight(docs, order, phases).value.changes;
        }
      }
    }
  }

  ghost predicate IsChanged(docs: Stock, order: seq<Key>, phases: map<string, Phase>, p: Place)
    requires forall k <- order :: Place(k, RecordKind) in docs
  {
    Preflight(docs, order, phases).Ok? && exists c <- Preflight(docs, order, phases).value.changes :: c.place == p
  }

  /** A legacy boundary is in the phase that is due to it and has kept its history, whatever files are beside it. */
  ghost predicate Migrated(docs: Stock, now: Stock, key: Key, phases: map<string, Phase>) {
    forall files, datastore ::
      var d := DiskOf(now, key, files, datastore);
      PhaseIsDue(docs, key, phases, d) && KeepsHistory(docs, key, d)
  }

  /** Nobody edited a document of a legacy boundary, and no backup of one differs from it. */
  predicate Unblocked(docs: Stock, order: seq<Key>, backups: Backups, edited: set<Place>)
    requires forall k <- order :: Place(k, RecordKind) in docs
  {
    forall p <- docs :: p.key in Legacies(docs, order) ==>
      p !in edited && (p in backups ==> backups[p] == Complete(docs[p]))
  }

  lemma UsableMeans(docs: Stock, order: seq<Key>, phases: map<string, Phase>, backups: Backups, edited: set<Place>)
    requires Listed(docs, order) && Preflight(docs, order, phases).Ok?
    ensures var changes := Preflight(docs, order, phases).value.changes;
            Usable(changes, backups) && (forall c <- changes :: c.place !in edited) <==>
            Unblocked(docs, order, backups, edited)
  {
    hide Preflight;
    ChangesCover(docs, order, phases);
    forall p | p in docs && p.key in Legacies(docs, order)
      ensures exists c <- Preflight(docs, order, phases).value.changes :: c.place == p && c.original == docs[p]
    {
      assert IsChanged(docs, order, phases, p);
    }
  }

  lemma OthersUnchanged(docs: Stock, order: seq<Key>, phases: map<string, Phase>)
    requires Listed(docs, order) && Preflight(docs, order, phases).Ok?
    ensures var after := ApplyAll(docs, Preflight(docs, order, phases).value.changes);
            forall p <- docs :: p.key !in Legacies(docs, order) ==> p in after && after[p] == docs[p]
  {
    hide Preflight, ApplyAll;
    ChangesCover(docs, order, phases);
    var changes := Preflight(docs, order, phases).value.changes;
    forall p | p in docs && p.key !in Legacies(docs, order)
      ensures p in ApplyAll(docs, changes) && ApplyAll(docs, changes)[p] == docs[p]
    {
      ApplyElsewhere(docs, changes, p);
    }
  }

  /** Every legacy boundary is migrated and backed up in full, and no document of another boundary has changed. */
  ghost predicate AllMigrated(docs: Stock, order: seq<Key>, phases: map<string, Phase>, now: Snapshot)
    requires forall k <- order :: Place(k, RecordKind) in docs
  {
    && (forall k <- Legacies(docs, order) :: Migrated(docs, now.documents, k, phases))
    && forall p <- docs ::
         if p.key in Legacies(docs, order) then p in now.backups && now.backups[p] == Complete(docs[p])
         else p in now.documents && now.documents[p] == docs[p]
  }

  lemma WholeRunMigrates(docs: Stock, order: seq<Key>, phases: map<string, Phase>, backups: Backups)
    requires Listed(docs, order) && Preflight(docs, order, phases).Ok?
    requires AllSaved(Preflight(docs, order, phases).value.changes, backups)
    ensures AllMigrated(docs, order, phases, Snapshot(ApplyAll(docs, Preflight(docs, order, phases).value.changes),
                                                      backups))
  {
    hide Plan, ApplyAll, Preflight, KeepsHistory, PhaseIsDue, DiskOf, Lifecycle.Consistent;
    var w := Lifecycle.World(bytes => "0", locator => "", locator => []);
    forall k, files, datastore | k in Legacies(docs, order)
      ensures var d := DiskOf(ApplyAll(docs, Preflight(docs, order, phases).value.changes), k, files, datastore);
              PhaseIsDue(docs, k, phases, d) && KeepsHistory(docs, k, d)
    {
      WholeRunEstablishes(w, docs, order, phases, k, files, datastore);
    }
    OthersUnchanged(docs, order, phases);
    ChangesCover(docs, order, phases);
    forall p | p in docs && p.key in Legacies(docs, order)
      ensures p in backups && backups[p] == Complete(docs[p])
    {
      assert IsChanged(docs, order, phases, p);
    }
  }

  /** One file changes at a time. */
  ghost predicate OneOperation(s: Snapshot, t: Snapshot) {
    || (t.documents == s.documents && exists p :: p in t.backups && t.backups == s.backups[p := t.backups[p]])
    || (t.backups == s.backups && exists p :: p in t.documents && t.documents == s.documents[p := t.documents[p]])
  }

  function StateAt(first: Snapshot, history: seq<Snapshot>, i: nat): Snapshot
    requires i <= |history|
  {
    if i == 0 then first else history[i - 1]
  }

  /** The history misses no operation between the first state and the last. */
  ghost predicate Recorded(first: Snapshot, history: seq<Snapshot>, last: Snapshot) {
    && last == StateAt(first, history, |history|)
    && forall i :: 0 <= i < |history| ==> OneOperation(StateAt(first, history, i), history[i])
  }

  lemma RecordedNext(first: Snapshot, history: seq<Snapshot>, last: Snapshot, next: Snapshot)
    requires Recorded(first, history, last) && OneOperation(last, next)
    ensures Recorded(first, history + [next], next)
  {
    hide OneOperation;
    var now := history + [next];
    forall i | 0 <= i < |now|
      ensures OneOperation(StateAt(first, now, i), now[i])
    {
      if i < |history| {
        assert history[i] == now[i] && StateAt(first, history, i) == StateAt(first, now, i);
      }
    }
  }

  class Workspace {
    const markers: map<string, string>
    var documents: Stock
    var backups: Backups
    /** The workspace as the current run found it, and after every file operation since. */
    ghost var start: Snapshot
    ghost var history: seq<Snapshot>

    ghost predicate Faithful()
      reads this
    {
      Recorded(start, history, Snapshot(documents, backups))
    }

    constructor (markers: map<string, string>, documents: Stock)
      ensures this.markers == markers && this.documents == documents && backups == map[] && history == []
    {
      this.markers, this.documents, backups, history, start := markers, documents, map[], [],
          Snapshot(documents, map[]);
    }

    method PreflightAll(order: seq<Key>, phases: map<string, Phase>) returns (r: Result<Batch, string>)
      requires Listed(documents, order)
      ensures r.Ok? <==> Preflight(documents, order, phases).Ok?
      ensures r.Ok? ==> r == Preflight(documents, order, phases)
    {
      hide Plan;
      var changes: seq<Change> := [];
      var count := 0;
      for i := 0 to |order|
        invariant Preflight(documents, order[..i], phases) == Ok(Batch(changes, count))
        invariant forall j :: i <= j < |order| ==> Place(order[j], RecordKind) in documents
      {
        assert order[..i + 1][..i] == order[..i];
        var plan := PlanBoundary(order[i], phases);
        if plan.Err? {
          RejectionSpreads(documents, order, phases, i + 1);
          return Err(plan.error);
        }
        if plan.value != [] {
          count := count + 1;
        }
        changes := changes + plan.value;
      }
      assert order[..|order|] == order;
      return Ok(Batch(changes, count));
    }

    /** Read, convert and validate one boundary without writing anything. */
    method PlanBoundary(key: Key, phases: map<string, Phase>) returns (r: Result<seq<Change>, string>)
      requires Place(key, RecordKind) in documents
      ensures r.Ok? <==> Plan(documents, key, phases).Ok?
      ensures r.Ok? ==> r == Plan(documents, key, phases)
    {
      hide InitialPhase, ChoosePhase, Converted, ConvertInventory, Recognized, AllConvertible, Changes;
      var stored := documents[Place(key, RecordKind)];
      if stored.NewRecord? && stored.record.boundary == key.boundary && stored.record.backendId == key.backend {
        return Ok([]);
      }
      if !stored.OldRecord? || stored.boundary != key.boundary || stored.backendId != key.backend {
        return Err("unexpected boundary record");
      }
      var t, s, c := Find(documents, key, TargetsKind), Find(documents, key, ReportKind),
          Find(documents, key, CredentialsKind);
      if (t.Some? && !t.value.OldTargets?) || (s.Some? && !s.value.OldReport?)
          || (c.Some? && !c.value.OldCredentials?) {
        return Err("unexpected schema");
      }
      var credentials: Option<CredentialsDocument> := None;
      if c.Some? {
        var converted := ConvertCredentials(c.value.legacyCredentials);
        if converted.Err? {
          return Err(converted.error);
        }
        credentials := Some(converted.value);
      }
      if t.Some? {
        var converted := ConvertTargets(t.value.legacyTargets);
        if converted.Err? {
          return Err(converted.error);
        }
      }
      var l := Legacy(stored.availability, if t.Some? then Some(t.value.legacyTargets) else None,
                      if s.Some? then Some(s.value.legacyReport) else None, credentials);
      assert l == ReadLegacy(documents, key, stored.availability);
      var phase := ChoosePhase(if key.boundary in phases then Some(phases[key.boundary]) else None,
                               InitialPhase(l.availability, l.targets, l.report, l.credentials));
      if phase.Err? {
        return Err(phase.error);
      }
      if !Acceptable(l, key.boundary) {
        return Err("invalid document");
      }
      return Ok(Changes(documents, key, l, BoundaryRecord(key.backend, key.boundary, l.availability, phase.value)));
    }

    /** One step of writing a backup. */
    method SaveAs(p: Place, saved: Saved)
      requires Faithful()
      modifies `backups, `history
      ensures Faithful() && backups == old(backups)[p := saved]
              && history == old(history) + [Snapshot(documents, backups)]
    {
      assert p in backups[p := saved];
      RecordedNext(start, history, Snapshot(documents, backups), Snapshot(documents, backups[p := saved]));
      backups := backups[p := saved];
      history := history + [Snapshot(documents, backups)];
    }

    /** One atomic replacement of a document. */
    method Replace(c: Change)
      requires Faithful()
      modifies `documents, `history
      ensures Faithful() && documents == Apply(old(documents), c)
              && history == old(history) + [Snapshot(documents, backups)]
    {
      assert c.place in Apply(documents, c);
      RecordedNext(start, history, Snapshot(documents, backups), Snapshot(Apply(documents, c), backups));
      documents := Apply(documents, c);
      history := history + [Snapshot(documents, backups)];
    }

    /** Copy one original unless an equal copy exists. Creation and contents are two steps. */
    method BackUp(c: Change) returns (ok: bool)
      requires c.place in documents && Faithful()
      modifies `backups, `history
      ensures Faithful()
      ensures ok <==> c.place !in old(backups) || old(backups)[c.place] == Complete(c.original)
      ensures !ok || c.place in old(backups) ==> backups == old(backups) && history == old(history)
      ensures ok && c.place !in old(backups) ==>
                && backups == old(backups)[c.place := Torn][c.place := Complete(c.original)] ==
                   old(backups)[c.place := Complete(c.original)]
                && history == old(history) + [Snapshot(documents, old(backups)[c.place := Torn]),
                                              Snapshot(documents, backups)]
    {
      if c.place in backups {
        return backups[c.place] == Complete(c.original);
      }
      SaveAs(c.place, Torn);
      SaveAs(c.place, Complete(c.original));
      return true;
    }

    /** Preflight everything, then back everything up, then convert, records last. `edited` are documents that somebody
        else changed since they were read. */
    method Migrate(order: seq<Key>, phases: map<string, Phase>, apply: bool, edited: set<Place>)
        returns (r: Result<nat, string>)
      requires Listed(documents, order)
      modifies this
      ensures r.Ok? <==>
              && Identified(markers, order, phases) && Preflight(old(documents), order, phases).Ok?
              && (apply ==> var changes := Preflight(old(documents), order, phases).value.changes;
                            Usable(changes, old(backups)) && forall c <- changes :: c.place !in edited)
      ensures r.Ok? <==>
              && markers != map[] && (forall b <- markers :: markers[b] == b)
              && (forall id <- phases :: exists k <- order :: k.boundary == id)
              && (forall k <- order :: Migratable(old(documents), k, phases))
              && (apply ==> Unblocked(old(documents), order, old(backups), edited))
      ensures r.Ok? ==> r.value == |Legacies(old(documents), order)|
      ensures r.Ok? && apply ==> AllMigrated(old(documents), order, phases, Snapshot(documents, backups))
      ensures r.Err? ==> documents == old(documents)
      ensures !apply || !Identified(markers, order, phases) || Preflight(old(documents), order, phases).Err? ==>
                documents == old(documents) && backups == old(backups) && history == []
      ensures r.Ok? ==> r.value == Preflight(old(documents), order, phases).value.count
      ensures r.Ok? && apply ==>
                var changes := Preflight(old(documents), order, phases).value.changes;
                documents == ApplyAll(old(documents), changes) && AllSaved(changes, backups)
      ensures Faithful() && start == Snapshot(old(documents), old(backups))
      ensures history != [] ==> Preflight(old(documents), order, phases).Ok?
      ensures forall i :: 0 <= i < |history| ==>
                Safe(old(documents), old(backups), Preflight(old(documents), order, phases).value.changes, history[i])
    {
      hide Preflight, Usable, AllSaved, Safe, ApplyAll, DistinctPlaces, Migratable, Legacies, Unblocked, AllMigrated;
      start, history := Snapshot(documents, backups), [];
      PreflightIsAccepted(documents, order, phases);
      if Preflight(documents, order, phases).Ok? {
        UsableMeans(documents, order, phases, backups, edited);
      }
      if !Identified(markers, order, phases) {
        return Err("workspace identity mismatch or unknown override");
      }
      var batch := PreflightAll(order, phases);
      if batch.Err? {
        return Err(batch.error);
      }
      if apply {
        ChangesAreListed(documents, order, phases);
        var ok := BackUpAll(batch.value.changes, edited);
        if !ok {
          return Err("document changed or backup differs");
        }
        ConvertAll(batch.value.changes, old(backups));
        WholeRunMigrates(old(documents), order, phases, backups);
      }
      return Ok(batch.value.count);
    }

    /** All backups are complete before the first conversion. */
    method BackUpAll(changes: seq<Change>, edited: set<Place>) returns (ok: bool)
      requires DistinctPlaces(changes) && Faithful() && forall c <- changes :: c.place in documents
      modifies `backups, `history
      ensures Faithful()
      ensures ok <==> Usable(changes, old(backups)) && forall c <- changes :: c.place !in edited
      ensures ok ==> AllSaved(changes, backups)
      ensures BackupsGrow(changes, old(backups), backups) && old(history) <= history
      ensures forall i :: |old(history)| <= i < |history| ==> Safe(documents, old(backups), changes, history[i])
    {
      hide ApplyAll, Safe, BackupsGrow, Recorded;
      GrowNothing(changes, backups);
      for i := 0 to |changes|
        invariant Faithful() && BackupsGrow(changes, old(backups), backups) && old(history) <= history
        invariant AllSaved(changes[..i], backups) && Usable(changes[..i], old(backups))
        invariant forall c <- changes[..i] :: c.place !in edited
        invariant forall j :: i <= j < |changes| ==> (changes[j].place in backups <==> changes[j].place in old(backups))
        invariant forall p <- old(backups) :: p in backups && backups[p] == old(backups)[p]
        invariant forall k :: |old(history)| <= k < |history| ==> Safe(documents, old(backups), changes, history[k])
      {
        var c := changes[i];
        assert c in changes;
        if c.place in edited {
          return false;
        }
        ghost var before := backups;
        GrowOne(documents, changes, old(backups), before, i);
        ok := BackUp(c);
        if !ok {
          return;
        }
        assert changes[..i + 1] == changes[..i] + [c];
      }
      assert changes[..|changes|] == changes;
      return true;
    }

    method ConvertAll(changes: seq<Change>, ghost originals: Backups)
      requires AllSaved(changes, backups) && BackupsGrow(changes, originals, backups) && Faithful()
      modifies `documents, `history
      ensures Faithful()
      ensures documents == ApplyAll(old(documents), changes) && old(history) <= history
      ensures forall i :: |old(history)| <= i < |history| ==> Safe(old(documents), originals, changes, history[i])
    {
      hide ApplyAll, Safe, BackupsGrow, AllSaved, Recorded;
      ApplyNothing(documents);
      assert changes[..0] == [];
      for i := 0 to |changes|
        invariant Faithful() && documents == ApplyAll(old(documents), changes[..i]) && old(history) <= history
        invariant forall k :: |old(history)| <= k < |history| ==> Safe(old(documents), originals, changes, history[k])
      {
        ApplyNext(old(documents), changes, i);
        Replace(changes[i]);
        SafeAfter(old(documents), originals, changes, history[|history| - 1], i + 1);
      }
      assert changes[..|changes|] == changes;
    }
  }
}
