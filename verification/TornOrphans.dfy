/** How a boundary comes to be obstructed for ever: a crash between the link and the removal of the temporary name,
    then an attempt that is stopped after it opened that name, which empties the linked bytes too. */
module TornOrphans {
  import opened Documents
  import opened Evidence
  import opened Lifecycle
  import opened Runs
  import opened BoundaryRules

  ghost predicate Reached(w: World, d: Disk) {
    exists t: Trace :: Legal(w, EMPTY, t) && Replay(EMPTY, t) == d
  }

  lemma ReachedNext(w: World, d: Disk, e: Event)
    requires Reached(w, d) && Allowed(w, d, e)
    ensures Reached(w, Apply(d, e.write))
  {
    hide Allowed, Apply, Legal, Replay;
    var t: Trace :| Legal(w, EMPTY, t) && Replay(EMPTY, t) == d;
    LegalSnoc(w, EMPTY, t, e);
  }

  lemma ReachedNothing(w: World)
    ensures Reached(w, EMPTY)
  {
    assert Legal(w, EMPTY, []) && Replay(EMPTY, []) == EMPTY;
  }

  // One boundary with one credential, judged valid

  const TARGETS := Inventory(0, "boundary", map[], [])
  const REPORT := Report("boundary", "stamp", [], [])

  function RecordIn(phase: Phase): BoundaryRecord { BoundaryRecord("backend", "boundary", Available, phase) }

  function Found(locator: string): Credential {
    Credential("id", None, [locator], FRESH_JUDGMENT, FRESH_EXTRACTION)
  }

  function Ruled(locator: string): Credential {
    Found(locator).(judgment := Judgment(JudgmentStatus.Completed, Some(IsValid), "", None))
  }

  function History(c: Credential): CredentialsDocument {
    CredentialsDocument("boundary", "stamp", map["id" := c], [])
  }

  function Ready(locator: string): Disk {
    EMPTY.(record := Some(RecordIn(Extract)), targets := Some(TARGETS), report := Some(REPORT),
           credentials := Some(History(Ruled(locator))))
  }

  lemma ScanIsReached(w: World)
    ensures Reached(w, EMPTY.(record := Some(RecordIn(Scan)), targets := Some(TARGETS), report := Some(REPORT)))
  {
    hide Reached;
    ReachedNothing(w);
    ReachedNext(w, EMPTY, Event(Inventorist, PutTargets(TARGETS)));
    var listed := EMPTY.(targets := Some(TARGETS));
    ReachedNext(w, listed, Event(Inventorist, PutRecord(RecordIn(Scan))));
    var enrolled := listed.(record := Some(RecordIn(Scan)));
    ReachedNext(w, enrolled, Event(Worker(Scan), PutReport(REPORT)));
  }

  lemma ReadyIsReached(w: World, locator: string)
    requires locator != ""
    ensures Reached(w, Ready(locator))
  {
    hide Reached;
    ScanIsReached(w);
    var scanned := EMPTY.(record := Some(RecordIn(Scan)), targets := Some(TARGETS), report := Some(REPORT));
    assert |"id"| > 0;
    ReachedNext(w, scanned, Event(Worker(Scan), PutCredentials(History(Found(locator)))));
    var published := scanned.(credentials := Some(History(Found(locator))));
    ReachedNext(w, published, Event(Worker(Scan), PutRecord(RecordIn(Judge))));
    var handed := published.(record := Some(RecordIn(Judge)));
    ReachedNext(w, handed, Event(Worker(Judge), PutCredentials(History(Ruled(locator)))));
    var judged := handed.(credentials := Some(History(Ruled(locator))));
    ReachedNext(w, judged, Event(Worker(Judge), PutRecord(RecordIn(Extract))));
  }

  // Two stopped attempts

  /** A directory may be reached, without any fault of its documents, in which a fault-free extraction always raises. */
  lemma TornOrphanIsReached(w: World, locator: string)
    requires locator != "" && Plain(w.fileName(locator)) && w.content(locator) != []
    ensures exists d :: Reached(w, d) && d.InPhase(Extract) && Obstructed(w, d)
  {
    hide Reached, Home, Temporary, Plain;
    var d := Ready(locator);
    var p := EvidencePath(w, Ruled(locator));
    var t := Temporary(p);
    TemporaryDiffers(p);
    ReadyIsReached(w, locator);
    var none: Bytes := [];
    var content := w.content(locator);
    assert map[0 := none][0 := content] == map[0 := content] && map[0 := content][0 := none] == map[0 := none];
    assert map[t := 0][p := 0] == map[t := 0, p := 0];
    FileStep(w, locator, EMPTY.files, Truncate(t, 0));
    FileStep(w, locator, Files(map[t := 0], map[0 := none]), Fill(t, content));
    FileStep(w, locator, Files(map[t := 0], map[0 := content]), Link(t, p));
    FileStep(w, locator, Files(map[t := 0, p := 0], map[0 := content]), Truncate(t, 1));
    FileStep(w, locator, Files(map[t := 0, p := 0], map[0 := none]), Unlink(t));
    var torn := d.(files := Files(map[p := 0], map[0 := none]));
    assert map[t := 0, p := 0] - {t} == map[p := 0];
    ObstructedBy(w, torn, "id");
  }

  lemma FileStep(w: World, locator: string, files: Files, op: FileOp)
    requires locator != "" && Plain(w.fileName(locator)) && Reached(w, Ready(locator).(files := files))
    requires OperatesOn(files, EvidencePath(w, Ruled(locator)), op)
    ensures Reached(w, Ready(locator).(files := Operate(files, op)))
  {
    hide Reached, Home, Temporary, Plain, OperatesOn, Operate;
    ReachedNext(w, Ready(locator).(files := files), Event(Worker(Extract), File("id", op)));
  }
}
