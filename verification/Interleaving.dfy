/** One scan, one judge and one extract process over many boundaries, interleaving at every single read and write.
    There are no locks: a boundary belongs to whichever stage its phase names, from selection to the hand-off. */
module Interleaving {
  import opened Documents
  import opened Lifecycle
  import opened Runs
  import opened BoundaryRules
  import BoundaryOperations

  /** What a task has read and written so far; its memory is private and is never refreshed. */
  datatype View = View(record: BoundaryRecord, targets: Inventory, report: Option<Report>,
                       credentials: Option<CredentialsDocument>)

  /** How far one command has come with one boundary. Each document is read in a step of its own. */
  datatype Task =
    | Selected
    | Checked
    | HasRecord(record: BoundaryRecord)
    | HasTargets(record: BoundaryRecord, targets: Inventory)
    | HasReport(record: BoundaryRecord, targets: Inventory, report: Option<Report>)
    | Working(view: View)
    | Auditing(view: View)

  /** The writes made under one load of the boundary. */
  datatype Turn = Turn(actor: Actor, log: Trace)

  /** A boundary directory, the commands now concerned with it, and its history. */
  datatype Site = Site(disk: Disk, tasks: map<Stage, Task>, turns: seq<Turn>)

  /** A source command first takes a snapshot of every ready boundary and only then starts to work. */
  datatype Process = Snapshotting | Running

  datatype System = System(sites: map<string, Site>, processes: map<Stage, Process>)

  datatype Move =
    | Launch(stage: Stage)
    | Select(stage: Stage, b: string)
    | Begin(stage: Stage)
    | Check(stage: Stage, b: string)
    | ReadNext(stage: Stage, b: string)
    | Put(stage: Stage, b: string, write: Write)
    | Leave(stage: Stage, b: string)
    | Exit(stage: Stage)
    | Alone(b: string, turn: Turn)

  // One boundary

  /** The directory as a task remembers it; files are not remembered. */
  function Remembered(v: View, d: Disk): Disk {
    Disk(Some(v.record), Some(v.targets), v.report, v.credentials, d.files, d.datastore)
  }

  function Remember(v: View, write: Write): View {
    match write
    case PutRecord(r) => v.(record := r)
    case PutTargets(t) => v.(targets := t)
    case PutReport(r) => v.(report := Some(r))
    case PutCredentials(c) => v.(credentials := Some(c))
    case _ => v
  }

  /** The next document of a load; a missing one that the phase demands ends the task. */
  function Advanced(d: Disk, t: Task): Option<Task> {
    match t
    case Selected => None
    case Checked => if d.Live() then Some(HasRecord(d.record.value)) else None
    case HasRecord(r) => if d.targets.Some? then Some(HasTargets(r, d.targets.value)) else None
    case HasTargets(r, i) => if d.report.None? && r.phase != Scan then None else Some(HasReport(r, i, d.report))
    case HasReport(r, i, rep) =>
      if d.credentials.None? && r.phase != Scan then None
      else
        var v := View(r, i, rep, d.credentials);
        Some(if r.phase == Done then Auditing(v) else Working(v))
    case _ => None
  }

  /** A write is decided from memory alone. An ordinary command changes the phase only to hand the boundary on. */
  ghost predicate Decides(w: World, d: Disk, stage: Stage, v: View, write: Write) {
    && WorkerMay(w, Remembered(v, d), stage, write)
    && (write.PutRecord? ==> write.record.phase == Next(stage))
  }

  function Logged(turns: seq<Turn>, e: Event): seq<Turn>
    requires turns != []
  {
    var last := turns[|turns| - 1];
    turns[..|turns| - 1] + [last.(log := last.log + [e])]
  }

  function Arrive(site: Site, stage: Stage, t: Task): Site {
    site.(tasks := site.tasks[stage := t],
          turns := if t.Working? then site.turns + [Turn(Worker(stage), [])] else site.turns)
  }

  function Written(site: Site, stage: Stage, v: View, write: Write): Site
    requires site.turns != []
  {
    Site(Apply(site.disk, write),
         if write.PutRecord? then site.tasks - {stage} else site.tasks[stage := Working(Remember(v, write))],
         Logged(site.turns, Event(Worker(stage), write)))
  }

  // Sequential histories

  /** The directory after these turns. */
  function Outcome(start: Disk, turns: seq<Turn>): Disk {
    if turns == [] then start else Replay(Outcome(start, turns[..|turns| - 1]), turns[|turns| - 1].log)
  }

  /** The turns follow one another, and each is a legal run of one actor alone. */
  ghost predicate Sequential(w: World, start: Disk, turns: seq<Turn>) {
    turns != [] ==>
      var front, last := turns[..|turns| - 1], turns[|turns| - 1];
      && Sequential(w, start, front)
      && Legal(w, Outcome(start, front), last.log)
      && WrittenBy(last.log, last.actor)
  }

  lemma SequentialSnoc(w: World, start: Disk, turns: seq<Turn>, t: Turn)
    requires Sequential(w, start, turns) && Legal(w, Outcome(start, turns), t.log) && WrittenBy(t.log, t.actor)
    ensures Sequential(w, start, turns + [t]) && Outcome(start, turns + [t]) == Replay(Outcome(start, turns), t.log)
  {
    assert (turns + [t])[..|turns|] == turns;
  }

  lemma LoggedIsSequential(w: World, start: Disk, turns: seq<Turn>, e: Event)
    requires turns != [] && Sequential(w, start, turns) && e.actor == turns[|turns| - 1].actor
    requires Allowed(w, Outcome(start, turns), e)
    ensures Sequential(w, start, Logged(turns, e))
            && Outcome(start, Logged(turns, e)) == Apply(Outcome(start, turns), e.write)
  {
    hide Allowed, Apply;
    var front, last := turns[..|turns| - 1], turns[|turns| - 1];
    LegalSnoc(w, Outcome(start, front), last.log, e);
    SequentialSnoc(w, start, front, last.(log := last.log + [e]));
  }

  /** A sequential history keeps the directory consistent and takes nothing back. */
  lemma {:induction false} SequentialKeeps(w: World, start: Disk, turns: seq<Turn>)
    requires Consistent(w, start) && Sequential(w, start, turns)
    ensures Consistent(w, Outcome(start, turns)) && Evolves(start, Outcome(start, turns))
  {
    hide Consistent, Evolves, Legal;
    if turns == [] {
      EvolvesReflexive(w, start);
    } else {
      var front, last := turns[..|turns| - 1], turns[|turns| - 1];
      SequentialKeeps(w, start, front);
      RunKeeps(w, Outcome(start, front), last.log);
      EvolvesTransitive(w, start, Outcome(start, front), Outcome(start, turns));
    }
  }

  // Ownership

  /** The boundary is in the hands of this stage; done boundaries belong to the evidence audit. */
  predicate Owned(d: Disk, stage: Stage) { d.InPhase(stage) || (stage == Extract && d.InPhase(Done)) }

  predicate Shows(v: View, d: Disk) { Remembered(v, d) == d }

  /** Whatever the task has read still is what the directory holds. */
  predicate TaskSound(site: Site, stage: Stage, t: Task) {
    var d := site.disk;
    && Owned(d, stage)
    && match t {
         case Selected => true
         case Checked => true
         case HasRecord(r) => d.record == Some(r)
         case HasTargets(r, i) => d.record == Some(r) && d.targets == Some(i)
         case HasReport(r, i, rep) => d.record == Some(r) && d.targets == Some(i) && d.report == rep
         case Working(v) =>
           && d.InPhase(stage) && Shows(v, d)
           && site.turns != [] && site.turns[|site.turns| - 1].actor == Worker(stage)
         case Auditing(v) => d.InPhase(Done) && Shows(v, d)
       }
  }

  ghost predicate SiteSound(w: World, start: Disk, site: Site) {
    && Consistent(w, start) && Sequential(w, start, site.turns) && site.disk == Outcome(start, site.turns)
    && Consistent(w, site.disk)
    && forall s: Stage :: s in site.tasks ==> TaskSound(site, s, site.tasks[s])
  }

  lemma OneOwner(d: Disk, s: Stage, t: Stage)
    requires Owned(d, s) && Owned(d, t)
    ensures s == t
  {
  }

  lemma SelectKeeps(w: World, start: Disk, site: Site, stage: Stage)
    requires SiteSound(w, start, site) && site.disk.record.Some? && Eligible(site.disk, stage, false) == Ok(true)
    ensures SiteSound(w, start, site.(tasks := site.tasks[stage := Selected]))
  {
  }

  lemma ForgetKeeps(w: World, start: Disk, site: Site, stage: Stage)
    requires SiteSound(w, start, site)
    ensures SiteSound(w, start, site.(tasks := site.tasks - {stage}))
  {
  }

  /** The second look at the record never changes the decision, and a load never misses a document. */
  lemma TaskProceeds(w: World, start: Disk, site: Site, stage: Stage)
    requires SiteSound(w, start, site) && stage in site.tasks
    ensures Eligible(site.disk, stage, false) == Ok(true)
    ensures var t := site.tasks[stage];
            !t.Selected? && !t.Working? && !t.Auditing? ==> Advanced(site.disk, t).Some?
  {
  }

  lemma ReadKeeps(w: World, start: Disk, site: Site, stage: Stage, t: Task)
    requires SiteSound(w, start, site) && stage in site.tasks
    requires (site.tasks[stage].Selected? && t == Checked) || Advanced(site.disk, site.tasks[stage]) == Some(t)
    ensures SiteSound(w, start, Arrive(site, stage, t))
  {
    hide Consistent;
    var arrived := Arrive(site, stage, t);
    if t.Working? {
      LegalNone(w, site.disk);
      SequentialSnoc(w, start, site.turns, Turn(Worker(stage), []));
    }
    forall s: Stage | s in arrived.tasks
      ensures TaskSound(arrived, s, arrived.tasks[s])
    {
      assert TaskSound(site, stage, site.tasks[stage]);
      if s != stage {
        assert TaskSound(site, s, site.tasks[s]);
        OneOwner(site.disk, s, stage);
      }
    }
  }

  /** A write decided from memory is allowed on the directory as it is, because memory is current. */
  lemma WriteKeeps(w: World, start: Disk, site: Site, stage: Stage, write: Write)
    requires SiteSound(w, start, site) && stage in site.tasks && site.tasks[stage].Working?
    requires Decides(w, site.disk, stage, site.tasks[stage].view, write)
    ensures site.turns != [] && SiteSound(w, start, Written(site, stage, site.tasks[stage].view, write))
    ensures Allowed(w, site.disk, Event(Worker(stage), write))
  {
    hide Consistent, Sequential, Outcome;
    var v, e := site.tasks[stage].view, Event(Worker(stage), write);
    assert TaskSound(site, stage, site.tasks[stage]);
    StepKeeps(w, site.disk, e);
    LoggedIsSequential(w, start, site.turns, e);
    var written := Written(site, stage, v, write);
    forall s: Stage | s in written.tasks
      ensures TaskSound(written, s, written.tasks[s])
    {
      if s != stage {
        assert TaskSound(site, s, site.tasks[s]);
        OneOwner(site.disk, s, stage);
      } else {
        StaysCurrent(w, site.disk, stage, v, write);
      }
    }
  }

  lemma StaysCurrent(w: World, d: Disk, stage: Stage, v: View, write: Write)
    requires d.InPhase(stage) && Shows(v, d) && WorkerMay(w, d, stage, write) && !write.PutRecord?
    ensures Apply(d, write).InPhase(stage) && Shows(Remember(v, write), Apply(d, write))
  {
  }

  lemma AloneKeeps(w: World, start: Disk, site: Site, turn: Turn)
    requires SiteSound(w, start, site) && site.tasks == map[]
    requires Legal(w, site.disk, turn.log) && WrittenBy(turn.log, turn.actor)
    ensures SiteSound(w, start, Site(Replay(site.disk, turn.log), map[], site.turns + [turn]))
  {
    hide Consistent;
    SequentialSnoc(w, start, site.turns, turn);
    RunKeeps(w, site.disk, turn.log);
  }

  // The system

  predicate Holds(s: System, b: string, stage: Stage) { b in s.sites && stage in s.sites[b].tasks }

  /** Each move needs its process in the right state; the other guards are the tests the command makes itself.
      Inventory and explicit retries run alone, on a boundary that no command is concerned with. */
  ghost predicate Enabled(w: World, s: System, m: Move) {
    match m
    case Launch(stage) => stage !in s.processes
    case Select(stage, b) =>
        stage in s.processes && s.processes[stage].Snapshotting? && b in s.sites && s.sites[b].disk.record.Some?
    case Begin(stage) => stage in s.processes
    case Check(stage, b) =>
        stage in s.processes && s.processes[stage].Running? && Holds(s, b, stage) && s.sites[b].tasks[stage].Selected?
    case ReadNext(stage, b) => Holds(s, b, stage) && Advanced(s.sites[b].disk, s.sites[b].tasks[stage]).Some?
    case Put(stage, b, write) =>
      && Holds(s, b, stage) && s.sites[b].tasks[stage].Working? && s.sites[b].turns != []
      && Decides(w, s.sites[b].disk, stage, s.sites[b].tasks[stage].view, write)
    case Leave(stage, b) => Holds(s, b, stage)
    case Exit(stage) => stage in s.processes
    case Alone(b, turn) =>
      && b in s.sites && s.sites[b].tasks == map[]
      && Legal(w, s.sites[b].disk, turn.log) && WrittenBy(turn.log, turn.actor)
  }

  function WithSite(s: System, b: string, site: Site): System { s.(sites := s.sites[b := site]) }

  ghost function Do(w: World, s: System, m: Move): System
    requires Enabled(w, s, m)
  {
    match m
    case Launch(stage) => s.(processes := s.processes[stage := Snapshotting])
    case Select(stage, b) =>
      var site := s.sites[b];
      if Eligible(site.disk, stage, false) == Ok(true)
          then WithSite(s, b, site.(tasks := site.tasks[stage := Selected])) else s
    case Begin(stage) => s.(processes := s.processes[stage := Process.Running])
    case Check(stage, b) =>
      var site := s.sites[b];
      if Eligible(site.disk, stage, false) == Ok(true) then WithSite(s, b, Arrive(site, stage, Checked))
      else WithSite(s, b, site.(tasks := site.tasks - {stage}))
    case ReadNext(stage, b) =>
        WithSite(s, b, Arrive(s.sites[b], stage, Advanced(s.sites[b].disk, s.sites[b].tasks[stage]).value))
    case Put(stage, b, write) => WithSite(s, b, Written(s.sites[b], stage, s.sites[b].tasks[stage].view, write))
    case Leave(stage, b) => WithSite(s, b, s.sites[b].(tasks := s.sites[b].tasks - {stage}))
    case Exit(stage) =>
      System(map b | b in s.sites :: s.sites[b].(tasks := s.sites[b].tasks - {stage}), s.processes - {stage})
    case Alone(b, turn) =>
      var site := s.sites[b];
      WithSite(s, b, Site(Replay(site.disk, turn.log), map[], site.turns + [turn]))
  }

  ghost predicate Sound(w: World, starts: map<string, Disk>, s: System) {
    s.sites.Keys == starts.Keys && forall b <- s.sites :: SiteSound(w, starts[b], s.sites[b])
  }

  /** Every move of every process keeps every boundary sound. */
  lemma MoveKeeps(w: World, starts: map<string, Disk>, s: System, m: Move)
    requires Sound(w, starts, s) && Enabled(w, s, m)
    ensures Sound(w, starts, Do(w, s, m))
  {
    hide SiteSound, Eligible, Legal, Decides, Advanced, Arrive, Written;
    match m {
      case Select(stage, b) =>
        if Eligible(s.sites[b].disk, stage, false) == Ok(true) {
          SelectKeeps(w, starts[b], s.sites[b], stage);
        }
      case Check(stage, b) =>
        ForgetKeeps(w, starts[b], s.sites[b], stage);
        ReadKeeps(w, starts[b], s.sites[b], stage, Checked);
      case ReadNext(stage, b) =>
        ReadKeeps(w, starts[b], s.sites[b], stage, Advanced(s.sites[b].disk, s.sites[b].tasks[stage]).value);
      case Put(stage, b, write) => WriteKeeps(w, starts[b], s.sites[b], stage, write);
      case Leave(stage, b) => ForgetKeeps(w, starts[b], s.sites[b], stage);
      case Exit(stage) =>
        forall b | b in s.sites
          ensures SiteSound(w, starts[b], s.sites[b].(tasks := s.sites[b].tasks - {stage}))
        {
          ForgetKeeps(w, starts[b], s.sites[b], stage);
        }
      case Alone(b, turn) => AloneKeeps(w, starts[b], s.sites[b], turn);
      case _ =>
    }
  }

  // Executions

  /** Any interleaving: processes start, crash and start again, and every move is one read or one write. */
  ghost predicate Execution(w: World, states: seq<System>, moves: seq<Move>) {
    && |states| == |moves| + 1
    && forall i :: 0 <= i < |moves| ==> Enabled(w, states[i], moves[i]) && states[i + 1] == Do(w, states[i], moves[i])
  }

  ghost predicate Idle(w: World, starts: map<string, Disk>, s: System) {
    && s == System(map b | b in starts :: Site(starts[b], map[], []), map[])
    && forall b <- starts :: Consistent(w, starts[b])
  }

  lemma {:induction false} AlwaysSound(w: World, starts: map<string, Disk>, states: seq<System>, moves: seq<Move>,
                                       i: nat)
    requires Execution(w, states, moves) && Idle(w, starts, states[0]) && i <= |moves|
    ensures Sound(w, starts, states[i])
  {
    hide Consistent;
    if i > 0 {
      AlwaysSound(w, starts, states, moves, i - 1);
      MoveKeeps(w, starts, states[i - 1], moves[i - 1]);
    }
  }

  /** No boundary is ever held by two commands, from selection until the hand-off or the crash. */
  lemma OneHolder(w: World, starts: map<string, Disk>, states: seq<System>, moves: seq<Move>, i: nat, b: string,
                  s: Stage, t: Stage)
    requires Execution(w, states, moves) && Idle(w, starts, states[0]) && i <= |moves|
    requires Holds(states[i], b, s) && Holds(states[i], b, t)
    ensures s == t
  {
    hide Consistent, Enabled, Do, Idle, Sequential, Outcome;
    AlwaysSound(w, starts, states, moves, i);
    var site := states[i].sites[b];
    assert TaskSound(site, s, site.tasks[s]) && TaskSound(site, t, site.tasks[t]);
    OneOwner(site.disk, s, t);
  }

  /** Whatever happened concurrently, each boundary has a sequential history of single-stage turns, is consistent,
      and keeps everything that was published before. */
  lemma HistoriesAreSequential(w: World, starts: map<string, Disk>, states: seq<System>, moves: seq<Move>, i: nat,
                               b: string)
    requires Execution(w, states, moves) && Idle(w, starts, states[0]) && i <= |moves| && b in starts
    ensures b in states[i].sites
    ensures var site := states[i].sites[b];
            && Sequential(w, starts[b], site.turns) && site.disk == Outcome(starts[b], site.turns)
            && Consistent(w, site.disk) && Evolves(starts[b], site.disk)
  {
    hide Consistent, Enabled, Do, Idle, Sequential, Outcome, Evolves;
    AlwaysSound(w, starts, states, moves, i);
    SequentialKeeps(w, starts[b], states[i].sites[b].turns);
  }

  lemma OnlyOwnWrites(w: World, starts: map<string, Disk>, s: System, m: Move, b: string, stage: Stage)
    requires Sound(w, starts, s) && Enabled(w, s, m) && Holds(s, b, stage)
    requires !(m.Put? && m.b == b && m.stage == stage)
    ensures b in Do(w, s, m).sites && Do(w, s, m).sites[b].disk == s.sites[b].disk
  {
    hide Consistent, Sequential, Outcome, Decides, Legal, Eligible, Replay;
    if m.Put? && m.b == b {
      var site := s.sites[b];
      assert TaskSound(site, stage, site.tasks[stage]) && TaskSound(site, m.stage, site.tasks[m.stage]);
      OneOwner(site.disk, stage, m.stage);
    }
  }

  /** While a command holds a boundary no other writer touches it, so no write of an earlier owner lands after a
      later owner began to load. */
  lemma {:induction false} HeldIsUndisturbed(w: World, starts: map<string, Disk>, states: seq<System>, moves: seq<Move>,
                                             i: nat, j: nat, b: string, stage: Stage)
    requires Execution(w, states, moves) && Idle(w, starts, states[0]) && i <= j <= |moves|
    requires forall k :: i <= k < j ==>
               Holds(states[k], b, stage) && !(moves[k].Put? && moves[k].b == b && moves[k].stage == stage)
    ensures i < j ==> b in states[i].sites && b in states[j].sites && states[j].sites[b].disk == states[i].sites[b].disk
  {
    hide Sound, Idle, Enabled, Do;
    if i < j {
      HeldIsUndisturbed(w, starts, states, moves, i, j - 1, b, stage);
      AlwaysSound(w, starts, states, moves, j - 1);
      OnlyOwnWrites(w, starts, states[j - 1], moves[j - 1], b, stage);
    }
  }

  /** A task never acts on stale memory: at every moment what it has read is what the directory holds. */
  lemma MemoryIsCurrent(w: World, starts: map<string, Disk>, states: seq<System>, moves: seq<Move>, i: nat, b: string,
                        stage: Stage)
    requires Execution(w, states, moves) && Idle(w, starts, states[0]) && i <= |moves| && Holds(states[i], b, stage)
    ensures var site := states[i].sites[b];
            var t := site.tasks[stage];
            && ((t.Working? || t.Auditing?) ==> Remembered(t.view, site.disk) == site.disk)
            && (!t.Selected? && !t.Working? && !t.Auditing? ==> Advanced(site.disk, t).Some?)
            && Eligible(site.disk, stage, false) == Ok(true)
  {
    hide Consistent, Enabled, Do, Idle, Sequential, Outcome, Eligible, Advanced;
    AlwaysSound(w, starts, states, moves, i);
    var site := states[i].sites[b];
    assert TaskSound(site, stage, site.tasks[stage]);
    TaskProceeds(w, starts[b], site, stage);
  }

  lemma DiskStays(w: World, s: System, m: Move, b: string)
    requires Enabled(w, s, m) && b in s.sites && !(m.Alone? && m.b == b) && !(m.Put? && m.b == b)
    ensures b in Do(w, s, m).sites && Do(w, s, m).sites[b].disk == s.sites[b].disk
  {
    hide Decides, Legal, Eligible, Replay, Advanced, Apply, Logged;
  }

  lemma PutAdvances(w: World, start: Disk, site: Site, stage: Stage, write: Write)
    requires SiteSound(w, start, site) && stage in site.tasks && site.tasks[stage].Working?
    requires Decides(w, site.disk, stage, site.tasks[stage].view, write)
    ensures var was, now := site.disk, Apply(site.disk, write);
            && was.InPhase(stage)
            && RankOf(was) <= RankOf(now) <= RankOf(was) + 1
            && (RankOf(now) != RankOf(was) ==> write.PutRecord?)
  {
    hide Consistent, Sequential, Outcome;
    assert TaskSound(site, stage, site.tasks[stage]);
  }

  /** Ordinary commands only ever move a boundary forward, one stage at a time, and never write to a finished one. */
  lemma OrdinaryMovesAdvance(w: World, starts: map<string, Disk>, s: System, m: Move, b: string)
    requires Sound(w, starts, s) && Enabled(w, s, m) && b in s.sites && !(m.Alone? && m.b == b)
    ensures b in Do(w, s, m).sites
    ensures var was, now := s.sites[b].disk, Do(w, s, m).sites[b].disk;
            && RankOf(was) <= RankOf(now) <= RankOf(was) + 1
            && (was.InPhase(Done) ==> now == was)
            && (RankOf(now) != RankOf(was) ==> m.Put? && m.b == b && m.write.PutRecord? && was.InPhase(m.stage))
  {
    hide SiteSound, Decides, Legal, Eligible, Replay, Advanced, Apply, RankOf;
    if m.Put? && m.b == b {
      PutAdvances(w, starts[b], s.sites[b], m.stage, m.write);
    } else {
      DiskStays(w, s, m, b);
    }
  }

  lemma NotAdmitted(w: World, s: System, m: Move, b: string, stage: Stage)
    requires Enabled(w, s, m) && !Holds(s, b, stage)
    requires stage in s.processes && s.processes[stage].Running?
    ensures !Holds(Do(w, s, m), b, stage)
  {
    hide Eligible, Decides, Legal, Advanced, Apply, Replay, Logged;
  }

  /** The batch is fixed before work starts: a running process takes no boundary on that it did not select. */
  lemma {:induction false} BatchIsFixed(w: World, states: seq<System>, moves: seq<Move>, i: nat, j: nat, b: string,
                                        stage: Stage)
    requires Execution(w, states, moves) && i <= j <= |moves|
    requires forall k :: i <= k <= j ==> stage in states[k].processes && states[k].processes[stage].Running?
    requires !Holds(states[i], b, stage)
    ensures !Holds(states[j], b, stage)
  {
    hide Enabled, Do, Holds;
    if i < j {
      BatchIsFixed(w, states, moves, i, j - 1, b, stage);
      NotAdmitted(w, states[j - 1], moves[j - 1], b, stage);
    }
  }

  /** Every command of the boundary object is one turn, so it is an admissible move on a boundary nobody else holds,
      and it takes the directory where the command did. */
  lemma CommandIsTurn(b: BoundaryOperations.Boundary, s: System, id: string)
    requires b.Traced() && id in s.sites && s.sites[id].tasks == map[] && s.sites[id].disk == b.start
    ensures var m := Alone(id, Turn(b.writer, b.log));
            Enabled(b.world, s, m) && id in Do(b.world, s, m).sites && Do(b.world, s, m).sites[id].disk == b.disk
  {
    hide Consistent, Legal, WrittenBy, Replay, Ascends, Licensed;
  }

  // Ordinary commands, one read and one write at a time

  ghost function DoAll(w: World, s: System, moves: seq<Move>): System {
    if moves == [] then s
    else
      var before := DoAll(w, s, moves[..|moves| - 1]);
      if Enabled(w, before, moves[|moves| - 1]) then Do(w, before, moves[|moves| - 1]) else before
  }

  ghost predicate AllEnabled(w: World, s: System, moves: seq<Move>) {
    moves != [] ==>
      && AllEnabled(w, s, moves[..|moves| - 1])
      && Enabled(w, DoAll(w, s, moves[..|moves| - 1]), moves[|moves| - 1])
  }

  lemma DoNext(w: World, s: System, moves: seq<Move>, m: Move)
    requires AllEnabled(w, s, moves) && Enabled(w, DoAll(w, s, moves), m)
    ensures AllEnabled(w, s, moves + [m]) && DoAll(w, s, moves + [m]) == Do(w, DoAll(w, s, moves), m)
  {
    hide Enabled, Do;
    assert (moves + [m])[..|moves|] == moves;
  }

  lemma {:induction false} DoConcat(w: World, s: System, a: seq<Move>, b: seq<Move>)
    requires AllEnabled(w, s, a) && AllEnabled(w, DoAll(w, s, a), b)
    ensures AllEnabled(w, s, a + b) && DoAll(w, s, a + b) == DoAll(w, DoAll(w, s, a), b)
  {
    hide Enabled, Do;
    if b == [] {
      assert a + b == a;
    } else {
      var init, last := b[..|b| - 1], b[|b| - 1];
      DoConcat(w, s, a, init);
      assert a + b == (a + init) + [last];
      DoNext(w, s, a + init, last);
    }
  }

  /** Selection, the second look, and the four documents of a load. */
  function Opening(stage: Stage, b: string): seq<Move> {
    [Launch(stage), Select(stage, b), Begin(stage), Check(stage, b)]
    + [ReadNext(stage, b), ReadNext(stage, b), ReadNext(stage, b), ReadNext(stage, b)]
  }

  function Puts(stage: Stage, b: string, log: Trace): (moves: seq<Move>)
    ensures |moves| == |log|
  {
    if log == [] then []
    else Puts(stage, b, log[..|log| - 1]) + [Put(stage, b, log[|log| - 1].write)]
  }

  /** The boundary and the task of this stage on it, if there is one. */
  ghost predicate Stands(s: System, b: string, stage: Stage, disk: Disk, task: Option<Task>, turns: seq<Turn>) {
    && b in s.sites && s.sites[b].disk == disk && s.sites[b].turns == turns
    && s.sites[b].tasks == if task.Some? then map[stage := task.value] else map[]
  }

  ghost predicate IsRunning(s: System, stage: Stage) { stage in s.processes && s.processes[stage].Running? }

  lemma OpeningSelects(w: World, s: System, b: string, stage: Stage, turns: seq<Turn>, d: Disk)
    requires stage !in s.processes && Stands(s, b, stage, d, None, turns) && d.InPhase(stage)
    ensures var moves := [Launch(stage), Select(stage, b), Begin(stage), Check(stage, b)];
            && AllEnabled(w, s, moves)
            && IsRunning(DoAll(w, s, moves), stage) && Stands(DoAll(w, s, moves), b, stage, d, Some(Checked), turns)
  {
    hide Decides, Advanced, Legal;
    var a, m := Launch(stage), Select(stage, b);
    assert DoAll(w, s, []) == s && AllEnabled(w, s, []);
    DoNext(w, s, [], a);
    assert [] + [a] == [a];
    DoNext(w, s, [a], m);
    assert [a] + [m] == [a, m];
    DoNext(w, s, [a, m], Begin(stage));
    assert [a, m] + [Begin(stage)] == [a, m, Begin(stage)];
    DoNext(w, s, [a, m, Begin(stage)], Check(stage, b));
    assert [a, m, Begin(stage)] + [Check(stage, b)] == [a, m, Begin(stage), Check(stage, b)];
  }

  lemma ReadsNext(w: World, s: System, b: string, stage: Stage, d: Disk, t: Task, turns: seq<Turn>, moves: seq<Move>)
    requires AllEnabled(w, s, moves) && Stands(DoAll(w, s, moves), b, stage, d, Some(t), turns) && Advanced(d, t).Some?
    ensures AllEnabled(w, s, moves + [ReadNext(stage, b)])
    ensures var next := Advanced(d, t).value;
            Stands(DoAll(w, s, moves + [ReadNext(stage, b)]), b, stage, d, Some(next),
                   if next.Working? then turns + [Turn(Worker(stage), [])] else turns)
  {
    hide Advanced, AllEnabled, DoAll;
    DoNext(w, s, moves, ReadNext(stage, b));
  }

  /** The view of a task that has just loaded a boundary in the phase of its stage. */
  function Loaded(d: Disk): View
    requires d.record.Some? && d.targets.Some?
  {
    View(d.record.value, d.targets.value, d.report, d.credentials)
  }

  lemma OpeningLoads(w: World, s: System, b: string, stage: Stage, turns: seq<Turn>, d: Disk)
    requires stage !in s.processes && Stands(s, b, stage, d, None, turns) && d.InPhase(stage) && Consistent(w, d)
    ensures d.targets.Some? && AllEnabled(w, s, Opening(stage, b))
    ensures Stands(DoAll(w, s, Opening(stage, b)), b, stage, d, Some(Working(Loaded(d))),
                   turns + [Turn(Worker(stage), [])])
  {
    hide AllEnabled, DoAll, Stands;
    var read := ReadNext(stage, b);
    var moves := [Launch(stage), Select(stage, b), Begin(stage), Check(stage, b)];
    OpeningSelects(w, s, b, stage, turns, d);
    var r := d.record.value;
    ReadsNext(w, s, b, stage, d, Checked, turns, moves);
    ReadsNext(w, s, b, stage, d, HasRecord(r), turns, moves + [read]);
    ReadsNext(w, s, b, stage, d, HasTargets(r, d.targets.value), turns, moves + [read] + [read]);
    ReadsNext(w, s, b, stage, d, HasReport(r, d.targets.value, d.report), turns, moves + [read] + [read] + [read]);
    assert moves + [read] + [read] + [read] + [read] == Opening(stage, b);
  }

  /** After these writes the boundary is handed on, or the task is at work with current memory. */
  ghost predicate Played(s: System, b: string, stage: Stage, d: Disk, log: Trace, turns: seq<Turn>) {
    var now, seen := Replay(d, log), turns + [Turn(Worker(stage), log)];
    if log != [] && log[|log| - 1].write.PutRecord? then
      Stands(s, b, stage, now, None, seen) && now.InPhase(Next(stage))
    else
      exists v :: Stands(s, b, stage, now, Some(Working(v)), seen) && Shows(v, now) && now.InPhase(stage)
  }

  lemma PutPlays(w: World, s: System, b: string, stage: Stage, d: Disk, log: Trace, turns: seq<Turn>, e: Event)
    requires Played(s, b, stage, d, log, turns) && e.actor == Worker(stage)
    requires Allowed(w, Replay(d, log), e) && Forward(Replay(d, log), e)
    ensures Enabled(w, s, Put(stage, b, e.write))
    ensures Played(Do(w, s, Put(stage, b, e.write)), b, stage, d, log + [e], turns)
  {
    hide Replay, Apply, Allowed, Forward, Enabled, Do, Stands, Shows;
    var now := Replay(d, log);
    var seen := turns + [Turn(Worker(stage), log)];
    NextReplay(d, log, e);
    if log != [] && log[|log| - 1].write.PutRecord? {
      NoWriteAfterHandOff(w, now, stage, e);
    } else {
      var v :| Stands(s, b, stage, now, Some(Working(v)), seen) && Shows(v, now) && now.InPhase(stage);
      assert seen[..|seen| - 1] == turns;
      assert Logged(seen, e) == turns + [Turn(Worker(stage), log + [e])];
      PutStep(w, s, b, stage, now, v, seen, e);
    }
  }

  lemma PutStep(w: World, s: System, b: string, stage: Stage, d: Disk, v: View, turns: seq<Turn>, e: Event)
    requires Stands(s, b, stage, d, Some(Working(v)), turns) && Shows(v, d) && d.InPhase(stage) && turns != []
    requires e.actor == Worker(stage) && Allowed(w, d, e) && Forward(d, e)
    ensures Enabled(w, s, Put(stage, b, e.write))
    ensures var next, now := Do(w, s, Put(stage, b, e.write)), Apply(d, e.write);
            if e.write.PutRecord? then
              Stands(next, b, stage, now, None, Logged(turns, e)) && now.InPhase(Next(stage))
            else
              && Stands(next, b, stage, now, Some(Working(Remember(v, e.write))), Logged(turns, e))
              && Shows(Remember(v, e.write), now) && now.InPhase(stage)
  {
    hide Apply, WorkerMay, Logged;
    if e.write.PutRecord? {
      HandsOn(w, d, stage, e);
    } else {
      StaysCurrent(w, d, stage, v, e.write);
    }
  }

  lemma NextReplay(d: Disk, log: Trace, e: Event)
    ensures Replay(d, log + [e]) == Apply(Replay(d, log), e.write)
  {
    assert (log + [e])[..|log|] == log;
  }

  lemma HandsOn(w: World, d: Disk, stage: Stage, e: Event)
    requires e.actor == Worker(stage) && Allowed(w, d, e) && Forward(d, e) && e.write.PutRecord?
    ensures Apply(d, e.write).InPhase(Next(stage))
  {
  }

  lemma NoWriteAfterHandOff(w: World, d: Disk, stage: Stage, e: Event)
    requires d.InPhase(Next(stage)) && e.actor == Worker(stage) && Forward(d, e)
    ensures !Allowed(w, d, e)
  {
  }

  lemma {:induction false} LogPlays(w: World, s: System, b: string, stage: Stage, d: Disk, log: Trace, turns: seq<Turn>)
    requires Played(s, b, stage, d, [], turns)
    requires Legal(w, d, log) && WrittenBy(log, Worker(stage)) && Ascends(d, log)
    ensures AllEnabled(w, s, Puts(stage, b, log))
    ensures Played(DoAll(w, s, Puts(stage, b, log)), b, stage, d, log, turns)
  {
    hide Played, Enabled, Do, Allowed, Forward, Replay, Puts, DoAll, AllEnabled;
    if log == [] {
      PutsNothing(w, s, stage, b);
    } else {
      var init, last := log[..|log| - 1], log[|log| - 1];
      assert init + [last] == log;
      WrittenByPrefix(init, last, Worker(stage));
      LogPlays(w, s, b, stage, d, init, turns);
      PutPlays(w, DoAll(w, s, Puts(stage, b, init)), b, stage, d, init, turns, last);
      DoNext(w, s, Puts(stage, b, init), Put(stage, b, last.write));
      PutsNext(stage, b, init, last);
    }
  }

  lemma PutsNothing(w: World, s: System, stage: Stage, b: string)
    ensures Puts(stage, b, []) == [] && AllEnabled(w, s, []) && DoAll(w, s, []) == s
  {
  }

  lemma PutsNext(stage: Stage, b: string, log: Trace, e: Event)
    ensures Puts(stage, b, log + [e]) == Puts(stage, b, log) + [Put(stage, b, e.write)]
  {
    assert (log + [e])[..|log|] == log;
  }

  lemma WrittenByPrefix(init: Trace, last: Event, actor: Actor)
    requires WrittenBy(init + [last], actor)
    ensures WrittenBy(init, actor) && last.actor == actor
  {
    assert forall e <- init :: e in init + [last];
    assert last in init + [last];
  }

  /** An ordinary command, step by step: from selection through the four reads every write of its log is one that the
      protocol lets a task decide from its own memory, up to the hand-off. */
  lemma OrdinaryCommandPlays(c: BoundaryOperations.Boundary, s: System, b: string, stage: Stage, failed: bool)
    requires c.Traced() && c.command == Source(stage, failed) && !Licensed(c.start, c.command)
    requires c.start.InPhase(stage) && stage !in s.processes
    requires b in s.sites && s.sites[b].tasks == map[] && s.sites[b].disk == c.start
    ensures var moves := Opening(stage, b) + Puts(stage, b, c.log);
            && AllEnabled(c.world, s, moves)
            && Played(DoAll(c.world, s, moves), b, stage, c.start, c.log, s.sites[b].turns)
            && DoAll(c.world, s, moves).sites[b].disk == c.disk
  {
    hide Consistent, Legal, Licensed, Ascends, AllEnabled, DoAll, Puts, Opening, Replay;
    var turns := s.sites[b].turns;
    OpeningLoads(c.world, s, b, stage, turns, c.start);
    var loaded := DoAll(c.world, s, Opening(stage, b));
    LegalNone(c.world, c.start);
    assert Shows(Loaded(c.start), c.start);
    assert Played(loaded, b, stage, c.start, [], turns);
    LogPlays(c.world, loaded, b, stage, c.start, c.log, turns);
    DoConcat(c.world, s, Opening(stage, b), Puts(stage, b, c.log));
  }
}
