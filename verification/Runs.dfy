/** Whole runs of the protocol: any number of commands, each of which may stop between any two of its writes. */
module Runs {
  import opened Documents
  import opened CredentialMerge
  import opened Lifecycle

  type Trace = seq<Event>

  function Replay(d: Disk, t: Trace): Disk {
    if t == [] then d else Apply(Replay(d, t[..|t| - 1]), t[|t| - 1].write)
  }

  ghost predicate Legal(w: World, d: Disk, t: Trace) {
    t != [] ==>
      && Legal(w, d, t[..|t| - 1])
      && Allowed(w, Replay(d, t[..|t| - 1]), t[|t| - 1])
  }

  /** All these writes are made by one actor. */
  ghost predicate WrittenBy(t: Trace, actor: Actor) { forall e <- t :: e.actor == actor }

  lemma WrittenByNext(t: Trace, e: Event, actor: Actor)
    requires WrittenBy(t, actor) && e.actor == actor
    ensures WrittenBy(t + [e], actor)
  {
  }

  lemma LegalSnoc(w: World, d: Disk, t: Trace, e: Event)
    requires Legal(w, d, t) && Allowed(w, Replay(d, t), e)
    ensures Legal(w, d, t + [e]) && Replay(d, t + [e]) == Apply(Replay(d, t), e.write)
  {
    assert (t + [e])[..|t|] == t;
  }

  /** Whatever was written so far was legal: a crash turns a run into one of its prefixes. */
  lemma {:induction false} LegalPrefix(w: World, d: Disk, t: Trace, k: nat)
    requires Legal(w, d, t) && k <= |t|
    ensures Legal(w, d, t[..k])
  {
    if k < |t| {
      LegalPrefix(w, d, t[..|t| - 1], k);
      assert t[..|t| - 1][..k] == t[..k];
    } else {
      assert t[..k] == t;
    }
  }

  lemma {:induction false} LegalConcat(w: World, d: Disk, s: Trace, t: Trace)
    requires Legal(w, d, s) && Legal(w, Replay(d, s), t)
    ensures Legal(w, d, s + t) && Replay(d, s + t) == Replay(Replay(d, s), t)
  {
    if t == [] {
      assert s + t == s;
    } else {
      var init, last := t[..|t| - 1], t[|t| - 1];
      LegalConcat(w, d, s, init);
      assert s + t == (s + init) + [last];
      LegalSnoc(w, d, s + init, last);
    }
  }

  lemma EvolvesTransitive(w: World, a: Disk, b: Disk, c: Disk)
    requires Evolves(a, b) && Evolves(b, c)
    ensures Evolves(a, c)
  {
    var x, y, z := CredentialsOf(a), CredentialsOf(b), CredentialsOf(c);
    forall id | id in x
      ensures id in z && CredentialEvolves(x[id], z[id])
      ensures x[id].extraction.status.Retained? ==> BytesStay(a.files, c.files, x[id].extraction.outputPath)
    {
      assert CredentialEvolves(x[id], y[id]) && CredentialEvolves(y[id], z[id]);
    }
  }

  /** The disk is consistent after every single write of every legal run, and nothing published is ever taken back. */
  lemma {:induction false} RunKeeps(w: World, d: Disk, t: Trace)
    requires Consistent(w, d) && Legal(w, d, t)
    ensures Consistent(w, Replay(d, t)) && Evolves(d, Replay(d, t))
  {
    if t == [] {
      EvolvesReflexive(w, d);
    } else {
      var init, last := t[..|t| - 1], t[|t| - 1];
      RunKeeps(w, d, init);
      StepKeeps(w, Replay(d, init), last);
      EvolvesTransitive(w, d, Replay(d, init), Replay(d, t));
    }
  }

  lemma EvolvesReflexive(w: World, d: Disk)
    requires Consistent(w, d)
    ensures Evolves(d, d)
  {
    forall id | id in CredentialsOf(d)
      ensures CredentialsOf(d)[id].extraction.status.Retained? ==>
                BytesStay(d.files, d.files, CredentialsOf(d)[id].extraction.outputPath)
    {
      assert CredentialSound(w, d.files, CredentialsOf(d)[id]);
    }
  }

  lemma EmptyConsistent(w: World)
    ensures Consistent(w, EMPTY)
  {
  }

  lemma {:induction false} ReplayFrom(d: Disk, t: Trace, i: nat)
    requires i <= |t|
    ensures Replay(Replay(d, t[..i]), t[i..]) == Replay(d, t)
  {
    if i == |t| {
      assert t[..i] == t && t[i..] == [];
    } else {
      var init := t[..|t| - 1];
      ReplayFrom(d, init, i);
      assert init[..i] == t[..i] && t[i..][..|t| - 1 - i] == init[i..];
    }
  }

  lemma {:induction false} LegalFrom(w: World, d: Disk, t: Trace, i: nat)
    requires i <= |t| && Legal(w, d, t)
    ensures Legal(w, Replay(d, t[..i]), t[i..])
  {
    if i < |t| {
      var init := t[..|t| - 1];
      LegalFrom(w, d, init, i);
      ReplayFrom(d, init, i);
      assert init[..i] == t[..i] && t[i..] == init[i..] + [t[|t| - 1]];
      LegalSnoc(w, Replay(d, t[..i]), init[i..], t[|t| - 1]);
    }
  }

  // Commands that crash

  /** One command: the writes it would make, and how many of them reached the disk before it stopped. */
  datatype Invocation = Invocation(log: Trace, survived: nat)

  function After(d: Disk, commands: seq<Invocation>): Disk {
    if commands == [] then d
    else
      var last, before := commands[|commands| - 1], After(d, commands[..|commands| - 1]);
      Replay(before, if last.survived <= |last.log| then last.log[..last.survived] else last.log)
  }

  ghost predicate Session(w: World, d: Disk, commands: seq<Invocation>) {
    commands != [] ==>
      && Session(w, d, commands[..|commands| - 1])
      && Legal(w, After(d, commands[..|commands| - 1]), commands[|commands| - 1].log)
  }

  function Surviving(commands: seq<Invocation>): Trace {
    if commands == [] then []
    else
      var last := commands[|commands| - 1];
      Surviving(commands[..|commands| - 1]) + if last.survived <= |last.log|
          then last.log[..last.survived] else last.log
  }

  /** Commands that crash and restart leave the writes of one legal run. */
  lemma {:induction false} SessionIsRun(w: World, d: Disk, commands: seq<Invocation>)
    requires Session(w, d, commands)
    ensures Legal(w, d, Surviving(commands)) && Replay(d, Surviving(commands)) == After(d, commands)
  {
    if commands != [] {
      var front, last := commands[..|commands| - 1], commands[|commands| - 1];
      SessionIsRun(w, d, front);
      var kept := if last.survived <= |last.log| then last.log[..last.survived] else last.log;
      LegalPrefix(w, After(d, front), last.log, if last.survived <= |last.log| then last.survived else |last.log|);
      assert last.log[..|last.log|] == last.log;
      LegalConcat(w, d, Surviving(front), kept);
    }
  }

  /** From an empty directory, after any commands crashing anywhere, and at any point of the next one, the directory
      is consistent and keeps everything that was published at any earlier point. */
  lemma CrashConsistency(w: World, commands: seq<Invocation>, i: nat, j: nat)
    requires Session(w, EMPTY, commands) && i <= j <= |Surviving(commands)|
    ensures var now, later := Replay(EMPTY, Surviving(commands)[..i]), Replay(EMPTY, Surviving(commands)[..j]);
            Consistent(w, now) && Consistent(w, later) && Evolves(now, later)
  {
    var t := Surviving(commands);
    SessionIsRun(w, EMPTY, commands);
    EmptyConsistent(w);
    LegalPrefix(w, EMPTY, t, j);
    LegalPrefix(w, EMPTY, t, i);
    RunKeeps(w, EMPTY, t[..i]);
    RunKeeps(w, EMPTY, t[..j]);
    LegalFrom(w, EMPTY, t[..j], i);
    assert t[..j][..i] == t[..i];
    ReplayFrom(EMPTY, t[..j], i);
    RunKeeps(w, Replay(EMPTY, t[..i]), t[..j][i..]);
  }

  // Consequences over runs

  /** Evidence is taken from one occurrence for ever, and its bytes stay with the recorded size and digest. */
  lemma EvidenceForEver(w: World, d: Disk, t: Trace, id: string)
    requires Consistent(w, d) && Legal(w, d, t) && id in CredentialsOf(d)
    ensures var d' := Replay(d, t);
            && id in CredentialsOf(d')
            && var c, c' := CredentialsOf(d)[id], CredentialsOf(d')[id];
               && c.occurrences != [] && c'.occurrences != [] && c.occurrences[0] == c'.occurrences[0]
               && (c.extraction.status.Retained? ==>
                     && c'.extraction == c.extraction
                     && var p := c.extraction.outputPath.value;
                        && d'.files.Has(p) && d'.files.Read(p) == d.files.Read(p)
                        && c.extraction.size == Some(|d'.files.Read(p)|)
                        && c.extraction.sha256 == Some(w.hash(d'.files.Read(p))))
  {
    RunKeeps(w, d, t);
    var c, c' := CredentialsOf(d)[id], CredentialsOf(Replay(d, t))[id];
    assert CredentialSound(w, d.files, c) && CredentialEvolves(c, c');
  }

  /** Retained credentials never share a file. */
  lemma EvidenceIsDisjoint(w: World, d: Disk, a: string, b: string)
    requires Consistent(w, d) && a in CredentialsOf(d) && b in CredentialsOf(d) && a != b
    requires CredentialsOf(d)[a].extraction.status.Retained? && CredentialsOf(d)[b].extraction.status.Retained?
    ensures CredentialsOf(d)[a].extraction.outputPath != CredentialsOf(d)[b].extraction.outputPath
  {
    var all := CredentialsOf(d);
    assert CredentialSound(w, d.files, all[a]) && CredentialSound(w, d.files, all[b]);
    PathsApart(w, all[a], all[b]);
  }

  predicate IsScanned(d: Disk, id: string) {
    d.targets.Some? && id in d.targets.value.targets && d.targets.value.targets[id].result.status.Scanned?
  }

  predicate Knows(d: Disk, id: string) { d.targets.Some? && id in d.targets.value.targets }

  /** A scanned target that stays in every inventory keeps its result: it is never run again. */
  lemma {:induction false} ScannedOnce(w: World, d: Disk, t: Trace, id: string)
    requires Legal(w, d, t) && IsScanned(d, id)
    requires forall k :: 0 <= k <= |t| ==> Knows(Replay(d, t[..k]), id)
    ensures Knows(Replay(d, t), id)
    ensures Replay(d, t).targets.value.targets[id].result == d.targets.value.targets[id].result
  {
    if t != [] {
      var init, last := t[..|t| - 1], t[|t| - 1];
      forall k | 0 <= k <= |init| ensures Knows(Replay(d, init[..k]), id) {
        assert init[..k] == t[..k];
      }
      ScannedOnce(w, d, init, id);
      assert t[..|t|] == t;
    }
  }

  function RankOf(d: Disk): nat { if d.record.Some? then d.record.value.phase.Rank() else 0 }

  // Where the phase may go

  /** A command: a source stage, perhaps retrying failures, or a refresh and the target IDs that it found. */
  datatype Command = Source(stage: Stage, failed: bool) | Refresh(found: Option<set<string>>)

  function ActorOf(c: Command): Actor {
    match c
    case Source(stage, _) => Worker(stage)
    case Refresh(_) => Inventorist
  }

  /** A command may take the phase back only to retry a failure that its stage had saved, or because discovery found
      other targets than an available boundary had, or found an unavailable boundary again. */
  ghost predicate Licensed(d: Disk, c: Command) {
    match c
    case Source(stage, failed) => failed && d.SavedFailure(stage)
    case Refresh(found) => found.Some? && !(d.Live() && d.targets.Some? && d.targets.value.targets.Keys == found.value)
  }

  /** The write does not take the phase back; a source command writes its record only to hand the boundary on. */
  predicate Forward(d: Disk, e: Event) {
    e.write.PutRecord? ==>
      match e.actor
      case Worker(stage) => e.write.record.phase == Next(stage)
      case Inventorist => RankOf(d) <= e.write.record.phase.Rank()
  }

  ghost predicate Ascends(d: Disk, t: Trace) {
    t != [] ==> Ascends(d, t[..|t| - 1]) && Forward(Replay(d, t[..|t| - 1]), t[|t| - 1])
  }

  /** The writes of this command from this directory. */
  ghost predicate Obeys(w: World, d: Disk, c: Command, t: Trace) {
    Legal(w, d, t) && WrittenBy(t, ActorOf(c)) && (Licensed(d, c) || Ascends(d, t))
  }

  lemma ObeysNothing(w: World, d: Disk, c: Command)
    ensures Obeys(w, d, c, []) && Replay(d, []) == d
  {
  }

  lemma ObeysNext(w: World, d: Disk, c: Command, t: Trace, e: Event)
    requires Obeys(w, d, c, t) && e.actor == ActorOf(c) && Allowed(w, Replay(d, t), e)
    requires Licensed(d, c) || Forward(Replay(d, t), e)
    ensures Obeys(w, d, c, t + [e]) && Replay(d, t + [e]) == Apply(Replay(d, t), e.write)
  {
    hide Allowed, Licensed, Forward, Apply;
    LegalSnoc(w, d, t, e);
    WrittenByNext(t, e, ActorOf(c));
    assert (t + [e])[..|t|] == t;
  }

  lemma ForwardRaises(w: World, d: Disk, e: Event)
    requires Allowed(w, d, e) && Forward(d, e)
    ensures RankOf(d) <= RankOf(Apply(d, e.write))
  {
  }

  /** An ascending run never has a lower phase later than a higher one. */
  lemma {:induction false} AscendsMeans(w: World, d: Disk, t: Trace, i: nat, j: nat)
    requires Legal(w, d, t) && Ascends(d, t) && i <= j <= |t|
    ensures RankOf(Replay(d, t[..i])) <= RankOf(Replay(d, t[..j]))
  {
    hide Allowed, Forward, RankOf, Apply;
    if j < |t| {
      var init := t[..|t| - 1];
      AscendsMeans(w, d, init, i, j);
      assert init[..i] == t[..i] && init[..j] == t[..j];
    } else if i < j {
      var init := t[..|t| - 1];
      AscendsMeans(w, d, init, i, |init|);
      assert init[..i] == t[..i] && init[..|init|] == init && t[..|t|] == t;
      ForwardRaises(w, Replay(d, init), t[|t| - 1]);
    }
  }

  /** A command that lowers the phase at any point was licensed by the directory it started from. */
  lemma LoweringIsLicensed(w: World, d: Disk, c: Command, t: Trace, i: nat, j: nat)
    requires Obeys(w, d, c, t) && i <= j <= |t|
    requires RankOf(Replay(d, t[..j])) < RankOf(Replay(d, t[..i]))
    ensures Licensed(d, c)
  {
    hide Legal, Licensed, Ascends, RankOf, Replay;
    if !Licensed(d, c) {
      AscendsMeans(w, d, t, i, j);
    }
  }

  lemma {:induction false} AscendsPrefix(d: Disk, t: Trace, k: nat)
    requires Ascends(d, t) && k <= |t|
    ensures Ascends(d, t[..k])
  {
    if k < |t| {
      AscendsPrefix(d, t[..|t| - 1], k);
      assert t[..|t| - 1][..k] == t[..k];
    } else {
      assert t[..k] == t;
    }
  }

  lemma {:induction false} AscendsConcat(w: World, d: Disk, s: Trace, t: Trace)
    requires Legal(w, d, s) && Legal(w, Replay(d, s), t) && Ascends(d, s) && Ascends(Replay(d, s), t)
    ensures Ascends(d, s + t)
  {
    hide Allowed, Forward;
    if t == [] {
      assert s + t == s;
    } else {
      var init, last := t[..|t| - 1], t[|t| - 1];
      AscendsConcat(w, d, s, init);
      LegalConcat(w, d, s, init);
      assert (s + t)[..|s + t| - 1] == s + init;
    }
  }

  ghost predicate Unlicensed(w: World, d: Disk, commands: seq<Invocation>, named: seq<Command>) {
    && |named| == |commands|
    && forall i :: 0 <= i < |commands| ==>
         && Obeys(w, After(d, commands[..i]), named[i], commands[i].log)
         && !Licensed(After(d, commands[..i]), named[i])
  }

  /** A session of unlicensed commands, crashing anywhere, never lowers the phase. */
  lemma {:induction false} SessionAscends(w: World, d: Disk, commands: seq<Invocation>, named: seq<Command>)
    requires Session(w, d, commands) && Unlicensed(w, d, commands, named)
    ensures Legal(w, d, Surviving(commands)) && Ascends(d, Surviving(commands))
    ensures forall i, j :: 0 <= i <= j <= |Surviving(commands)| ==>
              RankOf(Replay(d, Surviving(commands)[..i])) <= RankOf(Replay(d, Surviving(commands)[..j]))
  {
    hide Legal, Licensed, RankOf, Replay, Ascends;
    SessionIsRun(w, d, commands);
    SurvivorsAscend(w, d, commands, named);
    forall i, j | 0 <= i <= j <= |Surviving(commands)|
      ensures RankOf(Replay(d, Surviving(commands)[..i])) <= RankOf(Replay(d, Surviving(commands)[..j]))
    {
      AscendsMeans(w, d, Surviving(commands), i, j);
    }
  }

  lemma {:induction false} SurvivorsAscend(w: World, d: Disk, commands: seq<Invocation>, named: seq<Command>)
    requires Session(w, d, commands) && Unlicensed(w, d, commands, named)
    ensures Ascends(d, Surviving(commands))
  {
    hide Legal, Licensed, Replay;
    if commands != [] {
      var n := |commands| - 1;
      var front, last := commands[..n], commands[n];
      forall i | 0 <= i < n
        ensures front[i] == commands[i] && front[..i] == commands[..i]
      {
      }
      SurvivorsAscend(w, d, front, named[..n]);
      SessionIsRun(w, d, front);
      var k := if last.survived <= |last.log| then last.survived else |last.log|;
      assert last.log[..|last.log|] == last.log;
      AscendsPrefix(After(d, front), last.log, k);
      LegalPrefix(w, After(d, front), last.log, k);
      AscendsConcat(w, d, Surviving(front), last.log[..k]);
    }
  }

  /** No run bypasses a stage: between two phases every phase in between is entered. */
  lemma {:induction false} NoStageBypassed(w: World, d: Disk, t: Trace, r: nat) returns (k: nat)
    requires Legal(w, d, t) && RankOf(d) <= r <= RankOf(Replay(d, t))
    ensures k <= |t| && RankOf(Replay(d, t[..k])) == r
  {
    if RankOf(Replay(d, t)) == r {
      k := |t|;
      assert t[..k] == t;
    } else {
      assert t != [];
      var init, last := t[..|t| - 1], t[|t| - 1];
      assert RankOf(Replay(d, t)) <= RankOf(Replay(d, init)) + 1;
      k := NoStageBypassed(w, d, init, r);
      assert init[..k] == t[..k];
    }
  }
}
