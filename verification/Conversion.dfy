/** From raw Titus findings to the credentials that a scan publishes. */
module Conversion {
  import opened Documents
  import opened CredentialMerge

  type Name = s: string | s != "" witness "_"

  /** A resolved location always has a locator. */
  datatype Location = Location(locator: Name, sourcePath: string)

  /** What conversion asks of its surroundings: the credential identity and value of a finding (an ID is never empty),
      the reader, and the exclusion lists. */
  datatype Policy = Policy(
    identity: Finding -> (Name, Option<string>),
    resolve: string -> Result<Location, string>,
    excludesPath: string -> bool,
    excludesValue: string -> bool)

  const NON_CREDENTIAL_RULES: set<string> := {"kingfisher.coveralls.1"}

  /** This finding is of this ID, and its rule is of credentials. */
  predicate IsOf(p: Policy, f: Finding, id: string) {
    f.ruleId !in NON_CREDENTIAL_RULES && p.identity(f).0 == id
  }

  // Specification, item by item in report order

  predicate Survives(p: Policy, m: Match) {
    m.filePath != "" && p.resolve(m.filePath).Ok? && !p.excludesPath(p.resolve(m.filePath).value.sourcePath)
  }

  function Locators(p: Policy, ms: seq<Match>): seq<string> {
    if ms == [] then []
    else
      var m := ms[|ms| - 1];
      Locators(p, ms[..|ms| - 1]) + if Survives(p, m) then [p.resolve(m.filePath).value.locator] else []
  }

  function Complaint(f: Finding, error: string): string {
    "finding " + f.findingId + " location unavailable: " + error
  }

  function Complaints(p: Policy, f: Finding, ms: seq<Match>): seq<string> {
    if ms == [] then []
    else
      var m := ms[|ms| - 1];
      Complaints(p, f, ms[..|ms| - 1])
      + if m.filePath != "" && p.resolve(m.filePath).Err? then [Complaint(f, p.resolve(m.filePath).error)] else []
  }

  function AllLocators(p: Policy, fs: seq<Finding>, id: string): seq<string> {
    if fs == [] then []
    else
      var f := fs[|fs| - 1];
      AllLocators(p, fs[..|fs| - 1], id) + if IsOf(p, f, id) then Locators(p, f.matches) else []
  }

  function FirstValue(p: Policy, fs: seq<Finding>, id: string): Option<string> {
    if fs == [] then None
    else
      var f, before := fs[|fs| - 1], FirstValue(p, fs[..|fs| - 1], id);
      if before == None && IsOf(p, f, id) then p.identity(f).1 else before
  }

  function AllComplaints(p: Policy, fs: seq<Finding>): seq<string> {
    if fs == [] then []
    else
      var f := fs[|fs| - 1];
      AllComplaints(p, fs[..|fs| - 1]) + if f.ruleId in NON_CREDENTIAL_RULES then [] else Complaints(p, f, f.matches)
  }

  /** An ID is published when a location survives and its value is not excluded; an unknown value is matched as "". */
  predicate Published(p: Policy, fs: seq<Finding>, id: string) {
    var value := FirstValue(p, fs, id);
    AllLocators(p, fs, id) != [] && !p.excludesValue(if value.Some? then value.value else "")
  }

  function PublishedCredential(p: Policy, fs: seq<Finding>, id: string): Credential {
    Credential(id, FirstValue(p, fs, id), Distinct(AllLocators(p, fs, id)), FRESH_JUDGMENT, FRESH_EXTRACTION)
  }

  // The same, declaratively

  /** Match j of finding i is a sighting of this ID at this locator: it has a path, which resolves to a location whose
      source path is not excluded. */
  predicate Sighting(p: Policy, fs: seq<Finding>, id: string, locator: string, i: nat, j: nat) {
    && i < |fs| && j < |fs[i].matches| && IsOf(p, fs[i], id) && fs[i].matches[j].filePath != ""
    && match p.resolve(fs[i].matches[j].filePath)
       case Ok(location) => location.locator == locator && !p.excludesPath(location.sourcePath)
       case Err(_) => false
  }

  lemma {:induction false} LocatorsSound(p: Policy, ms: seq<Match>, locator: string)
    ensures locator in Locators(p, ms) <==>
            exists j :: 0 <= j < |ms| && Survives(p, ms[j]) && p.resolve(ms[j].filePath).value.locator == locator
  {
    if ms != [] {
      var init, last := ms[..|ms| - 1], ms[|ms| - 1];
      LocatorsSound(p, init, locator);
      assert forall j :: 0 <= j < |init| ==> init[j] == ms[j];
    }
  }

  /** The occurrences of an ID are exactly the locators of its surviving sightings, over all its findings. */
  lemma {:induction false} OccurrencesAreSightings(p: Policy, fs: seq<Finding>, id: string, locator: string)
    ensures locator in AllLocators(p, fs, id) <==> exists i: nat, j: nat :: Sighting(p, fs, id, locator, i, j)
    ensures locator in PublishedCredential(p, fs, id).occurrences <==> locator in AllLocators(p, fs, id)
  {
    DistinctSound(AllLocators(p, fs, id));
    if fs != [] {
      var n := |fs| - 1;
      var init, last := fs[..n], fs[n];
      OccurrencesAreSightings(p, init, id, locator);
      LocatorsSound(p, last.matches, locator);
      forall i: nat, j: nat
        ensures Sighting(p, fs, id, locator, i, j) <==>
                Sighting(p, init, id, locator, i, j) || (i == n && Sighting(p, fs, id, locator, n, j))
      {
      }
      if exists j: nat :: Sighting(p, fs, id, locator, n, j) {
        var j: nat :| Sighting(p, fs, id, locator, n, j);
        assert locator in Locators(p, last.matches);
      } else if IsOf(p, last, id) && locator in Locators(p, last.matches) {
        var j :| 0 <= j < |last.matches| && Survives(p, last.matches[j])
            && p.resolve(last.matches[j].filePath).value.locator == locator;
        assert Sighting(p, fs, id, locator, n, j);
      }
    }
  }

  /** The value is that of the first finding of the ID that has one. */
  lemma {:induction false} ValueIsFirstSeen(p: Policy, fs: seq<Finding>, id: string, i: nat)
    requires i < |fs| && IsOf(p, fs[i], id) && p.identity(fs[i]).1.Some?
    requires forall k :: 0 <= k < i && IsOf(p, fs[k], id) ==> p.identity(fs[k]).1.None?
    ensures FirstValue(p, fs, id) == p.identity(fs[i]).1
  {
    var init := fs[..|fs| - 1];
    assert forall k :: 0 <= k < |init| ==> init[k] == fs[k];
    if i < |init| {
      ValueIsFirstSeen(p, init, id, i);
    } else {
      NoValueSeen(p, init, id);
    }
  }

  lemma {:induction false} NoValueSeen(p: Policy, fs: seq<Finding>, id: string)
    requires forall k :: 0 <= k < |fs| && IsOf(p, fs[k], id) ==> p.identity(fs[k]).1.None?
    ensures FirstValue(p, fs, id) == None
  {
    if fs != [] {
      var init := fs[..|fs| - 1];
      assert forall k :: 0 <= k < |init| ==> init[k] == fs[k];
      NoValueSeen(p, init, id);
    }
  }

  /** The resolution of match j of finding i is attempted and fails. */
  predicate Fails(p: Policy, fs: seq<Finding>, i: nat, j: nat) {
    && i < |fs| && j < |fs[i].matches|
    && fs[i].ruleId !in NON_CREDENTIAL_RULES && FailsMatch(p, fs[i].matches[j])
  }

  predicate FailsMatch(p: Policy, m: Match) { m.filePath != "" && p.resolve(m.filePath).Err? }

  /** Earlier in the report. */
  predicate Precedes(a: (nat, nat), b: (nat, nat)) { a.0 < b.0 || (a.0 == b.0 && a.1 < b.1) }

  /** These matches are exactly the failing ones, in order, and these are their complaints. */
  ghost predicate MatchesFail(p: Policy, f: Finding, ms: seq<Match>, failed: seq<nat>, complaints: seq<string>) {
    && |complaints| == |failed|
    && (forall k :: 0 <= k < |failed| ==>
          && failed[k] < |ms| && FailsMatch(p, ms[failed[k]])
          && complaints[k] == Complaint(f, p.resolve(ms[failed[k]].filePath).error))
    && (forall k, l :: 0 <= k < l < |failed| ==> failed[k] < failed[l])
    && forall j: nat :: j < |ms| && FailsMatch(p, ms[j]) ==> j in failed
  }

  lemma MatchesFailNext(p: Policy, f: Finding, ms: seq<Match>, m: Match, failed: seq<nat>, complaints: seq<string>)
    requires MatchesFail(p, f, ms, failed, complaints)
    ensures if FailsMatch(p, m)
            then MatchesFail(p, f, ms + [m], failed + [|ms|], complaints + [Complaint(f, p.resolve(m.filePath).error)])
            else MatchesFail(p, f, ms + [m], failed, complaints)
  {
    hide FailsMatch, Complaint;
    var all := ms + [m];
    assert all[|ms|] == m && forall j :: 0 <= j < |ms| ==> all[j] == ms[j];
  }

  lemma {:induction false} MatchComplaints(p: Policy, f: Finding, ms: seq<Match>) returns (failed: seq<nat>)
    ensures MatchesFail(p, f, ms, failed, Complaints(p, f, ms))
  {
    hide MatchesFail, Complaint;
    failed := [];
    if ms == [] {
      NoMatchFails(p, f);
    } else {
      var n := |ms| - 1;
      failed := MatchComplaints(p, f, ms[..n]);
      MatchesFailNext(p, f, ms[..n], ms[n], failed, Complaints(p, f, ms[..n]));
      assert ms[..n] + [ms[n]] == ms;
      if FailsMatch(p, ms[n]) {
        failed := failed + [n];
      } else {
        assert Complaints(p, f, ms[..n]) + [] == Complaints(p, f, ms[..n]);
      }
    }
  }

  lemma NoMatchFails(p: Policy, f: Finding)
    ensures MatchesFail(p, f, [], [], [])
  {
  }

  /** These pairs of a finding and a match are exactly the failed resolutions, in report order, with their
      complaints. */
  ghost predicate Enumerates(p: Policy, fs: seq<Finding>, failed: seq<(nat, nat)>, complaints: seq<string>) {
    && |complaints| == |failed|
    && (forall k :: 0 <= k < |failed| ==> Explains(p, fs, failed[k], complaints[k]))
    && InReportOrder(failed)
    && forall i: nat, j: nat :: Fails(p, fs, i, j) ==> (i, j) in failed
  }

  /** This pair is a failed resolution, and this is its complaint. */
  predicate Explains(p: Policy, fs: seq<Finding>, pair: (nat, nat), complaint: string) {
    && Fails(p, fs, pair.0, pair.1)
    && complaint == "finding " + fs[pair.0].findingId + " location unavailable: "
                    + p.resolve(fs[pair.0].matches[pair.1].filePath).error
  }

  ghost predicate InReportOrder(pairs: seq<(nat, nat)>) {
    forall k, l :: 0 <= k < l < |pairs| ==> Precedes(pairs[k], pairs[l])
  }

  function Located(n: nat, here: seq<nat>): (pairs: seq<(nat, nat)>)
    ensures |pairs| == |here| && forall k :: 0 <= k < |here| ==> pairs[k] == (n, here[k])
  {
    seq(|here|, k requires 0 <= k < |here| => (n, here[k]))
  }

  lemma ExplainsStill(p: Policy, fs: seq<Finding>, f: Finding, pair: (nat, nat), complaint: string)
    requires Explains(p, fs, pair, complaint)
    ensures Explains(p, fs + [f], pair, complaint) && pair.0 < |fs|
  {
    assert (fs + [f])[pair.0] == fs[pair.0];
  }

  lemma ExplainsHere(p: Policy, fs: seq<Finding>, f: Finding, here: seq<nat>, complaints: seq<string>)
    requires f.ruleId !in NON_CREDENTIAL_RULES && MatchesFail(p, f, f.matches, here, complaints)
    ensures forall k :: 0 <= k < |here| ==> Explains(p, fs + [f], Located(|fs|, here)[k], complaints[k])
    ensures InReportOrder(Located(|fs|, here))
    ensures forall j: nat :: Fails(p, fs + [f], |fs|, j) ==> (|fs|, j) in Located(|fs|, here)
  {
    hide FailsMatch;
    assert (fs + [f])[|fs|] == f;
    forall j: nat | Fails(p, fs + [f], |fs|, j)
      ensures (|fs|, j) in Located(|fs|, here)
    {
      var k :| 0 <= k < |here| && here[k] == j;
      assert Located(|fs|, here)[k] == (|fs|, j);
    }
  }

  lemma FailsEarlier(p: Policy, fs: seq<Finding>, f: Finding, i: nat, j: nat)
    requires Fails(p, fs + [f], i, j)
    ensures i == |fs| || Fails(p, fs, i, j)
  {
    assert i < |fs| ==> (fs + [f])[i] == fs[i];
  }

  lemma InOrderConcat(a: seq<(nat, nat)>, b: seq<(nat, nat)>, n: nat)
    requires InReportOrder(a) && InReportOrder(b)
    requires (forall x <- a :: x.0 < n) && forall y <- b :: y.0 == n
    ensures InReportOrder(a + b)
  {
  }

  lemma EnumeratesNext(p: Policy, fs: seq<Finding>, f: Finding, failed: seq<(nat, nat)>, complaints: seq<string>,
                       here: seq<nat>)
    requires Enumerates(p, fs, failed, complaints)
    requires f.ruleId !in NON_CREDENTIAL_RULES && MatchesFail(p, f, f.matches, here, Complaints(p, f, f.matches))
    ensures Enumerates(p, fs + [f], failed + Located(|fs|, here), complaints + Complaints(p, f, f.matches))
  {
    hide Fails, Explains, Complaints, InReportOrder, Located;
    var more := Complaints(p, f, f.matches);
    ExplainsHere(p, fs, f, here, more);
    assert |more| == |here|;
    forall k | 0 <= k < |failed|
      ensures Explains(p, fs + [f], failed[k], complaints[k]) && failed[k].0 < |fs|
    {
      ExplainsStill(p, fs, f, failed[k], complaints[k]);
    }
    InOrderConcat(failed, Located(|fs|, here), |fs|);
    forall i: nat, j: nat | Fails(p, fs + [f], i, j)
      ensures (i, j) in failed + Located(|fs|, here)
    {
      FailsEarlier(p, fs, f, i, j);
    }
  }

  lemma EnumeratesSkip(p: Policy, fs: seq<Finding>, f: Finding, failed: seq<(nat, nat)>, complaints: seq<string>)
    requires Enumerates(p, fs, failed, complaints) && f.ruleId in NON_CREDENTIAL_RULES
    ensures Enumerates(p, fs + [f], failed, complaints)
  {
    hide Explains, InReportOrder;
    forall k | 0 <= k < |failed|
      ensures Explains(p, fs + [f], failed[k], complaints[k])
    {
      ExplainsStill(p, fs, f, failed[k], complaints[k]);
    }
    forall i: nat, j: nat | Fails(p, fs + [f], i, j)
      ensures (i, j) in failed
    {
      FailsEarlier(p, fs, f, i, j);
    }
  }

  lemma EnumeratesNothing(p: Policy)
    ensures Enumerates(p, [], [], [])
  {
  }

  /** The conversion errors are exactly one for each failed resolution, in report order. */
  lemma {:induction false} ComplaintsAreFailures(p: Policy, fs: seq<Finding>) returns (failed: seq<(nat, nat)>)
    ensures Enumerates(p, fs, failed, AllComplaints(p, fs))
  {
    hide Enumerates, Complaints, MatchesFail;
    failed := [];
    if fs == [] {
      EnumeratesNothing(p);
    } else {
      var n := |fs| - 1;
      failed := ComplaintsAreFailures(p, fs[..n]);
      assert fs[..n] + [fs[n]] == fs;
      if fs[n].ruleId in NON_CREDENTIAL_RULES {
        EnumeratesSkip(p, fs[..n], fs[n], failed, AllComplaints(p, fs[..n]));
        assert AllComplaints(p, fs[..n]) + [] == AllComplaints(p, fs[..n]);
      } else {
        var here := MatchComplaints(p, fs[n], fs[n].matches);
        EnumeratesNext(p, fs[..n], fs[n], failed, AllComplaints(p, fs[..n]), here);
        failed := failed + Located(n, here);
      }
    }
  }

  // Order

  /** These matches are exactly the surviving ones, in order, and these are their locators. */
  ghost predicate MatchesSeen(p: Policy, ms: seq<Match>, seen: seq<nat>, locators: seq<string>) {
    && |locators| == |seen|
    && (forall k :: 0 <= k < |seen| ==>
          && seen[k] < |ms| && Survives(p, ms[seen[k]])
          && locators[k] == p.resolve(ms[seen[k]].filePath).value.locator)
    && (forall k, l :: 0 <= k < l < |seen| ==> seen[k] < seen[l])
    && forall j: nat :: j < |ms| && Survives(p, ms[j]) ==> j in seen
  }

  lemma {:induction false} MatchLocators(p: Policy, ms: seq<Match>) returns (seen: seq<nat>)
    ensures MatchesSeen(p, ms, seen, Locators(p, ms))
  {
    seen := [];
    if ms != [] {
      var n := |ms| - 1;
      seen := MatchLocators(p, ms[..n]);
      MatchesSeenNext(p, ms[..n], ms[n], seen, Locators(p, ms[..n]));
      assert ms[..n] + [ms[n]] == ms;
      if Survives(p, ms[n]) {
        seen := seen + [n];
      } else {
        assert Locators(p, ms[..n]) + [] == Locators(p, ms[..n]);
      }
    }
  }

  lemma MatchesSeenNext(p: Policy, ms: seq<Match>, m: Match, seen: seq<nat>, locators: seq<string>)
    requires MatchesSeen(p, ms, seen, locators)
    ensures if Survives(p, m)
            then MatchesSeen(p, ms + [m], seen + [|ms|], locators + [p.resolve(m.filePath).value.locator])
            else MatchesSeen(p, ms + [m], seen, locators)
  {
    hide Survives;
    var all := ms + [m];
    assert all[|ms|] == m && forall j :: 0 <= j < |ms| ==> all[j] == ms[j];
  }

  /** These pairs of a finding and a match are exactly the sightings of this ID, in report order, at these locators. */
  ghost predicate Sees(p: Policy, fs: seq<Finding>, id: string, pairs: seq<(nat, nat)>, locators: seq<string>) {
    && |locators| == |pairs| && InReportOrder(pairs)
    && (forall k :: 0 <= k < |pairs| ==> Sighting(p, fs, id, locators[k], pairs[k].0, pairs[k].1))
    && forall locator, i: nat, j: nat :: Sighting(p, fs, id, locator, i, j) ==> (i, j) in pairs
  }

  lemma {:induction false} SightingsInOrder(p: Policy, fs: seq<Finding>, id: string) returns (pairs: seq<(nat, nat)>)
    ensures Sees(p, fs, id, pairs, AllLocators(p, fs, id))
  {
    hide Sees, MatchesSeen, Locators;
    pairs := [];
    if fs == [] {
      SeesNothing(p, id);
    } else {
      var n := |fs| - 1;
      pairs := SightingsInOrder(p, fs[..n], id);
      assert fs[..n] + [fs[n]] == fs;
      if IsOf(p, fs[n], id) {
        var here := MatchLocators(p, fs[n].matches);
        SeesNext(p, fs[..n], fs[n], id, pairs, AllLocators(p, fs[..n], id), here);
        pairs := pairs + Located(n, here);
      } else {
        SeesSkip(p, fs[..n], fs[n], id, pairs, AllLocators(p, fs[..n], id));
        assert AllLocators(p, fs[..n], id) + [] == AllLocators(p, fs[..n], id);
      }
    }
  }

  lemma SeesNothing(p: Policy, id: string)
    ensures Sees(p, [], id, [], [])
  {
  }

  lemma SightingEarlier(p: Policy, fs: seq<Finding>, f: Finding, id: string, locator: string, i: nat, j: nat)
    ensures i < |fs| ==> (Sighting(p, fs + [f], id, locator, i, j) <==> Sighting(p, fs, id, locator, i, j))
    ensures Sighting(p, fs + [f], id, locator, i, j) ==> i <= |fs|
    ensures Sighting(p, fs, id, locator, i, j) ==> i < |fs|
  {
    assert i < |fs| ==> (fs + [f])[i] == fs[i];
  }

  lemma SeesSkip(p: Policy, fs: seq<Finding>, f: Finding, id: string, pairs: seq<(nat, nat)>, locators: seq<string>)
    requires Sees(p, fs, id, pairs, locators) && !IsOf(p, f, id)
    ensures Sees(p, fs + [f], id, pairs, locators)
  {
    hide InReportOrder, IsOf;
    assert (fs + [f])[|fs|] == f;
    forall locator, i: nat, j: nat
      ensures Sighting(p, fs + [f], id, locator, i, j) <==> Sighting(p, fs, id, locator, i, j)
    {
      SightingEarlier(p, fs, f, id, locator, i, j);
    }
  }

  lemma SeesHere(p: Policy, fs: seq<Finding>, f: Finding, id: string, here: seq<nat>, locators: seq<string>)
    requires IsOf(p, f, id) && MatchesSeen(p, f.matches, here, locators)
    ensures |locators| == |here| && InReportOrder(Located(|fs|, here))
    ensures forall k :: 0 <= k < |here| ==> Sighting(p, fs + [f], id, locators[k], |fs|, here[k])
    ensures forall locator, j: nat :: Sighting(p, fs + [f], id, locator, |fs|, j) ==>
              (|fs|, j) in Located(|fs|, here)
  {
    hide IsOf;
    assert (fs + [f])[|fs|] == f;
    forall locator, j: nat | Sighting(p, fs + [f], id, locator, |fs|, j)
      ensures (|fs|, j) in Located(|fs|, here)
    {
      var k :| 0 <= k < |here| && here[k] == j;
      assert Located(|fs|, here)[k] == (|fs|, j);
    }
  }

  lemma SeesNext(p: Policy, fs: seq<Finding>, f: Finding, id: string, pairs: seq<(nat, nat)>, locators: seq<string>,
                 here: seq<nat>)
    requires Sees(p, fs, id, pairs, locators) && IsOf(p, f, id)
    requires MatchesSeen(p, f.matches, here, Locators(p, f.matches))
    ensures Sees(p, fs + [f], id, pairs + Located(|fs|, here), locators + Locators(p, f.matches))
  {
    hide Sighting, InReportOrder, Located, Locators, IsOf, MatchesSeen;
    var more := Locators(p, f.matches);
    SeesHere(p, fs, f, id, here, more);
    forall locator, i: nat, j: nat
      ensures i < |fs| ==> (Sighting(p, fs + [f], id, locator, i, j) <==> Sighting(p, fs, id, locator, i, j))
      ensures Sighting(p, fs + [f], id, locator, i, j) ==> i <= |fs|
      ensures Sighting(p, fs, id, locator, i, j) ==> i < |fs|
    {
      SightingEarlier(p, fs, f, id, locator, i, j);
    }
    InOrderConcat(pairs, Located(|fs|, here), |fs|);
  }

  /** Occurrences stand in the order of their first sightings, so the first of them is the first sighting of all. */
  ghost predicate InSightingOrder(p: Policy, fs: seq<Finding>, id: string, occurrences: seq<string>) {
    forall k, l, i: nat, j: nat :: 0 <= k < l < |occurrences| && Sighting(p, fs, id, occurrences[l], i, j) ==>
      SeenBefore(p, fs, id, occurrences[k], i, j)
  }

  /** The locator has a sighting before match j of finding i. */
  ghost predicate SeenBefore(p: Policy, fs: seq<Finding>, id: string, locator: string, i: nat, j: nat) {
    exists i': nat, j': nat :: Sighting(p, fs, id, locator, i', j') && Precedes((i', j'), (i, j))
  }

  lemma OccurrencesInSightingOrder(p: Policy, fs: seq<Finding>, id: string)
    ensures InSightingOrder(p, fs, id, Distinct(AllLocators(p, fs, id)))
  {
    hide AllLocators, Distinct, Sighting, SeenBefore, Sees;
    var all, once := AllLocators(p, fs, id), Distinct(AllLocators(p, fs, id));
    var pairs := SightingsInOrder(p, fs, id);
    forall k, l, i: nat, j: nat | 0 <= k < l < |once| && Sighting(p, fs, id, once[l], i, j)
      ensures SeenBefore(p, fs, id, once[k], i, j)
    {
      EarlierIsSeenBefore(p, fs, id, pairs, k, l, i, j);
    }
  }

  lemma EarlierIsSeenBefore(p: Policy, fs: seq<Finding>, id: string, pairs: seq<(nat, nat)>, k: nat, l: nat, i: nat,
                            j: nat)
    requires Sees(p, fs, id, pairs, AllLocators(p, fs, id)) && k < l < |Distinct(AllLocators(p, fs, id))|
    requires Sighting(p, fs, id, Distinct(AllLocators(p, fs, id))[l], i, j)
    ensures SeenBefore(p, fs, id, Distinct(AllLocators(p, fs, id))[k], i, j)
  {
    hide AllLocators, Distinct, Sighting, FirstIndex;
    var all, once := AllLocators(p, fs, id), Distinct(AllLocators(p, fs, id));
    DistinctInFirstSeenOrder(all, k, l);
    var n :| 0 <= n < |pairs| && pairs[n] == (i, j);
    OneLocator(p, fs, id, all[n], once[l], i, j);
    FirstIsFirst(all, once[l], n);
    var m := FirstIndex(all, once[k]);
    assert Sighting(p, fs, id, all[m], pairs[m].0, pairs[m].1) && Precedes(pairs[m], pairs[n]);
  }

  lemma OneLocator(p: Policy, fs: seq<Finding>, id: string, a: string, b: string, i: nat, j: nat)
    requires Sighting(p, fs, id, a, i, j) && Sighting(p, fs, id, b, i, j)
    ensures a == b
  {
  }

  lemma FirstIsFirst(s: seq<string>, x: string, n: nat)
    requires n < |s| && s[n] == x
    ensures x in s && FirstIndex(s, x) <= n
  {
  }

  // The algorithm

  datatype Group = Group(value: Option<string>, occurrences: seq<string>)

  ghost predicate Grouped(p: Policy, fs: seq<Finding>, grouped: map<string, Group>) {
    && (forall id <- grouped :: grouped[id] == Group(FirstValue(p, fs, id), Distinct(AllLocators(p, fs, id))))
    && (forall id :: id !in grouped ==> FirstValue(p, fs, id) == None && AllLocators(p, fs, id) == [])
  }

  lemma MatchesSnoc(p: Policy, f: Finding, j: nat)
    requires j < |f.matches|
    ensures var m, ms := f.matches[j], f.matches[..j];
            && Locators(p, f.matches[..j + 1]) ==
               (if Survives(p, m) then Locators(p, ms) + [p.resolve(m.filePath).value.locator] else Locators(p, ms))
            && Complaints(p, f, f.matches[..j + 1]) ==
               if m.filePath != "" && p.resolve(m.filePath).Err?
               then Complaints(p, f, ms) + [Complaint(f, p.resolve(m.filePath).error)] else Complaints(p, f, ms)
  {
    assert f.matches[..j + 1][..j] == f.matches[..j];
  }

  lemma SeenSnoc(before: seq<string>, seen: seq<string>, l: string)
    ensures Distinct(before + (seen + [l])) ==
            if l in Distinct(before + seen) then Distinct(before + seen) else Distinct(before + seen) + [l]
  {
    assert before + (seen + [l]) == (before + seen) + [l];
    DistinctSound(before + seen);
    DistinctSnoc(before + seen, l);
  }

  lemma NothingToResolve(p: Policy, f: Finding)
    ensures Locators(p, []) == [] && Complaints(p, f, []) == []
  {
  }

  /** Resolve the matches of one finding, adding to the locators already known for its ID. */
  method ResolveMatches(p: Policy, f: Finding, known: seq<string>, errors: seq<string>, ghost before: seq<string>)
      returns (occurrences: seq<string>, complaints: seq<string>)
    requires known == Distinct(before)
    ensures occurrences == Distinct(before + Locators(p, f.matches))
    ensures complaints == errors + Complaints(p, f, f.matches)
  {
    hide Distinct, Locators, Complaints, Complaint;
    occurrences, complaints := known, errors;
    NothingToResolve(p, f);
    assert before + [] == before && f.matches[..0] == [];
    for j := 0 to |f.matches|
      invariant occurrences == Distinct(before + Locators(p, f.matches[..j]))
      invariant complaints == errors + Complaints(p, f, f.matches[..j])
    {
      var m := f.matches[j];
      ghost var seen := Locators(p, f.matches[..j]);
      MatchesSnoc(p, f, j);
      if m.filePath != "" {
        var resolved := p.resolve(m.filePath);
        if resolved.Err? {
          complaints := complaints + [Complaint(f, resolved.error)];
        } else if !p.excludesPath(resolved.value.sourcePath) {
          SeenSnoc(before, seen, resolved.value.locator);
          if resolved.value.locator !in occurrences {
            occurrences := occurrences + [resolved.value.locator];
          }
        }
      }
    }
    assert f.matches[..|f.matches|] == f.matches;
  }

  lemma GroupedNone(p: Policy)
    ensures Grouped(p, [], map[]) && AllComplaints(p, []) == []
  {
    DistinctNone();
  }

  lemma FindingsSnoc(p: Policy, fs: seq<Finding>, f: Finding, id: string)
    ensures AllLocators(p, fs + [f], id) == AllLocators(p, fs, id) + if IsOf(p, f, id)
            then Locators(p, f.matches) else []
    ensures FirstValue(p, fs + [f], id) ==
            if FirstValue(p, fs, id) == None && IsOf(p, f, id) then p.identity(f).1 else FirstValue(p, fs, id)
  {
    assert (fs + [f])[..|fs|] == fs;
  }

  lemma GroupedSkips(p: Policy, fs: seq<Finding>, f: Finding, grouped: map<string, Group>)
    requires Grouped(p, fs, grouped) && f.ruleId in NON_CREDENTIAL_RULES
    ensures Grouped(p, fs + [f], grouped)
  {
    hide AllLocators, FirstValue, Distinct;
    forall id: string
      ensures AllLocators(p, fs + [f], id) == AllLocators(p, fs, id)
              && FirstValue(p, fs + [f], id) == FirstValue(p, fs, id)
    {
      FindingsSnoc(p, fs, f, id);
      assert AllLocators(p, fs, id) + [] == AllLocators(p, fs, id);
    }
  }

  lemma GroupedAdds(p: Policy, fs: seq<Finding>, f: Finding, grouped: map<string, Group>, item: Group)
    requires Grouped(p, fs, grouped) && f.ruleId !in NON_CREDENTIAL_RULES
    requires var id := p.identity(f).0;
             var before := FirstValue(p, fs, id);
             item == Group(if before == None then p.identity(f).1 else before,
                           Distinct(AllLocators(p, fs, id) + Locators(p, f.matches)))
    ensures Grouped(p, fs + [f], grouped[p.identity(f).0 := item])
  {
    hide AllLocators, FirstValue, Locators, Distinct;
    forall id: string
      ensures id != p.identity(f).0 ==>
                AllLocators(p, fs + [f], id) == AllLocators(p, fs, id)
                    && FirstValue(p, fs + [f], id) == FirstValue(p, fs, id)
    {
      FindingsSnoc(p, fs, f, id);
      assert AllLocators(p, fs, id) + [] == AllLocators(p, fs, id);
    }
    FindingsSnoc(p, fs, f, p.identity(f).0);
  }

  method GroupFinding(p: Policy, f: Finding, grouped: map<string, Group>, complaints: seq<string>,
                      ghost fs: seq<Finding>)
      returns (grouped': map<string, Group>, complaints': seq<string>)
    requires Grouped(p, fs, grouped) && complaints == AllComplaints(p, fs)
    ensures Grouped(p, fs + [f], grouped') && complaints' == AllComplaints(p, fs + [f])
  {
    assert (fs + [f])[..|fs|] == fs;
    if f.ruleId in NON_CREDENTIAL_RULES {
      GroupedSkips(p, fs, f, grouped);
      return grouped, complaints;
    }
    var (id, value) := p.identity(f);
    var item := if id in grouped then grouped[id] else Group(value, []);
    if item.value == None && value != None {
      item := item.(value := value);
    }
    assert item.occurrences == Distinct(AllLocators(p, fs, id));
    var occurrences, errors := ResolveMatches(p, f, item.occurrences, complaints, AllLocators(p, fs, id));
    item := item.(occurrences := occurrences);
    GroupedAdds(p, fs, f, grouped, item);
    return grouped[id := item], errors;
  }

  /** Keep the groups that have a surviving location and no excluded value. */
  method Activate(p: Policy, grouped: map<string, Group>, ghost fs: seq<Finding>)
      returns (active: map<string, Credential>)
    requires Grouped(p, fs, grouped)
    ensures forall id :: id in active <==> Published(p, fs, id)
    ensures forall id <- active :: active[id] == PublishedCredential(p, fs, id)
  {
    active := map[];
    var todo := grouped.Keys;
    while todo != {}
      invariant todo <= grouped.Keys
      invariant forall id :: id in active <==> id in grouped && id !in todo && Published(p, fs, id)
      invariant forall id <- active :: active[id] == PublishedCredential(p, fs, id)
    {
      var id :| id in todo;
      var raw := grouped[id];
      NothingDistinct(AllLocators(p, fs, id));
      if raw.occurrences != [] && !p.excludesValue(if raw.value.Some? then raw.value.value else "") {
        active := active[id := Credential(id, raw.value, raw.occurrences, FRESH_JUDGMENT, FRESH_EXTRACTION)];
      }
      todo := todo - {id};
    }
  }

  lemma NothingDistinct(s: seq<string>)
    ensures Distinct(s) == [] <==> s == []
  {
    DistinctSound(s);
    if s != [] {
      assert s[0] in Distinct(s);
    }
  }

  /** The document holds exactly the published credentials, the generation stamp of the report, and one error per
      failed resolution. */
  ghost predicate Converts(p: Policy, report: Report, inventory: Inventory, document: CredentialsDocument) {
    && (forall id :: id in document.credentials <==> Published(p, report.findings, id))
    && (forall id <- document.credentials :: document.credentials[id] == PublishedCredential(p, report.findings, id))
    && document.boundaryId == inventory.boundary && document.reportGeneratedAt == report.generatedAt
    && document.errors == report.errors + inventory.errors + AllComplaints(p, report.findings)
  }

  /** The value of an ID: that of its first finding with one, if any has one. */
  ghost predicate HasValue(p: Policy, fs: seq<Finding>, id: string, value: Option<string>) {
    if value.None? then forall i :: 0 <= i < |fs| && IsOf(p, fs[i], id) ==> p.identity(fs[i]).1.None?
    else exists i: nat :: FirstWithValue(p, fs, id, i) && p.identity(fs[i]).1 == value
  }

  ghost predicate FirstWithValue(p: Policy, fs: seq<Finding>, id: string, i: nat) {
    && i < |fs| && IsOf(p, fs[i], id) && p.identity(fs[i]).1.Some?
    && forall k :: 0 <= k < i && IsOf(p, fs[k], id) ==> p.identity(fs[k]).1.None?
  }

  ghost predicate IsSighted(p: Policy, fs: seq<Finding>, id: string, locator: string) {
    exists i: nat, j: nat :: Sighting(p, fs, id, locator, i, j)
  }

  /** What conversion makes of a report, said of its findings alone: an ID is published exactly when it is sighted and
      its value is not excluded; its occurrences are the locators of its sightings, each once and in their order; and
      the errors end with one complaint for each failed resolution, in report order. */
  ghost predicate Means(p: Policy, report: Report, inventory: Inventory, document: CredentialsDocument) {
    var fs := report.findings;
    && (forall id :: id in document.credentials <==>
          && (exists locator :: IsSighted(p, fs, id, locator))
          && exists value :: HasValue(p, fs, id, value) && !p.excludesValue(if value.Some? then value.value else ""))
    && (forall id <- document.credentials :: MeansCredential(p, fs, id, document.credentials[id]))
    && document.boundaryId == inventory.boundary && document.reportGeneratedAt == report.generatedAt
    && exists failed, complaints ::
         && Enumerates(p, fs, failed, complaints)
         && document.errors == report.errors + inventory.errors + complaints
  }

  ghost predicate MeansCredential(p: Policy, fs: seq<Finding>, id: string, c: Credential) {
    && c == Credential(id, c.value, c.occurrences, Judgment(JudgmentStatus.Pending, None, "", None),
                       Extraction(ExtractionStatus.Pending, None, None, None, None, None))
    && HasValue(p, fs, id, c.value)
    && NoDuplicates(c.occurrences) && InSightingOrder(p, fs, id, c.occurrences)
    && forall locator :: locator in c.occurrences <==> IsSighted(p, fs, id, locator)
  }

  lemma {:induction false} FirstValueIsValue(p: Policy, fs: seq<Finding>, id: string)
    ensures HasValue(p, fs, id, FirstValue(p, fs, id))
  {
    if fs != [] {
      var init, n := fs[..|fs| - 1], |fs| - 1;
      FirstValueIsValue(p, init, id);
      assert forall k :: 0 <= k < n ==> init[k] == fs[k];
      if FirstValue(p, init, id).Some? {
        var i: nat :| FirstWithValue(p, init, id, i) && p.identity(init[i]).1 == FirstValue(p, init, id);
        assert FirstWithValue(p, fs, id, i);
      } else if IsOf(p, fs[n], id) && p.identity(fs[n]).1.Some? {
        assert FirstWithValue(p, fs, id, n);
      }
    }
  }

  lemma OneValue(p: Policy, fs: seq<Finding>, id: string, a: Option<string>, b: Option<string>)
    requires HasValue(p, fs, id, a) && HasValue(p, fs, id, b)
    ensures a == b
  {
    if a.Some? && b.Some? {
      var i: nat :| FirstWithValue(p, fs, id, i) && p.identity(fs[i]).1 == a;
      var j: nat :| FirstWithValue(p, fs, id, j) && p.identity(fs[j]).1 == b;
    }
  }

  lemma PublishedMeans(p: Policy, fs: seq<Finding>, id: string)
    ensures Published(p, fs, id) <==>
            && (exists locator :: IsSighted(p, fs, id, locator))
            && exists value :: HasValue(p, fs, id, value) && !p.excludesValue(if value.Some? then value.value else "")
    ensures MeansCredential(p, fs, id, PublishedCredential(p, fs, id))
  {
    hide AllLocators, FirstValue, HasValue, InSightingOrder, Distinct, Sighting;
    var all, value := AllLocators(p, fs, id), FirstValue(p, fs, id);
    FirstValueIsValue(p, fs, id);
    forall other | HasValue(p, fs, id, other)
      ensures other == value
    {
      OneValue(p, fs, id, other, value);
    }
    forall locator
      ensures locator in all <==> IsSighted(p, fs, id, locator)
      ensures locator in Distinct(all) <==> locator in all
    {
      OccurrencesAreSightings(p, fs, id, locator);
    }
    if all != [] {
      assert IsSighted(p, fs, id, all[0]);
    }
    DistinctSound(all);
    OccurrencesInSightingOrder(p, fs, id);
  }

  /** A converted document means what the report says. */
  lemma ConvertsMeans(p: Policy, report: Report, inventory: Inventory, document: CredentialsDocument)
    requires Converts(p, report, inventory, document)
    ensures Means(p, report, inventory, document)
  {
    hide Published, PublishedCredential, HasValue, IsSighted, MeansCredential, Enumerates, AllComplaints;
    forall id: string
      ensures Published(p, report.findings, id) <==>
              && (exists locator :: IsSighted(p, report.findings, id, locator))
              && exists value ::
                   HasValue(p, report.findings, id, value)
                   && !p.excludesValue(if value.Some? then value.value else "")
      ensures MeansCredential(p, report.findings, id, PublishedCredential(p, report.findings, id))
    {
      PublishedMeans(p, report.findings, id);
    }
    var failed := ComplaintsAreFailures(p, report.findings);
  }

  /** A location whose every sighting is excluded is in no published credential of that ID. */
  lemma ExcludedStaysOut(p: Policy, report: Report, inventory: Inventory, document: CredentialsDocument, id: string,
                         locator: string)
    requires Converts(p, report, inventory, document) && id in document.credentials
    requires forall i, j :: 0 <= i < |report.findings| && 0 <= j < |report.findings[i].matches| ==>
               var f, m := report.findings[i], report.findings[i].matches[j];
               p.identity(f).0 == id && p.resolve(m.filePath).Ok? && p.resolve(m.filePath).value.locator == locator ==>
                 p.excludesPath(p.resolve(m.filePath).value.sourcePath)
    ensures locator !in document.credentials[id].occurrences
  {
    ConvertsMeans(p, report, inventory, document);
    forall i: nat, j: nat
      ensures !Sighting(p, report.findings, id, locator, i, j)
    {
    }
  }

  method Deduplicate(report: Report, inventory: Inventory, p: Policy) returns (document: CredentialsDocument)
    ensures Converts(p, report, inventory, document) && Means(p, report, inventory, document)
  {
    hide Grouped, Published, PublishedCredential, AllComplaints, Means;
    GroupedNone(p);
    var fs := report.findings;
    var complaints: seq<string> := [];
    var grouped: map<string, Group> := map[];
    for i := 0 to |fs|
      invariant Grouped(p, fs[..i], grouped)
      invariant complaints == AllComplaints(p, fs[..i])
    {
      assert fs[..i + 1] == fs[..i] + [fs[i]];
      grouped, complaints := GroupFinding(p, fs[i], grouped, complaints, fs[..i]);
    }
    assert fs[..|fs|] == fs;
    var active := Activate(p, grouped, fs);
    document := CredentialsDocument(inventory.boundary, report.generatedAt, active,
                                    report.errors + inventory.errors + complaints);
    ConvertsMeans(p, report, inventory, document);
  }

  lemma {:induction false} LocatorsNonEmpty(p: Policy, ms: seq<Match>)
    ensures "" !in Locators(p, ms)
  {
    if ms != [] {
      LocatorsNonEmpty(p, ms[..|ms| - 1]);
    }
  }

  lemma {:induction false} AllLocatorsNonEmpty(p: Policy, fs: seq<Finding>, id: string)
    ensures "" !in AllLocators(p, fs, id)
    ensures AllLocators(p, fs, id) != [] ==> id != ""
  {
    if fs != [] {
      AllLocatorsNonEmpty(p, fs[..|fs| - 1], id);
      LocatorsNonEmpty(p, fs[|fs| - 1].matches);
    }
  }

  /** Every published credential passes its validators and starts untouched, without repeated occurrences. */
  lemma PublishedIsFresh(p: Policy, fs: seq<Finding>, id: string)
    requires Published(p, fs, id)
    ensures var c := PublishedCredential(p, fs, id);
            c.Valid() && id != "" && NoDuplicates(c.occurrences)
  {
    AllLocatorsNonEmpty(p, fs, id);
    var all := AllLocators(p, fs, id);
    DistinctSound(all);
    assert all[0] in Distinct(all);
  }

  lemma ConvertedIsFresh(p: Policy, report: Report, inventory: Inventory, document: CredentialsDocument, id: string)
    requires Converts(p, report, inventory, document) && id in document.credentials
    ensures var c := document.credentials[id];
            && c.Valid() && c.credentialId == id && id != "" && NoDuplicates(c.occurrences)
            && c.judgment == FRESH_JUDGMENT && c.extraction == FRESH_EXTRACTION
  {
    PublishedIsFresh(p, report.findings, id);
  }
}
