/** The append-only merge of scan findings into a boundary's credential history. */
module CredentialMerge {
  import opened Documents

  // Occurrences: a dictionary filled with setdefault keeps each locator where it was first seen.

  function Distinct(locators: seq<string>): seq<string> {
    if locators == [] then []
    else
      var front, last := Distinct(locators[..|locators| - 1]), locators[|locators| - 1];
      if last in front then front else front + [last]
  }

  lemma {:induction false} DistinctSound(s: seq<string>)
    ensures NoDuplicates(Distinct(s))
    ensures forall x :: x in Distinct(s) <==> x in s
  {
    if s != [] {
      var init, last := s[..|s| - 1], s[|s| - 1];
      assert s == init + [last];
      DistinctSound(init);
    }
  }

  function MergeOccurrences(existing: seq<string>, discovered: seq<string>): seq<string> {
    Distinct(existing + discovered)
  }

  lemma DistinctNone()
    ensures Distinct([]) == []
  {
  }

  lemma DistinctSnoc(s: seq<string>, x: string)
    ensures Distinct(s + [x]) == if x in s then Distinct(s) else Distinct(s) + [x]
  {
    assert (s + [x])[..|s|] == s;
    DistinctSound(s);
  }

  /** Later sightings never disturb the earlier ones: the history is a prefix of every later history. */
  lemma {:induction false} DistinctPrefix(x: seq<string>, y: seq<string>)
    ensures Distinct(x) <= Distinct(x + y)
  {
    if y == [] {
      assert x + y == x;
    } else {
      var init, last := y[..|y| - 1], y[|y| - 1];
      assert x + y == (x + init) + [last];
      DistinctPrefix(x, init);
      DistinctSnoc(x + init, last);
    }
  }

  lemma {:induction false} DistinctFixed(x: seq<string>)
    ensures Distinct(x) == x <==> NoDuplicates(x)
  {
    DistinctSound(x);
    if NoDuplicates(x) && x != [] {
      var init, last := x[..|x| - 1], x[|x| - 1];
      assert x == init + [last];
      DistinctFixed(init);
      DistinctSnoc(init, last);
    }
  }

  lemma {:induction false} DistinctLeft(x: seq<string>, y: seq<string>)
    ensures Distinct(Distinct(x) + y) == Distinct(x + y)
  {
    if y == [] {
      assert x + y == x && Distinct(x) + y == Distinct(x);
      DistinctSound(x);
      DistinctFixed(Distinct(x));
    } else {
      var init, last := y[..|y| - 1], y[|y| - 1];
      assert x + y == (x + init) + [last];
      assert Distinct(x) + y == (Distinct(x) + init) + [last];
      DistinctLeft(x, init);
      DistinctSound(x);
      DistinctSnoc(x + init, last);
      DistinctSnoc(Distinct(x) + init, last);
    }
  }

  lemma {:induction false} DistinctAbsorbs(x: seq<string>, y: seq<string>)
    requires forall l :: l in y ==> l in x
    ensures Distinct(x + y) == Distinct(x)
  {
    if y == [] {
      assert x + y == x;
    } else {
      var init, last := y[..|y| - 1], y[|y| - 1];
      assert y == init + [last];
      assert x + y == (x + init) + [last];
      DistinctAbsorbs(x, init);
      DistinctSnoc(x + init, last);
    }
  }

  lemma {:induction false} DistinctRight(x: seq<string>, y: seq<string>)
    ensures Distinct(x + Distinct(y)) == Distinct(x + y)
  {
    if y != [] {
      var init, last := y[..|y| - 1], y[|y| - 1];
      assert y == init + [last];
      assert x + y == (x + init) + [last];
      DistinctRight(x, init);
      DistinctSnoc(init, last);
      DistinctSnoc(x + init, last);
      DistinctSound(init);
      if last !in init {
        assert x + Distinct(y) == (x + Distinct(init)) + [last];
        DistinctSnoc(x + Distinct(init), last);
      }
    }
  }

  lemma MergeOccurrencesAssociative(x: seq<string>, y: seq<string>, z: seq<string>)
    ensures MergeOccurrences(MergeOccurrences(x, y), z) == MergeOccurrences(x, MergeOccurrences(y, z))
  {
    DistinctLeft(x + y, z);
    DistinctRight(x, y + z);
    assert x + y + z == x + (y + z);
  }

  /** Seeing the same scan again adds nothing. */
  lemma MergeOccurrencesAbsorbs(x: seq<string>, y: seq<string>)
    ensures MergeOccurrences(MergeOccurrences(x, y), x) == MergeOccurrences(x, y)
  {
    DistinctLeft(x + y, x);
    DistinctAbsorbs(x + y, x);
  }

  /** The known list survives as a prefix exactly when it repeats nothing; its head survives always. */
  lemma MergeOccurrencesExtends(x: seq<string>, y: seq<string>)
    ensures NoDuplicates(x) <==> x <= MergeOccurrences(x, y)
    ensures x != [] ==> MergeOccurrences(x, y) != [] && MergeOccurrences(x, y)[0] == x[0]
  {
    var m := MergeOccurrences(x, y);
    DistinctFixed(x);
    DistinctPrefix(x, y);
    DistinctSound(x + y);
    if x <= m {
      assert forall i | 0 <= i < |x| :: x[i] == m[i];
    }
    if x != [] {
      DistinctPrefix([x[0]], x[1..] + y);
      assert [x[0]] + (x[1..] + y) == x + y;
      DistinctFixed([x[0]]);
    }
  }

  function FirstIndex(s: seq<string>, x: string): (i: nat)
    requires x in s
    ensures i < |s| && s[i] == x && x !in s[..i]
  {
    if s[0] == x then 0 else 1 + FirstIndex(s[1..], x)
  }

  lemma {:induction false} DistinctInFirstSeenOrder(s: seq<string>, i: nat, j: nat)
    requires i < j < |Distinct(s)|
    ensures Distinct(s)[i] in s && Distinct(s)[j] in s
    ensures FirstIndex(s, Distinct(s)[i]) < FirstIndex(s, Distinct(s)[j])
  {
    hide FirstIndex;
    var init, last := s[..|s| - 1], s[|s| - 1];
    assert s == init + [last];
    DistinctSnoc(init, last);
    DistinctSound(init);
    if j < |Distinct(init)| {
      DistinctInFirstSeenOrder(init, i, j);
      FirstIndexInPrefix(init, last, Distinct(init)[i]);
      FirstIndexInPrefix(init, last, Distinct(init)[j]);
    } else {
      var x := Distinct(init)[i];
      assert x in Distinct(init);
      NewestComesLast(init, last, x);
    }
  }

  lemma NewestComesLast(init: seq<string>, last: string, x: string)
    requires x in init && last !in init
    ensures FirstIndex(init + [last], x) < FirstIndex(init + [last], last)
  {
    hide FirstIndex;
    FirstIndexInPrefix(init, last, x);
  }

  lemma {:induction false} FirstIndexInPrefix(init: seq<string>, last: string, x: string)
    requires x in init
    ensures FirstIndex(init + [last], x) == FirstIndex(init, x)
  {
    if init[0] != x {
      assert (init + [last])[1..] == init[1..] + [last];
      FirstIndexInPrefix(init[1..], last, x);
    }
  }

  // Whole documents

  /** Python's `a or b` on optional text. */
  function FirstTruthy(a: Option<string>, b: Option<string>): Option<string> {
    if a.Some? && a.value != "" then a else b
  }

  function Normalized(c: Credential): Credential {
    c.(occurrences := Distinct(c.occurrences))
  }

  function MergeCredential(was: Credential, candidate: Credential): Credential {
    was.(value := FirstTruthy(was.value, candidate.value),
         occurrences := MergeOccurrences(was.occurrences, candidate.occurrences))
  }

  function MergeEntry(id: string, a: map<string, Credential>, b: map<string, Credential>): Credential
    requires id in a || id in b
  {
    if id !in b then a[id] else if id in a then MergeCredential(a[id], b[id]) else Normalized(b[id])
  }

  function MergeCredentials(a: map<string, Credential>, b: map<string, Credential>): map<string, Credential> {
    map id | id in a.Keys + b.Keys :: MergeEntry(id, a, b)
  }

  function MergeScan(previous: Option<CredentialsDocument>, discovered: CredentialsDocument): CredentialsDocument {
    var base := if previous.Some? then previous.value else discovered.(credentials := map[]);
    base.(reportGeneratedAt := discovered.reportGeneratedAt,
          errors := discovered.errors,
          credentials := MergeCredentials(base.credentials, discovered.credentials))
  }

  /** Everything of both lists, each once, in the order of its first sighting. */
  ghost predicate Collects(all: seq<string>, once: seq<string>) {
    && NoDuplicates(once) && (forall x :: x in once <==> x in all)
    && forall i, j :: 0 <= i < j < |once| ==> FirstIndex(all, once[i]) < FirstIndex(all, once[j])
  }

  lemma DistinctCollects(s: seq<string>)
    ensures Collects(s, Distinct(s))
  {
    DistinctSound(s);
    forall i, j | 0 <= i < j < |Distinct(s)|
      ensures Distinct(s)[i] in s && Distinct(s)[j] in s
      ensures FirstIndex(s, Distinct(s)[i]) < FirstIndex(s, Distinct(s)[j])
    {
      DistinctInFirstSeenOrder(s, i, j);
    }
  }

  /** A known credential keeps everything but a missing value and gains the new occurrences after its own; a new one is
      taken as it was found; the stamp and the errors are those of the new scan. */
  ghost predicate Merged(was: map<string, Credential>, found: CredentialsDocument, now: CredentialsDocument) {
    && now.reportGeneratedAt == found.reportGeneratedAt && now.errors == found.errors
    && now.credentials.Keys == was.Keys + found.credentials.Keys
    && forall id <- now.credentials ::
         var c := now.credentials[id];
         if id !in found.credentials then c == was[id]
         else if id !in was then
           && c == found.credentials[id].(occurrences := c.occurrences)
           && Collects(found.credentials[id].occurrences, c.occurrences)
         else
           && c == was[id].(value := c.value, occurrences := c.occurrences)
           && c.value == (if was[id].value == None || was[id].value == Some("") then found.credentials[id].value
                          else was[id].value)
           && Collects(was[id].occurrences + found.credentials[id].occurrences, c.occurrences)
  }

  lemma MergeScanMeans(previous: Option<CredentialsDocument>, found: CredentialsDocument)
    ensures Merged(if previous.Some? then previous.value.credentials else map[], found, MergeScan(previous, found))
    ensures MergeScan(previous, found).boundaryId ==
            if previous.Some? then previous.value.boundaryId else found.boundaryId
  {
    hide Collects, Distinct;
    var was: map<string, Credential> := if previous.Some? then previous.value.credentials else map[];
    forall id | id in found.credentials
      ensures id !in was ==>
                Collects(found.credentials[id].occurrences, Distinct(found.credentials[id].occurrences))
      ensures id in was ==>
                var all := was[id].occurrences + found.credentials[id].occurrences;
                Collects(all, Distinct(all))
    {
      DistinctCollects(found.credentials[id].occurrences);
      if id in was {
        DistinctCollects(was[id].occurrences + found.credentials[id].occurrences);
      }
    }
  }

  ghost predicate DuplicateFree(credentials: map<string, Credential>) {
    forall id <- credentials :: NoDuplicates(credentials[id].occurrences)
  }

  /** What a published credential keeps when it is merged, judged or extracted again. */
  ghost predicate CredentialEvolves(was: Credential, now: Credential) {
    && now.credentialId == was.credentialId
    && was.occurrences <= now.occurrences
    && (was.value.Some? && was.value.value != "" ==> now.value == was.value)
    && (was.judgment.status.Completed? ==> now.judgment == was.judgment)
    && (was.extraction.status.Retained? || was.extraction.status.Skipped? ==> now.extraction == was.extraction)
  }

  ghost predicate HistoryEvolves(was: map<string, Credential>, now: map<string, Credential>) {
    was.Keys <= now.Keys && forall id <- was :: CredentialEvolves(was[id], now[id])
  }

  lemma MergeEntryAssociative(
      id: string, a: map<string, Credential>, b: map<string, Credential>, c: map<string, Credential>)
    requires id in a || id in b || id in c
    ensures MergeEntry(id, MergeCredentials(a, b), c) == MergeEntry(id, a, MergeCredentials(b, c))
  {
    if id in b && id in c {
      if id in a {
        MergeOccurrencesAssociative(a[id].occurrences, b[id].occurrences, c[id].occurrences);
      } else {
        DistinctLeft(b[id].occurrences, c[id].occurrences);
        DistinctSound(b[id].occurrences + c[id].occurrences);
        DistinctFixed(Distinct(b[id].occurrences + c[id].occurrences));
      }
    } else if id in b && id !in a {
    } else if id in c {
      var z := c[id].occurrences;
      DistinctSound(z);
      DistinctFixed(Distinct(z));
      if id in a {
        DistinctRight(a[id].occurrences, z);
      }
    }
  }

  lemma MergeCredentialsAssociative(
      a: map<string, Credential>, b: map<string, Credential>, c: map<string, Credential>)
    ensures MergeCredentials(MergeCredentials(a, b), c) == MergeCredentials(a, MergeCredentials(b, c))
  {
    var l, r := MergeCredentials(MergeCredentials(a, b), c), MergeCredentials(a, MergeCredentials(b, c));
    assert l.Keys == r.Keys;
    forall id | id in l
      ensures l[id] == r[id]
    {
      MergeEntryAssociative(id, a, b, c);
    }
  }

  lemma MergeScanAssociative(a: Option<CredentialsDocument>, b: CredentialsDocument, c: CredentialsDocument)
    ensures MergeScan(Some(MergeScan(a, b)), c) == MergeScan(a, MergeScan(Some(b), c))
  {
    MergeCredentialsAssociative(if a.Some? then a.value.credentials else map[], b.credentials, c.credentials);
  }

  /** Merging a document into itself changes nothing exactly when no credential repeats an occurrence. */
  lemma MergeIdempotent(a: CredentialsDocument)
    ensures MergeScan(Some(a), a) == a <==> DuplicateFree(a.credentials)
  {
    var m := MergeScan(Some(a), a);
    assert m.credentials.Keys == a.credentials.Keys;
    forall id | id in a.credentials
      ensures m.credentials[id] == a.credentials[id] <==> NoDuplicates(a.credentials[id].occurrences)
    {
      var x := a.credentials[id].occurrences;
      DistinctAbsorbs(x, x);
      DistinctFixed(x);
    }
    if m == a {
      forall id | id in a.credentials ensures NoDuplicates(a.credentials[id].occurrences) {
        assert m.credentials[id] == a.credentials[id];
      }
    }
  }

  /** A merge keeps the published history exactly when that history lists no occurrence of a rediscovered
      credential twice; in every case the first occurrence, the judgment and the extraction stay. */
  lemma MergeKeepsHistory(a: CredentialsDocument, b: CredentialsDocument)
    ensures HistoryEvolves(a.credentials, MergeScan(Some(a), b).credentials)
            <==> (forall id :: id in a.credentials && id in b.credentials ==>
                  NoDuplicates(a.credentials[id].occurrences))
    ensures forall id <- a.credentials ::
              && id in MergeScan(Some(a), b).credentials
              && var was, now := a.credentials[id], MergeScan(Some(a), b).credentials[id];
                 && now.judgment == was.judgment && now.extraction == was.extraction
                 && (was.occurrences != [] ==> now.occurrences != [] && now.occurrences[0] == was.occurrences[0])
  {
    var m := MergeScan(Some(a), b).credentials;
    forall id | id in a.credentials
      ensures id in m
      ensures id in b.credentials ==>
                (CredentialEvolves(a.credentials[id], m[id]) <==> NoDuplicates(a.credentials[id].occurrences))
      ensures id !in b.credentials ==> m[id] == a.credentials[id]
      ensures a.credentials[id].occurrences != [] ==>
                m[id].occurrences != [] && m[id].occurrences[0] == a.credentials[id].occurrences[0]
    {
      if id in b.credentials {
        MergeOccurrencesExtends(a.credentials[id].occurrences, b.credentials[id].occurrences);
      }
    }
  }
}
