/** The merge as it runs: documents and credentials are shared mutable objects, and the two arguments may be
    the same document or hold the same credential objects. */
module MergeInPlace {
  import opened Documents
  import CredentialMerge

  class CredentialObject {
    const credentialId: string
    var value: Option<string>
    var occurrences: seq<string>
    var judgment: Judgment
    var extraction: Extraction

    constructor (c: Credential)
      ensures View() == c
    {
      credentialId := c.credentialId;
      value, occurrences, judgment, extraction := c.value, c.occurrences, c.judgment, c.extraction;
    }

    function View(): Credential
      reads this
    {
      Credential(credentialId, value, occurrences, judgment, extraction)
    }
  }

  class DocumentObject {
    const boundaryId: string
    var reportGeneratedAt: string
    var credentials: map<string, CredentialObject>
    var errors: seq<string>

    constructor (boundaryId: string, reportGeneratedAt: string)
      ensures View() == CredentialsDocument(boundaryId, reportGeneratedAt, map[], [])
    {
      this.boundaryId, this.reportGeneratedAt, credentials, errors := boundaryId, reportGeneratedAt, map[], [];
    }

    ghost predicate Indexed()
      reads this
    {
      forall id <- credentials :: credentials[id].credentialId == id
    }

    ghost function Entries(): map<string, Credential>
      reads this, credentials.Values
    {
      map id | id in credentials :: credentials[id].View()
    }

    ghost function View(): CredentialsDocument
      reads this, credentials.Values
    {
      CredentialsDocument(boundaryId, reportGeneratedAt, Entries(), errors)
    }
  }

  method MergeOccurrences(existing: seq<string>, discovered: seq<string>) returns (merged: seq<string>)
    ensures merged == CredentialMerge.MergeOccurrences(existing, discovered)
  {
    hide CredentialMerge.Distinct;
    merged := [];
    CredentialMerge.DistinctNone();
    var all := existing + discovered;
    for i := 0 to |all|
      invariant merged == CredentialMerge.Distinct(all[..i])
    {
      assert all[..i + 1] == all[..i] + [all[i]];
      CredentialMerge.DistinctSnoc(all[..i], all[i]);
      CredentialMerge.DistinctSound(all[..i]);
      if all[i] !in merged {
        merged := merged + [all[i]];
      }
    }
    assert all[..|all|] == all;
  }

  /** Merging an object with itself, as happens when both documents share it, only removes repetitions. */
  lemma SharedEntry(c: Credential)
    ensures CredentialMerge.MergeCredential(c, c) == CredentialMerge.Normalized(c)
  {
    CredentialMerge.DistinctAbsorbs(c.occurrences, c.occurrences);
  }

  ghost predicate Snapshot(shows: map<CredentialObject, Credential>)
    reads shows.Keys
  {
    forall o <- shows :: o.View() == shows[o]
  }

  /** One discovered credential: adopted by reference when unknown, folded into the known object otherwise. */
  method MergeEntry(document: DocumentObject, id: string, candidate: CredentialObject,
                    ghost shows: map<CredentialObject, Credential>)
      returns (ghost now: map<CredentialObject, Credential>)
    requires Snapshot(shows) && candidate in shows
    requires id in document.credentials ==> document.credentials[id] in shows
    modifies document`credentials, if id in document.credentials then document.credentials[id] else candidate
    ensures document.credentials ==
            if id in old(document.credentials)
                then old(document.credentials) else old(document.credentials)[id := candidate]
    ensures now == shows[document.credentials[id] :=
                         if id in old(document.credentials)
                         then CredentialMerge.MergeCredential(shows[document.credentials[id]], shows[candidate])
                         else CredentialMerge.Normalized(shows[candidate])]
    ensures Snapshot(now)
  {
    hide CredentialMerge.Distinct;
    if id !in document.credentials || document.credentials[id] == candidate {
      SharedEntry(candidate.View());
      assert [] + candidate.occurrences == candidate.occurrences;
      var merged := MergeOccurrences([], candidate.occurrences);
      candidate.occurrences := merged;
      document.credentials := document.credentials[id := candidate];
    } else {
      var known := document.credentials[id];
      var merged := MergeOccurrences(known.occurrences, candidate.occurrences);
      known.value := CredentialMerge.FirstTruthy(known.value, candidate.value);
      known.occurrences := merged;
    }
    now := shows[document.credentials[id] := document.credentials[id].View()];
  }

  /** What a document shows for one ID while `todo` is still to be merged: known history a, discovered items b. */
  ghost function Progress(id: string, a: map<string, Credential>, b: map<string, Credential>,
                          todo: set<string>): Credential
    requires id in a || id in b
  {
    if id !in todo then CredentialMerge.MergeEntry(id, a, b) else if id in a then a[id] else b[id]
  }

  /** Snapshot of the heap while `todo` is still to be merged; `named` is the object each ID will finally name. */
  ghost predicate Shows(
      shows: map<CredentialObject, Credential>, named: map<string, CredentialObject>,
      items: map<string, CredentialObject>,
      a: map<string, Credential>, b: map<string, Credential>, todo: set<string>)
  {
    && todo <= items.Keys == b.Keys
    && named.Keys == a.Keys + b.Keys
    && (forall id <- named ::
          named[id].credentialId == id && named[id] in shows && shows[named[id]] == Progress(id, a, b, todo))
    && (forall id <- items ::
          items[id].credentialId == id && items[id] in shows && (id in todo ==> shows[items[id]] == b[id]))
  }

  lemma ShowsStep(
      shows: map<CredentialObject, Credential>, named: map<string, CredentialObject>,
      items: map<string, CredentialObject>,
      a: map<string, Credential>, b: map<string, Credential>, todo: set<string>, id: string)
    requires Shows(shows, named, items, a, b, todo) && id in todo
    ensures CredentialMerge.MergeEntry(id, a, b) ==
            if id in a then CredentialMerge.MergeCredential(shows[named[id]], shows[items[id]])
            else CredentialMerge.Normalized(shows[items[id]])
    ensures Shows(shows[named[id] := CredentialMerge.MergeEntry(id, a, b)], named, items, a, b, todo - {id})
  {
    assert shows[named[id]] == Progress(id, a, b, todo);
    forall x | x in named && x != id
      ensures named[x] != named[id] && Progress(x, a, b, todo - {id}) == Progress(x, a, b, todo)
    {
      assert named[x].credentialId == x;
    }
    forall x | x in todo && x != id
      ensures items[x] != named[id]
    {
      assert items[x].credentialId == x;
    }
  }

  ghost predicate NamesSoFar(
      entries: map<string, CredentialObject>, named: map<string, CredentialObject>,
      items: map<string, CredentialObject>, todo: set<string>)
  {
    && (forall id <- entries :: id in named && entries[id] == named[id])
    && (forall id <- named :: id in entries || (id in todo && id in items && named[id] == items[id]))
  }

  lemma NamesStep(
      entries: map<string, CredentialObject>, named: map<string, CredentialObject>,
      items: map<string, CredentialObject>,
      todo: set<string>, id: string)
    requires NamesSoFar(entries, named, items, todo) && id in todo && id in named && id in items
    ensures id in entries ==> entries[id] == named[id]
    ensures id !in entries ==> named[id] == items[id]
    ensures NamesSoFar(if id in entries then entries else entries[id := items[id]], named, items, todo - {id})
  {
  }

  ghost predicate Merging(
      document: DocumentObject, named: map<string, CredentialObject>, shows: map<CredentialObject, Credential>,
      items: map<string, CredentialObject>, a: map<string, Credential>, b: map<string, Credential>, todo: set<string>)
    reads document, shows.Keys
  {
    && NamesSoFar(document.credentials, named, items, todo)
    && (forall id <- todo :: id in document.credentials <==> id in a)
    && Shows(shows, named, items, a, b, todo)
    && Snapshot(shows)
  }

  method MergeStep(
      document: DocumentObject, ghost named: map<string, CredentialObject>,
      ghost shows: map<CredentialObject, Credential>,
      items: map<string, CredentialObject>, ghost a: map<string, Credential>, ghost b: map<string, Credential>,
      ghost todo: set<string>, id: string)
      returns (ghost now: map<CredentialObject, Credential>)
    requires todo <= items.Keys && id in todo
    requires Merging(document, named, shows, items, a, b, todo)
    modifies document`credentials, shows.Keys
    ensures Merging(document, named, now, items, a, b, todo - {id})
    ensures now.Keys == shows.Keys
  {
    NamesStep(document.credentials, named, items, todo, id);
    ShowsStep(shows, named, items, a, b, todo, id);
    now := MergeEntry(document, id, items[id], shows);
  }

  method MergeItems(
      document: DocumentObject, items: map<string, CredentialObject>, ghost named: map<string, CredentialObject>,
      ghost shows: map<CredentialObject, Credential>, ghost a: map<string, Credential>,
      ghost b: map<string, Credential>)
      returns (ghost now: map<CredentialObject, Credential>)
    requires Merging(document, named, shows, items, a, b, items.Keys)
    modifies document`credentials, shows.Keys
    ensures Merging(document, named, now, items, a, b, {})
  {
    now := shows;
    var todo := items.Keys;
    while todo != {}
      invariant todo <= items.Keys
      invariant Merging(document, named, now, items, a, b, todo)
      invariant now.Keys == shows.Keys
      decreases todo
    {
      var id :| id in todo;
      now := MergeStep(document, named, now, items, a, b, todo, id);
      todo := todo - {id};
    }
  }

  /** Without a history the discovered document is merged into itself. */
  lemma FirstScan(b: map<string, Credential>)
    ensures CredentialMerge.MergeCredentials(b, b) == CredentialMerge.MergeCredentials(map[], b)
  {
    forall id <- b {
      SharedEntry(b[id]);
    }
  }

  lemma MergeStarts(
      document: DocumentObject, discovered: DocumentObject, shows: map<CredentialObject, Credential>)
    requires document.Indexed() && discovered.Indexed()
    requires shows == map o | o in document.credentials.Values + discovered.credentials.Values :: o.View()
    ensures Merging(document, discovered.credentials + document.credentials, shows, discovered.credentials,
                    document.Entries(), discovered.Entries(), discovered.credentials.Keys)
  {
    var named := discovered.credentials + document.credentials;
    forall id | id in named
      ensures named[id].credentialId == id && named[id] in shows
      ensures shows[named[id]] == if id in document.credentials
              then document.Entries()[id] else discovered.Entries()[id]
    {
    }
  }

  lemma MergeEnds(
      document: DocumentObject, named: map<string, CredentialObject>, shows: map<CredentialObject, Credential>,
      items: map<string, CredentialObject>, a: map<string, Credential>, b: map<string, Credential>)
    requires Merging(document, named, shows, items, a, b, {})
    ensures document.credentials == named
    ensures document.Entries() == CredentialMerge.MergeCredentials(a, b)
  {
    var m := CredentialMerge.MergeCredentials(a, b);
    forall id | id in document.credentials
      ensures id in m && document.Entries()[id] == m[id]
    {
      assert shows[named[id]] == Progress(id, a, b, {});
    }
    assert document.Entries().Keys == m.Keys;
  }

  method Restamp(document: DocumentObject, source: DocumentObject)
    modifies document`reportGeneratedAt, document`errors
    ensures document.View() ==
            old(document.View()).(reportGeneratedAt := old(source.reportGeneratedAt), errors := old(source.errors))
  {
    document.reportGeneratedAt := source.reportGeneratedAt;
    document.errors := source.errors;
    assert forall id <- document.credentials :: document.credentials[id].View() == old(document.credentials[id].View());
  }

  /** Merge into `document`, which may itself be the discovered one. */
  method MergeInto(document: DocumentObject, discovered: DocumentObject)
    requires document.Indexed() && discovered.Indexed()
    modifies document, document.credentials.Values, discovered.credentials.Values
    ensures document.credentials == old(discovered.credentials + document.credentials)
    ensures document.View() ==
            old(document.View()).(reportGeneratedAt := old(discovered.reportGeneratedAt),
                                  errors := old(discovered.errors),
                                  credentials := CredentialMerge.MergeCredentials(old(document.Entries()),
                                                                                  old(discovered.Entries())))
  {
    hide Merging, CredentialMerge.MergeCredentials;
    ghost var a, b := document.Entries(), discovered.Entries();
    ghost var shows := map o | o in document.credentials.Values + discovered.credentials.Values :: o.View();
    ghost var named := discovered.credentials + document.credentials;
    MergeStarts(document, discovered, shows);
    ghost var now := MergeItems(document, discovered.credentials, named, shows, a, b);
    MergeEnds(document, named, now, old(discovered.credentials), a, b);
    Restamp(document, discovered);
  }

  method MergeScan(previous: DocumentObject?, discovered: DocumentObject) returns (document: DocumentObject)
    requires previous != null ==> previous.Indexed()
    requires discovered.Indexed()
    modifies previous, discovered
    modifies if previous != null then previous.credentials.Values else {}
    modifies discovered.credentials.Values
    ensures document == if previous != null then previous else discovered
    ensures document.View() ==
            CredentialMerge.MergeScan(if previous == null then None else Some(old(previous.View())),
                                      old(discovered.View()))
    ensures document.credentials == old(discovered.credentials) + old(document.credentials)
    ensures previous != null && previous != discovered ==> unchanged(discovered)
  {
    document := if previous != null then previous else discovered;
    FirstScan(discovered.Entries());
    MergeInto(document, discovered);
  }
}
