/** Discovery of boundaries, images and scan targets in a registry: complete, or failed. */
module Discovery {
  import opened Documents
  import opened CredentialMerge
  import opened Text

  // Sorted names

  /** Lexicographic order, by code point. */
  predicate Below(a: string, b: string) {
    b != [] && (a == [] || a[0] < b[0] || (a[0] == b[0] && Below(a[1..], b[1..])))
  }

  lemma {:induction false} BelowTransitive(a: string, b: string, c: string)
    requires Below(a, b) && Below(b, c)
    ensures Below(a, c)
  {
    if a != [] && a[0] == b[0] && b[0] == c[0] {
      BelowTransitive(a[1..], b[1..], c[1..]);
    }
  }

  lemma {:induction false} BelowTotal(a: string, b: string)
    ensures (Below(a, b) || Below(b, a)) <==> a != b
    ensures !(Below(a, b) && Below(b, a))
  {
    if a != [] && b != [] {
      BelowTotal(a[1..], b[1..]);
      assert a == [a[0]] + a[1..] && b == [b[0]] + b[1..];
    }
  }

  /** A proper prefix comes first, and otherwise the first different character decides. */
  ghost predicate Precedes(a: string, b: string, k: nat) {
    k <= |a| && k < |b| && a[..k] == b[..k] && (k == |a| || a[k] < b[k])
  }

  lemma {:induction false} BelowMeans(a: string, b: string)
    ensures Below(a, b) <==> exists k: nat :: Precedes(a, b, k)
  {
    if a == "" || b == "" || a[0] < b[0] {
      assert b != "" ==> Precedes(a, b, 0);
    } else {
      BelowMeans(a[1..], b[1..]);
      if Below(a, b) {
        var k: nat :| Precedes(a[1..], b[1..], k);
        assert a[..k + 1] == [a[0]] + a[1..][..k] && b[..k + 1] == [b[0]] + b[1..][..k];
        assert Precedes(a, b, k + 1);
      }
      if k: nat :| Precedes(a, b, k) {
        assert k > 0 ==> a[1..][..k - 1] == a[..k][1..] && b[1..][..k - 1] == b[..k][1..];
        assert k > 0 ==> a[..k][0] == b[..k][0] && Precedes(a[1..], b[1..], k - 1);
      }
    }
  }

  ghost predicate Ascending(names: seq<string>) {
    forall i, j :: 0 <= i < j < |names| ==> Below(names[i], names[j])
  }

  predicate Least(s: set<string>, x: string) { x in s && forall y <- s :: y == x || Below(x, y) }

  lemma LeastExists(s: set<string>)
    requires s != {}
    ensures exists x :: Least(s, x)
  {
    var x :| x in s;
    if s == {x} {
      assert Least(s, x);
    } else {
      LeastExists(s - {x});
      var y :| Least(s - {x}, y);
      BelowTotal(x, y);
      if Below(y, x) {
        assert Least(s, y);
      } else {
        forall z | z in s
          ensures z == x || Below(x, z)
        {
          if z != x && z != y {
            BelowTransitive(x, y, z);
          }
        }
        assert Least(s, x);
      }
    }
  }

  method SortNames(names: set<string>) returns (sorted: seq<string>)
    ensures Ascending(sorted) && forall x :: x in sorted <==> x in names
  {
    sorted := [];
    var rest := names;
    while rest != {}
      invariant rest <= names && Ascending(sorted)
      invariant forall x :: x in sorted <==> x in names && x !in rest
      invariant forall x <- sorted, y <- rest :: Below(x, y)
    {
      LeastExists(rest);
      var x: string :| x in rest && forall y <- rest :: y == x || Below(x, y);
      sorted := sorted + [x];
      rest := rest - {x};
    }
  }

  /** A set of names has one sorted form, so results built from it carry no trace of the order of arrival. */
  lemma {:induction false} SortedFormIsUnique(a: seq<string>, b: seq<string>)
    requires Ascending(a) && Ascending(b) && forall x :: x in a <==> x in b
    ensures a == b
  {
    assert a != [] ==> a[0] in a;
    assert b != [] ==> b[0] in b;
    if a != [] && b != [] {
      HeadIsLeast(a, b[0]);
      HeadIsLeast(b, a[0]);
      BelowTotal(a[0], b[0]);
      forall x
        ensures x in a[1..] <==> x in b[1..]
      {
        TailOf(a, x);
        TailOf(b, x);
      }
      SortedFormIsUnique(a[1..], b[1..]);
      assert a == [a[0]] + a[1..] && b == [b[0]] + b[1..];
    }
  }

  lemma HeadIsLeast(a: seq<string>, x: string)
    requires Ascending(a) && x in a
    ensures x == a[0] || Below(a[0], x)
  {
  }

  lemma TailOf(a: seq<string>, x: string)
    requires Ascending(a) && a != []
    ensures x in a[1..] <==> x in a && x != a[0]
  {
    BelowTotal(a[0], a[0]);
    if x in a && x != a[0] {
      var i :| 0 <= i < |a| && a[i] == x;
      assert a[1..][i - 1] == x;
    }
    if x in a[1..] {
      var i :| 0 <= i < |a[1..]| && a[1..][i] == x;
      assert a[i + 1] == x;
    }
  }

  // Pagination

  /** One response: the resource is absent, the request or its contents are unusable, or a page of names and its next
      link. */
  datatype Answer = NotFound | Unusable | Page(items: seq<string>, next: Option<string>)

  /** The server: URLs it answers, finitely many; every other request fails. */
  type Web = map<string, Answer>

  datatype Failure = Missing | Broken

  ghost predicate Good(web: Web, url: string) {
    && url in web && web[url].Page?
    && (forall item <- web[url].items :: !Blank(item))
  }

  /** Where a page points: an empty link points nowhere. */
  ghost function NextOf(web: Web, url: string): Option<string>
    requires url in web && web[url].Page?
  {
    if web[url].next == Some("") then None else web[url].next
  }

  /** These pages follow one another from the first URL, and `next` is where the last of them points. */
  ghost predicate Chain(web: Web, first: string, urls: seq<string>, next: Option<string>) {
    && (forall i :: 0 <= i < |urls| ==> Good(web, urls[i]))
    && (forall i :: 0 <= i < |urls| - 1 ==> NextOf(web, urls[i]) == Some(urls[i + 1]))
    && (if urls == [] then next == Some(first) else urls[0] == first && next == NextOf(web, urls[|urls| - 1]))
  }

  ghost predicate Complete(web: Web, first: string, urls: seq<string>) {
    urls != [] && Chain(web, first, urls, None)
  }

  /** Following links is deterministic: every chain from one URL is a prefix of the complete one. */
  lemma {:induction false} ChainIsPrefix(web: Web, first: string, urls: seq<string>, next: Option<string>,
                                         all: seq<string>)
    requires Chain(web, first, urls, next) && Complete(web, first, all)
    ensures |urls| <= |all| && urls == all[..|urls|]
    ensures next == if |urls| < |all| then Some(all[|urls|]) else None
  {
    if urls != [] {
      var init := urls[..|urls| - 1];
      var last := urls[|urls| - 1];
      ChainInit(web, first, urls, next);
      ChainIsPrefix(web, first, init, Some(last), all);
    }
  }

  lemma ChainInit(web: Web, first: string, urls: seq<string>, next: Option<string>)
    requires Chain(web, first, urls, next) && urls != []
    ensures Chain(web, first, urls[..|urls| - 1], Some(urls[|urls| - 1]))
  {
  }

  /** A complete chain visits no URL twice. */
  lemma {:induction false} CompleteIsDistinct(web: Web, first: string, all: seq<string>, i: nat, j: nat)
    requires Complete(web, first, all) && i < j < |all|
    ensures all[i] != all[j]
    decreases |all| - j
  {
    assert NextOf(web, all[i]) == Some(all[i + 1]);
    if j < |all| - 1 {
      assert NextOf(web, all[j]) == Some(all[j + 1]);
      CompleteIsDistinct(web, first, all, i + 1, j + 1);
    }
  }

  ghost predicate NamedBy(web: Web, urls: seq<string>, name: string) {
    exists u <- urls :: u in web && web[u].Page? && name in web[u].items
  }

  /** All names of the complete chain, each once and in order, or a failure: never part of the chain. No URL is
      requested twice, whatever the links say. */
  method PaginatedNames(web: Web, url: string) returns (r: Result<seq<string>, Failure>, ghost requested: seq<string>)
    requires url != ""
    ensures NoDuplicates(requested)
    ensures r.Ok? <==> exists all :: Complete(web, url, all)
    ensures r.Ok? ==> Complete(web, url, requested) && Ascending(r.value) && forall n :: n in r.value <==>
              NamedBy(web, requested, n)
    ensures r == Err(Missing) <==> url in web && web[url].NotFound?
  {
    var values: set<string> := {};
    var visited: set<string> := {};
    var next := Some(url);
    requested := [];
    var firstPage := true;
    while next.Some?
      invariant Chain(web, url, requested, next) && NoDuplicates(requested)
      invariant forall u :: u in visited <==> u in requested
      invariant firstPage <==> requested == []
      invariant forall n :: n in values <==> NamedBy(web, requested, n)
      invariant next.Some? ==> next.value != ""
      decreases web.Keys - visited, next.Some?
    {
      var request := next.value;
      if request in visited {
        LoopIsIncomplete(web, url, requested, request);
        return Err(Broken), requested;
      }
      if request !in web || !web[request].Page? || exists item <- web[request].items :: Blank(item) {
        BadIsIncomplete(web, url, requested, request);
        var missing := firstPage && request in web && web[request].NotFound?;
        requested := requested + [request];
        return Err(if missing then Missing else Broken), requested;
      }
      ghost var was := requested;
      visited := visited + {request};
      requested := requested + [request];
      firstPage := false;
      values := values + set item | item in web[request].items;
      next := web[request].next;
      if next == Some("") {
        next := None;
      }
      NamesSnoc(web, was, request);
    }
    assert Complete(web, url, requested);
    var names := SortNames(values);
    return Ok(names), requested;
  }

  lemma NamesSnoc(web: Web, urls: seq<string>, u: string)
    requires u in web && web[u].Page?
    ensures forall n :: NamedBy(web, urls + [u], n) <==> NamedBy(web, urls, n) || n in web[u].items
  {
  }

  lemma LoopIsIncomplete(web: Web, first: string, urls: seq<string>, request: string)
    requires Chain(web, first, urls, Some(request)) && request in urls
    ensures !exists all :: Complete(web, first, all)
  {
    forall all | Complete(web, first, all)
      ensures false
    {
      ChainIsPrefix(web, first, urls, Some(request), all);
      var i :| 0 <= i < |urls| && urls[i] == request;
      CompleteIsDistinct(web, first, all, i, |urls|);
      assert false;
    }
  }

  lemma BadIsIncomplete(web: Web, first: string, urls: seq<string>, request: string)
    requires Chain(web, first, urls, Some(request)) && !Good(web, request)
    ensures !exists all :: Complete(web, first, all)
  {
    forall all | Complete(web, first, all)
      ensures false
    {
      ChainIsPrefix(web, first, urls, Some(request), all);
    }
  }

  // The newest manifest

  /** What one tag resolves to: its index digest, the digest for the wanted platform, and a timestamp if there is
      one. */
  datatype Manifest = Manifest(root: string, digest: string, timestamp: Option<int>)

  datatype Candidate = Candidate(timestamp: int, tag: string, root: string, digest: string)

  datatype Selection = Selection(digest: string, root: string, tags: seq<string>, timestamp: int)

  ghost predicate Newest(cs: seq<Candidate>, c: Candidate) { c in cs && forall x <- cs :: x.timestamp <= c.timestamp }

  /** Two digests share the newest timestamp. */
  ghost predicate Ambiguous(cs: seq<Candidate>) {
    exists a, b :: Newest(cs, a) && Newest(cs, b) && a.digest != b.digest
  }

  /** The newest digest, all its tags in order, and the index digest of the first newest candidate. */
  ghost predicate Selects(cs: seq<Candidate>, s: Selection) {
    && Ascending(s.tags)
    && (forall tag :: tag in s.tags <==> exists c <- cs :: c.tag == tag && c.digest == s.digest)
    && exists i :: 0 <= i < |cs| && IsFirstNewest(cs, i) && Candidate(s.timestamp, cs[i].tag, s.root, s.digest) == cs[i]
  }

  ghost predicate IsFirstNewest(cs: seq<Candidate>, i: nat)
    requires i < |cs|
  {
    Newest(cs, cs[i]) && forall j :: 0 <= j < i ==> cs[j].timestamp < cs[i].timestamp
  }

  method Choose(cs: seq<Candidate>) returns (r: Result<Option<Selection>, string>)
    ensures r.Err? <==> Ambiguous(cs)
    ensures r.Ok? ==> (r.value.None? <==> cs == []) && (r.value.Some? ==> Selects(cs, r.value.value))
  {
    if cs == [] {
      return Ok(None);
    }
    var first := 0;
    for i := 1 to |cs|
      invariant 0 <= first < i && first < |cs|
      invariant forall j :: 0 <= j < first ==> cs[j].timestamp < cs[first].timestamp
      invariant forall j :: first <= j < i ==> cs[j].timestamp <= cs[first].timestamp
    {
      if cs[i].timestamp > cs[first].timestamp {
        first := i;
      }
    }
    var newest := cs[first];
    assert IsFirstNewest(cs, first);
    if c :| c in cs && c.timestamp == newest.timestamp && c.digest != newest.digest {
      assert Newest(cs, c) && Newest(cs, newest);
      return Err("multiple digests share newest timestamp");
    }
    var tags := SortNames(set c | c in cs && c.digest == newest.digest :: c.tag);
    return Ok(Some(Selection(newest.digest, newest.root, tags, newest.timestamp)));
  }

  /** Neither the choice nor the ambiguity depends on the order in which tags were listed. */
  lemma SelectionIgnoresOrder(a: seq<Candidate>, b: seq<Candidate>, s: Selection, t: Selection)
    requires forall c :: c in a <==> c in b
    requires Selects(a, s) && Selects(b, t) && !Ambiguous(a)
    ensures !Ambiguous(b)
    ensures s.digest == t.digest && s.timestamp == t.timestamp && s.tags == t.tags
  {
    var i :| 0 <= i < |a| && IsFirstNewest(a, i) && Candidate(s.timestamp, a[i].tag, s.root, s.digest) == a[i];
    var j :| 0 <= j < |b| && IsFirstNewest(b, j) && Candidate(t.timestamp, b[j].tag, t.root, t.digest) == b[j];
    assert forall c :: Newest(a, c) <==> Newest(b, c);
    assert Newest(a, a[i]) && Newest(a, b[j]);
    SortedFormIsUnique(s.tags, t.tags);
  }

  // Inventory of one repository

  type Url = s: string | s != "" witness "/"

  /** Twenty-four hexadecimal digits of a digest of the source version. */
  type Version = s: string | |s| == 24 witness "000000000000000000000000"

  datatype Registry = Registry(
    web: Web,
    catalog: Url,
    tags: string -> Url,
    manifest: (string, string) -> Result<Manifest, string>,
    prefix: string,
    version: string -> Version)

  ghost predicate Listing(web: Web, url: string, names: seq<string>) {
    Ascending(names) && exists all :: Complete(web, url, all) && forall n :: n in names <==> NamedBy(web, all, n)
  }

  lemma ListingIsUnique(web: Web, url: string, a: seq<string>, b: seq<string>)
    requires Listing(web, url, a) && Listing(web, url, b)
    ensures a == b
  {
    var x :| Complete(web, url, x) && forall n :: n in a <==> NamedBy(web, x, n);
    var y :| Complete(web, url, y) && forall n :: n in b <==> NamedBy(web, y, n);
    ChainIsPrefix(web, url, x, None, y);
    SortedFormIsUnique(a, b);
  }

  /** Each tag has a manifest with a timestamp, and its candidate says what the manifest says. */
  ghost predicate Resolved(r: Registry, image: string, tags: seq<string>, cs: seq<Candidate>) {
    && |cs| == |tags|
    && forall i :: 0 <= i < |tags| ==>
         && cs[i].tag == tags[i]
         && r.manifest(image, tags[i]) == Ok(Manifest(cs[i].root, cs[i].digest, Some(cs[i].timestamp)))
  }

  /** All tags are listed and resolved, and the newest digest is beyond doubt; an image without tags has none. */
  ghost predicate LatestFrom(r: Registry, image: string, tags: seq<string>, cs: seq<Candidate>) {
    Listing(r.web, r.tags(image), tags) && Resolved(r, image, tags, cs) && !Ambiguous(cs)
  }

  ghost predicate LatestOf(r: Registry, image: string, latest: Option<Selection>) {
    exists tags, cs :: LatestFrom(r, image, tags, cs) && if latest.Some? then Selects(cs, latest.value) else cs == []
  }

  lemma LatestIsUnique(r: Registry, image: string, tags: seq<string>, cs: seq<Candidate>, tags': seq<string>,
                       cs': seq<Candidate>)
    requires Listing(r.web, r.tags(image), tags) && Listing(r.web, r.tags(image), tags')
    requires Resolved(r, image, tags, cs) && Resolved(r, image, tags', cs')
    ensures tags == tags' && cs == cs'
  {
    ListingIsUnique(r.web, r.tags(image), tags, tags');
  }

  /** This name is on some page of the complete tag listing of the image. */
  ghost predicate Tagged(r: Registry, image: string, tag: string) {
    exists all :: Complete(r.web, r.tags(image), all) && NamedBy(r.web, all, tag)
  }

  lemma ListedIsTagged(r: Registry, image: string, tags: seq<string>, tag: string)
    requires Listing(r.web, r.tags(image), tags)
    ensures tag in tags <==> Tagged(r, image, tag)
  {
    var all :| Complete(r.web, r.tags(image), all) && forall n :: n in tags <==> NamedBy(r.web, all, n);
    if Tagged(r, image, tag) {
      var other :| Complete(r.web, r.tags(image), other) && NamedBy(r.web, other, tag);
      ChainIsPrefix(r.web, r.tags(image), other, None, all);
    }
  }

  lemma SelectsOnce(cs: seq<Candidate>, s: Selection, t: Selection)
    requires Selects(cs, s) && Selects(cs, t)
    ensures s == t
  {
    var i :| 0 <= i < |cs| && IsFirstNewest(cs, i) && Candidate(s.timestamp, cs[i].tag, s.root, s.digest) == cs[i];
    var j :| 0 <= j < |cs| && IsFirstNewest(cs, j) && Candidate(t.timestamp, cs[j].tag, t.root, t.digest) == cs[j];
    assert Newest(cs, cs[i]) && Newest(cs, cs[j]);
    SortedFormIsUnique(s.tags, t.tags);
  }

  /** The whole selection, index digest included, is determined by which tags exist and what they resolve to: neither
      the paging of the listing nor the order of names on its pages has any influence. */
  lemma SelectionIgnoresPaging(r: Registry, q: Registry, image: string, a: Option<Selection>, b: Option<Selection>)
    requires LatestOf(r, image, a) && LatestOf(q, image, b)
    requires forall tag :: Tagged(r, image, tag) <==> Tagged(q, image, tag)
    requires forall tag :: Tagged(r, image, tag) ==> r.manifest(image, tag) == q.manifest(image, tag)
    ensures a == b
  {
    hide Ambiguous, Selects, Listing, Tagged;
    var tags, cs :| LatestFrom(r, image, tags, cs) && if a.Some? then Selects(cs, a.value) else cs == [];
    var tags', cs' :| LatestFrom(q, image, tags', cs') && if b.Some? then Selects(cs', b.value) else cs' == [];
    forall tag: string
      ensures (tag in tags <==> Tagged(r, image, tag)) && (tag in tags' <==> Tagged(q, image, tag))
    {
      ListedIsTagged(r, image, tags, tag);
      ListedIsTagged(q, image, tags', tag);
    }
    ListingAscends(r.web, r.tags(image), tags);
    ListingAscends(q.web, q.tags(image), tags');
    SortedFormIsUnique(tags, tags');
    forall i | 0 <= i < |tags|
      ensures cs[i] == cs'[i]
    {
      assert tags[i] in tags;
    }
    assert cs == cs';
    if a.Some? && b.Some? {
      SelectsOnce(cs, a.value, b.value);
    } else if a.Some? {
      SelectsSomething(cs, a.value);
    } else if b.Some? {
      SelectsSomething(cs, b.value);
    }
  }

  lemma ListingAscends(web: Web, url: string, names: seq<string>)
    requires Listing(web, url, names)
    ensures Ascending(names)
  {
  }

  lemma SelectsSomething(cs: seq<Candidate>, s: Selection)
    requires Selects(cs, s)
    ensures cs != []
  {
  }

  /** One registry and image never give two different selections. */
  lemma LatestIsFunctional(r: Registry, image: string, a: Option<Selection>, b: Option<Selection>)
    requires LatestOf(r, image, a) && LatestOf(r, image, b)
    ensures a == b
  {
    hide LatestOf;
    SelectionIgnoresPaging(r, r, image, a, b);
  }

  /** A selection, said of the tags and their manifests: no tag is newer, exactly the tags of the newest digest are
      named, and no other digest is as new. */
  ghost predicate IsLatest(r: Registry, image: string, s: Selection) {
    && Ascending(s.tags)
    && (forall tag :: tag in s.tags <==> Tagged(r, image, tag) && DigestOf(r, image, tag) == Some(s.digest))
    && (forall tag :: Tagged(r, image, tag) ==> NoNewer(r, image, tag, s))
    && exists tag <- s.tags :: r.manifest(image, tag) == Ok(Manifest(s.root, s.digest, Some(s.timestamp)))
  }

  ghost function DigestOf(r: Registry, image: string, tag: string): Option<string> {
    if r.manifest(image, tag).Ok? then Some(r.manifest(image, tag).value.digest) else None
  }

  ghost predicate NoNewer(r: Registry, image: string, tag: string, s: Selection) {
    && r.manifest(image, tag).Ok? && r.manifest(image, tag).value.timestamp.Some?
    && var m := r.manifest(image, tag).value;
       m.timestamp.value < s.timestamp || (m.timestamp.value == s.timestamp && m.digest == s.digest)
  }

  lemma LatestMeans(r: Registry, image: string, latest: Option<Selection>)
    requires LatestOf(r, image, latest)
    ensures latest.Some? ==> IsLatest(r, image, latest.value)
    ensures latest.None? ==> forall tag :: !Tagged(r, image, tag)
  {
    hide Listing, Tagged, IsLatest;
    var tags: seq<string>, cs: seq<Candidate> :|
      LatestFrom(r, image, tags, cs) && if latest.Some? then Selects(cs, latest.value) else cs == [];
    forall tag: string
      ensures tag in tags <==> Tagged(r, image, tag)
    {
      ListedIsTagged(r, image, tags, tag);
    }
    if latest.Some? {
      SelectedIsLatest(r, image, tags, cs, latest.value);
    }
  }

  lemma SelectedIsLatest(r: Registry, image: string, tags: seq<string>, cs: seq<Candidate>, s: Selection)
    requires LatestFrom(r, image, tags, cs) && Selects(cs, s) && forall tag :: tag in tags <==> Tagged(r, image, tag)
    ensures IsLatest(r, image, s)
  {
    hide Listing, Tagged, Resolved, Ambiguous, Selects, NoNewer;
    forall tag | tag in tags
      ensures NoNewer(r, image, tag, s)
      ensures tag in s.tags <==> DigestOf(r, image, tag) == Some(s.digest)
    {
      var i :| 0 <= i < |tags| && tags[i] == tag;
      SelectedAt(r, image, tags, cs, s, i);
    }
    FirstSelected(r, image, tags, cs, s);
  }

  lemma FirstSelected(r: Registry, image: string, tags: seq<string>, cs: seq<Candidate>, s: Selection)
    requires Resolved(r, image, tags, cs) && Selects(cs, s)
    ensures exists tag <- s.tags :: r.manifest(image, tag) == Ok(Manifest(s.root, s.digest, Some(s.timestamp)))
    ensures Ascending(s.tags) && forall tag <- s.tags :: tag in tags
  {
    var i :| 0 <= i < |cs| && IsFirstNewest(cs, i) && Candidate(s.timestamp, cs[i].tag, s.root, s.digest) == cs[i];
    assert cs[i] in cs && cs[i].tag in s.tags;
  }

  lemma SelectedAt(r: Registry, image: string, tags: seq<string>, cs: seq<Candidate>, s: Selection, i: nat)
    requires Resolved(r, image, tags, cs) && !Ambiguous(cs) && Selects(cs, s) && i < |tags|
    ensures NoNewer(r, image, tags[i], s)
    ensures tags[i] in s.tags <==> DigestOf(r, image, tags[i]) == Some(s.digest)
  {
    var first :| 0 <= first < |cs| && IsFirstNewest(cs, first)
                 && Candidate(s.timestamp, cs[first].tag, s.root, s.digest) == cs[first];
    assert cs[i] in cs;
    if cs[i].timestamp == s.timestamp {
      assert Newest(cs, cs[i]) && Newest(cs, cs[first]);
    }
    if tags[i] in s.tags {
      var c :| c in cs && c.tag == tags[i] && c.digest == s.digest;
      var j :| 0 <= j < |cs| && cs[j] == c;
      assert tags[j] == tags[i];
    }
  }

  method SelectLatest(r: Registry, image: string) returns (latest: Result<Option<Selection>, string>)
    ensures latest.Ok? <==> exists tags, cs :: LatestFrom(r, image, tags, cs)
    ensures latest.Ok? ==> LatestOf(r, image, latest.value)
    ensures latest.Ok? && latest.value.Some? ==> IsLatest(r, image, latest.value.value)
    ensures latest.Ok? && latest.value.None? ==> forall tag :: !Tagged(r, image, tag)
  {
    hide Ambiguous, Selects, Listing, IsLatest, Tagged;
    var names, requested := PaginatedNames(r.web, r.tags(image));
    if names.Err? {
      NoListing(r.web, r.tags(image));
      return Err("tags could not be listed");
    }
    var tags := names.value;
    ListingOf(r.web, r.tags(image), tags, requested);
    var cs: seq<Candidate> := [];
    for i := 0 to |tags|
      invariant Resolved(r, image, tags[..i], cs)
    {
      var found := r.manifest(image, tags[i]);
      if found.Err? || found.value.timestamp.None? {
        Unresolved(r, image, tags, i);
        return Err("tag has no usable manifest");
      }
      cs := cs + [Candidate(found.value.timestamp.value, tags[i], found.value.root, found.value.digest)];
    }
    assert tags[..|tags|] == tags;
    latest := Choose(cs);
    if latest.Ok? {
      assert LatestFrom(r, image, tags, cs);
      LatestMeans(r, image, latest.value);
    } else {
      forall tags', cs' | LatestFrom(r, image, tags', cs')
        ensures false
      {
        LatestIsUnique(r, image, tags, cs, tags', cs');
      }
    }
  }

  lemma NoListing(web: Web, url: string)
    requires !exists all :: Complete(web, url, all)
    ensures forall names :: !Listing(web, url, names)
  {
  }

  lemma ListingOf(web: Web, url: string, names: seq<string>, all: seq<string>)
    requires Complete(web, url, all) && Ascending(names) && forall n :: n in names <==> NamedBy(web, all, n)
    ensures Listing(web, url, names)
  {
  }

  lemma Unresolved(r: Registry, image: string, tags: seq<string>, i: nat)
    requires Listing(r.web, r.tags(image), tags) && i < |tags|
    requires r.manifest(image, tags[i]).Err? || r.manifest(image, tags[i]).value.timestamp.None?
    ensures forall tags', cs :: !LatestFrom(r, image, tags', cs)
  {
    forall tags', cs | LatestFrom(r, image, tags', cs)
      ensures false
    {
      ListingIsUnique(r.web, r.tags(image), tags, tags');
    }
  }

  /** The target of an image is its newest digest, and nothing has been done for it yet. */
  ghost function TargetOf(r: Registry, image: string, s: Selection): Target {
    Target(Scope("docker", r.prefix + image, r.version(s.digest)),
           TargetResult(TargetStatus.Pending, [], None, None, None))
  }

  ghost function IdOf(r: Registry, image: string, s: Selection): string {
    r.prefix + image + "@" + r.version(s.digest)
  }

  lemma ScopesDiffer(r: Registry, a: string, b: string)
    requires r.prefix + a == r.prefix + b
    ensures a == b
  {
    assert (r.prefix + a)[|r.prefix|..] == a && (r.prefix + b)[|r.prefix|..] == b;
  }

  /** Target IDs of different images never meet, because the version has a fixed length. */
  lemma IdsDiffer(r: Registry, a: string, s: Selection, b: string, t: Selection)
    requires IdOf(r, a, s) == IdOf(r, b, t)
    ensures a == b
  {
    var x, y := IdOf(r, a, s), IdOf(r, b, t);
    assert |x| == |r.prefix + a| + 25 && |y| == |r.prefix + b| + 25;
    assert x[..|x| - 25] == r.prefix + a && y[..|y| - 25] == r.prefix + b;
    ScopesDiffer(r, a, b);
  }

  /** One target for each image that has a latest digest, and no other. */
  ghost predicate Matches(r: Registry, chosen: map<string, Option<Selection>>, targets: map<string, Target>) {
    && (forall image <- chosen :: chosen[image].Some? ==>
          IdOf(r, image, chosen[image].value) in targets
          && targets[IdOf(r, image, chosen[image].value)] == TargetOf(r, image, chosen[image].value))
    && (forall id <- targets :: exists image <- chosen ::
        chosen[image].Some? && id == IdOf(r, image, chosen[image].value))
  }

  lemma MatchesAdds(r: Registry, chosen: map<string, Option<Selection>>, targets: map<string, Target>, image: string,
                    s: Selection)
    requires Matches(r, chosen, targets) && image !in chosen
    ensures Matches(r, chosen[image := Some(s)], targets[IdOf(r, image, s) := TargetOf(r, image, s)])
  {
    hide IdOf, TargetOf;
    var chosen', targets' := chosen[image := Some(s)], targets[IdOf(r, image, s) := TargetOf(r, image, s)];
    forall other | other in chosen && chosen[other].Some?
      ensures IdOf(r, other, chosen[other].value) != IdOf(r, image, s)
    {
      if IdOf(r, other, chosen[other].value) == IdOf(r, image, s) {
        IdsDiffer(r, other, chosen[other].value, image, s);
      }
    }
    forall id | id in targets'
      ensures exists x <- chosen' :: chosen'[x].Some? && id == IdOf(r, x, chosen'[x].value)
    {
      if id in targets {
        var x :| x in chosen && chosen[x].Some? && id == IdOf(r, x, chosen[x].value);
        assert chosen'[x] == chosen[x];
      } else {
        assert chosen'[image].Some?;
      }
    }
  }

  lemma MatchesSkips(r: Registry, chosen: map<string, Option<Selection>>, targets: map<string, Target>, image: string)
    requires Matches(r, chosen, targets) && image !in chosen
    ensures Matches(r, chosen[image := None], targets)
  {
    hide IdOf, TargetOf;
    var chosen' := chosen[image := None];
    forall id | id in targets
      ensures exists x <- chosen' :: chosen'[x].Some? && id == IdOf(r, x, chosen'[x].value)
    {
      var x :| x in chosen && chosen[x].Some? && id == IdOf(r, x, chosen[x].value);
      assert chosen'[x] == chosen[x];
    }
  }

  lemma MatchedIsValid(r: Registry, chosen: map<string, Option<Selection>>, i: Inventory)
    requires Matches(r, chosen, i.targets)
    ensures i.Valid()
  {
    hide IdOf;
    forall a, b | a in i.targets && b in i.targets && a != b
      ensures (i.targets[a].scope.kind, i.targets[a].scope.id) != (i.targets[b].scope.kind, i.targets[b].scope.id)
    {
      var x :| x in chosen && chosen[x].Some? && a == IdOf(r, x, chosen[x].value);
      var y :| y in chosen && chosen[y].Some? && b == IdOf(r, y, chosen[y].value);
      if r.prefix + x == r.prefix + y {
        ScopesDiffer(r, x, y);
      }
    }
    forall id | id in i.targets
      ensures id == TargetIdFor(i.targets[id].scope)
    {
      var x :| x in chosen && chosen[x].Some? && id == IdOf(r, x, chosen[x].value);
      IdIsTargetId(r, x, chosen[x].value);
    }
  }

  lemma IdIsTargetId(r: Registry, image: string, s: Selection)
    ensures IdOf(r, image, s) == TargetIdFor(TargetOf(r, image, s).scope)
  {
  }

  /** A discovered inventory is complete and passes its validators; a repository without a catalog is gone. */
  method TakeInventory(r: Registry, boundary: string, clock: int)
      returns (found: Result<Option<Inventory>, string>, ghost images: seq<string>,
               ghost chosen: map<string, Option<Selection>>)
    ensures found == Ok(None) <==> r.catalog in r.web && r.web[r.catalog].NotFound?
    ensures found.Ok? && found.value.Some? ==>
              && Listing(r.web, r.catalog, images)
              && (forall image :: image in chosen <==> image in images)
              && (forall image <- chosen :: LatestOf(r, image, chosen[image]))
              && found.value.value.Valid()
              && Matches(r, chosen, found.value.value.targets)
              && found.value.value == Inventory(clock, boundary, found.value.value.targets, [])
    ensures found.Err? && Listing(r.web, r.catalog, images) ==>
              exists image <- images :: forall tags, cs :: !LatestFrom(r, image, tags, cs)
    ensures found.Err? ==> Listing(r.web, r.catalog, images) || forall all :: !Complete(r.web, r.catalog, all)
  {
    hide Listing, LatestFrom, LatestOf, Matches, IsLatest, Tagged;
    chosen, images := map[], [];
    var names, requested := PaginatedNames(r.web, r.catalog);
    if names.Err? {
      NoListing(r.web, r.catalog);
      return if names.error.Missing? then Ok(None) else Err("images could not be listed"), images, chosen;
    }
    images := names.value;
    ListingOf(r.web, r.catalog, images, requested);
    NotMissing(r.web, r.catalog, requested);
    var targets: map<string, Target> := map[];
    MatchesNone(r);
    for i := 0 to |names.value|
      invariant forall image :: image in chosen <==> image in names.value[..i]
      invariant forall image <- chosen :: LatestOf(r, image, chosen[image])
      invariant Matches(r, chosen, targets)
    {
      var image := names.value[i];
      NotYetSeen(names.value, i);
      var latest := SelectLatest(r, image);
      if latest.Err? {
        assert image in images;
        return Err(latest.error), images, chosen;
      }
      if latest.value.Some? {
        MatchesAdds(r, chosen, targets, image, latest.value.value);
        var scope := Scope("docker", r.prefix + image, r.version(latest.value.value.digest));
        IdIsTargetId(r, image, latest.value.value);
        targets := targets[TargetIdFor(scope) := Target(scope, FRESH_RESULT)];
      } else {
        MatchesSkips(r, chosen, targets, image);
      }
      chosen := chosen[image := latest.value];
      assert names.value[..i + 1] == names.value[..i] + [image];
    }
    assert names.value[..|names.value|] == names.value;
    var inventory := Inventory(clock, boundary, targets, []);
    MatchedIsValid(r, chosen, inventory);
    return Ok(Some(inventory)), images, chosen;
  }

  lemma MatchesNone(r: Registry)
    ensures Matches(r, map[], map[])
  {
  }

  lemma NotMissing(web: Web, url: string, all: seq<string>)
    requires Complete(web, url, all)
    ensures url in web && web[url].Page?
  {
  }

  lemma NotYetSeen(names: seq<string>, i: nat)
    requires Ascending(names) && i < |names|
    ensures names[i] !in names[..i]
  {
    if names[i] in names[..i] {
      var j :| 0 <= j < i && names[j] == names[i];
      BelowTotal(names[i], names[i]);
    }
  }

  // New boundaries

  function Unregistered(ids: seq<string>, registered: set<string>): seq<string> {
    if ids == [] then []
    else
      var last := ids[|ids| - 1];
      Unregistered(ids[..|ids| - 1], registered) + if last in registered then [] else [last]
  }

  function Fresh(ids: seq<string>, registered: set<string>): seq<string> { Distinct(Unregistered(ids, registered)) }

  lemma {:induction false} UnregisteredSound(ids: seq<string>, registered: set<string>)
    ensures forall x :: x in Unregistered(ids, registered) <==> x in ids && x !in registered
  {
    if ids != [] {
      UnregisteredSound(ids[..|ids| - 1], registered);
      assert ids == ids[..|ids| - 1] + [ids[|ids| - 1]];
    }
  }

  lemma FreshSnoc(ids: seq<string>, registered: set<string>, id: string)
    ensures Fresh(ids + [id], registered) ==
            Fresh(ids, registered) + if id in registered || id in Fresh(ids, registered) then [] else [id]
  {
    assert (ids + [id])[..|ids|] == ids;
    var before := Unregistered(ids, registered);
    DistinctSound(before);
    if id !in registered {
      DistinctSnoc(before, id);
    } else {
      assert Unregistered(ids + [id], registered) == before;
    }
  }

  lemma {:induction false} FreshPrefix(ids: seq<string>, registered: set<string>, k: nat)
    requires k <= |ids|
    ensures Fresh(ids[..k], registered) <= Fresh(ids, registered)
  {
    if k == |ids| {
      assert ids[..k] == ids;
    } else {
      var init := ids[..|ids| - 1];
      FreshPrefix(init, registered, k);
      assert init[..k] == ids[..k] && ids == init + [ids[|ids| - 1]];
      FreshSnoc(init, registered, ids[|ids| - 1]);
    }
  }

  /** The first unregistered IDs, each once, up to the limit; discovery is consumed no further than that. */
  method NewBoundaryIds(discovered: seq<string>, registered: set<string>, limit: Option<nat>)
      returns (ids: seq<string>, consumed: nat)
    ensures consumed <= |discovered| && ids == Fresh(discovered[..consumed], registered)
    ensures NoDuplicates(ids) && forall id <- ids :: id in discovered && id !in registered
    ensures ids <= Fresh(discovered, registered)
    ensures if limit.Some? && limit.value <= |Fresh(discovered, registered)|
            then |ids| == limit.value else ids == Fresh(discovered, registered)
    ensures consumed > 0 && limit.Some? && |ids| == limit.value ==>
              ids != [] && discovered[consumed - 1] == ids[|ids| - 1]
  {
    hide Fresh;
    ids, consumed := [], 0;
    FreshNone(registered);
    assert discovered[..0] == [];
    FreshPrefix(discovered, registered, 0);
    if limit == Some(0) {
      return;
    }
    while consumed < |discovered|
      invariant consumed <= |discovered| && ids == Fresh(discovered[..consumed], registered)
      invariant limit.Some? ==> |ids| < limit.value
    {
      var id := discovered[consumed];
      FreshSnoc(discovered[..consumed], registered, id);
      assert discovered[..consumed + 1] == discovered[..consumed] + [id];
      consumed := consumed + 1;
      if id in registered || id in ids {
        continue;
      }
      ids := ids + [id];
      if limit.Some? && |ids| >= limit.value {
        break;
      }
    }
    FreshPrefix(discovered, registered, consumed);
    FreshIsNew(discovered[..consumed], registered);
    assert consumed == |discovered| ==> discovered[..consumed] == discovered;
  }

  lemma FreshNone(registered: set<string>)
    ensures Fresh([], registered) == []
  {
  }

  lemma FreshIsNew(ids: seq<string>, registered: set<string>)
    ensures NoDuplicates(Fresh(ids, registered)) && forall id <- Fresh(ids, registered) ::
            id in ids && id !in registered
  {
    UnregisteredSound(ids, registered);
    DistinctSound(Unregistered(ids, registered));
  }
}
