/** Locators of files in image layers: normal forms of member paths, parsing, and the search of an archive. */
module Locators {
  import opened Documents
  import Evidence

  // Components

  function Split(s: string): (parts: seq<string>)
    ensures parts != []
  {
    if s == "" then [""]
    else if s[0] == '/' then [""] + Split(s[1..])
    else
      var rest := Split(s[1..]);
      [[s[0]] + rest[0]] + rest[1..]
  }

  function Join(parts: seq<string>): string {
    if parts == [] then "" else if |parts| == 1 then parts[0] else parts[0] + "/" + Join(parts[1..])
  }

  /** Lexical cleaning of a relative path: empty and single-dot components vanish, and ".." takes back a real one. */
  function Clean(parts: seq<string>): seq<string> {
    if parts == [] then []
    else
      var front, last := Clean(parts[..|parts| - 1]), parts[|parts| - 1];
      if last == "" || last == "." then front
      else if last != ".." || front == [] || front[|front| - 1] == ".." then front + [last]
      else front[..|front| - 1]
  }

  function Slashes(s: string): string {
    if s == "" then "" else [if s[0] == '\\' then '/' else s[0]] + Slashes(s[1..])
  }

  function DropSlashes(s: string): string { if s != "" && s[0] == '/' then DropSlashes(s[1..]) else s }

  /** The comparison key of a layer member, or an error for a path that names nothing. */
  function Normalize(value: string): Result<string, string> {
    var parts := Clean(Split(DropSlashes(Slashes(value))));
    if parts == [] then Err("invalid empty layer member path") else Ok(Join(parts))
  }

  // Normal form

  predicate Component(p: string) { p != "" && p != "." && '/' !in p && '\\' !in p }

  /** Components only, with ".." nowhere but at the front. */
  ghost predicate Normal(parts: seq<string>) {
    && (forall p <- parts :: Component(p))
    && forall i, j :: 0 <= i < j < |parts| && parts[j] == ".." ==> parts[i] == ".."
  }

  predicate Tidy(parts: seq<string>) { forall p <- parts :: '/' !in p && '\\' !in p }

  lemma {:induction false} SplitIsTidy(s: string)
    requires '\\' !in s
    ensures Tidy(Split(s))
  {
    if s != "" {
      SplitIsTidy(s[1..]);
    }
  }

  lemma {:induction false} SlashesClean(s: string)
    ensures '\\' !in Slashes(s)
    ensures '\\' !in s ==> Slashes(s) == s
    ensures |Slashes(s)| == |s|
    ensures forall i :: 0 <= i < |s| ==> Slashes(s)[i] == if s[i] == '\\' then '/' else s[i]
  {
    if s != "" {
      SlashesClean(s[1..]);
    }
  }

  lemma {:induction false} DropSlashesSuffix(s: string)
    ensures '\\' !in s ==> '\\' !in DropSlashes(s)
    ensures (s == "" || s[0] != '/') ==> DropSlashes(s) == s
  {
    if s != "" && s[0] == '/' {
      DropSlashesSuffix(s[1..]);
    }
  }

  lemma {:induction false} CleanIsNormal(parts: seq<string>)
    requires Tidy(parts)
    ensures Normal(Clean(parts))
  {
    if parts != [] {
      CleanIsNormal(parts[..|parts| - 1]);
    }
  }

  lemma {:induction false} CleanKeepsNormal(parts: seq<string>)
    requires Normal(parts)
    ensures Clean(parts) == parts
  {
    if parts != [] {
      CleanKeepsNormal(parts[..|parts| - 1]);
      assert parts[|parts| - 1] in parts;
      assert parts == parts[..|parts| - 1] + [parts[|parts| - 1]];
    }
  }

  lemma {:induction false} SplitPlain(p: string, rest: string)
    requires '/' !in p
    ensures Split(p) == [p]
    ensures Split(p + "/" + rest) == [p] + Split(rest)
  {
    if p == "" {
      assert p + "/" + rest == "/" + rest;
      assert ("/" + rest)[1..] == rest;
    } else {
      SplitPlain(p[1..], rest);
      assert (p + "/" + rest)[1..] == p[1..] + "/" + rest;
      assert p == [p[0]] + p[1..];
    }
  }

  lemma {:induction false} SplitJoin(parts: seq<string>)
    requires parts != [] && forall p <- parts :: '/' !in p
    ensures Split(Join(parts)) == parts
  {
    if |parts| == 1 {
      SplitPlain(parts[0], "");
    } else {
      SplitPlain(parts[0], Join(parts[1..]));
      SplitJoin(parts[1..]);
    }
  }

  lemma {:induction false} JoinChars(parts: seq<string>)
    requires Tidy(parts)
    ensures '\\' !in Join(parts)
    ensures parts != [] && parts[0] != "" ==> Join(parts) != "" && Join(parts)[0] == parts[0][0]
  {
    if |parts| > 1 {
      JoinChars(parts[1..]);
    }
  }

  ghost predicate IsNormal(path: string) {
    Normal(Split(path)) && '\\' !in path
  }

  /** A path is left alone exactly when it is in normal form, and every result is in normal form. */
  lemma NormalizeIsCanonical(value: string)
    ensures var r := Normalize(value);
            && (r.Ok? ==> IsNormal(r.value) && Normalize(r.value) == r)
            && (r == Ok(value) <==> IsNormal(value))
  {
    hide Clean, Split, Join, Slashes, DropSlashes;
    var s := DropSlashes(Slashes(value));
    SlashesClean(value);
    DropSlashesSuffix(Slashes(value));
    SplitIsTidy(s);
    CleanIsNormal(Split(s));
    var parts := Clean(Split(s));
    if parts != [] {
      NormalIsFixed(parts);
    }
    if IsNormal(value) {
      JoinSplit(value);
      NormalIsFixed(Split(value));
    }
  }

  lemma NormalIsFixed(parts: seq<string>)
    requires parts != [] && Normal(parts)
    ensures IsNormal(Join(parts)) && Split(Join(parts)) == parts && Normalize(Join(parts)) == Ok(Join(parts))
  {
    hide Clean, Split, Join, Slashes, DropSlashes;
    var t := Join(parts);
    SplitJoin(parts);
    JoinChars(parts);
    assert Component(parts[0]);
    SlashesClean(t);
    DropSlashesSuffix(t);
    CleanKeepsNormal(parts);
  }

  lemma {:induction false} JoinSplit(s: string)
    ensures Join(Split(s)) == s
  {
    if s != "" {
      JoinSplit(s[1..]);
      var rest := Split(s[1..]);
      if s[0] == '/' {
        assert ([""] + rest)[1..] == rest;
      } else {
        assert ([[s[0]] + rest[0]] + rest[1..])[1..] == rest[1..];
      }
    }
  }

  // Where a path leads

  /** Follow these components from a directory: an empty one and a single dot stay, two dots go up unless at the root,
      and any other goes down. */
  function Walk(at: seq<string>, parts: seq<string>): seq<string> {
    if parts == [] then at
    else
      var before, last := Walk(at, parts[..|parts| - 1]), parts[|parts| - 1];
      if last == "" || last == "." then before
      else if last != ".." then before + [last]
      else if before == [] then [] else before[..|before| - 1]
  }

  lemma WalkNext(at: seq<string>, parts: seq<string>, last: string)
    ensures Walk(at, parts + [last]) == Walk(Walk(at, parts), [last])
  {
    assert (parts + [last])[..|parts|] == parts && [last][..0] == [];
  }

  lemma {:induction false} CleanHasNoDots(parts: seq<string>)
    ensures "" !in Clean(parts) && "." !in Clean(parts)
  {
    if parts != [] {
      CleanHasNoDots(parts[..|parts| - 1]);
    }
  }

  /** Cleaning a path does not change where it leads. */
  lemma {:induction false} CleanLeads(at: seq<string>, parts: seq<string>)
    ensures Walk(at, Clean(parts)) == Walk(at, parts)
  {
    if parts != [] {
      var init, last := parts[..|parts| - 1], parts[|parts| - 1];
      var front := Clean(init);
      CleanLeads(at, init);
      CleanHasNoDots(init);
      WalkNext(at, front, last);
      WalkNext(at, init, last);
      assert parts == init + [last];
      if front != [] {
        assert front[|front| - 1] in front && front == front[..|front| - 1] + [front[|front| - 1]];
      }
    }
  }

  /** How often a path in normal form goes up before it goes down. */
  function Ups(parts: seq<string>): (n: nat)
    ensures n <= |parts|
  {
    if parts == [] then 0 else Ups(parts[..|parts| - 1]) + if parts[|parts| - 1] == ".." then 1 else 0
  }

  lemma {:induction false} UpsFirst(parts: seq<string>)
    requires Normal(parts)
    ensures forall i :: 0 <= i < |parts| ==> (parts[i] == ".." <==> i < Ups(parts))
  {
    if parts != [] {
      UpsFirst(parts[..|parts| - 1]);
    }
  }

  lemma {:induction false} WalkNormal(at: seq<string>, parts: seq<string>)
    requires Normal(parts) && |parts| <= |at|
    ensures Walk(at, parts) == at[..|at| - Ups(parts)] + parts[Ups(parts)..]
  {
    if parts != [] {
      var init, last := parts[..|parts| - 1], parts[|parts| - 1];
      WalkNormal(at, init);
      assert last in parts && Component(last);
      if last == ".." {
        AllUp(parts);
        assert init[Ups(init)..] == [];
      } else {
        assert parts[Ups(parts)..] == init[Ups(init)..] + [last];
      }
    }
  }

  lemma AllUp(parts: seq<string>)
    requires Normal(parts) && parts != [] && parts[|parts| - 1] == ".."
    ensures Ups(parts) == |parts| && Ups(parts[..|parts| - 1]) == |parts| - 1
  {
    UpsFirst(parts);
  }

  /** The components of a path, with either kind of slash between them. */
  function Components(value: string): seq<string> { Split(Slashes(value)) }

  lemma {:induction false} LeadingSlashes(s: string)
    ensures Clean(Split(DropSlashes(s))) == Clean(Split(s))
  {
    if s != "" && s[0] == '/' {
      LeadingSlashes(s[1..]);
      EmptyFirst(Split(s[1..]));
    }
  }

  lemma {:induction false} EmptyFirst(parts: seq<string>)
    ensures Clean([""] + parts) == Clean(parts)
  {
    if parts == [] {
      assert [""] + parts == [""] && [""][..0] == [];
    } else {
      var all := [""] + parts;
      EmptyFirst(parts[..|parts| - 1]);
      assert all[..|all| - 1] == [""] + parts[..|parts| - 1] && all[|all| - 1] == parts[|parts| - 1];
    }
  }

  /** Two spellings have one key exactly when they lead to the same place from every directory, and a path is refused
      exactly when it leads nowhere else. */
  lemma SameMember(a: string, b: string)
    ensures Normalize(a) == Normalize(b) <==> forall at :: Walk(at, Components(a)) == Walk(at, Components(b))
    ensures Normalize(a).Err? <==> forall at :: Walk(at, Components(a)) == at
  {
    hide Clean, Split, Join, Slashes, DropSlashes, Walk, Normal;
    KeyIsCleaned(a);
    KeyIsCleaned(b);
    var x, y := Clean(Components(a)), Clean(Components(b));
    LeadsAlike(Components(a), Components(b));
    LeadsAlike(Components(a), []);
    CleanNothing();
    forall at: seq<string>
      ensures Walk(at, []) == at
    {
      WalkNothing(at);
    }
  }

  lemma CleanNothing()
    ensures Clean([]) == [] && Tidy([])
  {
  }

  lemma LeadsAlike(a: seq<string>, b: seq<string>)
    requires Tidy(a) && Tidy(b)
    ensures Clean(a) == Clean(b) <==> forall at :: Walk(at, a) == Walk(at, b)
  {
    hide Clean, Walk, Normal;
    CleanIsNormal(a);
    CleanIsNormal(b);
    WalksApart(Clean(a), Clean(b));
    if Clean(a) == Clean(b) {
      forall at
        ensures Walk(at, a) == Walk(at, b)
      {
        CleanLeads(at, a);
        CleanLeads(at, b);
      }
    } else {
      var at :| Walk(at, Clean(a)) != Walk(at, Clean(b));
      CleanLeads(at, a);
      CleanLeads(at, b);
    }
  }

  lemma WalkNothing(at: seq<string>)
    ensures Walk(at, []) == at
  {
  }

  lemma KeyIsCleaned(value: string)
    ensures var parts := Clean(Components(value));
            && Tidy(Components(value))
            && (parts == [] ==> Normalize(value) == Err("invalid empty layer member path"))
            && (parts != [] ==> Normalize(value) == Ok(Join(parts)) && Split(Join(parts)) == parts)
  {
    hide Clean, Split, Join, Slashes, DropSlashes, Normal;
    SlashesClean(value);
    LeadingSlashes(Slashes(value));
    SplitIsTidy(Slashes(value));
    CleanIsNormal(Components(value));
    var parts := Clean(Components(value));
    if parts != [] {
      NormalIsFixed(parts);
    }
  }

  /** Different normal forms part ways in a directory that is deep enough and named like no component. */
  lemma WalksApart(a: seq<string>, b: seq<string>)
    requires Normal(a) && Normal(b)
    ensures (forall at :: Walk(at, a) == Walk(at, b)) ==> a == b
  {
    hide Walk, Ups;
    var n := |a| + |b|;
    var at := seq(n, i => "/");
    WalkNormal(at, a);
    WalkNormal(at, b);
    if Walk(at, a) == Walk(at, b) {
      var s, k, l := Walk(at, a), n - Ups(a), n - Ups(b);
      UpsFirst(a);
      UpsFirst(b);
      DownsAreNames(at, a, s, k);
      DownsAreNames(at, b, s, l);
      assert (k < |s| ==> s[k] != "/") && (l < |s| ==> s[l] != "/");
      assert k == l;
      assert a[Ups(a)..] == s[k..] == b[Ups(b)..];
      assert a == b by {
        assert |a| == |b|;
        forall i | 0 <= i < |a|
          ensures a[i] == b[i]
        {
          if i >= Ups(a) {
            assert a[i] == a[Ups(a)..][i - Ups(a)] && b[i] == b[Ups(b)..][i - Ups(b)];
          }
        }
      }
    }
  }

  lemma DownsAreNames(at: seq<string>, parts: seq<string>, s: seq<string>, k: nat)
    requires Normal(parts) && |parts| <= |at| && k == |at| - Ups(parts) && (forall p <- at :: p == "/")
    requires s == at[..k] + parts[Ups(parts)..]
    ensures forall i :: 0 <= i < |s| ==> (s[i] == "/" <==> i < k)
  {
    hide Ups;
    forall i | 0 <= i < |s|
      ensures s[i] == "/" <==> i < k
    {
      if i < k {
        assert s[i] == at[i] && at[i] in at;
      } else {
        assert s[i] == parts[Ups(parts) + i - k] && s[i] in parts && Component(s[i]);
      }
    }
  }

  /** The last component. */
  function FileName(path: string): string {
    var parts := Split(path);
    parts[|parts| - 1]
  }

  /** The name under which evidence of a normal path is kept is safe, unless the path ends above the layer root. */
  lemma FileNameIsPlain(path: string)
    requires IsNormal(path)
    ensures Evidence.Plain(FileName(path)) <==> FileName(path) != ".."
  {
    assert Component(FileName(path));
  }

  // Parsing

  const SCHEME := "docker://"
  const SHA := "sha256:"
  const MANIFEST := "manifest.json"
  const CONFIG := "config.json"

  /** The fields of a layer locator as printed. */
  datatype Layer = Layer(registry: string, repository: string, image: string, manifest: string, layer: string,
                         path: string)

  datatype Metadata = Metadata(registry: string, repository: string, image: string, manifest: string, path: string)

  datatype Provenance = OfMetadata(metadata: Metadata) | OfLayer(layer: Layer)

  predicate OneLine(s: string) { '\n' !in s }

  function Until(s: string, c: char): (n: nat)
    ensures n <= |s| && c !in s[..n] && (n < |s| ==> s[n] == c)
  {
    if s == "" || s[0] == c then 0 else 1 + Until(s[1..], c)
  }

  datatype Head = Head(registry: string, repository: string, rest: string)

  /** Registry and repository end at the first slash. */
  function ParseHead(s: string): Option<Head> {
    if !(SCHEME <= s) then None
    else
      var t := s[|SCHEME|..];
      var i := Until(t, '/');
      if i == 0 || i == |t| then None
      else
        var u := t[i + 1..];
        var j := Until(u, '/');
        if j == 0 || j == |u| then None else Some(Head(t[..i], u[..j], u[j + 1..]))
  }

  datatype Tail = Tail(manifest: string, layer: string, path: string)

  /** A layer digest up to its first colon, and the member path after it. */
  function LayerPart(s: string): Option<(string, string)> {
    if !(SHA <= s) then None
    else
      var j := Until(s[|SHA|..], ':');
      var k := |SHA| + j;
      if j == 0 || k + 1 >= |s| || !OneLine(s[k + 1..]) then None else Some((s[..k], s[k + 1..]))
  }

  /** What follows the image and its "@" in a layer locator. */
  function LayerTail(s: string): Option<Tail> {
    var i := Until(s, '/');
    if !(SHA <= s) || i <= |SHA| || i == |s| then None
    else
      var part := LayerPart(s[i + 1..]);
      if part.None? then None else Some(Tail(s[..i], part.value.0, part.value.1))
  }

  /** What follows the image and its "@" in a metadata locator. */
  function MetadataTail(s: string): Option<Tail> {
    var i := Until(s, '/');
    if SHA <= s && |SHA| < i < |s| && (s[i + 1..] == MANIFEST || s[i + 1..] == CONFIG)
        then Some(Tail(s[..i], "", s[i + 1..])) else None
  }

  predicate CutsAt(rest: string, i: nat) { 0 < i < |rest| && rest[i] == '@' && OneLine(rest[..i]) }

  predicate LayerAt(rest: string, i: nat) { CutsAt(rest, i) && LayerTail(rest[i + 1..]).Some? }

  predicate MetadataAt(rest: string, i: nat) { CutsAt(rest, i) && MetadataTail(rest[i + 1..]).Some? }

  /** A greedy image: the last place below n where the rest matches. */
  function LastLayer(rest: string, n: nat): Option<nat> {
    if n == 0 then None else if LayerAt(rest, n - 1) then Some(n - 1) else LastLayer(rest, n - 1)
  }

  function LastMetadata(rest: string, n: nat): Option<nat> {
    if n == 0 then None else if MetadataAt(rest, n - 1) then Some(n - 1) else LastMetadata(rest, n - 1)
  }

  lemma {:induction false} LastLayerSound(rest: string, n: nat)
    ensures var cut := LastLayer(rest, n);
            && (cut.Some? ==> cut.value < n && LayerAt(rest, cut.value) && forall i :: cut.value < i < n ==>
                !LayerAt(rest, i))
            && (cut.None? ==> forall i :: 0 <= i < n ==> !LayerAt(rest, i))
  {
    hide LayerAt;
    if n > 0 {
      LastLayerSound(rest, n - 1);
    }
  }

  lemma {:induction false} LastMetadataSound(rest: string, n: nat)
    ensures var cut := LastMetadata(rest, n);
            && (cut.Some? ==> cut.value < n && MetadataAt(rest, cut.value) && forall i :: cut.value < i < n ==>
                !MetadataAt(rest, i))
            && (cut.None? ==> forall i :: 0 <= i < n ==> !MetadataAt(rest, i))
  {
    hide MetadataAt;
    if n > 0 {
      LastMetadataSound(rest, n - 1);
    }
  }

  /** The pattern is cut at the last place where the rest matches, if there is one. */
  function CutOfLayer(rest: string): (cut: Option<nat>)
    ensures cut.Some? ==> LayerAt(rest, cut.value)
  {
    LastLayerSound(rest, |rest|);
    LastLayer(rest, |rest|)
  }

  function CutOfMetadata(rest: string): (cut: Option<nat>)
    ensures cut.Some? ==> MetadataAt(rest, cut.value)
  {
    LastMetadataSound(rest, |rest|);
    LastMetadata(rest, |rest|)
  }

  /** Metadata locators are tried first. */
  function ParseRaw(s: string): Option<Provenance> {
    var head := ParseHead(s);
    if head.None? then None
    else
      var h := head.value;
      var m, l := CutOfMetadata(h.rest), CutOfLayer(h.rest);
      if m.Some? then
        var t := MetadataTail(h.rest[m.value + 1..]).value;
        Some(OfMetadata(Metadata(h.registry, h.repository, h.rest[..m.value], t.manifest, t.path)))
      else if l.Some? then
        var t := LayerTail(h.rest[l.value + 1..]).value;
        Some(OfLayer(Layer(h.registry, h.repository, h.rest[..l.value], t.manifest, t.layer, t.path)))
      else None
  }

  function Parse(s: string): Result<Provenance, string> {
    var raw := ParseRaw(s);
    if raw.None? then Err("invalid Titus Docker provenance path")
    else if raw.value.OfMetadata? then Ok(raw.value)
    else
      var path := Normalize(raw.value.layer.path);
      if path.Err? then Err(path.error) else Ok(OfLayer(raw.value.layer.(path := path.value)))
  }

  // Printing

  function PrintTail(t: Tail): string { t.manifest + ("/" + PrintPart(t.layer, t.path)) }

  function PrintPart(layer: string, path: string): string { layer + (":" + path) }

  function PrintHead(h: Head): string { SCHEME + (h.registry + ("/" + (h.repository + ("/" + h.rest)))) }

  function PrintRest(image: string, t: Tail): string { image + ("@" + PrintTail(t)) }

  function PrintLayer(f: Layer): string {
    PrintHead(Head(f.registry, f.repository, PrintRest(f.image, Tail(f.manifest, f.layer, f.path))))
  }

  predicate ShaText(s: string, stop: char) { SHA < s && stop !in s[|SHA|..] }

  predicate HeadFields(h: Head) { h.registry != "" && '/' !in h.registry && h.repository != "" && '/' !in h.repository }

  predicate TailFields(t: Tail) { ShaText(t.manifest, '/') && ShaText(t.layer, ':') && t.path != "" && OneLine(t.path) }

  /** The fields that the layer pattern admits. */
  predicate LayerFields(f: Layer) {
    && HeadFields(Head(f.registry, f.repository, ""))
    && f.image != "" && OneLine(f.image)
    && TailFields(Tail(f.manifest, f.layer, f.path))
  }

  lemma {:induction false} UntilStops(a: string, c: char, rest: string)
    requires c !in a && rest != "" && rest[0] == c
    ensures Until(a + rest, c) == |a|
  {
    if a == "" {
      assert a + rest == rest;
    } else {
      assert (a + rest)[1..] == a[1..] + rest;
      UntilStops(a[1..], c, rest);
    }
  }

  lemma After(a: string, b: string)
    ensures (a + b)[|a|..] == b && (a + b)[..|a|] == a
    ensures b != "" ==> (a + b)[|a|] == b[0] && (a + b)[|a| + 1..] == b[1..]
  {
  }

  lemma HeadOf(h: Head)
    requires HeadFields(h)
    ensures ParseHead(PrintHead(h)) == Some(h)
  {
    hide Until;
    var v := "/" + h.rest;
    var u := h.repository + v;
    var t := h.registry + ("/" + u);
    After(SCHEME, t);
    After(h.registry, "/" + u);
    After("/", u);
    After(h.repository, v);
    After("/", h.rest);
    UntilStops(h.registry, '/', "/" + u);
    UntilStops(h.repository, '/', v);
  }

  lemma HeadSound(s: string)
    requires ParseHead(s).Some?
    ensures s == PrintHead(ParseHead(s).value) && HeadFields(ParseHead(s).value)
  {
  }

  lemma PartOf(layer: string, path: string)
    requires ShaText(layer, ':') && path != "" && OneLine(path)
    ensures LayerPart(PrintPart(layer, path)) == Some((layer, path))
  {
    hide Until;
    var s := PrintPart(layer, path);
    var l := layer[|SHA|..];
    After(layer, ":" + path);
    After(":", path);
    assert s[|SHA|..] == l + (":" + path);
    UntilStops(l, ':', ":" + path);
  }

  lemma TailOf(t: Tail)
    requires TailFields(t)
    ensures LayerTail(PrintTail(t)) == Some(t)
  {
    hide Until, LayerPart;
    var part := PrintPart(t.layer, t.path);
    After(t.manifest, "/" + part);
    After("/", part);
    ShaHasNoSlash(t.manifest);
    UntilStops(t.manifest, '/', "/" + part);
    PartOf(t.layer, t.path);
  }

  lemma ShaHasNoSlash(s: string)
    requires ShaText(s, '/')
    ensures '/' !in s
  {
    assert s == SHA + s[|SHA|..];
    assert '/' !in SHA;
  }

  lemma PartSound(s: string)
    requires LayerPart(s).Some?
    ensures var (layer, path) := LayerPart(s).value;
            s == PrintPart(layer, path) && ShaText(layer, ':') && path != "" && OneLine(path)
  {
  }

  lemma TailSound(s: string)
    requires LayerTail(s).Some?
    ensures s == PrintTail(LayerTail(s).value) && TailFields(LayerTail(s).value)
  {
    hide LayerPart;
    var i := Until(s, '/');
    PartSound(s[i + 1..]);
    assert s == s[..i] + ("/" + s[i + 1..]);
  }

  // What parsing means

  lemma MatchIsCut(f: Layer)
    requires LayerFields(f)
    ensures var rest := PrintRest(f.image, Tail(f.manifest, f.layer, f.path));
            && ParseHead(PrintLayer(f)) == Some(Head(f.registry, f.repository, rest))
            && LayerAt(rest, |f.image|) && rest[..|f.image|] == f.image
            && LayerTail(rest[|f.image| + 1..]) == Some(Tail(f.manifest, f.layer, f.path))
  {
    hide ParseHead, LayerTail, PrintTail;
    var t := Tail(f.manifest, f.layer, f.path);
    HeadOf(Head(f.registry, f.repository, PrintRest(f.image, t)));
    After(f.image, "@" + PrintTail(t));
    After("@", PrintTail(t));
    TailOf(t);
  }

  /** Parsing a layer locator finds a match of the pattern, and the one with the longest image; when nothing is found,
      nothing matches. */
  lemma ParseIsGreedy(s: string)
    ensures var raw := ParseRaw(s);
            && (raw.Some? && raw.value.OfLayer? ==>
                  && LayerFields(raw.value.layer) && PrintLayer(raw.value.layer) == s
                  && forall g :: LayerFields(g) && PrintLayer(g) == s ==> |g.image| <= |raw.value.layer.image|)
            && (raw.None? ==> forall g :: LayerFields(g) ==> PrintLayer(g) != s)
  {
    hide ParseHead, LayerTail, MetadataTail, PrintTail, LayerFields, PrintLayer;
    forall g | LayerFields(g) && PrintLayer(g) == s
      ensures ParseHead(s).Some? && LayerAt(ParseHead(s).value.rest, |g.image|)
    {
      MatchIsCut(g);
    }
    var raw := ParseRaw(s);
    if ParseHead(s).Some? {
      var rest := ParseHead(s).value.rest;
      LastLayerSound(rest, |rest|);
    }
    if raw.Some? && raw.value.OfLayer? {
      HeadSound(s);
      var h, f := ParseHead(s).value, raw.value.layer;
      CutIsMatch(h, |f.image|);
    }
  }

  lemma CutIsMatch(h: Head, i: nat)
    requires HeadFields(h) && LayerAt(h.rest, i)
    ensures var t := LayerTail(h.rest[i + 1..]).value;
            var f := Layer(h.registry, h.repository, h.rest[..i], t.manifest, t.layer, t.path);
            LayerFields(f) && PrintLayer(f) == PrintHead(h)
  {
    hide ParseHead, LayerTail, PrintTail, PrintHead, TailFields, HeadFields;
    var t := LayerTail(h.rest[i + 1..]).value;
    TailSound(h.rest[i + 1..]);
    assert h.rest == h.rest[..i] + ("@" + h.rest[i + 1..]);
    SameHead(h);
  }

  lemma SameHead(h: Head)
    requires HeadFields(h)
    ensures HeadFields(Head(h.registry, h.repository, ""))
  {
  }

  // Round trip

  /** A later "@" in the path from which the rest of the locator would match as well. */
  predicate Captured(path: string) {
    exists j :: 0 <= j < |path| && path[j] == '@'
        && (LayerTail(path[j + 1..]).Some? || MetadataTail(path[j + 1..]).Some?)
  }

  /** Image references and digests as registries print them. */
  predicate Printable(f: Layer) {
    LayerFields(f) && '@' !in f.manifest && '@' !in f.layer && OneLine(f.manifest) && OneLine(f.layer)
  }

  function Before(f: Layer): string { f.image + ("@" + (f.manifest + ("/" + (f.layer + ":")))) }

  lemma RestSplits(f: Layer)
    ensures PrintRest(f.image, Tail(f.manifest, f.layer, f.path)) == Before(f) + f.path
  {
  }

  lemma LaterCut(f: Layer, i: nat)
    requires Printable(f) && |f.image| < i < |Before(f) + f.path| && (Before(f) + f.path)[i] == '@'
    ensures i >= |Before(f)| && f.path[i - |Before(f)|] == '@'
    ensures (Before(f) + f.path)[i + 1..] == f.path[i - |Before(f)| + 1..]
  {
    var b, mid := Before(f), f.manifest + ("/" + (f.layer + ":"));
    assert b == f.image + ("@" + mid);
    assert '@' !in mid;
    assert forall k :: |f.image| < k < |b| ==> b[k] == mid[k - |f.image| - 1];
  }

  lemma CapturedCut(f: Layer, j: nat)
    requires Printable(f) && j < |f.path| && f.path[j] == '@'
    ensures CutsAt(Before(f) + f.path, |Before(f)| + j)
    ensures (Before(f) + f.path)[|Before(f)| + j + 1..] == f.path[j + 1..]
  {
    var rest := Before(f) + f.path;
    assert rest[..|Before(f)| + j] == Before(f) + f.path[..j];
  }

  lemma RestSplitsAtSlash(f: Layer)
    ensures Before(f) + f.path == (f.image + ("@" + f.manifest)) + ("/" + PrintPart(f.layer, f.path))
  {
  }

  lemma SlashInside(head: string, part: string, i: nat)
    requires i < |head|
    ensures var y := (head + ("/" + part))[i + 1..];
            |head| - i - 1 < |y| && y[|head| - i - 1] == '/' && y[|head| - i..] == part
  {
  }

  /** The metadata pattern never begins at or before the image of a layer locator. */
  lemma NoEarlyMetadata(f: Layer, i: nat)
    requires Printable(f) && i <= |f.image|
    ensures !MetadataAt(Before(f) + f.path, i)
  {
    hide MetadataTail, PrintPart, Before;
    var head, part := f.image + ("@" + f.manifest), PrintPart(f.layer, f.path);
    RestSplitsAtSlash(f);
    SlashInside(head, part, i);
    var y := (head + ("/" + part))[i + 1..];
    if MetadataTail(y).Some? {
      OneSlash(y, |head| - i - 1);
      PartIsNoFile(f.layer, f.path);
    }
  }

  lemma OneSlash(y: string, q: nat)
    requires MetadataTail(y).Some? && q < |y| && y[q] == '/'
    ensures y[q + 1..] == MANIFEST || y[q + 1..] == CONFIG
  {
    var n := Until(y, '/');
    var file := y[n + 1..];
    FileHasNoSlash();
    assert forall j :: n < j < |y| ==> y[j] == file[j - n - 1];
  }

  lemma FileHasNoSlash()
    ensures '/' !in MANIFEST && '/' !in CONFIG
  {
  }

  lemma PartIsNoFile(layer: string, path: string)
    requires ShaText(layer, ':')
    ensures PrintPart(layer, path) != MANIFEST && PrintPart(layer, path) != CONFIG
  {
    assert PrintPart(layer, path)[0] == SHA[0] == 's';
    assert MANIFEST[0] == 'm' && CONFIG[0] == 'c';
  }

  lemma CutDecides(s: string, i: nat)
    requires ParseHead(s).Some? && LayerAt(ParseHead(s).value.rest, i)
    requires var rest := ParseHead(s).value.rest;
             && (forall k :: 0 <= k < |rest| ==> !MetadataAt(rest, k))
             && (forall k :: i < k < |rest| ==> !LayerAt(rest, k))
    ensures var h := ParseHead(s).value;
            var t := LayerTail(h.rest[i + 1..]).value;
            ParseRaw(s) == Some(OfLayer(Layer(h.registry, h.repository, h.rest[..i], t.manifest, t.layer, t.path)))
  {
    hide ParseHead, LayerTail, MetadataTail, LayerAt, MetadataAt;
    var rest := ParseHead(s).value.rest;
    LastMetadataSound(rest, |rest|);
    LastLayerSound(rest, |rest|);
    LayerAtIsInside(rest, i);
  }

  lemma LayerAtIsInside(rest: string, i: nat)
    requires LayerAt(rest, i)
    ensures i < |rest|
  {
  }

  lemma LaterCutWins(s: string, i: nat)
    requires ParseHead(s).Some? && CutsAt(ParseHead(s).value.rest, i)
    requires LayerAt(ParseHead(s).value.rest, i) || MetadataAt(ParseHead(s).value.rest, i)
    ensures ParseRaw(s).Some? && (ParseRaw(s).value.OfLayer? ==> |ParseRaw(s).value.layer.image| >= i)
  {
    hide ParseHead, LayerTail, MetadataTail;
    var rest := ParseHead(s).value.rest;
    LastMetadataSound(rest, |rest|);
    LastLayerSound(rest, |rest|);
  }

  /** Parsing a printed layer locator gives back every field exactly when the path holds no second locator tail. */
  lemma RoundTrip(f: Layer)
    requires Printable(f)
    ensures ParseRaw(PrintLayer(f)) == Some(OfLayer(f)) <==> !Captured(f.path)
  {
    hide ParseHead, ParseRaw, LayerTail, MetadataTail, PrintTail, LayerFields, PrintLayer, Before, OneLine, CutsAt;
    var rest := Before(f) + f.path;
    RestSplits(f);
    assert LayerFields(f) by { FieldsOf(f); }
    MatchIsCut(f);
    if Captured(f.path) {
      var j :| 0 <= j < |f.path| && f.path[j] == '@'
          && (LayerTail(f.path[j + 1..]).Some? || MetadataTail(f.path[j + 1..]).Some?);
      CapturedCut(f, j);
      LaterCutWins(PrintLayer(f), |Before(f)| + j);
      ImageComesFirst(f);
    } else {
      forall i | 0 <= i < |rest|
        ensures !MetadataAt(rest, i) && (i > |f.image| ==> !LayerAt(rest, i))
      {
        NoOtherCut(f, i);
      }
      CutDecides(PrintLayer(f), |f.image|);
    }
  }

  lemma FieldsOf(f: Layer)
    requires Printable(f)
    ensures LayerFields(f)
  {
  }

  lemma ImageComesFirst(f: Layer)
    ensures |f.image| < |Before(f)|
  {
  }

  lemma NoOtherCut(f: Layer, i: nat)
    requires Printable(f) && !Captured(f.path) && i < |Before(f) + f.path|
    ensures !MetadataAt(Before(f) + f.path, i) && (i > |f.image| ==> !LayerAt(Before(f) + f.path, i))
  {
    hide LayerTail, MetadataTail, Before;
    if i <= |f.image| {
      NoEarlyMetadata(f, i);
    } else if (Before(f) + f.path)[i] == '@' {
      LaterCut(f, i);
    }
  }

  /** In particular a path without "@sha256:" always survives, and only its spelling is normalized. */
  lemma OrdinaryRoundTrip(f: Layer)
    requires Printable(f) && forall j :: 0 <= j < |f.path| && f.path[j] == '@' ==> !(SHA <= f.path[j + 1..])
    ensures Parse(PrintLayer(f)) ==
            var path := Normalize(f.path); if path.Ok? then Ok(OfLayer(f.(path := path.value))) else Err(path.error)
  {
    hide ParseRaw, PrintLayer, Normalize, LayerFields;
    RoundTrip(f);
  }

  // Metadata locators

  function PrintMetadata(m: Metadata): string {
    PrintHead(Head(m.registry, m.repository, MetadataRest(m)))
  }

  function MetadataRest(m: Metadata): string { m.image + ("@" + (m.manifest + ("/" + m.path))) }

  predicate MetadataFields(m: Metadata) {
    && HeadFields(Head(m.registry, m.repository, ""))
    && m.image != "" && OneLine(m.image) && ShaText(m.manifest, '/') && (m.path == MANIFEST || m.path == CONFIG)
  }

  lemma MetadataTailOf(manifest: string, path: string)
    requires ShaText(manifest, '/') && (path == MANIFEST || path == CONFIG)
    ensures MetadataTail(manifest + ("/" + path)) == Some(Tail(manifest, "", path))
  {
    hide Until;
    ShaHasNoSlash(manifest);
    UntilStops(manifest, '/', "/" + path);
    After(manifest, "/" + path);
    After("/", path);
  }

  lemma MetadataTailSound(s: string)
    requires MetadataTail(s).Some?
    ensures var t := MetadataTail(s).value;
            s == t.manifest + ("/" + t.path) && ShaText(t.manifest, '/') && (t.path == MANIFEST || t.path == CONFIG)
  {
    var n := Until(s, '/');
    assert s == s[..n] + ("/" + s[n + 1..]);
  }

  lemma MetadataIsCut(m: Metadata)
    requires MetadataFields(m)
    ensures ParseHead(PrintMetadata(m)) == Some(Head(m.registry, m.repository, MetadataRest(m)))
    ensures MetadataAt(MetadataRest(m), |m.image|) && MetadataRest(m)[..|m.image|] == m.image
    ensures MetadataTail(MetadataRest(m)[|m.image| + 1..]) == Some(Tail(m.manifest, "", m.path))
  {
    hide ParseHead, MetadataTail;
    var tail := m.manifest + ("/" + m.path);
    HeadOf(Head(m.registry, m.repository, MetadataRest(m)));
    After(m.image, "@" + tail);
    After("@", tail);
    MetadataTailOf(m.manifest, m.path);
  }

  /** A locator is read as metadata exactly when the metadata pattern matches it, whatever the layer pattern says. */
  lemma MetadataComesFirst(s: string)
    ensures (ParseRaw(s).Some? && ParseRaw(s).value.OfMetadata?) <==>
              exists m :: MetadataFields(m) && PrintMetadata(m) == s
  {
    hide ParseHead, LayerTail, MetadataTail, MetadataFields, PrintMetadata;
    if m :| MetadataFields(m) && PrintMetadata(m) == s {
      MetadataIsCut(m);
      LastMetadataSound(ParseHead(s).value.rest, |ParseHead(s).value.rest|);
      MetadataAtIsInside(ParseHead(s).value.rest, |m.image|);
    }
    if ParseRaw(s).Some? && ParseRaw(s).value.OfMetadata? {
      HeadSound(s);
      CutIsMetadata(ParseHead(s).value, CutOfMetadata(ParseHead(s).value.rest).value);
    }
  }

  lemma MetadataAtIsInside(rest: string, i: nat)
    requires MetadataAt(rest, i)
    ensures i < |rest|
  {
  }

  lemma CutIsMetadata(h: Head, i: nat)
    requires HeadFields(h) && MetadataAt(h.rest, i)
    ensures exists m :: MetadataFields(m) && PrintMetadata(m) == PrintHead(h)
  {
    hide ParseHead, MetadataTail, PrintHead, HeadFields;
    var t := MetadataTail(h.rest[i + 1..]).value;
    MetadataTailSound(h.rest[i + 1..]);
    assert h.rest == h.rest[..i] + ("@" + h.rest[i + 1..]);
    SameHead(h);
    var m := Metadata(h.registry, h.repository, h.rest[..i], t.manifest, t.path);
    assert MetadataRest(m) == h.rest;
    assert MetadataFields(m) && PrintMetadata(m) == PrintHead(h);
  }

  /** Parsing a printed metadata locator gives back every field. */
  lemma MetadataRoundTrip(m: Metadata)
    requires MetadataFields(m) && '@' !in m.manifest
    ensures Parse(PrintMetadata(m)) == Ok(OfMetadata(m))
  {
    hide ParseHead, MetadataTail, LayerTail, MetadataFields, PrintMetadata;
    MetadataIsCut(m);
    var rest := MetadataRest(m);
    NoLaterAt(m);
    LastMetadataSound(rest, |rest|);
    MetadataAtIsInside(rest, |m.image|);
  }

  lemma NoLaterAt(m: Metadata)
    requires MetadataFields(m) && '@' !in m.manifest
    ensures forall i :: |m.image| < i < |MetadataRest(m)| ==> MetadataRest(m)[i] != '@'
  {
    var tail := m.manifest + ("/" + m.path);
    assert '@' !in MANIFEST && '@' !in CONFIG;
    assert '@' !in tail;
    assert forall i :: |m.image| < i < |MetadataRest(m)| ==> MetadataRest(m)[i] == tail[i - |m.image| - 1];
  }

  // Archives

  /** One member of a layer archive; a regular file may turn out unreadable. */
  datatype Member = Member(name: string, isFile: bool, content: Option<Bytes>)

  const WHITEOUT := ".wh."

  /** A regular file at this normal path that is no whiteout marker. */
  predicate Denotes(m: Member, path: string) {
    && m.isFile && Normalize(m.name) == Ok(path)
    && forall part <- Split(path) :: !(WHITEOUT <= part)
  }

  /** The first member that denotes the path decides; without one there is no file. */
  method FindFile(members: seq<Member>, path: string) returns (found: Result<Option<Bytes>, string>)
    ensures found == Ok(None) <==> forall i :: 0 <= i < |members| ==> !Denotes(members[i], path)
    ensures found != Ok(None) ==>
              exists i :: 0 <= i < |members| && Denotes(members[i], path)
                  && (forall j :: 0 <= j < i ==> !Denotes(members[j], path))
                          && (if members[i].content.Some? then found == Ok(members[i].content) else found.Err?)
  {
    hide Normalize, Split;
    for i := 0 to |members|
      invariant forall j :: 0 <= j < i ==> !Denotes(members[j], path)
    {
      var m := members[i];
      if !m.isFile {
        continue;
      }
      var normal := Normalize(m.name);
      if normal.Err? {
        continue;
      }
      if (exists part <- Split(normal.value) :: WHITEOUT <= part) || normal.value != path {
        continue;
      }
      assert Denotes(m, path);
      if m.content.None? {
        return Err("could not read layer member");
      }
      return Ok(m.content);
    }
    return Ok(None);
  }
}
