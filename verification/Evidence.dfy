/** Where the evidence of a credential lives, and how its bytes get there.
    The file system is a map of names to inodes, because a hard link shares its bytes with the name it was made from. */
module Evidence {
  import opened Documents

  // Percent-encoding of the UTF-8 form, section 2.1 of RFC 3986

  function Utf8(c: char): Bytes {
    var u := c as int;
    if u < 0x80 then [u]
    else if u < 0x800 then [0xC0 + u / 64, 0x80 + u % 64]
    else if u < 0x10000 then [0xE0 + u / 4096, 0x80 + u / 64 % 64, 0x80 + u % 64]
    else [0xF0 + u / 262144, 0x80 + u / 4096 % 64, 0x80 + u / 64 % 64, 0x80 + u % 64]
  }

  function Utf8All(s: string): Bytes {
    if s == [] then [] else Utf8(s[0]) + Utf8All(s[1..])
  }

  predicate Unreserved(b: Byte) {
    || 'A' as int <= b <= 'Z' as int || 'a' as int <= b <= 'z' as int || '0' as int <= b <= '9' as int
    || b == '_' as int || b == '.' as int || b == '-' as int || b == '~' as int
  }

  function HexDigit(n: int): char
    requires 0 <= n < 16
  {
    "0123456789ABCDEF"[n]
  }

  function QuoteByte(b: Byte): string {
    if Unreserved(b) then [b as char] else ['%', HexDigit(b / 16), HexDigit(b % 16)]
  }

  function QuoteBytes(s: Bytes): string {
    if s == [] then "" else QuoteByte(s[0]) + QuoteBytes(s[1..])
  }

  function Quote(id: string): string { QuoteBytes(Utf8All(id)) }

  /** The first byte tells how many follow. */
  lemma Utf8Lengths(c: char, d: char)
    requires Utf8(c)[0] == Utf8(d)[0]
    ensures |Utf8(c)| == |Utf8(d)|
  {
    assert c as int < 0x110000 && d as int < 0x110000;
  }

  lemma Base64DigitsInjective(m: nat, n: nat)
    requires m / 64 == n / 64 && m % 64 == n % 64
    ensures m == n
  {
  }

  lemma ShiftTwice(m: nat)
    ensures m / 64 / 64 == m / 4096 && m / 4096 / 64 == m / 262144
  {
  }

  lemma Utf8CharInjective(c: char, d: char)
    requires Utf8(c) == Utf8(d)
    ensures c == d
  {
    var u, v := Utf8(c), Utf8(d);
    var m, n := c as int, d as int;
    if |u| >= 2 {
      assert u[0] == v[0] && u[1] == v[1] && u[|u| - 1] == v[|v| - 1];
      ShiftTwice(m);
      ShiftTwice(n);
      if |u| == 4 {
        assert u[2] == v[2];
        Base64DigitsInjective(m / 4096, n / 4096);
      }
      if |u| >= 3 {
        Base64DigitsInjective(m / 64, n / 64);
      }
      Base64DigitsInjective(m, n);
    } else {
      assert u[0] == v[0];
    }
  }

  lemma Utf8First(c: char, d: char, x: Bytes, y: Bytes)
    requires Utf8(c) + x == Utf8(d) + y
    ensures c == d && x == y
  {
    var l, r := Utf8(c) + x, Utf8(d) + y;
    assert l[0] == Utf8(c)[0] && r[0] == Utf8(d)[0];
    Utf8Lengths(c, d);
    assert l[..|Utf8(c)|] == Utf8(c) && r[..|Utf8(d)|] == Utf8(d);
    assert l[|Utf8(c)|..] == x && r[|Utf8(d)|..] == y;
    Utf8CharInjective(c, d);
  }

  lemma {:induction false} Utf8Injective(a: string, b: string)
    requires Utf8All(a) == Utf8All(b)
    ensures a == b
  {
    if a != [] && b != [] {
      Utf8First(a[0], b[0], Utf8All(a[1..]), Utf8All(b[1..]));
      Utf8Injective(a[1..], b[1..]);
      assert a == [a[0]] + a[1..] && b == [b[0]] + b[1..];
    }
  }

  lemma HexDigitInjective(m: int, n: int)
    requires 0 <= m < 16 && 0 <= n < 16 && HexDigit(m) == HexDigit(n)
    ensures m == n
  {
  }

  lemma QuoteFirst(b: Byte, c: Byte, x: string, y: string)
    requires QuoteByte(b) + x == QuoteByte(c) + y
    ensures b == c && x == y
  {
    var l, r := QuoteByte(b) + x, QuoteByte(c) + y;
    assert l[0] == QuoteByte(b)[0] && r[0] == QuoteByte(c)[0];
    assert x == l[|QuoteByte(b)|..] && y == r[|QuoteByte(c)|..];
    if !Unreserved(b) {
      assert l[1] == HexDigit(b / 16) && l[2] == HexDigit(b % 16);
      assert r[1] == HexDigit(c / 16) && r[2] == HexDigit(c % 16);
      HexDigitInjective(b / 16, c / 16);
      HexDigitInjective(b % 16, c % 16);
    }
  }

  lemma {:induction false} QuoteBytesInjective(a: Bytes, b: Bytes)
    requires QuoteBytes(a) == QuoteBytes(b)
    ensures a == b
  {
    if a != [] && b != [] {
      QuoteFirst(a[0], b[0], QuoteBytes(a[1..]), QuoteBytes(b[1..]));
      QuoteBytesInjective(a[1..], b[1..]);
      assert a == [a[0]] + a[1..] && b == [b[0]] + b[1..];
    }
  }

  /** Distinct credential IDs have distinct directory names. */
  lemma QuoteInjective(a: string, b: string)
    ensures Quote(a) == Quote(b) <==> a == b
  {
    if Quote(a) == Quote(b) {
      QuoteBytesInjective(Utf8All(a), Utf8All(b));
      Utf8Injective(a, b);
    }
  }

  lemma QuoteByteIsSafe(b: Byte)
    ensures '/' !in QuoteByte(b) && '\\' !in QuoteByte(b)
  {
    if !Unreserved(b) {
      HexDigitIsSafe(b / 16);
      HexDigitIsSafe(b % 16);
    }
  }

  lemma HexDigitIsSafe(n: int)
    requires 0 <= n < 16
    ensures HexDigit(n) != '/' && HexDigit(n) != '\\'
  {
  }

  lemma {:induction false} QuoteIsOneComponent(s: Bytes)
    ensures '/' !in QuoteBytes(s) && '\\' !in QuoteBytes(s)
  {
    hide QuoteByte;
    forall b: Byte {
      QuoteByteIsSafe(b);
    }
    if s != [] {
      QuoteIsOneComponent(s[1..]);
    }
  }

  // Destinations

  /** A file name that names no other directory. */
  predicate Plain(filename: string) {
    filename != "" && filename != "." && filename != ".." && '/' !in filename && '\\' !in filename
  }

  /** Joining path components drops empty ones and single dots. */
  function Home(id: string): Path {
    if Quote(id) == "" || Quote(id) == "." then ["evidence"] else ["evidence", Quote(id)]
  }

  function Destination(id: string, filename: string): Result<Path, string> {
    if Plain(filename) then Ok(Home(id) + [filename]) else Err("evidence filename must be a plain safe filename")
  }

  function Temporary(destination: Path): Path
    requires destination != []
  {
    destination[..|destination| - 1] + ["." + destination[|destination| - 1] + ".tmp"]
  }

  predicate Homeless(id: string) { id == "" || id == "." }

  lemma SpecialNames()
    ensures Quote("") == "" && Quote(".") == "." && Quote("..") == ".."
  {
    assert Utf8All("") == [] && Utf8All(".") == ['.' as int];
    assert Utf8All("..") == ['.' as int] + Utf8All(".");
    assert QuoteBytes(['.' as int]) == "." + QuoteBytes([]);
    assert ['.' as int, '.' as int][1..] == ['.' as int];
    assert QuoteBytes(['.' as int, '.' as int]) == "." + QuoteBytes(['.' as int]);
  }

  lemma HomesMeet(a: string, b: string)
    ensures Home(a) == Home(b) <==> a == b || (Homeless(a) && Homeless(b))
  {
    SpecialNames();
    QuoteInjective(a, b);
    QuoteInjective(a, "");
    QuoteInjective(b, "");
    QuoteInjective(a, ".");
    QuoteInjective(b, ".");
    if Home(a) == Home(b) && |Home(a)| == 2 {
      assert Quote(a) == Home(a)[1] == Home(b)[1] == Quote(b);
    }
  }

  /** Two credentials share a destination exactly when the file name and the ID agree, or both IDs vanish from the
      path. */
  lemma DestinationsMeet(a: string, f: string, b: string, g: string)
    requires Plain(f) && Plain(g)
    ensures Destination(a, f) == Destination(b, g) <==> f == g && (a == b || (Homeless(a) && Homeless(b)))
  {
    HomesMeet(a, b);
    var p, q := Home(a) + [f], Home(b) + [g];
    assert p[..|p| - 1] == Home(a) && q[..|q| - 1] == Home(b);
  }

  /** The ".." steps of a path, taken. */
  function Resolve(p: Path): Path {
    if p == [] then []
    else
      var parent, last := Resolve(p[..|p| - 1]), p[|p| - 1];
      if last == ".." && parent != [] then parent[..|parent| - 1] else parent + [last]
  }

  lemma ResolveHome(id: string)
    ensures Resolve(Home(id)) == if id == ".." then [] else Home(id)
  {
    hide QuoteBytes, Utf8All;
    SpecialNames();
    QuoteInjective(id, "..");
    assert Resolve([]) == [];
    assert ["evidence"][..0] == [];
    assert Resolve(["evidence"]) == ["evidence"];
    if |Home(id)| == 2 {
      assert ["evidence", Quote(id)][..1] == ["evidence"];
    }
  }

  lemma ResolveSnoc(h: Path, f: string)
    requires f != ".."
    ensures Resolve(h + [f]) == Resolve(h) + [f]
  {
    assert (h + [f])[..|h|] == h;
  }

  /** Every destination lies below the evidence directory except that of the ID "..". */
  lemma DestinationsStayInside(id: string, f: string)
    requires Plain(f)
    ensures var p := Resolve(Home(id) + [f]);
            && p[|p| - 1] == f
            && (id != ".." <==> |p| >= 2 && p[0] == "evidence")
  {
    hide Quote, Resolve;
    ResolveHome(id);
    assert Home(id)[0] == "evidence";
    ResolveSnoc(Home(id), f);
  }

  /** A temporary name is never the destination of a differently named file or of another credential. */
  lemma TemporaryIsApart(a: string, f: string, b: string, g: string)
    requires Plain(f) && Plain(g)
    requires a == b ==> f == g
    requires !(Homeless(a) && Homeless(b) && a != b)
    ensures Temporary(Home(a) + [f]) != Home(b) + [g]
  {
    HomesMeet(a, b);
    var p, q := Temporary(Home(a) + [f]), Home(b) + [g];
    assert (Home(a) + [f])[..|Home(a)|] == Home(a);
    assert p[..|p| - 1] == Home(a) && q[..|q| - 1] == Home(b);
    assert p[|p| - 1] == "." + f + ".tmp" && q[|q| - 1] == g;
    assert |"." + f + ".tmp"| > |f|;
  }

  // Files

  /** Names and the inodes behind them. */
  datatype Files = Files(names: map<Path, nat>, data: map<nat, Bytes>) {
    predicate Has(p: Path) { p in names && names[p] in data }

    function Read(p: Path): Bytes
      requires Has(p)
    {
      data[names[p]]
    }

    /** No other name reaches the bytes behind p. */
    ghost predicate Sole(p: Path)
      requires p in names
    {
      forall q <- names :: names[q] == names[p] ==> q == p
    }

    ghost predicate Valid() { forall p <- names :: names[p] in data }
  }

  datatype FileOp =
    | Truncate(path: Path, inode: nat)
    | Fill(path: Path, content: Bytes)
    | Link(source: Path, path: Path)
    | Unlink(path: Path)

  /** Opening for writing empties an existing inode, shared or not, and otherwise allocates a new one. */
  function Operate(fs: Files, op: FileOp): Files {
    match op
    case Truncate(p, i) =>
      if p in fs.names then fs.(data := fs.data[fs.names[p] := []]) else Files(fs.names[p := i], fs.data[i := []])
    case Fill(p, content) => if p in fs.names then fs.(data := fs.data[fs.names[p] := content]) else fs
    case Link(s, p) => if s in fs.names && p !in fs.names then fs.(names := fs.names[p := fs.names[s]]) else fs
    case Unlink(p) => fs.(names := fs.names - {p})
  }

  function OperateAll(fs: Files, ops: seq<FileOp>): Files {
    if ops == [] then fs else Operate(OperateAll(fs, ops[..|ops| - 1]), ops[|ops| - 1])
  }

  datatype Retention = Retention(ops: seq<FileOp>, adopted: bool)

  /** Write the temporary name in full, link it if the destination is free, compare otherwise, drop the temporary
      name. */
  function Retain(fs: Files, destination: Path, content: Bytes, inode: nat): Retention
    requires destination != []
  {
    var t := Temporary(destination);
    var written := Operate(Operate(fs, Truncate(t, inode)), Fill(t, content));
    if destination in fs.names
    then Retention([Truncate(t, inode), Fill(t, content), Unlink(t)], written.Has(destination)
                   && written.Read(destination) == content)
    else Retention([Truncate(t, inode), Fill(t, content), Link(t, destination), Unlink(t)], true)
  }

  /** A crash after the link and before the temporary name is dropped leaves two names for one inode. */
  predicate LooseEnd(fs: Files, destination: Path)
    requires destination != []
  {
    destination in fs.names && Temporary(destination) in fs.names
        && fs.names[destination] == fs.names[Temporary(destination)]
  }

  lemma TemporaryDiffers(destination: Path)
    requires destination != []
    ensures Temporary(destination) != destination
  {
    var t, last := Temporary(destination), destination[|destination| - 1];
    assert t[|t| - 1] == "." + last + ".tmp";
    assert |t[|t| - 1]| > |last|;
  }

  lemma TemporaryInjective(p: Path, q: Path)
    requires p != [] && q != [] && Temporary(p) == Temporary(q)
    ensures p == q
  {
    var s, t, m, n := Temporary(p), Temporary(q), p[|p| - 1], q[|q| - 1];
    assert s[|s| - 1] == "." + m + ".tmp" && t[|t| - 1] == "." + n + ".tmp";
    assert ("." + m + ".tmp")[1..|m| + 1] == m && ("." + n + ".tmp")[1..|n| + 1] == n;
    assert p == s[..|s| - 1] + [m] && q == t[..|t| - 1] + [n];
  }

  lemma OperateFour(fs: Files, a: FileOp, b: FileOp, c: FileOp, d: FileOp)
    ensures OperateAll(fs, [a, b, c]) == Operate(Operate(Operate(fs, a), b), c)
    ensures OperateAll(fs, [a, b, c, d]) == Operate(Operate(Operate(Operate(fs, a), b), c), d)
  {
    assert [a][..0] == [] && [a, b][..1] == [a] && [a, b, c][..2] == [a, b] && [a, b, c, d][..3] == [a, b, c];
    assert OperateAll(fs, [a]) == Operate(fs, a);
    assert OperateAll(fs, [a, b]) == Operate(Operate(fs, a), b);
    assert OperateAll(fs, [a, b, c]) == Operate(Operate(Operate(fs, a), b), c);
  }

  /** The file system after each step of a retention. */
  lemma RetainSteps(fs: Files, destination: Path, content: Bytes, inode: nat)
    requires destination != []
    ensures var t := Temporary(destination);
            var written := Operate(Operate(fs, Truncate(t, inode)), Fill(t, content));
            OperateAll(fs, Retain(fs, destination, content, inode).ops) ==
            Operate(if destination in fs.names then written else Operate(written, Link(t, destination)), Unlink(t))
  {
    var t := Temporary(destination);
    OperateFour(fs, Truncate(t, inode), Fill(t, content), Unlink(t), Unlink(t));
    OperateFour(fs, Truncate(t, inode), Fill(t, content), Link(t, destination), Unlink(t));
  }

  ghost predicate RetentionFrame(fs: Files, after: Files, destination: Path, content: Bytes, adopted: bool)
    requires destination != [] && fs.Valid()
  {
    var t := Temporary(destination);
    && after.Valid()
    && (forall p :: p != destination ==> (p in after.names <==> p in fs.names && p != t))
    && (forall p <- fs.names :: p != t ==> p in after.names && after.names[p] == fs.names[p])
    && t !in after.names
    && (adopted ==> after.Has(destination) && after.Read(destination) == content)
    && forall p <- fs.names :: p != t && (t in fs.names ==> fs.names[p] != fs.names[t]) ==>
         after.Has(p) && after.Read(p) == fs.Read(p)
  }

  lemma RewriteFrame(fs: Files, t: Path, content: Bytes, inode: nat)
    requires fs.Valid() && inode !in fs.data
    ensures var w := Operate(Operate(fs, Truncate(t, inode)), Fill(t, content));
            && w.Valid() && w.names.Keys == fs.names.Keys + {t}
            && w.Has(t) && w.Read(t) == content
            && forall p <- fs.names :: p != t ==>
                 && w.names[p] == fs.names[p]
                 && ((t in fs.names ==> fs.names[p] != fs.names[t]) ==> w.Read(p) == fs.Read(p))
                 && (t in fs.names && fs.names[p] == fs.names[t] ==> w.Read(p) == content)
  {
  }

  lemma AdoptFrame(fs: Files, destination: Path, content: Bytes, inode: nat)
    requires destination != [] && fs.Valid() && inode !in fs.data && destination in fs.names
    ensures var t := Temporary(destination);
            var w := Operate(Operate(fs, Truncate(t, inode)), Fill(t, content));
            RetentionFrame(fs, Operate(w, Unlink(t)), destination, content, w.Has(destination)
                           && w.Read(destination) == content)
  {
    hide Temporary;
    TemporaryDiffers(destination);
    RewriteFrame(fs, Temporary(destination), content, inode);
  }

  lemma LinkFrame(fs: Files, destination: Path, content: Bytes, inode: nat)
    requires destination != [] && fs.Valid() && inode !in fs.data && destination !in fs.names
    ensures var t := Temporary(destination);
            var w := Operate(Operate(fs, Truncate(t, inode)), Fill(t, content));
            RetentionFrame(fs, Operate(Operate(w, Link(t, destination)), Unlink(t)), destination, content, true)
  {
    hide Temporary;
    TemporaryDiffers(destination);
    RewriteFrame(fs, Temporary(destination), content, inode);
  }

  /** Retention leaves every other name as it was, never leaves a loose end, and on success the destination holds the
      content. */
  lemma RetainFrame(fs: Files, destination: Path, content: Bytes, inode: nat)
    requires destination != [] && fs.Valid() && inode !in fs.data
    ensures var r := Retain(fs, destination, content, inode);
            RetentionFrame(fs, OperateAll(fs, r.ops), destination, content, r.adopted)
  {
    hide Temporary, RetentionFrame, Operate, OperateAll;
    RetainSteps(fs, destination, content, inode);
    if destination in fs.names {
      AdoptFrame(fs, destination, content, inode);
    } else {
      LinkFrame(fs, destination, content, inode);
    }
  }

  /** An existing artifact is adopted exactly when its bytes equal the new content or a crash left its temporary
      name behind; only in the latter case are its bytes replaced. */
  lemma OrphanAdoption(fs: Files, destination: Path, content: Bytes, inode: nat)
    requires destination in fs.names && destination != [] && fs.Valid() && inode !in fs.data
    ensures var r := Retain(fs, destination, content, inode);
            var after := OperateAll(fs, r.ops);
            && (r.adopted <==> fs.Read(destination) == content || LooseEnd(fs, destination))
            && after.Has(destination)
            && after.Read(destination) == if LooseEnd(fs, destination) then content else fs.Read(destination)
  {
    var t := Temporary(destination);
    assert fs.Has(destination);
    TemporaryDiffers(destination);
    RewriteFrame(fs, t, content, inode);
    OperateFour(fs, Truncate(t, inode), Fill(t, content), Unlink(t), Unlink(t));
  }

  // Attempts that stop anywhere

  /** Write the temporary name and drop it again: a failed write, or a retention that finds its destination occupied. */
  function RewriteOps(destination: Path, written: Bytes, inode: nat): seq<FileOp>
    requires destination != []
  {
    var t := Temporary(destination);
    [Truncate(t, inode), Fill(t, written), Unlink(t)]
  }

  lemma RewriteSteps(fs: Files, destination: Path, written: Bytes, inode: nat, k: nat)
    requires destination != [] && k <= 3
    ensures var t := Temporary(destination);
            var one := Operate(fs, Truncate(t, inode));
            var two := Operate(one, Fill(t, written));
            OperateAll(fs, RewriteOps(destination, written, inode)[..k]) ==
            if k == 0 then fs else if k == 1 then one else if k == 2 then two else Operate(two, Unlink(t))
  {
    var t := Temporary(destination);
    var ops := RewriteOps(destination, written, inode);
    assert ops[..0] == [] && ops[..1] == [ops[0]] && ops[..2] == [ops[0], ops[1]] && ops[..3] == ops;
    assert [ops[0]][..0] == [] && [ops[0], ops[1]][..1] == [ops[0]];
    assert OperateAll(fs, []) == fs;
    assert OperateAll(fs, [ops[0]]) == Operate(fs, ops[0]);
    assert OperateAll(fs, [ops[0], ops[1]]) == Operate(Operate(fs, ops[0]), ops[1]);
    OperateFour(fs, ops[0], ops[1], ops[2], ops[2]);
  }

  /** The bytes at an occupied destination after the first k steps of any attempt, complete or torn: they stay unless
      the destination shares its inode with the temporary name, and then the first step already empties them. */
  lemma OccupiedDestination(fs: Files, destination: Path, written: Bytes, inode: nat, k: nat)
    requires destination in fs.names && destination != [] && fs.Valid() && inode !in fs.data && k <= 3
    ensures Retain(fs, destination, written, inode).ops == RewriteOps(destination, written, inode)
    ensures var now := OperateAll(fs, RewriteOps(destination, written, inode)[..k]);
            && now.Has(destination)
            && now.Read(destination) ==
               if !LooseEnd(fs, destination) || k == 0 then fs.Read(destination) else if k == 1 then [] else written
  {
    hide Temporary, OperateAll;
    TemporaryDiffers(destination);
    RewriteSteps(fs, destination, written, inode, k);
    assert fs.Has(destination);
  }

  /** Linked bytes survive every stop of an attempt exactly when no loose end exposes them; nothing is at stake only
      when both the old and the written bytes are empty. */
  lemma LinkedBytesSurvive(fs: Files, destination: Path, written: Bytes, inode: nat)
    requires destination in fs.names && destination != [] && fs.Valid() && inode !in fs.data
    ensures (forall k: nat :: k <= 3 ==>
              BytesAt(OperateAll(fs, RewriteOps(destination, written, inode)[..k]), destination) ==
                  Some(fs.Read(destination)))
            <==> !LooseEnd(fs, destination) || fs.Read(destination) == [] == written
  {
    hide OperateAll, Retain, LooseEnd, Temporary;
    forall k: nat | k <= 3
      ensures BytesAt(OperateAll(fs, RewriteOps(destination, written, inode)[..k]), destination) ==
              Some(if !LooseEnd(fs, destination)
                   || k == 0 then fs.Read(destination) else if k == 1 then [] else written)
    {
      OccupiedDestination(fs, destination, written, inode, k);
    }
    if LooseEnd(fs, destination) {
      assert BytesAt(OperateAll(fs, RewriteOps(destination, written, inode)[..1]), destination) == Some([]);
      assert BytesAt(OperateAll(fs, RewriteOps(destination, written, inode)[..2]), destination) == Some(written);
    }
  }

  /** An attempt at a free destination leaves it free or, once linked, complete. */
  lemma FreeDestination(fs: Files, destination: Path, content: Bytes, inode: nat, k: nat)
    requires destination !in fs.names && destination != [] && fs.Valid() && inode !in fs.data && k <= 4
    ensures BytesAt(OperateAll(fs, Retain(fs, destination, content, inode).ops[..k]), destination) ==
            if k < 3 then None else Some(content)
  {
    hide Temporary, OperateAll;
    var ops := Retain(fs, destination, content, inode).ops;
    TemporaryDiffers(destination);
    if k < 3 {
      RewriteSteps(fs, destination, content, inode, k);
      assert ops[..k] == RewriteOps(destination, content, inode)[..k];
    } else {
      LinkedContent(fs, destination, content, inode);
      assert ops[..3] == [ops[0], ops[1], ops[2]] && ops[..4] == ops;
    }
  }

  lemma LinkedContent(fs: Files, destination: Path, content: Bytes, inode: nat)
    requires destination !in fs.names && destination != [] && fs.Valid() && inode !in fs.data
    ensures var ops := Retain(fs, destination, content, inode).ops;
            && BytesAt(OperateAll(fs, [ops[0], ops[1], ops[2]]), destination) == Some(content)
            && BytesAt(OperateAll(fs, ops), destination) == Some(content)
  {
    hide Temporary, OperateAll;
    var ops := Retain(fs, destination, content, inode).ops;
    TemporaryDiffers(destination);
    OperateFour(fs, ops[0], ops[1], ops[2], ops[3]);
    RewriteFrame(fs, Temporary(destination), content, inode);
  }

  function BytesAt(fs: Files, p: Path): Option<Bytes> { if fs.Has(p) then Some(fs.Read(p)) else None }

  /** The documented rule "never overwrite a conflicting artifact" fails after a crash in that one window. */
  lemma CrashedLinkIsOverwritten()
    ensures var p := ["evidence", "id", "app.env"];
            var crashed := OperateAll(Files(map[], map[]), Retain(Files(map[], map[]), p, [1], 0).ops[..3]);
            && crashed.Has(p) && crashed.Read(p) == [1]
            && Retain(crashed, p, [2], 1).adopted
            && var after := OperateAll(crashed, Retain(crashed, p, [2], 1).ops);
               after.Has(p) && after.Read(p) == [2]
  {
    var p: Path := ["evidence", "id", "app.env"];
    var t, none := Temporary(p), Files(map[], map[]);
    TemporaryDiffers(p);
    OperateFour(none, Truncate(t, 0), Fill(t, [1]), Link(t, p), Unlink(t));
    assert Retain(none, p, [1], 0).ops[..3] == [Truncate(t, 0), Fill(t, [1]), Link(t, p)];
    var crashed := OperateAll(none, [Truncate(t, 0), Fill(t, [1]), Link(t, p)]);
    assert LooseEnd(crashed, p);
    OrphanAdoption(crashed, p, [2], 1);
  }

  ghost function Above(s: set<nat>): (bound: nat)
    ensures forall x <- s :: x < bound
  {
    if s == {} then 0
    else
      var x :| x in s;
      var rest := Above(s - {x});
      assert s == (s - {x}) + {x};
      if x < rest then rest else x + 1
  }

  lemma FreshInode(s: set<nat>)
    ensures exists i: nat :: i !in s
  {
    assert Above(s) !in s;
  }
}
