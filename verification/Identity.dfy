/** The canonical form that decides whether two secrets are one credential. Base64 is that of section 4 of RFC 4648. */
module Identity {
  import opened Documents
  import opened Text
  import opened Evidence

  // Base64

  type Sextet = n: int | 0 <= n < 64

  function Letter(n: Sextet): char {
    if n < 26 then ('A' as int + n) as char
    else if n < 52 then ('a' as int + n - 26) as char
    else if n < 62 then ('0' as int + n - 52) as char
    else if n == 62 then '+' else '/'
  }

  function Value(c: char): Option<Sextet> {
    if 'A' <= c <= 'Z' then Some(c as int - 'A' as int)
    else if 'a' <= c <= 'z' then Some(c as int - 'a' as int + 26)
    else if '0' <= c <= '9' then Some(c as int - '0' as int + 52)
    else if c == '+' then Some(62)
    else if c == '/' then Some(63)
    else None
  }

  lemma ValueOfLetter(n: Sextet)
    ensures Value(Letter(n)) == Some(n)
  {
  }

  // Three bytes as four sextets

  function First(x: Byte): Sextet { x / 4 }

  function Second(x: Byte, y: Byte): Sextet { x % 4 * 16 + y / 16 }

  function Third(y: Byte, z: Byte): Sextet { y % 16 * 4 + z / 64 }

  function Fourth(z: Byte): Sextet { z % 64 }

  function Encode(data: Bytes): string {
    if data == [] then ""
    else if |data| == 1 then [Letter(First(data[0])), Letter(Second(data[0], 0)), '=', '=']
    else if |data| == 2 then [Letter(First(data[0])), Letter(Second(data[0], data[1])), Letter(Third(data[1], 0)), '=']
    else
      [Letter(First(data[0])), Letter(Second(data[0], data[1])), Letter(Third(data[1], data[2])),
       Letter(Fourth(data[2]))]
      + Encode(data[3..])
  }

  // Four sextets as three bytes

  function Left(a: Sextet, b: Sextet): Byte { a * 4 + b / 16 }

  function Middle(b: Sextet, c: Sextet): Byte { b % 16 * 16 + c / 4 }

  function Right(c: Sextet, d: Sextet): Byte { c % 4 * 64 + d }

  /** Strict decoding: nothing but the alphabet, and padding only at the end. */
  function Decode(s: string): Option<Bytes> {
    if s == "" then Some([])
    else if |s| < 4 then None
    else
      var a, b, c, d := Value(s[0]), Value(s[1]), Value(s[2]), Value(s[3]);
      if a.None? || b.None? then None
      else if |s| == 4 && s[2] == '=' && s[3] == '=' then Some([Left(a.value, b.value)])
      else if c.None? then None
      else if |s| == 4 && s[3] == '=' then Some([Left(a.value, b.value), Middle(b.value, c.value)])
      else if d.None? then None
      else
        var rest := Decode(s[4..]);
        if rest.None? then None
        else Some([Left(a.value, b.value), Middle(b.value, c.value), Right(c.value, d.value)] + rest.value)
  }

  /** Regrouping three bytes as four sextets loses nothing. */
  lemma Regroup(x: Byte, y: Byte, z: Byte)
    ensures Left(First(x), Second(x, y)) == x
    ensures Middle(Second(x, y), Third(y, z)) == y
    ensures Right(Third(y, z), Fourth(z)) == z
  {
  }

  lemma DecodeFull(a: Sextet, b: Sextet, c: Sextet, d: Sextet, rest: string)
    requires Decode(rest).Some?
    ensures Decode([Letter(a), Letter(b), Letter(c), Letter(d)] + rest) ==
              Some([Left(a, b), Middle(b, c), Right(c, d)] + Decode(rest).value)
  {
    hide Letter, Value, Left, Middle, Right;
    ValueOfLetter(a);
    ValueOfLetter(b);
    ValueOfLetter(c);
    ValueOfLetter(d);
    var s := [Letter(a), Letter(b), Letter(c), Letter(d)] + rest;
    assert s[4..] == rest;
    LetterIsNotPadding(c);
    LetterIsNotPadding(d);
  }

  lemma LetterIsNotPadding(n: Sextet)
    ensures Letter(n) != '='
  {
  }

  lemma DecodePadded(a: Sextet, b: Sextet, c: Sextet)
    ensures Decode([Letter(a), Letter(b), '=', '=']) == Some([Left(a, b)])
    ensures Decode([Letter(a), Letter(b), Letter(c), '=']) == Some([Left(a, b), Middle(b, c)])
  {
    hide Letter, Value, Left, Middle, Right;
    ValueOfLetter(a);
    ValueOfLetter(b);
    ValueOfLetter(c);
    LetterIsNotPadding(c);
  }

  /** Decoding undoes encoding. */
  lemma {:induction false} DecodeEncode(data: Bytes)
    ensures Decode(Encode(data)) == Some(data)
  {
    hide Letter, Decode, Left, Middle, Right, First, Second, Third, Fourth;
    if data == [] {
      DecodeNothing();
    } else if |data| == 1 {
      Regroup(data[0], 0, 0);
      DecodePadded(First(data[0]), Second(data[0], 0), 0);
      assert data == [data[0]];
    } else if |data| == 2 {
      Regroup(data[0], data[1], 0);
      DecodePadded(First(data[0]), Second(data[0], data[1]), Third(data[1], 0));
      assert data == [data[0], data[1]];
    } else {
      DecodeEncode(data[3..]);
      DecodeEncodeBlock(data);
    }
  }

  lemma DecodeEncodeBlock(data: Bytes)
    requires |data| > 2 && Decode(Encode(data[3..])) == Some(data[3..])
    ensures Decode(Encode(data)) == Some(data)
  {
    hide Letter, Decode, Left, Middle, Right, First, Second, Third, Fourth;
    var x, y, z := data[0], data[1], data[2];
    Regroup(x, y, z);
    DecodeFull(First(x), Second(x, y), Third(y, z), Fourth(z), Encode(data[3..]));
    assert data == [x, y, z] + data[3..];
  }

  lemma DecodeNothing()
    ensures Decode("") == Some([])
  {
  }

  predicate Base64Char(c: char) { Value(c).Some? || c == '=' }

  lemma {:induction false} EncodeAlphabet(data: Bytes)
    ensures forall c <- Encode(data) :: Base64Char(c)
  {
    forall n: Sextet
      ensures Base64Char(Letter(n))
    {
      ValueOfLetter(n);
    }
    if |data| > 2 {
      EncodeAlphabet(data[3..]);
    }
  }

  // Whitespace

  function StripLeft(s: string): string { if s != "" && IsSpace(s[0]) then StripLeft(s[1..]) else s }

  function StripRight(s: string): string { if s != "" && IsSpace(s[|s| - 1]) then StripRight(s[..|s| - 1]) else s }

  function Strip(s: string): string { StripRight(StripLeft(s)) }

  /** Splitting at whitespace and joining the pieces. */
  function Compact(s: string): string {
    if s == "" then "" else (if IsSpace(s[0]) then "" else [s[0]]) + Compact(s[1..])
  }

  lemma {:induction false} CompactConcat(a: string, b: string)
    ensures Compact(a + b) == Compact(a) + Compact(b)
  {
    if a == "" {
      assert a + b == b;
    } else {
      assert (a + b)[1..] == a[1..] + b;
      CompactConcat(a[1..], b);
    }
  }

  lemma {:induction false} CompactStripLeft(s: string)
    ensures Compact(StripLeft(s)) == Compact(s)
  {
    if s != "" && IsSpace(s[0]) {
      CompactStripLeft(s[1..]);
    }
  }

  lemma {:induction false} CompactStripRight(s: string)
    ensures Compact(StripRight(s)) == Compact(s)
  {
    if s != "" && IsSpace(s[|s| - 1]) {
      var init := s[..|s| - 1];
      CompactStripRight(init);
      assert s == init + [s[|s| - 1]];
      CompactConcat(init, [s[|s| - 1]]);
    }
  }

  lemma {:induction false} CompactKeeps(s: string)
    ensures forall c :: c in Compact(s) <==> c in s && !IsSpace(c)
  {
    if s != "" {
      CompactKeeps(s[1..]);
      assert s == [s[0]] + s[1..];
    }
  }

  /** Any spacing of the same characters. */
  predicate Layout(s: string, body: string) { Compact(s) == body }

  // PEM markers

  function RunLength(s: string): (n: nat)
    ensures n <= |s| && '-' !in s[..n] && (n < |s| ==> s[n] == '-')
  {
    if s != "" && s[0] != '-' then 1 + RunLength(s[1..]) else 0
  }

  const DASHES := "-----"
  const BEGIN := "-----BEGIN "
  const END := "-----END "

  /** The length of a marker with this opening at the start of the text, or 0. */
  function MarkerLength(s: string, opening: string): nat {
    if opening <= s then
      var rest := s[|opening|..];
      var n := RunLength(rest);
      if n > 0 && DASHES <= rest[n..] then |opening| + n + |DASHES| else 0
    else 0
  }

  function MarkerAt(s: string): nat {
    if MarkerLength(s, BEGIN) > 0 then MarkerLength(s, BEGIN) else MarkerLength(s, END)
  }

  function RemoveMarkers(s: string): string {
    if s == "" then ""
    else if MarkerAt(s) > 0 then RemoveMarkers(s[MarkerAt(s)..])
    else [s[0]] + RemoveMarkers(s[1..])
  }

  lemma {:induction false} RunOf(name: string, rest: string)
    requires '-' !in name && (rest == "" || rest[0] == '-')
    ensures RunLength(name + rest) == |name|
  {
    if name != "" {
      assert (name + rest)[1..] == name[1..] + rest;
      RunOf(name[1..], rest);
    } else {
      assert name + rest == rest;
    }
  }

  function Marker(opening: string, name: string): string { opening + name + DASHES }

  lemma MarkerIsFound(opening: string, name: string, rest: string)
    requires name != "" && '-' !in name
    ensures MarkerLength(Marker(opening, name) + rest, opening) == |Marker(opening, name)|
  {
    var s := Marker(opening, name) + rest;
    assert s == opening + (name + (DASHES + rest));
    assert s[|opening|..] == name + (DASHES + rest);
    RunOf(name, DASHES + rest);
    assert (name + (DASHES + rest))[|name|..] == DASHES + rest;
  }

  lemma OpeningsDiffer(s: string)
    requires END <= s
    ensures !(BEGIN <= s)
  {
    assert END[5] == s[5] == 'E';
  }

  lemma MarkerIsRemoved(opening: string, name: string, rest: string)
    requires opening == BEGIN || opening == END
    requires name != "" && '-' !in name
    ensures RemoveMarkers(Marker(opening, name) + rest) == RemoveMarkers(rest)
  {
    var m := Marker(opening, name);
    MarkerIsFound(opening, name, rest);
    assert opening <= m + rest;
    if opening == END {
      OpeningsDiffer(m + rest);
    }
    assert (m + rest)[|m|..] == rest;
  }

  lemma {:induction false} PlainTextStays(body: string, rest: string)
    requires '-' !in body
    ensures RemoveMarkers(body + rest) == body + RemoveMarkers(rest)
  {
    hide MarkerAt;
    if body == "" {
      assert body + rest == rest;
    } else {
      var s := body + rest;
      NoMarkerHere(s);
      assert s[1..] == body[1..] + rest;
      PlainTextStays(body[1..], rest);
    }
  }

  lemma NoMarkerHere(s: string)
    requires s != "" && s[0] != '-'
    ensures MarkerAt(s) == 0
  {
    assert BEGIN[0] == '-' && END[0] == '-';
  }

  // The canonical form

  const MAGIC := "openssh-key-v1"

  datatype Form = Binary(data: Bytes) | Plaintext(text: string)

  predicate Contains(s: string, part: string) {
    part <= s || (s != "" && Contains(s[1..], part))
  }

  function FormOf(value: string): Form {
    var n := Strip(value);
    if MAGIC <= n then Binary(Utf8All(n))
    else if Contains(n, "BEGIN ") then
      var body := Compact(RemoveMarkers(n));
      if Decode(body).Some? then Binary(Decode(body).value) else Plaintext(body)
    else
      var decoded := Decode(Compact(n));
      if decoded.Some? && Utf8All(MAGIC) <= decoded.value then Binary(decoded.value) else Plaintext(n)
  }

  /** The bytes that are hashed: the kind of the form is part of them. */
  function Serialize(f: Form): Bytes {
    match f
    case Binary(data) => Utf8All("binary:") + data
    case Plaintext(text) => Utf8All("text:") + Utf8All(text)
  }

  /** Text and binary forms never coincide, and neither do different forms of one kind. */
  lemma FormsNeverMeet(f: Form, g: Form)
    ensures Serialize(f) == Serialize(g) <==> f == g
  {
    hide Utf8;
    var b, t := Utf8All("binary:"), Utf8All("text:");
    PrefixesDiffer();
    if Serialize(f) == Serialize(g) {
      assert Serialize(f)[0] == Serialize(g)[0];
      match f {
        case Binary(x) =>
          assert g.Binary?;
          assert (b + x)[|b|..] == x && (b + g.data)[|b|..] == g.data;
        case Plaintext(x) =>
          assert g.Plaintext?;
          assert (t + Utf8All(x))[|t|..] == Utf8All(x) && (t + Utf8All(g.text))[|t|..] == Utf8All(g.text);
          Utf8Injective(x, g.text);
      }
    }
  }

  lemma PrefixesDiffer()
    ensures var b, t := Utf8All("binary:"), Utf8All("text:"); b != [] && t != [] && b[0] != t[0]
  {
    assert Utf8All("binary:") == Utf8('b') + Utf8All("binary:"[1..]);
    assert Utf8All("text:") == Utf8('t') + Utf8All("text:"[1..]);
  }

  // One secret, three spellings

  lemma {:induction false} StripLeftBlank(before: string, s: string)
    requires Blank(before) && s != "" && !IsSpace(s[0])
    ensures StripLeft(before + s) == s
  {
    if before == "" {
      assert before + s == s;
    } else {
      assert (before + s)[1..] == before[1..] + s;
      StripLeftBlank(before[1..], s);
    }
  }

  lemma {:induction false} StripRightBlank(s: string, after: string)
    requires Blank(after) && s != "" && !IsSpace(s[|s| - 1])
    ensures StripRight(s + after) == s
  {
    if after == "" {
      assert s + after == s;
    } else {
      assert (s + after)[..|s + after| - 1] == s + after[..|after| - 1];
      StripRightBlank(s, after[..|after| - 1]);
    }
  }

  lemma StripExact(before: string, s: string, after: string)
    requires Blank(before) && Blank(after) && s != "" && !IsSpace(s[0]) && !IsSpace(s[|s| - 1])
    ensures Strip(before + s + after) == s
  {
    assert before + s + after == before + (s + after);
    StripLeftBlank(before, s + after);
    StripRightBlank(s, after);
  }

  lemma {:induction false} ContainsAfter(a: string, s: string, part: string)
    requires part <= s
    ensures Contains(a + s, part)
  {
    if a == "" {
      assert a + s == s;
    } else {
      assert (a + s)[1..] == a[1..] + s;
      ContainsAfter(a[1..], s, part);
    }
  }

  lemma LayoutHasNoDash(s: string, data: Bytes)
    requires Layout(s, Encode(data))
    ensures '-' !in s
  {
    EncodeAlphabet(data);
    CompactKeeps(s);
  }

  lemma DashStartsNoKey(s: string)
    requires s != "" && s[0] == '-'
    ensures !(MAGIC <= s)
  {
    assert MAGIC[0] == 'o';
  }

  lemma KeyHasDash(s: string)
    requires MAGIC <= s
    ensures '-' in s
  {
    assert MAGIC[7] == '-' && s[7] == MAGIC[7];
  }

  /** A PEM block has the form of its data, whatever its layout, its labels and the space around it. */
  lemma PemForm(data: Bytes, layout: string, name: string, endName: string, before: string, after: string)
    requires Layout(layout, Encode(data)) && Blank(before) && Blank(after)
    requires name != "" && '-' !in name && endName != "" && '-' !in endName
    ensures FormOf(before + (Marker(BEGIN, name) + layout + Marker(END, endName)) + after) == Binary(data)
  {
    hide Decode, Encode, Strip, RemoveMarkers, Compact, Contains;
    var head, tail := Marker(BEGIN, name), Marker(END, endName);
    var pem := head + layout + tail;
    assert pem[0] == BEGIN[0] == '-' && pem[|pem| - 1] == DASHES[4] == '-';
    StripExact(before, pem, after);
    DashStartsNoKey(pem);
    PemContainsBegin(name, layout + tail);
    assert pem == head + (layout + tail);
    MarkerIsRemoved(BEGIN, name, layout + tail);
    LayoutHasNoDash(layout, data);
    PlainTextStays(layout, tail);
    MarkerIsRemoved(END, endName, "");
    assert tail + "" == tail && layout + "" == layout;
    NothingToRemove();
    DecodeEncode(data);
  }

  lemma NothingToRemove()
    ensures RemoveMarkers("") == ""
  {
  }

  lemma PemContainsBegin(name: string, rest: string)
    ensures Contains(Marker(BEGIN, name) + rest, "BEGIN ")
  {
    hide Contains;
    var a, s := BEGIN[..5], BEGIN[5..] + name + DASHES + rest;
    assert BEGIN == a + BEGIN[5..];
    assert Marker(BEGIN, name) + rest == a + s;
    ContainsAfter(a, s, "BEGIN ");
  }

  /** Bare base64 of a key has the form of the key, under any layout. */
  lemma BareForm(data: Bytes, layout: string)
    requires Layout(layout, Encode(data)) && Utf8All(MAGIC) <= data
    ensures FormOf(layout) == Binary(data)
  {
    hide Decode, Encode, RemoveMarkers, Contains, StripLeft, StripRight, Utf8All, Compact;
    var n := Strip(layout);
    CompactStripLeft(layout);
    CompactStripRight(StripLeft(layout));
    assert Layout(n, Encode(data));
    LayoutHasNoDash(n, data);
    if MAGIC <= n {
      KeyHasDash(n);
    }
    PlainTextStays(n, "");
    NothingToRemove();
    assert n + "" == n;
    DecodeEncode(data);
  }

  lemma {:induction false} Utf8Concat(a: string, b: string)
    ensures Utf8All(a + b) == Utf8All(a) + Utf8All(b)
  {
    hide Utf8;
    if a == "" {
      assert a + b == b;
    } else {
      assert (a + b)[1..] == a[1..] + b;
      Utf8Concat(a[1..], b);
    }
  }

  lemma {:induction false} StripRightKeeps(kept: string, s: string)
    requires kept <= s && kept != "" && !IsSpace(kept[|kept| - 1])
    ensures kept <= StripRight(s) <= s
    ensures StripRight(s) == s <==> !IsSpace(s[|s| - 1])
  {
    if IsSpace(s[|s| - 1]) {
      assert |kept| < |s| by {
        if |kept| == |s| {
          assert kept == s;
        }
      }
      StripRightKeeps(kept, s[..|s| - 1]);
    }
  }

  /** Base64 of a key in any layout and any PEM block around it are one credential, and the decoded text of the key is
      the same one exactly when it does not end in whitespace. */
  lemma KeyHasOneForm(text: string, bare: string, layout: string, name: string, endName: string)
    requires MAGIC <= text
    requires Layout(bare, Encode(Utf8All(text))) && Layout(layout, Encode(Utf8All(text)))
    requires name != "" && '-' !in name && endName != "" && '-' !in endName
    ensures FormOf(bare) == FormOf(Marker(BEGIN, name) + layout + Marker(END, endName)) == Binary(Utf8All(text))
    ensures FormOf(text) == FormOf(bare) <==> !IsSpace(text[|text| - 1])
  {
    hide Utf8All, Encode, Decode, RemoveMarkers, Contains, Marker, Compact, StripRight;
    var data := Utf8All(text);
    assert text == MAGIC + text[|MAGIC|..];
    Utf8Concat(MAGIC, text[|MAGIC|..]);
    assert text[0] == MAGIC[0] == 'o';
    assert MAGIC[13] == '1';
    StripLeftBlank("", text);
    assert "" + text == text;
    StripRightKeeps(MAGIC, text);
    if FormOf(text) == Binary(data) {
      Utf8Injective(Strip(text), text);
    }
    BareForm(data, bare);
    PemForm(data, layout, name, endName, "", "");
    var pem := Marker(BEGIN, name) + layout + Marker(END, endName);
    assert "" + pem + "" == pem;
  }

  /** Marked text that is no base64 has its own compact text as form. */
  lemma BrokenPemForm(layout: string, name: string, endName: string, before: string, after: string)
    requires '-' !in layout && Decode(Compact(layout)).None? && Blank(before) && Blank(after)
    requires name != "" && '-' !in name && endName != "" && '-' !in endName
    ensures FormOf(before + (Marker(BEGIN, name) + layout + Marker(END, endName)) + after) ==
            Plaintext(Compact(layout))
  {
    hide Decode, Strip, RemoveMarkers, Compact, Contains;
    var head, tail := Marker(BEGIN, name), Marker(END, endName);
    var pem := head + layout + tail;
    assert pem[0] == BEGIN[0] == '-' && pem[|pem| - 1] == DASHES[4] == '-';
    StripExact(before, pem, after);
    DashStartsNoKey(pem);
    PemContainsBegin(name, layout + tail);
    assert pem == head + (layout + tail);
    MarkerIsRemoved(BEGIN, name, layout + tail);
    PlainTextStays(layout, tail);
    MarkerIsRemoved(END, endName, "");
    assert tail + "" == tail && layout + "" == layout;
    NothingToRemove();
  }

  lemma {:induction false} ContainsMeans(s: string, part: string)
    ensures Contains(s, part) <==> exists k :: 0 <= k <= |s| && part <= s[k..]
  {
    assert s[0..] == s;
    if s != "" {
      ContainsMeans(s[1..], part);
      forall k | 0 < k <= |s|
        ensures s[k..] == s[1..][k - 1..]
      {
      }
      if !(part <= s) && Contains(s, part) {
        var k :| 0 <= k <= |s[1..]| && part <= s[1..][k..];
        assert part <= s[k + 1..];
      }
      if k :| 0 < k <= |s| && part <= s[k..] {
        assert part <= s[1..][k - 1..];
      }
    }
  }

  /** Any other text is its own form without the space around it: two such secrets are one credential exactly when they
      differ in that space alone. */
  lemma OrdinaryForm(text: string, before: string, after: string)
    requires Blank(before) && Blank(after) && text != "" && !IsSpace(text[0]) && !IsSpace(text[|text| - 1])
    requires !(MAGIC <= text) && forall k :: 0 <= k <= |text| ==> !("BEGIN " <= text[k..])
    requires Decode(Compact(text)).Some? ==> !(Utf8All(MAGIC) <= Decode(Compact(text)).value)
    ensures FormOf(before + text + after) == Plaintext(text)
  {
    hide Decode, Strip, Compact, Contains, Utf8All;
    StripExact(before, text, after);
    ContainsMeans(text, "BEGIN ");
  }
}
