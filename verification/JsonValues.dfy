// Which values a JSON text can stand for, and what more text after a complete file does.

module JsonValues {
  import opened Basics
  import opened Utf8
  import opened Json
  import opened JsonText
  import opened JsonRoundTrip
  import opened JsonSound

  /** Strings are UTF-8, and a number is a run of number bytes. */
  ghost predicate WellFormed(v: Json) {
    match v
    case Num(text) => text != [] && forall i :: 0 <= i < |text| ==> IsNumberByte(text[i])
    case Str(text) => ValidUtf8(text)
    case Array(items) => forall i :: 0 <= i < |items| ==> WellFormed(items[i])
    case Object(members) => forall i :: 0 <= i < |members| ==> ValidUtf8(members[i].0) && WellFormed(members[i].1)
    case _ => true
  }

  // ----- every well-formed value has a written form -----

  lemma ValueOfMore(piece: Piece, rest: seq<Piece>)
    requires PieceFits(piece) && PiecesFit(rest) && (piece.Plain? && rest != [] ==> !rest[0].Plain?)
    ensures PiecesFit([piece] + rest) && PiecesValue([piece] + rest) == PieceValue(piece) + PiecesValue(rest)
  {
    hide PieceFits, PieceValue;
    assert ([piece] + rest)[1..] == rest;
  }

  lemma {:induction false} StringForm(s: seq<byte>) returns (pieces: seq<Piece>)
    requires ValidUtf8(s)
    ensures PiecesFit(pieces) && PiecesValue(pieces) == s
    ensures pieces != [] && pieces[0].Plain? ==> s != [] && s[0] != QUOTE && s[0] != BACKSLASH
    decreases |s|
  {
    hide ValidUtf8, PiecesFit, PiecesValue;
    if s == [] {
      pieces := [];
      NoPieces();
    } else if s[0] == QUOTE || s[0] == BACKSLASH {
      RestAfterAscii(s);
      var rest := StringForm(s[1..]);
      pieces := [Short(s[0])] + rest;
      ValueOfMore(Short(s[0]), rest);
      assert s == [s[0]] + s[1..];
    } else {
      ChunkRuns(s, 0);
      var n := ChunkEnd(s, 0);
      assert n > 0;
      CutBeforeAscii(s, n);
      var rest := StringForm(s[n..]);
      assert s == s[..n] + s[n..];
      pieces := [Plain(s[..n])] + rest;
      ValueOfMore(Plain(s[..n]), rest);
    }
  }

  lemma NoPieces()
    ensures PiecesFit([]) && PiecesValue([]) == []
  {
  }

  lemma NoGap()
    ensures GapFits([])
  {
  }

  lemma {:induction false} ValueForm(v: Json) returns (d: Doc)
    requires WellFormed(v)
    ensures DocFits(d) && DocValue(d) == v
    decreases v, 1
  {
    hide ValidUtf8, PiecesFit, PiecesValue, GapFits;
    NoGap();
    match v
    case Null => d := NullDoc;
    case Bool(value) => d := BoolDoc(value);
    case Num(text) => d := NumDoc(text);
    case Str(text) =>
      var pieces := StringForm(text);
      d := StrDoc(pieces);
    case Array(items) =>
      if items == [] {
        d := EmptyArray([]);
      } else {
        var form := ItemsForm(v, 0);
        d := ArrayDoc(form);
      }
    case Object(members) =>
      if members == [] {
        d := EmptyObject([]);
      } else {
        var form := MembersForm(v, 0);
        d := ObjectDoc(form);
      }
  }

  lemma {:induction false} ItemsForm(v: Json, i: nat) returns (form: Items)
    requires WellFormed(v) && v.Array? && i < |v.items|
    ensures ItemsFit(form) && ItemsValue(form) == v.items[i..]
    decreases v, 0, |v.items| - i
  {
    hide ValidUtf8, DocFits, DocValue, GapFits;
    NoGap();
    var d := ValueForm(v.items[i]);
    if i + 1 == |v.items| {
      form := LastItem([], d, []);
    } else {
      var rest := ItemsForm(v, i + 1);
      form := Item([], d, [], rest);
    }
    assert v.items[i..] == [v.items[i]] + v.items[i + 1..];
  }

  lemma {:induction false} MembersForm(v: Json, i: nat) returns (form: Members)
    requires WellFormed(v) && v.Object? && i < |v.members|
    ensures MembersFit(form) && MembersValue(form) == v.members[i..]
    decreases v, 0, |v.members| - i
  {
    hide ValidUtf8, DocFits, DocValue, GapFits, PiecesFit, PiecesValue;
    NoGap();
    var key := StringForm(v.members[i].0);
    var d := ValueForm(v.members[i].1);
    if i + 1 == |v.members| {
      form := LastMember([], key, [], [], d, []);
    } else {
      var rest := MembersForm(v, i + 1);
      form := Member([], key, [], [], d, [], rest);
    }
    assert v.members[i..] == [v.members[i]] + v.members[i + 1..];
  }

  // ----- and nothing else does -----

  lemma PieceIsValid(piece: Piece)
    requires PieceFits(piece)
    ensures ValidUtf8(PieceValue(piece))
  {
    hide ValidUtf8, UnicodeEscape, EscapedText;
    match piece
    case Plain(_) =>
    case Short(letter) => ValidAscii(ShortEscape(letter).value);
    case Unicode(digits) => EscapedTextIsValid(UnicodeEscape(digits).value);
  }

  lemma {:induction false} PiecesAreValid(pieces: seq<Piece>)
    requires PiecesFit(pieces)
    ensures ValidUtf8(PiecesValue(pieces))
  {
    hide PieceFits, PieceValue, CharLength;
    if pieces != [] {
      PieceIsValid(pieces[0]);
      PiecesAreValid(pieces[1..]);
      ValidConcat(PieceValue(pieces[0]), PiecesValue(pieces[1..]));
    }
  }

  lemma {:induction false} DocIsWellFormed(d: Doc)
    requires DocFits(d)
    ensures WellFormed(DocValue(d))
    decreases d
  {
    hide ValidUtf8, PiecesFit, PiecesValue, GapFits;
    match d
    case StrDoc(pieces) => PiecesAreValid(pieces);
    case ArrayDoc(items) => ItemsAreWellFormed(items);
    case ObjectDoc(members) => MembersAreWellFormed(members);
    case _ =>
  }

  lemma {:induction false} ItemsAreWellFormed(items: Items)
    requires ItemsFit(items)
    ensures forall i :: 0 <= i < |ItemsValue(items)| ==> WellFormed(ItemsValue(items)[i])
    decreases items
  {
    hide WellFormed, DocFits, DocValue, GapFits;
    DocIsWellFormed(items.doc);
    if items.Item? {
      ItemsAreWellFormed(items.rest);
    }
  }

  lemma {:induction false} MembersAreWellFormed(members: Members)
    requires MembersFit(members)
    ensures forall i :: 0 <= i < |MembersValue(members)| ==>
      ValidUtf8(MembersValue(members)[i].0) && WellFormed(MembersValue(members)[i].1)
    decreases members
  {
    hide WellFormed, DocFits, DocValue, GapFits, ValidUtf8, PiecesFit, PiecesValue;
    PiecesAreValid(members.key);
    DocIsWellFormed(members.doc);
    if members.Member? {
      MembersAreWellFormed(members.rest);
    }
  }

  // ----- written values are UTF-8 -----

  lemma {:induction false} AsciiIsValid(s: seq<byte>)
    requires forall i :: 0 <= i < |s| ==> s[i] < 0x80
    ensures ValidUtf8(s)
    decreases |s|
  {
    if s != [] {
      AsciiIsValid(s[1..]);
      assert CharLength(s) == 1;
    }
  }

  lemma {:induction false} PiecesTextIsValid(pieces: seq<Piece>)
    requires PiecesFit(pieces)
    ensures ValidUtf8(PiecesText(pieces))
    decreases |pieces|
  {
    hide ValidUtf8, PieceText, PieceFits;
    if pieces == [] {
      AsciiIsValid([]);
    } else {
      PieceTextIsValid(pieces[0]);
      PiecesTextIsValid(pieces[1..]);
      ValidConcat(PieceText(pieces[0]), PiecesText(pieces[1..]));
    }
  }

  lemma PieceTextIsValid(piece: Piece)
    requires PieceFits(piece)
    ensures ValidUtf8(PieceText(piece))
  {
    hide ValidUtf8, HexDigits;
    match piece
    case Plain(_) =>
    case Short(letter) => AsciiIsValid([BACKSLASH, letter]);
    case Unicode(digits) =>
      AsciiIsValid([BACKSLASH, 0x75]);
      ValidConcat([BACKSLASH, 0x75], digits);
  }

  lemma GapIsValid(g: Gap)
    requires GapFits(g)
    ensures ValidUtf8(GapText(g, Blanked))
  {
    hide GapText, ValidUtf8;
    GapIsSpaces(g);
    AsciiIsValid(GapText(g, Blanked));
  }

  lemma QuotedIsValid(pieces: seq<Piece>)
    requires PiecesFit(pieces)
    ensures ValidUtf8(QuotedText(pieces))
  {
    hide ValidUtf8, PiecesText, PiecesFit;
    PiecesTextIsValid(pieces);
    MarkAround(QUOTE, PiecesText(pieces), QUOTE);
  }

  /** Well-formed text between two ASCII bytes. */
  lemma MarkAround(left: byte, s: seq<byte>, right: byte)
    requires left < 0x80 && right < 0x80 && ValidUtf8(s)
    ensures ValidUtf8([left] + (s + [right])) && ValidUtf8([left] + s) && ValidUtf8(s + [right])
  {
    hide ValidUtf8;
    ValidAscii(left);
    ValidAscii(right);
    ValidConcat(s, [right]);
    ValidConcat([left], s + [right]);
    ValidConcat([left], s);
  }

  lemma {:induction false} DocIsValid(d: Doc)
    requires DocFits(d)
    ensures ValidUtf8(DocText(d, Blanked))
    decreases d, 0
  {
    hide ValidUtf8, PiecesFit, QuotedText, GapFits, GapText;
    match d
    case NullDoc => AsciiIsValid(NULL);
    case BoolDoc(value) => AsciiIsValid(if value then TRUE else FALSE);
    case NumDoc(text) => AsciiIsValid(text);
    case StrDoc(pieces) => QuotedIsValid(pieces);
    case EmptyArray(inner) =>
      GapIsValid(inner);
      MarkAround(OPEN_ARRAY, GapText(inner, Blanked), CLOSE_ARRAY);
    case EmptyObject(inner) =>
      GapIsValid(inner);
      MarkAround(OPEN_OBJECT, GapText(inner, Blanked), CLOSE_OBJECT);
    case ArrayDoc(items) =>
      ItemsAreValid(items);
      MarkAround(OPEN_ARRAY, ItemsText(items, Blanked), COMMA);
    case ObjectDoc(members) =>
      MembersAreValid(members);
      MarkAround(OPEN_OBJECT, MembersText(members, Blanked), COMMA);
  }

  lemma {:induction false} SlotIsValid(before: Gap, d: Doc, after: Gap)
    requires GapFits(before) && DocFits(d) && GapFits(after)
    ensures ValidUtf8(SlotText(before, d, after, Blanked))
    decreases d, 1
  {
    hide ValidUtf8, GapFits, GapText, DocFits, DocText;
    GapIsValid(before);
    DocIsValid(d);
    GapIsValid(after);
    ValidConcat(DocText(d, Blanked), GapText(after, Blanked));
    ValidConcat(GapText(before, Blanked), DocText(d, Blanked) + GapText(after, Blanked));
  }

  lemma {:induction false} ItemsAreValid(items: Items)
    requires ItemsFit(items)
    ensures ValidUtf8(ItemsText(items, Blanked))
    decreases items, 0
  {
    hide ValidUtf8, GapFits, DocFits, SlotText;
    var slot := SlotText(items.before, items.doc, items.after, Blanked);
    SlotIsValid(items.before, items.doc, items.after);
    if items.LastItem? {
      MarkAround(COMMA, slot, CLOSE_ARRAY);
    } else {
      ItemsAreValid(items.rest);
      MarkAround(COMMA, ItemsText(items.rest, Blanked), COMMA);
      ValidConcat(slot, [COMMA] + ItemsText(items.rest, Blanked));
    }
  }

  lemma KeyIsValid(members: Members)
    requires KeyFits(members)
    ensures ValidUtf8(KeyText(members, Blanked))
  {
    hide ValidUtf8, GapFits, GapText, PiecesFit, QuotedText;
    var mid := GapText(members.mid, Blanked);
    GapIsValid(members.lead);
    QuotedIsValid(members.key);
    GapIsValid(members.mid);
    MarkAround(COLON, mid, COLON);
    ValidConcat(QuotedText(members.key), mid + [COLON]);
    ValidConcat(GapText(members.lead, Blanked), QuotedText(members.key) + (mid + [COLON]));
  }

  lemma {:induction false} MembersAreValid(members: Members)
    requires MembersFit(members)
    ensures ValidUtf8(MembersText(members, Blanked))
    decreases members, 0
  {
    hide ValidUtf8, GapFits, DocFits, SlotText, KeyText, KeyFits;
    var slot := SlotText(members.before, members.doc, members.after, Blanked);
    var tail := if members.LastMember? then [CLOSE_OBJECT] else [COMMA] + MembersText(members.rest, Blanked);
    KeyIsValid(members);
    SlotIsValid(members.before, members.doc, members.after);
    if members.LastMember? {
      ValidAscii(CLOSE_OBJECT);
    } else {
      MembersAreValid(members.rest);
      MarkAround(COMMA, MembersText(members.rest, Blanked), COMMA);
    }
    ValidConcat(slot, tail);
    ValidConcat(KeyText(members, Blanked), slot + tail);
  }

  /** A blanked text of a value is UTF-8, as every text a Rust string holds is. */
  lemma FileIsValid(f: File)
    requires FileFits(f)
    ensures ValidUtf8(FileText(f, Blanked))
  {
    hide ValidUtf8, GapFits, DocFits, SlotText, LastFits;
    SlotIsValid(f.before, f.doc, f.after);
    AsciiIsValid(BlankAll(f.last));
    ValidConcat(SlotText(f.before, f.doc, f.after, Blanked), BlankAll(f.last));
  }

  /** The values some UTF-8 text parses to are exactly the well-formed ones. */
  lemma ValuesExact(v: Json)
    ensures WellFormed(v) <==> exists b: seq<byte> :: ValidUtf8(b) && ParseSpec(b) == Ok(v)
  {
    hide WellFormed, ParseSpec, FileText, DocFits, DocValue, GapFits, ValidUtf8;
    if WellFormed(v) {
      var d := ValueForm(v);
      var f := File([], d, [], []);
      NoGap();
      FileFound(f);
      FileIsValid(f);
      assert ParseSpec(FileText(f, Blanked)) == Ok(v);
    }
    forall b: seq<byte> | ParseSpec(b) == Ok(v) ensures WellFormed(v) {
      var f := FileSound(b);
      DocIsWellFormed(f.doc);
    }
  }

  // ----- more text after a file -----

  /** The file ends in a bare number, which more number bytes would lengthen. */
  ghost predicate EndsInNumber(f: File) {
    f.doc.NumDoc? && GapText(f.after, Blanked) == [] && f.last == []
  }

  lemma FilePartsStand(f: File, s: seq<byte>)
    requires FileFits(f)
    ensures var g, t := GapText(f.before, Blanked), DocText(f.doc, Blanked);
      var rest := GapText(f.after, Blanked) + BlankAll(f.last);
      var b := FileText(f, Blanked) + s;
      && At(b, 0, g) && At(b, |g|, t) && At(b, |g| + |t|, rest + s) && |b| == |g| + |t| + |rest + s|
  {
    hide GapText, GapFits, DocText, DocFits, BlankAll, FileText, At;
    var g, t, rest := GapText(f.before, Blanked), DocText(f.doc, Blanked), GapText(f.after, Blanked) + BlankAll(f.last);
    var b := FileText(f, Blanked) + s;
    FileParts(f, Blanked);
    assert b == g + (t + (rest + s));
    WholeStands(b);
    AtSplits(b, 0, g, t + (rest + s));
    AtSplits(b, |g|, t, rest + s);
  }

  /** Skipping spaces reaches the end of the text exactly when nothing but spaces is left. */
  lemma {:induction false} SpacesReachEnd(b: seq<byte>, p: nat)
    requires p <= |b|
    ensures SkipSpaces(b, p) == |b| <==> AllSpaces(b[p..])
    decreases |b| - p
  {
    if p < |b| && IsSpace(b[p]) {
      SpacesReachEnd(b, p + 1);
      assert b[p..] == [b[p]] + b[p + 1..];
    } else if p < |b| {
      assert b[p..][0] == b[p];
    }
  }

  lemma SpacesJoin(a: seq<byte>, b: seq<byte>)
    requires AllSpaces(a)
    ensures AllSpaces(a + b) <==> AllSpaces(b)
  {
    if AllSpaces(a + b) {
      forall i | 0 <= i < |b| ensures IsSpace(b[i]) {
        assert (a + b)[|a| + i] == b[i];
      }
    }
  }

  /** More text that does not lengthen a number: only white space is let through. */
  lemma PlainSuffix(f: File, s: seq<byte>)
    requires FileFits(f) && !(EndsInNumber(f) && s != [] && IsNumberByte(s[0]))
    ensures ParseSpec(FileText(f, Blanked) + s) == if AllSpaces(s) then Ok(DocValue(f.doc)) else Err(TrailingInput)
  {
    hide SkipSpaces, GapText, GapFits, DocText, DocFits, DocValue, ParseValue, FileText, At, BlankAll, AllSpaces;
    var g, t, rest := GapText(f.before, Blanked), DocText(f.doc, Blanked), GapText(f.after, Blanked) + BlankAll(f.last);
    var b := FileText(f, Blanked) + s;
    var p := |g| + |t|;
    FilePartsStand(f, s);
    DocStarts(f.doc, Blanked);
    AtIndex(b, |g|, t, 0);
    GapSkipped(f.before, b, 0);
    ValueSkips(b, 0);
    RestStands(b, p, rest + s);
    LastIsSpaces(f);
    SuffixStops(f, s, b, p);
    DocFound(f.doc, b, |g|);
    SpacesReachEnd(b, p);
    SpacesJoin(rest, s);
  }

  lemma SuffixStops(f: File, s: seq<byte>, b: seq<byte>, p: nat)
    requires FileFits(f) && !(EndsInNumber(f) && s != [] && IsNumberByte(s[0]))
    requires p <= |b| && b[p..] == GapText(f.after, Blanked) + BlankAll(f.last) + s
    ensures NumberStops(f.doc, b, p)
  {
    hide GapText, GapFits, DocFits;
    var rest := GapText(f.after, Blanked) + BlankAll(f.last);
    LastIsSpaces(f);
    if p < |b| {
      assert b[p] == b[p..][0];
      if rest != [] {
        assert (rest + s)[0] == rest[0];
      }
    }
  }

  lemma LongerFits(f: File, s: seq<byte>)
    requires FileFits(f) && EndsInNumber(f)
    ensures FileFits(f.(doc := NumDoc(f.doc.text + s[..NumberEnd(s, 0)])))
    ensures DocText(f.doc, Blanked) == f.doc.text && BlankAll(f.last) == []
  {
    hide GapText, GapFits;
    NumberRuns(s, 0);
  }

  /** Cut anywhere, the added bytes are part of the number or part of the rest. */
  lemma NumberGrows(f: File, s: seq<byte>, n: nat)
    requires FileFits(f) && EndsInNumber(f) && n <= |s|
    requires FileFits(f.(doc := NumDoc(f.doc.text + s[..n])))
    requires BlankAll(f.last) == []
    ensures FileText(f, Blanked) + s == FileText(f.(doc := NumDoc(f.doc.text + s[..n])), Blanked) + s[n..]
  {
    hide GapText, GapFits, FileText, LastFits, BlankAll;
    var longer := f.(doc := NumDoc(f.doc.text + s[..n]));
    FileParts(f, Blanked);
    FileParts(longer, Blanked);
    assert s == s[..n] + s[n..];
  }

  /** More text that does: the number takes what it can, and what is left must be white space. */
  lemma NumberSuffix(f: File, s: seq<byte>)
    requires FileFits(f) && EndsInNumber(f)
    ensures var n := NumberEnd(s, 0);
      ParseSpec(FileText(f, Blanked) + s) ==
        if AllSpaces(s[n..]) then Ok(Num(f.doc.text + s[..n])) else Err(TrailingInput)
  {
    hide GapText, GapFits, FileText, AllSpaces, ParseSpec, LastFits, BlankAll, NumberEnd;
    var n := NumberEnd(s, 0);
    LongerFits(f, s);
    NumberGrows(f, s, n);
    NumberEnds(s, 0);
    PlainSuffix(f.(doc := NumDoc(f.doc.text + s[..n])), s[n..]);
  }

  lemma {:induction false} NumberEnds(b: seq<byte>, p: nat)
    requires p <= |b|
    ensures NumberEnd(b, p) < |b| ==> !IsNumberByte(b[NumberEnd(b, p)])
    decreases |b| - p
  {
    if p < |b| && IsNumberByte(b[p]) {
      NumberEnds(b, p + 1);
    }
  }

  /** Text after a complete file is accepted only as white space, or as more of a number the file ends in. */
  lemma SuffixExact(f: File, s: seq<byte>)
    requires FileFits(f)
    ensures ParseSpec(FileText(f, Blanked) + s).Ok? <==>
      AllSpaces(if EndsInNumber(f) then s[NumberEnd(s, 0)..] else s)
    ensures !ParseSpec(FileText(f, Blanked) + s).Ok? ==> ParseSpec(FileText(f, Blanked) + s) == Err(TrailingInput)
  {
    hide GapText, GapFits, DocFits, DocValue, FileText, AllSpaces, ParseSpec, EndsInNumber;
    if EndsInNumber(f) {
      NumberSuffix(f, s);
    } else {
      PlainSuffix(f, s);
    }
  }
}
