// The JSON parser reads every written form of a value back to that value, and accepts nothing else.

module JsonRoundTrip {
  import opened Basics
  import opened Utf8
  import opened Json
  import opened JsonText

  // ----- runs -----

  ghost predicate AllSpaces(s: seq<byte>) {
    forall i :: 0 <= i < |s| ==> IsSpace(s[i])
  }

  lemma {:induction false} SpacesSkipped(b: seq<byte>, p: nat, s: seq<byte>)
    requires At(b, p, s) && AllSpaces(s)
    requires p + |s| == |b| || !IsSpace(b[p + |s|])
    ensures SkipSpaces(b, p) == p + |s|
    decreases |s|
  {
    if s != [] {
      AtIndex(b, p, s, 0);
      assert s == [s[0]] + s[1..];
      AtSplits(b, p, [s[0]], s[1..]);
      SpacesSkipped(b, p + 1, s[1..]);
    }
  }

  lemma {:induction false} NumberRead(b: seq<byte>, p: nat, s: seq<byte>)
    requires At(b, p, s) && forall i :: 0 <= i < |s| ==> IsNumberByte(s[i])
    requires p + |s| == |b| || !IsNumberByte(b[p + |s|])
    ensures NumberEnd(b, p) == p + |s|
    decreases |s|
  {
    if s != [] {
      AtIndex(b, p, s, 0);
      assert s == [s[0]] + s[1..];
      AtSplits(b, p, [s[0]], s[1..]);
      NumberRead(b, p + 1, s[1..]);
    }
  }

  lemma {:induction false} ChunkRead(b: seq<byte>, p: nat, s: seq<byte>)
    requires At(b, p, s) && QUOTE !in s && BACKSLASH !in s
    requires p + |s| < |b| && (b[p + |s|] == QUOTE || b[p + |s|] == BACKSLASH)
    ensures ChunkEnd(b, p) == p + |s|
    decreases |s|
  {
    if s != [] {
      AtIndex(b, p, s, 0);
      assert s == [s[0]] + s[1..];
      AtSplits(b, p, [s[0]], s[1..]);
      ChunkRead(b, p + 1, s[1..]);
    }
  }

  lemma {:induction false} GapIsSpaces(g: Gap)
    requires GapFits(g)
    ensures AllSpaces(GapText(g, Blanked))
  {
    if g != [] {
      GapIsSpaces(g[1..]);
    }
  }

  lemma GapSkipped(g: Gap, b: seq<byte>, p: nat)
    requires GapFits(g) && At(b, p, GapText(g, Blanked))
    requires p + |GapText(g, Blanked)| == |b| || !IsSpace(b[p + |GapText(g, Blanked)|])
    ensures SkipSpaces(b, p) == p + |GapText(g, Blanked)|
  {
    hide GapText, GapFits, AllSpaces, SkipSpaces;
    GapIsSpaces(g);
    SpacesSkipped(b, p, GapText(g, Blanked));
  }

  lemma {:induction false} SkipAgain(b: seq<byte>, p: nat)
    requires p <= |b|
    ensures SkipSpaces(b, SkipSpaces(b, p)) == SkipSpaces(b, p)
    decreases |b| - p
  {
    if p < |b| && IsSpace(b[p]) {
      SkipAgain(b, p + 1);
    }
  }

  // ----- strings -----

  lemma EscapeFound(piece: Piece, b: seq<byte>, p: nat)
    requires PieceFits(piece) && !piece.Plain?
    requires At(b, p, PieceText(piece))
    ensures p < |b| && b[p] == BACKSLASH
    ensures ParseEscape(b, p + 1) == Got(PieceValue(piece), p + |PieceText(piece)|)
  {
    hide UnicodeEscape;
    var text := PieceText(piece);
    AtIndex(b, p, text, 0);
    AtIndex(b, p, text, 1);
    if piece.Unicode? {
      assert text[2..] == piece.digits;
      assert b[p + 2..p + 6] == b[p..p + 6][2..];
      NoShortU();
    } else {
      NoShortU();
    }
  }

  lemma NoShortU()
    ensures ShortEscape(0x75).Err?
  {
  }

  lemma {:induction false} BodyFound(pieces: seq<Piece>, b: seq<byte>, p: nat, done: seq<byte>)
    requires PiecesFit(pieces)
    requires At(b, p, PiecesText(pieces) + [QUOTE])
    ensures ParseBody(b, p, done) == Got(done + PiecesValue(pieces), p + |PiecesText(pieces)| + 1)
    decreases |pieces|
  {
    hide At, ParseEscape, PieceFits, PieceValue, PieceText, ChunkEnd, ValidUtf8;
    if pieces == [] {
      OneStands(b, p, QUOTE);
      assert done + [] == done;
      assert PiecesText(pieces) + [QUOTE] == [QUOTE];
    } else {
      var head, rest := PieceText(pieces[0]), PiecesText(pieces[1..]) + [QUOTE];
      assert PiecesText(pieces) + [QUOTE] == head + rest;
      AtSplits(b, p, head, rest);
      PieceRead(pieces, b, p, done);
      BodyFound(pieces[1..], b, p + |head|, done + PieceValue(pieces[0]));
      assert done + PieceValue(pieces[0]) + PiecesValue(pieces[1..]) == done + PiecesValue(pieces);
    }
  }

  /** What follows a plain stretch is the closing quote or an escape. */
  lemma NextStands(pieces: seq<Piece>, b: seq<byte>, p: nat)
    requires PiecesFit(pieces) && (pieces != [] ==> !pieces[0].Plain?)
    requires At(b, p, PiecesText(pieces) + [QUOTE])
    ensures p < |b| && (b[p] == QUOTE || b[p] == BACKSLASH)
  {
    var text := PiecesText(pieces) + [QUOTE];
    AtIndex(b, p, text, 0);
  }

  lemma PieceRead(pieces: seq<Piece>, b: seq<byte>, p: nat, done: seq<byte>)
    requires PiecesFit(pieces) && pieces != []
    requires At(b, p, PieceText(pieces[0]))
    requires At(b, p + |PieceText(pieces[0])|, PiecesText(pieces[1..]) + [QUOTE])
    ensures ParseBody(b, p, done) == ParseBody(b, p + |PieceText(pieces[0])|, done + PieceValue(pieces[0]))
  {
    hide ParseEscape, ValidUtf8, ChunkEnd, PiecesText, UnicodeEscape, ShortEscape;
    var piece := pieces[0];
    if piece.Plain? {
      NextStands(pieces[1..], b, p + |piece.bytes|);
      AtIndex(b, p, piece.bytes, 0);
      ChunkRead(b, p, piece.bytes);
    } else {
      EscapeFound(piece, b, p);
    }
  }

  lemma StringFound(pieces: seq<Piece>, b: seq<byte>, p: nat)
    requires PiecesFit(pieces)
    requires At(b, p, QuotedText(pieces))
    ensures ParseString(b, p) == Got(PiecesValue(pieces), p + |QuotedText(pieces)|)
  {
    hide ParseBody, PiecesText, PiecesValue, PiecesFit;
    AtSplits(b, p, [QUOTE], PiecesText(pieces) + [QUOTE]);
    OneStands(b, p, QUOTE);
    BodyFound(pieces, b, p + 1, []);
    assert [] + PiecesValue(pieces) == PiecesValue(pieces);
  }

  // ----- documents -----

  /** The byte a value can start with. */
  predicate StartsValue(c: byte) {
    || c == OPEN_OBJECT || c == OPEN_ARRAY || c == QUOTE
    || c == TRUE[0] || c == FALSE[0] || c == NULL[0] || IsNumberByte(c)
  }

  lemma DocStarts(d: Doc, form: Form)
    requires DocFits(d)
    ensures DocText(d, form) != [] && StartsValue(DocText(d, form)[0])
  {
  }

  lemma {:induction false} SkipNothing(b: seq<byte>, p: nat)
    requires p < |b| && !IsSpace(b[p])
    ensures SkipSpaces(b, p) == p
  {
  }

  ghost function End(d: Doc, p: nat): nat {
    p + |DocText(d, Blanked)|
  }

  /** A number in a text ends where no number byte follows. */
  ghost predicate NumberStops(d: Doc, b: seq<byte>, end: nat) {
    d.NumDoc? ==> end >= |b| || !IsNumberByte(b[end])
  }

  lemma ScalarFound(d: Doc, b: seq<byte>, p: nat)
    requires d.NullDoc? || d.BoolDoc? || d.NumDoc? || d.StrDoc?
    requires DocFits(d) && At(b, p, DocText(d, Blanked)) && NumberStops(d, b, End(d, p))
    ensures ParseValue(b, p) == Got(DocValue(d), End(d, p))
  {
    hide ParseBody, PiecesText, PiecesValue, PiecesFit;
    DocStarts(d, Blanked);
    AtIndex(b, p, DocText(d, Blanked), 0);
    SkipNothing(b, p);
    if d.NumDoc? {
      NumberRead(b, p, d.text);
    } else if d.StrDoc? {
      StringFound(d.pieces, b, p);
    }
  }

  lemma {:induction false} DocFound(d: Doc, b: seq<byte>, p: nat)
    requires DocFits(d) && At(b, p, DocText(d, Blanked)) && NumberStops(d, b, End(d, p))
    ensures ParseValue(b, p) == Got(DocValue(d), End(d, p))
    decreases d, 0
  {
    hide At, ParseItems, ParseMembers, ParseString, ParseNumber, SkipSpaces, GapText, GapFits;
    match d
    case EmptyArray(inner) =>
      EmptyFound(inner, b, p, OPEN_ARRAY, CLOSE_ARRAY);
      OpenSkips(b, p, OPEN_ARRAY);
    case EmptyObject(inner) =>
      EmptyFound(inner, b, p, OPEN_OBJECT, CLOSE_OBJECT);
      OpenSkips(b, p, OPEN_OBJECT);
    case ArrayDoc(items) =>
      AtSplits(b, p, [OPEN_ARRAY], ItemsText(items, Blanked));
      OneStands(b, p, OPEN_ARRAY);
      OpenSkips(b, p, OPEN_ARRAY);
      ItemsFound(items, b, p + 1, []);
      ItemsStart(items, b, p + 1);
      assert [] + ItemsValue(items) == ItemsValue(items);
    case ObjectDoc(members) =>
      AtSplits(b, p, [OPEN_OBJECT], MembersText(members, Blanked));
      OneStands(b, p, OPEN_OBJECT);
      OpenSkips(b, p, OPEN_OBJECT);
      MembersFound(members, b, p + 1, []);
      MembersStart(members, b, p + 1);
      assert [] + MembersValue(members) == MembersValue(members);
    case _ => ScalarFound(d, b, p);
  }

  lemma OpenSkips(b: seq<byte>, p: nat, c: byte)
    requires HasByte(b, p, c) && (c == OPEN_ARRAY || c == OPEN_OBJECT)
    ensures SkipSpaces(b, p) == p
  {
  }

  lemma EmptyFound(inner: Gap, b: seq<byte>, p: nat, left: byte, right: byte)
    requires GapFits(inner) && !IsSpace(right)
    requires At(b, p, [left] + (GapText(inner, Blanked) + [right]))
    ensures HasByte(b, p, left)
    ensures SkipSpaces(b, p + 1) == p + 1 + |GapText(inner, Blanked)|
    ensures HasByte(b, p + 1 + |GapText(inner, Blanked)|, right)
  {
    hide At, SkipSpaces, GapText, GapFits;
    var gap := GapText(inner, Blanked);
    AtSplits(b, p, [left], gap + [right]);
    AtSplits(b, p + 1, gap, [right]);
    OneStands(b, p, left);
    OneStands(b, p + 1 + |gap|, right);
    GapSkipped(inner, b, p + 1);
  }

  /** A document between gaps, with a byte after them that is neither space nor part of a number. */
  lemma SlotFound(before: Gap, d: Doc, after: Gap, b: seq<byte>, p: nat)
    requires GapFits(before) && DocFits(d) && GapFits(after)
    requires At(b, p, SlotText(before, d, after, Blanked))
    requires var end := p + |SlotText(before, d, after, Blanked)|;
             end == |b| || (!IsSpace(b[end]) && !IsNumberByte(b[end]))
    ensures var start := p + |GapText(before, Blanked)|;
      && SkipSpaces(b, p) == start < |b| && StartsValue(b[start])
      && ParseValue(b, p) == Got(DocValue(d), End(d, start))
      && SkipSpaces(b, End(d, start)) == p + |SlotText(before, d, after, Blanked)|
    decreases d, 1
  {
    hide At, SkipSpaces, GapText, GapFits, DocText, ParseValue, DocFits, DocValue;
    var g, t, h := GapText(before, Blanked), DocText(d, Blanked), GapText(after, Blanked);
    var start := p + |g|;
    AtSplits(b, p, g, t + h);
    AtSplits(b, start, t, h);
    DocStarts(d, Blanked);
    AtIndex(b, start, t, 0);
    GapSkipped(before, b, p);
    GapSkipped(after, b, start + |t|);
    AfterDoc(d, after, b, start + |t|);
    DocFound(d, b, start);
    ValueSkips(b, p);
  }

  /** No number byte follows a document: a gap begins with a space. */
  lemma AfterDoc(d: Doc, after: Gap, b: seq<byte>, p: nat)
    requires GapFits(after) && At(b, p, GapText(after, Blanked))
    requires var end := p + |GapText(after, Blanked)|; end == |b| || !IsNumberByte(b[end])
    ensures NumberStops(d, b, p)
  {
    hide GapText, GapFits;
    GapIsSpaces(after);
    if GapText(after, Blanked) != [] {
      AtIndex(b, p, GapText(after, Blanked), 0);
    }
  }

  lemma ValueSkips(b: seq<byte>, p: nat)
    requires p <= |b|
    ensures ParseValue(b, p) == ParseValue(b, SkipSpaces(b, p))
  {
    hide ParseObject, ParseArray, ParseString, ParseNumber, SkipSpaces;
    SkipAgain(b, p);
  }

  lemma {:induction false} ItemsFound(items: Items, b: seq<byte>, p: nat, done: seq<Json>)
    requires ItemsFit(items) && At(b, p, ItemsText(items, Blanked))
    ensures ParseItems(b, p, done) == Got(Array(done + ItemsValue(items)), p + |ItemsText(items, Blanked)|)
    decreases items, 0
  {
    hide At, SkipSpaces, GapText, GapFits, DocText, SlotText, ParseValue, DocFits, DocValue;
    var slot := SlotText(items.before, items.doc, items.after, Blanked);
    var q := p + |slot|;
    match items
    case LastItem(before, d, after) =>
      AtSplits(b, p, slot, [CLOSE_ARRAY]);
      OneStands(b, q, CLOSE_ARRAY);
      SlotFound(before, d, after, b, p);
      assert ItemsValue(items) == [DocValue(d)];
    case Item(before, d, after, rest) =>
      var tail := ItemsText(rest, Blanked);
      AtSplits(b, p, slot, [COMMA] + tail);
      AtSplits(b, q, [COMMA], tail);
      OneStands(b, q, COMMA);
      SlotFound(before, d, after, b, p);
      ItemsFound(rest, b, q + 1, done + [DocValue(d)]);
      assert done + [DocValue(d)] + ItemsValue(rest) == done + ItemsValue(items);
  }

  /** The first item is not the end of the array, and skipping to it first changes nothing. */
  lemma ItemsStart(items: Items, b: seq<byte>, p: nat)
    requires ItemsFit(items) && At(b, p, ItemsText(items, Blanked))
    ensures p <= |b| && !HasByte(b, SkipSpaces(b, p), CLOSE_ARRAY)
    ensures ParseItems(b, SkipSpaces(b, p), []) == ParseItems(b, p, [])
    decreases items, 1
  {
    hide At, SkipSpaces, GapText, GapFits, DocText, ParseValue, DocFits, DocValue;
    var g, t := GapText(items.before, Blanked), DocText(items.doc, Blanked);
    var slot := SlotText(items.before, items.doc, items.after, Blanked);
    var tail := if items.LastItem? then [CLOSE_ARRAY] else [COMMA] + ItemsText(items.rest, Blanked);
    AtSplits(b, p, slot, tail);
    AtSplits(b, p, g, t + GapText(items.after, Blanked));
    AtSplits(b, p + |g|, t, GapText(items.after, Blanked));
    DocStarts(items.doc, Blanked);
    AtIndex(b, p + |g|, t, 0);
    GapSkipped(items.before, b, p);
    ValueSkips(b, p);
  }

  lemma KeyFound(members: Members, b: seq<byte>, p: nat)
    requires KeyFits(members) && At(b, p, KeyText(members, Blanked))
    ensures ParseKey(b, p) == Got(PiecesValue(members.key), p + |KeyText(members, Blanked)|)
    ensures p <= |b| && HasByte(b, SkipSpaces(b, p), QUOTE)
  {
    hide At, SkipSpaces, GapText, GapFits, PiecesText, PiecesFit, PiecesValue, ParseString;
    var g, k, h := GapText(members.lead, Blanked), QuotedText(members.key), GapText(members.mid, Blanked);
    AtSplits(b, p, g, k + (h + [COLON]));
    AtSplits(b, p + |g|, k, h + [COLON]);
    AtSplits(b, p + |g| + |k|, h, [COLON]);
    AtIndex(b, p + |g|, k, 0);
    OneStands(b, p + |g| + |k| + |h|, COLON);
    GapSkipped(members.lead, b, p);
    StringFound(members.key, b, p + |g|);
    GapSkipped(members.mid, b, p + |g| + |k|);
  }

  lemma {:induction false} MembersFound(members: Members, b: seq<byte>, p: nat, done: seq<(seq<byte>, Json)>)
    requires MembersFit(members) && At(b, p, MembersText(members, Blanked))
    ensures ParseMembers(b, p, done) == Got(Object(done + MembersValue(members)), p + |MembersText(members, Blanked)|)
    decreases members, 0
  {
    hide At, SkipSpaces, GapText, GapFits, DocText, SlotText, KeyText, PiecesText, PiecesFit, PiecesValue, ParseKey,
      ParseValue, DocFits, DocValue;
    var key := KeyText(members, Blanked);
    var slot := SlotText(members.before, members.doc, members.after, Blanked);
    var tail := if members.LastMember? then [CLOSE_OBJECT] else [COMMA] + MembersText(members.rest, Blanked);
    var q := p + |key|;
    var end := q + |slot|;
    AtSplits(b, p, key, slot + tail);
    AtSplits(b, q, slot, tail);
    KeyFound(members, b, p);
    var entry := (PiecesValue(members.key), DocValue(members.doc));
    if members.LastMember? {
      OneStands(b, end, CLOSE_OBJECT);
      SlotFound(members.before, members.doc, members.after, b, q);
      assert MembersValue(members) == [entry];
    } else {
      AtSplits(b, end, [COMMA], MembersText(members.rest, Blanked));
      OneStands(b, end, COMMA);
      SlotFound(members.before, members.doc, members.after, b, q);
      MembersFound(members.rest, b, end + 1, done + [entry]);
      assert done + [entry] + MembersValue(members.rest) == done + MembersValue(members);
    }
  }

  lemma MembersStart(members: Members, b: seq<byte>, p: nat)
    requires MembersFit(members) && At(b, p, MembersText(members, Blanked))
    ensures p <= |b| && !HasByte(b, SkipSpaces(b, p), CLOSE_OBJECT)
    ensures ParseMembers(b, SkipSpaces(b, p), []) == ParseMembers(b, p, [])
    decreases members, 1
  {
    hide At, SkipSpaces, KeyText, KeyFits, SlotText, ParseString, ParseValue, DocFits, DocValue, GapFits;
    var tail := if members.LastMember? then [CLOSE_OBJECT] else [COMMA] + MembersText(members.rest, Blanked);
    AtSplits(b, p, KeyText(members, Blanked), SlotText(members.before, members.doc, members.after, Blanked) + tail);
    KeyFound(members, b, p);
    SkipAgain(b, p);
  }

  // ----- files -----

  lemma SpacesToEnd(b: seq<byte>, p: nat)
    requires p <= |b| && AllSpaces(b[p..])
    ensures SkipSpaces(b, p) == |b|
  {
    SpacesSkipped(b, p, b[p..]);
  }

  /** The texts of a file's parts, one after another. */
  lemma FileParts(f: File, form: Form)
    requires FileFits(f)
    ensures var last := if form.Written? then f.last else BlankAll(f.last);
      FileText(f, form) == GapText(f.before, form) + (DocText(f.doc, form) + (GapText(f.after, form) + last))
  {
    hide GapText, GapFits, DocText, DocFits, BlankAll;
  }

  lemma LastIsSpaces(f: File)
    requires FileFits(f)
    ensures AllSpaces(GapText(f.after, Blanked) + BlankAll(f.last))
  {
    hide GapText, GapFits, DocText, DocFits;
    GapIsSpaces(f.after);
  }

  /** Parsing any blanked text of a document gives the document's value. */
  lemma FileFound(f: File)
    requires FileFits(f)
    ensures ParseSpec(FileText(f, Blanked)) == Ok(DocValue(f.doc))
  {
    hide SkipSpaces, GapText, GapFits, DocText, DocFits, DocValue, ParseValue, FileText, At, BlankAll, AllSpaces;
    var b := FileText(f, Blanked);
    var g, t, rest := GapText(f.before, Blanked), DocText(f.doc, Blanked), GapText(f.after, Blanked) + BlankAll(f.last);
    FileParts(f, Blanked);
    WholeStands(b);
    AtSplits(b, 0, g, t + rest);
    AtSplits(b, |g|, t, rest);
    DocStarts(f.doc, Blanked);
    AtIndex(b, |g|, t, 0);
    GapSkipped(f.before, b, 0);
    ValueSkips(b, 0);
    LastIsSpaces(f);
    RestStands(b, |g| + |t|, rest);
    SpacesToEnd(b, |g| + |t|);
    assert NumberStops(f.doc, b, |g| + |t|) by {
      NoNumberFollows(b, |g| + |t|, rest);
    }
    DocFound(f.doc, b, |g|);
  }

  lemma WholeStands(b: seq<byte>)
    ensures At(b, 0, b)
  {
  }

  lemma RestStands(b: seq<byte>, p: nat, rest: seq<byte>)
    requires At(b, p, rest) && p + |rest| == |b|
    ensures p <= |b| && b[p..] == rest
  {
  }

  lemma NoNumberFollows(b: seq<byte>, p: nat, rest: seq<byte>)
    requires p <= |b| && b[p..] == rest && AllSpaces(rest)
    ensures p >= |b| || !IsNumberByte(b[p])
  {
    if p < |b| {
      assert b[p] == rest[0];
    }
  }
}
