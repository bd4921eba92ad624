// Everything the JSON parser accepts is a written form of the value it returns: the accepted language, exactly.

module JsonSound {
  import opened Basics
  import opened Utf8
  import opened Json
  import opened JsonText
  import opened JsonRoundTrip

  // ----- runs -----

  lemma {:induction false} SpacesSound(b: seq<byte>, p: nat) returns (g: Gap)
    requires p <= |b|
    ensures GapFits(g) && At(b, p, GapText(g, Blanked)) && SkipSpaces(b, p) == p + |GapText(g, Blanked)|
    decreases |b| - p
  {
    hide At;
    if p < |b| && IsSpace(b[p]) {
      var rest := SpacesSound(b, p + 1);
      g := [Space(b[p])] + rest;
      assert g[1..] == rest;
      OneStands(b, p, b[p]);
      AtSplits(b, p, [b[p]], GapText(rest, Blanked));
    } else {
      g := [];
      NothingStands(b, p);
    }
  }

  lemma {:induction false} NumberRuns(b: seq<byte>, p: nat)
    requires p <= |b|
    ensures forall i :: p <= i < NumberEnd(b, p) ==> IsNumberByte(b[i])
    decreases |b| - p
  {
    if p < |b| && IsNumberByte(b[p]) {
      NumberRuns(b, p + 1);
    }
  }

  lemma {:induction false} ChunkRuns(b: seq<byte>, p: nat)
    requires p <= |b|
    ensures forall i :: p <= i < ChunkEnd(b, p) ==> b[i] != QUOTE && b[i] != BACKSLASH
    ensures ChunkEnd(b, p) < |b| ==> b[ChunkEnd(b, p)] == QUOTE || b[ChunkEnd(b, p)] == BACKSLASH
    decreases |b| - p
  {
    if p < |b| && b[p] != QUOTE && b[p] != BACKSLASH {
      ChunkRuns(b, p + 1);
    }
  }

  // ----- strings -----

  lemma EscapeSound(b: seq<byte>, p: nat) returns (piece: Piece)
    requires p < |b| && b[p] == BACKSLASH && ParseEscape(b, p + 1).Got?
    ensures PieceFits(piece) && !piece.Plain? && At(b, p, PieceText(piece))
    ensures ParseEscape(b, p + 1) == Got(PieceValue(piece), p + |PieceText(piece)|)
  {
    hide UnicodeEscape, ShortEscape, EscapedText;
    if b[p + 1] == 0x75 {
      piece := Unicode(b[p + 2..p + 6]);
      assert b[p..p + 6] == [BACKSLASH, 0x75] + b[p + 2..p + 6];
    } else {
      piece := Short(b[p + 1]);
      assert b[p..p + 2] == [BACKSLASH, b[p + 1]];
    }
  }

  lemma PlainSound(b: seq<byte>, p: nat) returns (piece: Piece)
    requires p < |b| && b[p] != QUOTE && b[p] != BACKSLASH && ValidUtf8(b[p..ChunkEnd(b, p)])
    ensures PieceFits(piece) && piece == Plain(b[p..ChunkEnd(b, p)]) && At(b, p, PieceText(piece))
    ensures ChunkEnd(b, p) < |b| ==> b[ChunkEnd(b, p)] == QUOTE || b[ChunkEnd(b, p)] == BACKSLASH
  {
    hide ValidUtf8;
    ChunkRuns(b, p);
    assert ChunkEnd(b, p) > p;
    piece := Plain(b[p..ChunkEnd(b, p)]);
    SliceStands(b, p, ChunkEnd(b, p));
  }

  lemma OneMore(piece: Piece, rest: seq<Piece>, b: seq<byte>, p: nat)
    requires PieceFits(piece) && PiecesFit(rest)
    requires piece.Plain? && rest != [] ==> !rest[0].Plain?
    requires At(b, p, PieceText(piece)) && At(b, p + |PieceText(piece)|, PiecesText(rest) + [QUOTE])
    ensures PiecesFit([piece] + rest) && At(b, p, PiecesText([piece] + rest) + [QUOTE])
    ensures PiecesText([piece] + rest) == PieceText(piece) + PiecesText(rest)
    ensures PiecesValue([piece] + rest) == PieceValue(piece) + PiecesValue(rest)
  {
    hide At, PieceFits, PieceText, PieceValue;
    var pieces := [piece] + rest;
    assert pieces[1..] == rest;
    AtSplits(b, p, PieceText(piece), PiecesText(rest) + [QUOTE]);
    assert PieceText(piece) + (PiecesText(rest) + [QUOTE]) == PiecesText(pieces) + [QUOTE];
  }

  lemma {:induction false} BodySound(b: seq<byte>, p: nat, done: seq<byte>) returns (pieces: seq<Piece>)
    requires ParseBody(b, p, done).Got?
    ensures PiecesFit(pieces) && At(b, p, PiecesText(pieces) + [QUOTE])
    ensures ParseBody(b, p, done) == Got(done + PiecesValue(pieces), p + |PiecesText(pieces)| + 1)
    ensures pieces != [] && pieces[0].Plain? ==> b[p] != QUOTE && b[p] != BACKSLASH
    decreases |b| - p
  {
    hide At, ParseEscape, ChunkEnd, ValidUtf8, PieceFits, PieceText, PieceValue;
    if b[p] == QUOTE {
      pieces := [];
      OneStands(b, p, QUOTE);
      assert [] + [QUOTE] == [QUOTE] && done + [] == done;
    } else {
      var piece;
      if b[p] == BACKSLASH {
        piece := EscapeSound(b, p);
      } else {
        piece := PlainSound(b, p);
        PlainIs(piece);
      }
      var text, value := PieceText(piece), PieceValue(piece);
      var rest := BodySound(b, p + |text|, done + value);
      OneMore(piece, rest, b, p);
      pieces := [piece] + rest;
      assert done + value + PiecesValue(rest) == done + (value + PiecesValue(rest));
    }
  }

  lemma PlainIs(piece: Piece)
    requires piece.Plain? && PieceFits(piece)
    ensures PieceText(piece) == piece.bytes && PieceValue(piece) == piece.bytes
  {
  }

  lemma StringSound(b: seq<byte>, p: nat) returns (pieces: seq<Piece>)
    requires ParseString(b, p).Got?
    ensures PiecesFit(pieces) && At(b, p, QuotedText(pieces))
    ensures ParseString(b, p) == Got(PiecesValue(pieces), p + |QuotedText(pieces)|)
  {
    hide At, ParseBody, PiecesText, PiecesFit, PiecesValue;
    pieces := BodySound(b, p + 1, []);
    OneStands(b, p, QUOTE);
    AtSplits(b, p, [QUOTE], PiecesText(pieces) + [QUOTE]);
    assert [] + PiecesValue(pieces) == PiecesValue(pieces);
  }

  // ----- documents -----

  /** `d` is written at `p`, and reading it there gives `r`. */
  ghost predicate Wrote(b: seq<byte>, p: nat, d: Doc, r: Parsed<Json>) {
    && DocFits(d) && At(b, p, DocText(d, Blanked))
    && r == Got(DocValue(d), p + |DocText(d, Blanked)|)
  }

  lemma LiteralSound(b: seq<byte>, p: nat, d: Doc, text: seq<byte>)
    requires (d, text) in {(NullDoc, NULL), (BoolDoc(true), TRUE), (BoolDoc(false), FALSE)}
    requires ParseLiteral(b, p, text, DocValue(d)).Got?
    ensures Wrote(b, p, d, ParseLiteral(b, p, text, DocValue(d)))
  {
  }

  lemma NumberSound(b: seq<byte>, p: nat) returns (d: Doc)
    requires p <= |b| && ParseNumber(b, p).Got?
    ensures Wrote(b, p, d, ParseNumber(b, p))
  {
    NumberRuns(b, p);
    SliceStands(b, p, NumberEnd(b, p));
    d := NumDoc(b[p..NumberEnd(b, p)]);
  }

  lemma StrSound(b: seq<byte>, p: nat) returns (d: Doc)
    requires ParseString(b, p).Got?
    ensures Wrote(b, p, d, Got(Str(ParseString(b, p).value), ParseString(b, p).end))
  {
    hide At, PiecesFit, PiecesValue, QuotedText, ParseString;
    var pieces := StringSound(b, p);
    d := StrDoc(pieces);
  }

  lemma {:induction false} ValueSound(b: seq<byte>, start: nat) returns (g: Gap, d: Doc)
    requires start <= |b| && ParseValue(b, start).Got?
    ensures GapFits(g) && At(b, start, GapText(g, Blanked)) && SkipSpaces(b, start) == start + |GapText(g, Blanked)|
    ensures Wrote(b, start + |GapText(g, Blanked)|, d, ParseValue(b, start))
    decreases |b| - start, 2
  {
    hide At, Wrote, SkipSpaces, ParseArray, ParseObject, ParseString, ParseNumber, ParseLiteral, GapText, GapFits;
    g := SpacesSound(b, start);
    var p := SkipSpaces(b, start);
    if b[p] == OPEN_OBJECT {
      d := ObjectSound(b, p);
    } else if b[p] == OPEN_ARRAY {
      d := ArraySound(b, p);
    } else if b[p] == QUOTE {
      d := StrSound(b, p);
    } else if b[p] == TRUE[0] {
      d := BoolDoc(true);
      LiteralSound(b, p, d, TRUE);
    } else if b[p] == FALSE[0] {
      d := BoolDoc(false);
      LiteralSound(b, p, d, FALSE);
    } else if b[p] == NULL[0] {
      d := NullDoc;
      LiteralSound(b, p, d, NULL);
    } else {
      d := NumberSound(b, p);
    }
  }

  /** An opening bracket, a gap and a closing bracket. */
  lemma EmptySound(b: seq<byte>, p: nat, left: byte, right: byte) returns (inner: Gap)
    requires HasByte(b, p, left) && HasByte(b, SkipSpaces(b, p + 1), right)
    ensures GapFits(inner) && At(b, p, [left] + (GapText(inner, Blanked) + [right]))
    ensures SkipSpaces(b, p + 1) == p + 1 + |GapText(inner, Blanked)|
  {
    hide At, SkipSpaces, GapText, GapFits;
    inner := SpacesSound(b, p + 1);
    OneStands(b, p, left);
    OneStands(b, SkipSpaces(b, p + 1), right);
    AtSplits(b, p + 1, GapText(inner, Blanked), [right]);
    AtSplits(b, p, [left], GapText(inner, Blanked) + [right]);
  }

  lemma {:induction false} ArraySound(b: seq<byte>, p: nat) returns (d: Doc)
    requires HasByte(b, p, OPEN_ARRAY) && ParseArray(b, p).Got?
    ensures Wrote(b, p, d, ParseArray(b, p))
    decreases |b| - p, 1
  {
    hide At, SkipSpaces, GapText, GapFits, ParseItems, ItemsText, ItemsFit, ItemsValue;
    var q := SkipSpaces(b, p + 1);
    if HasByte(b, q, CLOSE_ARRAY) {
      var inner := EmptySound(b, p, OPEN_ARRAY, CLOSE_ARRAY);
      d := EmptyArray(inner);
    } else {
      ItemsSkip(b, p + 1, []);
      var items := ItemsSound(b, p + 1, []);
      ItemsFound(items, b, p + 1, []);
      d := ArrayDoc(items);
      OneStands(b, p, OPEN_ARRAY);
      AtSplits(b, p, [OPEN_ARRAY], ItemsText(items, Blanked));
      assert [] + ItemsValue(items) == ItemsValue(items);
    }
  }

  /** A value's two gaps around it. */
  lemma SlotStands(b: seq<byte>, p: nat, before: Gap, d: Doc, after: Gap, r: Parsed<Json>)
    requires At(b, p, GapText(before, Blanked))
    requires Wrote(b, p + |GapText(before, Blanked)|, d, r)
    requires At(b, r.end, GapText(after, Blanked))
    ensures At(b, p, SlotText(before, d, after, Blanked))
    ensures r.end + |GapText(after, Blanked)| == p + |SlotText(before, d, after, Blanked)|
    ensures DocFits(d) && r.value == DocValue(d)
  {
    hide At, GapText, GapFits, DocText, DocFits, DocValue;
    var g, t, h := GapText(before, Blanked), DocText(d, Blanked), GapText(after, Blanked);
    AtSplits(b, p + |g|, t, h);
    AtSplits(b, p, g, t + h);
  }

  lemma ItemsSkip(b: seq<byte>, p: nat, done: seq<Json>)
    requires p <= |b|
    ensures ParseItems(b, SkipSpaces(b, p), done) == ParseItems(b, p, done)
  {
    hide SkipSpaces, ParseValue;
    ValueSkips(b, p);
  }

  lemma MembersSkip(b: seq<byte>, p: nat, done: seq<(seq<byte>, Json)>)
    requires p <= |b|
    ensures ParseMembers(b, SkipSpaces(b, p), done) == ParseMembers(b, p, done)
  {
    hide SkipSpaces, ParseValue, ParseString;
    SkipAgain(b, p);
  }

  lemma {:induction false} ItemsSound(b: seq<byte>, p: nat, done: seq<Json>) returns (items: Items)
    requires p <= |b| && ParseItems(b, p, done).Got?
    ensures ItemsFit(items) && At(b, p, ItemsText(items, Blanked))
    decreases |b| - p, 3
  {
    hide At, Wrote, SkipSpaces, GapText, GapFits, DocFits, DocText, DocValue, SlotText, ParseValue;
    var before, d := ValueSound(b, p);
    var r := ParseValue(b, p);
    var after := SpacesSound(b, r.end);
    var q := SkipSpaces(b, r.end);
    SlotStands(b, p, before, d, after, r);
    var slot := SlotText(before, d, after, Blanked);
    if HasByte(b, q, COMMA) {
      var rest := ItemsSound(b, q + 1, done + [r.value]);
      items := Item(before, d, after, rest);
      OneStands(b, q, COMMA);
      AtSplits(b, q, [COMMA], ItemsText(rest, Blanked));
      AtSplits(b, p, slot, [COMMA] + ItemsText(rest, Blanked));
    } else {
      items := LastItem(before, d, after);
      OneStands(b, q, CLOSE_ARRAY);
      AtSplits(b, p, slot, [CLOSE_ARRAY]);
    }
  }

  lemma {:induction false} ObjectSound(b: seq<byte>, p: nat) returns (d: Doc)
    requires HasByte(b, p, OPEN_OBJECT) && ParseObject(b, p).Got?
    ensures Wrote(b, p, d, ParseObject(b, p))
    decreases |b| - p, 1
  {
    hide At, SkipSpaces, GapText, GapFits, ParseMembers, MembersText, MembersFit, MembersValue;
    var q := SkipSpaces(b, p + 1);
    if HasByte(b, q, CLOSE_OBJECT) {
      var inner := EmptySound(b, p, OPEN_OBJECT, CLOSE_OBJECT);
      d := EmptyObject(inner);
    } else {
      MembersSkip(b, p + 1, []);
      var members := MembersSound(b, p + 1, []);
      MembersFound(members, b, p + 1, []);
      d := ObjectDoc(members);
      OneStands(b, p, OPEN_OBJECT);
      AtSplits(b, p, [OPEN_OBJECT], MembersText(members, Blanked));
      assert [] + MembersValue(members) == MembersValue(members);
    }
  }

  /** A key with the gaps around it and its colon. */
  lemma KeySound(b: seq<byte>, p: nat) returns (lead: Gap, key: seq<Piece>, mid: Gap)
    requires p <= |b| && ParseKey(b, p).Got?
    ensures GapFits(lead) && PiecesFit(key) && GapFits(mid)
    ensures var text := GapText(lead, Blanked) + (QuotedText(key) + (GapText(mid, Blanked) + [COLON]));
      At(b, p, text) && ParseKey(b, p) == Got(PiecesValue(key), p + |text|)
  {
    hide At, SkipSpaces, GapText, GapFits, QuotedText, PiecesFit, PiecesValue, ParseString;
    lead := SpacesSound(b, p);
    var start := SkipSpaces(b, p);
    key := StringSound(b, start);
    var end := ParseString(b, start).end;
    mid := SpacesSound(b, end);
    var g, k, h := GapText(lead, Blanked), QuotedText(key), GapText(mid, Blanked);
    OneStands(b, SkipSpaces(b, end), COLON);
    AtSplits(b, end, h, [COLON]);
    AtSplits(b, start, k, h + [COLON]);
    AtSplits(b, p, g, k + (h + [COLON]));
  }

  lemma {:induction false} MembersSound(b: seq<byte>, p: nat, done: seq<(seq<byte>, Json)>) returns (members: Members)
    requires p <= |b| && ParseMembers(b, p, done).Got?
    ensures MembersFit(members) && At(b, p, MembersText(members, Blanked))
    decreases |b| - p, 3
  {
    hide At, Wrote, SkipSpaces, GapText, GapFits, DocFits, DocText, DocValue, SlotText, ParseValue, ParseKey,
      QuotedText, PiecesFit, PiecesValue;
    var lead, key, mid := KeySound(b, p);
    var start := ParseKey(b, p).end;
    var before, d := ValueSound(b, start);
    var r := ParseValue(b, start);
    var after := SpacesSound(b, r.end);
    var q := SkipSpaces(b, r.end);
    SlotStands(b, start, before, d, after, r);
    var slot := SlotText(before, d, after, Blanked);
    var entry := (ParseKey(b, p).value, r.value);
    if HasByte(b, q, COMMA) {
      var rest := MembersSound(b, q + 1, done + [entry]);
      members := Member(lead, key, mid, before, d, after, rest);
      var tail := [COMMA] + MembersText(rest, Blanked);
      OneStands(b, q, COMMA);
      AtSplits(b, q, [COMMA], MembersText(rest, Blanked));
      AtSplits(b, start, slot, tail);
      AtSplits(b, p, KeyText(members, Blanked), slot + tail);
    } else {
      members := LastMember(lead, key, mid, before, d, after);
      OneStands(b, q, CLOSE_OBJECT);
      AtSplits(b, start, slot, [CLOSE_OBJECT]);
      AtSplits(b, p, KeyText(members, Blanked), slot + [CLOSE_OBJECT]);
    }
  }

  // ----- files -----

  /** The file a parsed text is. */
  lemma FileSound(b: seq<byte>) returns (f: File)
    requires ParseSpec(b).Ok?
    ensures FileFits(f) && FileText(f, Blanked) == b && ParseSpec(b) == Ok(DocValue(f.doc))
  {
    hide At, Wrote, SkipSpaces, GapText, GapFits, DocFits, DocText, DocValue, SlotText, ParseValue;
    var before, d := ValueSound(b, 0);
    var r := ParseValue(b, 0);
    var after := SpacesSound(b, r.end);
    SlotStands(b, 0, before, d, after, r);
    f := File(before, d, after, []);
    WholeIs(b, SlotText(before, d, after, Blanked));
    assert FileText(f, Blanked) == SlotText(before, d, after, Blanked);
  }

  lemma WholeIs(b: seq<byte>, text: seq<byte>)
    requires At(b, 0, text) && |text| == |b|
    ensures b == text
  {
    assert b[0..|b|] == b;
  }

  /** The parser accepts a text exactly when it is a written value, and returns exactly that value. */
  lemma ParseExact(b: seq<byte>, value: Json)
    ensures ParseSpec(b) == Ok(value) <==>
      exists f: File :: FileFits(f) && FileText(f, Blanked) == b && DocValue(f.doc) == value
  {
    hide GapFits, DocFits, FileText, DocValue, ParseSpec;
    if ParseSpec(b) == Ok(value) {
      var f := FileSound(b);
    }
    forall f: File | FileFits(f) && FileText(f, Blanked) == b && DocValue(f.doc) == value
      ensures ParseSpec(b) == Ok(value)
    {
      FileFound(f);
    }
  }
}
