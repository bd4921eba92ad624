// Every text that parses once its comments are stripped is a written JSONC text of the value: the reader's
// language, exactly.

module JsonCommentsSound {
  import opened Basics
  import opened Json
  import opened JsonText
  import opened JsonRoundTrip
  import opened JsonSound
  import opened JsonComments
  import Scan = StripComments

  // ----- comments -----

  /** The first newline from `p` on, or the end. */
  ghost function LineEnd(b: seq<byte>, p: nat): (q: nat)
    requires p <= |b|
    ensures p <= q <= |b| && (q < |b| ==> b[q] == NEWLINE) && NEWLINE !in b[p..q]
    decreases |b| - p
  {
    if p == |b| || b[p] == NEWLINE then p
    else
      var q := LineEnd(b, p + 1);
      assert b[p..q] == [b[p]] + b[p + 1..q];
      q
  }

  ghost predicate Closes(b: seq<byte>, i: nat) {
    i + 1 < |b| && b[i] == STAR && b[i + 1] == SLASH
  }

  /** The first star with a slash after it from `p` on, or the end. */
  ghost function BlockEnd(b: seq<byte>, p: nat): (q: nat)
    requires p <= |b|
    ensures p <= q <= |b| && (q < |b| ==> Closes(b, q)) && forall i :: p <= i < q ==> !Closes(b, i)
    decreases |b| - p
  {
    if p == |b| || Closes(b, p) then p else BlockEnd(b, p + 1)
  }

  lemma BeforeBlockEnd(b: seq<byte>, p: nat)
    requires p <= |b|
    ensures NeverCloses(b[p..BlockEnd(b, p)])
  {
    var w := b[p..BlockEnd(b, p)];
    forall i | 0 <= i < |w| - 1 ensures !(w[i] == STAR && w[i + 1] == SLASH) {
      assert !Closes(b, p + i);
    }
  }

  /** Blanked bytes are spaces, so they stop at or before the first byte that is none. */
  lemma BlanksStop(b: seq<byte>, p: nat, w: seq<byte>, from: Scan.Mode, to: Scan.Mode, q: nat)
    requires Turned(b, p, w, BlankAll(w), from, to) && p <= q <= |b|
    requires q == |b| || !IsSpace(Scan.Stripped(b)[q])
    ensures p + |w| <= q
  {
    hide Scan.Stripped, Scan.ModeAt;
    if q < p + |w| {
      AtIndex(Scan.Stripped(b), p, BlankAll(w), q - p);
      assert false;
    }
  }

  /** A closed comment that stands at `p` and ends by `q`, in code. */
  ghost predicate Closed(item: GapItem, b: seq<byte>, p: nat, q: nat) {
    && ItemFits(item) && At(b, p, ItemBytes(item)) && p < p + |ItemBytes(item)| <= q <= |b|
    && Scan.ModeAt(b, p + |ItemBytes(item)|) == Scan.Code
  }

  lemma LineLift(b: seq<byte>, p: nat, q: nat) returns (item: GapItem, last: seq<byte>)
    requires p < q <= |b| && Scan.ModeAt(b, p) == Scan.Code && Scan.Opens(b, p) && b[p + 1] == SLASH
    requires q == |b| || !IsSpace(Scan.Stripped(b)[q])
    ensures if last == [] then Closed(item, b, p, q) else LastFits(last) && q == |b| && b[p..] == last
  {
    hide Scan.ModeAt, Scan.Stripped, Turned, BlankAll;
    item, last := TightComment, [];
    var e := LineEnd(b, p + 2);
    var body := b[p + 2..e];
    assert b[p..e] == [SLASH, SLASH] + body;
    SliceStands(b, p, e);
    if e == |b| {
      LineCommentTurned(b, p, body);
      BlanksStop(b, p, [SLASH, SLASH] + body, Scan.Code, Scan.Line, q);
      last := b[p..];
      LineLastFits(last);
    } else {
      item := LineComment(body);
      assert b[p..e + 1] == [SLASH, SLASH] + body + [NEWLINE];
      SliceStands(b, p, e + 1);
      ItemEnds(item, b, p, q);
    }
  }

  lemma BlockLift(b: seq<byte>, p: nat, q: nat) returns (item: GapItem, last: seq<byte>)
    requires p < q <= |b| && Scan.ModeAt(b, p) == Scan.Code && Scan.Opens(b, p) && b[p + 1] == STAR
    requires q == |b| || !IsSpace(Scan.Stripped(b)[q])
    ensures if last == [] then Closed(item, b, p, q) else LastFits(last) && q == |b| && b[p..] == last
  {
    hide Scan.ModeAt, Scan.Stripped, Turned, NeverCloses, BlankAll, At;
    item, last := TightComment, [];
    var e := BlockEnd(b, p + 1);
    BeforeBlockEnd(b, p + 1);
    if e == |b| {
      last := b[p..];
      assert last[1..] == b[p + 1..e];
      assert b[p..|b|] == last;
      SliceStands(b, p, |b|);
      UnclosedTurned(b, p, last);
      BlanksStop(b, p, last, Scan.Code, Scan.Block, q);
    } else {
      item := BlockItem(b, p, e);
      ItemEnds(item, b, p, q);
    }
  }

  /** A comment that opens before `q` is a closed one, or the last thing in the text. */
  lemma CommentLift(b: seq<byte>, p: nat, q: nat) returns (item: GapItem, last: seq<byte>)
    requires p < q <= |b| && Scan.ModeAt(b, p) == Scan.Code && Scan.Opens(b, p)
    requires q == |b| || !IsSpace(Scan.Stripped(b)[q])
    ensures if last == [] then Closed(item, b, p, q) else LastFits(last) && q == |b| && b[p..] == last
  {
    hide Scan.ModeAt, Scan.Stripped, Closed, LastFits;
    if b[p + 1] == SLASH {
      item, last := LineLift(b, p, q);
    } else {
      item, last := BlockLift(b, p, q);
    }
  }

  lemma LineLastFits(last: seq<byte>)
    requires |last| >= 2 && last[0] == SLASH && last[1] == SLASH && NEWLINE !in last[2..]
    ensures LastFits(last)
  {
    assert last == [SLASH, SLASH] + last[2..];
  }

  lemma BlockItem(b: seq<byte>, p: nat, e: nat) returns (item: GapItem)
    requires p + 1 < |b| && b[p] == SLASH && b[p + 1] == STAR && p + 1 <= e && Closes(b, e)
    requires NeverCloses(b[p + 1..e])
    ensures ItemFits(item) && !item.Space? && At(b, p, ItemBytes(item))
  {
    hide NeverCloses;
    SliceStands(b, p, e + 2);
    if e == p + 1 {
      item := TightComment;
      assert b[p..e + 2] == [SLASH, STAR, SLASH];
    } else {
      item := BlockComment(b[p + 2..e]);
      assert b[p + 1..e] == [STAR] + b[p + 2..e];
      assert b[p..e + 2] == [SLASH, STAR] + b[p + 2..e] + [STAR, SLASH];
    }
  }

  lemma ItemEnds(item: GapItem, b: seq<byte>, p: nat, q: nat)
    requires ItemFits(item) && !item.Space? && At(b, p, ItemBytes(item))
    requires p <= q <= |b| && Scan.ModeAt(b, p) == Scan.Code && (q == |b| || !IsSpace(Scan.Stripped(b)[q]))
    ensures p + |ItemBytes(item)| <= q && Scan.ModeAt(b, p + |ItemBytes(item)|) == Scan.Code
  {
    hide Scan.ModeAt, Scan.Stripped, Turned, At, ItemBytes, ItemFits, BlankAll;
    ItemTurned(item, b, p);
    BlanksStop(b, p, ItemBytes(item), Scan.Code, Scan.Code, q);
    TurnedMode(b, p, ItemBytes(item), ItemText(item, Blanked), Scan.Code, Scan.Code);
  }

  // ----- gaps -----

  lemma CodeSpace(b: seq<byte>, p: nat)
    requires p < |b| && Scan.ModeAt(b, p) == Scan.Code && !Scan.Opens(b, p) && IsSpace(Scan.Stripped(b)[p])
    ensures IsSpace(b[p]) && Scan.ModeAt(b, p + 1) == Scan.Code
  {
    hide Scan.ModeAt, Scan.Stripped;
    OneScanned(b, p);
  }

  lemma GapGrows(item: GapItem, g: Gap, last: seq<byte>, b: seq<byte>, p: nat)
    requires ItemFits(item) && GapFits(g) && At(b, p, ItemBytes(item))
    requires At(b, p + |ItemBytes(item)|, GapText(g, Written) + last)
    ensures GapFits([item] + g) && At(b, p, GapText([item] + g, Written) + last)
    ensures |GapText([item] + g, Written)| == |ItemBytes(item)| + |GapText(g, Written)|
  {
    hide At, ItemFits, ItemBytes;
    AtSplits(b, p, ItemBytes(item), GapText(g, Written) + last);
    assert ([item] + g)[1..] == g;
    assert ItemBytes(item) + (GapText(g, Written) + last) == GapText([item] + g, Written) + last;
  }

  /** What a run of spaces was before its comments were stripped. */
  lemma {:induction false} SpaceLift(b: seq<byte>, p: nat, q: nat) returns (g: Gap, last: seq<byte>)
    requires p <= q <= |b| && Scan.ModeAt(b, p) == Scan.Code
    requires forall i :: p <= i < q ==> IsSpace(Scan.Stripped(b)[i])
    requires q == |b| || !IsSpace(Scan.Stripped(b)[q])
    ensures GapFits(g) && LastFits(last) && At(b, p, GapText(g, Written) + last)
    ensures p + |GapText(g, Written)| + |last| == q && (q < |b| ==> last == [])
    decreases q - p
  {
    hide Scan.ModeAt, Scan.Stripped, At, ItemBytes, ItemFits, LastFits;
    if p == q {
      g, last := [], [];
      NothingFits();
      NothingStands(b, p);
    } else if !Scan.Opens(b, p) {
      CodeSpace(b, p);
      g, last := SpaceLift(b, p + 1, q);
      OneSpace(b, p);
      GapGrows(Space(b[p]), g, last, b, p);
      g := [Space(b[p])] + g;
    } else {
      var item;
      item, last := CommentLift(b, p, q);
      if last != [] {
        g := [];
        SliceStands(b, p, |b|);
        assert [] + last == last && b[p..|b|] == last;
      } else {
        g, last := SpaceLift(b, p + |ItemBytes(item)|, q);
        GapGrows(item, g, last, b, p);
        g := [item] + g;
      }
    }
  }

  lemma NothingFits()
    ensures LastFits([]) && GapFits([]) && GapText([], Written) + [] == []
  {
  }

  lemma OneSpace(b: seq<byte>, p: nat)
    requires p < |b| && IsSpace(b[p])
    ensures ItemFits(Space(b[p])) && ItemBytes(Space(b[p])) == [b[p]] && At(b, p, ItemBytes(Space(b[p])))
  {
    OneStands(b, p, b[p]);
  }

  /** A gap in the stripped text, with something other than a space after it. */
  lemma GapLift(blank: Gap, b: seq<byte>, p: nat) returns (g: Gap)
    requires p <= |b| && Scan.ModeAt(b, p) == Scan.Code && GapFits(blank)
    requires At(Scan.Stripped(b), p, GapText(blank, Blanked))
    requires var q := p + |GapText(blank, Blanked)|; q < |b| && !IsSpace(Scan.Stripped(b)[q])
    ensures GapFits(g) && Stands(b, p, GapText(g, Written))
    ensures |GapText(g, Written)| == |GapText(blank, Blanked)|
    ensures Scan.ModeAt(b, p + |GapText(g, Written)|) == Scan.Code
  {
    hide Scan.ModeAt, Scan.Stripped, At, GapFits, LastFits, GapText, Turned;
    var q := p + |GapText(blank, Blanked)|;
    GapIsSpaces(blank);
    forall i | p <= i < q ensures IsSpace(Scan.Stripped(b)[i]) {
      AtIndex(Scan.Stripped(b), p, GapText(blank, Blanked), i - p);
    }
    var last;
    g, last := SpaceLift(b, p, q);
    assert GapText(g, Written) + last == GapText(g, Written);
    SpaceTurned(g, b, p);
    TurnedMode(b, p, GapText(g, Written), GapText(g, Blanked), Scan.Code, Scan.Code);
  }

  // ----- code and strings -----

  /** In code, a byte of the stripped text that is no space was there before. */
  lemma CodeByte(b: seq<byte>, p: nat)
    requires p < |b| && Scan.ModeAt(b, p) == Scan.Code && !IsSpace(Scan.Stripped(b)[p])
    ensures b[p] == Scan.Stripped(b)[p]
    ensures b[p] != QUOTE ==> Scan.ModeAt(b, p + 1) == Scan.Code
  {
    hide Scan.ModeAt, Scan.Stripped;
    OneScanned(b, p);
  }

  lemma {:induction false} CodeLift(b: seq<byte>, p: nat, w: seq<byte>)
    requires p <= |b| && At(Scan.Stripped(b), p, w) && Scan.ModeAt(b, p) == Scan.Code
    requires QUOTE !in w && forall i :: 0 <= i < |w| ==> !IsSpace(w[i])
    ensures Stands(b, p, w) && p + |w| <= |b| && Scan.ModeAt(b, p + |w|) == Scan.Code
    decreases |w|
  {
    hide At, Scan.Stripped, Scan.ModeAt;
    if w == [] {
      NothingStands(b, p);
    } else {
      TailStands(Scan.Stripped(b), p, w);
      CodeByte(b, p);
      OneStands(b, p, w[0]);
      CodeLift(b, p + 1, w[1..]);
      AtSplits(b, p, [w[0]], w[1..]);
      assert [w[0]] + w[1..] == w;
    }
  }

  lemma WholeString(pieces: seq<Piece>, s: seq<byte>, p: nat)
    requires PiecesFit(pieces) && p <= |s| && At(s, p, QuotedText(pieces)) && Scan.ModeAt(s, p) == Scan.Code
    ensures InString(s, p + 1, |PiecesText(pieces)| + 1)
  {
    hide At, Scan.Stripped, Turned, PiecesText, PiecesFit;
    var text := PiecesText(pieces);
    AtSplits(s, p, [QUOTE], text + [QUOTE]);
    AtSplits(s, p + 1, text, [QUOTE]);
    TailStands(s, p, [QUOTE]);
    PiecesTurned(pieces, s, p + 1);
    TurnedMode(s, p + 1, text, text, Scan.Str, Scan.Str);
    TailStands(s, p + 1 + |text|, [QUOTE]);
  }

  /** Inside a string nothing changed. */
  lemma StringByte(b: seq<byte>, i: nat)
    requires i < |b| && Scan.ModeAt(Scan.Stripped(b), i) in {Scan.Str, Scan.Escaped}
    ensures b[i] == Scan.Stripped(b)[i]
  {
    hide Scan.ModeAt, Scan.Stripped;
    Scan.StrippedModes(b, i);
    OneScanned(b, i);
  }

  /** A string literal of the stripped text was there before. */
  lemma StringLift(pieces: seq<Piece>, b: seq<byte>, p: nat)
    requires PiecesFit(pieces) && p <= |b|
    requires At(Scan.Stripped(b), p, QuotedText(pieces)) && Scan.ModeAt(b, p) == Scan.Code
    ensures Stands(b, p, QuotedText(pieces)) && p + |QuotedText(pieces)| <= |b|
    ensures Scan.ModeAt(b, p + |QuotedText(pieces)|) == Scan.Code
  {
    hide Scan.ModeAt, Scan.Stripped, At, PiecesFit, QuotedText, Turned;
    var t, text := Scan.Stripped(b), QuotedText(pieces);
    Scan.StrippedModes(b, p);
    WholeString(pieces, t, p);
    QuotedIs(pieces);
    InBounds(t, p, text);
    AtIndex(t, p, text, 0);
    CodeByte(b, p);
    forall i | p <= i < p + |text| ensures b[i] == t[i] {
      if i > p {
        StringByte(b, i);
      }
    }
    SameStands(b, t, p, text);
    QuotedTurned(pieces, b, p);
    TurnedMode(b, p, text, text, Scan.Code, Scan.Code);
  }

  lemma QuotedIs(pieces: seq<Piece>)
    ensures |QuotedText(pieces)| == |PiecesText(pieces)| + 2 && QuotedText(pieces)[0] == QUOTE
  {
  }

  lemma InBounds(t: seq<byte>, p: nat, text: seq<byte>)
    requires At(t, p, text)
    ensures p + |text| <= |t|
  {
  }

  lemma SameStands(b: seq<byte>, t: seq<byte>, p: nat, text: seq<byte>)
    requires |b| == |t| && At(t, p, text) && forall i :: p <= i < p + |text| ==> b[i] == t[i]
    ensures At(b, p, text)
  {
    assert b[p..p + |text|] == t[p..p + |text|];
  }

  // ----- documents -----

  /** In code at `p`, and `s` stands there in the stripped text. */
  ghost predicate Left(b: seq<byte>, p: nat, s: seq<byte>) {
    p <= |b| && At(Scan.Stripped(b), p, s) && Scan.ModeAt(b, p) == Scan.Code
  }

  /** `w` stands at `p`, where the stripped text holds something as long, and code goes on after it. */
  ghost predicate Lifted(b: seq<byte>, p: nat, w: seq<byte>, length: nat) {
    Stands(b, p, w) && |w| == length && p + |w| <= |b| && Scan.ModeAt(b, p + |w|) == Scan.Code
  }

  lemma LeftSplits(b: seq<byte>, p: nat, s: seq<byte>, more: seq<byte>)
    requires Left(b, p, s + more)
    ensures Left(b, p, s) && At(Scan.Stripped(b), p + |s|, more)
    ensures more != [] ==> p + |s| < |b| && Scan.Stripped(b)[p + |s|] == more[0]
  {
    hide At, Scan.Stripped, Scan.ModeAt;
    AtSplits(Scan.Stripped(b), p, s, more);
    if more != [] {
      TailStands(Scan.Stripped(b), p + |s|, more);
    }
  }

  lemma LeftGoesOn(b: seq<byte>, p: nat, w: seq<byte>, n: nat, more: seq<byte>)
    requires Lifted(b, p, w, n) && At(Scan.Stripped(b), p + n, more)
    ensures Left(b, p + n, more)
  {
    hide At, Scan.Stripped, Scan.ModeAt;
  }

  lemma LiftJoins(b: seq<byte>, p: nat, w: seq<byte>, n: nat, more: seq<byte>, m: nat)
    requires Lifted(b, p, w, n) && Lifted(b, p + n, more, m)
    ensures Lifted(b, p, w + more, n + m)
  {
    hide At, Scan.Stripped, Scan.ModeAt;
    AtSplits(b, p, w, more);
  }

  /** A stretch of code without spaces or quotes. */
  lemma MarkLift(b: seq<byte>, p: nat, w: seq<byte>)
    requires Left(b, p, w) && QUOTE !in w && forall i :: 0 <= i < |w| ==> !IsSpace(w[i])
    ensures Lifted(b, p, w, |w|)
  {
    hide At, Scan.Stripped, Scan.ModeAt, Stands;
    CodeLift(b, p, w);
  }

  lemma StrLift(pieces: seq<Piece>, b: seq<byte>, p: nat)
    requires PiecesFit(pieces) && Left(b, p, QuotedText(pieces))
    ensures Lifted(b, p, QuotedText(pieces), |QuotedText(pieces)|)
  {
    hide At, Scan.Stripped, Scan.ModeAt, PiecesFit, QuotedText, Stands;
    StringLift(pieces, b, p);
  }

  /** A gap with something other than a space after it. */
  lemma BlankLift(blank: Gap, b: seq<byte>, p: nat) returns (g: Gap)
    requires GapFits(blank) && Left(b, p, GapText(blank, Blanked))
    requires var q := p + |GapText(blank, Blanked)|; q < |b| && !IsSpace(Scan.Stripped(b)[q])
    ensures GapFits(g) && Lifted(b, p, GapText(g, Written), |GapText(blank, Blanked)|)
  {
    hide At, Scan.Stripped, Scan.ModeAt, GapFits, GapText;
    g := GapLift(blank, b, p);
    StandsIn(b, p, GapText(g, Written));
  }

  lemma StandsIn(b: seq<byte>, p: nat, w: seq<byte>)
    requires Stands(b, p, w)
    ensures p + |w| <= |b|
  {
  }

  ghost predicate Origin(d: Doc, blank: Doc, b: seq<byte>, p: nat) {
    && DocFits(d) && DocFits(blank) && DocValue(d) == DocValue(blank)
    && Lifted(b, p, DocText(d, Written), |DocText(blank, Blanked)|)
  }

  lemma ScalarLift(blank: Doc, b: seq<byte>, p: nat)
    requires blank.NullDoc? || blank.BoolDoc? || blank.NumDoc? || blank.StrDoc?
    requires DocFits(blank) && Left(b, p, DocText(blank, Blanked))
    ensures Origin(blank, blank, b, p)
  {
    hide Left, Lifted, QuotedText, PiecesFit, PiecesValue;
    match blank
    case StrDoc(pieces) => StrLift(pieces, b, p);
    case _ => MarkLift(b, p, DocText(blank, Blanked));
  }

  lemma EmptyLift(blank: Gap, b: seq<byte>, p: nat, left: byte, right: byte) returns (g: Gap)
    requires GapFits(blank) && Left(b, p, [left] + (GapText(blank, Blanked) + [right]))
    requires left != QUOTE && right != QUOTE && !IsSpace(left) && !IsSpace(right)
    ensures GapFits(g)
    ensures Lifted(b, p, [left] + (GapText(g, Written) + [right]), |[left] + (GapText(blank, Blanked) + [right])|)
  {
    hide At, Left, Lifted, Scan.Stripped, Scan.ModeAt, GapFits, GapText, IsSpace;
    var s := GapText(blank, Blanked);
    LeftSplits(b, p, [left], s + [right]);
    MarkLift(b, p, [left]);
    LeftGoesOn(b, p, [left], 1, s + [right]);
    LeftSplits(b, p + 1, s, [right]);
    g := BlankLift(blank, b, p + 1);
    LeftGoesOn(b, p + 1, GapText(g, Written), |s|, [right]);
    MarkLift(b, p + 1 + |s|, [right]);
    LiftJoins(b, p + 1, GapText(g, Written), |s|, [right], 1);
    LiftJoins(b, p, [left], 1, GapText(g, Written) + [right], |s| + 1);
  }

  lemma {:induction false} DocLift(blank: Doc, b: seq<byte>, p: nat) returns (d: Doc)
    requires DocFits(blank) && Left(b, p, DocText(blank, Blanked))
    ensures Origin(d, blank, b, p)
    decreases blank, 0
  {
    hide At, Left, Lifted, Scan.Stripped, Scan.ModeAt, GapFits, GapText;
    match blank
    case EmptyArray(inner) =>
      var g := EmptyLift(inner, b, p, OPEN_ARRAY, CLOSE_ARRAY);
      d := EmptyArray(g);
    case EmptyObject(inner) =>
      var g := EmptyLift(inner, b, p, OPEN_OBJECT, CLOSE_OBJECT);
      d := EmptyObject(g);
    case ArrayDoc(items) =>
      var s := ItemsText(items, Blanked);
      OpenLift(b, p, OPEN_ARRAY, s);
      var lifted := ItemsLift(items, b, p + 1);
      LiftJoins(b, p, [OPEN_ARRAY], 1, ItemsText(lifted, Written), |s|);
      d := ArrayDoc(lifted);
    case ObjectDoc(members) =>
      var s := MembersText(members, Blanked);
      OpenLift(b, p, OPEN_OBJECT, s);
      var lifted := MembersLift(members, b, p + 1);
      LiftJoins(b, p, [OPEN_OBJECT], 1, MembersText(lifted, Written), |s|);
      d := ObjectDoc(lifted);
    case _ =>
      ScalarLift(blank, b, p);
      d := blank;
  }

  lemma OpenLift(b: seq<byte>, p: nat, c: byte, more: seq<byte>)
    requires Left(b, p, [c] + more) && c != QUOTE && !IsSpace(c)
    ensures Lifted(b, p, [c], 1) && Left(b, p + 1, more)
  {
    hide At, Left, Lifted, Scan.Stripped, Scan.ModeAt;
    LeftSplits(b, p, [c], more);
    MarkLift(b, p, [c]);
    LeftGoesOn(b, p, [c], 1, more);
  }

  /** A document and the gaps around it, with something other than a space after them. */
  lemma {:induction false} SlotLift(before: Gap, blank: Doc, after: Gap, b: seq<byte>, p: nat)
    returns (g: Gap, d: Doc, h: Gap)
    requires GapFits(before) && DocFits(blank) && GapFits(after)
    requires Left(b, p, SlotText(before, blank, after, Blanked))
    requires var q := p + |SlotText(before, blank, after, Blanked)|; q < |b| && !IsSpace(Scan.Stripped(b)[q])
    ensures GapFits(g) && DocFits(d) && GapFits(h) && DocValue(d) == DocValue(blank)
    ensures Lifted(b, p, SlotText(g, d, h, Written), |SlotText(before, blank, after, Blanked)|)
    decreases blank, 1
  {
    hide At, Left, Lifted, Scan.Stripped, Scan.ModeAt, GapFits, GapText, DocFits, DocText, DocValue, IsSpace,
      StartsValue;
    var s, t, u := GapText(before, Blanked), DocText(blank, Blanked), GapText(after, Blanked);
    LeftSplits(b, p, s, t + u);
    DocStarts(blank, Blanked);
    StartIsNoSpace(t[0]);
    g := BlankLift(before, b, p);
    LeftGoesOn(b, p, GapText(g, Written), |s|, t + u);
    LeftSplits(b, p + |s|, t, u);
    d := DocLift(blank, b, p + |s|);
    LeftGoesOn(b, p + |s|, DocText(d, Written), |t|, u);
    h := BlankLift(after, b, p + |s| + |t|);
    LiftJoins(b, p + |s|, DocText(d, Written), |t|, GapText(h, Written), |u|);
    LiftJoins(b, p, GapText(g, Written), |s|, DocText(d, Written) + GapText(h, Written), |t| + |u|);
  }

  lemma StartIsNoSpace(c: byte)
    requires StartsValue(c)
    ensures !IsSpace(c)
  {
  }

  lemma {:induction false} ItemsLift(blank: Items, b: seq<byte>, p: nat) returns (items: Items)
    requires ItemsFit(blank) && Left(b, p, ItemsText(blank, Blanked))
    ensures ItemsFit(items) && ItemsValue(items) == ItemsValue(blank)
    ensures Lifted(b, p, ItemsText(items, Written), |ItemsText(blank, Blanked)|)
    decreases blank, 0
  {
    hide At, Left, Lifted, Scan.Stripped, Scan.ModeAt, GapFits, GapText, DocFits, DocText, DocValue, SlotText;
    var s := SlotText(blank.before, blank.doc, blank.after, Blanked);
    var tail := if blank.LastItem? then [CLOSE_ARRAY] else [COMMA] + ItemsText(blank.rest, Blanked);
    LeftSplits(b, p, s, tail);
    var g, d, h := SlotLift(blank.before, blank.doc, blank.after, b, p);
    var w, q := SlotText(g, d, h, Written), p + |s|;
    LeftGoesOn(b, p, w, |s|, tail);
    if blank.LastItem? {
      MarkLift(b, q, [CLOSE_ARRAY]);
      LiftJoins(b, p, w, |s|, [CLOSE_ARRAY], 1);
      items := LastItem(g, d, h);
    } else {
      OpenLift(b, q, COMMA, ItemsText(blank.rest, Blanked));
      var rest := ItemsLift(blank.rest, b, q + 1);
      LiftJoins(b, q, [COMMA], 1, ItemsText(rest, Written), |ItemsText(blank.rest, Blanked)|);
      LiftJoins(b, p, w, |s|, [COMMA] + ItemsText(rest, Written), |tail|);
      items := Item(g, d, h, rest);
    }
  }

  /** What follows the string of a key: a gap and the colon. */
  lemma ColonLift(blank: Members, b: seq<byte>, p: nat) returns (h: Gap)
    requires KeyFits(blank) && Left(b, p, GapText(blank.mid, Blanked) + [COLON])
    ensures GapFits(h)
    ensures Lifted(b, p, GapText(h, Written) + [COLON], |GapText(blank.mid, Blanked)| + 1)
  {
    hide At, Left, Lifted, Scan.Stripped, Scan.ModeAt, GapFits, GapText, PiecesFit, QuotedText;
    var t := GapText(blank.mid, Blanked);
    LeftSplits(b, p, t, [COLON]);
    h := BlankLift(blank.mid, b, p);
    LeftGoesOn(b, p, GapText(h, Written), |t|, [COLON]);
    MarkLift(b, p + |t|, [COLON]);
    LiftJoins(b, p, GapText(h, Written), |t|, [COLON], 1);
  }

  /** The string of a key with what follows it. */
  lemma NameLift(blank: Members, b: seq<byte>, p: nat) returns (h: Gap)
    requires KeyFits(blank) && Left(b, p, QuotedText(blank.key) + (GapText(blank.mid, Blanked) + [COLON]))
    ensures GapFits(h)
    ensures Lifted(b, p, QuotedText(blank.key) + (GapText(h, Written) + [COLON]),
                   |QuotedText(blank.key)| + |GapText(blank.mid, Blanked)| + 1)
  {
    hide At, Left, Lifted, Scan.Stripped, Scan.ModeAt, GapFits, GapText, PiecesFit, QuotedText;
    var k, t := QuotedText(blank.key), GapText(blank.mid, Blanked);
    LeftSplits(b, p, k, t + [COLON]);
    StrLift(blank.key, b, p);
    LeftGoesOn(b, p, k, |k|, t + [COLON]);
    h := ColonLift(blank, b, p + |k|);
    LiftJoins(b, p, k, |k|, GapText(h, Written) + [COLON], |t| + 1);
  }

  lemma KeyLift(blank: Members, b: seq<byte>, p: nat) returns (g: Gap, h: Gap)
    requires KeyFits(blank) && Left(b, p, KeyText(blank, Blanked))
    ensures GapFits(g) && GapFits(h)
    ensures Lifted(b, p, GapText(g, Written) + (QuotedText(blank.key) + (GapText(h, Written) + [COLON])),
                   |KeyText(blank, Blanked)|)
  {
    hide At, Left, Lifted, Scan.Stripped, Scan.ModeAt, GapFits, GapText, PiecesFit, QuotedText;
    var s, k, t := GapText(blank.lead, Blanked), QuotedText(blank.key), GapText(blank.mid, Blanked);
    QuotedIs(blank.key);
    LeftSplits(b, p, s, k + (t + [COLON]));
    g := BlankLift(blank.lead, b, p);
    LeftGoesOn(b, p, GapText(g, Written), |s|, k + (t + [COLON]));
    h := NameLift(blank, b, p + |s|);
    LiftJoins(b, p, GapText(g, Written), |s|, k + (GapText(h, Written) + [COLON]), |k| + |t| + 1);
  }

  lemma {:induction false} MembersLift(blank: Members, b: seq<byte>, p: nat) returns (members: Members)
    requires MembersFit(blank) && Left(b, p, MembersText(blank, Blanked))
    ensures MembersFit(members) && MembersValue(members) == MembersValue(blank)
    ensures Lifted(b, p, MembersText(members, Written), |MembersText(blank, Blanked)|)
    decreases blank, 0
  {
    hide At, Left, Lifted, Scan.Stripped, Scan.ModeAt, GapFits, GapText, DocFits, DocText, DocValue, SlotText,
      PiecesFit,
      PiecesValue, QuotedText;
    var k, s := KeyText(blank, Blanked), SlotText(blank.before, blank.doc, blank.after, Blanked);
    var tail := if blank.LastMember? then [CLOSE_OBJECT] else [COMMA] + MembersText(blank.rest, Blanked);
    LeftSplits(b, p, k, s + tail);
    var lead, mid := KeyLift(blank, b, p);
    var key := GapText(lead, Written) + (QuotedText(blank.key) + (GapText(mid, Written) + [COLON]));
    LeftGoesOn(b, p, key, |k|, s + tail);
    LeftSplits(b, p + |k|, s, tail);
    var g, d, h := SlotLift(blank.before, blank.doc, blank.after, b, p + |k|);
    var w, q := SlotText(g, d, h, Written), p + |k| + |s|;
    LeftGoesOn(b, p + |k|, w, |s|, tail);
    if blank.LastMember? {
      MarkLift(b, q, [CLOSE_OBJECT]);
      LiftJoins(b, p + |k|, w, |s|, [CLOSE_OBJECT], 1);
      LiftJoins(b, p, key, |k|, w + [CLOSE_OBJECT], |s| + 1);
      members := LastMember(lead, blank.key, mid, g, d, h);
    } else {
      OpenLift(b, q, COMMA, MembersText(blank.rest, Blanked));
      var rest := MembersLift(blank.rest, b, q + 1);
      var more := [COMMA] + MembersText(rest, Written);
      LiftJoins(b, q, [COMMA], 1, MembersText(rest, Written), |MembersText(blank.rest, Blanked)|);
      LiftJoins(b, p + |k|, w, |s|, more, |tail|);
      LiftJoins(b, p, key, |k|, w + more, |s| + |tail|);
      members := Member(lead, blank.key, mid, g, d, h, rest);
    }
  }

  // ----- files -----

  /** The gap a file ends with, up to the end of the text, where a comment may be left open. */
  lemma TailLift(b: seq<byte>, p: nat) returns (g: Gap, last: seq<byte>)
    requires p <= |b| && Scan.ModeAt(b, p) == Scan.Code && AllSpaces(Scan.Stripped(b)[p..])
    ensures GapFits(g) && LastFits(last) && At(b, p, GapText(g, Written) + last)
    ensures p + |GapText(g, Written)| + |last| == |b|
  {
    hide Scan.ModeAt, Scan.Stripped, At, GapFits, LastFits, GapText, IsSpace;
    var t := Scan.Stripped(b);
    forall i | p <= i < |b| ensures IsSpace(t[i]) {
      assert t[i] == t[p..][i - p];
    }
    g, last := SpaceLift(b, p, |b|);
  }

  /** The file a text was written as, if what is left without its comments parses. */
  lemma WrittenSound(b: seq<byte>) returns (f: File)
    requires ParseSpec(Scan.Stripped(b)).Ok?
    ensures FileFits(f) && FileText(f, Written) == b && ParseSpec(Scan.Stripped(b)) == Ok(DocValue(f.doc))
  {
    hide At, Left, Lifted, Scan.Stripped, Scan.ModeAt, GapFits, GapText, DocFits, DocText, DocValue, IsSpace,
      StartsValue,
      LastFits, FileText, ParseSpec, BlankAll, AllSpaces, SlotText;
    var t := Scan.Stripped(b);
    var blank := FileSound(t);
    var s, u, rest := GapText(blank.before, Blanked), DocText(blank.doc, Blanked),
      GapText(blank.after, Blanked) + BlankAll(blank.last);
    FileParts(blank, Blanked);
    WholeLeft(b, s + (u + rest));
    LeftSplits(b, 0, s, u + rest);
    DocStarts(blank.doc, Blanked);
    StartIsNoSpace(u[0]);
    var g := BlankLift(blank.before, b, 0);
    LeftGoesOn(b, 0, GapText(g, Written), |s|, u + rest);
    LeftSplits(b, |s|, u, rest);
    var d := DocLift(blank.doc, b, |s|);
    LiftJoins(b, 0, GapText(g, Written), |s|, DocText(d, Written), |u|);
    var p := |s| + |u|;
    RestStands(t, p, rest);
    LastIsSpaces(blank);
    LiftedMode(b, 0, GapText(g, Written) + DocText(d, Written), p);
    var h, last := TailLift(b, p);
    f := File(g, d, h, last);
    FileParts(f, Written);
    WholeWritten(b, GapText(g, Written), DocText(d, Written), GapText(h, Written) + last);
  }

  lemma WholeLeft(b: seq<byte>, s: seq<byte>)
    requires Scan.Stripped(b) == s
    ensures Left(b, 0, s)
  {
    hide Scan.Stripped;
    WholeStands(s);
  }

  lemma LiftedMode(b: seq<byte>, p: nat, w: seq<byte>, n: nat)
    requires Lifted(b, p, w, n)
    ensures At(b, p, w) && |w| == n && p + n <= |b| && Scan.ModeAt(b, p + n) == Scan.Code
  {
  }

  lemma WholeWritten(b: seq<byte>, g: seq<byte>, t: seq<byte>, rest: seq<byte>)
    requires At(b, 0, g + t) && At(b, |g + t|, rest) && |g + t| + |rest| == |b|
    ensures b == g + (t + rest)
  {
    assert b == b[0..|g + t|] + b[|g + t|..];
  }

  /** A text reads, its comments stripped, to a value exactly when it is a written JSONC text of that value. */
  lemma CommentedExact(b: seq<byte>, value: Json)
    ensures ParseSpec(Scan.Stripped(b)) == Ok(value) <==>
      exists f: File :: FileFits(f) && FileText(f, Written) == b && DocValue(f.doc) == value
  {
    hide GapFits, DocFits, LastFits, FileText, DocValue, ParseSpec, Scan.Stripped;
    if ParseSpec(Scan.Stripped(b)) == Ok(value) {
      var f := WrittenSound(b);
    }
    forall f: File | FileFits(f) && FileText(f, Written) == b && DocValue(f.doc) == value
      ensures ParseSpec(Scan.Stripped(b)) == Ok(value)
    {
      CommentedFileFound(f);
    }
  }
}
