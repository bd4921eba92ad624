// Stripping the comments of a written JSONC text gives its blanked text, so parsing what is left gives the value back.

module JsonComments {
  import opened Basics
  import opened Json
  import opened JsonText
  import opened JsonRoundTrip
  import Scan = StripComments

  /** The scanner meets `w` at `p` in mode `from`, leaves it in mode `to`, and puts out `s` for it. */
  ghost predicate Turned(b: seq<byte>, p: nat, w: seq<byte>, s: seq<byte>, from: Scan.Mode, to: Scan.Mode) {
    && |w| == |s|
    && At(b, p, w) && At(Scan.Stripped(b), p, s)
    && Scan.ModeAt(b, p) == from && Scan.ModeAt(b, p + |w|) == to
  }

  lemma TurnedJoins(b: seq<byte>, p: nat, w: seq<byte>, s: seq<byte>, more: seq<byte>, rest: seq<byte>,
                    from: Scan.Mode, mid: Scan.Mode, to: Scan.Mode)
    requires Turned(b, p, w, s, from, mid) && Turned(b, p + |w|, more, rest, mid, to)
    ensures Turned(b, p, w + more, s + rest, from, to)
  {
    hide At, Scan.Stripped, Scan.ModeAt;
    AtSplits(b, p, w, more);
    AtSplits(Scan.Stripped(b), p, s, rest);
    assert p + |w + more| == p + |w| + |more|;
  }

  lemma OneTurned(b: seq<byte>, p: nat)
    requires p < |b|
    ensures var mode := Scan.ModeAt(b, p);
      Turned(b, p, [b[p]], [Scan.Emit(b, p, mode)], mode, Scan.Next(b, p, mode))
  {
    hide Scan.Emit, Scan.Next, At, Scan.Stripped, Scan.ModeAt;
    OneStands(b, p, b[p]);
    OneStands(Scan.Stripped(b), p, Scan.Stripped(b)[p]);
    OneScanned(b, p);
  }

  lemma OneScanned(b: seq<byte>, p: nat)
    requires p < |b|
    ensures Scan.Stripped(b)[p] == Scan.Emit(b, p, Scan.ModeAt(b, p))
    ensures Scan.ModeAt(b, p + 1) == Scan.Next(b, p, Scan.ModeAt(b, p))
  {
    hide Scan.Emit, Scan.Next;
  }

  lemma NothingTurned(b: seq<byte>, p: nat)
    requires p <= |b|
    ensures Turned(b, p, [], [], Scan.ModeAt(b, p), Scan.ModeAt(b, p))
  {
    hide Scan.ModeAt;
  }

  /** One byte with what the scanner makes of it, then the rest of a run. */
  lemma HeadTurned(b: seq<byte>, p: nat, w: seq<byte>, s: seq<byte>, to: Scan.Mode)
    requires w != [] && |s| == |w| && At(b, p, w)
    requires var mode := Scan.ModeAt(b, p);
      && p < |b| && s[0] == Scan.Emit(b, p, mode)
      && Turned(b, p + 1, w[1..], s[1..], Scan.Next(b, p, mode), to)
    ensures Turned(b, p, w, s, Scan.ModeAt(b, p), to)
  {
    hide At, Turned, Scan.Emit, Scan.Next, Scan.ModeAt, Scan.Stripped;
    AtIndex(b, p, w, 0);
    OneTurned(b, p);
    var mode := Scan.ModeAt(b, p);
    TurnedJoins(b, p, [w[0]], [s[0]], w[1..], s[1..], mode, Scan.Next(b, p, mode), to);
    assert [w[0]] + w[1..] == w && [s[0]] + s[1..] == s;
  }

  lemma TailStands(b: seq<byte>, p: nat, w: seq<byte>)
    requires w != [] && At(b, p, w)
    ensures p < |b| && b[p] == w[0] && At(b, p + 1, w[1..])
  {
    AtIndex(b, p, w, 0);
    assert w == [w[0]] + w[1..];
    AtSplits(b, p, [w[0]], w[1..]);
  }

  // ----- code and strings -----

  lemma {:induction false} PlainTurned(b: seq<byte>, p: nat, w: seq<byte>)
    requires p <= |b| && At(b, p, w) && Scan.ModeAt(b, p) == Scan.Code
    requires QUOTE !in w && SLASH !in w
    ensures Turned(b, p, w, w, Scan.Code, Scan.Code)
    decreases |w|
  {
    hide At, Scan.Stripped, Turned;
    if w == [] {
      NothingTurned(b, p);
    } else {
      TailStands(b, p, w);
      OneTurned(b, p);
      TurnedMode(b, p, [b[p]], [w[0]], Scan.Code, Scan.Code);
      PlainTurned(b, p + 1, w[1..]);
      HeadTurned(b, p, w, w, Scan.Code);
    }
  }

  lemma TurnedMode(b: seq<byte>, p: nat, w: seq<byte>, s: seq<byte>, from: Scan.Mode, to: Scan.Mode)
    requires Turned(b, p, w, s, from, to)
    ensures p + |w| <= |b| && Scan.ModeAt(b, p + |w|) == to
  {
  }

  /** From `p` on, `n` bytes are met inside a string. */
  ghost predicate InString(b: seq<byte>, p: nat, n: nat) {
    p + n <= |b| && forall i :: p <= i < p + n ==> Scan.ModeAt(b, i) in {Scan.Str, Scan.Escaped}
  }

  lemma InStringJoins(b: seq<byte>, p: nat, n: nat, m: nat)
    requires InString(b, p, n) && InString(b, p + n, m)
    ensures InString(b, p, n + m)
  {
    hide Scan.ModeAt;
  }

  /** Bytes of a string other than quotes and backslashes. */
  lemma {:induction false} StringTurned(b: seq<byte>, p: nat, w: seq<byte>)
    requires p <= |b| && At(b, p, w) && Scan.ModeAt(b, p) == Scan.Str
    requires QUOTE !in w && BACKSLASH !in w
    ensures Turned(b, p, w, w, Scan.Str, Scan.Str)
    ensures InString(b, p, |w|)
    decreases |w|
  {
    hide At, Scan.Stripped, Turned;
    if w == [] {
      NothingTurned(b, p);
    } else {
      TailStands(b, p, w);
      OneTurned(b, p);
      TurnedMode(b, p, [b[p]], [w[0]], Scan.Str, Scan.Str);
      StringTurned(b, p + 1, w[1..]);
      HeadTurned(b, p, w, w, Scan.Str);
    }
  }

  lemma {:induction false} HexIsPlain(d: seq<byte>)
    requires HexDigits(d).Ok?
    ensures QUOTE !in d && BACKSLASH !in d
  {
    if d != [] {
      HexIsPlain(d[..|d| - 1]);
      assert d == d[..|d| - 1] + [d[|d| - 1]];
    }
  }

  lemma UnicodeIsPlain(d: seq<byte>)
    requires |d| == 4 && UnicodeEscape(d).Ok?
    ensures QUOTE !in d && BACKSLASH !in d
  {
    hide HexDigits;
    HexIsPlain(if d[0] == PLUS then d[1..] else d);
    assert d == [d[0]] + d[1..];
  }

  /** A backslash and the byte after it, whatever that is. */
  lemma EscapeTurned(b: seq<byte>, p: nat, c: byte)
    requires p <= |b| && At(b, p, [BACKSLASH, c]) && Scan.ModeAt(b, p) == Scan.Str
    ensures Turned(b, p, [BACKSLASH, c], [BACKSLASH, c], Scan.Str, Scan.Str)
    ensures InString(b, p, 2)
  {
    hide At, Scan.Stripped, Turned;
    var w := [BACKSLASH, c];
    TailStands(b, p, w);
    TailStands(b, p + 1, w[1..]);
    OneTurned(b, p);
    TurnedMode(b, p, [b[p]], [BACKSLASH], Scan.Str, Scan.Escaped);
    OneTurned(b, p + 1);
    assert w[1..] == [c];
    HeadTurned(b, p, w, w, Scan.Str);
  }

  lemma PieceTurned(piece: Piece, b: seq<byte>, p: nat)
    requires PieceFits(piece) && p <= |b| && At(b, p, PieceText(piece)) && Scan.ModeAt(b, p) == Scan.Str
    ensures Turned(b, p, PieceText(piece), PieceText(piece), Scan.Str, Scan.Str)
    ensures InString(b, p, |PieceText(piece)|)
  {
    hide At, Scan.Stripped, Scan.ModeAt, Turned, UnicodeEscape, ShortEscape;
    match piece
    case Plain(bytes) => StringTurned(b, p, bytes);
    case Short(letter) => EscapeTurned(b, p, letter);
    case Unicode(digits) =>
      var head := [BACKSLASH, 0x75];
      AtSplits(b, p, head, digits);
      EscapeTurned(b, p, 0x75);
      TurnedMode(b, p, head, head, Scan.Str, Scan.Str);
      UnicodeIsPlain(digits);
      StringTurned(b, p + 2, digits);
      InStringJoins(b, p, 2, 4);
      TurnedJoins(b, p, head, head, digits, digits, Scan.Str, Scan.Str, Scan.Str);
  }

  lemma {:induction false} PiecesTurned(pieces: seq<Piece>, b: seq<byte>, p: nat)
    requires PiecesFit(pieces) && p <= |b| && At(b, p, PiecesText(pieces)) && Scan.ModeAt(b, p) == Scan.Str
    ensures Turned(b, p, PiecesText(pieces), PiecesText(pieces), Scan.Str, Scan.Str)
    ensures InString(b, p, |PiecesText(pieces)|)
    decreases |pieces|
  {
    hide At, Scan.Stripped, Scan.ModeAt, Turned, PieceText, PieceFits;
    if pieces == [] {
      NothingTurned(b, p);
    } else {
      var head, rest := PieceText(pieces[0]), PiecesText(pieces[1..]);
      AtSplits(b, p, head, rest);
      PieceTurned(pieces[0], b, p);
      TurnedMode(b, p, head, head, Scan.Str, Scan.Str);
      PiecesTurned(pieces[1..], b, p + |head|);
      InStringJoins(b, p, |head|, |rest|);
      TurnedJoins(b, p, head, head, rest, rest, Scan.Str, Scan.Str, Scan.Str);
    }
  }

  /** A string literal is passed over untouched, slashes and stars inside it included. */
  lemma QuotedTurned(pieces: seq<Piece>, b: seq<byte>, p: nat)
    requires PiecesFit(pieces) && p <= |b| && At(b, p, QuotedText(pieces)) && Scan.ModeAt(b, p) == Scan.Code
    ensures Turned(b, p, QuotedText(pieces), QuotedText(pieces), Scan.Code, Scan.Code)
  {
    hide At, Scan.Stripped, Turned, PiecesText, PiecesFit;
    var text := PiecesText(pieces);
    AtSplits(b, p, [QUOTE], text + [QUOTE]);
    AtSplits(b, p + 1, text, [QUOTE]);
    TailStands(b, p, [QUOTE]);
    OneTurned(b, p);
    TurnedMode(b, p, [b[p]], [QUOTE], Scan.Code, Scan.Str);
    PiecesTurned(pieces, b, p + 1);
    TurnedMode(b, p + 1, text, text, Scan.Str, Scan.Str);
    TailStands(b, p + 1 + |text|, [QUOTE]);
    OneTurned(b, p + 1 + |text|);
    TurnedJoins(b, p + 1, text, text, [QUOTE], [QUOTE], Scan.Str, Scan.Str, Scan.Code);
    TurnedJoins(b, p, [QUOTE], [QUOTE], text + [QUOTE], text + [QUOTE], Scan.Code, Scan.Str, Scan.Code);
  }

  // ----- comments -----

  lemma BlankJoins(s: seq<byte>, t: seq<byte>)
    ensures BlankAll(s + t) == BlankAll(s) + BlankAll(t)
  {
  }

  /** The bytes of a line comment after its first slash, up to a newline or the end of the text. */
  lemma {:induction false} LineTurned(b: seq<byte>, p: nat, w: seq<byte>)
    requires w != [] && NEWLINE !in w && At(b, p, w) && Scan.ModeAt(b, p) == Scan.Line
    requires p + |w| == |b| || b[p + |w|] == NEWLINE
    ensures Turned(b, p, w, BlankAll(w), Scan.Line, if p + |w| == |b| then Scan.Line else Scan.Code)
    decreases |w|
  {
    hide At, Scan.Stripped, Turned;
    TailStands(b, p, w);
    OneTurned(b, p);
    var s := BlankAll(w);
    var to := if p + |w| == |b| then Scan.Line else Scan.Code;
    if |w| == 1 {
      assert w == [b[p]] && s == [SPACE];
    } else {
      TailStands(b, p + 1, w[1..]);
      TurnedMode(b, p, [b[p]], [SPACE], Scan.Line, Scan.Line);
      LineTurned(b, p + 1, w[1..]);
      assert s[1..] == BlankAll(w[1..]);
      HeadTurned(b, p, w, s, to);
    }
  }

  lemma NeverClosesLater(w: seq<byte>)
    requires w != [] && NeverCloses(w)
    ensures NeverCloses(w[1..])
    ensures |w| > 1 && w[0] == STAR ==> w[1] != SLASH
  {
  }

  /** The bytes of a block comment between its opening slash and its closing star. */
  lemma {:induction false} BlockTurned(b: seq<byte>, p: nat, w: seq<byte>)
    requires NeverCloses(w) && p <= |b| && At(b, p, w) && (p + |w| == |b| || b[p + |w|] == STAR)
    requires Scan.ModeAt(b, p) == Scan.Block
    ensures Turned(b, p, w, BlankAll(w), Scan.Block, Scan.Block)
    decreases |w|
  {
    hide At, Scan.Stripped, Turned, NeverCloses;
    var s := BlankAll(w);
    if w == [] {
      NothingTurned(b, p);
      assert s == [];
    } else {
      TailStands(b, p, w);
      NeverClosesLater(w);
      if |w| > 1 {
        TailStands(b, p + 1, w[1..]);
      }
      OneTurned(b, p);
      TurnedMode(b, p, [b[p]], [s[0]], Scan.Block, Scan.Block);
      BlockTurned(b, p + 1, w[1..]);
      assert s[1..] == BlankAll(w[1..]);
      HeadTurned(b, p, w, s, Scan.Block);
    }
  }

  /** The star and slash that close a block comment. */
  lemma CloseTurned(b: seq<byte>, p: nat)
    requires At(b, p, [STAR, SLASH]) && p <= |b| && Scan.ModeAt(b, p) == Scan.Block
    ensures Turned(b, p, [STAR, SLASH], [SPACE, SPACE], Scan.Block, Scan.Code)
  {
    hide At, Scan.Stripped, Turned;
    var w, s := [STAR, SLASH], [SPACE, SPACE];
    TailStands(b, p, w);
    TailStands(b, p + 1, w[1..]);
    OneTurned(b, p);
    TurnedMode(b, p, [b[p]], [SPACE], Scan.Block, Scan.Closing);
    OneTurned(b, p + 1);
    assert w[1..] == [SLASH] && s[1..] == [SPACE];
    HeadTurned(b, p, w, s, Scan.Code);
  }

  /** The slash that opens a comment. */
  lemma OpenTurned(b: seq<byte>, p: nat, second: byte)
    requires At(b, p, [SLASH, second]) && p <= |b| && Scan.ModeAt(b, p) == Scan.Code
    requires second == SLASH || second == STAR
    ensures Turned(b, p, [SLASH], [SPACE], Scan.Code, if second == SLASH then Scan.Line else Scan.Block)
    ensures p + 1 < |b| && Scan.ModeAt(b, p + 1) == if second == SLASH then Scan.Line else Scan.Block
  {
    hide At, Scan.Stripped, Turned;
    TailStands(b, p, [SLASH, second]);
    assert [SLASH, second][1..] == [second];
    TailStands(b, p + 1, [second]);
    OneTurned(b, p);
    TurnedMode(b, p, [SLASH], [SPACE], Scan.Code, if second == SLASH then Scan.Line else Scan.Block);
  }

  /** A whole line comment but for its newline. */
  lemma LineCommentTurned(b: seq<byte>, p: nat, body: seq<byte>)
    requires NEWLINE !in body && At(b, p, [SLASH, SLASH] + body) && p <= |b| && Scan.ModeAt(b, p) == Scan.Code
    requires var end := p + 2 + |body|; end == |b| || b[end] == NEWLINE
    ensures var end := p + 2 + |body|;
      Turned(b, p, [SLASH, SLASH] + body, BlankAll([SLASH, SLASH] + body), Scan.Code,
             if end == |b| then Scan.Line else Scan.Code)
  {
    hide At, Scan.Stripped, Scan.ModeAt, Turned, BlankAll;
    AtSplits(b, p, [SLASH, SLASH], body);
    OpenTurned(b, p, SLASH);
    var run := [SLASH] + body;
    assert [SLASH, SLASH] + body == [SLASH] + run;
    AtSplits(b, p, [SLASH], run);
    LineTurned(b, p + 1, run);
    BlankJoins([SLASH], run);
    SlashBlanks();
    TurnedJoins(b, p, [SLASH], [SPACE], run, BlankAll(run), Scan.Code, Scan.Line,
                if p + 2 + |body| == |b| then Scan.Line else Scan.Code);
  }

  lemma SlashBlanks()
    ensures BlankAll([SLASH]) == [SPACE] && BlankAll([STAR, SLASH]) == [SPACE, SPACE]
  {
  }

  /** A block comment whose middle, with the opening star and before the closing star, is `run`. */
  lemma BlockCommentTurned(b: seq<byte>, p: nat, run: seq<byte>)
    requires NeverCloses(run) && (run != [] ==> run[0] == STAR)
    requires At(b, p, [SLASH] + (run + [STAR, SLASH])) && p <= |b| && Scan.ModeAt(b, p) == Scan.Code
    ensures var text := [SLASH] + (run + [STAR, SLASH]); Turned(b, p, text, BlankAll(text), Scan.Code, Scan.Code)
  {
    hide At, Scan.Stripped, Scan.ModeAt, Turned, BlankAll, NeverCloses;
    var rest := run + [STAR, SLASH];
    var text := [SLASH] + rest;
    AtSplits(b, p, [SLASH], rest);
    AtSplits(b, p + 1, run, [STAR, SLASH]);
    TailStands(b, p + 1, rest);
    assert text == [SLASH, STAR] + rest[1..];
    AtSplits(b, p, [SLASH, STAR], rest[1..]);
    OpenTurned(b, p, STAR);
    TailStands(b, p + 1 + |run|, [STAR, SLASH]);
    BlockTurned(b, p + 1, run);
    TurnedMode(b, p + 1, run, BlankAll(run), Scan.Block, Scan.Block);
    CloseTurned(b, p + 1 + |run|);
    BlankJoins(run, [STAR, SLASH]);
    BlankJoins([SLASH], rest);
    SlashBlanks();
    TurnedJoins(b, p + 1, run, BlankAll(run), [STAR, SLASH], [SPACE, SPACE], Scan.Block, Scan.Block, Scan.Code);
    TurnedJoins(b, p, [SLASH], [SPACE], rest, BlankAll(rest), Scan.Code, Scan.Block, Scan.Code);
  }

  lemma ItemTurned(item: GapItem, b: seq<byte>, p: nat)
    requires ItemFits(item) && p <= |b| && At(b, p, ItemBytes(item)) && Scan.ModeAt(b, p) == Scan.Code
    ensures Turned(b, p, ItemBytes(item), ItemText(item, Blanked), Scan.Code, Scan.Code)
  {
    hide At, Scan.Stripped, Scan.ModeAt, Turned, BlankAll, NeverCloses;
    var text := ItemBytes(item);
    match item
    case Space(c) => PlainTurned(b, p, [c]);
    case LineComment(body) =>
      var line := [SLASH, SLASH] + body;
      AtSplits(b, p, line, [NEWLINE]);
      TailStands(b, p + |line|, [NEWLINE]);
      LineCommentTurned(b, p, body);
      TurnedMode(b, p, line, BlankAll(line), Scan.Code, Scan.Code);
      PlainTurned(b, p + |line|, [NEWLINE]);
      TurnedJoins(b, p, line, BlankAll(line), [NEWLINE], [NEWLINE], Scan.Code, Scan.Code, Scan.Code);
      BlankJoins(line, [NEWLINE]);
      NewlineStays();
    case BlockComment(body) =>
      assert text == [SLASH] + (([STAR] + body) + [STAR, SLASH]);
      BlockCommentTurned(b, p, [STAR] + body);
    case TightComment =>
      assert text == [SLASH] + ([] + [STAR, SLASH]);
      NothingCloses();
      BlockCommentTurned(b, p, []);
  }

  lemma NewlineStays()
    ensures BlankAll([NEWLINE]) == [NEWLINE]
  {
  }

  lemma NothingCloses()
    ensures NeverCloses([])
  {
  }

  lemma {:induction false} GapTurned(g: Gap, b: seq<byte>, p: nat)
    requires GapFits(g) && p <= |b| && At(b, p, GapText(g, Written)) && Scan.ModeAt(b, p) == Scan.Code
    ensures Turned(b, p, GapText(g, Written), GapText(g, Blanked), Scan.Code, Scan.Code)
    decreases |g|
  {
    hide At, Scan.Stripped, Scan.ModeAt, Turned, ItemBytes, ItemFits, BlankAll;
    if g == [] {
      NothingTurned(b, p);
    } else {
      var w, s := ItemBytes(g[0]), ItemText(g[0], Blanked);
      AtSplits(b, p, w, GapText(g[1..], Written));
      ItemTurned(g[0], b, p);
      TurnedMode(b, p, w, s, Scan.Code, Scan.Code);
      GapTurned(g[1..], b, p + |w|);
      TurnedJoins(b, p, w, s, GapText(g[1..], Written), GapText(g[1..], Blanked), Scan.Code, Scan.Code, Scan.Code);
    }
  }

  // ----- documents -----

  /** Two neighbouring stretches of code, joined. */
  lemma CodeJoins(b: seq<byte>, p: nat, w: seq<byte>, s: seq<byte>, more: seq<byte>, rest: seq<byte>)
    requires Turned(b, p, w, s, Scan.Code, Scan.Code)
    requires Turned(b, p + |w|, more, rest, Scan.Code, Scan.Code)
    ensures Turned(b, p, w + more, s + rest, Scan.Code, Scan.Code)
  {
    hide Turned;
    TurnedJoins(b, p, w, s, more, rest, Scan.Code, Scan.Code, Scan.Code);
  }

  /** Splits a stretch of code: the front is taken care of, the back stands where the front ends, in code. */
  ghost predicate Stands(b: seq<byte>, p: nat, w: seq<byte>) {
    p <= |b| && At(b, p, w) && Scan.ModeAt(b, p) == Scan.Code
  }

  lemma FrontStands(b: seq<byte>, p: nat, w: seq<byte>, more: seq<byte>)
    requires Stands(b, p, w + more)
    ensures Stands(b, p, w) && At(b, p + |w|, more)
  {
    hide At, Scan.ModeAt;
    AtSplits(b, p, w, more);
  }

  lemma BackStands(b: seq<byte>, p: nat, w: seq<byte>, s: seq<byte>, more: seq<byte>)
    requires Turned(b, p, w, s, Scan.Code, Scan.Code) && At(b, p + |w|, more)
    ensures Stands(b, p + |w|, more)
  {
    hide Scan.ModeAt, Scan.Stripped;
  }

  lemma MarkTurned(b: seq<byte>, p: nat, w: seq<byte>)
    requires Stands(b, p, w) && QUOTE !in w && SLASH !in w
    ensures Turned(b, p, w, w, Scan.Code, Scan.Code)
  {
    PlainTurned(b, p, w);
  }

  lemma {:induction false} DocTurned(d: Doc, b: seq<byte>, p: nat)
    requires DocFits(d) && Stands(b, p, DocText(d, Written))
    ensures Turned(b, p, DocText(d, Written), DocText(d, Blanked), Scan.Code, Scan.Code)
    decreases d, 0
  {
    hide Turned, Stands, GapText, GapFits, PiecesFit, At;
    match d
    case NullDoc => MarkTurned(b, p, NULL);
    case BoolDoc(value) => MarkTurned(b, p, if value then TRUE else FALSE);
    case NumDoc(text) => MarkTurned(b, p, text);
    case StrDoc(pieces) => StrTurned(pieces, b, p);
    case EmptyArray(inner) => EmptyTurned(inner, b, p, OPEN_ARRAY, CLOSE_ARRAY);
    case EmptyObject(inner) => EmptyTurned(inner, b, p, OPEN_OBJECT, CLOSE_OBJECT);
    case ArrayDoc(items) =>
      var w, s := ItemsText(items, Written), ItemsText(items, Blanked);
      FrontStands(b, p, [OPEN_ARRAY], w);
      MarkTurned(b, p, [OPEN_ARRAY]);
      BackStands(b, p, [OPEN_ARRAY], [OPEN_ARRAY], w);
      ItemsTurned(items, b, p + 1);
      CodeJoins(b, p, [OPEN_ARRAY], [OPEN_ARRAY], w, s);
    case ObjectDoc(members) =>
      var w, s := MembersText(members, Written), MembersText(members, Blanked);
      FrontStands(b, p, [OPEN_OBJECT], w);
      MarkTurned(b, p, [OPEN_OBJECT]);
      BackStands(b, p, [OPEN_OBJECT], [OPEN_OBJECT], w);
      MembersTurned(members, b, p + 1);
      CodeJoins(b, p, [OPEN_OBJECT], [OPEN_OBJECT], w, s);
  }

  lemma StrTurned(pieces: seq<Piece>, b: seq<byte>, p: nat)
    requires PiecesFit(pieces) && Stands(b, p, QuotedText(pieces))
    ensures Turned(b, p, QuotedText(pieces), QuotedText(pieces), Scan.Code, Scan.Code)
  {
    hide Turned, PiecesFit, QuotedText, At;
    QuotedTurned(pieces, b, p);
  }

  lemma SpaceTurned(g: Gap, b: seq<byte>, p: nat)
    requires GapFits(g) && Stands(b, p, GapText(g, Written))
    ensures Turned(b, p, GapText(g, Written), GapText(g, Blanked), Scan.Code, Scan.Code)
  {
    hide Turned, GapFits, GapText, At;
    GapTurned(g, b, p);
  }

  lemma EmptyTurned(inner: Gap, b: seq<byte>, p: nat, left: byte, right: byte)
    requires GapFits(inner) && Stands(b, p, [left] + (GapText(inner, Written) + [right]))
    requires left != QUOTE && left != SLASH && right != QUOTE && right != SLASH
    ensures Turned(b, p, [left] + (GapText(inner, Written) + [right]), [left] + (GapText(inner, Blanked) + [right]),
                   Scan.Code, Scan.Code)
  {
    hide Turned, Stands, GapText, GapFits;
    var w, s := GapText(inner, Written), GapText(inner, Blanked);
    FrontStands(b, p, [left], w + [right]);
    MarkTurned(b, p, [left]);
    BackStands(b, p, [left], [left], w + [right]);
    FrontStands(b, p + 1, w, [right]);
    SpaceTurned(inner, b, p + 1);
    BackStands(b, p + 1, w, s, [right]);
    MarkTurned(b, p + 1 + |w|, [right]);
    CodeJoins(b, p + 1, w, s, [right], [right]);
    CodeJoins(b, p, [left], [left], w + [right], s + [right]);
  }

  lemma {:induction false} SlotTurned(before: Gap, d: Doc, after: Gap, b: seq<byte>, p: nat)
    requires GapFits(before) && DocFits(d) && GapFits(after)
    requires Stands(b, p, SlotText(before, d, after, Written))
    ensures Turned(b, p, SlotText(before, d, after, Written), SlotText(before, d, after, Blanked), Scan.Code, Scan.Code)
    decreases d, 1
  {
    hide Turned, Stands, GapText, GapFits, DocText, DocFits, At;
    var g, t, h := GapText(before, Written), DocText(d, Written), GapText(after, Written);
    FrontStands(b, p, g, t + h);
    SpaceTurned(before, b, p);
    BackStands(b, p, g, GapText(before, Blanked), t + h);
    FrontStands(b, p + |g|, t, h);
    DocTurned(d, b, p + |g|);
    BackStands(b, p + |g|, t, DocText(d, Blanked), h);
    SpaceTurned(after, b, p + |g| + |t|);
    CodeJoins(b, p + |g|, t, DocText(d, Blanked), h, GapText(after, Blanked));
    CodeJoins(b, p, g, GapText(before, Blanked), t + h, DocText(d, Blanked) + GapText(after, Blanked));
  }

  /** What follows an item or a member: the closing bracket, or a comma and the rest. */
  lemma CommaTurned(b: seq<byte>, p: nat, w: seq<byte>, s: seq<byte>)
    requires Stands(b, p, [COMMA] + w)
    requires Turned(b, p + 1, w, s, Scan.Code, Scan.Code)
    ensures Turned(b, p, [COMMA] + w, [COMMA] + s, Scan.Code, Scan.Code)
  {
    hide Turned, Stands;
    FrontStands(b, p, [COMMA], w);
    MarkTurned(b, p, [COMMA]);
    CodeJoins(b, p, [COMMA], [COMMA], w, s);
  }

  lemma AfterComma(b: seq<byte>, p: nat, w: seq<byte>)
    requires Stands(b, p, [COMMA] + w)
    ensures Stands(b, p + 1, w)
  {
    hide Turned, Stands;
    FrontStands(b, p, [COMMA], w);
    MarkTurned(b, p, [COMMA]);
    BackStands(b, p, [COMMA], [COMMA], w);
  }

  lemma {:induction false} ItemsTurned(items: Items, b: seq<byte>, p: nat)
    requires ItemsFit(items) && Stands(b, p, ItemsText(items, Written))
    ensures Turned(b, p, ItemsText(items, Written), ItemsText(items, Blanked), Scan.Code, Scan.Code)
    decreases items, 0
  {
    hide Turned, Stands, SlotText, GapFits, DocFits, At;
    var w, s := SlotText(items.before, items.doc, items.after, Written),
                SlotText(items.before, items.doc, items.after, Blanked);
    var q := p + |w|;
    match items
    case LastItem(before, d, after) =>
      FrontStands(b, p, w, [CLOSE_ARRAY]);
      SlotTurned(before, d, after, b, p);
      BackStands(b, p, w, s, [CLOSE_ARRAY]);
      MarkTurned(b, q, [CLOSE_ARRAY]);
      CodeJoins(b, p, w, s, [CLOSE_ARRAY], [CLOSE_ARRAY]);
    case Item(before, d, after, rest) =>
      var more, tail := ItemsText(rest, Written), ItemsText(rest, Blanked);
      FrontStands(b, p, w, [COMMA] + more);
      SlotTurned(before, d, after, b, p);
      BackStands(b, p, w, s, [COMMA] + more);
      AfterComma(b, q, more);
      ItemsTurned(rest, b, q + 1);
      CommaTurned(b, q, more, tail);
      CodeJoins(b, p, w, s, [COMMA] + more, [COMMA] + tail);
  }

  lemma KeyTurned(members: Members, b: seq<byte>, p: nat)
    requires KeyFits(members) && Stands(b, p, KeyText(members, Written))
    ensures Turned(b, p, KeyText(members, Written), KeyText(members, Blanked), Scan.Code, Scan.Code)
  {
    hide Turned, Stands, GapText, GapFits, PiecesFit, QuotedText, At;
    var g, k, h := GapText(members.lead, Written), QuotedText(members.key), GapText(members.mid, Written);
    var s, t := GapText(members.lead, Blanked), GapText(members.mid, Blanked);
    FrontStands(b, p, g, k + (h + [COLON]));
    SpaceTurned(members.lead, b, p);
    BackStands(b, p, g, s, k + (h + [COLON]));
    FrontStands(b, p + |g|, k, h + [COLON]);
    StrTurned(members.key, b, p + |g|);
    BackStands(b, p + |g|, k, k, h + [COLON]);
    FrontStands(b, p + |g| + |k|, h, [COLON]);
    SpaceTurned(members.mid, b, p + |g| + |k|);
    BackStands(b, p + |g| + |k|, h, t, [COLON]);
    MarkTurned(b, p + |g| + |k| + |h|, [COLON]);
    CodeJoins(b, p + |g| + |k|, h, t, [COLON], [COLON]);
    CodeJoins(b, p + |g|, k, k, h + [COLON], t + [COLON]);
    CodeJoins(b, p, g, s, k + (h + [COLON]), k + (t + [COLON]));
  }

  lemma {:induction false} MembersTurned(members: Members, b: seq<byte>, p: nat)
    requires MembersFit(members) && Stands(b, p, MembersText(members, Written))
    ensures Turned(b, p, MembersText(members, Written), MembersText(members, Blanked), Scan.Code, Scan.Code)
    decreases members, 0
  {
    hide Turned, Stands, SlotText, KeyText, KeyFits, GapFits, DocFits, At;
    var k, key := KeyText(members, Written), KeyText(members, Blanked);
    var w, s := SlotText(members.before, members.doc, members.after, Written),
                SlotText(members.before, members.doc, members.after, Blanked);
    var more := if members.LastMember? then [CLOSE_OBJECT] else [COMMA] + MembersText(members.rest, Written);
    var tail := if members.LastMember? then [CLOSE_OBJECT] else [COMMA] + MembersText(members.rest, Blanked);
    var q := p + |k| + |w|;
    FrontStands(b, p, k, w + more);
    KeyTurned(members, b, p);
    BackStands(b, p, k, key, w + more);
    FrontStands(b, p + |k|, w, more);
    SlotTurned(members.before, members.doc, members.after, b, p + |k|);
    BackStands(b, p + |k|, w, s, more);
    if members.LastMember? {
      MarkTurned(b, q, more);
    } else {
      AfterComma(b, q, MembersText(members.rest, Written));
      MembersTurned(members.rest, b, q + 1);
      CommaTurned(b, q, MembersText(members.rest, Written), MembersText(members.rest, Blanked));
    }
    CodeJoins(b, p + |k|, w, s, more, tail);
    CodeJoins(b, p, k, key, w + more, s + tail);
  }

  // ----- files -----

  /** The comment a file may end with, which nothing ends. */
  lemma LastTurned(last: seq<byte>, b: seq<byte>, p: nat)
    requires LastFits(last)
    requires Stands(b, p, last) && p + |last| == |b|
    ensures exists to :: Turned(b, p, last, BlankAll(last), Scan.Code, to)
  {
    hide At, Scan.Stripped, Scan.ModeAt, Turned;
    if last == [] {
      NothingTurned(b, p);
      assert BlankAll(last) == [];
    } else if last[1] == SLASH {
      assert last == [SLASH, SLASH] + last[2..];
      LineCommentTurned(b, p, last[2..]);
    } else {
      UnclosedTurned(b, p, last);
    }
  }

  /** A block comment that the text ends in. */
  lemma UnclosedTurned(b: seq<byte>, p: nat, last: seq<byte>)
    requires |last| >= 2 && last[0] == SLASH && last[1] == STAR && NeverCloses(last[1..])
    requires At(b, p, last) && p + |last| == |b| && Scan.ModeAt(b, p) == Scan.Code
    ensures Turned(b, p, last, BlankAll(last), Scan.Code, Scan.Block)
  {
    hide At, Scan.Stripped, Scan.ModeAt, Turned, BlankAll, NeverCloses;
    var run := last[1..];
    assert last == [SLASH, STAR] + last[2..];
    AtSplits(b, p, [SLASH, STAR], last[2..]);
    OpenTurned(b, p, STAR);
    TailStands(b, p, last);
    BlockTurned(b, p + 1, run);
    assert last == [SLASH] + run;
    BlankJoins([SLASH], run);
    SlashBlanks();
    TurnedJoins(b, p, [SLASH], [SPACE], run, BlankAll(run), Scan.Code, Scan.Block, Scan.Block);
  }

  lemma WholeTurned(b: seq<byte>, s: seq<byte>, to: Scan.Mode)
    requires Turned(b, 0, b, s, Scan.Code, to)
    ensures Scan.Stripped(b) == s
  {
    hide Scan.Stripped;
    assert Scan.Stripped(b)[0..|b|] == Scan.Stripped(b);
  }

  /** Stripping a written file blanks its comments and leaves everything else where it was. */
  lemma StrippedFile(f: File)
    requires FileFits(f)
    ensures Scan.Stripped(FileText(f, Written)) == FileText(f, Blanked)
  {
    hide Turned, Stands, SlotText, GapFits, DocFits, At, BlankAll, Scan.Stripped, Scan.ModeAt;
    var b := FileText(f, Written);
    var w, s := SlotText(f.before, f.doc, f.after, Written), SlotText(f.before, f.doc, f.after, Blanked);
    StartStands(b);
    FrontStands(b, 0, w, f.last);
    SlotTurned(f.before, f.doc, f.after, b, 0);
    BackStands(b, 0, w, s, f.last);
    LastTurned(f.last, b, |w|);
    var to :| Turned(b, |w|, f.last, BlankAll(f.last), Scan.Code, to);
    TurnedJoins(b, 0, w, s, f.last, BlankAll(f.last), Scan.Code, Scan.Code, to);
    WholeTurned(b, s + BlankAll(f.last), to);
  }

  lemma StartStands(b: seq<byte>)
    ensures Stands(b, 0, b)
  {
  }

  /** Reading a JSONC file, comments and all, gives the value it was written from. */
  lemma CommentedFileFound(f: File)
    requires FileFits(f)
    ensures ParseSpec(Scan.Stripped(FileText(f, Written))) == Ok(DocValue(f.doc))
  {
    hide FileText, FileFits, Scan.Stripped, ParseSpec, DocValue;
    StrippedFile(f);
    FileFound(f);
  }
}
