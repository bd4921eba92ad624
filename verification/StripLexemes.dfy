// What stripping does to any text, told by its lexemes: literals and code stay, comments are blanked. The lexemes are
// defined by the bytes alone, without the scanner's modes.

module StripLexemes {
  import opened Basics
  import opened JsonText
  import opened JsonComments
  import opened JsonCommentsSound
  import Scan = StripComments

  // ----- lexemes -----

  /** A byte of code, a string literal, or a comment; a literal or block comment may be left open by the end of the
      text. A block comment's `run` is all between its first slash and its last two bytes, its opening star included. */
  datatype Lexeme =
    | Code(b: byte)
    | Literal(body: seq<byte>)
    | OpenLiteral(body: seq<byte>)
    | Line(body: seq<byte>)
    | Block(run: seq<byte>)
    | OpenBlock(run: seq<byte>)

  /** Each backslash of the body pairs with the byte after it, and no quote is left outside such a pair. */
  ghost predicate BodyFits(body: seq<byte>) {
    body == [] ||
    if body[0] == BACKSLASH then |body| >= 2 && BodyFits(body[2..]) else body[0] != QUOTE && BodyFits(body[1..])
  }

  /** The same, where the text may end right behind a backslash. */
  ghost predicate OpenFits(body: seq<byte>) {
    body == [] ||
    if body[0] == BACKSLASH then |body| == 1 || OpenFits(body[2..]) else body[0] != QUOTE && OpenFits(body[1..])
  }

  ghost function Text(l: Lexeme): (s: seq<byte>)
    ensures s != []
  {
    match l
    case Code(b) => [b]
    case Literal(body) => [QUOTE] + (body + [QUOTE])
    case OpenLiteral(body) => [QUOTE] + body
    case Line(body) => [SLASH, SLASH] + body
    case Block(run) => [SLASH] + (run + [STAR, SLASH])
    case OpenBlock(run) => [SLASH] + run
  }

  /** What is left of it: comments are blanked. */
  ghost function Shown(l: Lexeme): (s: seq<byte>)
    ensures |s| == |Text(l)|
  {
    if l.Line? || l.Block? || l.OpenBlock? then BlankAll(Text(l)) else Text(l)
  }

  /** `l` may stand before `rest`. */
  ghost predicate Fits(l: Lexeme, rest: seq<byte>) {
    match l
    case Code(b) => b != QUOTE && !(b == SLASH && rest != [] && rest[0] in {SLASH, STAR})
    case Literal(body) => BodyFits(body)
    case OpenLiteral(body) => OpenFits(body) && rest == []
    case Line(body) => NEWLINE !in body && (rest == [] || rest[0] == NEWLINE)
    case Block(run) => NeverCloses(run) && (run != [] ==> run[0] == STAR)
    case OpenBlock(run) => NeverCloses(run) && run != [] && run[0] == STAR && rest == []
  }

  ghost function TextOf(lexemes: seq<Lexeme>): seq<byte> {
    if lexemes == [] then [] else Text(lexemes[0]) + TextOf(lexemes[1..])
  }

  ghost function ShownOf(lexemes: seq<Lexeme>): (s: seq<byte>)
    ensures |s| == |TextOf(lexemes)|
  {
    if lexemes == [] then [] else Shown(lexemes[0]) + ShownOf(lexemes[1..])
  }

  ghost predicate AllFit(lexemes: seq<Lexeme>) {
    lexemes == [] || (Fits(lexemes[0], TextOf(lexemes[1..])) && AllFit(lexemes[1..]))
  }

  /** The same, with every byte written out: quotes, slashes, stars, backslashes, newlines and spaces. */
  lemma LexemeBytes(body: seq<byte>, rest: seq<byte>, c: byte)
    ensures Text(Literal(body)) == [0x22] + (body + [0x22]) && Text(OpenLiteral(body)) == [0x22] + body
    ensures Text(Line(body)) == [0x2F, 0x2F] + body
    ensures Text(Block(body)) == [0x2F] + (body + [0x2A, 0x2F]) && Text(OpenBlock(body)) == [0x2F] + body
    ensures Fits(Code(c), rest) <==> c != 0x22 && !(c == 0x2F && rest != [] && (rest[0] == 0x2F || rest[0] == 0x2A))
    ensures Fits(Line(body), rest) <==> 0x0A !in body && (rest == [] || rest[0] == 0x0A)
    ensures NeverCloses(body) <==> forall i :: 0 <= i < |body| - 1 ==> !(body[i] == 0x2A && body[i + 1] == 0x2F)
    ensures Fits(Block(body), rest) <==> NeverCloses(body) && (body != [] ==> body[0] == 0x2A)
    ensures body != [] ==>
      (BodyFits(body) <==>
        if body[0] == 0x5C then |body| >= 2 && BodyFits(body[2..]) else body[0] != 0x22 && BodyFits(body[1..]))
    ensures forall i :: 0 <= i < |body| ==> BlankAll(body)[i] == if body[i] == 0x0A then 0x0A else 0x20
  {
  }

  // ----- every text is one of lexemes -----

  /** The first unescaped quote from `p` on, or the end. */
  ghost function BodyEnd(b: seq<byte>, p: nat): (q: nat)
    requires p <= |b|
    ensures p <= q <= |b| && (q < |b| ==> b[q] == QUOTE)
    decreases |b| - p
  {
    if p == |b| || b[p] == QUOTE then p
    else if b[p] == BACKSLASH then (if p + 1 == |b| then |b| else BodyEnd(b, p + 2))
    else BodyEnd(b, p + 1)
  }

  lemma {:induction false} BodyEnds(b: seq<byte>, p: nat)
    requires p <= |b|
    ensures if BodyEnd(b, p) < |b| then BodyFits(b[p..BodyEnd(b, p)]) else OpenFits(b[p..])
    decreases |b| - p
  {
    var q := BodyEnd(b, p);
    if p < |b| && b[p] != QUOTE && !(b[p] == BACKSLASH && p + 1 == |b|) {
      var next := if b[p] == BACKSLASH then p + 2 else p + 1;
      BodyEnds(b, next);
      assert q < |b| ==> b[p..q][next - p..] == b[next..q];
      assert b[p..][next - p..] == b[next..];
    }
  }

  lemma ClosedAt(b: seq<byte>, p: nat, q: nat)
    requires p < q < |b| && b[p] == QUOTE && b[q] == QUOTE
    ensures At(b, p, Text(Literal(b[p + 1..q])))
  {
    var body := b[p + 1..q];
    assert b[p..q + 1] == [QUOTE] + (body + [QUOTE]);
  }

  lemma UnclosedAt(b: seq<byte>, p: nat)
    requires p < |b| && b[p] == QUOTE
    ensures At(b, p, Text(OpenLiteral(b[p + 1..]))) && p + |Text(OpenLiteral(b[p + 1..]))| == |b|
  {
    assert b[p..] == [QUOTE] + b[p + 1..];
  }

  lemma LiteralAt(b: seq<byte>, p: nat) returns (l: Lexeme)
    requires p < |b| && b[p] == QUOTE
    ensures At(b, p, Text(l)) && Fits(l, b[p + |Text(l)|..])
  {
    hide BodyFits, OpenFits, At, Text;
    var q := BodyEnd(b, p + 1);
    BodyEnds(b, p + 1);
    if q < |b| {
      l := Literal(b[p + 1..q]);
      ClosedAt(b, p, q);
      StandsInside(b, p, Text(l));
    } else {
      l := OpenLiteral(b[p + 1..]);
      UnclosedAt(b, p);
    }
  }

  lemma StandsInside(b: seq<byte>, p: nat, w: seq<byte>)
    requires At(b, p, w)
    ensures p + |w| <= |b|
  {
  }

  lemma LineAt(b: seq<byte>, p: nat) returns (l: Lexeme)
    requires Scan.Opens(b, p) && b[p + 1] == SLASH
    ensures At(b, p, Text(l)) && Fits(l, b[p + |Text(l)|..])
  {
    var e := LineEnd(b, p + 2);
    l := Line(b[p + 2..e]);
    assert b[p..e] == [SLASH, SLASH] + b[p + 2..e];
  }

  lemma BlockStands(b: seq<byte>, p: nat, e: nat)
    requires p + 1 <= e && e + 2 <= |b| && b[p] == SLASH && b[e] == STAR && b[e + 1] == SLASH
    ensures At(b, p, Text(Block(b[p + 1..e])))
  {
    var run := b[p + 1..e];
    assert b[p..e + 2] == [SLASH] + (run + [STAR, SLASH]);
  }

  lemma OpenBlockStands(b: seq<byte>, p: nat)
    requires p < |b| && b[p] == SLASH
    ensures At(b, p, Text(OpenBlock(b[p + 1..]))) && p + |Text(OpenBlock(b[p + 1..]))| == |b|
  {
    assert b[p..] == [SLASH] + b[p + 1..];
  }

  lemma BlockAt(b: seq<byte>, p: nat) returns (l: Lexeme)
    requires Scan.Opens(b, p) && b[p + 1] == STAR
    ensures At(b, p, Text(l)) && Fits(l, b[p + |Text(l)|..])
  {
    hide NeverCloses, At, Text;
    var e := BlockEnd(b, p + 1);
    BeforeBlockEnd(b, p + 1);
    if e < |b| {
      l := Block(b[p + 1..e]);
      BlockStands(b, p, e);
      StandsInside(b, p, Text(l));
    } else {
      l := OpenBlock(b[p + 1..]);
      assert b[p + 1..e] == b[p + 1..];
      OpenBlockStands(b, p);
    }
  }

  /** Some lexeme stands at every place of a text. */
  lemma LexemeAt(b: seq<byte>, p: nat) returns (l: Lexeme)
    requires p < |b|
    ensures At(b, p, Text(l)) && Fits(l, b[p + |Text(l)|..])
  {
    hide At, Text, Fits;
    if b[p] == QUOTE {
      l := LiteralAt(b, p);
    } else if Scan.Opens(b, p) && b[p + 1] == SLASH {
      l := LineAt(b, p);
    } else if Scan.Opens(b, p) {
      l := BlockAt(b, p);
    } else {
      l := Code(b[p]);
      CodeAt(b, p);
    }
  }

  lemma CodeAt(b: seq<byte>, p: nat)
    requires p < |b| && b[p] != QUOTE && !Scan.Opens(b, p)
    ensures At(b, p, Text(Code(b[p]))) && Fits(Code(b[p]), b[p + |Text(Code(b[p]))|..])
  {
  }

  lemma {:induction false} LexemesFrom(b: seq<byte>, p: nat) returns (lexemes: seq<Lexeme>)
    requires p <= |b|
    ensures AllFit(lexemes) && TextOf(lexemes) == b[p..]
    decreases |b| - p
  {
    hide Text, Fits;
    if p == |b| {
      lexemes := [];
    } else {
      var l := LexemeAt(b, p);
      var rest := LexemesFrom(b, p + |Text(l)|);
      lexemes := [l] + rest;
      assert lexemes[1..] == rest;
      assert b[p..] == b[p..p + |Text(l)|] + b[p + |Text(l)|..];
    }
  }

  // ----- what the scanner makes of them -----

  /** The scanner puts out `s` for the bytes `w` at `p` and is in code after them, or at the end. */
  ghost predicate Passed(b: seq<byte>, p: nat, w: seq<byte>, s: seq<byte>) {
    && |w| == |s| && p + |w| <= |b| && At(Scan.Stripped(b), p, s)
    && (p + |w| < |b| ==> Scan.ModeAt(b, p + |w|) == Scan.Code)
  }

  lemma TurnedPasses(b: seq<byte>, p: nat, w: seq<byte>, s: seq<byte>, from: Scan.Mode, to: Scan.Mode)
    requires Turned(b, p, w, s, from, to) && (p + |w| < |b| ==> to == Scan.Code)
    ensures Passed(b, p, w, s)
  {
    hide Scan.Stripped, Scan.ModeAt;
  }

  lemma StringByteTurned(b: seq<byte>, p: nat, c: byte)
    requires p < |b| && b[p] == c && Scan.ModeAt(b, p) == Scan.Str && c != QUOTE
    ensures Turned(b, p, [c], [c], Scan.Str, if c == BACKSLASH then Scan.Escaped else Scan.Str)
  {
    hide At, Scan.Stripped, Scan.ModeAt, Turned;
    OneTurned(b, p);
  }

  lemma EscapeBody(b: seq<byte>, p: nat, body: seq<byte>)
    requires |body| >= 2 && body[0] == BACKSLASH && p <= |b| && At(b, p, body) && Scan.ModeAt(b, p) == Scan.Str
    ensures Turned(b, p, [body[0], body[1]], [body[0], body[1]], Scan.Str, Scan.Str)
    ensures At(b, p + 2, body[2..]) && p + 2 <= |b| && body == [body[0], body[1]] + body[2..]
    ensures Scan.ModeAt(b, p + 2) == Scan.Str
  {
    hide At, Scan.Stripped, Scan.ModeAt, Turned;
    var front := [body[0], body[1]];
    assert body == front + body[2..];
    AtSplits(b, p, front, body[2..]);
    EscapeTurned(b, p, body[1]);
    TurnedMode(b, p, front, front, Scan.Str, Scan.Str);
  }

  lemma PlainBody(b: seq<byte>, p: nat, body: seq<byte>)
    requires body != [] && body[0] !in {BACKSLASH, QUOTE} && p <= |b| && At(b, p, body)
    requires Scan.ModeAt(b, p) == Scan.Str
    ensures Turned(b, p, [body[0]], [body[0]], Scan.Str, Scan.Str)
    ensures At(b, p + 1, body[1..]) && p + 1 <= |b| && body == [body[0]] + body[1..]
    ensures Scan.ModeAt(b, p + 1) == Scan.Str
  {
    hide At, Scan.Stripped, Scan.ModeAt, Turned;
    TailStands(b, p, body);
    StringByteTurned(b, p, body[0]);
    TurnedMode(b, p, [body[0]], [body[0]], Scan.Str, Scan.Str);
  }

  lemma {:induction false} BodyTurned(b: seq<byte>, p: nat, body: seq<byte>)
    requires BodyFits(body) && p <= |b| && At(b, p, body) && Scan.ModeAt(b, p) == Scan.Str
    ensures Turned(b, p, body, body, Scan.Str, Scan.Str)
    decreases |body|
  {
    hide At, Scan.Stripped, Scan.ModeAt, Turned;
    if body == [] {
      NothingTurned(b, p);
    } else if body[0] == BACKSLASH {
      EscapeBody(b, p, body);
      BodyTurned(b, p + 2, body[2..]);
      var front := [body[0], body[1]];
      TurnedJoins(b, p, front, front, body[2..], body[2..], Scan.Str, Scan.Str, Scan.Str);
    } else {
      PlainBody(b, p, body);
      BodyTurned(b, p + 1, body[1..]);
      TurnedJoins(b, p, [body[0]], [body[0]], body[1..], body[1..], Scan.Str, Scan.Str, Scan.Str);
    }
  }

  lemma {:induction false} OpenBodyTurned(b: seq<byte>, p: nat, body: seq<byte>) returns (to: Scan.Mode)
    requires OpenFits(body) && p <= |b| && At(b, p, body) && Scan.ModeAt(b, p) == Scan.Str
    ensures Turned(b, p, body, body, Scan.Str, to)
    decreases |body|
  {
    hide At, Scan.Stripped, Scan.ModeAt, Turned;
    if body == [] {
      to := Scan.Str;
      NothingTurned(b, p);
    } else if body == [BACKSLASH] {
      to := Scan.Escaped;
      TailStands(b, p, body);
      StringByteTurned(b, p, BACKSLASH);
    } else if body[0] == BACKSLASH {
      EscapeBody(b, p, body);
      to := OpenBodyTurned(b, p + 2, body[2..]);
      var front := [body[0], body[1]];
      TurnedJoins(b, p, front, front, body[2..], body[2..], Scan.Str, Scan.Str, to);
    } else {
      PlainBody(b, p, body);
      to := OpenBodyTurned(b, p + 1, body[1..]);
      TurnedJoins(b, p, [body[0]], [body[0]], body[1..], body[1..], Scan.Str, Scan.Str, to);
    }
  }

  lemma QuoteTurned(b: seq<byte>, p: nat, from: Scan.Mode)
    requires At(b, p, [QUOTE]) && p <= |b| && Scan.ModeAt(b, p) == from && from in {Scan.Code, Scan.Str}
    ensures var to := if from == Scan.Code then Scan.Str else Scan.Code;
      Turned(b, p, [QUOTE], [QUOTE], from, to) && p + 1 <= |b| && Scan.ModeAt(b, p + 1) == to
  {
    hide At, Scan.Stripped, Scan.ModeAt, Turned;
    TailStands(b, p, [QUOTE]);
    OneTurned(b, p);
    TurnedMode(b, p, [QUOTE], [QUOTE], from, if from == Scan.Code then Scan.Str else Scan.Code);
  }

  lemma LiteralPasses(b: seq<byte>, p: nat, body: seq<byte>)
    requires BodyFits(body) && Stands(b, p, [QUOTE] + (body + [QUOTE]))
    ensures Passed(b, p, [QUOTE] + (body + [QUOTE]), [QUOTE] + (body + [QUOTE]))
  {
    hide At, Scan.Stripped, Scan.ModeAt, Turned, BodyFits, Passed;
    var rest := body + [QUOTE];
    AtSplits(b, p, [QUOTE], rest);
    AtSplits(b, p + 1, body, [QUOTE]);
    QuoteTurned(b, p, Scan.Code);
    BodyTurned(b, p + 1, body);
    TurnedMode(b, p + 1, body, body, Scan.Str, Scan.Str);
    QuoteTurned(b, p + 1 + |body|, Scan.Str);
    TurnedJoins(b, p + 1, body, body, [QUOTE], [QUOTE], Scan.Str, Scan.Str, Scan.Code);
    TurnedJoins(b, p, [QUOTE], [QUOTE], rest, rest, Scan.Code, Scan.Str, Scan.Code);
    TurnedPasses(b, p, [QUOTE] + rest, [QUOTE] + rest, Scan.Code, Scan.Code);
  }

  lemma OpenLiteralPasses(b: seq<byte>, p: nat, body: seq<byte>)
    requires OpenFits(body) && Stands(b, p, [QUOTE] + body) && p + 1 + |body| == |b|
    ensures Passed(b, p, [QUOTE] + body, [QUOTE] + body)
  {
    hide At, Scan.Stripped, Scan.ModeAt, Turned, OpenFits, Passed;
    AtSplits(b, p, [QUOTE], body);
    QuoteTurned(b, p, Scan.Code);
    var to := OpenBodyTurned(b, p + 1, body);
    TurnedJoins(b, p, [QUOTE], [QUOTE], body, body, Scan.Code, Scan.Str, to);
    TurnedPasses(b, p, [QUOTE] + body, [QUOTE] + body, Scan.Code, to);
  }

  lemma CodePasses(b: seq<byte>, p: nat)
    requires p < |b| && Scan.ModeAt(b, p) == Scan.Code && b[p] != QUOTE && !Scan.Opens(b, p)
    ensures Passed(b, p, [b[p]], [b[p]])
  {
    hide At, Scan.Stripped, Scan.ModeAt, Turned, Scan.Opens, Passed;
    OneTurned(b, p);
    TurnedPasses(b, p, [b[p]], [b[p]], Scan.Code, Scan.Code);
  }

  lemma NoOpen(b: seq<byte>, p: nat, c: byte, rest: seq<byte>)
    requires Fits(Code(c), rest) && p < |b| && b[p] == c && rest == b[p + 1..]
    ensures c != QUOTE && !Scan.Opens(b, p)
  {
  }

  /** A lexeme in code is passed over as it is shown. */
  lemma LexemePasses(b: seq<byte>, p: nat, l: Lexeme)
    requires Stands(b, p, Text(l)) && p + |Text(l)| <= |b| && Fits(l, b[p + |Text(l)|..])
    ensures Passed(b, p, Text(l), Shown(l))
  {
    hide At, Scan.Stripped, Scan.ModeAt, Turned, BodyFits, OpenFits, Passed, Scan.Opens, BlankAll, NeverCloses;
    var text := Text(l);
    match l
    case Code(c) =>
      TailStands(b, p, text);
      NoOpen(b, p, c, b[p + 1..]);
      CodePasses(b, p);
    case Literal(body) => LiteralPasses(b, p, body);
    case OpenLiteral(body) => OpenLiteralPasses(b, p, body);
    case Line(body) =>
      LineCommentTurned(b, p, body);
      TurnedPasses(b, p, text, BlankAll(text), Scan.Code, if p + |text| == |b| then Scan.Line else Scan.Code);
    case Block(run) =>
      BlockCommentTurned(b, p, run);
      TurnedPasses(b, p, text, BlankAll(text), Scan.Code, Scan.Code);
    case OpenBlock(run) =>
      assert text[1..] == run;
      UnclosedTurned(b, p, text);
      TurnedPasses(b, p, text, BlankAll(text), Scan.Code, Scan.Block);
  }

  lemma {:induction false} LexemesPass(b: seq<byte>, p: nat, lexemes: seq<Lexeme>)
    requires AllFit(lexemes) && p + |TextOf(lexemes)| == |b| && At(b, p, TextOf(lexemes))
    requires p < |b| ==> Scan.ModeAt(b, p) == Scan.Code
    ensures At(Scan.Stripped(b), p, ShownOf(lexemes))
    decreases |lexemes|
  {
    hide At, Scan.Stripped, Scan.ModeAt, Text, Shown, Fits;
    if lexemes == [] {
      NothingStands(Scan.Stripped(b), p);
    } else {
      var l, rest := lexemes[0], TextOf(lexemes[1..]);
      AtSplits(b, p, Text(l), rest);
      AtIsRest(b, p + |Text(l)|, rest);
      LexemePasses(b, p, l);
      LexemesPass(b, p + |Text(l)|, lexemes[1..]);
      AtSplits(Scan.Stripped(b), p, Shown(l), ShownOf(lexemes[1..]));
    }
  }

  lemma AtIsRest(b: seq<byte>, p: nat, rest: seq<byte>)
    requires At(b, p, rest) && p + |rest| == |b|
    ensures b[p..] == rest
  {
  }

  /** A text of these lexemes strips to what they show. */
  lemma LexemesStrip(lexemes: seq<Lexeme>)
    requires AllFit(lexemes)
    ensures Scan.Stripped(TextOf(lexemes)) == ShownOf(lexemes)
  {
    hide Scan.Stripped, AllFit, TextOf, ShownOf;
    var b := TextOf(lexemes);
    StartStands(b);
    LexemesPass(b, 0, lexemes);
    assert Scan.Stripped(b)[0..|b|] == Scan.Stripped(b);
  }

  /** Stripping, exactly: the text is cut into lexemes, its comments are blanked, and all else stays. */
  lemma StrippedExact(s: seq<byte>, t: seq<byte>)
    ensures Scan.Stripped(s) == t <==>
      exists lexemes :: AllFit(lexemes) && TextOf(lexemes) == s && ShownOf(lexemes) == t
  {
    hide Scan.Stripped, AllFit, TextOf, ShownOf;
    var lexemes := LexemesFrom(s, 0);
    assert s[0..] == s;
    LexemesStrip(lexemes);
    forall others | AllFit(others) && TextOf(others) == s && ShownOf(others) == t ensures Scan.Stripped(s) == t {
      LexemesStrip(others);
    }
  }

  // ----- literals -----

  lemma OneMore(l: Lexeme, rest: seq<Lexeme>)
    ensures TextOf([l] + rest) == Text(l) + TextOf(rest)
    ensures ShownOf([l] + rest) == Shown(l) + ShownOf(rest)
  {
    hide Text, Shown;
    assert ([l] + rest)[1..] == rest;
  }

  lemma HeadMoves(before: seq<Lexeme>, after: seq<Lexeme>)
    requires before != []
    ensures before == [before[0]] + before[1..]
    ensures before + after == [before[0]] + (before[1..] + after)
  {
  }

  lemma Joins(a: seq<byte>, b: seq<byte>, c: seq<byte>)
    ensures (a + b) + c == a + (b + c)
  {
  }

  lemma {:induction false} TextsJoin(before: seq<Lexeme>, after: seq<Lexeme>)
    ensures TextOf(before + after) == TextOf(before) + TextOf(after)
    ensures ShownOf(before + after) == ShownOf(before) + ShownOf(after)
    decreases |before|
  {
    if before == [] {
      hide Text, Shown;
      assert before + after == after;
    } else {
      hide Text, Shown, TextOf, ShownOf;
      var l, rest := before[0], before[1..];
      TextsJoin(rest, after);
      OneMore(l, rest);
      OneMore(l, rest + after);
      HeadMoves(before, after);
      Joins(Text(l), TextOf(rest), TextOf(after));
      Joins(Shown(l), ShownOf(rest), ShownOf(after));
    }
  }

  /** A string literal, from its quote to the first unescaped one or the end of the text, keeps every byte. */
  lemma LiteralsStay(before: seq<Lexeme>, l: Lexeme, after: seq<Lexeme>)
    requires AllFit(before + ([l] + after)) && (l.Literal? || l.OpenLiteral?)
    ensures At(Scan.Stripped(TextOf(before + ([l] + after))), |TextOf(before)|, Text(l))
  {
    hide Scan.Stripped, AllFit, Text, At;
    var lexemes := before + ([l] + after);
    LexemesStrip(lexemes);
    TextsJoin(before, [l] + after);
    OneMore(l, after);
    var shown := Text(l) + ShownOf(after);
    WholeStands(ShownOf(before), shown);
    AtSplits(ShownOf(lexemes), |ShownOf(before)|, Text(l), ShownOf(after));
  }

  lemma WholeStands(a: seq<byte>, b: seq<byte>)
    ensures At(a + b, |a|, b)
  {
  }
}
