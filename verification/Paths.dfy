// Relative paths with forward slashes: their byte order, the folders above them, and sorting by name.

module Paths {
  import opened Basics
  import opened Sorting

  const DOT: byte := 0x2E

  type Path = seq<byte>

  // ----- byte order -----

  predicate Less(a: Path, b: Path) {
    b != [] && (a == [] || a[0] < b[0] || (a[0] == b[0] && Less(a[1..], b[1..])))
  }

  predicate AtMost(a: Path, b: Path) {
    a == b || Less(a, b)
  }

  lemma {:induction false} LessTransitive(a: Path, b: Path, c: Path)
    requires Less(a, b) && Less(b, c)
    ensures Less(a, c)
    decreases |a|
  {
    if a != [] && a[0] == b[0] && b[0] == c[0] {
      LessTransitive(a[1..], b[1..], c[1..]);
    }
  }

  lemma {:induction false} LessIsStrict(a: Path)
    ensures !Less(a, a)
    decreases |a|
  {
    if a != [] {
      LessIsStrict(a[1..]);
    }
  }

  lemma {:induction false} LessIsTotal(a: Path, b: Path)
    ensures Less(a, b) || a == b || Less(b, a)
    decreases |a|
  {
    if a != [] && b != [] && a[0] == b[0] {
      LessIsTotal(a[1..], b[1..]);
      assert a == [a[0]] + a[1..] && b == [b[0]] + b[1..];
    }
  }

  /** A name comes before everything it is a proper front of. */
  lemma {:induction false} FrontIsLess(a: Path, more: Path)
    requires more != []
    ensures Less(a, a + more)
    decreases |a|
  {
    if a != [] {
      FrontIsLess(a[1..], more);
      assert (a + more)[1..] == a[1..] + more;
    }
  }

  // ----- sorted names -----

  lemma AtMostIsOrder()
    ensures IsOrder(AtMost)
  {
    forall a, b ensures AtMost(a, b) || AtMost(b, a) {
      LessIsTotal(a, b);
    }
    forall a, b, c | AtMost(a, b) && AtMost(b, c) ensures AtMost(a, c) {
      AtMostTransitive(a, b, c);
    }
  }

  lemma AtMostTransitive(a: Path, b: Path, c: Path)
    requires AtMost(a, b) && AtMost(b, c)
    ensures AtMost(a, c)
  {
    if Less(a, b) && Less(b, c) {
      LessTransitive(a, b, c);
    }
  }

  /** A run of equal neighbours keeps its first. */
  function Deduped(s: seq<Path>): seq<Path> {
    if |s| < 2 then s
    else if s[0] == s[1] then Deduped(s[1..])
    else [s[0]] + Deduped(s[1..])
  }

  ghost predicate Increasing(s: seq<Path>) {
    forall i, j :: 0 <= i < j < |s| ==> Less(s[i], s[j])
  }

  lemma {:induction false} DedupedOnce(s: seq<Path>)
    requires Ordered(AtMost, s)
    ensures Increasing(Deduped(s)) && forall p :: p in Deduped(s) <==> p in s
    ensures s != [] ==> Deduped(s) != [] && Deduped(s)[0] == s[0]
    decreases |s|
  {
    hide Less;
    if |s| >= 2 {
      TailOrdered(AtMost, s);
      DedupedOnce(s[1..]);
      assert s == [s[0]] + s[1..];
      if s[0] != s[1] {
        var rest := Deduped(s[1..]);
        assert Less(s[0], s[1]);
        forall j | 0 <= j < |rest| ensures Less(s[0], rest[j]) {
          if j > 0 {
            LessTransitive(s[0], s[1], rest[j]);
          }
        }
      }
    }
  }

  // ----- the folders above a path -----

  /** A path cut at its last slash. */
  datatype Cut = Whole | Cut(above: Path, last: Path)

  function LastCut(p: Path): (c: Cut)
    ensures c.Cut? ==> p == c.above + [SLASH] + c.last && SLASH !in c.last
    ensures c.Whole? ==> SLASH !in p
  {
    if p == [] then Whole
    else
      var init, b := p[..|p| - 1], p[|p| - 1];
      assert p == init + [b];
      if b == SLASH then Cut(init, [])
      else
        match LastCut(init)
        case Whole => Whole
        case Cut(above, last) => Cut(above, last + [b])
  }

  lemma {:induction false} CutIsUnique(p: Path, above: Path, last: Path)
    requires p == above + [SLASH] + last && SLASH !in last
    ensures LastCut(p) == Cut(above, last)
    decreases |last|
  {
    var init, b := p[..|p| - 1], p[|p| - 1];
    if last == [] {
      assert init == above;
    } else {
      assert init == above + [SLASH] + last[..|last| - 1];
      CutIsUnique(init, above, last[..|last| - 1]);
      assert last == last[..|last| - 1] + [b];
    }
  }

  /** The folders a path lies in, the nearest first. */
  function Above(p: Path): seq<Path>
    decreases |p|
  {
    match LastCut(p)
    case Whole => []
    case Cut(above, _) => [above] + Above(above)
  }

  function Join(folder: Path, p: Path): Path {
    folder + [SLASH] + p
  }

  /** The slash-free parts of a path, in order. */
  function Parts(p: Path): (parts: seq<Path>)
    ensures parts != []
    decreases |p|
  {
    match LastCut(p)
    case Whole => [p]
    case Cut(above, last) => Parts(above) + [last]
  }

  predicate PlainPart(part: Path) {
    part != [] && part != [DOT] && part != [DOT, DOT]
  }

  /** No empty, `.` or `..` part, no backslash and no colon. */
  ghost predicate Portable(p: Path) {
    (forall part :: part in Parts(p) ==> PlainPart(part)) && BACKSLASH !in p && COLON !in p
  }

  lemma JoinCuts(folder: Path, p: Path)
    ensures LastCut(Join(folder, p)) == match LastCut(p)
      case Whole => Cut(folder, p)
      case Cut(above, last) => Cut(Join(folder, above), last)
  {
    match LastCut(p)
    case Whole => CutIsUnique(Join(folder, p), folder, p);
    case Cut(above, last) =>
      assert Join(folder, p) == Join(folder, above) + [SLASH] + last;
      CutIsUnique(Join(folder, p), Join(folder, above), last);
  }

  lemma JoinsAgree(folder: Path, p: Path, q: Path)
    requires Join(folder, p) == Join(folder, q)
    ensures p == q
  {
    assert Join(folder, p)[|folder| + 1..] == p;
    assert Join(folder, q)[|folder| + 1..] == q;
  }

  lemma {:induction false} JoinParts(folder: Path, p: Path)
    ensures Parts(Join(folder, p)) == Parts(folder) + Parts(p)
    decreases |p|
  {
    JoinCuts(folder, p);
    match LastCut(p)
    case Whole =>
    case Cut(above, last) =>
      JoinParts(folder, above);
  }

  lemma JoinIsPortable(folder: Path, p: Path)
    requires Portable(folder) && Portable(p)
    ensures Portable(Join(folder, p))
  {
    hide PlainPart;
    JoinParts(folder, p);
  }

  lemma AboveIsPortable(p: Path)
    requires Portable(p) && LastCut(p).Cut?
    ensures Portable(LastCut(p).above)
  {
    var above := LastCut(p).above;
    forall part | part in Parts(above) ensures PlainPart(part) {
      assert part in Parts(p);
    }
  }

  lemma PortableEnds(p: Path)
    requires Portable(p)
    ensures p != [] && p[|p| - 1] != SLASH && p[0] != SLASH
    decreases |p|
  {
    var parts := Parts(p);
    assert PlainPart(parts[|parts| - 1]);
    match LastCut(p)
    case Whole =>
    case Cut(above, last) =>
      AboveIsPortable(p);
      PortableEnds(above);
  }
}
