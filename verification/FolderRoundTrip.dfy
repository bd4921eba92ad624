// A folder packed and extracted again is the same folder, and no archive extracts to anything outside its own.

module FolderRoundTrip {
  import opened Basics
  import opened Utf8
  import opened Paths
  import opened Folder
  import Zip
  import ZipRoundTrip

  /** The files as the file system gives them: each with a portable, well-formed path, none lying inside another. */
  ghost predicate IsContent(content: Content) {
    && (forall f :: f in content ==> Portable(f) && ValidUtf8(f))
    && forall f, g :: f in content && g in content ==> f !in Above(g)
  }

  // ----- names -----

  lemma SlashedPortable(f: Path)
    requires Portable(f)
    ensures Slashed(f) == f
  {
  }

  lemma {:induction false} AboveArePortable(p: Path, a: Path)
    requires Portable(p) && a in Above(p)
    ensures Portable(a) && |a| < |p|
    decreases |p|
  {
    hide Portable;
    var above := LastCut(p).above;
    AboveIsPortable(p);
    if a != above {
      AboveArePortable(above, a);
    }
  }

  lemma {:induction false} AboveAreValid(p: Path, a: Path)
    requires ValidUtf8(p) && a in Above(p)
    ensures ValidUtf8(a)
    decreases |p|
  {
    hide ValidUtf8;
    var cut := LastCut(p);
    assert p == cut.above + ([SLASH] + cut.last);
    ValidCut(cut.above, [SLASH] + cut.last);
    if a != cut.above {
      AboveAreValid(cut.above, a);
    }
  }

  lemma JoinIsValid(folder: Path, p: Path)
    requires ValidUtf8(folder) && ValidUtf8(p)
    ensures ValidUtf8(Join(folder, p)) && ValidUtf8(folder + [SLASH])
  {
    hide ValidUtf8;
    ValidAscii(SLASH);
    ValidConcat(folder, [SLASH]);
    ValidConcat(folder + [SLASH], p);
  }

  lemma {:induction false} AboveJoined(folder: Path, p: Path, a: Path)
    ensures a in Above(Join(folder, p)) <==>
      a == folder || a in Above(folder) || exists b :: b in Above(p) && a == Join(folder, b)
    decreases |p|
  {
    JoinCuts(folder, p);
    match LastCut(p)
    case Whole =>
      assert Above(p) == [];
    case Cut(above, _) =>
      AboveJoined(folder, above, a);
      assert Above(p) == [above] + Above(above);
      assert Above(Join(folder, p)) == [Join(folder, above)] + Above(Join(folder, above));
      assert above in Above(p);
      assert forall b :: b in Above(above) ==> b in Above(p);
  }

  // ----- the extracted folder -----

  /** Every folder the extraction must leave: the prefix, those above it, and those above each file. */
  ghost predicate IsImageFolder(p: Path, content: Content, prefix: Path) {
    || p == prefix || p in Above(prefix)
    || exists f :: f in content && p in Above(Join(prefix, f))
  }

  ghost predicate IsImageFile(p: Path, content: Content, prefix: Path) {
    |p| > |prefix| && p == Join(prefix, p[|prefix| + 1..]) && p[|prefix| + 1..] in content
  }

  /** `image` is the folder with exactly these files, under the prefix, and exactly the folders they need. */
  ghost predicate IsImage(image: Nodes, content: Content, prefix: Path) {
    && (forall p :: p in image <==> IsImageFolder(p, content, prefix) || IsImageFile(p, content, prefix))
    && (forall p :: p in image && IsImageFolder(p, content, prefix) ==> image[p] == FolderNode)
    && (forall f :: f in content ==> Join(prefix, f) in image && image[Join(prefix, f)] == FileNode(content[f]))
  }

  ghost predicate Within(nodes: Nodes, image: Nodes) {
    forall p :: p in nodes ==> p in image && nodes[p] == image[p]
  }

  lemma {:induction false} FoldersMade(nodes: Nodes, p: Path, image: Nodes)
    requires Within(nodes, image) && Closed(nodes) && Closed(image)
    requires p in image && image[p] == FolderNode
    ensures MakeFolders(nodes, p).Ok?
    ensures var made := MakeFolders(nodes, p).value;
      Within(made, image) && Closed(made) && p in made && nodes.Keys <= made.Keys
    decreases |p|
  {
    if p !in nodes && LastCut(p).Cut? {
      FoldersMade(nodes, LastCut(p).above, image);
    }
  }

  /** One entry whose target is in the image extracts, and nothing outside the image appears. */
  ghost predicate Belongs(bytes: seq<byte>, entry: Zip.Listed, image: Nodes) {
    && StaysInside(entry.name)
    && var target := TrimSlashes(entry.name);
    && target in image
    && if Zip.EndsWithSlash(entry.name) then image[target] == FolderNode
       else Zip.DataSpec(bytes, entry).Ok? && image[target] == FileNode(Zip.DataSpec(bytes, entry).value)
  }

  lemma OneExtracted(bytes: seq<byte>, entry: Zip.Listed, nodes: Nodes, image: Nodes)
    requires Within(nodes, image) && Closed(nodes) && Closed(image) && Belongs(bytes, entry, image)
    ensures var (r, after) := ExtractOne(bytes, entry, nodes);
      && r == Ok(()) && Within(after, image) && Closed(after)
      && nodes.Keys <= after.Keys && TrimSlashes(entry.name) in after
  {
    hide Zip.DataSpec, MakeFolders, StaysInside, LastCut;
    var target := TrimSlashes(entry.name);
    if Zip.EndsWithSlash(entry.name) {
      FoldersMade(nodes, target, image);
    } else {
      if LastCut(target).Cut? {
        FoldersMade(nodes, LastCut(target).above, image);
      }
      var made := MakeParent(nodes, target).value;
      assert Within(made, image) && Closed(made) && nodes.Keys <= made.Keys;
      FileAdded(made, target, image);
    }
  }

  lemma FileAdded(made: Nodes, target: Path, image: Nodes)
    requires Within(made, image) && Closed(made) && Closed(image)
    requires target in image && image[target].FileNode?
    requires LastCut(target).Cut? ==> LastCut(target).above in made
    ensures Within(made[target := image[target]], image) && Closed(made[target := image[target]])
  {
    hide LastCut;
  }

  lemma {:induction false} AllExtracted(bytes: seq<byte>, entries: seq<Zip.Listed>, nodes: Nodes, image: Nodes)
    requires Within(nodes, image) && Closed(nodes) && Closed(image)
    requires forall i :: 0 <= i < |entries| ==> Belongs(bytes, entries[i], image)
    ensures var (r, after) := ExtractFrom(bytes, entries, nodes);
      && r == Ok(()) && Within(after, image) && Closed(after) && nodes.Keys <= after.Keys
      && forall i :: 0 <= i < |entries| ==> TrimSlashes(entries[i].name) in after
    decreases |entries|
  {
    hide Within, Closed, Belongs, ExtractOne, TrimSlashes;
    if entries != [] {
      OneExtracted(bytes, entries[0], nodes, image);
      var after := ExtractOne(bytes, entries[0], nodes).1;
      AllExtracted(bytes, entries[1..], after, image);
      forall i | 0 <= i < |entries| ensures TrimSlashes(entries[i].name) in ExtractFrom(bytes, entries, nodes).1 {
        if i > 0 {
          assert entries[i] == entries[1..][i - 1];
        }
      }
    }
  }

  // ----- nothing is extracted outside -----

  /** Nothing that was there goes away or stops being a folder, and whatever is new has a path of plain parts. */
  ghost predicate StaysWithin(nodes: Nodes, after: Nodes) {
    && (forall p :: p in nodes ==> p in after && (nodes[p].FolderNode? <==> after[p].FolderNode?))
    && (forall p :: p in after ==> p in nodes || Portable(p))
  }

  lemma StaysWithinTwice(a: Nodes, b: Nodes, c: Nodes)
    requires StaysWithin(a, b) && StaysWithin(b, c)
    ensures StaysWithin(a, c)
  {
    hide Portable;
  }

  lemma {:induction false} FoldersStayWithin(nodes: Nodes, p: Path)
    requires Portable(p) && MakeFolders(nodes, p).Ok?
    ensures StaysWithin(nodes, MakeFolders(nodes, p).value)
    decreases |p|
  {
    hide Portable;
    if p !in nodes && LastCut(p).Cut? {
      AboveIsPortable(p);
      FoldersStayWithin(nodes, LastCut(p).above);
    }
  }

  lemma TargetIsPortable(name: Path)
    requires StaysInside(name)
    ensures Portable(TrimSlashes(name))
  {
    hide PlainPart, Parts;
    var p := StripSlash(name);
    assert Portable(p) by {
      assert forall b :: b in p ==> b in name;
    }
    PortableEnds(p);
  }

  lemma OneStaysWithin(bytes: seq<byte>, entry: Zip.Listed, nodes: Nodes)
    ensures StaysWithin(nodes, ExtractOne(bytes, entry, nodes).1)
  {
    hide Portable, MakeFolders, StaysInside, Zip.DataSpec, TrimSlashes;
    if StaysInside(entry.name) {
      var target := TrimSlashes(entry.name);
      TargetIsPortable(entry.name);
      if LastCut(target).Cut? {
        AboveIsPortable(target);
        if MakeFolders(nodes, LastCut(target).above).Ok? {
          FoldersStayWithin(nodes, LastCut(target).above);
        }
      }
      if MakeFolders(nodes, target).Ok? {
        FoldersStayWithin(nodes, target);
      }
    }
  }

  lemma {:induction false} AllStayWithin(bytes: seq<byte>, entries: seq<Zip.Listed>, nodes: Nodes)
    ensures StaysWithin(nodes, ExtractFrom(bytes, entries, nodes).1)
    decreases |entries|
  {
    hide StaysWithin, ExtractOne;
    if entries == [] {
      StaysPut(nodes);
    } else {
      var (r, after) := ExtractOne(bytes, entries[0], nodes);
      OneStaysWithin(bytes, entries[0], nodes);
      AllStayWithin(bytes, entries[1..], after);
      StaysWithinTwice(nodes, after, ExtractFrom(bytes, entries[1..], after).1);
    }
  }

  lemma StaysPut(nodes: Nodes)
    ensures StaysWithin(nodes, nodes)
  {
  }

  // ----- what extraction leaves alone -----

  ghost predicate IsTarget(entries: seq<Zip.Listed>, p: Path) {
    exists i :: 0 <= i < |entries| && p == TrimSlashes(entries[i].name)
  }

  /** An entry goes to `p`, or into a folder below it. */
  ghost predicate IsReached(entries: seq<Zip.Listed>, p: Path) {
    exists i :: 0 <= i < |entries| && (p == TrimSlashes(entries[i].name) || p in Above(TrimSlashes(entries[i].name)))
  }

  lemma {:induction false} FoldersLeave(nodes: Nodes, p: Path, q: Path)
    requires MakeFolders(nodes, p).Ok?
    ensures q in nodes ==> q in MakeFolders(nodes, p).value && MakeFolders(nodes, p).value[q] == nodes[q]
    ensures q !in nodes && q in MakeFolders(nodes, p).value ==> q == p || q in Above(p)
    decreases |p|
  {
    if p !in nodes && LastCut(p).Cut? {
      FoldersLeave(nodes, LastCut(p).above, q);
      AboveTurn(p);
    }
  }

  lemma OneLeaves(bytes: seq<byte>, entry: Zip.Listed, nodes: Nodes, q: Path)
    ensures var target, after := TrimSlashes(entry.name), ExtractOne(bytes, entry, nodes).1;
      && (q in nodes && q != target ==> q in after && after[q] == nodes[q])
      && (q in nodes ==> q in after)
      && (q !in nodes && q in after ==> q == target || q in Above(target))
  {
    hide MakeFolders, StaysInside, Zip.DataSpec, TrimSlashes, Above;
    var target := TrimSlashes(entry.name);
    AboveTurn(target);
    if LastCut(target).Cut? && MakeFolders(nodes, LastCut(target).above).Ok? {
      FoldersLeave(nodes, LastCut(target).above, q);
    }
    if MakeFolders(nodes, target).Ok? {
      FoldersLeave(nodes, target, q);
    }
  }

  lemma {:induction false} AllLeave(bytes: seq<byte>, entries: seq<Zip.Listed>, nodes: Nodes, q: Path)
    ensures var after := ExtractFrom(bytes, entries, nodes).1;
      && (q in nodes && !IsTarget(entries, q) ==> q in after && after[q] == nodes[q])
      && (q in nodes ==> q in after)
      && (q !in nodes && q in after ==> IsReached(entries, q))
    decreases |entries|
  {
    hide ExtractOne, TrimSlashes, Above;
    if entries != [] {
      var after := ExtractOne(bytes, entries[0], nodes).1;
      OneLeaves(bytes, entries[0], nodes, q);
      AllLeave(bytes, entries[1..], after, q);
      assert entries == [entries[0]] + entries[1..];
    }
  }

  /** What every extraction keeps: each path that no entry goes to, and nothing new that none goes to or below. */
  ghost predicate LeavesAlone(entries: seq<Zip.Listed>, nodes: Nodes, after: Nodes) {
    && (forall q :: q in nodes && !IsTarget(entries, q) ==> q in after && after[q] == nodes[q])
    && (forall q :: q in after && q !in nodes ==> IsReached(entries, q))
  }

  /** Whatever bytes are given as an archive, and whether or not the extraction succeeds, it stays within its folder. */
  lemma ExtractionStaysInside(bytes: seq<byte>, nodes: Nodes)
    ensures StaysWithin(nodes, ExtractSpec(bytes, nodes).1)
    ensures LeavesAlone(
      if Zip.ListSpec(bytes).Ok? then Zip.ListSpec(bytes).value else [], nodes, ExtractSpec(bytes, nodes).1)
  {
    hide StaysWithin, ExtractFrom, Zip.ListSpec, IsTarget, IsReached;
    StaysPut(nodes);
    if Zip.ListSpec(bytes).Ok? {
      var entries := Zip.ListSpec(bytes).value;
      AllStayWithin(bytes, entries, nodes);
      forall q {
        AllLeave(bytes, entries, nodes, q);
      }
    }
  }

  // ----- the image -----

  ghost function ImageOf(content: Content, prefix: Path): Nodes {
    var parents := set f, a | f in content && a in Above(Join(prefix, f)) :: a;
    var folders := {prefix} + (set a | a in Above(prefix)) + parents;
    map p | p in folders + (set f | f in content :: Join(prefix, f)) ::
      if IsImageFile(p, content, prefix) then FileNode(content[p[|prefix| + 1..]]) else FolderNode
  }

  lemma {:induction false} AboveTransitive(p: Path, a: Path, b: Path)
    requires a in Above(p) && b in Above(a)
    ensures b in Above(p)
    decreases |p|
  {
    if a != LastCut(p).above {
      AboveTransitive(LastCut(p).above, a, b);
    }
  }

  /** No file's path is a folder's. */
  lemma FilesAreNotFolders(content: Content, prefix: Path, p: Path)
    requires IsContent(content) && IsImageFile(p, content, prefix)
    ensures !IsImageFolder(p, content, prefix)
  {
    hide Portable, ValidUtf8, Above;
    var f := p[|prefix| + 1..];
    if p in Above(prefix) {
      AboveIsShorter(prefix, p);
    }
    forall g | g in content ensures p !in Above(Join(prefix, g)) {
      AboveJoined(prefix, g, p);
      if b :| b in Above(g) && p == Join(prefix, b) {
        JoinsAgree(prefix, f, b);
      }
    }
  }

  lemma JoinIsImageFile(content: Content, prefix: Path, f: Path)
    requires f in content
    ensures IsImageFile(Join(prefix, f), content, prefix) && Join(prefix, f)[|prefix| + 1..] == f
  {
  }

  lemma ImageHas(content: Content, prefix: Path, p: Path)
    ensures p in ImageOf(content, prefix) <==> IsImageFolder(p, content, prefix) || IsImageFile(p, content, prefix)
  {
    hide Join, Above, IsImageFile;
    if IsImageFile(p, content, prefix) {
      FileIsJoined(content, prefix, p);
    }
    forall f | f in content ensures IsImageFile(Join(prefix, f), content, prefix) {
      JoinIsImageFile(content, prefix, f);
    }
  }

  lemma ImageIsImage(content: Content, prefix: Path)
    requires IsContent(content)
    ensures IsImage(ImageOf(content, prefix), content, prefix)
  {
    hide IsContent, IsImageFile, IsImageFolder, Join;
    var image := ImageOf(content, prefix);
    forall p ensures p in image <==> IsImageFolder(p, content, prefix) || IsImageFile(p, content, prefix) {
      ImageHas(content, prefix, p);
    }
    forall f | f in content ensures Join(prefix, f) in image && image[Join(prefix, f)] == FileNode(content[f]) {
      JoinIsImageFile(content, prefix, f);
    }
    forall p | p in image && IsImageFolder(p, content, prefix) ensures image[p] == FolderNode {
      if IsImageFile(p, content, prefix) {
        FilesAreNotFolders(content, prefix, p);
      }
    }
  }

  lemma FileIsJoined(content: Content, prefix: Path, p: Path)
    requires IsImageFile(p, content, prefix)
    ensures exists f :: f in content && p == Join(prefix, f)
  {
    assert p[|prefix| + 1..] in content;
  }

  lemma ImageIsClosed(image: Nodes, content: Content, prefix: Path)
    requires IsImage(image, content, prefix)
    ensures Closed(image)
  {
    hide IsImageFile, LastCut;
    forall p | p in image && LastCut(p).Cut? ensures IsImageFolder(LastCut(p).above, content, prefix) {
      var above := LastCut(p).above;
      assert above in Above(p);
      if p in Above(prefix) {
        AboveTransitive(prefix, p, above);
      } else if f :| f in content && p in Above(Join(prefix, f)) {
        AboveTransitive(Join(prefix, f), p, above);
      } else if p != prefix {
        FileIsJoined(content, prefix, p);
      }
    }
  }

  // ----- the entries -----

  lemma {:induction false} LoadedAll(sources: seq<Source>, content: Content)
    requires forall s :: s in sources ==> LoadOne(s, content).Ok?
    ensures Load(sources, content).Ok? && |Load(sources, content).value| == |sources|
    ensures forall i :: 0 <= i < |sources| ==> Load(sources, content).value[i] == LoadOne(sources[i], content).value
    decreases |sources|
  {
    hide LoadOne;
    if sources != [] {
      LoadedAll(sources[1..], content);
    }
  }

  lemma PortableName(p: Path)
    requires Portable(p)
    ensures StripSlash(p) == p && TrimSlashes(p) == p && StaysInside(p) && !Zip.EndsWithSlash(p)
    ensures StripSlash(p + [SLASH]) == p && TrimSlashes(p + [SLASH]) == p && StaysInside(p + [SLASH])
    ensures Zip.EndsWithSlash(p + [SLASH])
  {
    hide Parts, PlainPart;
    PortableEnds(p);
    assert (p + [SLASH])[..|p|] == p;
  }

  /** A folder the tree lists, without its closing slash. */
  lemma FolderListed(name: Path, files: seq<Path>, content: Content, prefix: Path) returns (p: Path)
    requires IsFolder(name, files, prefix) && IsContent(content) && (forall f :: f in files ==> f in content)
    requires Portable(prefix) && ValidUtf8(prefix)
    ensures name == p + [SLASH] && Portable(p) && ValidUtf8(p) && IsImageFolder(p, content, prefix)
  {
    hide Portable, ValidUtf8, Above;
    if name == prefix + [SLASH] {
      p := prefix;
    } else {
      var f :| f in files && name in FolderNames(prefix, Above(Slashed(f)));
      SlashedPortable(f);
      var i :| 0 <= i < |Above(f)| && name == FolderName(prefix, Above(f)[i]);
      var a := Above(f)[i];
      AboveArePortable(f, a);
      AboveAreValid(f, a);
      JoinIsPortable(prefix, a);
      JoinIsValid(prefix, a);
      AboveJoined(prefix, f, Join(prefix, a));
      p := Join(prefix, a);
    }
  }

  ghost predicate FitsFile(s: Source, f: Path, content: Content, prefix: Path) {
    && f in content && s.name == Join(prefix, f) && s.kind != Zip.Directory && s.path == Some(f)
    && Portable(s.name) && ValidUtf8(s.name)
  }

  ghost predicate FitsFolder(s: Source, p: Path, content: Content, prefix: Path) {
    s == FolderSource(p + [SLASH]) && Portable(p) && ValidUtf8(p) && IsImageFolder(p, content, prefix)
  }

  /** A listed source is a file of the folder or one of its folders. */
  ghost predicate Fitting(s: Source, content: Content, prefix: Path) {
    (exists f :: FitsFile(s, f, content, prefix)) || exists p :: FitsFolder(s, p, content, prefix)
  }

  lemma SourceFits(files: seq<Path>, content: Content, prefix: Path, executable: seq<Path>, s: Source)
    requires IsContent(content) && (forall f :: f in files <==> f in content)
    requires Portable(prefix) && ValidUtf8(prefix)
    requires s in TreeSpec(files, prefix, executable)
    ensures Fitting(s, content, prefix)
  {
    hide Portable, ValidUtf8, TreeSpec, IsFolder, IsImageFolder;
    TreeMembers(files, prefix, executable, s);
    if f :| f in files && s == FileSource(f, prefix, executable) {
      SlashedPortable(f);
      JoinIsPortable(prefix, f);
      JoinIsValid(prefix, f);
      assert FitsFile(s, f, content, prefix);
    } else {
      var p := FolderListed(s.name, files, content, prefix);
      assert FitsFolder(s, p, content, prefix);
    }
  }

  lemma FittingLoads(s: Source, content: Content, prefix: Path)
    requires Fitting(s, content, prefix)
    ensures LoadOne(s, content).Ok? && LoadOne(s, content).value.name == s.name
  {
    hide Portable, ValidUtf8, IsImageFolder;
  }

  lemma FittingBelongs(s: Source, content: Content, prefix: Path, image: Nodes, bytes: seq<byte>, listed: Zip.Listed)
    requires IsContent(content) && IsImage(image, content, prefix) && Fitting(s, content, prefix)
    requires LoadOne(s, content).Ok?
    requires var e := LoadOne(s, content).value;
      listed.name == Zip.Named(e) && Zip.DataSpec(bytes, listed) == Ok(Zip.Stored(e))
    ensures Belongs(bytes, listed, image) && ValidUtf8(s.name)
    ensures TrimSlashes(listed.name) == TrimSlashes(s.name)
  {
    hide Portable, ValidUtf8, Zip.DataSpec, IsImageFolder, IsImageFile, Join, StaysInside, TrimSlashes, IsContent;
    if f :| FitsFile(s, f, content, prefix) {
      PortableName(s.name);
    } else {
      var p :| FitsFolder(s, p, content, prefix);
      PortableName(p);
      FolderNameIsValid(p);
    }
  }

  lemma FolderNameIsValid(p: Path)
    requires ValidUtf8(p)
    ensures ValidUtf8(p + [SLASH])
  {
    hide ValidUtf8;
    ValidAscii(SLASH);
    ValidConcat(p, [SLASH]);
  }

  // ----- the whole folder -----

  /** Everything in the image was some entry's target, or lies above one. */
  lemma ImageReached(files: seq<Path>, content: Content, prefix: Path, executable: seq<Path>, after: Nodes, p: Path)
    requires IsContent(content) && (forall f :: f in files <==> f in content) && Portable(prefix)
    requires Closed(after)
    requires forall s :: s in TreeSpec(files, prefix, executable) ==> TrimSlashes(s.name) in after
    requires IsImageFolder(p, content, prefix) || IsImageFile(p, content, prefix)
    ensures p in after
  {
    hide Portable, ValidUtf8, TreeSpec, Closed, TrimSlashes, StaysInside;
    PrefixReached(files, content, prefix, executable, after);
    if IsImageFile(p, content, prefix) {
      var f := p[|prefix| + 1..];
      SlashedPortable(f);
      TreeMembers(files, prefix, executable, FileSource(f, prefix, executable));
      JoinIsPortable(prefix, f);
      PortableName(p);
    } else if p in Above(prefix) {
      ClosedAbove(after, prefix);
    } else if p != prefix {
      var f :| f in content && p in Above(Join(prefix, f));
      AboveJoined(prefix, f, p);
      var b :| b in Above(f) && p == Join(prefix, b);
      FolderReached(files, content, prefix, executable, after, f, b);
    }
  }

  lemma PrefixReached(files: seq<Path>, content: Content, prefix: Path, executable: seq<Path>, after: Nodes)
    requires Portable(prefix)
    requires forall s :: s in TreeSpec(files, prefix, executable) ==> TrimSlashes(s.name) in after
    ensures prefix in after
  {
    hide Portable, TreeSpec, TrimSlashes, StaysInside;
    TreeMembers(files, prefix, executable, FolderSource(prefix + [SLASH]));
    PortableName(prefix);
  }

  lemma FolderReached(
      files: seq<Path>, content: Content, prefix: Path, executable: seq<Path>, after: Nodes, f: Path, b: Path)
    requires IsContent(content) && f in files && f in content && b in Above(f) && Portable(prefix)
    requires forall s :: s in TreeSpec(files, prefix, executable) ==> TrimSlashes(s.name) in after
    ensures Join(prefix, b) in after
  {
    hide Portable, ValidUtf8, TreeSpec, TrimSlashes, StaysInside, Above;
    SlashedPortable(f);
    var i :| 0 <= i < |Above(f)| && Above(f)[i] == b;
    assert FolderNames(prefix, Above(f))[i] == FolderName(prefix, b);
    TreeMembers(files, prefix, executable, FolderSource(FolderName(prefix, b)));
    AboveArePortable(f, b);
    JoinIsPortable(prefix, b);
    PortableName(Join(prefix, b));
  }

  lemma ImageIsWhole(after: Nodes, image: Nodes, content: Content, prefix: Path)
    requires Within(after, image) && IsImage(image, content, prefix)
    requires forall p :: IsImageFolder(p, content, prefix) || IsImageFile(p, content, prefix) ==> p in after
    ensures after == image
  {
    hide IsImageFolder, IsImageFile;
  }

  lemma SourcesLoad(files: seq<Path>, content: Content, prefix: Path, executable: seq<Path>)
    requires IsContent(content) && (forall f :: f in files <==> f in content)
    requires Portable(prefix) && ValidUtf8(prefix)
    ensures var sources := TreeSpec(files, prefix, executable);
      && Load(sources, content).Ok? && |Load(sources, content).value| == |sources|
      && forall i :: 0 <= i < |sources| ==>
        && Fitting(sources[i], content, prefix)
        && LoadOne(sources[i], content).Ok?
        && Load(sources, content).value[i] == LoadOne(sources[i], content).value
        && ValidUtf8(Load(sources, content).value[i].name)
  {
    hide IsContent, Portable, ValidUtf8, TreeSpec, Fitting, LoadOne, Load;
    var sources := TreeSpec(files, prefix, executable);
    forall s | s in sources
      ensures Fitting(s, content, prefix) && LoadOne(s, content).Ok? && ValidUtf8(LoadOne(s, content).value.name)
    {
      SourceFits(files, content, prefix, executable, s);
      FittingLoads(s, content, prefix);
      FittingIsValid(s, content, prefix);
    }
    LoadedAll(sources, content);
  }

  /** Every entry of the packed archive belongs to the image, and goes where its source's name says. */
  lemma PackedBelongs(
      files: seq<Path>, content: Content, prefix: Path, executable: seq<Path>, archive: seq<byte>, image: Nodes)
    requires IsContent(content) && (forall f :: f in files <==> f in content)
    requires Portable(prefix) && ValidUtf8(prefix) && IsImage(image, content, prefix)
    requires PackSpec(TreeSpec(files, prefix, executable), content) == Ok(archive)
    ensures var sources, listed := TreeSpec(files, prefix, executable), Zip.ListSpec(archive);
      && listed.Ok? && |listed.value| == |sources|
      && forall i :: 0 <= i < |sources| ==>
        Belongs(archive, listed.value[i], image) && TrimSlashes(listed.value[i].name) == TrimSlashes(sources[i].name)
  {
    hide IsContent, Portable, ValidUtf8, TreeSpec, IsImage, Fitting, LoadOne, Load, TrimSlashes, Belongs,
      Zip.WriteSpec, Zip.ListSpec, Zip.DataSpec, Zip.Named, Zip.Stored, Zip.ExternalAttributes;
    var sources := TreeSpec(files, prefix, executable);
    SourcesLoad(files, content, prefix, executable);
    var entries := Load(sources, content).value;
    ZipRoundTrip.WriteThenRead(entries, archive);
    var listed := Zip.ListSpec(archive).value;
    forall i | 0 <= i < |listed|
      ensures Belongs(archive, listed[i], image) && TrimSlashes(listed[i].name) == TrimSlashes(sources[i].name)
    {
      FittingBelongs(sources[i], content, prefix, image, archive, listed[i]);
    }
  }

  /** Packing a folder and extracting the archive into an empty one leaves the same files and the folders they need. */
  lemma PackedThenExtracted(files: seq<Path>, content: Content, prefix: Path, executable: seq<Path>, archive: seq<byte>)
    requires IsContent(content) && (forall f :: f in files <==> f in content)
    requires Portable(prefix) && ValidUtf8(prefix)
    requires PackSpec(TreeSpec(files, prefix, executable), content) == Ok(archive)
    ensures var (r, after) := ExtractSpec(archive, map[]);
      r == Ok(|TreeSpec(files, prefix, executable)|) && IsImage(after, content, prefix)
  {
    hide IsContent, Portable, ValidUtf8, PackSpec, TreeSpec, Closed, Within, IsImage, TrimSlashes, ExtractFrom, Belongs,
      IsImageFolder, IsImageFile, ImageOf, Zip.ListSpec;
    var sources := TreeSpec(files, prefix, executable);
    var image := ImageOf(content, prefix);
    ImageIsImage(content, prefix);
    ImageIsClosed(image, content, prefix);
    PackedBelongs(files, content, prefix, executable, archive, image);
    var listed := Zip.ListSpec(archive).value;
    NothingYet(image);
    AllExtracted(archive, listed, map[], image);
    var after := ExtractFrom(archive, listed, map[]).1;
    forall s | s in sources ensures TrimSlashes(s.name) in after {
      var i :| 0 <= i < |sources| && sources[i] == s;
      assert TrimSlashes(listed[i].name) in after;
    }
    forall p | IsImageFolder(p, content, prefix) || IsImageFile(p, content, prefix) ensures p in after {
      ImageReached(files, content, prefix, executable, after, p);
    }
    ImageIsWhole(after, image, content, prefix);
  }

  lemma FittingIsValid(s: Source, content: Content, prefix: Path)
    requires Fitting(s, content, prefix)
    ensures ValidUtf8(s.name)
  {
    hide Portable, ValidUtf8, IsImageFolder;
    if p :| FitsFolder(s, p, content, prefix) {
      FolderNameIsValid(p);
    }
  }

  lemma NothingYet(image: Nodes)
    ensures Within(map[], image) && Closed(map[])
  {
  }
}
