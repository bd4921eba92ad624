// Names told in bytes: the order they are listed in, the folders above them, which of them a tree lists and with which
// mode, and which of them extraction takes.

module TreeNames {
  import opened Basics
  import opened Utf8
  import opened Paths
  import opened Folder
  import ZipFields
  import Zip
  import ZipRoundTrip

  // ----- byte order -----

  /** The first `k` bytes are the same, and there one name ends or has the smaller byte. */
  ghost predicate SmallerAt(a: Path, b: Path, k: nat) {
    k <= |a| && k < |b| && a[..k] == b[..k] && (k == |a| || a[k] < b[k])
  }

  lemma LaterSmaller(a: Path, b: Path, k: nat)
    requires a != [] && b != [] && a[0] == b[0]
    ensures SmallerAt(a[1..], b[1..], k) <==> SmallerAt(a, b, k + 1)
  {
    if k < |a| && k + 1 < |b| {
      assert a[..k + 1] == [a[0]] + a[1..][..k];
      assert b[..k + 1] == [b[0]] + b[1..][..k];
      assert a[..k + 1][1..] == a[1..][..k] && b[..k + 1][1..] == b[1..][..k];
    }
  }

  lemma {:induction false} LessExact(a: Path, b: Path)
    ensures Less(a, b) <==> exists k: nat :: SmallerAt(a, b, k)
    decreases |a|
  {
    if Less(a, b) {
      if a == [] || a[0] < b[0] {
        assert SmallerAt(a, b, 0);
      } else {
        LessExact(a[1..], b[1..]);
        var k: nat :| SmallerAt(a[1..], b[1..], k);
        LaterSmaller(a, b, k);
      }
    }
    forall k: nat | SmallerAt(a, b, k) ensures Less(a, b) {
      if k > 0 {
        assert a[0] == a[..k][0] == b[..k][0] == b[0];
        LaterSmaller(a, b, k - 1);
        LessExact(a[1..], b[1..]);
      }
    }
  }

  // ----- folders above a path -----

  /** Cut before any of its slashes, a path gives a folder above it, and only so. */
  lemma {:induction false} AboveExact(p: Path, a: Path)
    ensures a in Above(p) <==> exists i :: 0 <= i < |p| && p[i] == 0x2F && a == p[..i]
    decreases |p|
  {
    match LastCut(p)
    case Whole =>
    case Cut(above, last) =>
      AboveExact(above, a);
      assert p[|above|] == 0x2F && p[..|above|] == above;
      forall i | |above| < i < |p| ensures p[i] != 0x2F {
        assert p[i] == last[i - |above| - 1];
      }
      forall i | 0 <= i < |above| ensures p[i] == above[i] && p[..i] == above[..i] {
      }
      assert Above(p) == [above] + Above(above);
  }

  // ----- what a tree lists -----

  /** A file's name with every backslash made a slash. */
  function Forward(f: Path): (r: Path)
    ensures |r| == |f|
  {
    seq(|f|, i requires 0 <= i < |f| => if f[i] == 0x5C then 0x2F else f[i])
  }

  lemma ForwardIs(f: Path)
    ensures Slashed(f) == Forward(f)
  {
  }

  ghost predicate IsListedFile(s: Source, f: Path, prefix: Path, executable: seq<Path>) {
    && s.name == prefix + [0x2F] + Forward(f) && s.path == Some(f)
    && s.kind == if Forward(f) in executable then Zip.Executable else Zip.File
  }

  /** The prefix itself, or a file's name cut before one of its slashes. */
  ghost predicate IsFolderName(name: Path, files: seq<Path>, prefix: Path) {
    || name == prefix + [0x2F]
    || exists f, i: nat ::
        f in files && i < |f| && Forward(f)[i] == 0x2F && name == prefix + [0x2F] + Forward(f)[..i] + [0x2F]
  }

  lemma FolderIs(name: Path, files: seq<Path>, prefix: Path)
    ensures IsFolder(name, files, prefix) <==> IsFolderName(name, files, prefix)
  {
    hide Above, Forward, Slashed;
    forall f | f in files
      ensures name in FolderNames(prefix, Above(Slashed(f))) <==>
        exists i: nat :: i < |f| && Forward(f)[i] == 0x2F && name == prefix + [0x2F] + Forward(f)[..i] + [0x2F]
    {
      FolderNamesOf(name, f, prefix);
    }
  }

  lemma FolderNamesOf(name: Path, f: Path, prefix: Path)
    ensures name in FolderNames(prefix, Above(Slashed(f))) <==>
      exists i: nat :: i < |f| && Forward(f)[i] == 0x2F && name == prefix + [0x2F] + Forward(f)[..i] + [0x2F]
  {
    hide Above, Forward, Slashed;
    ForwardIs(f);
    var above := Above(Slashed(f));
    if name in FolderNames(prefix, above) {
      var k :| 0 <= k < |above| && name == FolderNames(prefix, above)[k];
      AboveExact(Slashed(f), above[k]);
    }
    forall i: nat | i < |f| && Forward(f)[i] == 0x2F && name == prefix + [0x2F] + Forward(f)[..i] + [0x2F]
      ensures name in FolderNames(prefix, above)
    {
      AboveExact(Slashed(f), Forward(f)[..i]);
      var k :| 0 <= k < |above| && above[k] == Forward(f)[..i];
      assert FolderNames(prefix, above)[k] == name;
    }
  }

  /** A tree lists each file under the prefix and its name with forward slashes, as executable if that name is among
      the executable ones, and each folder with a slash behind its name. */
  lemma ListedExact(files: seq<Path>, prefix: Path, executable: seq<Path>, s: Source)
    ensures s in TreeSpec(files, prefix, executable) <==>
      || (exists f :: f in files && IsListedFile(s, f, prefix, executable))
      || (s.kind == Zip.Directory && s.path == None && IsFolderName(s.name, files, prefix))
  {
    hide TreeSpec, IsFolder, IsFolderName, Forward, Slashed;
    TreeMembers(files, prefix, executable, s);
    FolderIs(s.name, files, prefix);
    forall f ensures IsListedFile(s, f, prefix, executable) <==> s == FileSource(f, prefix, executable) {
      ForwardIs(f);
    }
  }

  // ----- modes -----

  lemma {:induction false} LoadedKeeps(sources: seq<Source>, content: Content)
    requires Load(sources, content).Ok?
    ensures var entries := Load(sources, content).value;
      && |entries| == |sources|
      && forall i :: 0 <= i < |sources| ==> entries[i].name == sources[i].name && entries[i].kind == sources[i].kind
    decreases |sources|
  {
    if sources != [] {
      LoadedKeeps(sources[1..], content);
    }
  }

  /** In the archive of any sources, every listed entry has the mode of its source: 0o100755 for an executable,
      0o100644 for another file, 0o040755 and the directory bit for a folder. */
  lemma ModesExact(sources: seq<Source>, content: Content, archive: seq<byte>, i: nat)
    requires PackSpec(sources, content) == Ok(archive) && i < |sources|
    requires forall s :: s in sources ==> ValidUtf8(s.name)
    ensures Zip.ListSpec(archive).Ok? && |Zip.ListSpec(archive).value| == |sources|
    ensures Zip.ListSpec(archive).value[i].external ==
      match sources[i].kind
      case Executable => 0x81ED_0000
      case File => 0x81A4_0000
      case Directory => 0x41ED_0010
  {
    hide Zip.WriteSpec, Zip.ListSpec, Zip.DataSpec, ValidUtf8, Load, Zip.Named, Zip.Stored;
    var entries := Load(sources, content).value;
    LoadedKeeps(sources, content);
    ZipRoundTrip.WriteThenRead(entries, archive);
    ZipFields.KindIs(sources[i].kind);
  }

  // ----- what extraction takes -----

  /** The part of a name between two places, each a slash or an end, with no slash between. */
  ghost predicate IsPart(name: Path, i: nat, j: nat) {
    && i <= j <= |name| && (i == 0 || name[i - 1] == 0x2F) && (j == |name| || name[j] == 0x2F)
    && 0x2F !in name[i..j]
  }

  lemma PartClear(name: Path, i: nat, j: nat)
    requires IsPart(name, i, j)
    ensures forall k :: i <= k < j ==> name[k] != 0x2F
  {
    forall k | i <= k < j ensures name[k] != 0x2F {
      assert name[i..j][k - i] == name[k];
    }
  }

  /** A part of a path lies before its last slash, or is what stands behind it. */
  lemma PartBeside(name: Path, above: Path, last: Path, i: nat, j: nat)
    requires name == above + [0x2F] + last && 0x2F !in last
    ensures IsPart(name, i, j) <==> IsPart(above, i, j) || (i == |above| + 1 && j == |name|)
    ensures IsPart(above, i, j) ==> name[i..j] == above[i..j]
    ensures name[|above| + 1..] == last
  {
    var n := |above|;
    forall k | n < k < |name| ensures name[k] != 0x2F {
      assert name[k] == last[k - (n + 1)];
    }
    assert name[n] == 0x2F && name[n + 1..|name|] == last && name[..n] == above;
    if IsPart(name, i, j) {
      PartClear(name, i, j);
      assert n < i || j <= n;
    }
    if i <= j <= n {
      assert name[i..j] == above[i..j];
    }
  }

  lemma {:induction false} PartsExact(name: Path, part: Path)
    ensures part in Parts(name) <==> exists i: nat, j: nat :: IsPart(name, i, j) && part == name[i..j]
    decreases |name|
  {
    hide IsPart;
    match LastCut(name)
    case Whole =>
      OnePart(name);
    case Cut(above, last) =>
      PartsExact(above, part);
      forall i: nat, j: nat
        ensures IsPart(name, i, j) <==> IsPart(above, i, j) || (i == |above| + 1 && j == |name|)
        ensures IsPart(above, i, j) ==> i <= j <= |above| && name[i..j] == above[i..j]
      {
        PartBeside(name, above, last, i, j);
        PartInside(above, i, j);
      }
      PartBeside(name, above, last, |above| + 1, |name|);
      assert name[|above| + 1..|name|] == last;
      assert IsPart(name, |above| + 1, |name|);
  }

  lemma PartInside(name: Path, i: nat, j: nat)
    ensures IsPart(name, i, j) ==> i <= j <= |name|
  {
  }

  lemma EmptyPart(name: Path)
    ensures name == [] ==> IsPart(name, 0, 0) && name[0..0] == []
  {
  }

  lemma OnePart(name: Path)
    requires 0x2F !in name
    ensures forall i: nat, j: nat :: IsPart(name, i, j) ==> i == 0 && j == |name| && name[i..j] == name
    ensures IsPart(name, 0, |name|) && name[0..|name|] == name
  {
  }

  /** Extraction takes a name when, without one slash at its end, it has no backslash, no colon, and no part that is
      empty, one dot or two dots. */
  lemma TakenExact(name: Path)
    ensures var trimmed := if name != [] && name[|name| - 1] == 0x2F then name[..|name| - 1] else name;
      StaysInside(name) <==>
        && 0x5C !in name && 0x3A !in name
        && forall i: nat, j: nat :: IsPart(trimmed, i, j) ==> trimmed[i..j] !in {[], [0x2E], [0x2E, 0x2E]}
  {
    hide Parts;
    var trimmed := if name != [] && name[|name| - 1] == 0x2F then name[..|name| - 1] else name;
    assert trimmed == StripSlash(name);
    if StaysInside(name) {
      forall i: nat, j: nat | IsPart(trimmed, i, j) ensures trimmed[i..j] !in {[], [0x2E], [0x2E, 0x2E]} {
        PartsExact(trimmed, trimmed[i..j]);
      }
    }
    if forall i: nat, j: nat :: IsPart(trimmed, i, j) ==> trimmed[i..j] !in {[], [0x2E], [0x2E, 0x2E]} {
      EmptyPart(trimmed);
      forall part | part in Parts(trimmed) ensures PlainPart(part) {
        PartsExact(trimmed, part);
      }
    }
  }

  /** The same of the names that are given back: `Portable` is the same without the slash at the end. */
  lemma PortableExact(p: Path)
    ensures Portable(p) <==>
      && 0x5C !in p && 0x3A !in p
      && forall i: nat, j: nat :: IsPart(p, i, j) ==> p[i..j] !in {[], [0x2E], [0x2E, 0x2E]}
  {
    hide Parts;
    if Portable(p) {
      forall i: nat, j: nat | IsPart(p, i, j) ensures p[i..j] !in {[], [0x2E], [0x2E, 0x2E]} {
        PartsExact(p, p[i..j]);
      }
    }
    if forall i: nat, j: nat :: IsPart(p, i, j) ==> p[i..j] !in {[], [0x2E], [0x2E, 0x2E]} {
      forall part | part in Parts(p) ensures PlainPart(part) {
        PartsExact(p, part);
      }
    }
  }

  /** A target is its entry's name without the slashes at its end. */
  lemma {:induction false} TargetExact(name: Path)
    ensures var n := |TrimSlashes(name)|;
      && n <= |name| && name[..n] == TrimSlashes(name)
      && (forall i :: n <= i < |name| ==> name[i] == 0x2F) && (n > 0 ==> name[n - 1] != 0x2F)
    decreases |name|
  {
    if name != [] && name[|name| - 1] == 0x2F {
      TargetExact(name[..|name| - 1]);
    }
  }

  // ----- what extraction does with one entry -----

  /** A file is put where there is none or in place of one, in a folder that is there; else the first of three things
      is wrong. */
  lemma PutExact(nodes: Nodes, p: Path, data: seq<byte>)
    ensures var inFolder, above := LastCut(p).Cut?, if LastCut(p).Cut? then LastCut(p).above else [];
      PutFile(nodes, p, data) ==
        if inFolder && above !in nodes then Err(NoFolder)
        else if inFolder && nodes[above] != FolderNode then Err(NotAFolder)
        else if p in nodes && nodes[p] == FolderNode then Err(IsAFolder)
        else Ok(nodes[p := FileNode(data)])
  {
    hide LastCut;
  }

  lemma NotEmpty(name: Path)
    requires StaysInside(name)
    ensures name != []
  {
  }

  /** A folder entry makes its folder and those above it, unless a file is in the way. */
  lemma FolderEntryExact(bytes: seq<byte>, entry: Zip.Listed, nodes: Nodes)
    requires Closed(nodes) && StaysInside(entry.name) && entry.name[|entry.name| - 1] == 0x2F
    ensures var target, (r, after) := TrimSlashes(entry.name), ExtractOne(bytes, entry, nodes);
      if Clear(nodes, target) then r == Ok(()) && AddsFolders(nodes, target, after)
      else r == Err(NotAFolder) && after == nodes
  {
    hide StaysInside, TrimSlashes, Clear, AddsFolders, Closed, MakeFolders;
    NotEmpty(entry.name);
    MakeFoldersExact(nodes, TrimSlashes(entry.name));
    MakeFoldersFails(nodes, TrimSlashes(entry.name));
  }

  /** A file entry whose name has a folder in it: the folders are made, then the file is written over whatever file was
      there; what fails leaves the folders behind. */
  lemma FileEntryExact(bytes: seq<byte>, entry: Zip.Listed, nodes: Nodes)
    requires Closed(nodes) && StaysInside(entry.name) && entry.name[|entry.name| - 1] != 0x2F
    requires LastCut(entry.name).Cut?
    ensures var above, data := LastCut(entry.name).above, Zip.DataSpec(bytes, entry);
      var (r, after) := ExtractOne(bytes, entry, nodes);
      if !Clear(nodes, above) then r == Err(NotAFolder) && after == nodes
      else if data.Err? then r == Err(InArchive(data.error)) && AddsFolders(nodes, above, after)
      else if entry.name in nodes && nodes[entry.name] == FolderNode then
        r == Err(IsAFolder) && AddsFolders(nodes, above, after)
      else
        && r == Ok(()) && entry.name in after && after[entry.name] == FileNode(data.value)
        && exists made :: AddsFolders(nodes, above, made) && after == made[entry.name := FileNode(data.value)]
  {
    hide StaysInside, Clear, Closed, MakeFolders, LastCut, Zip.DataSpec, Above;
    var above := LastCut(entry.name).above;
    MakeFoldersExact(nodes, above);
    MakeFoldersFails(nodes, above);
    AboveTurn(entry.name);
    if Clear(nodes, above) {
      var made := MakeFolders(nodes, above).value;
      assert AddsFolders(nodes, above, made);
      NotAboveItself(entry.name);
    }
  }

  /** A file entry whose name has no folder in it goes into the destination itself. */
  lemma TopEntryExact(bytes: seq<byte>, entry: Zip.Listed, nodes: Nodes)
    requires StaysInside(entry.name) && entry.name[|entry.name| - 1] != 0x2F && LastCut(entry.name).Whole?
    ensures var data := Zip.DataSpec(bytes, entry);
      ExtractOne(bytes, entry, nodes) ==
        if data.Err? then (Err(InArchive(data.error)), nodes)
        else if entry.name in nodes && nodes[entry.name] == FolderNode then (Err(IsAFolder), nodes)
        else (Ok(()), nodes[entry.name := FileNode(data.value)])
  {
    hide StaysInside, LastCut, Zip.DataSpec;
  }

  lemma NotAboveItself(p: Path)
    requires LastCut(p).Cut?
    ensures p != LastCut(p).above && p !in Above(LastCut(p).above)
  {
    hide Above;
    CutIsShorter(p);
    if p in Above(LastCut(p).above) {
      AboveIsShorter(LastCut(p).above, p);
    }
  }

  /** A name that leaves the folder stops the extraction before anything is touched. */
  lemma RefusedExact(bytes: seq<byte>, entry: Zip.Listed, nodes: Nodes)
    requires !StaysInside(entry.name)
    ensures ExtractOne(bytes, entry, nodes) == (Err(LeavesFolder), nodes)
  {
  }

  // ----- whole archives -----

  /** The entries are taken in order, each from the folder the one before left, and the first that fails stops it. */
  lemma EntriesExact(bytes: seq<byte>, entries: seq<Zip.Listed>, nodes: Nodes)
    ensures entries == [] ==> ExtractFrom(bytes, entries, nodes) == (Ok(()), nodes)
    ensures entries != [] ==>
      var one := ExtractOne(bytes, entries[0], nodes);
      ExtractFrom(bytes, entries, nodes) == if one.0.Err? then one else ExtractFrom(bytes, entries[1..], one.1)
  {
    hide ExtractOne;
  }

  /** Nothing is touched when the archive does not list, and the number of entries is returned when all went well. */
  lemma ExtractExact(bytes: seq<byte>, nodes: Nodes)
    ensures var listed := Zip.ListSpec(bytes);
      if listed.Err? then ExtractSpec(bytes, nodes) == (Err(InArchive(listed.error)), nodes)
      else
        var all := ExtractFrom(bytes, listed.value, nodes);
        ExtractSpec(bytes, nodes) == (if all.0.Err? then Err(all.0.error) else Ok(|listed.value|), all.1)
  {
    hide Zip.ListSpec, ExtractFrom;
  }

  ghost predicate AllReadable(sources: seq<Source>, content: Content) {
    forall i :: 0 <= i < |sources| && sources[i].path.Some? ==> sources[i].path.value in content
  }

  /** Sources are read when every file among them is there, each file with its bytes and each folder with none. */
  lemma {:induction false} ReadExact(sources: seq<Source>, content: Content)
    ensures Load(sources, content).Ok? <==> AllReadable(sources, content)
    ensures Load(sources, content).Err? ==> Load(sources, content) == Err(ReadFailed)
    ensures Load(sources, content).Ok? ==>
      var entries := Load(sources, content).value;
      && |entries| == |sources|
      && forall i :: 0 <= i < |sources| ==>
        entries[i].data == if sources[i].path.Some? && sources[i].path.value in content
                           then content[sources[i].path.value] else []
    decreases |sources|
  {
    if sources != [] {
      ReadExact(sources[1..], content);
      assert AllReadable(sources, content) <==>
        LoadOne(sources[0], content).Ok? && AllReadable(sources[1..], content) by {
        ReadableTurn(sources, content);
      }
    }
  }

  lemma ReadableTurn(sources: seq<Source>, content: Content)
    requires sources != []
    ensures AllReadable(sources, content) <==>
      LoadOne(sources[0], content).Ok? && AllReadable(sources[1..], content)
  {
    assert sources == [sources[0]] + sources[1..];
  }
}
