// A folder's tree as zip entries, and an archive extracted into a folder; the file system is a map from paths.

module Folder {
  import opened Basics
  import opened Paths
  import opened Sorting
  import Zip

  // ----- the tree of a folder -----

  /** An entry to write, and the file its bytes come from. */
  datatype Source = Source(name: Path, kind: Zip.Kind, path: Option<Path>)

  /** Backslashes become slashes. */
  function Slashed(p: Path): (r: Path)
    ensures |r| == |p|
  {
    seq(|p|, i requires 0 <= i < |p| => if p[i] == BACKSLASH then SLASH else p[i])
  }

  function KindOf(relative: Path, executable: seq<Path>): Zip.Kind {
    if relative in executable then Zip.Executable else Zip.File
  }

  function FileSource(file: Path, prefix: Path, executable: seq<Path>): Source {
    Source(Join(prefix, Slashed(file)), KindOf(Slashed(file), executable), Some(file))
  }

  function FolderSource(name: Path): Source {
    Source(name, Zip.Directory, None)
  }

  function FolderName(prefix: Path, above: Path): Path {
    Join(prefix, above) + [SLASH]
  }

  function FolderNames(prefix: Path, above: seq<Path>): (names: seq<Path>)
    ensures |names| == |above| && forall i :: 0 <= i < |above| ==> names[i] == FolderName(prefix, above[i])
  {
    if above == [] then [] else [FolderName(prefix, above[0])] + FolderNames(prefix, above[1..])
  }

  predicate NamesAtMost(s: Source, t: Source) {
    AtMost(s.name, t.name)
  }

  lemma NamesAreOrdered()
    ensures IsOrder(NamesAtMost)
  {
    AtMostIsOrder();
    forall s, t ensures NamesAtMost(s, t) || NamesAtMost(t, s) {
      assert AtMost(s.name, t.name) || AtMost(t.name, s.name);
    }
    forall s, t, u | NamesAtMost(s, t) && NamesAtMost(t, u) ensures NamesAtMost(s, u) {
      AtMostTransitive(s.name, t.name, u.name);
    }
  }

  function FileSources(files: seq<Path>, prefix: Path, executable: seq<Path>): (s: seq<Source>)
    ensures |s| == |files| && forall i :: 0 <= i < |files| ==> s[i] == FileSource(files[i], prefix, executable)
  {
    seq(|files|, i requires 0 <= i < |files| => FileSource(files[i], prefix, executable))
  }

  function FolderSources(names: seq<Path>): (s: seq<Source>)
    ensures |s| == |names| && forall i :: 0 <= i < |names| ==> s[i] == FolderSource(names[i])
  {
    seq(|names|, i requires 0 <= i < |names| => FolderSource(names[i]))
  }

  /** The prefix and every folder above every file, with repeats. */
  function Pushed(files: seq<Path>, prefix: Path): seq<Path> {
    if files == [] then [prefix + [SLASH]]
    else Pushed(files[..|files| - 1], prefix) + FolderNames(prefix, Above(Slashed(files[|files| - 1])))
  }

  ghost function TreeSpec(files: seq<Path>, prefix: Path, executable: seq<Path>): seq<Source> {
    Sorted(NamesAtMost,
           FileSources(files, prefix, executable) + FolderSources(Deduped(Sorted(AtMost, Pushed(files, prefix)))))
  }

  method Tree(files: seq<Path>, prefix: Path, executable: seq<Path>) returns (entries: seq<Source>)
    ensures entries == TreeSpec(files, prefix, executable)
  {
    hide Sorted, Deduped, Above;
    entries := [];
    var directories := [prefix + [SLASH]];
    for i := 0 to |files|
      invariant entries == FileSources(files[..i], prefix, executable)
      invariant directories == Pushed(files[..i], prefix)
    {
      var relative := Slashed(files[i]);
      assert files[..i + 1][..i] == files[..i];
      directories := PushAbove(directories, relative, prefix);
      entries := entries + [Source(Join(prefix, relative), KindOf(relative, executable), Some(files[i]))];
    }
    assert files[..|files|] == files;
    directories := Deduped(Sorted(AtMost, directories));
    ghost var plain := entries;
    for i := 0 to |directories|
      invariant entries == plain + FolderSources(directories[..i])
    {
      entries := entries + [Source(directories[i], Zip.Directory, None)];
      assert FolderSources(directories[..i + 1]) == FolderSources(directories[..i]) + [FolderSource(directories[i])];
    }
    assert directories[..|directories|] == directories;
    entries := Sorted(NamesAtMost, entries);
  }

  method PushAbove(done: seq<Path>, relative: Path, prefix: Path) returns (directories: seq<Path>)
    ensures directories == done + FolderNames(prefix, Above(relative))
  {
    directories := done;
    var parent := relative;
    while LastCut(parent).Cut?
      invariant directories + FolderNames(prefix, Above(parent)) == done + FolderNames(prefix, Above(relative))
      decreases |parent|
    {
      var above := LastCut(parent).above;
      assert Above(parent) == [above] + Above(above);
      assert FolderNames(prefix, Above(parent)) == [FolderName(prefix, above)] + FolderNames(prefix, Above(above));
      directories := directories + [FolderName(prefix, above)];
      parent := above;
    }
  }

  // ----- what a tree lists -----

  ghost predicate IsFolder(name: Path, files: seq<Path>, prefix: Path) {
    || name == prefix + [SLASH]
    || exists f :: f in files && name in FolderNames(prefix, Above(Slashed(f)))
  }

  lemma {:induction false} PushedAll(files: seq<Path>, prefix: Path, name: Path)
    ensures name in Pushed(files, prefix) <==> IsFolder(name, files, prefix)
    decreases |files|
  {
    hide FolderNames, Above, Slashed;
    if files != [] {
      var init, last := files[..|files| - 1], files[|files| - 1];
      PushedAll(init, prefix, name);
      assert files == init + [last];
    }
  }

  /** What the tree lists, and in what order: files as they come, each folder once, by the bytes of their names. */
  lemma TreeContents(files: seq<Path>, prefix: Path, executable: seq<Path>)
    ensures Ordered(NamesAtMost, TreeSpec(files, prefix, executable))
    ensures exists folders ::
      && Increasing(folders)
      && (forall name :: name in folders <==> IsFolder(name, files, prefix))
      && multiset(TreeSpec(files, prefix, executable)) ==
         multiset(FileSources(files, prefix, executable)) + multiset(FolderSources(folders))
  {
    hide Sorted, Deduped, Ordered, Increasing, IsFolder, IsOrder, AtMost, NamesAtMost;
    var pushed := Pushed(files, prefix);
    AtMostIsOrder();
    NamesAreOrdered();
    SortedOrders(AtMost, pushed);
    var sorted := Sorted(AtMost, pushed);
    DedupedOnce(sorted);
    var folders := Deduped(sorted);
    forall name ensures name in folders <==> IsFolder(name, files, prefix) {
      PushedAll(files, prefix, name);
      assert name in sorted <==> name in multiset(sorted);
      assert name in pushed <==> name in multiset(pushed);
    }
    SortedOrders(NamesAtMost, FileSources(files, prefix, executable) + FolderSources(folders));
  }

  lemma TreeMembers(files: seq<Path>, prefix: Path, executable: seq<Path>, s: Source)
    ensures s in TreeSpec(files, prefix, executable) <==>
      || (exists f :: f in files && s == FileSource(f, prefix, executable))
      || (IsFolder(s.name, files, prefix) && s == FolderSource(s.name))
  {
    hide IsFolder, TreeSpec, Increasing, Ordered;
    TreeContents(files, prefix, executable);
    var folders :|
      && (forall name :: name in folders <==> IsFolder(name, files, prefix))
      && multiset(TreeSpec(files, prefix, executable)) ==
         multiset(FileSources(files, prefix, executable)) + multiset(FolderSources(folders));
    assert s in TreeSpec(files, prefix, executable) <==> s in multiset(TreeSpec(files, prefix, executable));
    assert s in multiset(FileSources(files, prefix, executable)) <==> s in FileSources(files, prefix, executable);
    assert s in multiset(FolderSources(folders)) <==> s in FolderSources(folders);
    if exists f :: f in files && s == FileSource(f, prefix, executable) {
      var f :| f in files && s == FileSource(f, prefix, executable);
      var i :| 0 <= i < |files| && files[i] == f;
      assert FileSources(files, prefix, executable)[i] == s;
    }
    if s == FolderSource(s.name) && s.name in folders {
      var i :| 0 <= i < |folders| && folders[i] == s.name;
      assert FolderSources(folders)[i] == s;
    }
  }

  // ----- a folder on disk -----

  datatype Node = FolderNode | FileNode(data: seq<byte>)

  type Nodes = map<Path, Node>

  datatype FolderError = ReadFailed | LeavesFolder | NotAFolder | IsAFolder | NoFolder | InArchive(error: Zip.ZipError)

  /** The folder at `p` with every folder above it, unless a file is in the way. */
  function MakeFolders(nodes: Nodes, p: Path): Result<Nodes, FolderError>
    decreases |p|
  {
    if p in nodes then (if nodes[p].FolderNode? then Ok(nodes) else Err(NotAFolder))
    else
      match LastCut(p)
      case Whole => Ok(nodes[p := FolderNode])
      case Cut(above, _) =>
        var made :- MakeFolders(nodes, above);
        Ok(made[p := FolderNode])
  }

  /** Every folder above something that is there is there. */
  ghost predicate Closed(nodes: Nodes) {
    forall p :: p in nodes && LastCut(p).Cut? ==> LastCut(p).above in nodes && nodes[LastCut(p).above] == FolderNode
  }

  /** No file stands at `p` or at a folder above it. */
  ghost predicate Clear(nodes: Nodes, p: Path) {
    forall a :: a in nodes && (a == p || a in Above(p)) ==> nodes[a] == FolderNode
  }

  /** `made` is `nodes` with a folder at `p` and at every path above it, and nothing else changed. */
  ghost predicate AddsFolders(nodes: Nodes, p: Path, made: Nodes) {
    && made.Keys == nodes.Keys + {p} + (set a | a in Above(p))
    && (forall q :: q in nodes ==> made[q] == nodes[q])
    && (forall q :: q in made && (q == p || q in Above(p)) ==> made[q] == FolderNode)
  }

  lemma {:induction false} ClosedAbove(nodes: Nodes, p: Path)
    requires Closed(nodes) && p in nodes
    ensures forall a :: a in Above(p) ==> a in nodes && nodes[a] == FolderNode
    decreases |p|
  {
    if LastCut(p).Cut? {
      ClosedAbove(nodes, LastCut(p).above);
    }
  }

  lemma AboveTurn(p: Path)
    ensures Above(p) == if LastCut(p).Cut? then [LastCut(p).above] + Above(LastCut(p).above) else []
    ensures p !in Above(p)
  {
    if p in Above(p) {
      AboveIsShorter(p, p);
    }
  }

  lemma {:induction false} AboveIsShorter(p: Path, a: Path)
    requires a in Above(p)
    ensures |a| < |p|
    decreases |p|
  {
    if a != LastCut(p).above {
      AboveIsShorter(LastCut(p).above, a);
    }
  }

  lemma NothingToAdd(nodes: Nodes, p: Path)
    requires Closed(nodes) && p in nodes
    ensures Clear(nodes, p) <==> nodes[p] == FolderNode
    ensures nodes[p] == FolderNode ==> AddsFolders(nodes, p, nodes)
  {
    hide Closed, Above;
    ClosedAbove(nodes, p);
  }

  lemma ClearAbove(nodes: Nodes, p: Path)
    requires p !in nodes
    ensures Clear(nodes, p) <==> LastCut(p).Whole? || Clear(nodes, LastCut(p).above)
  {
    hide Above, LastCut;
    AboveTurn(p);
  }

  lemma OneFolderMore(nodes: Nodes, p: Path, made: Nodes)
    requires p !in nodes && Closed(made)
    requires if LastCut(p).Cut? then AddsFolders(nodes, LastCut(p).above, made) else made == nodes
    ensures AddsFolders(nodes, p, made[p := FolderNode]) && Closed(made[p := FolderNode])
  {
    hide Above, LastCut;
    AboveTurn(p);
  }

  /** Making folders fails exactly when a file is in the way, and adds exactly the folders that are missing. */
  lemma {:induction false} MakeFoldersExact(nodes: Nodes, p: Path)
    requires Closed(nodes)
    ensures MakeFolders(nodes, p).Ok? <==> Clear(nodes, p)
    ensures MakeFolders(nodes, p).Ok? ==>
      AddsFolders(nodes, p, MakeFolders(nodes, p).value) && Closed(MakeFolders(nodes, p).value)
    decreases |p|
  {
    hide Closed, Clear, AddsFolders, LastCut;
    if p in nodes {
      NothingToAdd(nodes, p);
    } else {
      ClearAbove(nodes, p);
      if LastCut(p).Cut? {
        CutIsShorter(p);
        MakeFoldersExact(nodes, LastCut(p).above);
        if MakeFolders(nodes, LastCut(p).above).Ok? {
          OneFolderMore(nodes, p, MakeFolders(nodes, LastCut(p).above).value);
        }
      } else {
        OneFolderMore(nodes, p, nodes);
      }
    }
  }

  lemma CutIsShorter(p: Path)
    requires LastCut(p).Cut?
    ensures |LastCut(p).above| < |p|
  {
  }

  /** A file with these bytes at `p`, in a folder that must be there. */
  function PutFile(nodes: Nodes, p: Path, data: seq<byte>): Result<Nodes, FolderError> {
    if LastCut(p).Cut? && LastCut(p).above !in nodes then Err(NoFolder)
    else if LastCut(p).Cut? && nodes[LastCut(p).above].FileNode? then Err(NotAFolder)
    else if p in nodes && nodes[p].FolderNode? then Err(IsAFolder)
    else Ok(nodes[p := FileNode(data)])
  }

  class FileSystem {
    var nodes: Nodes

    constructor ()
      ensures nodes == map[]
    {
      nodes := map[];
    }

    method CreateDirAll(p: Path) returns (r: Result<(), FolderError>)
      modifies this
      ensures match MakeFolders(old(nodes), p)
        case Ok(made) => r == Ok(()) && nodes == made
        case Err(error) => r == Err(error) && nodes == old(nodes)
      ensures Closed(old(nodes)) && Clear(old(nodes), p) ==>
        r == Ok(()) && AddsFolders(old(nodes), p, nodes) && Closed(nodes)
      ensures Closed(old(nodes)) && !Clear(old(nodes), p) ==> r == Err(NotAFolder) && nodes == old(nodes)
    {
      hide Closed, Clear, AddsFolders;
      MakeFoldersFails(nodes, p);
      if Closed(nodes) {
        MakeFoldersExact(nodes, p);
      }
      var made :- MakeFolders(nodes, p);
      nodes := made;
      r := Ok(());
    }

    method Write(p: Path, data: seq<byte>) returns (r: Result<(), FolderError>)
      modifies this
      ensures match PutFile(old(nodes), p, data)
        case Ok(after) => r == Ok(()) && nodes == after
        case Err(error) => r == Err(error) && nodes == old(nodes)
    {
      nodes :- PutFile(nodes, p, data);
      r := Ok(());
    }
  }

  lemma {:induction false} MakeFoldersFails(nodes: Nodes, p: Path)
    ensures MakeFolders(nodes, p).Err? ==> MakeFolders(nodes, p) == Err(NotAFolder)
    decreases |p|
  {
    if p !in nodes && LastCut(p).Cut? {
      MakeFoldersFails(nodes, LastCut(p).above);
    }
  }

  // ----- writing the archive of a list of sources -----

  /** What a folder holds: each file's bytes by its path. */
  type Content = map<Path, seq<byte>>

  function LoadOne(s: Source, content: Content): Result<Zip.Entry, FolderError> {
    if s.path.None? then Ok(Zip.Entry(s.name, s.kind, []))
    else if s.path.value in content then Ok(Zip.Entry(s.name, s.kind, content[s.path.value]))
    else Err(ReadFailed)
  }

  ghost function Load(sources: seq<Source>, content: Content): Result<seq<Zip.Entry>, FolderError> {
    if sources == [] then Ok([])
    else
      var e :- LoadOne(sources[0], content);
      Prepend([e], Load(sources[1..], content))
  }

  ghost function PackSpec(sources: seq<Source>, content: Content): Result<seq<byte>, FolderError> {
    var entries :- Load(sources, content);
    match Zip.WriteSpec(entries)
    case Ok(bytes) => Ok(bytes)
    case Err(error) => Err(InArchive(error))
  }

  method LoadAll(sources: seq<Source>, content: Content) returns (r: Result<seq<Zip.Entry>, FolderError>)
    ensures r == Load(sources, content)
  {
    hide LoadOne;
    var loaded: seq<Zip.Entry> := [];
    ghost var goal := Load(sources, content);
    PrependNothing(goal);
    assert sources[0..] == sources;
    for i := 0 to |sources|
      invariant goal == Prepend(loaded, Load(sources[i..], content))
    {
      assert sources[i..][1..] == sources[i + 1..];
      var e :- LoadOne(sources[i], content);
      PrependTwice(loaded, [e], Load(sources[i + 1..], content));
      loaded := loaded + [e];
    }
    assert loaded + [] == loaded;
    r := Ok(loaded);
  }

  /** Reads the sources, writes their archive to `destination`, and returns its length. */
  method Pack(sources: seq<Source>, content: Content, disk: FileSystem, destination: Path)
    returns (r: Result<nat, FolderError>)
    modifies disk
    ensures match PackSpec(sources, content)
      case Err(error) => r == Err(error) && disk.nodes == old(disk.nodes)
      case Ok(bytes) =>
        match PutFile(old(disk.nodes), destination, bytes)
        case Err(error) => r == Err(error) && disk.nodes == old(disk.nodes)
        case Ok(after) => r == Ok(|bytes|) && disk.nodes == after
  {
    hide Load, Zip.WriteSpec, PutFile;
    var loaded :- LoadAll(sources, content);
    var bytes := Zip.Write(loaded);
    if bytes.Err? {
      return Err(InArchive(bytes.error));
    }
    var _ :- disk.Write(destination, bytes.value);
    r := Ok(|bytes.value|);
  }

  // ----- extraction -----

  function StripSlash(name: Path): Path {
    if Zip.EndsWithSlash(name) then name[..|name| - 1] else name
  }

  function TrimSlashes(name: Path): Path {
    if Zip.EndsWithSlash(name) then TrimSlashes(name[..|name| - 1]) else name
  }

  predicate StaysInside(name: Path) {
    && StripSlash(name) != []
    && BACKSLASH !in name
    && COLON !in name
    && forall part :: part in Parts(StripSlash(name)) ==> PlainPart(part)
  }

  /** One entry: what comes of it, and the folder after it. */
  ghost function ExtractOne(bytes: seq<byte>, entry: Zip.Listed, nodes: Nodes): (Result<(), FolderError>, Nodes) {
    if !StaysInside(entry.name) then (Err(LeavesFolder), nodes)
    else
      var target := TrimSlashes(entry.name);
      if Zip.EndsWithSlash(entry.name) then
        match MakeFolders(nodes, target)
        case Ok(made) => (Ok(()), made)
        case Err(error) => (Err(error), nodes)
      else
        match MakeParent(nodes, target)
        case Err(error) => (Err(error), nodes)
        case Ok(made) =>
          match Zip.DataSpec(bytes, entry)
          case Err(error) => (Err(InArchive(error)), made)
          case Ok(data) =>
            match PutFile(made, target, data)
            case Ok(after) => (Ok(()), after)
            case Err(error) => (Err(error), made)
  }

  /** The folder a file goes into; the destination itself is there already. */
  function MakeParent(nodes: Nodes, target: Path): Result<Nodes, FolderError> {
    match LastCut(target)
    case Whole => Ok(nodes)
    case Cut(above, _) => MakeFolders(nodes, above)
  }

  ghost function ExtractFrom(bytes: seq<byte>, entries: seq<Zip.Listed>, nodes: Nodes)
    : (Result<(), FolderError>, Nodes)
  {
    if entries == [] then (Ok(()), nodes)
    else
      var (r, after) := ExtractOne(bytes, entries[0], nodes);
      if r.Err? then (r, after) else ExtractFrom(bytes, entries[1..], after)
  }

  ghost function ExtractSpec(bytes: seq<byte>, nodes: Nodes): (Result<nat, FolderError>, Nodes) {
    match Zip.ListSpec(bytes)
    case Err(error) => (Err(InArchive(error)), nodes)
    case Ok(entries) =>
      match ExtractFrom(bytes, entries, nodes)
      case (Ok(_), after) => (Ok(|entries|), after)
      case (Err(error), after) => (Err(error), after)
  }

  method ExtractEntry(bytes: seq<byte>, entry: Zip.Listed, folder: FileSystem) returns (r: Result<(), FolderError>)
    modifies folder
    ensures (r, folder.nodes) == ExtractOne(bytes, entry, old(folder.nodes))
  {
    hide Zip.DataSpec, MakeFolders, StaysInside, PutFile, Closed, Clear, AddsFolders;
    if !StaysInside(entry.name) {
      return Err(LeavesFolder);
    }
    var target := TrimSlashes(entry.name);
    if Zip.EndsWithSlash(entry.name) {
      r := folder.CreateDirAll(target);
    } else {
      var parent := LastCut(target);
      if parent.Cut? {
        var _ :- folder.CreateDirAll(parent.above);
      }
      var data := Zip.Data(bytes, entry);
      if data.Err? {
        return Err(InArchive(data.error));
      }
      r := folder.Write(target, data.value);
    }
  }

  method Extract(bytes: seq<byte>, folder: FileSystem) returns (r: Result<nat, FolderError>)
    modifies folder
    ensures (r, folder.nodes) == ExtractSpec(bytes, old(folder.nodes))
  {
    hide Zip.ListSpec, ExtractOne;
    var entries := Zip.List(bytes);
    if entries.Err? {
      return Err(InArchive(entries.error));
    }
    ghost var goal := ExtractFrom(bytes, entries.value, folder.nodes);
    for i := 0 to |entries.value|
      invariant goal == ExtractFrom(bytes, entries.value[i..], folder.nodes)
    {
      assert entries.value[i..][1..] == entries.value[i + 1..];
      var _ :- ExtractEntry(bytes, entries.value[i], folder);
    }
    r := Ok(|entries.value|);
  }
}
