// The order of a folder's listing: sorted for every tree, and strictly for exactly those whose names stay apart.

module FolderOrder {
  import opened Basics
  import opened Paths
  import opened Folder
  import opened Sorting

  // ----- how often a source is listed -----

  lemma {:induction false} OnceEach<T>(s: seq<T>, x: T)
    requires forall i, j :: 0 <= i < j < |s| ==> s[i] != s[j]
    ensures multiset(s)[x] <= 1
    decreases |s|
  {
    if s != [] {
      OnceEach(s[1..], x);
      assert s == [s[0]] + s[1..];
      if s[0] == x {
        assert x !in s[1..];
      }
    }
  }

  lemma TwiceCounts<T>(s: seq<T>, i: nat, j: nat)
    requires i < j < |s| && s[i] == s[j]
    ensures multiset(s)[s[i]] >= 2
  {
    assert s == s[..j] + s[j..];
    assert s[..j][i] == s[i] && s[j..][0] == s[j];
    assert s[i] in s[..j] && s[i] in s[j..];
  }

  /** A file is listed as often as it is given. */
  lemma ListedAsGiven(files: seq<Path>, prefix: Path, executable: seq<Path>, s: Source)
    requires s.path.Some?
    ensures multiset(TreeSpec(files, prefix, executable))[s] == multiset(FileSources(files, prefix, executable))[s]
  {
    hide TreeSpec, IsFolder, Ordered, Increasing;
    TreeContents(files, prefix, executable);
    var folders :| multiset(TreeSpec(files, prefix, executable)) ==
      multiset(FileSources(files, prefix, executable)) + multiset(FolderSources(folders));
    assert s in multiset(FolderSources(folders)) <==> s in FolderSources(folders);
  }

  /** A folder is listed once at most. */
  lemma FolderListedOnce(files: seq<Path>, prefix: Path, executable: seq<Path>, s: Source)
    requires s.path.None?
    ensures multiset(TreeSpec(files, prefix, executable))[s] <= 1
  {
    hide TreeSpec, IsFolder, Ordered, Less;
    TreeContents(files, prefix, executable);
    var folders :| Increasing(folders) && multiset(TreeSpec(files, prefix, executable)) ==
      multiset(FileSources(files, prefix, executable)) + multiset(FolderSources(folders));
    var plain, listed := FileSources(files, prefix, executable), FolderSources(folders);
    forall i, j | 0 <= i < j < |folders| ensures listed[i] != listed[j] {
      LessIsStrict(folders[i]);
    }
    OnceEach(listed, s);
    assert s in multiset(plain) <==> s in plain;
  }

  // ----- names that stay apart -----

  /** The name is not empty and ends in no slash of either kind, so no folder's name is the same. */
  ghost predicate Plain(f: Path) {
    f != [] && f[|f| - 1] != SLASH && f[|f| - 1] != BACKSLASH
  }

  /** No two files come to one name, and none to a folder's. */
  ghost predicate NamesApart(files: seq<Path>) {
    && (forall i, j :: 0 <= i < j < |files| ==> Slashed(files[i]) != Slashed(files[j]))
    && forall i :: 0 <= i < |files| ==> Plain(files[i])
  }

  ghost predicate StrictlySorted(entries: seq<Source>) {
    forall i, j :: 0 <= i < j < |entries| ==> Less(entries[i].name, entries[j].name)
  }

  lemma FolderNamesEnd(name: Path, files: seq<Path>, prefix: Path)
    requires IsFolder(name, files, prefix)
    ensures name != [] && name[|name| - 1] == SLASH
  {
    hide Above, Slashed;
  }

  lemma FileNameIsFolder(files: seq<Path>, prefix: Path, f: Path)
    requires f in files
    ensures IsFolder(Join(prefix, Slashed(f)), files, prefix) <==> !Plain(f)
  {
    hide IsFolder, FolderNames;
    var r := Slashed(f);
    var name := Join(prefix, r);
    if IsFolder(name, files, prefix) {
      FolderNamesEnd(name, files, prefix);
      assert f != [] ==> name[|name| - 1] == r[|r| - 1];
    } else if f == [] {
      assert name == prefix + [SLASH];
      PrefixIsFolder(files, prefix);
    } else if !Plain(f) {
      var above := r[..|r| - 1];
      assert r == above + [SLASH] + [];
      CutIsUnique(r, above, []);
      assert Above(r)[0] == above;
      assert name == FolderName(prefix, above);
      AboveIsFolder(files, prefix, f, 0);
    }
  }

  lemma PrefixIsFolder(files: seq<Path>, prefix: Path)
    ensures IsFolder(prefix + [SLASH], files, prefix)
  {
  }

  lemma AboveIsFolder(files: seq<Path>, prefix: Path, f: Path, i: nat)
    requires f in files && i < |Above(Slashed(f))|
    ensures IsFolder(FolderName(prefix, Above(Slashed(f))[i]), files, prefix)
  {
    hide Above, Slashed, FolderName;
    assert FolderNames(prefix, Above(Slashed(f)))[i] == FolderName(prefix, Above(Slashed(f))[i]);
  }

  // ----- the order -----

  lemma SlashedDecides(files: seq<Path>, f: Path, g: Path)
    requires NamesApart(files) && f in files && g in files && Slashed(f) == Slashed(g)
    ensures f == g
  {
    hide Slashed, Plain;
  }

  /** With the names apart, a name stands for one source only. */
  lemma NameDecides(files: seq<Path>, prefix: Path, executable: seq<Path>, s: Source, t: Source)
    requires NamesApart(files)
    requires s in TreeSpec(files, prefix, executable) && t in TreeSpec(files, prefix, executable) && s.name == t.name
    ensures s == t
  {
    hide TreeSpec, IsFolder, Slashed, Plain, NamesApart, Join, KindOf;
    FileOrFolder(files, prefix, executable, s);
    FileOrFolder(files, prefix, executable, t);
    if s.path.Some? && t.path.Some? {
      JoinsAgree(prefix, Slashed(s.path.value), Slashed(t.path.value));
      SlashedDecides(files, s.path.value, t.path.value);
    }
  }

  lemma FileOrFolder(files: seq<Path>, prefix: Path, executable: seq<Path>, s: Source)
    requires NamesApart(files) && s in TreeSpec(files, prefix, executable)
    ensures if s.path.Some? then s.path.value in files && s == FileSource(s.path.value, prefix, executable)
            else s == FolderSource(s.name)
    ensures IsFolder(s.name, files, prefix) <==> s.path.None?
  {
    hide TreeSpec, IsFolder, Slashed, Plain, Join, KindOf;
    TreeMembers(files, prefix, executable, s);
    if s.path.Some? {
      FileNameIsFolder(files, prefix, s.path.value);
    }
  }

  lemma FileIsListed(files: seq<Path>, prefix: Path, executable: seq<Path>, i: nat)
    requires i < |files|
    ensures FileSource(files[i], prefix, executable) in TreeSpec(files, prefix, executable)
  {
    hide TreeSpec, IsFolder, FileSource;
    TreeMembers(files, prefix, executable, FileSource(files[i], prefix, executable));
  }

  lemma ListedOnce(files: seq<Path>, prefix: Path, executable: seq<Path>, s: Source)
    requires NamesApart(files)
    ensures multiset(TreeSpec(files, prefix, executable))[s] <= 1
  {
    hide TreeSpec, Plain, Slashed;
    if s.path.Some? {
      ListedAsGiven(files, prefix, executable, s);
      OnceEach(FileSources(files, prefix, executable), s);
    } else {
      FolderListedOnce(files, prefix, executable, s);
    }
  }

  lemma ApartIsSorted(files: seq<Path>, prefix: Path, executable: seq<Path>)
    requires NamesApart(files)
    ensures StrictlySorted(TreeSpec(files, prefix, executable))
  {
    hide TreeSpec, Less, IsFolder, NamesApart;
    var entries := TreeSpec(files, prefix, executable);
    TreeContents(files, prefix, executable);
    forall i: nat, j: nat | i < j < |entries| ensures Less(entries[i].name, entries[j].name) {
      assert NamesAtMost(entries[i], entries[j]);
      if entries[i].name == entries[j].name {
        NameDecides(files, prefix, executable, entries[i], entries[j]);
        TwiceCounts(entries, i, j);
        ListedOnce(files, prefix, executable, entries[i]);
      }
    }
  }

  /** In a strictly sorted listing a name is listed once. */
  lemma SortedNamesDecide(entries: seq<Source>, s: Source, t: Source)
    requires StrictlySorted(entries) && s in entries && t in entries && s.name == t.name
    ensures s == t && multiset(entries)[s] <= 1
  {
    hide Less;
    LessIsStrict(s.name);
    OnceEach(entries, s) by {
      forall i, j | 0 <= i < j < |entries| ensures entries[i] != entries[j] {
        LessIsStrict(entries[i].name);
      }
    }
  }

  lemma SortedIsApart(files: seq<Path>, prefix: Path, executable: seq<Path>)
    requires StrictlySorted(TreeSpec(files, prefix, executable))
    ensures NamesApart(files)
  {
    hide TreeSpec, StrictlySorted, IsFolder, Slashed, Plain, KindOf;
    var entries := TreeSpec(files, prefix, executable);
    forall i: nat | i < |files| ensures Plain(files[i]) {
      var s := FileSource(files[i], prefix, executable);
      FileNameIsFolder(files, prefix, files[i]);
      FileIsListed(files, prefix, executable, i);
      TreeMembers(files, prefix, executable, FolderSource(s.name));
      if !Plain(files[i]) {
        SortedNamesDecide(entries, s, FolderSource(s.name));
      }
    }
    forall i: nat, j: nat | i < j < |files| ensures Slashed(files[i]) != Slashed(files[j]) {
      if Slashed(files[i]) == Slashed(files[j]) {
        var s, t := FileSource(files[i], prefix, executable), FileSource(files[j], prefix, executable);
        FileIsListed(files, prefix, executable, i);
        FileIsListed(files, prefix, executable, j);
        SortedNamesDecide(entries, s, t);
        TwiceCounts(FileSources(files, prefix, executable), i, j);
        ListedAsGiven(files, prefix, executable, s);
      }
    }
  }

  /** Every name is listed once, in strictly increasing byte order, exactly when the files' names stay apart. */
  lemma TreeIsIncreasing(files: seq<Path>, prefix: Path, executable: seq<Path>)
    ensures StrictlySorted(TreeSpec(files, prefix, executable)) <==> NamesApart(files)
  {
    hide TreeSpec, StrictlySorted, NamesApart;
    if NamesApart(files) {
      ApartIsSorted(files, prefix, executable);
    }
    if StrictlySorted(TreeSpec(files, prefix, executable)) {
      SortedIsApart(files, prefix, executable);
    }
  }

  /** Different portable files are apart. */
  lemma PortableIsApart(files: seq<Path>)
    requires forall f :: f in files ==> Portable(f)
    requires forall i, j :: 0 <= i < j < |files| ==> files[i] != files[j]
    ensures NamesApart(files)
  {
    hide Portable;
    forall i: nat | i < |files| ensures Slashed(files[i]) == files[i] && Plain(files[i]) {
      PortableIsPlain(files[i]);
    }
  }

  lemma PortableIsPlain(f: Path)
    requires Portable(f)
    ensures Slashed(f) == f && Plain(f)
  {
    PortableEnds(f);
  }

  // ----- names that do not -----

  const BACKSLASHED: Path := [0x61, BACKSLASH, 0x62]
  const IN_FOLDER: Path := [0x61, SLASH, 0x62]

  /** A file called `a\b` beside a file `b` in a folder `a`: two files, listed under one name. */
  lemma TwoFilesOneName(prefix: Path, executable: seq<Path>)
    ensures var files := [BACKSLASHED, IN_FOLDER]; var entries := TreeSpec(files, prefix, executable);
      var s, t := FileSource(BACKSLASHED, prefix, executable), FileSource(IN_FOLDER, prefix, executable);
      && s in entries && t in entries && s != t && s.name == t.name
      && !StrictlySorted(entries)
  {
    hide TreeSpec, StrictlySorted, Plain, KindOf, Join;
    var files := [BACKSLASHED, IN_FOLDER];
    assert Slashed(BACKSLASHED) == IN_FOLDER == Slashed(IN_FOLDER);
    FileIsListed(files, prefix, executable, 0);
    FileIsListed(files, prefix, executable, 1);
    assert Slashed(files[0]) == Slashed(files[1]);
    TreeIsIncreasing(files, prefix, executable);
  }

  // ----- folders first -----

  /** Whatever the files, a name is listed before every name it is a proper front of: a folder before all it holds. */
  lemma FoldersComeFirst(files: seq<Path>, prefix: Path, executable: seq<Path>, i: nat, j: nat)
    requires var entries := TreeSpec(files, prefix, executable);
      i < |entries| && j < |entries| && entries[i].name < entries[j].name
    ensures i < j
  {
    hide TreeSpec, Less, IsFolder;
    var entries := TreeSpec(files, prefix, executable);
    var a, b := entries[i].name, entries[j].name;
    TreeContents(files, prefix, executable);
    FrontIsLess(a, b[|a|..]);
    assert a + b[|a|..] == b;
    LessIsStrict(a);
    if j < i {
      assert NamesAtMost(entries[j], entries[i]);
      LessTransitive(a, b, a);
    }
  }
}
