// Which folders packing and extracting give back: those with portable names and no folder without a file below it.

module FolderExact {
  import opened Basics
  import opened Utf8
  import opened Paths
  import opened Folder
  import opened FolderRoundTrip

  /** A folder on disk, by the paths below it, with the folders of everything in it. */
  ghost predicate IsTree(tree: Nodes) {
    Closed(tree) && forall p :: p in tree ==> ValidUtf8(p)
  }

  ghost function FilesOf(tree: Nodes): Content {
    map p | p in tree && tree[p].FileNode? :: tree[p].data
  }

  /** The walk gives every file once, and no folder. */
  ghost predicate Walked(tree: Nodes, files: seq<Path>) {
    && (forall p :: p in files <==> p in tree && tree[p].FileNode?)
    && forall i, j :: 0 <= i < j < |files| ==> files[i] != files[j]
  }

  /** `after` is the tree under the prefix, with the prefix and the folders above it, and nothing else. */
  ghost predicate HoldsTree(after: Nodes, tree: Nodes, prefix: Path) {
    && (forall p :: p in tree ==> Join(prefix, p) in after && after[Join(prefix, p)] == tree[p])
    && (forall p :: p == prefix || p in Above(prefix) ==> p in after && after[p] == FolderNode)
    && (forall q :: q in after ==> q == prefix || q in Above(prefix) || exists p :: p in tree && q == Join(prefix, p))
  }

  ghost predicate AllPortable(tree: Nodes) {
    forall p :: p in tree ==> Portable(p)
  }

  ghost predicate HasFile(tree: Nodes, p: Path) {
    exists f :: f in tree && tree[f].FileNode? && p in Above(f)
  }

  /** Every folder has a file somewhere below it. */
  ghost predicate NoneEmpty(tree: Nodes) {
    forall p :: p in tree && tree[p] == FolderNode ==> HasFile(tree, p)
  }

  // ----- the files of a tree -----

  lemma FilesAreContent(tree: Nodes)
    requires IsTree(tree) && AllPortable(tree)
    ensures IsContent(FilesOf(tree))
  {
    hide Portable, ValidUtf8, Above;
    forall f, g | f in FilesOf(tree) && g in FilesOf(tree) ensures f !in Above(g) {
      ClosedAbove(tree, g);
    }
  }

  lemma BelowPrefix(content: Content, prefix: Path, p: Path)
    ensures IsImageFolder(Join(prefix, p), content, prefix) <==> exists f :: f in content && p in Above(f)
  {
    hide Above;
    var q := Join(prefix, p);
    if q in Above(prefix) {
      AboveIsShorter(prefix, q);
    }
    forall f | f in content ensures q in Above(Join(prefix, f)) <==> p in Above(f) {
      AboveJoined(prefix, f, q);
      if q in Above(Join(prefix, f)) {
        NotAbovePrefix(prefix, p);
        var b :| b in Above(f) && q == Join(prefix, b);
        JoinsAgree(prefix, p, b);
      }
    }
  }

  lemma NotAbovePrefix(prefix: Path, p: Path)
    ensures Join(prefix, p) != prefix && Join(prefix, p) !in Above(prefix)
  {
    hide Above;
    if Join(prefix, p) in Above(prefix) {
      AboveIsShorter(prefix, Join(prefix, p));
    }
  }

  lemma FileBelowPrefix(content: Content, prefix: Path, p: Path)
    ensures IsImageFile(Join(prefix, p), content, prefix) <==> p in content
  {
    assert Join(prefix, p)[|prefix| + 1..] == p;
  }

  // ----- the image is the tree -----

  lemma ImageHoldsTree(after: Nodes, tree: Nodes, prefix: Path)
    requires Closed(tree) && NoneEmpty(tree) && IsImage(after, FilesOf(tree), prefix)
    ensures HoldsTree(after, tree, prefix)
  {
    hide Closed, Above, Join, IsImageFile, IsImageFolder;
    var content := FilesOf(tree);
    forall p | p in tree ensures Join(prefix, p) in after && after[Join(prefix, p)] == tree[p] {
      BelowPrefix(content, prefix, p);
      if tree[p].FolderNode? {
        assert HasFile(tree, p);
        var f :| f in tree && tree[f].FileNode? && p in Above(f);
        assert f in content;
        assert IsImageFolder(Join(prefix, p), content, prefix);
      } else {
        assert p in content;
      }
    }
    forall p | p == prefix || p in Above(prefix) ensures p in after && after[p] == FolderNode {
      PrefixInImage(content, prefix, p);
    }
    forall q | q in after && q != prefix && q !in Above(prefix) ensures exists p :: p in tree && q == Join(prefix, p) {
      ImageIsBelow(tree, prefix, q);
    }
  }

  lemma PrefixInImage(content: Content, prefix: Path, p: Path)
    requires p == prefix || p in Above(prefix)
    ensures IsImageFolder(p, content, prefix)
  {
  }

  lemma ImageIsBelow(tree: Nodes, prefix: Path, q: Path)
    requires Closed(tree) && q != prefix && q !in Above(prefix)
    requires IsImageFolder(q, FilesOf(tree), prefix) || IsImageFile(q, FilesOf(tree), prefix)
    ensures exists p :: p in tree && q == Join(prefix, p)
  {
    hide Closed, Above;
    if IsImageFile(q, FilesOf(tree), prefix) {
      FileIsJoined(FilesOf(tree), prefix, q);
    } else {
      var f :| f in FilesOf(tree) && q in Above(Join(prefix, f));
      AboveJoined(prefix, f, q);
      var b :| b in Above(f) && q == Join(prefix, b);
      ClosedAbove(tree, f);
    }
  }

  lemma TreeLeavesNoneEmpty(after: Nodes, tree: Nodes, prefix: Path)
    requires HoldsTree(after, tree, prefix) && IsImage(after, FilesOf(tree), prefix)
    ensures NoneEmpty(tree)
  {
    hide Above, Join, IsImageFile, IsImageFolder;
    var content := FilesOf(tree);
    forall p | p in tree && tree[p] == FolderNode ensures HasFile(tree, p) {
      FileBelowPrefix(content, prefix, p);
      BelowPrefix(content, prefix, p);
    }
  }

  // ----- names -----

  lemma {:induction false} JoinedIsPortable(prefix: Path, p: Path)
    requires Portable(Join(prefix, p))
    ensures Portable(p)
  {
    hide PlainPart;
    JoinParts(prefix, p);
    forall part | part in Parts(p) ensures PlainPart(part) {
      assert part in Parts(Join(prefix, p));
    }
  }

  lemma GivenBackIsPortable(archive: seq<byte>, tree: Nodes, prefix: Path)
    requires HoldsTree(ExtractSpec(archive, map[]).1, tree, prefix)
    ensures AllPortable(tree)
  {
    hide Portable, ExtractSpec, Above, Join;
    ExtractionStaysInside(archive, map[]);
    forall p | p in tree ensures Portable(p) {
      JoinedIsPortable(prefix, p);
    }
  }

  // ----- the whole way -----

  /** Packing a tree and extracting the archive gives the tree back if and only if its names are portable and every
      folder has a file below it. */
  lemma GivenBackExact(tree: Nodes, files: seq<Path>, prefix: Path, executable: seq<Path>, archive: seq<byte>)
    requires IsTree(tree) && Walked(tree, files) && Portable(prefix) && ValidUtf8(prefix)
    requires PackSpec(TreeSpec(files, prefix, executable), FilesOf(tree)) == Ok(archive)
    ensures HoldsTree(ExtractSpec(archive, map[]).1, tree, prefix) <==> AllPortable(tree) && NoneEmpty(tree)
    ensures AllPortable(tree) && NoneEmpty(tree) ==>
      ExtractSpec(archive, map[]).0 == Ok(|TreeSpec(files, prefix, executable)|)
  {
    hide Portable, ValidUtf8, Closed, PackSpec, TreeSpec, ExtractSpec, HoldsTree, NoneEmpty, IsImage, IsContent;
    var after := ExtractSpec(archive, map[]).1;
    if HoldsTree(after, tree, prefix) {
      GivenBackIsPortable(archive, tree, prefix);
    }
    if AllPortable(tree) {
      FilesAreContent(tree);
      PackedThenExtracted(files, FilesOf(tree), prefix, executable, archive);
      if NoneEmpty(tree) {
        ImageHoldsTree(after, tree, prefix);
      }
      if HoldsTree(after, tree, prefix) {
        TreeLeavesNoneEmpty(after, tree, prefix);
      }
    }
  }

  /** An empty folder is lost. */
  lemma EmptyFolderIsLost(prefix: Path, executable: seq<Path>, archive: seq<byte>)
    requires Portable(prefix) && ValidUtf8(prefix)
    requires PackSpec(TreeSpec([], prefix, executable), map[]) == Ok(archive)
    ensures !HoldsTree(ExtractSpec(archive, map[]).1, map[[0x61] := FolderNode], prefix)
  {
    hide PackSpec, TreeSpec, ExtractSpec, HoldsTree, Portable;
    var tree := map[[0x61] := FolderNode];
    assert FilesOf(tree) == map[];
    ValidAscii(0x61);
    assert tree[[0x61]] == FolderNode && !HasFile(tree, [0x61]);
    GivenBackExact(tree, [], prefix, executable, archive);
  }
}
