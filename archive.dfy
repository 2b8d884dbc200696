/** `zip_folder`: the archive sent back to the user. The folder is walked
    directory by directory; every file whose name, lower-cased, ends in
    ".png" is added under its bare file name, in walking order. The walk
    itself is a parameter: the directories in the order `os.walk` yields
    them, each with the names of the files directly inside it. */
module Archive {
  import opened Text
  import opened Names

  /** One step of `os.walk`: a directory path and the names of its files. */
  datatype WalkDir = WalkDir(root: string, files: seq<string>)

  /** One archive member: the name stored in the archive and the path of
      the file it was read from. */
  datatype Entry = Entry(arcname: string, source: string)

  /** `file.lower().endswith('.png')`. */
  predicate IsPngName(f: string) {
    EndsWith(Lower(f), ".png")
  }

  /** A name ending in ".png" as written passes the case-blind test. */
  lemma PngSuffixIsPngName(f: string)
    requires EndsWith(f, ".png")
    ensures IsPngName(f)
  {
    LowerKeepsSuffix(f, ".png");
    var l := Lower(".png");
    assert |l| == 4 && l[0] == '.' && l[1] == 'p' && l[2] == 'n' && l[3] == 'g';
    assert l == ".png";
  }

  /** The member added for file `f` of directory `root`. */
  function EntryFor(root: string, f: string): Entry {
    Entry(f, JoinPath(root, f))
  }

  /** The members added for the files of one directory, in listing order. */
  function DirEntries(root: string, files: seq<string>): (es: seq<Entry>)
    ensures |es| <= |files|
  {
    if files == [] then []
    else
      var f := files[|files| - 1];
      DirEntries(root, files[..|files| - 1]) + (if IsPngName(f) then [EntryFor(root, f)] else [])
  }

  /** The members of the whole archive, directory after directory. */
  function ArchiveEntries(walk: seq<WalkDir>): seq<Entry> {
    if walk == [] then []
    else
      var d := walk[|walk| - 1];
      ArchiveEntries(walk[..|walk| - 1]) + DirEntries(d.root, d.files)
  }

  /** `zip_folder(folder_path, zip_path)` over the walk of `folder_path`:
      the members written to the archive, in order. */
  method ZipFolder(walk: seq<WalkDir>) returns (entries: seq<Entry>)
    ensures entries == ArchiveEntries(walk)
  {
    entries := [];
    var d := 0;
    while d < |walk|
      invariant 0 <= d <= |walk|
      invariant entries == ArchiveEntries(walk[..d])
    {
      var root, files := walk[d].root, walk[d].files;
      ghost var before := entries;
      var k := 0;
      while k < |files|
        invariant 0 <= k <= |files|
        invariant entries == before + DirEntries(root, files[..k])
      {
        var file := files[k];
        assert files[..k + 1][..k] == files[..k];
        if IsPngName(file) {
          entries := entries + [Entry(file, JoinPath(root, file))];
        }
        k := k + 1;
      }
      assert files[..k] == files;
      assert walk[..d + 1][..d] == walk[..d];
      d := d + 1;
    }
    assert walk[..d] == walk;
  }

  // ---------------------------------------------------------------------
  // Properties of the archive
  // ---------------------------------------------------------------------

  /** Where a member added for a directory comes from: one of its `.png`
      files. */
  lemma {:induction false} DirEntrySource(root: string, files: seq<string>, e: Entry) returns (k: nat)
    requires e in DirEntries(root, files)
    ensures k < |files| && IsPngName(files[k]) && e == EntryFor(root, files[k])
    decreases |files|
  {
    assert files != [];
    var init := files[..|files| - 1];
    if e in DirEntries(root, init) {
      k := DirEntrySource(root, init, e);
      assert files[k] == init[k];
    } else {
      k := |files| - 1;
    }
  }

  /** Every `.png` file of a directory is added for it. */
  lemma {:induction false} DirEntryComplete(root: string, files: seq<string>, k: nat)
    requires k < |files| && IsPngName(files[k])
    ensures EntryFor(root, files[k]) in DirEntries(root, files)
    decreases |files|
  {
    var init := files[..|files| - 1];
    if k < |init| {
      assert init[k] == files[k];
      DirEntryComplete(root, init, k);
    }
  }

  /** A directory contributes exactly its `.png` files. */
  lemma DirEntriesMembers(root: string, files: seq<string>, e: Entry)
    ensures e in DirEntries(root, files) <==>
            exists k :: 0 <= k < |files| && IsPngName(files[k]) && e == EntryFor(root, files[k])
  {
    if e in DirEntries(root, files) {
      var k := DirEntrySource(root, files, e);
    }
    if exists k :: 0 <= k < |files| && IsPngName(files[k]) && e == EntryFor(root, files[k]) {
      var k :| 0 <= k < |files| && IsPngName(files[k]) && e == EntryFor(root, files[k]);
      DirEntryComplete(root, files, k);
    }
  }

  /** Where a member of the archive comes from: a `.png` file of some
      directory of the walk. */
  lemma {:induction false} ArchiveEntrySource(walk: seq<WalkDir>, e: Entry) returns (i: nat, k: nat)
    requires e in ArchiveEntries(walk)
    ensures i < |walk| && k < |walk[i].files|
    ensures IsPngName(walk[i].files[k]) && e == EntryFor(walk[i].root, walk[i].files[k])
    decreases |walk|
  {
    assert walk != [];
    var init := walk[..|walk| - 1];
    if e in ArchiveEntries(init) {
      i, k := ArchiveEntrySource(init, e);
      assert walk[i] == init[i];
    } else {
      i := |walk| - 1;
      k := DirEntrySource(walk[i].root, walk[i].files, e);
    }
  }

  /** Every `.png` file of every directory of the walk is archived. */
  lemma {:induction false} ArchiveEntryComplete(walk: seq<WalkDir>, i: nat, k: nat)
    requires i < |walk| && k < |walk[i].files| && IsPngName(walk[i].files[k])
    ensures EntryFor(walk[i].root, walk[i].files[k]) in ArchiveEntries(walk)
    decreases |walk|
  {
    var init := walk[..|walk| - 1];
    if i < |init| {
      assert init[i] == walk[i];
      ArchiveEntryComplete(init, i, k);
    } else {
      DirEntryComplete(walk[i].root, walk[i].files, k);
    }
  }

  /** The archive holds exactly the `.png` files of the walk, each under its
      file name and read from its path inside its directory. */
  lemma ArchiveMembers(walk: seq<WalkDir>, e: Entry)
    ensures e in ArchiveEntries(walk) <==>
            exists i, k :: 0 <= i < |walk| && 0 <= k < |walk[i].files| &&
                           IsPngName(walk[i].files[k]) && e == EntryFor(walk[i].root, walk[i].files[k])
  {
    if e in ArchiveEntries(walk) {
      var i, k := ArchiveEntrySource(walk, e);
    }
    if exists i, k :: 0 <= i < |walk| && 0 <= k < |walk[i].files| &&
                      IsPngName(walk[i].files[k]) && e == EntryFor(walk[i].root, walk[i].files[k]) {
      var i, k :| 0 <= i < |walk| && 0 <= k < |walk[i].files| &&
                  IsPngName(walk[i].files[k]) && e == EntryFor(walk[i].root, walk[i].files[k]);
      ArchiveEntryComplete(walk, i, k);
    }
  }

  /** File names as a directory listing gives them: non-empty, without '/'. */
  predicate ListedNames(walk: seq<WalkDir>) {
    forall i, k :: 0 <= i < |walk| && 0 <= k < |walk[i].files| ==>
      walk[i].files[k] != [] && '/' !in walk[i].files[k]
  }

  /** Every member is stored under the base name of the path it was read
      from, and that name ends in ".png" in some mix of cases. */
  lemma ArcnameIsBaseName(walk: seq<WalkDir>, e: Entry)
    requires ListedNames(walk) && e in ArchiveEntries(walk)
    ensures e.arcname == BaseName(e.source) && IsPngName(e.arcname)
  {
    var i, k := ArchiveEntrySource(walk, e);
    BaseNameOfJoin(walk[i].root, walk[i].files[k]);
  }

  /** The filter ignores case: a name and its lower-cased form are kept or
      dropped together. */
  lemma PngFilterIgnoresCase(f: string)
    ensures IsPngName(Lower(f)) <==> IsPngName(f)
  {
    LowerIdempotent(f);
  }

  /** A walk of a single directory archives that directory's members. */
  lemma SingleDirectory(d: WalkDir)
    ensures ArchiveEntries([d]) == DirEntries(d.root, d.files)
  {
    assert [d][..0] == [];
  }

  /** A directory whose files all end in ".png" is archived whole, one
      member per file, in listing order. */
  lemma {:induction false} AllPngArchivedInOrder(root: string, files: seq<string>)
    requires forall k :: 0 <= k < |files| ==> IsPngName(files[k])
    ensures |DirEntries(root, files)| == |files|
    ensures forall k :: 0 <= k < |files| ==> DirEntries(root, files)[k] == EntryFor(root, files[k])
  {
    if files != [] {
      var init := files[..|files| - 1];
      AllPngArchivedInOrder(root, init);
    }
  }
}
