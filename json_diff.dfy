/** `compare_json_files` of lib/json_diff/json_diff.c: the two-pass
    reconciliation of two manifests by md5.

    Pass 1 indexes file 2 and walks file 1: every valid item becomes a "same"
    record (paired with the path of the newest file-2 item of that md5) or an
    `only_in_file1` record. Pass 2 indexes file 1 and walks file 2: a valid item
    whose md5 is absent from file 1 becomes an `only_in_file2` record. An item is
    valid when both its `path` and its `md5` members are strings.

    The parsed JSON arrives as values (`ManifestDoc`); `Matched`, `OnlyInFirst`
    and `OnlyInSecond` specify the three outputs over the valid (md5, path)
    entries of the two files, and the lemmas below state what they mean. */
module JsonDiff {
  import opened CTypes
  import opened Manifest
  import opened HashIndex

  /** One element of a manifest's `files` array. */
  datatype FileItem = FileItem(path: Field, md5: Field)

  /** The `files` member of a document. */
  datatype FilesMember = Missing | NotArray | Array(items: seq<FileItem>)

  /** A manifest document as `load_json_file` returns it. */
  datatype ManifestDoc = ManifestDoc(files: FilesMember)

  datatype Status = OnlyInFile1 | OnlyInFile2

  /** An element of the same-output's `files` array. */
  datatype SameRecord = SameRecord(md5: CStr, file1Path: CStr, file2Path: CStr)

  /** An element of the diff-output's `files` array. */
  datatype DiffRecord = DiffRecord(md5: CStr, file1Path: CStr, file2Path: CStr, status: Status)

  /** What a successful comparison writes: both arrays and both totals. */
  datatype Comparison = Comparison(
    diffFiles: seq<DiffRecord>, sameFiles: seq<SameRecord>, diffCount: int, sameCount: int)

  /** An item takes part in a comparison when both its `path` and its `md5`
      members are present and both are strings; a missing member or one of
      another JSON type makes the item skipped. */
  predicate IsValidItem(item: FileItem) {
    item.path.Text? && item.md5.Text?
  }

  /** The (md5, path) entries of the valid items, in array order: at most one
      per item. */
  function ValidEntries(items: seq<FileItem>): (r: seq<FileEntry>)
    ensures |r| <= |items|
  {
    if items == [] then []
    else
      var item := items[|items| - 1];
      ValidEntries(items[..|items| - 1])
        + (if IsValidItem(item) then [FileEntry(item.md5.s, item.path.s)] else [])
  }

  /** The "same" records of pass 1 for manifests `m1` and `m2`. */
  function Matched(m1: seq<FileEntry>, m2: seq<FileEntry>): seq<SameRecord> {
    if m1 == [] then []
    else
      var e := m1[|m1| - 1];
      Matched(m1[..|m1| - 1], m2)
        + (if Lookup(m2, e.md5).Some? then [SameRecord(e.md5, e.path, Lookup(m2, e.md5).value)] else [])
  }

  /** The `only_in_file1` records of pass 1. */
  function OnlyInFirst(m1: seq<FileEntry>, m2: seq<FileEntry>): seq<DiffRecord> {
    if m1 == [] then []
    else
      var e := m1[|m1| - 1];
      OnlyInFirst(m1[..|m1| - 1], m2)
        + (if Lookup(m2, e.md5).None? then [DiffRecord(e.md5, e.path, [], OnlyInFile1)] else [])
  }

  /** The `only_in_file2` records of pass 2. */
  function OnlyInSecond(m1: seq<FileEntry>, m2: seq<FileEntry>): seq<DiffRecord> {
    if m2 == [] then []
    else
      var e := m2[|m2| - 1];
      OnlyInSecond(m1, m2[..|m2| - 1])
        + (if Lookup(m1, e.md5).None? then [DiffRecord(e.md5, [], e.path, OnlyInFile2)] else [])
  }

  /** The md5 column of a list of diff records. */
  function Digests(rs: seq<DiffRecord>): (ds: seq<CStr>)
    ensures |ds| == |rs|
    ensures forall k :: 0 <= k < |rs| ==> ds[k] == rs[k].md5
  {
    if rs == [] then [] else Digests(rs[..|rs| - 1]) + [rs[|rs| - 1].md5]
  }

  lemma ValidEntriesSnoc(items: seq<FileItem>, i: int)
    requires 0 <= i < |items|
    ensures ValidEntries(items[..i + 1]) == ValidEntries(items[..i])
      + (if IsValidItem(items[i]) then [FileEntry(items[i].md5.s, items[i].path.s)] else [])
  {
    assert items[..i + 1][..i] == items[..i];
  }

  lemma SpecSnoc(m1: seq<FileEntry>, m2: seq<FileEntry>, e: FileEntry)
    ensures Matched(m1 + [e], m2) == Matched(m1, m2)
      + (if Lookup(m2, e.md5).Some? then [SameRecord(e.md5, e.path, Lookup(m2, e.md5).value)] else [])
    ensures OnlyInFirst(m1 + [e], m2) == OnlyInFirst(m1, m2)
      + (if Lookup(m2, e.md5).None? then [DiffRecord(e.md5, e.path, [], OnlyInFile1)] else [])
    ensures OnlyInSecond(m2, m1 + [e]) == OnlyInSecond(m2, m1)
      + (if Lookup(m2, e.md5).None? then [DiffRecord(e.md5, [], e.path, OnlyInFile2)] else [])
  {
    assert (m1 + [e])[..|m1|] == m1;
  }

  /** The "Populate hash map" loops: every valid item inserted, in array order. */
  method IndexFiles(items: seq<FileItem>) returns (index: HashMap)
    ensures fresh(index.buckets)
    ensures index.Valid() && index.Log == ValidEntries(items)
  {
    index := new HashMap(HASH_MAP_SIZE);
    var i := 0;
    while i < |items|
      invariant 0 <= i <= |items|
      invariant fresh(index.buckets)
      invariant index.Valid() && index.Log == ValidEntries(items[..i])
    {
      ValidEntriesSnoc(items, i);
      var item := items[i];
      if item.path.Text? && item.md5.Text? {
        var _ := Insert(index, Some(item.md5.s), Some(item.path.s));
      }
      i := i + 1;
    }
    assert items[..i] == items;
  }

  /** One entry for every item when all are valid, none when none is. */
  lemma {:induction false} ValidEntriesCount(items: seq<FileItem>)
    ensures (forall j :: 0 <= j < |items| ==> IsValidItem(items[j])) ==> |ValidEntries(items)| == |items|
    ensures (forall j :: 0 <= j < |items| ==> !IsValidItem(items[j])) ==> ValidEntries(items) == []
  {
    if items != [] {
      ValidEntriesCount(items[..|items| - 1]);
    }
  }

  /** Pass 1: each valid file-1 item looked up in the index of file 2. */
  method MatchFirst(items1: seq<FileItem>, map2: HashMap)
    returns (sameFiles: seq<SameRecord>, diffFiles: seq<DiffRecord>, sameCount: int, diffCount: int)
    requires map2.Valid()
    ensures sameFiles == Matched(ValidEntries(items1), map2.Log)
    ensures diffFiles == OnlyInFirst(ValidEntries(items1), map2.Log)
    ensures sameCount == |sameFiles| && diffCount == |diffFiles|
  {
    sameFiles, diffFiles := [], [];
    sameCount, diffCount := 0, 0;
    var i := 0;
    while i < |items1|
      invariant 0 <= i <= |items1|
      invariant sameFiles == Matched(ValidEntries(items1[..i]), map2.Log)
      invariant diffFiles == OnlyInFirst(ValidEntries(items1[..i]), map2.Log)
      invariant sameCount == |sameFiles| && diffCount == |diffFiles|
    {
      ValidEntriesSnoc(items1, i);
      var item := items1[i];
      if item.path.Text? && item.md5.Text? {
        var path1 := item.path.s;
        var md5 := item.md5.s;
        SpecSnoc(ValidEntries(items1[..i]), map2.Log, FileEntry(md5, path1));
        var found := Find(map2, Some(md5));
        if found != null {
          sameFiles := sameFiles + [SameRecord(md5, path1, found.path)];
          sameCount := sameCount + 1;
        } else {
          diffFiles := diffFiles + [DiffRecord(md5, path1, [], OnlyInFile1)];
          diffCount := diffCount + 1;
        }
      } else {
        assert ValidEntries(items1[..i + 1]) == ValidEntries(items1[..i]);
      }
      i := i + 1;
    }
    assert items1[..i] == items1;
  }

  /** Pass 2: each valid file-2 item looked up in the index of file 1; the
      records are appended after `diffFiles` and counted on `diffCount`. */
  method MatchSecond(items2: seq<FileItem>, map1: HashMap, diffFiles0: seq<DiffRecord>, diffCount0: int)
    returns (diffFiles: seq<DiffRecord>, diffCount: int)
    requires map1.Valid()
    ensures diffFiles == diffFiles0 + OnlyInSecond(map1.Log, ValidEntries(items2))
    ensures diffCount == diffCount0 + |OnlyInSecond(map1.Log, ValidEntries(items2))|
  {
    diffFiles, diffCount := diffFiles0, diffCount0;
    var i := 0;
    while i < |items2|
      invariant 0 <= i <= |items2|
      invariant diffFiles == diffFiles0 + OnlyInSecond(map1.Log, ValidEntries(items2[..i]))
      invariant diffCount == diffCount0 + |OnlyInSecond(map1.Log, ValidEntries(items2[..i]))|
    {
      ValidEntriesSnoc(items2, i);
      var item := items2[i];
      if item.path.Text? && item.md5.Text? {
        var path2 := item.path.s;
        var md5 := item.md5.s;
        SpecSnoc(ValidEntries(items2[..i]), map1.Log, FileEntry(md5, path2));
        var found := Find(map1, Some(md5));
        if found == null {
          diffFiles := diffFiles + [DiffRecord(md5, [], path2, OnlyInFile2)];
          diffCount := diffCount + 1;
        }
      } else {
        assert ValidEntries(items2[..i + 1]) == ValidEntries(items2[..i]);
      }
      i := i + 1;
    }
    assert items2[..i] == items2;
  }

  /** `compare_json_files` without its file I/O: `json1`/`json2` are what
      `load_json_file` returned for the two paths (`None` for a failure), and
      `outputWritten` says whether printing and writing both outputs succeeded.
      It returns -1 on a NULL parameter, a failed load, a `files` member that is
      not an array, or a failed write; otherwise 0 and the two output arrays
      with their totals. */
  method CompareJsonFiles(
    file1Path: Option<CStr>, file2Path: Option<CStr>,
    diffOutputPath: Option<CStr>, sameOutputPath: Option<CStr>,
    json1: Option<ManifestDoc>, json2: Option<ManifestDoc>, outputWritten: bool)
    returns (rc: int, result: Option<Comparison>)
    ensures rc == 0 || rc == -1
    ensures rc == 0 <==>
      && file1Path.Some? && file2Path.Some? && diffOutputPath.Some? && sameOutputPath.Some?
      && json1.Some? && json2.Some?
      && json1.value.files.Array? && json2.value.files.Array?
      && outputWritten
    ensures rc == -1 ==> result == None
    ensures rc == 0 ==>
      var m1 := ValidEntries(json1.value.files.items);
      var m2 := ValidEntries(json2.value.files.items);
      && result.Some?
      && result.value.sameFiles == Matched(m1, m2)
      && result.value.diffFiles == OnlyInFirst(m1, m2) + OnlyInSecond(m1, m2)
      && result.value.sameCount == |result.value.sameFiles|
      && result.value.diffCount == |result.value.diffFiles|
  {
    if file1Path.None? || file2Path.None? || diffOutputPath.None? || sameOutputPath.None? {
      return -1, None;
    }
    if json1.None? || json2.None? {
      return -1, None;
    }
    var files1 := json1.value.files;
    var files2 := json2.value.files;
    if !files1.Array? || !files2.Array? {
      return -1, None;
    }
    var map2 := IndexFiles(files2.items);
    var sameFiles, diffFiles, sameCount, diffCount := MatchFirst(files1.items, map2);
    var map1 := IndexFiles(files1.items);
    diffFiles, diffCount := MatchSecond(files2.items, map1, diffFiles, diffCount);
    if !outputWritten {
      return -1, None;
    }
    return 0, Some(Comparison(diffFiles, sameFiles, diffCount, sameCount));
  }

  // ---------------------------------------------------------------------------
  // What the three outputs mean.

  /** The entries pass 1 and pass 2 see are exactly the items whose `path` and
      `md5` are both strings; every other item is skipped. */
  lemma {:induction false} ValidEntriesAreStringItems(items: seq<FileItem>, e: FileEntry)
    ensures e in ValidEntries(items) <==> FileItem(Text(e.path), Text(e.md5)) in items
  {
    if items != [] {
      var init := items[..|items| - 1];
      ValidEntriesAreStringItems(init, e);
      assert items == init + [items[|items| - 1]];
    }
  }

  /** Skipping keeps array order: the entries of a concatenation are the
      concatenation of the entries. */
  lemma {:induction false} ValidEntriesAppend(items: seq<FileItem>, more: seq<FileItem>)
    ensures ValidEntries(items + more) == ValidEntries(items) + ValidEntries(more)
  {
    if more != [] {
      var init := more[..|more| - 1];
      ValidEntriesAppend(items, init);
      assert items + more == (items + init) + [more[|more| - 1]];
      assert (items + more)[..|items + more| - 1] == items + init;
      assert more[..|more| - 1] == init;
    } else {
      assert items + more == items;
    }
  }

  /** A "same" record pairs a file-1 entry with the newest file-2 path of its md5,
      and every file-1 entry whose md5 occurs in file 2 gives one. */
  lemma {:induction false} MatchedMembers(m1: seq<FileEntry>, m2: seq<FileEntry>, r: SameRecord)
    ensures r in Matched(m1, m2) <==>
      FileEntry(r.md5, r.file1Path) in m1 && Lookup(m2, r.md5) == Some(r.file2Path)
  {
    if m1 != [] {
      var init := m1[..|m1| - 1];
      MatchedMembers(init, m2, r);
      assert m1 == init + [m1[|m1| - 1]];
    }
  }

  /** An `only_in_file1` record is a file-1 entry whose md5 occurs nowhere in
      file 2, with an empty `file2_path`; and every such entry gives one. */
  lemma {:induction false} OnlyInFirstMembers(m1: seq<FileEntry>, m2: seq<FileEntry>, r: DiffRecord)
    ensures r in OnlyInFirst(m1, m2) <==>
      && r.status == OnlyInFile1 && r.file2Path == []
      && FileEntry(r.md5, r.file1Path) in m1
      && forall j :: 0 <= j < |m2| ==> m2[j].md5 != r.md5
  {
    LookupIsLastInsertion(m2, r.md5);
    if m1 != [] {
      var init := m1[..|m1| - 1];
      OnlyInFirstMembers(init, m2, r);
      assert m1 == init + [m1[|m1| - 1]];
    }
  }

  /** An `only_in_file2` record is a file-2 entry whose md5 occurs nowhere in
      file 1, with an empty `file1_path`; and every such entry gives one. */
  lemma {:induction false} OnlyInSecondMembers(m1: seq<FileEntry>, m2: seq<FileEntry>, r: DiffRecord)
    ensures r in OnlyInSecond(m1, m2) <==>
      && r.status == OnlyInFile2 && r.file1Path == []
      && FileEntry(r.md5, r.file2Path) in m2
      && forall j :: 0 <= j < |m1| ==> m1[j].md5 != r.md5
  {
    LookupIsLastInsertion(m1, r.md5);
    if m2 != [] {
      var init := m2[..|m2| - 1];
      OnlyInSecondMembers(m1, init, r);
      assert m2 == init + [m2[|m2| - 1]];
    }
  }

  /** Pass 1 emits exactly one record per valid file-1 item: duplicates of an
      md5 in file 1 are not suppressed. */
  lemma {:induction false} PassOneCoversFirst(m1: seq<FileEntry>, m2: seq<FileEntry>)
    ensures |Matched(m1, m2)| + |OnlyInFirst(m1, m2)| == |m1|
  {
    if m1 != [] {
      PassOneCoversFirst(m1[..|m1| - 1], m2);
    }
  }

  /** Records come out in input order: the records of a concatenation of
      entries are the records of the first part followed by those of the second. */
  lemma {:induction false} MatchedKeepsOrder(m1: seq<FileEntry>, more: seq<FileEntry>, m2: seq<FileEntry>)
    ensures Matched(m1 + more, m2) == Matched(m1, m2) + Matched(more, m2)
  {
    if more != [] {
      var init := more[..|more| - 1];
      var e := more[|more| - 1];
      MatchedKeepsOrder(m1, init, m2);
      assert m1 + more == (m1 + init) + [e];
      assert more == init + [e];
      MatchedSnoc(m1 + init, e, m2);
      MatchedSnoc(init, e, m2);
      assert Matched(m1 + more, m2)
        == Matched(m1, m2) + Matched(init, m2) + Matched([e], m2);
    } else {
      assert m1 + more == m1;
    }
  }

  lemma {:induction false} OnlyInFirstKeepsOrder(m1: seq<FileEntry>, more: seq<FileEntry>, m2: seq<FileEntry>)
    ensures OnlyInFirst(m1 + more, m2) == OnlyInFirst(m1, m2) + OnlyInFirst(more, m2)
  {
    if more != [] {
      var init := more[..|more| - 1];
      var e := more[|more| - 1];
      OnlyInFirstKeepsOrder(m1, init, m2);
      assert m1 + more == (m1 + init) + [e];
      assert more == init + [e];
      OnlyInFirstSnoc(m1 + init, e, m2);
      OnlyInFirstSnoc(init, e, m2);
      assert OnlyInFirst(m1 + more, m2)
        == OnlyInFirst(m1, m2) + OnlyInFirst(init, m2) + OnlyInFirst([e], m2);
    } else {
      assert m1 + more == m1;
    }
  }

  lemma {:induction false} OnlyInSecondKeepsOrder(m1: seq<FileEntry>, m2: seq<FileEntry>, more: seq<FileEntry>)
    ensures OnlyInSecond(m1, m2 + more) == OnlyInSecond(m1, m2) + OnlyInSecond(m1, more)
  {
    if more != [] {
      var init := more[..|more| - 1];
      var e := more[|more| - 1];
      OnlyInSecondKeepsOrder(m1, m2, init);
      assert m2 + more == (m2 + init) + [e];
      assert more == init + [e];
      OnlyInSecondSnoc(m1, m2 + init, e);
      OnlyInSecondSnoc(m1, init, e);
      assert OnlyInSecond(m1, m2 + more)
        == OnlyInSecond(m1, m2) + OnlyInSecond(m1, init) + OnlyInSecond(m1, [e]);
    } else {
      assert m2 + more == m2;
    }
  }

  lemma MatchedSnoc(m1: seq<FileEntry>, e: FileEntry, m2: seq<FileEntry>)
    ensures Matched(m1 + [e], m2) == Matched(m1, m2) + Matched([e], m2)
  {
    assert (m1 + [e])[..|m1|] == m1;
    assert [e][..0] == [];
  }

  lemma OnlyInFirstSnoc(m1: seq<FileEntry>, e: FileEntry, m2: seq<FileEntry>)
    ensures OnlyInFirst(m1 + [e], m2) == OnlyInFirst(m1, m2) + OnlyInFirst([e], m2)
  {
    assert (m1 + [e])[..|m1|] == m1;
    assert [e][..0] == [];
  }

  lemma OnlyInSecondSnoc(m1: seq<FileEntry>, m2: seq<FileEntry>, e: FileEntry)
    ensures OnlyInSecond(m1, m2 + [e]) == OnlyInSecond(m1, m2) + OnlyInSecond(m1, [e])
  {
    assert (m2 + [e])[..|m2|] == m2;
    assert [e][..0] == [];
  }

  /** No md5 is reported both in a "same" record and in a diff record. */
  lemma MatchedDisjointFromDiff(m1: seq<FileEntry>, m2: seq<FileEntry>, r: SameRecord, d: DiffRecord)
    requires r in Matched(m1, m2)
    requires d in OnlyInFirst(m1, m2) + OnlyInSecond(m1, m2)
    ensures r.md5 != d.md5
  {
    MatchedMembers(m1, m2, r);
    LookupIsLastInsertion(m2, r.md5);
    if d in OnlyInFirst(m1, m2) {
      OnlyInFirstMembers(m1, m2, d);
    } else {
      OnlyInSecondMembers(m1, m2, d);
      var j :| 0 <= j < |m1| && m1[j] == FileEntry(r.md5, r.file1Path);
    }
  }

  /** Swapping the two files exchanges the roles: the md5s only in file 1 of
      (a, b) are, in the same order, the md5s only in file 2 of (b, a). */
  lemma {:induction false} SwapExchangesOnlyIn(a: seq<FileEntry>, b: seq<FileEntry>)
    ensures Digests(OnlyInFirst(a, b)) == Digests(OnlyInSecond(b, a))
  {
    if a != [] {
      var init := a[..|a| - 1];
      var e := a[|a| - 1];
      SwapExchangesOnlyIn(init, b);
      var tail1 := if Lookup(b, e.md5).None? then [DiffRecord(e.md5, e.path, [], OnlyInFile1)] else [];
      var tail2 := if Lookup(b, e.md5).None? then [DiffRecord(e.md5, [], e.path, OnlyInFile2)] else [];
      DigestsAppend(OnlyInFirst(init, b), tail1);
      DigestsAppend(OnlyInSecond(b, init), tail2);
    }
  }

  lemma DigestsAppend(rs: seq<DiffRecord>, more: seq<DiffRecord>)
    ensures Digests(rs + more) == Digests(rs) + Digests(more)
  {
  }

  /** When every md5 of file 1 occurs in file 2, nothing is only in file 1 and
      every file-1 entry is matched. */
  lemma {:induction false} FirstCoveredAllMatch(m1: seq<FileEntry>, m2: seq<FileEntry>)
    requires forall j :: 0 <= j < |m1| ==> Lookup(m2, m1[j].md5).Some?
    ensures OnlyInFirst(m1, m2) == [] && |Matched(m1, m2)| == |m1|
  {
    if m1 != [] {
      FirstCoveredAllMatch(m1[..|m1| - 1], m2);
    }
  }

  /** When every md5 of file 2 occurs in file 1, nothing is only in file 2. */
  lemma {:induction false} SecondCoveredNothingOnly(m1: seq<FileEntry>, m2: seq<FileEntry>)
    requires forall j :: 0 <= j < |m2| ==> Lookup(m1, m2[j].md5).Some?
    ensures OnlyInSecond(m1, m2) == []
  {
    if m2 != [] {
      SecondCoveredNothingOnly(m1, m2[..|m2| - 1]);
    }
  }

  /** Comparing a manifest with itself: no differences, and every entry matched. */
  lemma SelfComparison(m: seq<FileEntry>)
    ensures OnlyInFirst(m, m) == [] && OnlyInSecond(m, m) == []
    ensures |Matched(m, m)| == |m|
  {
    forall j | 0 <= j < |m| ensures Lookup(m, m[j].md5).Some? {
      LookupIsLastInsertion(m, m[j].md5);
    }
    FirstCoveredAllMatch(m, m);
    SecondCoveredNothingOnly(m, m);
  }

  /** Against an empty file 2 every file-1 entry is only in file 1, in order. */
  lemma {:induction false} AgainstEmpty(m: seq<FileEntry>)
    ensures Matched(m, []) == [] && OnlyInSecond(m, []) == []
    ensures |OnlyInFirst(m, [])| == |m|
    ensures forall k :: 0 <= k < |m| ==>
      OnlyInFirst(m, [])[k] == DiffRecord(m[k].md5, m[k].path, [], OnlyInFile1)
  {
    if m != [] {
      AgainstEmpty(m[..|m| - 1]);
    }
  }

  // ---------------------------------------------------------------------------
  // Worked examples over two digests and a few one-letter paths.

  const DIGEST_1: CStr := [100, 49]  // "d1"
  const DIGEST_2: CStr := [100, 50]  // "d2"
  const PATH_A: CStr := [97]         // "a"
  const PATH_B: CStr := [98]         // "b"
  const PATH_C: CStr := [99]         // "c"
  const PATH_X: CStr := [120]        // "x"
  const PATH_Y: CStr := [121]        // "y"
  const PATH_Z: CStr := [122]        // "z"

  /** One shared md5 and one md5 only in file 2. */
  lemma ExampleOneMatchOneOnlyInSecond()
    ensures
      var a := [FileEntry(DIGEST_1, PATH_A)];
      var b := [FileEntry(DIGEST_1, PATH_B), FileEntry(DIGEST_2, PATH_C)];
      && Matched(a, b) == [SameRecord(DIGEST_1, PATH_A, PATH_B)]
      && OnlyInFirst(a, b) == []
      && OnlyInSecond(a, b) == [DiffRecord(DIGEST_2, [], PATH_C, OnlyInFile2)]
  {
    var a := [FileEntry(DIGEST_1, PATH_A)];
    var b := [FileEntry(DIGEST_1, PATH_B), FileEntry(DIGEST_2, PATH_C)];
    assert DIGEST_1[1] != DIGEST_2[1];
    assert b[..1] == [FileEntry(DIGEST_1, PATH_B)];
    assert Lookup(b, DIGEST_1) == Some(PATH_B);
    assert Lookup(a, DIGEST_2) == None;
    assert Lookup(a, DIGEST_1) == Some(PATH_A);
    assert OnlyInSecond(a, b[..1]) == [];
    assert OnlyInSecond(a, b) == OnlyInSecond(a, b[..1]) + [DiffRecord(DIGEST_2, [], PATH_C, OnlyInFile2)];
  }

  /** Two file-1 entries with one md5 each produce a "same" record. */
  lemma ExampleDuplicatesInFirstBothMatch()
    ensures
      var a := [FileEntry(DIGEST_1, PATH_X), FileEntry(DIGEST_1, PATH_Y)];
      var b := [FileEntry(DIGEST_1, PATH_Z)];
      Matched(a, b) == [SameRecord(DIGEST_1, PATH_X, PATH_Z), SameRecord(DIGEST_1, PATH_Y, PATH_Z)]
  {
    var a := [FileEntry(DIGEST_1, PATH_X), FileEntry(DIGEST_1, PATH_Y)];
    var b := [FileEntry(DIGEST_1, PATH_Z)];
    assert a[..1] == [FileEntry(DIGEST_1, PATH_X)];
    assert Lookup(b, DIGEST_1) == Some(PATH_Z);
    assert Matched(a[..1], b) == [SameRecord(DIGEST_1, PATH_X, PATH_Z)];
    assert Matched(a, b) == Matched(a[..1], b) + [SameRecord(DIGEST_1, PATH_Y, PATH_Z)];
  }

  /** Of two file-2 entries with one md5, the later one is paired. */
  lemma ExampleLastInSecondWins()
    ensures
      var a := [FileEntry(DIGEST_1, PATH_A)];
      var b := [FileEntry(DIGEST_1, PATH_X), FileEntry(DIGEST_1, PATH_Y)];
      Matched(a, b) == [SameRecord(DIGEST_1, PATH_A, PATH_Y)]
  {
  }

  /** With duplicates, the number of matches depends on the direction. */
  lemma ExampleMatchCountNotSymmetric()
    ensures
      var a := [FileEntry(DIGEST_1, PATH_X), FileEntry(DIGEST_1, PATH_Y)];
      var b := [FileEntry(DIGEST_1, PATH_Z)];
      |Matched(a, b)| == 2 && |Matched(b, a)| == 1
  {
    ExampleDuplicatesInFirstBothMatch();
  }
}
