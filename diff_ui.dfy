/** The record handling of the viewer in diff-ui/diff-ui.c: reading the
    `files` array of a diff document into `diff_entries` with deduplication on
    the string key `md5|file1_path|file2_path` (`parse_diff_json`), and filling
    the two panes from those entries under a search text (`update_file_trees`).

    `AppData` keeps, of the viewer's state, the entry array, the set of keys
    seen and the rows of the two list stores. `Dedup` and `PaneRows` specify
    what the loops produce; the lemmas below say what those mean. */
module DiffUi {
  import opened CTypes
  import opened Manifest

  /** An element of a diff document's `files` array. */
  datatype DiffItem = DiffItem(md5: Field, file1Path: Field, file2Path: Field, status: Field)

  /** The `files` member of a diff document. */
  datatype DiffFiles = NoFiles | FilesNotArray | FilesArray(items: seq<DiffItem>)

  /** A diff document as `cJSON_Parse` returns it. */
  datatype DiffDoc = DiffDoc(files: DiffFiles)

  /** `DiffEntry`: a record kept by the viewer. */
  datatype DiffEntry = DiffEntry(md5: CStr, file1Path: CStr, file2Path: CStr, status: CStr)

  /** A row of a pane: file name, md5, status. */
  datatype Row = Row(filename: CStr, md5: CStr, status: CStr)

  datatype Pane = File1Pane | File2Pane

  /** The record of an item whose four members are all strings, if it is one. */
  function AsEntry(item: DiffItem): (r: Option<DiffEntry>)
    ensures r.Some? <==>
      item.md5.Text? && item.file1Path.Text? && item.file2Path.Text? && item.status.Text?
  {
    if item.md5.Text? && item.file1Path.Text? && item.file2Path.Text? && item.status.Text? then
      Some(DiffEntry(item.md5.s, item.file1Path.s, item.file2Path.s, item.status.s))
    else
      None
  }

  /** `g_strdup_printf("%s|%s|%s", md5, file1_path, file2_path)`. */
  function UniqueKey(e: DiffEntry): (k: CStr)
    ensures |k| == |e.md5| + |e.file1Path| + |e.file2Path| + 2
  {
    e.md5 + [PIPE] + e.file1Path + [PIPE] + e.file2Path
  }

  /** The entries appended for `items` when the keys in `seen` are already
      present: each valid item whose key has not been seen, in order. */
  function Dedup(items: seq<DiffItem>, seen: set<CStr>): seq<DiffEntry> {
    if items == [] then []
    else
      match AsEntry(items[0])
      case None => Dedup(items[1..], seen)
      case Some(e) =>
        if UniqueKey(e) in seen then Dedup(items[1..], seen)
        else [e] + Dedup(items[1..], seen + {UniqueKey(e)})
  }

  /** The keys of the valid items. */
  function KeysOf(items: seq<DiffItem>): set<CStr> {
    set i | 0 <= i < |items| && AsEntry(items[i]).Some? :: UniqueKey(AsEntry(items[i]).value)
  }

  /** Whether an entry is listed in a pane under a search text: its path for
      that pane is non-empty and, for a non-empty search, contains the search. */
  predicate Shows(e: DiffEntry, search: Option<CStr>, pane: Pane)
    ensures Shows(e, search, pane) ==> |RowOf(e, pane).filename| > 0
    ensures search.None? || search.value == [] ==>
      (Shows(e, search, pane) <==> |RowOf(e, pane).filename| > 0)
    ensures search.Some? && search.value != [] && Shows(e, search, pane) ==>
      Contains(RowOf(e, pane).filename, search.value)
    ensures (search.Some? && |RowOf(e, pane).filename| > 0
      && Contains(RowOf(e, pane).filename, search.value)) ==> Shows(e, search, pane)
  {
    var path := if pane == File1Pane then e.file1Path else e.file2Path;
    |path| > 0 && (search.None? || search.value == [] || Contains(path, search.value))
  }

  function RowOf(e: DiffEntry, pane: Pane): Row {
    Row(if pane == File1Pane then e.file1Path else e.file2Path, e.md5, e.status)
  }

  /** The rows of a pane: the entries it shows, in order. */
  function PaneRows(entries: seq<DiffEntry>, search: Option<CStr>, pane: Pane): seq<Row> {
    if entries == [] then []
    else
      var e := entries[|entries| - 1];
      PaneRows(entries[..|entries| - 1], search, pane)
        + (if Shows(e, search, pane) then [RowOf(e, pane)] else [])
  }

  lemma KeysOfSnoc(items: seq<DiffItem>, i: int)
    requires 0 <= i < |items|
    ensures KeysOf(items[..i + 1]) == KeysOf(items[..i])
      + (if AsEntry(items[i]).Some? then {UniqueKey(AsEntry(items[i]).value)} else {})
  {
    var pre := items[..i];
    var ext := items[..i + 1];
    forall k | k in KeysOf(ext)
      ensures k in KeysOf(pre) || (AsEntry(items[i]).Some? && k == UniqueKey(AsEntry(items[i]).value))
    {
      var j :| 0 <= j < |ext| && AsEntry(ext[j]).Some? && k == UniqueKey(AsEntry(ext[j]).value);
      if j < i {
        assert pre[j] == ext[j];
      }
    }
    forall k | k in KeysOf(pre) ensures k in KeysOf(ext) {
      var j :| 0 <= j < |pre| && AsEntry(pre[j]).Some? && k == UniqueKey(AsEntry(pre[j]).value);
      assert ext[j] == pre[j];
    }
    if AsEntry(items[i]).Some? {
      assert ext[i] == items[i];
    }
  }

  /** `AppData`, restricted to the state the record handling uses. */
  class AppData {
    var diffEntries: seq<DiffEntry>
    var uniqueEntries: set<CStr>
    var file1Store: seq<Row>
    var file2Store: seq<Row>

    /** The key set covers the listed entries, and no two listed entries share
        a key. */
    ghost predicate KeysTracked()
      reads this`diffEntries, this`uniqueEntries
    {
      && (forall i :: 0 <= i < |diffEntries| ==> UniqueKey(diffEntries[i]) in uniqueEntries)
      && (forall i, j :: 0 <= i < j < |diffEntries| ==>
            UniqueKey(diffEntries[i]) != UniqueKey(diffEntries[j]))
    }

    constructor ()
      ensures KeysTracked()
      ensures diffEntries == [] && uniqueEntries == {}
      ensures file1Store == [] && file2Store == []
    {
      diffEntries := [];
      uniqueEntries := {};
      file1Store := [];
      file2Store := [];
    }

    /** `parse_diff_json` after the file has been read and parsed (`doc` is
        `None` when opening or parsing failed): FALSE, and nothing appended,
        without a `files` array; otherwise TRUE, each valid record whose key is
        new appended, and every valid record's key added to the set. */
    method ParseDiffJson(doc: Option<DiffDoc>) returns (ok: bool)
      modifies this`diffEntries, this`uniqueEntries
      ensures ok <==> doc.Some? && doc.value.files.FilesArray?
      ensures !ok ==> diffEntries == old(diffEntries) && uniqueEntries == old(uniqueEntries)
      ensures ok ==>
        var items := doc.value.files.items;
        && diffEntries == old(diffEntries) + Dedup(items, old(uniqueEntries))
        && uniqueEntries == old(uniqueEntries) + KeysOf(items)
      ensures old(KeysTracked()) ==> KeysTracked()
    {
      if doc.None? || !doc.value.files.FilesArray? {
        return false;
      }
      var items := doc.value.files.items;
      var i := 0;
      while i < |items|
        invariant 0 <= i <= |items|
        invariant diffEntries + Dedup(items[i..], uniqueEntries)
          == old(diffEntries) + Dedup(items, old(uniqueEntries))
        invariant uniqueEntries == old(uniqueEntries) + KeysOf(items[..i])
      {
        KeysOfSnoc(items, i);
        assert items[i..][1..] == items[i + 1..];
        var entry := AsEntry(items[i]);
        if entry.Some? {
          var key := UniqueKey(entry.value);
          if key !in uniqueEntries {
            diffEntries := diffEntries + [entry.value];
            uniqueEntries := uniqueEntries + {key};
          }
        }
        i := i + 1;
      }
      assert items[..i] == items;
      DedupKeysDistinct(items, old(uniqueEntries));
      DedupKeysInItems(items, old(uniqueEntries));
      if old(KeysTracked()) {
        ghost var prior := old(diffEntries);
        ghost var added := Dedup(items, old(uniqueEntries));
        assert items[i..] == [];
        assert diffEntries == prior + added;
        forall i, j | 0 <= i < j < |diffEntries|
          ensures UniqueKey(diffEntries[i]) != UniqueKey(diffEntries[j])
        {
          if j >= |prior| {
            assert diffEntries[j] == added[j - |prior|];
            if i >= |prior| {
              assert diffEntries[i] == added[i - |prior|];
            } else {
              assert diffEntries[i] == prior[i];
            }
          }
        }
        forall i | 0 <= i < |diffEntries|
          ensures UniqueKey(diffEntries[i]) in uniqueEntries
        {
          if i >= |prior| {
            assert diffEntries[i] == added[i - |prior|];
          } else {
            assert diffEntries[i] == prior[i];
          }
        }
      }
      ok := true;
    }

    /** `update_file_trees`: both stores cleared, then refilled from the
        entries in order, each pane with the entries it shows. */
    method UpdateFileTrees(search: Option<CStr>)
      modifies this`file1Store, this`file2Store
      ensures file1Store == PaneRows(diffEntries, search, File1Pane)
      ensures file2Store == PaneRows(diffEntries, search, File2Pane)
    {
      file1Store := [];
      file2Store := [];
      var i := 0;
      while i < |diffEntries|
        invariant 0 <= i <= |diffEntries|
        invariant file1Store == PaneRows(diffEntries[..i], search, File1Pane)
        invariant file2Store == PaneRows(diffEntries[..i], search, File2Pane)
      {
        var entry := diffEntries[i];
        assert diffEntries[..i + 1][..i] == diffEntries[..i];
        var showFile1, showFile2 := true, true;
        if search.Some? && |search.value| > 0 {
          if |entry.file1Path| > 0 {
            showFile1 := Contains(entry.file1Path, search.value);
          } else {
            showFile1 := false;
          }
          if |entry.file2Path| > 0 {
            showFile2 := Contains(entry.file2Path, search.value);
          } else {
            showFile2 := false;
          }
        }
        if |entry.file1Path| > 0 && showFile1 {
          file1Store := file1Store + [Row(entry.file1Path, entry.md5, entry.status)];
        }
        if |entry.file2Path| > 0 && showFile2 {
          file2Store := file2Store + [Row(entry.file2Path, entry.md5, entry.status)];
        }
        i := i + 1;
      }
      assert diffEntries[..i] == diffEntries;
    }

    /** The "open" action of the viewer: both the entry array and the key set
        are cleared before parsing, so afterwards the entries are those of the
        new document alone; on success the panes show them unfiltered, and on
        failure the panes keep the rows of the previous document. */
    method OpenFile(doc: Option<DiffDoc>) returns (ok: bool)
      modifies this
      ensures KeysTracked()
      ensures ok <==> doc.Some? && doc.value.files.FilesArray?
      ensures !ok ==> diffEntries == [] && uniqueEntries == {}
      ensures !ok ==> file1Store == old(file1Store) && file2Store == old(file2Store)
      ensures ok ==>
        var items := doc.value.files.items;
        && diffEntries == Dedup(items, {})
        && uniqueEntries == KeysOf(items)
        && file1Store == PaneRows(diffEntries, None, File1Pane)
        && file2Store == PaneRows(diffEntries, None, File2Pane)
    {
      diffEntries := [];
      uniqueEntries := {};
      assert KeysTracked();
      ok := ParseDiffJson(doc);
      assert KeysTracked();
      if ok {
        ghost var entries := diffEntries;
        UpdateFileTrees(None);
        assert diffEntries == entries;
      }
    }
  }

  // ---------------------------------------------------------------------------
  // What deduplication and filtering mean.

  /** Item `i` is valid, has key `k`, and no valid item before it has key `k`. */
  predicate FirstWithKey(items: seq<DiffItem>, k: CStr, i: int) {
    && 0 <= i < |items|
    && AsEntry(items[i]).Some? && UniqueKey(AsEntry(items[i]).value) == k
    && forall j :: 0 <= j < i ==> AsEntry(items[j]).None? || UniqueKey(AsEntry(items[j]).value) != k
  }

  /** The appended entries have pairwise distinct keys, none of them already seen. */
  lemma {:induction false} DedupKeysDistinct(items: seq<DiffItem>, seen: set<CStr>)
    ensures forall i :: 0 <= i < |Dedup(items, seen)| ==> UniqueKey(Dedup(items, seen)[i]) !in seen
    ensures forall i, j :: 0 <= i < j < |Dedup(items, seen)| ==>
      UniqueKey(Dedup(items, seen)[i]) != UniqueKey(Dedup(items, seen)[j])
  {
    if items != [] {
      var x := AsEntry(items[0]);
      if x.None? || UniqueKey(x.value) in seen {
        assert Dedup(items, seen) == Dedup(items[1..], seen);
        DedupKeysDistinct(items[1..], seen);
      } else {
        var k := UniqueKey(x.value);
        var tail := Dedup(items[1..], seen + {k});
        assert Dedup(items, seen) == [x.value] + tail;
        DedupKeysDistinct(items[1..], seen + {k});
        forall i, j | 0 <= i < j < |tail| + 1
          ensures UniqueKey(([x.value] + tail)[i]) != UniqueKey(([x.value] + tail)[j])
        {
          assert ([x.value] + tail)[j] == tail[j - 1];
          if i > 0 { assert ([x.value] + tail)[i] == tail[i - 1]; }
        }
        forall i | 0 <= i < |tail| + 1
          ensures UniqueKey(([x.value] + tail)[i]) !in seen
        {
          if i > 0 { assert ([x.value] + tail)[i] == tail[i - 1]; }
        }
      }
    }
  }

  /** Every appended entry's key is the key of one of the items. */
  lemma {:induction false} DedupKeysInItems(items: seq<DiffItem>, seen: set<CStr>)
    ensures forall i :: 0 <= i < |Dedup(items, seen)| ==> UniqueKey(Dedup(items, seen)[i]) in KeysOf(items)
  {
    if items != [] {
      var x := AsEntry(items[0]);
      var rest := items[1..];
      var seen' := if x.Some? && UniqueKey(x.value) !in seen then seen + {UniqueKey(x.value)} else seen;
      DedupKeysInItems(rest, seen');
      forall k | k in KeysOf(rest) ensures k in KeysOf(items) {
        var j :| 0 <= j < |rest| && AsEntry(rest[j]).Some? && k == UniqueKey(AsEntry(rest[j]).value);
        assert items[j + 1] == rest[j];
      }
      if x.Some? && UniqueKey(x.value) !in seen {
        var tail := Dedup(rest, seen');
        assert Dedup(items, seen) == [x.value] + tail;
        assert UniqueKey(x.value) in KeysOf(items);
        forall i | 0 < i < |tail| + 1
          ensures UniqueKey(([x.value] + tail)[i]) in KeysOf(items)
        {
          assert ([x.value] + tail)[i] == tail[i - 1];
        }
      } else {
        assert Dedup(items, seen) == Dedup(rest, seen);
      }
    }
  }

  /** First occurrence wins: an entry is appended exactly when it is the record
      of the first valid item carrying its key, and that key was not seen before. */
  lemma {:induction false} DedupKeepsFirstOccurrence(items: seq<DiffItem>, seen: set<CStr>, e: DiffEntry)
    ensures e in Dedup(items, seen) <==>
      UniqueKey(e) !in seen
      && exists i :: FirstWithKey(items, UniqueKey(e), i) && AsEntry(items[i]) == Some(e)
  {
    if items != [] {
      var k := UniqueKey(e);
      var rest := items[1..];
      var x := AsEntry(items[0]);
      var seen' := if x.Some? && UniqueKey(x.value) !in seen then seen + {UniqueKey(x.value)} else seen;
      DedupKeepsFirstOccurrence(rest, seen', e);
      FirstWithKeyShift(items, k);
      assert Dedup(items, seen)
        == (if x.Some? && UniqueKey(x.value) !in seen then [x.value] else []) + Dedup(rest, seen');
      if e in Dedup(items, seen) {
        if x == Some(e) && k !in seen {
          assert FirstWithKey(items, k, 0);
        } else {
          var i :| FirstWithKey(rest, k, i) && AsEntry(rest[i]) == Some(e);
          assert FirstWithKey(items, k, i + 1) && AsEntry(items[i + 1]) == Some(e);
        }
      }
      if k !in seen && exists i :: FirstWithKey(items, k, i) && AsEntry(items[i]) == Some(e) {
        var i :| FirstWithKey(items, k, i) && AsEntry(items[i]) == Some(e);
        if i > 0 {
          assert FirstWithKey(rest, k, i - 1) && AsEntry(rest[i - 1]) == Some(e);
        }
      }
    }
  }

  /** Item 0 is first with its key; a later item is first with key `k` in
      `items` exactly when it is first in the rest and item 0 does not carry `k`. */
  lemma FirstWithKeyShift(items: seq<DiffItem>, k: CStr)
    requires items != []
    ensures forall i :: 0 <= i < |items| - 1 ==>
      (FirstWithKey(items, k, i + 1) <==>
        FirstWithKey(items[1..], k, i)
        && (AsEntry(items[0]).None? || UniqueKey(AsEntry(items[0]).value) != k))
  {
    var rest := items[1..];
    var x := AsEntry(items[0]);
    forall i | 0 <= i < |rest|
      ensures FirstWithKey(items, k, i + 1) <==>
        FirstWithKey(rest, k, i) && (x.None? || UniqueKey(x.value) != k)
    {
      assert items[i + 1] == rest[i];
      if FirstWithKey(rest, k, i) && (x.None? || UniqueKey(x.value) != k) {
        forall j | 0 <= j < i + 1
          ensures AsEntry(items[j]).None? || UniqueKey(AsEntry(items[j]).value) != k
        {
          if j > 0 { assert items[j] == rest[j - 1]; }
        }
      }
      if FirstWithKey(items, k, i + 1) {
        forall j | 0 <= j < i
          ensures AsEntry(rest[j]).None? || UniqueKey(AsEntry(rest[j]).value) != k
        {
          assert rest[j] == items[j + 1];
        }
      }
    }
  }

  // ---------------------------------------------------------------------------
  // Worked examples over one digest and a few short paths and statuses.

  const MD5_D: CStr := [100]                   // "d"
  const PATH_A: CStr := [97]                   // "a"
  const PATH_B: CStr := [98]                   // "b"
  const PATH_C: CStr := [99]                   // "c"
  const PATH_A_PIPE_B: CStr := [97, PIPE, 98]  // "a|b"
  const PATH_B_PIPE_C: CStr := [98, PIPE, 99]  // "b|c"
  const STATUS_1: CStr := [49]                 // "1"
  const STATUS_2: CStr := [50]                 // "2"
  const STATUS_S: CStr := [115]                // "s"

  /** `status` is not part of the key: of two records differing only in status
      the first is kept. */
  lemma ExampleStatusNotInKey()
    ensures
      var first := DiffItem(Text(MD5_D), Text(PATH_A), Text(PATH_B), Text(STATUS_1));
      var second := DiffItem(Text(MD5_D), Text(PATH_A), Text(PATH_B), Text(STATUS_2));
      Dedup([first, second], {}) == [DiffEntry(MD5_D, PATH_A, PATH_B, STATUS_1)]
  {
    var first := DiffItem(Text(MD5_D), Text(PATH_A), Text(PATH_B), Text(STATUS_1));
    var second := DiffItem(Text(MD5_D), Text(PATH_A), Text(PATH_B), Text(STATUS_2));
    var k := UniqueKey(AsEntry(first).value);
    assert [first, second][1..] == [second];
    assert UniqueKey(AsEntry(second).value) == k;
    assert Dedup([second], {k}) == Dedup([second][1..], {k}) == [];
    assert {} + {k} == {k};
    assert Dedup([first, second], {}) == [AsEntry(first).value] + Dedup([second], {} + {k});
  }

  /** The '|'-joined key confuses distinct triples: ("d", "a|b", "c") and
      ("d", "a", "b|c") both have key "d|a|b|c", and the second is dropped. */
  lemma ExamplePipeInPathCollides()
    ensures
      var first := DiffItem(Text(MD5_D), Text(PATH_A_PIPE_B), Text(PATH_C), Text(STATUS_S));
      var second := DiffItem(Text(MD5_D), Text(PATH_A), Text(PATH_B_PIPE_C), Text(STATUS_S));
      && AsEntry(first).value != AsEntry(second).value
      && Dedup([first, second], {}) == [AsEntry(first).value]
  {
    var first := DiffItem(Text(MD5_D), Text(PATH_A_PIPE_B), Text(PATH_C), Text(STATUS_S));
    var second := DiffItem(Text(MD5_D), Text(PATH_A), Text(PATH_B_PIPE_C), Text(STATUS_S));
    var k := UniqueKey(AsEntry(first).value);
    assert k == UniqueKey(AsEntry(second).value);
    assert AsEntry(first).value.file1Path != AsEntry(second).value.file1Path;
    assert [first, second][1..] == [second];
    assert Dedup([second], {k}) == Dedup([second][1..], {k}) == [];
    assert {} + {k} == {k};
    assert Dedup([first, second], {}) == [AsEntry(first).value] + Dedup([second], {} + {k});
  }

  /** A pane lists exactly the rows of the entries it shows. */
  lemma {:induction false} PaneMembers(entries: seq<DiffEntry>, search: Option<CStr>, pane: Pane, r: Row)
    ensures r in PaneRows(entries, search, pane) <==>
      exists k :: 0 <= k < |entries| && Shows(entries[k], search, pane) && r == RowOf(entries[k], pane)
  {
    if entries != [] {
      var init := entries[..|entries| - 1];
      PaneMembers(init, search, pane, r);
      if exists k :: 0 <= k < |entries| && Shows(entries[k], search, pane) && r == RowOf(entries[k], pane) {
        var k :| 0 <= k < |entries| && Shows(entries[k], search, pane) && r == RowOf(entries[k], pane);
        if k < |init| {
          assert init[k] == entries[k];
        }
      }
      if r in PaneRows(init, search, pane) {
        var k :| 0 <= k < |init| && Shows(init[k], search, pane) && r == RowOf(init[k], pane);
        assert entries[k] == init[k];
      }
    }
  }

  /** Panes keep the order of the entries. */
  lemma {:induction false} PaneKeepsOrder(entries: seq<DiffEntry>, more: seq<DiffEntry>, search: Option<CStr>, pane: Pane)
    ensures PaneRows(entries + more, search, pane)
      == PaneRows(entries, search, pane) + PaneRows(more, search, pane)
  {
    if more == [] {
      assert entries + more == entries;
    } else {
      var init := more[..|more| - 1];
      var e := more[|more| - 1];
      var row := if Shows(e, search, pane) then [RowOf(e, pane)] else [];
      PaneKeepsOrder(entries, init, search, pane);
      assert (entries + more)[..|entries + more| - 1] == entries + init;
      assert (entries + more)[|entries + more| - 1] == e;
      assert PaneRows(entries + more, search, pane) == PaneRows(entries + init, search, pane) + row;
      assert PaneRows(more, search, pane) == PaneRows(init, search, pane) + row;
    }
  }

  /** A NULL search and an empty search show the same rows: every entry whose
      path for the pane is non-empty. */
  lemma {:induction false} EmptySearchShowsAll(entries: seq<DiffEntry>, pane: Pane)
    ensures PaneRows(entries, Some([]), pane) == PaneRows(entries, None, pane)
    ensures forall k :: 0 <= k < |entries| ==>
      (Shows(entries[k], None, pane) <==> |RowOf(entries[k], pane).filename| > 0)
  {
    if entries != [] {
      EmptySearchShowsAll(entries[..|entries| - 1], pane);
    }
  }

  /** The key identifies the record when neither the md5 nor the file1 path
      contains a '|' (an md5 in hex never does): equal keys then mean equal
      md5, file1 path and file2 path. */
  lemma UniqueKeyIdentifiesRecord(a: DiffEntry, b: DiffEntry)
    requires PIPE !in a.md5 && PIPE !in a.file1Path
    requires PIPE !in b.md5 && PIPE !in b.file1Path
    ensures UniqueKey(a) == UniqueKey(b) <==>
      a.md5 == b.md5 && a.file1Path == b.file1Path && a.file2Path == b.file2Path
  {
    if UniqueKey(a) == UniqueKey(b) {
      var k := UniqueKey(a);
      UniqueKeyLayout(a);
      UniqueKeyLayout(b);
      FirstPipe(a.md5, k[|a.md5| + 1..], b.md5, k[|b.md5| + 1..]);
      var rest := k[|a.md5| + 1..];
      assert rest == a.file1Path + [PIPE] + a.file2Path;
      assert rest == b.file1Path + [PIPE] + b.file2Path;
      FirstPipe(a.file1Path, a.file2Path, b.file1Path, b.file2Path);
    }
  }

  /** `%s|%s|%s`: the md5, a '|', the file1 path, a '|', the file2 path. */
  lemma UniqueKeyLayout(e: DiffEntry)
    ensures UniqueKey(e) == e.md5 + [PIPE] + (e.file1Path + [PIPE] + e.file2Path)
    ensures UniqueKey(e)[|e.md5| + 1..] == e.file1Path + [PIPE] + e.file2Path
  {
    var tail := e.file1Path + [PIPE] + e.file2Path;
    assert UniqueKey(e) == e.md5 + [PIPE] + tail;
    assert (e.md5 + [PIPE] + tail)[|e.md5| + 1..] == tail;
  }

  /** Splitting at the first '|': two strings without '|' each followed by a
      '|' and a rest are equal, as are the rests, when the wholes are equal. */
  lemma FirstPipe(x: CStr, xs: CStr, y: CStr, ys: CStr)
    requires PIPE !in x && PIPE !in y
    requires x + [PIPE] + xs == y + [PIPE] + ys
    ensures x == y && xs == ys
  {
    var w := x + [PIPE] + xs;
    PipeAfter(x, xs);
    PipeAfter(y, ys);
    assert |x| == |y|;
    assert x == w[..|x|] == y;
    assert xs == w[|x| + 1..] == ys;
  }

  /** In a string without '|' followed by '|', the first '|' is at its end. */
  lemma PipeAfter(x: CStr, xs: CStr)
    requires PIPE !in x
    ensures (x + [PIPE] + xs)[|x|] == PIPE
    ensures forall i :: 0 <= i < |x| ==> (x + [PIPE] + xs)[i] != PIPE
  {
    forall i | 0 <= i < |x| ensures (x + [PIPE] + xs)[i] != PIPE {
      assert (x + [PIPE] + xs)[i] == x[i];
    }
  }

  /** The keys of a non-empty array: those of its first item and of the rest. */
  lemma KeysOfCons(items: seq<DiffItem>)
    requires items != []
    ensures KeysOf(items) == KeysOf(items[1..])
      + (if AsEntry(items[0]).Some? then {UniqueKey(AsEntry(items[0]).value)} else {})
  {
    var rest := items[1..];
    forall k | k in KeysOf(items)
      ensures k in KeysOf(rest) || (AsEntry(items[0]).Some? && k == UniqueKey(AsEntry(items[0]).value))
    {
      var j :| 0 <= j < |items| && AsEntry(items[j]).Some? && k == UniqueKey(AsEntry(items[j]).value);
      if j > 0 {
        assert rest[j - 1] == items[j];
      }
    }
    forall k | k in KeysOf(rest) ensures k in KeysOf(items) {
      var j :| 0 <= j < |rest| && AsEntry(rest[j]).Some? && k == UniqueKey(AsEntry(rest[j]).value);
      assert items[j + 1] == rest[j];
    }
  }

  /** Entries are appended in array order: reading `items` and then `more` is
      reading `items`, then `more` with the keys of `items` already seen. */
  lemma {:induction false} DedupKeepsOrder(items: seq<DiffItem>, more: seq<DiffItem>, seen: set<CStr>)
    ensures Dedup(items + more, seen) == Dedup(items, seen) + Dedup(more, seen + KeysOf(items))
  {
    if items == [] {
      assert items + more == more;
      assert seen + KeysOf(items) == seen;
    } else {
      var x := AsEntry(items[0]);
      var rest := items[1..];
      assert (items + more)[0] == items[0];
      assert (items + more)[1..] == rest + more;
      KeysOfCons(items);
      if x.Some? && UniqueKey(x.value) !in seen {
        var k := UniqueKey(x.value);
        DedupKeepsOrder(rest, more, seen + {k});
        assert seen + {k} + KeysOf(rest) == seen + KeysOf(items);
      } else {
        DedupKeepsOrder(rest, more, seen);
        assert seen + KeysOf(rest) == seen + KeysOf(items);
      }
    }
  }
}
