/** The logic of main.c around the scan and the comparison: deriving a
    manifest path from an absolute file path (`get_relative_path`), the
    per-file update of the scan context (`process_file`), and the choice of
    outputs in comparison mode (`main`). */
module Scanner {
  import opened CTypes
  import opened Manifest

  /** `get_relative_path`: NULL for a NULL argument. When `basePath` is a byte
      prefix of `fullPath` (not necessarily ending at a '/'), the rest after it
      with at most one leading '/' removed, or "." when that rest is empty;
      otherwise `fullPath` itself. */
  function GetRelativePath(fullPath: Option<CStr>, basePath: Option<CStr>): (r: Option<CStr>)
    ensures r.None? <==> fullPath.None? || basePath.None?
  {
    if fullPath.None? || basePath.None? then None
    else
      var full := fullPath.value;
      var base := basePath.value;
      if IsPrefix(base, full) then
        var rest := full[|base|..];
        var relative := if rest != [] && rest[0] == SLASH then rest[1..] else rest;
        if relative == [] then Some([DOT]) else Some(relative)
      else
        Some(full)
  }

  /** Deriving and re-attaching: a non-empty relative path under `base`,
      joined to it with one '/', comes back unchanged; joined directly, it
      comes back unchanged only when it does not start with '/', and
      otherwise loses that '/' (a lone "/" becomes "."). */
  lemma RelativePathRoundTrip(base: CStr, relative: CStr)
    requires relative != []
    ensures GetRelativePath(Some(base + [SLASH] + relative), Some(base)) == Some(relative)
    ensures relative[0] != SLASH ==> GetRelativePath(Some(base + relative), Some(base)) == Some(relative)
    ensures relative[0] == SLASH && |relative| > 1 ==>
      GetRelativePath(Some(base + relative), Some(base)) == Some(relative[1..])
    ensures relative == [SLASH] ==> GetRelativePath(Some(base + relative), Some(base)) == Some([DOT])
  {
    var full := base + [SLASH] + relative;
    assert full[..|base|] == base && full[|base|..] == [SLASH] + relative;
    assert ([SLASH] + relative)[1..] == relative;
    var joined := base + relative;
    assert joined[..|base|] == base && joined[|base|..] == relative;
  }

  /** The root itself, with or without a trailing '/', becomes ".". */
  lemma RootIsDot(base: CStr)
    ensures GetRelativePath(Some(base), Some(base)) == Some([DOT])
    ensures GetRelativePath(Some(base + [SLASH]), Some(base)) == Some([DOT])
  {
    assert (base + [SLASH])[..|base|] == base;
    assert (base + [SLASH])[|base|..] == [SLASH];
  }

  /** The inverse direction: under a prefix, the result re-attached to the base
      (directly or after one '/') gives the full path back, except where the
      result is the "." that stands for an empty rest. */
  lemma RelativePathRebuildsFull(full: CStr, base: CStr)
    requires IsPrefix(base, full)
    ensures
      var r := GetRelativePath(Some(full), Some(base)).value;
      || full == base + r
      || full == base + [SLASH] + r
      || (r == [DOT] && (full == base || full == base + [SLASH]))
  {
    var rest := full[|base|..];
    assert full == base + rest;
    if rest != [] && rest[0] == SLASH {
      assert rest == [SLASH] + rest[1..];
    }
  }

  /** A path outside the base is returned unchanged. */
  lemma OutsideBaseUnchanged(full: CStr, base: CStr)
    requires !IsPrefix(base, full)
    ensures GetRelativePath(Some(full), Some(base)) == Some(full)
  {
  }

  const LETTER_A: CByte := 97  // 'a'
  const LETTER_B: CByte := 98  // 'b'

  /** The prefix test is on bytes, not on path segments: under base "/a" the
      path "/ab" becomes "b". */
  lemma PrefixNotSegmentAligned()
    ensures GetRelativePath(Some([SLASH, LETTER_A, LETTER_B]), Some([SLASH, LETTER_A])) == Some([LETTER_B])
  {
    assert [SLASH, LETTER_A, LETTER_B][..2] == [SLASH, LETTER_A];
  }

  /** Only one '/' is removed: under base "/a" the path "/a//b" becomes "/b". */
  lemma OnlyOneSlashRemoved()
    ensures GetRelativePath(Some([SLASH, LETTER_A, SLASH, SLASH, LETTER_B]), Some([SLASH, LETTER_A]))
      == Some([SLASH, LETTER_B])
  {
    assert [SLASH, LETTER_A, SLASH, SLASH, LETTER_B][..2] == [SLASH, LETTER_A];
    assert [SLASH, LETTER_A, SLASH, SLASH, LETTER_B][2..] == [SLASH, SLASH, LETTER_B];
  }

  /** `process_context_t`: the manifest array being built and its counters. */
  class ProcessContext {
    var jsonArray: seq<FileEntry>
    var fileCount: int
    var errorCount: int
    const baseDirectory: Option<CStr>

    /** The counters agree with the array, as they do from the empty context
        `main` starts with. */
    ghost predicate Consistent()
      reads this
    {
      fileCount == |jsonArray| && errorCount >= 0
    }

    constructor (baseDirectory: Option<CStr>)
      ensures jsonArray == [] && fileCount == 0 && errorCount == 0
      ensures this.baseDirectory == baseDirectory
      ensures Consistent()
    {
      jsonArray := [];
      fileCount := 0;
      errorCount := 0;
      this.baseDirectory := baseDirectory;
    }

    /** `process_file`: `md5` is the outcome of `calculate_file_md5` for the
        file (`None` for a failure). A file whose digest and relative path are
        both obtained appends one {path, md5} object and counts one file;
        otherwise one error is counted and the array is left as it was. No
        deduplication takes place. */
    method ProcessFile(filepath: CStr, md5: Option<CStr>)
      modifies this
      ensures
        var relative := GetRelativePath(Some(filepath), baseDirectory);
        if md5.Some? && relative.Some? then
          && jsonArray == old(jsonArray) + [FileEntry(md5.value, relative.value)]
          && fileCount == old(fileCount) + 1
          && errorCount == old(errorCount)
        else
          && jsonArray == old(jsonArray)
          && fileCount == old(fileCount)
          && errorCount == old(errorCount) + 1
      ensures old(Consistent()) ==> Consistent()
    {
      if md5.Some? {
        var relative := GetRelativePath(Some(filepath), baseDirectory);
        if relative.None? {
          errorCount := errorCount + 1;
          return;
        }
        jsonArray := jsonArray + [FileEntry(md5.value, relative.value)];
        fileCount := fileCount + 1;
      } else {
        errorCount := errorCount + 1;
      }
    }
  }

  /** The flags `getopt_long` set: `--diff`, `--same`, `--both`. */
  datatype ModeFlags = ModeFlags(diff: bool, same: bool, both: bool)

  /** Where an output of `compare_json_files` goes. */
  datatype OutputTarget = DiffJson | SameJson | DevNull

  /** What `main` does after option parsing. */
  datatype Action =
    | Scan
    | UsageError
    | Compare(diffOutput: OutputTarget, sameOutput: OutputTarget)

  /** The comparison-mode dispatch of `main`; `positional` is `argc - optind`. */
  function SelectAction(flags: ModeFlags, positional: nat): (a: Action)
    ensures a.Scan? <==> !(flags.diff || flags.same || flags.both)
    ensures a.UsageError? <==> (flags.diff || flags.same || flags.both) && positional != 2
    ensures a.Compare? ==> (a.diffOutput == DiffJson <==> flags.both || flags.diff)
    ensures a.Compare? ==> (a.diffOutput == DevNull <==> !(flags.both || flags.diff))
    ensures a.Compare? ==> (a.sameOutput == SameJson <==> flags.both || flags.same)
    ensures a.Compare? ==> (a.sameOutput == DevNull <==> !(flags.both || flags.same))
  {
    if flags.diff || flags.same || flags.both then
      if positional != 2 then UsageError
      else if flags.both || flags.diff then
        if flags.both || flags.same then Compare(DiffJson, SameJson)
        else Compare(DiffJson, DevNull)
      else
        Compare(DevNull, SameJson)
    else
      Scan
  }

  /** The exit status of comparison mode: 1 for a wrong argument count or a
      failed comparison (`compareRc != 0`), 0 otherwise. */
  function CompareExitStatus(a: Action, compareRc: int): (status: int)
    requires !a.Scan?
    ensures status == 0 || status == 1
    ensures status == 1 <==> a.UsageError? || compareRc != 0
  {
    match a
    case UsageError => 1
    case Compare(_, _) => if compareRc != 0 then 1 else 0
  }

  /** The three ways to ask for output, in the terms of the usage text. */
  lemma OutputSelection(positional: nat)
    requires positional == 2
    ensures SelectAction(ModeFlags(false, false, true), positional) == Compare(DiffJson, SameJson)
    ensures SelectAction(ModeFlags(true, true, false), positional) == Compare(DiffJson, SameJson)
    ensures SelectAction(ModeFlags(true, false, false), positional) == Compare(DiffJson, DevNull)
    ensures SelectAction(ModeFlags(false, true, false), positional) == Compare(DevNull, SameJson)
  {
  }
}
