/** What the programs exchange through JSON files: object members as the
    cJSON accessors see them, and the (md5, path) pair of one scanned file. */
module Manifest {
  import opened CTypes

  /** An object member as `cJSON_GetObjectItem` and `cJSON_IsString` see it:
      missing, a string, or some other JSON value. */
  datatype Field = Absent | Text(s: CStr) | NonText

  /** One (md5, path) pair: a `{path, md5}` object of a manifest's `files`
      array, or an entry of the digest index. */
  datatype FileEntry = FileEntry(md5: CStr, path: CStr)
}
