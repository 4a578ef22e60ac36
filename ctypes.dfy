/** C-level value types shared by every part of the model: NUL-free byte strings,
    nullable pointers, and the two string predicates the C library gives the
    program (`strncmp` against a whole prefix, and `strstr`). */
module CTypes {

  /** A byte that can occur inside a NUL-terminated C string. */
  type CByte = b: int | 0 < b < 256 witness 1

  /** The characters of a C string, without its terminating NUL. */
  type CStr = seq<CByte>

  /** A nullable pointer: `None` stands for NULL. */
  datatype Option<+T> = None | Some(value: T)

  const DOT: CByte := 46    // '.'
  const SLASH: CByte := 47  // '/'
  const PIPE: CByte := 124  // '|'

  /** `strncmp(s, prefix, strlen(prefix)) == 0`: the first `strlen(prefix)`
      bytes agree one by one, a shorter `s` failing at its NUL. */
  predicate IsPrefix(prefix: CStr, s: CStr)
    ensures IsPrefix(prefix, s) <==>
      |prefix| <= |s| && forall i :: 0 <= i < |prefix| ==> s[i] == prefix[i]
    ensures IsPrefix(prefix, s) ==> s == prefix + s[|prefix|..]
  {
    |prefix| <= |s| && s[..|prefix|] == prefix
  }

  /** `needle` occurs in `hay` starting at offset `i`. */
  predicate OccursAt(hay: CStr, needle: CStr, i: int) {
    0 <= i <= |hay| - |needle| && hay[i..i + |needle|] == needle
  }

  /** `strstr(hay, needle) != NULL` for a non-empty needle: the needle occurs
      somewhere in `hay`. It cannot be longer than `hay`, a prefix is found,
      and of equal lengths only `hay` itself is found. */
  predicate Contains(hay: CStr, needle: CStr)
    ensures Contains(hay, needle) ==> |needle| <= |hay|
    ensures IsPrefix(needle, hay) ==> Contains(hay, needle)
    ensures |needle| == |hay| ==> (Contains(hay, needle) <==> hay == needle)
  {
    assert IsPrefix(needle, hay) ==> OccursAt(hay, needle, 0);
    exists i :: 0 <= i <= |hay| - |needle| && OccursAt(hay, needle, i)
  }
}
