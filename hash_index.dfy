/** The digest-keyed index of lib/json_diff/json_diff.c: the djb2 string hash
    reduced to 1024 buckets, an array of singly linked buckets, insertion at the
    head of a bucket (no deduplication) and lookup scanning from the head.

    Entries are never changed after they are linked in, so a `HashEntry` has only
    constant fields; its ghost `Chain` is the list of (md5, path) pairs from that
    node to the end of its bucket. `HashMap.Log` is the ghost history of every
    successful insertion, oldest first; `Lookup` on that history is the
    specification of `Find`. */
module HashIndex {
  import opened CTypes
  import opened Manifest

  /** `HASH_MAP_SIZE`: the bucket count, and the modulus of `hash_function`. */
  const HASH_MAP_SIZE: int := 1024
  /** Arithmetic on `unsigned int` is modulo 2^32. */
  const UINT_MODULUS: int := 0x1_0000_0000
  const DJB2_SEED: int := 5381

  /** The value `int c = *str` takes for a byte, `char` being signed. */
  function SignedChar(b: CByte): (c: int)
    ensures -128 <= c < 128
    ensures c % 256 == b % 256
  {
    if b < 128 then b else b - 256
  }

  /** The `unsigned int` accumulator of `hash_function` after reading `s`:
      5381, then `h * 33 + c` modulo 2^32 for every byte. */
  function Djb2(s: CStr): (h: int)
    ensures 0 <= h < UINT_MODULUS
  {
    if s == [] then DJB2_SEED
    else (Djb2(s[..|s| - 1]) * 33 + SignedChar(s[|s| - 1])) % UINT_MODULUS
  }

  /** The bucket of a key. */
  function Hash(s: CStr): (i: int)
    ensures 0 <= i < HASH_MAP_SIZE
  {
    Djb2(s) % HASH_MAP_SIZE
  }

  /** `hash_function`: `(hash << 5) + hash` is `hash * 33`, and `unsigned int`
      wrap-around is written out as `% 2^32`. */
  method HashFunction(str: CStr) returns (index: int)
    ensures 0 <= index < HASH_MAP_SIZE
    ensures index == Djb2(str) % HASH_MAP_SIZE
  {
    var hash := DJB2_SEED;
    var i := 0;
    while i < |str|
      invariant 0 <= i <= |str|
      invariant hash == Djb2(str[..i])
    {
      assert str[..i + 1][..i] == str[..i];
      hash := (hash * 33 + SignedChar(str[i])) % UINT_MODULUS;
      i := i + 1;
    }
    assert str[..i] == str;
    index := hash % HASH_MAP_SIZE;
  }

  /** The path most recently recorded for `key` in a history, oldest first. */
  function Lookup(log: seq<FileEntry>, key: CStr): Option<CStr> {
    if log == [] then None
    else if log[|log| - 1].md5 == key then Some(log[|log| - 1].path)
    else Lookup(log[..|log| - 1], key)
  }

  /** The path of the first entry for `key` in a bucket, scanning from the head. */
  function FirstWith(bucket: seq<FileEntry>, key: CStr): Option<CStr> {
    if bucket == [] then None
    else if bucket[0].md5 == key then Some(bucket[0].path)
    else FirstWith(bucket[1..], key)
  }

  /** The contents of bucket `i` after inserting `log` in order into an empty map:
      the entries that hash to `i`, newest first. */
  function BucketOf(log: seq<FileEntry>, i: int): seq<FileEntry> {
    if log == [] then []
    else
      var e := log[|log| - 1];
      (if Hash(e.md5) == i then [e] else []) + BucketOf(log[..|log| - 1], i)
  }

  /** `hash_entry_t`: a node of a bucket list. */
  class HashEntry {
    const md5: CStr
    const path: CStr
    const next: HashEntry?
    /** The pairs from this node to the end of the list. */
    ghost const Chain: seq<FileEntry>
    ghost const Depth: nat

    ghost predicate Valid()
      decreases Depth
    {
      && Depth == |Chain|
      && Chain != []
      && Chain[0] == FileEntry(md5, path)
      && (next == null ==> |Chain| == 1)
      && (next != null ==> next.Depth < Depth && next.Valid() && Chain[1..] == next.Chain)
    }

    constructor (md5: CStr, path: CStr, next: HashEntry?)
      requires next != null ==> next.Valid()
      ensures Valid()
      ensures this.md5 == md5 && this.path == path && this.next == next
      ensures Chain == [FileEntry(md5, path)] + (if next == null then [] else next.Chain)
    {
      var chain := [FileEntry(md5, path)] + (if next == null then [] else next.Chain);
      this.md5 := md5;
      this.path := path;
      this.next := next;
      Chain := chain;
      Depth := |chain|;
    }
  }

  /** `hash_map_t`: `size` bucket heads. */
  class HashMap {
    const size: int
    const buckets: array<HashEntry?>
    /** Every successful insertion so far, oldest first. */
    ghost var Log: seq<FileEntry>

    /** The pairs of bucket `i`, from its head. */
    ghost function Bucket(i: int): seq<FileEntry>
      requires 0 <= i < buckets.Length
      reads buckets
    {
      if buckets[i] == null then [] else buckets[i].Chain
    }

    ghost predicate Valid()
      reads this, buckets
    {
      && size == HASH_MAP_SIZE
      && buckets.Length == size
      && forall i :: 0 <= i < buckets.Length ==>
           (buckets[i] != null ==> buckets[i].Valid()) && Bucket(i) == BucketOf(Log, i)
    }

    /** `create_hash_map`: both call sites pass `HASH_MAP_SIZE`, the only size
        `hash_function` is consistent with. */
    constructor (size: int)
      requires size == HASH_MAP_SIZE
      ensures Valid() && fresh(buckets)
      ensures Log == []
    {
      this.size := size;
      buckets := new HashEntry?[size](_ => null);
      Log := [];
    }
  }

  lemma BucketOfSnoc(log: seq<FileEntry>, e: FileEntry, i: int)
    ensures BucketOf(log + [e], i) == (if Hash(e.md5) == i then [e] else []) + BucketOf(log, i)
  {
    assert (log + [e])[..|log|] == log;
  }

  /** `hash_map_insert`: -1 and no change on a NULL argument; otherwise 0, and a
      new entry at the head of bucket `Hash(md5)` while every other bucket keeps
      its contents. */
  method Insert(hm: HashMap?, md5: Option<CStr>, path: Option<CStr>) returns (rc: int)
    requires hm != null ==> hm.Valid()
    modifies if hm == null then {} else {hm, hm.buckets}
    ensures hm != null ==> hm.Valid()
    ensures rc == (if hm == null || md5.None? || path.None? then -1 else 0)
    ensures rc == -1 && hm != null ==>
      hm.Log == old(hm.Log) && hm.buckets[..] == old(hm.buckets[..])
    ensures rc == 0 ==> hm.Log == old(hm.Log) + [FileEntry(md5.value, path.value)]
    ensures rc == 0 ==>
      var h := Hash(md5.value);
      && hm.Bucket(h) == [FileEntry(md5.value, path.value)] + old(hm.Bucket(h))
      && forall i :: 0 <= i < HASH_MAP_SIZE && i != h ==> hm.Bucket(i) == old(hm.Bucket(i))
  {
    if hm == null || md5.None? || path.None? {
      return -1;
    }
    var index := HashFunction(md5.value);
    var entry := new HashEntry(md5.value, path.value, hm.buckets[index]);
    hm.buckets[index] := entry;
    ghost var e := FileEntry(md5.value, path.value);
    hm.Log := hm.Log + [e];
    forall i | 0 <= i < hm.buckets.Length
      ensures BucketOf(hm.Log, i) == (if i == index then [e] else []) + BucketOf(old(hm.Log), i)
    {
      BucketOfSnoc(old(hm.Log), e, i);
    }
    rc := 0;
  }

  /** Scanning a bucket from its head finds the newest insertion of the key. */
  lemma {:induction false} FirstInBucketIsLatest(log: seq<FileEntry>, key: CStr)
    ensures FirstWith(BucketOf(log, Hash(key)), key) == Lookup(log, key)
  {
    if log != [] {
      var h := Hash(key);
      var init := log[..|log| - 1];
      var e := log[|log| - 1];
      var rest := BucketOf(init, h);
      FirstInBucketIsLatest(init, key);
      assert BucketOf(log, h) == (if Hash(e.md5) == h then [e] else []) + rest;
      if e.md5 == key {
        assert Lookup(log, key) == Some(e.path);
      } else {
        assert Lookup(log, key) == Lookup(init, key);
        if Hash(e.md5) == h {
          assert ([e] + rest)[1..] == rest;
        } else {
          assert [] + rest == rest;
        }
      }
    }
  }

  /** `hash_map_find`: NULL on a NULL argument or when no insertion used the key;
      otherwise the entry of the most recent insertion of the key. */
  method Find(hm: HashMap?, md5: Option<CStr>) returns (found: HashEntry?)
    requires hm != null ==> hm.Valid()
    ensures hm == null || md5.None? ==> found == null
    ensures hm != null && md5.Some? ==>
      && (found == null <==> Lookup(hm.Log, md5.value).None?)
      && (found != null ==> found.md5 == md5.value && Lookup(hm.Log, md5.value) == Some(found.path))
  {
    if hm == null || md5.None? {
      return null;
    }
    var key := md5.value;
    var index := HashFunction(key);
    var entry := hm.buckets[index];
    ghost var bucket := hm.Bucket(index);
    ghost var k := 0;
    FirstInBucketIsLatest(hm.Log, key);
    while entry != null
      invariant 0 <= k <= |bucket|
      invariant entry == null ==> k == |bucket|
      invariant entry != null ==> entry.Valid() && entry.Chain == bucket[k..]
      invariant FirstWith(bucket[k..], key) == FirstWith(bucket, key)
      decreases |bucket| - k
    {
      if entry.md5 == key {
        return entry;
      }
      entry := entry.next;
      k := k + 1;
    }
    return null;
  }

  /** `Lookup` against an independent description: no result exactly when no
      insertion used the key, and otherwise the path of an insertion of the key
      after which the key was never inserted again. */
  lemma {:induction false} LookupIsLastInsertion(log: seq<FileEntry>, key: CStr)
    ensures Lookup(log, key).None? <==> forall j :: 0 <= j < |log| ==> log[j].md5 != key
    ensures Lookup(log, key).Some? ==>
      exists j :: 0 <= j < |log| && log[j] == FileEntry(key, Lookup(log, key).value)
        && forall j' :: j < j' < |log| ==> log[j'].md5 != key
  {
    if log != [] {
      var n := |log| - 1;
      var init := log[..n];
      LookupIsLastInsertion(init, key);
      if log[n].md5 != key {
        if Lookup(init, key).Some? {
          var j :| 0 <= j < |init| && init[j] == FileEntry(key, Lookup(init, key).value)
            && forall j' :: j < j' < |init| ==> init[j'].md5 != key;
          assert log[j] == init[j];
        }
      }
    }
  }

  /** Inserting then looking up the same key gives the path just inserted, and
      other keys are not affected. */
  lemma InsertThenLookup(log: seq<FileEntry>, e: FileEntry, key: CStr)
    ensures Lookup(log + [e], e.md5) == Some(e.path)
    ensures key != e.md5 ==> Lookup(log + [e], key) == Lookup(log, key)
  {
    assert (log + [e])[..|log|] == log;
  }

  /** Insertion does not deduplicate: the same pair inserted twice occupies two
      places in its bucket. */
  lemma InsertKeepsDuplicates(log: seq<FileEntry>, e: FileEntry)
    ensures BucketOf(log + [e] + [e], Hash(e.md5)) == [e, e] + BucketOf(log, Hash(e.md5))
  {
    BucketOfSnoc(log, e, Hash(e.md5));
    BucketOfSnoc(log + [e], e, Hash(e.md5));
  }
}
