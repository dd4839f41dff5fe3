/** Shard collection: `collect_data` in build_triples.py. The directory
    listing and the decoding of each compressed JSON-lines shard are I/O;
    here the listing is a sequence of file names and `read` gives the
    records decoded from one shard. */
module Shards {

  /** The extension of a compressed JSON-lines shard. */
  const ShardSuffix: string := ".jsonl.gz"

  /** Python's `s.endswith(suffix)`. */
  predicate EndsWith(s: string, suffix: string): (b: bool)
    ensures b <==> exists front :: front + suffix == s
  {
    if |suffix| <= |s| && s[|s| - |suffix|..] == suffix then
      assert s[..|s| - |suffix|] + suffix == s;
      true
    else
      false
  }

  /** Line 26: the names of the listing that end in `.jsonl.gz`, in the
      order of the listing. */
  function ShardFileNames(listing: seq<string>): (names: seq<string>)
    ensures |names| <= |listing|
    ensures forall k :: 0 <= k < |names| ==> EndsWith(names[k], ShardSuffix) && names[k] in listing
  {
    if listing == [] then []
    else
      var rest := ShardFileNames(listing[1..]);
      if EndsWith(listing[0], ShardSuffix) then [listing[0]] + rest else rest
  }

  /** No shard file of the listing is passed over. */
  lemma {:induction false} ShardFileNamesComplete(listing: seq<string>)
    ensures forall k :: 0 <= k < |listing| && EndsWith(listing[k], ShardSuffix) ==> listing[k] in ShardFileNames(listing)
  {
    if listing != [] {
      ShardFileNamesComplete(listing[1..]);
      forall k | 1 <= k < |listing| && EndsWith(listing[k], ShardSuffix)
        ensures listing[k] in ShardFileNames(listing)
      {
        assert listing[k] == listing[1..][k - 1];
      }
    }
  }

  /** Filtering a listing in two parts filters each part and keeps them in
      order: the shard files are read in the order they are listed. */
  lemma {:induction false} ShardFileNamesConcat(a: seq<string>, b: seq<string>)
    ensures ShardFileNames(a + b) == ShardFileNames(a) + ShardFileNames(b)
  {
    if a == [] {
      assert a + b == b;
    } else {
      assert (a + b)[1..] == a[1..] + b;
      ShardFileNamesConcat(a[1..], b);
    }
  }

  /** Lines 27-28: the listing holds no shard file exactly when no name in
      it ends in `.jsonl.gz`, which is when `collect_data` raises. */
  lemma ShardFileNamesEmpty(listing: seq<string>)
    ensures ShardFileNames(listing) == [] <==> forall k :: 0 <= k < |listing| ==> !EndsWith(listing[k], ShardSuffix)
  {
    ShardFileNamesComplete(listing);
  }

  /** The records of the shards `files`, one shard after the other. */
  function Concat<T>(files: seq<string>, read: string -> seq<T>): (rows: seq<T>)
    ensures forall x :: x in rows ==> exists k :: 0 <= k < |files| && x in read(files[k])
  {
    if files == [] then []
    else
      var front := files[..|files| - 1];
      assert forall k :: 0 <= k < |front| ==> front[k] == files[k];
      Concat(front, read) + read(files[|files| - 1])
  }

  /** A record is collected exactly when one of the files holds it. */
  lemma {:induction false} ConcatMembership<T>(files: seq<string>, read: string -> seq<T>, x: T)
    ensures x in Concat(files, read) <==> exists k :: 0 <= k < |files| && x in read(files[k])
  {
    if files != [] {
      var front := files[..|files| - 1];
      ConcatMembership(front, read, x);
      assert forall k :: 0 <= k < |front| ==> front[k] == files[k];
    }
  }

  /** What `collect_data` gives: the records of every shard, or the error
      it raises when the directory holds no shard file. */
  datatype Collected<T> = Collected(rows: seq<T>) | NoShardFiles(dir: string)

  /** `collect_data`: filter the listing, fail when nothing is left, then
      extend the record list shard by shard. */
  method CollectData<T>(dir: string, listing: seq<string>, read: string -> seq<T>) returns (r: Collected<T>)
    ensures r.NoShardFiles? <==> forall k :: 0 <= k < |listing| ==> !EndsWith(listing[k], ShardSuffix)
    ensures r.NoShardFiles? ==> r.dir == dir
    ensures r.Collected? ==> r.rows == Concat(ShardFileNames(listing), read)
  {
    var filenames := ShardFileNames(listing);
    ShardFileNamesEmpty(listing);
    if filenames == [] {
      return NoShardFiles(dir);
    }
    var functions: seq<T> := [];
    var i := 0;
    while i < |filenames|
      invariant 0 <= i <= |filenames|
      invariant functions == Concat(filenames[..i], read)
    {
      assert filenames[..i + 1][..i] == filenames[..i];
      functions := functions + read(filenames[i]);
      i := i + 1;
    }
    assert filenames[..i] == filenames;
    r := Collected(functions);
  }
}
