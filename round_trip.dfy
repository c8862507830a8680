/** Splitting a directory into an empty output directory and merging that
    output gives back every non-empty file under its own name with its own
    bytes.  An empty file gives no chunk, so nothing brings it back. */
module RoundTrip {

  import opened Files
  import opened ChunkNames
  import opened Ordering
  import opened Splitter
  import opened Merger

  /** The files of `src` that hold at least one byte. */
  function NonEmptyFiles(src: Dir): Dir {
    map name | name in src && |src[name]| > 0 :: src[name]
  }

  /** The entries the merger collects for the chunks of one file, in part
      order: (1, `{name}_1`), ..., (count, `{name}_{count}`). */
  function ChunkEntries(name: string, count: nat): (es: seq<Entry>)
    ensures |es| == count
    ensures forall i | 0 <= i < count :: es[i] == Entry(i + 1, ChunkName(name, i + 1))
  {
    seq(count, i requires 0 <= i < count => Entry(i + 1, ChunkName(name, i + 1)))
  }

  /** A duplicate-free list holds each element of its set exactly once. */
  lemma {:induction false} DistinctMultiset(es: seq<Entry>, g: set<Entry>)
    requires forall i, j | 0 <= i < j < |es| :: es[i] != es[j]
    requires forall e :: e in es <==> e in g
    ensures multiset(es) == multiset(g)
    decreases |es|
  {
    if es == [] {
      assert g == {};
    } else {
      var rest := g - {es[0]};
      forall e
        ensures e in es[1..] <==> e in rest
      {
        if e in es[1..] {
          var k :| 0 <= k < |es[1..]| && es[1..][k] == e;
          assert es[k + 1] == e && es[0] != es[k + 1];
        }
      }
      DistinctMultiset(es[1..], rest);
      assert es == [es[0]] + es[1..];
      assert g == rest + {es[0]};
    }
  }

  /** A base name gets a merged file exactly when the file of that name
      exists and is not empty. */
  lemma SplitBases(src: Dir, size: nat, base: string)
    requires size > 0
    ensures Group(SplitOutput(src, size).Keys, base) != {} <==> base in src && |src[base]| > 0
  {
    var split := SplitOutput(src, size);
    if base in src && |src[base]| > 0 {
      ChunkCount(src[base], size);
      ParseFormat(base, 1);
      SplitOutputHas(src, size, ChunkName(base, 1));
      GroupHas(split.Keys, base, Entry(1, ChunkName(base, 1)));
    }
    if Group(split.Keys, base) != {} {
      var e :| e in Group(split.Keys, base);
      GroupHas(split.Keys, base, e);
      SplitOutputHas(src, size, e.name);
      ChunkCount(src[base], size);
    }
  }

  /** The group of `base` in the split output is exactly the chunks
      `{base}_1` .. `{base}_n` of the file `base`. */
  lemma SplitGroup(src: Dir, size: nat, base: string)
    requires size > 0 && base in src
    ensures multiset(ChunkEntries(base, |Chunks(src[base], size)|)) ==
      multiset(Group(SplitOutput(src, size).Keys, base))
  {
    var split := SplitOutput(src, size);
    var n := |Chunks(src[base], size)|;
    var es := ChunkEntries(base, n);
    var g := Group(split.Keys, base);
    forall e
      ensures e in es <==> e in g
    {
      GroupHas(split.Keys, base, e);
      SplitOutputHas(src, size, e.name);
      if e in es {
        var i :| 0 <= i < n && es[i] == e;
        ParseFormat(base, i + 1);
      }
      if e in g {
        var id := ParseChunkName(e.name).value;
        assert es[e.part - 1] == e;
      }
    }
    forall i, j | 0 <= i < j < n
      ensures es[i] != es[j]
    {
    }
    DistinctMultiset(es, g);
  }

  lemma ChunkEntriesSorted(name: string, count: nat)
    ensures Sorted(ChunkEntries(name, count))
  {
  }

  /** Chunk `k` of file `base` is in the split output under `{base}_{k}`. */
  lemma SplitChunk(src: Dir, size: nat, base: string, k: nat)
    requires size > 0 && base in src && 1 <= k <= |Chunks(src[base], size)|
    ensures ChunkName(base, k) in SplitOutput(src, size)
    ensures SplitOutput(src, size)[ChunkName(base, k)] == Chunks(src[base], size)[k - 1]
  {
    var c := ChunkName(base, k);
    ParseFormat(base, k);
    assert Produced(src, size, c);
    assert ProducedChunk(src, size, c) == Chunks(src[base], size)[k - 1];
    SplitOutputHas(src, size, c);
  }

  /** `dir` holds piece `i` of `cs` under the chunk name `{base}_{i+1}`. */
  predicate HoldsPieces(dir: Dir, base: string, cs: seq<Bytes>) {
    forall k | 1 <= k <= |cs| :: ChunkName(base, k) in dir && dir[ChunkName(base, k)] == cs[k - 1]
  }

  /** A directory holding pieces `cs` under `{base}_1`, `{base}_2`, ...:
      appending its first `k` chunk files in part order gives the first `k`
      pieces joined. */
  lemma {:induction false} JoinNumbered(dir: Dir, base: string, cs: seq<Bytes>, k: nat)
    requires k <= |cs| && HoldsPieces(dir, base, cs)
    ensures forall e | e in ChunkEntries(base, k) :: e.name in dir
    ensures Join(dir, ChunkEntries(base, k)) == Flatten(cs[..k])
    decreases k
  {
    var es := ChunkEntries(base, k);
    if k > 0 {
      JoinNumbered(dir, base, cs, k - 1);
      assert es[..k - 1] == ChunkEntries(base, k - 1);
      assert cs[..k] == cs[..k - 1] + [cs[k - 1]];
      FlattenAppend(cs[..k - 1], [cs[k - 1]]);
      assert Flatten([cs[k - 1]]) == cs[k - 1] + Flatten([]);
    }
  }

  /** The split output holds every chunk of `base` under its chunk name. */
  lemma SplitHoldsPieces(src: Dir, size: nat, base: string)
    requires size > 0 && base in src
    ensures HoldsPieces(SplitOutput(src, size), base, Chunks(src[base], size))
  {
    var split := SplitOutput(src, size);
    var cs := Chunks(src[base], size);
    forall k | 1 <= k <= |cs|
      ensures ChunkName(base, k) in split && split[ChunkName(base, k)] == cs[k - 1]
    {
      SplitChunk(src, size, base, k);
    }
  }

  /** The merged file for a non-empty file's name holds that file's bytes. */
  lemma RestoredFile(src: Dir, size: nat, base: string)
    requires size > 0 && base in src && |src[base]| > 0
    ensures base in MergeOutput(SplitOutput(src, size))
    ensures MergeOutput(SplitOutput(src, size))[base] == src[base]
  {
    var split := SplitOutput(src, size);
    var cs := Chunks(src[base], size);
    var es := ChunkEntries(base, |cs|);
    SplitHoldsPieces(src, size, base);
    JoinNumbered(split, base, cs, |cs|);
    ChunkCount(src[base], size);
    SplitGroup(src, size, base);
    ChunkEntriesSorted(base, |cs|);
    MergedFile(split, base, es);
    assert cs[..|cs|] == cs;
    ChunksFlatten(src[base], size);
  }

  /** Split, then merge, restores every non-empty file of the directory:
      the same names, the same bytes, and no other file. */
  lemma SplitThenMerge(src: Dir, size: nat)
    requires size > 0
    ensures MergeOutput(SplitOutput(src, size)) == NonEmptyFiles(src)
  {
    var split := SplitOutput(src, size);
    var merged := MergeOutput(split);
    var restored := NonEmptyFiles(src);
    MergeOutputKeys(split);
    forall base
      ensures base in merged <==> base in restored
      ensures base in merged ==> base in restored && merged[base] == restored[base]
    {
      BasesHas(split.Keys, base);
      SplitBases(src, size, base);
      if base in restored {
        RestoredFile(src, size, base);
      }
    }
    MapExtensional(merged, restored);
  }

  /** The round trip with the chunk size the program uses, 25 MiB. */
  lemma SplitThenMergeChunkSize(src: Dir)
    ensures MergeOutput(SplitOutput(src, CHUNK_SIZE)) == NonEmptyFiles(src)
  {
    SplitThenMerge(src, CHUNK_SIZE);
  }
}
