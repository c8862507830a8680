/** The splitter: every file of the source directory is read front to back
    in reads of at most `size` bytes, and each non-empty read becomes a new
    file `{name}_{n}` of the output directory, numbered from 1. */
module Splitter {

  import opened Files
  import opened ChunkNames

  /** The reads `f.read(size)` returns until the first empty one: pieces of
      `size` bytes and a shorter last piece. */
  function Chunks(data: Bytes, size: nat): seq<Bytes>
    requires size > 0
    decreases |data|
  {
    if |data| == 0 then []
    else
      var n := if |data| < size then |data| else size;
      [data[..n]] + Chunks(data[n..], size)
  }

  /** The concatenation of a list of pieces. */
  function Flatten(pieces: seq<Bytes>): Bytes {
    if pieces == [] then [] else pieces[0] + Flatten(pieces[1..])
  }

  lemma {:induction false} FlattenAppend(a: seq<Bytes>, b: seq<Bytes>)
    ensures Flatten(a + b) == Flatten(a) + Flatten(b)
  {
    if a != [] {
      assert (a + b)[0] == a[0] && (a + b)[1..] == a[1..] + b;
      FlattenAppend(a[1..], b);
      assert Flatten(a + b) == a[0] + Flatten(a[1..] + b);
    } else {
      assert a + b == b;
    }
  }

  /** Every chunk is non-empty and at most `size` bytes; every chunk but the
      last is exactly `size` bytes. */
  lemma {:induction false} ChunkSizes(data: Bytes, size: nat)
    requires size > 0
    ensures forall i | 0 <= i < |Chunks(data, size)| ::
      0 < |Chunks(data, size)[i]| <= size &&
      (i < |Chunks(data, size)| - 1 ==> |Chunks(data, size)[i]| == size)
    decreases |data|
  {
    if |data| > 0 {
      var n := if |data| < size then |data| else size;
      ChunkSizes(data[n..], size);
      if n < size {
        assert Chunks(data[n..], size) == [];
      }
    }
  }

  /** The chunks, in the order they are written, make up the file exactly. */
  lemma {:induction false} ChunksFlatten(data: Bytes, size: nat)
    requires size > 0
    ensures Flatten(Chunks(data, size)) == data
    decreases |data|
  {
    if |data| > 0 {
      var n := if |data| < size then |data| else size;
      ChunksFlatten(data[n..], size);
      assert Chunks(data, size)[1..] == Chunks(data[n..], size);
      assert data == data[..n] + data[n..];
    }
  }

  /** A file of `L` bytes gives ceil(L / size) chunks; an empty file gives
      none. */
  lemma {:induction false} ChunkCount(data: Bytes, size: nat)
    requires size > 0
    ensures |Chunks(data, size)| == (|data| + size - 1) / size
    ensures |Chunks(data, size)| == 0 <==> |data| == 0
    decreases |data|
  {
    if |data| == 0 {
      DivUnique(size - 1, size, 0, size - 1);
    } else if |data| <= size {
      DivUnique(|data| + size - 1, size, 1, |data| - 1);
    } else {
      ChunkCount(data[size..], size);
      DivShift(|data| + size - 1, size);
    }
  }

  lemma DivShift(m: nat, size: nat)
    requires size > 0 && m >= size
    ensures m / size == (m - size) / size + 1
    ensures m % size == (m - size) % size
  {
    var q, r := (m - size) / size, (m - size) % size;
    assert m == (q + 1) * size + r;
    DivUnique(m, size, q + 1, r);
  }

  /** Quotient and remainder are the only pair with `m == q * d + r` and
      `0 <= r < d`. */
  lemma DivUnique(m: int, d: int, q: int, r: int)
    requires d > 0 && 0 <= r < d && m == q * d + r
    ensures m / d == q && m % d == r
  {
    var q', r' := m / d, m % d;
    assert m == q' * d + r';
    assert (q - q') * d == r' - r by {
      assert (q - q') * d == q * d - q' * d;
    }
    if q > q' {
      MulAtLeast(q - q', d);
    } else if q < q' {
      MulAtLeast(q' - q, d);
    }
  }

  lemma {:induction false} MulAtLeast(a: int, d: int)
    requires a >= 1 && d > 0
    ensures a * d >= d
    decreases a
  {
    if a > 1 {
      MulAtLeast(a - 1, d);
      assert a * d == (a - 1) * d + d;
    }
  }

  /** The last chunk holds `L mod size` bytes, or `size` bytes when `size`
      divides `L`. */
  lemma {:induction false} LastChunkSize(data: Bytes, size: nat)
    requires size > 0 && |data| > 0
    ensures |Chunks(data, size)| > 0
    ensures |Chunks(data, size)[|Chunks(data, size)| - 1]| ==
      if |data| % size == 0 then size else |data| % size
    decreases |data|
  {
    if |data| > size {
      LastChunkSize(data[size..], size);
      DivShift(|data|, size);
    }
  }

  /** The chunk files written for one file `name`, whose chunks are
      `pieces`: part `k` goes to `{name}_{k}`. */
  function FileChunks(name: string, pieces: seq<Bytes>): Dir {
    if pieces == [] then map[]
    else FileChunks(name, pieces[..|pieces| - 1])[ChunkName(name, |pieces|) := pieces[|pieces| - 1]]
  }

  /** `c` is one of the names `{name}_1` .. `{name}_{count}`. */
  predicate NamesChunk(c: string, name: string, count: nat) {
    var id := ParseChunkName(c);
    id.Some? && id.value.base == name && 1 <= id.value.part <= count && c == ChunkName(name, id.value.part)
  }

  /** Chunk `k` of `name`, for 1 <= k <= |pieces|, is stored under
      `{name}_{k}`, and nothing else is written. */
  lemma {:induction false} FileChunksHas(name: string, pieces: seq<Bytes>, c: string)
    ensures c in FileChunks(name, pieces) <==> NamesChunk(c, name, |pieces|)
    ensures c in FileChunks(name, pieces) ==>
      NamesChunk(c, name, |pieces|) && FileChunks(name, pieces)[c] == pieces[ParseChunkName(c).value.part - 1]
    decreases |pieces|
  {
    if pieces != [] {
      var n := |pieces|;
      FileChunksHas(name, pieces[..n - 1], c);
      ParseFormat(name, n);
      if c != ChunkName(name, n) && NamesChunk(c, name, n) {
        assert NamesChunk(c, name, n - 1);
      }
    }
  }

  /** `c` is a name the splitter writes for some file of `src`. */
  predicate Produced(src: Dir, size: nat, c: string)
    requires size > 0
  {
    var id := ParseChunkName(c);
    id.Some? && id.value.base in src && NamesChunk(c, id.value.base, |Chunks(src[id.value.base], size)|)
  }

  /** The bytes the splitter writes under a name it produces. */
  function ProducedChunk(src: Dir, size: nat, c: string): Bytes
    requires size > 0 && Produced(src, size, c)
  {
    var id := ParseChunkName(c).value;
    Chunks(src[id.base], size)[id.part - 1]
  }

  /** Everything the splitter writes for the directory `src`. */
  function SplitOutput(src: Dir, size: nat): Dir
    requires size > 0
  {
    var names := set name, k: nat | name in src && 1 <= k <= |Chunks(src[name], size)| :: ChunkName(name, k);
    map c | c in names && Produced(src, size, c) :: ProducedChunk(src, size, c)
  }

  /** The split output holds exactly the produced names, each with its
      chunk's bytes. */
  lemma SplitOutputAt(src: Dir, size: nat)
    requires size > 0
    ensures forall c :: c in SplitOutput(src, size) <==> Produced(src, size, c)
    ensures forall c | c in SplitOutput(src, size) :: SplitOutput(src, size)[c] == ProducedChunk(src, size, c)
  {
    forall c | Produced(src, size, c)
      ensures c in SplitOutput(src, size)
    {
      var id := ParseChunkName(c).value;
      assert c == ChunkName(id.base, id.part);
    }
  }

  /** Adding one file to the source directory adds exactly its chunk files
      to the split output. */
  lemma SplitOutputInsert(src: Dir, name: string, data: Bytes, size: nat)
    requires size > 0 && name !in src
    ensures SplitOutput(src[name := data], size) == SplitOutput(src, size) + FileChunks(name, Chunks(data, size))
  {
    var lhs := SplitOutput(src[name := data], size);
    var before := SplitOutput(src, size);
    var fc := FileChunks(name, Chunks(data, size));
    forall c
      ensures c in lhs <==> c in before + fc
      ensures c in lhs ==> c in before + fc && lhs[c] == (before + fc)[c]
    {
      SplitOutputHas(src, size, c);
      SplitOutputHas(src[name := data], size, c);
      FileChunksHas(name, Chunks(data, size), c);
      ProducedInsert(src, name, data, size, c);
    }
    MapExtensional(lhs, before + fc);
  }

  lemma SplitOutputHas(src: Dir, size: nat, c: string)
    requires size > 0
    ensures c in SplitOutput(src, size) <==> Produced(src, size, c)
    ensures c in SplitOutput(src, size) ==> SplitOutput(src, size)[c] == ProducedChunk(src, size, c)
  {
    SplitOutputAt(src, size);
  }

  lemma ProducedInsert(src: Dir, name: string, data: Bytes, size: nat, c: string)
    requires size > 0 && name !in src
    ensures Produced(src[name := data], size, c) <==>
      Produced(src, size, c) || NamesChunk(c, name, |Chunks(data, size)|)
    ensures !(Produced(src, size, c) && NamesChunk(c, name, |Chunks(data, size)|))
    ensures Produced(src, size, c) ==> ProducedChunk(src[name := data], size, c) == ProducedChunk(src, size, c)
    ensures NamesChunk(c, name, |Chunks(data, size)|) ==>
      ProducedChunk(src[name := data], size, c) == Chunks(data, size)[ParseChunkName(c).value.part - 1]
  {
  }

  lemma FileChunksSnoc(name: string, pieces: seq<Bytes>, piece: Bytes, out: Dir)
    ensures (out + FileChunks(name, pieces))[ChunkName(name, |pieces| + 1) := piece]
         == out + FileChunks(name, pieces + [piece])
  {
    assert (pieces + [piece])[..|pieces|] == pieces;
  }

  /** One read at position `pos`: the chunk is `data[pos..end]` and the rest
      of the file is split from `end` on. */
  lemma ChunksFrom(data: Bytes, size: nat, pos: nat, end: nat)
    requires size > 0 && pos < end <= |data|
    requires end == if |data| - pos < size then |data| else pos + size
    ensures Chunks(data[pos..], size) == [data[pos..end]] + Chunks(data[end..], size)
  {
    assert data[pos..][..end - pos] == data[pos..end];
    assert data[pos..][end - pos..] == data[end..];
  }

  /** The splitter on one file: reads of at most `size` bytes until an
      empty read, each written to the next numbered chunk file. */
  method SplitFile(name: string, data: Bytes, size: nat, out: Dir) returns (res: Dir)
    requires size > 0
    ensures res == out + FileChunks(name, Chunks(data, size))
  {
    res := out;
    var pos := 0;
    var part := 1;
    ghost var written: seq<Bytes> := [];
    while true
      invariant pos <= |data|
      invariant part == |written| + 1
      invariant Chunks(data, size) == written + Chunks(data[pos..], size)
      invariant res == out + FileChunks(name, written)
      decreases |data| - pos
    {
      var end := if |data| - pos < size then |data| else pos + size;
      var chunk := data[pos..end];
      if |chunk| == 0 {
        assert data[pos..] == [];
        assert written + [] == written;
        break;
      }
      ChunksFrom(data, size, pos, end);
      FileChunksSnoc(name, written, chunk, out);
      res := res[ChunkName(name, part) := chunk];
      written := written + [chunk];
      part := part + 1;
      pos := end;
    }
  }

  lemma MapUnionAssoc(a: Dir, b: Dir, c: Dir)
    ensures (a + b) + c == a + (b + c)
  {
  }

  lemma RemoveOneLess(src: Dir, todo: set<string>, name: string)
    requires name in todo && todo <= src.Keys
    ensures src - (todo - {name}) == (src - todo)[name := src[name]]
  {
  }

  /** The splitter on a directory: every file, in whatever order the
      listing gives them, split into the output directory. */
  method SplitFiles(src: Dir, out: Dir, size: nat) returns (res: Dir)
    requires size > 0
    ensures res == out + SplitOutput(src, size)
  {
    res := out;
    var todo := src.Keys;
    while todo != {}
      invariant todo <= src.Keys
      invariant res == out + SplitOutput(src - todo, size)
      decreases todo
    {
      var name :| name in todo;
      ghost var done := src - todo;
      res := SplitFile(name, src[name], size, res);
      SplitOutputInsert(done, name, src[name], size);
      MapUnionAssoc(out, SplitOutput(done, size), FileChunks(name, Chunks(src[name], size)));
      RemoveOneLess(src, todo, name);
      todo := todo - {name};
    }
    assert src - {} == src;
  }
}
