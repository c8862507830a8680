/** The merger: every entry of the source directory whose name parses as a
    chunk name is grouped under its base name; each group is sorted by
    (part number, file name) and its contents are concatenated into one
    output file named by the base name. */
module Merger {

  import opened Files
  import opened ChunkNames
  import opened Ordering

  /** The list the merger builds for base name `base` out of the entries
      `names`, as a set: one (part, name) entry per chunk of that group. */
  ghost function Group(names: set<string>, base: string): set<Entry> {
    set name | name in names && ParseChunkName(name).Some? && ParseChunkName(name).value.base == base
      :: Entry(ParseChunkName(name).value.part, name)
  }

  /** The base names of all entries of `names` that parse as chunk names. */
  ghost function Bases(names: set<string>): set<string> {
    set name | name in names && ParseChunkName(name).Some? :: ParseChunkName(name).value.base
  }

  lemma GroupHas(names: set<string>, base: string, e: Entry)
    ensures e in Group(names, base) <==> e.name in names && ParseChunkName(e.name) == Some(ChunkId(base, e.part))
  {
    if e.name in names && ParseChunkName(e.name) == Some(ChunkId(base, e.part)) {
      assert Entry(ParseChunkName(e.name).value.part, e.name) == e;
    }
  }

  lemma BasesHas(names: set<string>, base: string)
    ensures base in Bases(names) <==> Group(names, base) != {}
  {
    if base in Bases(names) {
      var name :| name in names && ParseChunkName(name).Some? && ParseChunkName(name).value.base == base;
      GroupHas(names, base, Entry(ParseChunkName(name).value.part, name));
    }
    if Group(names, base) != {} {
      var e :| e in Group(names, base);
      GroupHas(names, base, e);
    }
  }

  /** Every entry of a list holding the group's entries names a file of the
      directory. */
  lemma GroupNamesIn(names: set<string>, base: string, es: seq<Entry>)
    requires multiset(es) == multiset(Group(names, base))
    ensures forall e | e in es :: e.name in names
  {
    forall e | e in es
      ensures e.name in names
    {
      assert e in multiset(es);
      GroupHas(names, base, e);
    }
  }

  /** Some listing of a finite set, in no particular order. */
  ghost function Enumerate(g: set<Entry>): (es: seq<Entry>)
    ensures multiset(es) == multiset(g)
    decreases g
  {
    if g == {} then []
    else
      var e :| e in g;
      assert g == (g - {e}) + {e};
      [e] + Enumerate(g - {e})
  }

  /** The group's entries in the order `sorted` gives them. */
  ghost function Ordered(g: set<Entry>): (es: seq<Entry>)
    ensures Sorted(es)
    ensures multiset(es) == multiset(g)
  {
    Sort(Enumerate(g))
  }

  /** The bytes written to an output file that appends the files `es` of
      `dir` one after the other. */
  function Join(dir: Dir, es: seq<Entry>): Bytes
    requires forall e | e in es :: e.name in dir
  {
    if es == [] then [] else Join(dir, es[..|es| - 1]) + dir[es[|es| - 1].name]
  }

  /** The contents of the reconstructed file `base`. */
  ghost function GroupContent(src: Dir, base: string): Bytes {
    var es := Ordered(Group(src.Keys, base));
    GroupNamesIn(src.Keys, base, es);
    Join(src, es)
  }

  /** Everything the merger writes for the directory `src`. */
  ghost function MergeOutput(src: Dir): Dir {
    map base | base in Bases(src.Keys) :: GroupContent(src, base)
  }

  lemma MergeOutputKeys(src: Dir)
    ensures MergeOutput(src).Keys == Bases(src.Keys)
  {
  }

  /** The merger writes one file per base name that occurs among the chunk
      names of `src`, and nothing for a name that is not a chunk name. */
  lemma MergeOutputNames(src: Dir, base: string)
    ensures base in MergeOutput(src) <==>
      exists name :: name in src && ParseChunkName(name).Some? && ParseChunkName(name).value.base == base
  {
  }

  /** The file written for `base` is the group's chunks appended in any
      ascending (part, name) order of the group; there is exactly one such
      order, so the directory listing's order does not matter. */
  lemma MergedFile(src: Dir, base: string, es: seq<Entry>)
    requires Sorted(es) && multiset(es) == multiset(Group(src.Keys, base)) && es != []
    ensures base in MergeOutput(src)
    ensures forall e | e in es :: e.name in src
    ensures MergeOutput(src)[base] == Join(src, es)
  {
    GroupNamesIn(src.Keys, base, es);
    assert es[0] in multiset(Group(src.Keys, base));
    BasesHas(src.Keys, base);
    SortedUnique(es, Ordered(Group(src.Keys, base)));
  }

  /** Appending files depends only on the contents of the files appended. */
  lemma {:induction false} JoinFrame(a: Dir, b: Dir, es: seq<Entry>)
    requires forall e | e in es :: e.name in a && e.name in b && a[e.name] == b[e.name]
    ensures Join(a, es) == Join(b, es)
    decreases |es|
  {
    if es != [] {
      var init := es[..|es| - 1];
      assert forall e | e in init :: e in es;
      JoinFrame(a, b, init);
    }
  }

  /** A name the merger does not parse leaves its output as it was: such a
      file neither starts a group nor joins one. */
  lemma IgnoredEntry(src: Dir, name: string, data: Bytes)
    requires ParseChunkName(name).None?
    ensures MergeOutput(src[name := data]) == MergeOutput(src)
  {
    var grown := src[name := data];
    forall base
      ensures base in MergeOutput(grown) <==> base in MergeOutput(src)
      ensures base in MergeOutput(grown) ==> MergeOutput(grown)[base] == MergeOutput(src)[base]
    {
      IgnoredEntryGroup(src, name, data, base);
      BasesHas(grown.Keys, base);
      BasesHas(src.Keys, base);
      if base in MergeOutput(src) {
        IgnoredEntryFile(src, name, data, base);
      }
    }
    MapExtensional(MergeOutput(grown), MergeOutput(src));
  }

  lemma IgnoredEntryFile(src: Dir, name: string, data: Bytes, base: string)
    requires ParseChunkName(name).None? && base in MergeOutput(src)
    ensures base in MergeOutput(src[name := data])
    ensures MergeOutput(src[name := data])[base] == MergeOutput(src)[base]
  {
    var grown := src[name := data];
    var es := Ordered(Group(src.Keys, base));
    IgnoredEntryGroup(src, name, data, base);
    BasesHas(src.Keys, base);
    MergedFile(src, base, es);
    MergedFile(grown, base, es);
    IgnoredEntryJoin(src, name, data, base, es);
  }

  lemma IgnoredEntryJoin(src: Dir, name: string, data: Bytes, base: string, es: seq<Entry>)
    requires ParseChunkName(name).None? && multiset(es) == multiset(Group(src.Keys, base))
    ensures forall e | e in es :: e.name in src && e.name in src[name := data]
    ensures Join(src[name := data], es) == Join(src, es)
  {
    forall e | e in es
      ensures e.name in src && e.name in src[name := data] && src[e.name] == src[name := data][e.name]
    {
      assert e in multiset(Group(src.Keys, base));
      GroupHas(src.Keys, base, e);
    }
    JoinFrame(src[name := data], src, es);
  }

  lemma IgnoredEntryGroup(src: Dir, name: string, data: Bytes, base: string)
    requires ParseChunkName(name).None?
    ensures Group(src[name := data].Keys, base) == Group(src.Keys, base)
  {
    forall e
      ensures e in Group(src[name := data].Keys, base) <==> e in Group(src.Keys, base)
    {
      GroupHas(src[name := data].Keys, base, e);
      GroupHas(src.Keys, base, e);
    }
  }

  lemma BasesInsert(names: set<string>, name: string)
    ensures Bases(names + {name}) ==
      Bases(names) + (if ParseChunkName(name).Some? then {ParseChunkName(name).value.base} else {})
  {
  }

  lemma GroupInsert(names: set<string>, name: string, base: string)
    requires name !in names
    ensures multiset(Group(names + {name}, base)) ==
      multiset(Group(names, base)) +
      if ParseChunkName(name).Some? && ParseChunkName(name).value.base == base
      then multiset{Entry(ParseChunkName(name).value.part, name)} else multiset{}
  {
    var grown := Group(names + {name}, base);
    var g := Group(names, base);
    if ParseChunkName(name).Some? && ParseChunkName(name).value.base == base {
      var e := Entry(ParseChunkName(name).value.part, name);
      GroupHas(names, base, e);
      forall x
        ensures x in grown <==> x in g + {e}
      {
        GroupHas(names + {name}, base, x);
        GroupHas(names, base, x);
      }
      assert grown == g + {e};
    } else {
      forall x
        ensures x in grown <==> x in g
      {
        GroupHas(names + {name}, base, x);
        GroupHas(names, base, x);
      }
      assert grown == g;
    }
  }

  /** Writing one more merged file extends the part of the output done. */
  lemma WriteStep(out: Dir, merged: Dir, pending: set<string>, res: Dir, key: string, content: Bytes)
    requires res == out + (merged - pending)
    requires key in pending && key in merged && content == merged[key]
    ensures res[key := content] == out + (merged - (pending - {key}))
  {
    var step := (merged - pending)[key := merged[key]];
    assert merged - (pending - {key}) == step;
    assert (out + (merged - pending))[key := merged[key]] == out + step;
  }

  /** `groups` is the merger's dictionary after it has seen the entries
      `names`: one list per base name, holding that group's entries. */
  ghost predicate Grouped(groups: map<string, seq<Entry>>, names: set<string>) {
    && groups.Keys == Bases(names)
    && forall base | base in groups :: multiset(groups[base]) == multiset(Group(names, base))
  }

  lemma GroupedAddChunk(groups: map<string, seq<Entry>>, names: set<string>, name: string, id: ChunkId)
    requires Grouped(groups, names) && name !in names && ParseChunkName(name) == Some(id)
    ensures Grouped(groups[id.base := (if id.base in groups then groups[id.base] else []) + [Entry(id.part, name)]],
                    names + {name})
  {
    var grown := groups[id.base := (if id.base in groups then groups[id.base] else []) + [Entry(id.part, name)]];
    BasesHas(names, id.base);
    BasesInsert(names, name);
    forall base | base in grown
      ensures multiset(grown[base]) == multiset(Group(names + {name}, base))
    {
      GroupInsert(names, name, base);
    }
  }

  lemma GroupedSkip(groups: map<string, seq<Entry>>, names: set<string>, name: string)
    requires Grouped(groups, names) && name !in names && ParseChunkName(name).None?
    ensures Grouped(groups, names + {name})
  {
    BasesInsert(names, name);
    forall base | base in groups
      ensures multiset(groups[base]) == multiset(Group(names + {name}, base))
    {
      GroupInsert(names, name, base);
    }
  }

  lemma NothingWrittenYet(out: Dir, merged: Dir)
    ensures out == out + (merged - merged.Keys)
  {
    assert merged - merged.Keys == map[];
  }

  lemma AllWritten(out: Dir, merged: Dir)
    ensures out + (merged - {}) == out + merged
  {
    assert merged - {} == merged;
  }

  lemma SeenOneMore(names: set<string>, todo: set<string>, name: string)
    requires name in todo && todo <= names
    ensures names - (todo - {name}) == (names - todo) + {name}
  {
  }

  /** The grouping pass: every entry whose name parses as a chunk name is
      appended, as (part, name), to the list of its base name. */
  method GroupChunks(names: set<string>) returns (groups: map<string, seq<Entry>>)
    ensures groups.Keys == Bases(names)
    ensures forall base | base in groups :: multiset(groups[base]) == multiset(Group(names, base))
  {
    groups := map[];
    var todo := names;
    while todo != {}
      invariant todo <= names
      invariant Grouped(groups, names - todo)
      decreases |todo|
    {
      var name :| name in todo;
      ghost var done := names - todo;
      var parsed := ParseChunkName(name);
      if parsed.Some? {
        var base := parsed.value.base;
        var list := if base in groups then groups[base] else [];
        GroupedAddChunk(groups, done, name, parsed.value);
        groups := groups[base := list + [Entry(parsed.value.part, name)]];
      } else {
        GroupedSkip(groups, done, name);
      }
      SeenOneMore(names, todo, name);
      todo := todo - {name};
    }
    assert names - {} == names;
  }

  /** Appends the files `sorted` of `src` one after the other into a fresh
      output file. */
  method AppendChunks(src: Dir, sorted: seq<Entry>) returns (content: Bytes)
    requires forall e | e in sorted :: e.name in src
    ensures content == Join(src, sorted)
  {
    content := [];
    for i := 0 to |sorted|
      invariant content == Join(src, sorted[..i])
    {
      assert sorted[..i + 1][..i] == sorted[..i];
      content := content + src[sorted[i].name];
    }
    assert sorted[..|sorted|] == sorted;
  }

  /** One group's output file: its entries sorted by (part, name), then
      the chunk files appended in that order. */
  method MergeGroup(src: Dir, base: string, list: seq<Entry>) returns (content: Bytes)
    requires multiset(list) == multiset(Group(src.Keys, base))
    requires base in Bases(src.Keys)
    ensures base in MergeOutput(src) && content == MergeOutput(src)[base]
  {
    var sorted := Sort(list);
    GroupNamesIn(src.Keys, base, sorted);
    content := AppendChunks(src, sorted);
    BasesHas(src.Keys, base);
    MergedFile(src, base, sorted);
  }

  /** The merger on a directory: group the chunk names, then for every
      group write the concatenation of its chunks in sorted order. */
  method MergeFiles(src: Dir, out: Dir) returns (res: Dir)
    ensures res == out + MergeOutput(src)
  {
    var groups := GroupChunks(src.Keys);
    ghost var merged := MergeOutput(src);
    MergeOutputKeys(src);
    res := out;
    var pending := groups.Keys;
    NothingWrittenYet(out, merged);
    while pending != {}
      invariant pending <= groups.Keys
      invariant res == out + (merged - pending)
      decreases pending
    {
      var base :| base in pending;
      var content := MergeGroup(src, base, groups[base]);
      WriteStep(out, merged, pending, res, base, content);
      res := res[base := content];
      pending := pending - {base};
    }
    AllWritten(out, merged);
  }

  /** The parts of a file `f`, listed as `{f}_10`, `{f}_2`, `{f}_1`, are
      joined in part order 1, 2, 10 into the single output file `f`. */
  lemma MergeExample(f: string, a: Bytes, b: Bytes, c: Bytes)
    ensures MergeOutput(map[ChunkName(f, 10) := c, ChunkName(f, 2) := b, ChunkName(f, 1) := a]) == map[f := a + b + c]
  {
    var n1, n2, n10 := ChunkName(f, 1), ChunkName(f, 2), ChunkName(f, 10);
    ExampleChunkNames(f);
    var src := map[n10 := c, n2 := b, n1 := a];
    assert src.Keys == {n10, n2, n1};
    assert n1 != n2 && n1 != n10 && n2 != n10 by {
      assert ParseChunkName(n1) != ParseChunkName(n2);
      assert ParseChunkName(n1) != ParseChunkName(n10);
      assert ParseChunkName(n2) != ParseChunkName(n10);
    }
    assert src[n1] == a && src[n2] == b && src[n10] == c;
    ExampleMerge(f, src, n1, n2, n10);
  }

  lemma ExampleChunkNames(f: string)
    ensures ExampleNames(f, ChunkName(f, 1), ChunkName(f, 2), ChunkName(f, 10))
  {
    ParseFormat(f, 1);
    ParseFormat(f, 2);
    ParseFormat(f, 10);
  }

  /** The three chunk names of the example parse as parts 1, 2 and 10 of
      `f`. */
  predicate ExampleNames(f: string, n1: string, n2: string, n10: string) {
    && ParseChunkName(n1) == Some(ChunkId(f, 1))
    && ParseChunkName(n2) == Some(ChunkId(f, 2))
    && ParseChunkName(n10) == Some(ChunkId(f, 10))
  }

  lemma ExampleMerge(f: string, src: Dir, n1: string, n2: string, n10: string)
    requires ExampleNames(f, n1, n2, n10) && src.Keys == {n10, n2, n1}
    ensures MergeOutput(src) == map[f := src[n1] + src[n2] + src[n10]]
  {
    ExampleBases(f, src.Keys, n1, n2, n10);
    MergeOutputKeys(src);
    ExampleMergedFile(f, src, n1, n2, n10);
    SingleEntry(MergeOutput(src), f);
  }

  lemma ExampleMergedFile(f: string, src: Dir, n1: string, n2: string, n10: string)
    requires ExampleNames(f, n1, n2, n10) && src.Keys == {n10, n2, n1}
    ensures f in MergeOutput(src)
    ensures MergeOutput(src)[f] == src[n1] + src[n2] + src[n10]
  {
    var es := [Entry(1, n1), Entry(2, n2), Entry(10, n10)];
    ExampleGroup(f, src.Keys, n1, n2, n10);
    ExampleMultiset(es, Group(src.Keys, f));
    MergedFile(src, f, es);
    ExampleJoin(src, es);
  }

  lemma SingleEntry(d: Dir, key: string)
    requires d.Keys == {key}
    ensures d == map[key := d[key]]
  {
    MapExtensional(d, map[key := d[key]]);
  }

  lemma ExampleMultiset(es: seq<Entry>, g: set<Entry>)
    requires |es| == 3 && es[0].part == 1 && es[1].part == 2 && es[2].part == 10
    requires g == {es[0], es[1], es[2]}
    ensures Sorted(es) && multiset(es) == multiset(g)
  {
    assert g == {es[0]} + {es[1]} + {es[2]};
    assert es == [es[0]] + [es[1]] + [es[2]];
  }

  lemma ExampleGroup(f: string, names: set<string>, n1: string, n2: string, n10: string)
    requires ExampleNames(f, n1, n2, n10) && names == {n10, n2, n1}
    ensures Group(names, f) == {Entry(1, n1), Entry(2, n2), Entry(10, n10)}
  {
    forall e
      ensures e in Group(names, f) <==> e in {Entry(1, n1), Entry(2, n2), Entry(10, n10)}
    {
      ExampleGroupHas(f, names, n1, n2, n10, e);
    }
  }

  lemma ExampleGroupHas(f: string, names: set<string>, n1: string, n2: string, n10: string, e: Entry)
    requires ExampleNames(f, n1, n2, n10) && names == {n10, n2, n1}
    ensures e in Group(names, f) <==> e == Entry(1, n1) || e == Entry(2, n2) || e == Entry(10, n10)
  {
    GroupHas(names, f, e);
  }

  lemma ExampleBases(f: string, names: set<string>, n1: string, n2: string, n10: string)
    requires ExampleNames(f, n1, n2, n10) && names == {n10, n2, n1}
    ensures Bases(names) == {f}
  {
  }

  lemma ExampleJoin(src: Dir, es: seq<Entry>)
    requires |es| == 3 && forall e | e in es :: e.name in src
    ensures Join(src, es) == src[es[0].name] + src[es[1].name] + src[es[2].name]
  {
    assert es[..2][..1][..0] == [];
    assert es[..2][..1] == [es[0]];
    assert Join(src, es[..2][..1]) == src[es[0].name];
    assert es[..2][1] == es[1];
    assert Join(src, es[..2]) == src[es[0].name] + src[es[1].name];
  }
}
