/** The order in which the merger joins a group's chunks: Python's `sorted`
    on `(part_num, filename)` tuples, i.e. ascending part number and, for
    equal part numbers, ascending file name in Python's string order. */
module Ordering {

  /** One element of a group's list: the parsed part number and the chunk
      file's name. */
  datatype Entry = Entry(part: nat, name: string)

  /** Python's `<` on `str`: lexicographic by code point, a proper prefix
      before any of its extensions. */
  predicate StringLess(a: string, b: string) {
    if |a| == 0 then |b| > 0
    else |b| > 0 && (a[0] < b[0] || (a[0] == b[0] && StringLess(a[1..], b[1..])))
  }

  /** Python's `<` on `(int, str)` tuples. */
  predicate EntryLess(x: Entry, y: Entry) {
    x.part < y.part || (x.part == y.part && StringLess(x.name, y.name))
  }

  predicate EntryLe(x: Entry, y: Entry) {
    x == y || EntryLess(x, y)
  }

  /** Ascending order, as `sorted` leaves its result. */
  predicate Sorted(xs: seq<Entry>) {
    forall i, j | 0 <= i < j < |xs| :: EntryLe(xs[i], xs[j])
  }

  lemma {:induction false} StringLessIrreflexive(a: string)
    ensures !StringLess(a, a)
  {
    if |a| > 0 {
      StringLessIrreflexive(a[1..]);
    }
  }

  lemma {:induction false} StringLessTransitive(a: string, b: string, c: string)
    requires StringLess(a, b) && StringLess(b, c)
    ensures StringLess(a, c)
  {
    if |a| > 0 && a[0] == b[0] && b[0] == c[0] {
      StringLessTransitive(a[1..], b[1..], c[1..]);
    }
  }

  /** Two different strings are always ordered one way or the other. */
  lemma {:induction false} StringLessTotal(a: string, b: string)
    ensures a == b || StringLess(a, b) || StringLess(b, a)
  {
    if |a| > 0 && |b| > 0 && a[0] == b[0] {
      StringLessTotal(a[1..], b[1..]);
      if a[1..] == b[1..] {
        assert a == [a[0]] + a[1..] && b == [b[0]] + b[1..];
      }
    }
  }

  lemma {:induction false} StringLessAsymmetric(a: string, b: string)
    requires StringLess(a, b)
    ensures !StringLess(b, a)
  {
    if StringLess(b, a) {
      StringLessTransitive(a, b, a);
      StringLessIrreflexive(a);
    }
  }

  /** `EntryLe` is a total order on entries. */
  lemma EntryLeTotal(x: Entry, y: Entry)
    ensures EntryLe(x, y) || EntryLe(y, x)
  {
    StringLessTotal(x.name, y.name);
  }

  lemma EntryLeAntisymmetric(x: Entry, y: Entry)
    requires EntryLe(x, y) && EntryLe(y, x)
    ensures x == y
  {
    if x != y && x.part == y.part {
      StringLessAsymmetric(x.name, y.name);
    }
  }

  lemma EntryLeTransitive(x: Entry, y: Entry, z: Entry)
    requires EntryLe(x, y) && EntryLe(y, z)
    ensures EntryLe(x, z)
  {
    if x != y && y != z && x.part == y.part && y.part == z.part {
      StringLessTransitive(x.name, y.name, z.name);
    }
  }

  /** Inserts `x` into a sorted list, before the first element not below it. */
  function Insert(x: Entry, xs: seq<Entry>): (r: seq<Entry>)
    requires Sorted(xs)
    ensures Sorted(r)
    ensures multiset(r) == multiset(xs) + multiset{x}
  {
    if xs == [] then [x]
    else if EntryLess(xs[0], x) then
      var rest := Insert(x, xs[1..]);
      InsertAfterHead(x, xs, rest);
      assert xs == [xs[0]] + xs[1..];
      [xs[0]] + rest
    else
      EntryLeTotal(x, xs[0]);
      InsertAtHead(x, xs);
      [x] + xs
  }

  lemma InsertAfterHead(x: Entry, xs: seq<Entry>, rest: seq<Entry>)
    requires |xs| > 0 && Sorted(xs) && EntryLess(xs[0], x)
    requires Sorted(rest) && multiset(rest) == multiset(xs[1..]) + multiset{x}
    ensures Sorted([xs[0]] + rest)
  {
    var r := [xs[0]] + rest;
    forall i, j | 0 <= i < j < |r|
      ensures EntryLe(r[i], r[j])
    {
      if i == 0 {
        assert r[j] in multiset(rest);
        if r[j] != x {
          assert r[j] in multiset(xs[1..]);
          var k :| 0 <= k < |xs[1..]| && xs[1..][k] == r[j];
          assert xs[k + 1] == r[j];
        }
      }
    }
  }

  lemma InsertAtHead(x: Entry, xs: seq<Entry>)
    requires |xs| > 0 && Sorted(xs) && EntryLe(x, xs[0])
    ensures Sorted([x] + xs)
  {
    var r := [x] + xs;
    forall i, j | 0 <= i < j < |r|
      ensures EntryLe(r[i], r[j])
    {
      if i == 0 && j > 1 {
        EntryLeTransitive(x, xs[0], xs[j - 1]);
      }
    }
  }

  /** Python's `sorted(file_list)`: an ascending permutation of the list. */
  function Sort(xs: seq<Entry>): (r: seq<Entry>)
    ensures Sorted(r)
    ensures multiset(r) == multiset(xs)
  {
    if xs == [] then []
    else
      assert xs == [xs[0]] + xs[1..];
      Insert(xs[0], Sort(xs[1..]))
  }

  /** A list has exactly one ascending arrangement: two sorted lists with the
      same elements are equal.  So the merger's output does not depend on the
      order in which the directory listing produced the chunks. */
  lemma {:induction false} SortedUnique(xs: seq<Entry>, ys: seq<Entry>)
    requires Sorted(xs) && Sorted(ys)
    requires multiset(xs) == multiset(ys)
    ensures xs == ys
    decreases |xs|
  {
    if xs != [] {
      assert |ys| == |xs| by {
        assert |multiset(xs)| == |multiset(ys)|;
      }
      EntryLeAntisymmetric(xs[0], ys[0]) by {
        SortedHeadIsLeast(xs, ys[0]);
        SortedHeadIsLeast(ys, xs[0]);
      }
      MultisetTail(xs);
      MultisetTail(ys);
      SortedTail(xs);
      SortedTail(ys);
      SortedUnique(xs[1..], ys[1..]);
    }
  }

  lemma SortedHeadIsLeast(xs: seq<Entry>, y: Entry)
    requires Sorted(xs) && y in multiset(xs)
    ensures EntryLe(xs[0], y)
  {
    assert y in xs;
    var j :| 0 <= j < |xs| && xs[j] == y;
    if j > 0 {
      assert EntryLe(xs[0], xs[j]);
    }
  }

  lemma MultisetTail(xs: seq<Entry>)
    requires |xs| > 0
    ensures multiset(xs[1..]) == multiset(xs) - multiset{xs[0]}
  {
    assert xs == [xs[0]] + xs[1..];
  }

  lemma SortedTail(xs: seq<Entry>)
    requires Sorted(xs) && |xs| > 0
    ensures Sorted(xs[1..])
  {
    forall i, j | 0 <= i < j < |xs| - 1
      ensures EntryLe(xs[1..][i], xs[1..][j])
    {
      assert EntryLe(xs[i + 1], xs[j + 1]);
    }
  }

  /** Parts compare as numbers, so part 2 precedes part 10 although "10"
      precedes "2" as text; equal parts fall back to the file name. */
  lemma OrderExamples()
    ensures EntryLess(Entry(2, "f_2"), Entry(10, "f_10"))
    ensures StringLess("f_10", "f_2")
    ensures EntryLess(Entry(1, "f_01"), Entry(1, "f_1"))
  {
    assert "f_10"[1..] == "_10" && "_10"[1..] == "10";
    assert "f_2"[1..] == "_2" && "_2"[1..] == "2";
    assert "f_01"[1..] == "_01" && "_01"[1..] == "01";
    assert "f_1"[1..] == "_1" && "_1"[1..] == "1";
  }
}
