/** Daily tables as the pipeline passes them from stage to stage.

    A table is stored column by column: `index` holds one day number per row
    (day 0 is 1970-01-01), `columns` the column names and `data[j]` the cells
    of column `columns[j]`, one per row. A cell is `None` where the data frame
    holds NaN. */
module Tables {

  datatype Option<+T> = None | Some(value: T)

  datatype Result<+T, +E> = Ok(value: T) | Err(error: E)

  type Cell = Option<real>

  datatype Table = Table(index: seq<int>, columns: seq<string>, data: seq<seq<Cell>>)

  /** Every column has one cell per row. */
  predicate WellFormed(t: Table) {
    && |t.data| == |t.columns|
    && forall j :: 0 <= j < |t.data| ==> |t.data[j]| == |t.index|
  }

  predicate StrictlyIncreasing(s: seq<int>) {
    forall i, j :: 0 <= i < j < |s| ==> s[i] < s[j]
  }

  predicate NoDup<T(==)>(s: seq<T>) {
    |s| == 0 || (s[0] !in s[1..] && NoDup(s[1..]))
  }

  /** `NoDup` says that no two positions hold the same element. */
  lemma {:induction false} NoDupPairs<T>(s: seq<T>)
    ensures NoDup(s) <==> forall i, j :: 0 <= i < j < |s| ==> s[i] != s[j]
  {
    if s != [] {
      var t := s[1..];
      NoDupPairs(t);
      if NoDup(s) {
        forall i, j | 0 <= i < j < |s| ensures s[i] != s[j] {
          assert s[j] == t[j - 1];
          if i > 0 {
            assert s[i] == t[i - 1];
          }
        }
      }
      if forall i, j :: 0 <= i < j < |s| ==> s[i] != s[j] {
        forall i, j | 0 <= i < j < |t| ensures t[i] != t[j] {
          assert t[i] == s[i + 1] && t[j] == s[j + 1];
        }
        forall k | 0 <= k < |t| ensures t[k] != s[0] {
          assert t[k] == s[k + 1];
        }
      }
    }
  }
  /** An element of a list without duplicates differs from every element
      before it. */
  lemma {:induction false} NoDupBefore<T>(s: seq<T>, j: nat)
    requires NoDup(s) && j < |s|
    ensures forall k :: 0 <= k < j ==> s[k] != s[j]
  {
    NoDupPairs(s);
  }

  lemma {:induction false} NoDupSnoc<T>(s: seq<T>, x: T)
    requires NoDup(s) && x !in s
    ensures NoDup(s + [x])
  {
    NoDupConcat(s, [x]);
    assert [x][1..] == [];
  }


  /** The position of the first occurrence of `x` in `s`. */
  function IndexOf<T(==)>(s: seq<T>, x: T): (k: nat)
    requires x in s
    ensures k < |s| && s[k] == x
  {
    if s[0] == x then 0 else 1 + IndexOf(s[1..], x)
  }

  /** No occurrence of `x` comes before `IndexOf(s, x)`. */
  lemma {:induction false} IndexOfFirst<T>(s: seq<T>, x: T)
    requires x in s
    ensures forall i :: 0 <= i < IndexOf(s, x) ==> s[i] != x
  {
    if s[0] != x {
      IndexOfFirst(s[1..], x);
    }
  }

  /** A concatenation has no duplicates exactly when neither part has and the
      parts are disjoint. */
  lemma {:induction false} NoDupConcat<T>(a: seq<T>, b: seq<T>)
    ensures NoDup(a + b) <==> NoDup(a) && NoDup(b) && forall x :: x in a ==> x !in b
  {
    NoDupPairs(a + b);
    NoDupPairs(a);
    NoDupPairs(b);
    if NoDup(a + b) {
      forall i, j | 0 <= i < j < |b| ensures b[i] != b[j] {
        assert b[i] == (a + b)[|a| + i] && b[j] == (a + b)[|a| + j];
      }
      forall x | x in a ensures x !in b {
        var i :| 0 <= i < |a| && a[i] == x;
        forall j | 0 <= j < |b| ensures b[j] != x {
          assert (a + b)[i] == a[i] && (a + b)[|a| + j] == b[j];
        }
      }
      forall i, j | 0 <= i < j < |a| ensures a[i] != a[j] {
        assert a[i] == (a + b)[i] && a[j] == (a + b)[j];
      }
    }
    if NoDup(a) && NoDup(b) && forall x :: x in a ==> x !in b {
      forall i, j | 0 <= i < j < |a + b| ensures (a + b)[i] != (a + b)[j] {
        if j < |a| {
          assert (a + b)[i] == a[i] && (a + b)[j] == a[j];
        } else if i >= |a| {
          assert (a + b)[i] == b[i - |a|] && (a + b)[j] == b[j - |a|];
        } else {
          assert (a + b)[i] == a[i] && (a + b)[j] == b[j - |a|];
          assert a[i] in a && a[i] !in b;
        }
      }
    }
  }

  /** Extending a prefix of `s` by the next element of `s`. */
  lemma {:induction false} SliceNext<T>(s: seq<T>, n: nat)
    requires n < |s|
    ensures s[..n + 1] == s[..n] + [s[n]]
  {
  }

  lemma {:induction false} AppendNext<T>(a: seq<T>, s: seq<T>, n: nat)
    requires n < |s|
    ensures (a + s[..n]) + [s[n]] == a + s[..n + 1]
  {
    SliceNext(s, n);
  }

  lemma {:induction false} AppendAssoc<T>(a: seq<T>, b: seq<T>, c: seq<T>)
    ensures a + (b + c) == (a + b) + c
  {
  }

  /** The element after a prefix of a list without duplicates is new. */
  lemma {:induction false} FreshNext<T>(a: seq<T>, s: seq<T>, k: nat)
    requires NoDup(a + s) && k < |s|
    ensures s[k] !in a + s[..k]
  {
    NoDupPairs(a + s);
    var c := a + s;
    assert c[|a| + k] == s[k];
    forall i | 0 <= i < |a| + k ensures (a + s[..k])[i] != s[k] {
      assert (a + s[..k])[i] == c[i];
    }
  }

  /** Dropping the last element keeps a list free of duplicates, and that
      element is not among the others. */
  lemma {:induction false} FreshLast<T>(a: seq<T>, s: seq<T>, x: T)
    requires NoDup(a + (s + [x]))
    ensures NoDup(a + s) && x !in a + s
  {
    AppendAssoc(a, s, [x]);
    NoDupConcat(a + s, [x]);
  }

  /** Dropping a tail run keeps a list free of duplicates. */
  lemma {:induction false} NoDupRun<T>(a: seq<T>, s: seq<T>, r: seq<T>)
    requires NoDup(a + (s + r))
    ensures NoDup(a + s) && NoDup((a + s) + r)
  {
    AppendAssoc(a, s, r);
    NoDupConcat(a + s, r);
  }

  lemma {:induction false} NoDupLeft<T>(a: seq<T>, b: seq<T>)
    requires NoDup(a + b)
    ensures NoDup(a)
  {
    NoDupConcat(a, b);
  }

  lemma {:induction false} AppendThree<T>(a: seq<T>, x: T, y: T, z: T)
    ensures ((a + [x]) + [y]) + [z] == a + [x, y, z]
  {
  }

  lemma {:induction false} IndexLeft<T>(a: seq<T>, b: seq<T>, p: nat)
    requires p < |a|
    ensures (a + b)[p] == a[p]
  {
  }

  lemma {:induction false} IndexRight<T>(a: seq<T>, b: seq<T>, p: nat)
    requires p < |b|
    ensures (a + b)[|a| + p] == b[p]
  {
  }

  /** An element of `s` other than its last one is an element of the rest. */
  lemma {:induction false} InInit<T>(s: seq<T>, x: T)
    requires x in s && x != s[|s| - 1]
    ensures x in s[..|s| - 1]
  {
    var i :| 0 <= i < |s| && s[i] == x;
    assert s[..|s| - 1][i] == x;
  }

  /** One more run appended to a sequence already extended by `more`. */
  lemma {:induction false} AppendStep<T>(cur: seq<T>, prev: seq<T>, base: seq<T>, more: seq<T>, run: seq<T>, all: seq<T>)
    requires prev == base + more && cur == prev + run && all == more + run
    ensures cur == base + all
  {
    AppendAssoc(base, more, run);
  }

  /** `NoDup` of an extension carries over to an equal prefix. */
  lemma {:induction false} NoDupEq<T>(a: seq<T>, b: seq<T>, r: seq<T>)
    requires a == b && NoDup(b + r)
    ensures NoDup(a + r)
  {
  }

  lemma {:induction false} TakeAll<T>(s: seq<T>)
    ensures s[..|s|] == s
  {
  }

  lemma {:induction false} IndexOfNoDup<T>(s: seq<T>, k: nat)
    requires NoDup(s) && k < |s|
    ensures IndexOf(s, s[k]) == k
  {
    NoDupPairs(s);
    IndexOfFirst(s, s[k]);
  }

  /** The cells of the column named `name` (pandas `df[name]`; with distinct
      column names the only one). */
  function ColumnOf(t: Table, name: string): (col: seq<Cell>)
    requires WellFormed(t) && name in t.columns
    ensures |col| == |t.index|
  {
    t.data[IndexOf(t.columns, name)]
  }

  /** `df[name]` reads the first column carrying that name. */
  lemma {:induction false} ColumnOfFirst(t: Table, name: string, k: nat)
    requires WellFormed(t) && k < |t.columns| && t.columns[k] == name
    requires forall i :: 0 <= i < k ==> t.columns[i] != name
    ensures name in t.columns && ColumnOf(t, name) == t.data[k]
  {
    IndexOfFirst(t.columns, name);
  }

  /** Columns and data that extend a table leave its existing columns as
      they were. */
  lemma {:induction false} ColumnOfExtended(t: Table, r: Table, name: string, moreColumns: seq<string>, moreData: seq<seq<Cell>>)
    requires WellFormed(t) && WellFormed(r) && name in t.columns
    requires r.columns == t.columns + moreColumns && r.data == t.data + moreData
    ensures name in r.columns && ColumnOf(r, name) == ColumnOf(t, name)
  {
    IndexOfPrefix(t.columns, moreColumns, name);
  }

  /** With distinct names, the column named `columns[j]` is `data[j]`. */
  lemma {:induction false} ColumnAt(t: Table, j: nat)
    requires WellFormed(t) && NoDup(t.columns) && j < |t.columns|
    ensures ColumnOf(t, t.columns[j]) == t.data[j]
  {
    IndexOfNoDup(t.columns, j);
  }

  /** The column found at position `p` of a table with distinct names. */
  lemma {:induction false} ColumnIs(t: Table, p: nat, name: string, col: seq<Cell>)
    requires WellFormed(t) && NoDup(t.columns) && p < |t.columns|
    requires t.columns[p] == name && t.data[p] == col
    ensures name in t.columns && ColumnOf(t, name) == col
  {
    IndexOfNoDup(t.columns, p);
  }

  /** pandas `df[name] = col`: an existing column is overwritten in place,
      a new one is appended after the others. */
  function SetColumn(t: Table, name: string, col: seq<Cell>): (r: Table)
    requires WellFormed(t) && |col| == |t.index|
    ensures WellFormed(r) && r.index == t.index
    ensures name in t.columns ==> r.columns == t.columns
    ensures name !in t.columns ==> r.columns == t.columns + [name]
    ensures name in t.columns ==> r.data == t.data[IndexOf(t.columns, name) := col]
    ensures name !in t.columns ==> r.data == t.data + [col]
    ensures name in r.columns && ColumnOf(r, name) == col
    ensures forall m {:trigger ColumnOf(r, m)} :: m in t.columns && m != name ==> ColumnOf(r, m) == ColumnOf(t, m)
  {
    if name in t.columns then
      var k := IndexOf(t.columns, name);
      Table(t.index, t.columns, t.data[k := col])
    else
      var r := Table(t.index, t.columns + [name], t.data + [col]);
      assert forall m :: m in t.columns ==> IndexOf(r.columns, m) == IndexOf(t.columns, m) by {
        forall m | m in t.columns ensures IndexOf(r.columns, m) == IndexOf(t.columns, m) {
          IndexOfPrefix(t.columns, [name], m);
        }
      }
      IndexOfAppended(t.columns, name);
      r
  }

  lemma {:induction false} IndexOfPrefix<T>(s: seq<T>, u: seq<T>, x: T)
    requires x in s
    ensures x in s + u && IndexOf(s + u, x) == IndexOf(s, x)
  {
    if s[0] != x {
      assert (s + u)[1..] == s[1..] + u;
      IndexOfPrefix(s[1..], u, x);
    }
  }

  lemma {:induction false} IndexOfAppended<T>(s: seq<T>, x: T)
    requires x !in s
    ensures IndexOf(s + [x], x) == |s|
  {
    if s != [] {
      assert (s + [x])[1..] == s[1..] + [x];
      IndexOfAppended(s[1..], x);
    }
  }

  /** True when no cell of the table is missing. */
  predicate NoMissing(t: Table) {
    forall j, p :: 0 <= j < |t.data| && 0 <= p < |t.data[j]| ==> t.data[j][p].Some?
  }

  /** pandas `df.empty`: no rows or no columns. */
  predicate IsEmpty(t: Table) {
    |t.index| == 0 || |t.columns| == 0
  }

  /** All columns present at row position `p`. */
  predicate RowComplete(t: Table, p: nat)
    requires WellFormed(t) && p < |t.index|
  {
    forall j :: 0 <= j < |t.data| ==> t.data[j][p].Some?
  }

  /** The rows of `t` at positions `ps`, in that order. */
  function SelectRows(t: Table, ps: seq<nat>): (r: Table)
    requires WellFormed(t)
    requires forall i :: 0 <= i < |ps| ==> ps[i] < |t.index|
    ensures WellFormed(r) && r.columns == t.columns && |r.index| == |ps|
    ensures forall i :: 0 <= i < |ps| ==> r.index[i] == t.index[ps[i]]
    ensures forall j, i :: 0 <= j < |r.data| && 0 <= i < |ps| ==> r.data[j][i] == t.data[j][ps[i]]
  {
    Table(seq(|ps|, i requires 0 <= i < |ps| => t.index[ps[i]]),
          t.columns,
          seq(|t.data|, j requires 0 <= j < |t.data| =>
            seq(|ps|, i requires 0 <= i < |ps| => t.data[j][ps[i]])))
  }

  /** pandas `df[names]`: the listed columns, in the listed order. */
  function Project(t: Table, names: seq<string>): (r: Table)
    requires WellFormed(t)
    requires forall i :: 0 <= i < |names| ==> names[i] in t.columns
    ensures WellFormed(r) && r.index == t.index && r.columns == names
    ensures forall i :: 0 <= i < |names| ==> r.data[i] == ColumnOf(t, names[i])
  {
    Table(t.index, names, seq(|names|, i requires 0 <= i < |names| => ColumnOf(t, names[i])))
  }

  /** The elements of `s` that do not occur in `drop`, in order (a Python list
      comprehension `[x for x in s if x not in drop]`). */
  function Without<T(==,!new)>(s: seq<T>, drop: seq<T>): (r: seq<T>)
    ensures forall x :: x in r <==> x in s && x !in drop
    ensures |r| <= |s|
  {
    if s == [] then []
    else (if s[0] in drop then [] else [s[0]]) + Without(s[1..], drop)
  }

  /** The elements of `s` that occur in `keep`, in order. */
  function Within<T(==,!new)>(s: seq<T>, keep: seq<T>): (r: seq<T>)
    ensures forall x :: x in r <==> x in s && x in keep
    ensures |r| <= |s|
  {
    if s == [] then []
    else (if s[0] in keep then [s[0]] else []) + Within(s[1..], keep)
  }

  /** `[c for c in names if c in df.columns]`: the listed names the table
      has as columns, in the listed order. */
  function PresentNames(t: Table, names: seq<string>): (r: seq<string>)
    ensures forall c :: c in r <==> c in names && c in t.columns
    ensures Subsequence(r, names)
  {
    WithinSubsequence(names, t.columns);
    Within(names, t.columns)
  }

  /** `Within` and `Without` split a list into two parts that together hold
      every element exactly as often as the list does. */
  lemma {:induction false} WithinWithoutPartition<T(!new)>(s: seq<T>, other: seq<T>)
    ensures multiset(Within(s, other)) + multiset(Without(s, other)) == multiset(s)
    ensures |Within(s, other)| + |Without(s, other)| == |s|
  {
    if s != [] {
      WithinWithoutPartition(s[1..], other);
      assert s == [s[0]] + s[1..];
    }
  }

  lemma {:induction false} NoDupWithout<T(!new)>(s: seq<T>, drop: seq<T>)
    requires NoDup(s)
    ensures NoDup(Without(s, drop))
  {
    if s != [] {
      NoDupWithout(s[1..], drop);
      var w, r := Without(s[1..], drop), Without(s, drop);
      if s[0] in drop {
        assert r == w;
      } else {
        assert r[0] == s[0] && r[1..] == w;
      }
    }
  }

  lemma {:induction false} NoDupWithin<T(!new)>(s: seq<T>, keep: seq<T>)
    requires NoDup(s)
    ensures NoDup(Within(s, keep))
  {
    if s != [] {
      NoDupWithin(s[1..], keep);
      var w, r := Within(s[1..], keep), Within(s, keep);
      if s[0] in keep {
        assert r[0] == s[0] && r[1..] == w;
      } else {
        assert r == w;
      }
    }
  }

  /** `a`, `a + 1`, ..., `b - 1`. */
  function Range(a: nat, b: int): (r: seq<nat>)
    ensures |r| == if b <= a then 0 else b - a
    ensures forall i :: 0 <= i < |r| ==> r[i] == a + i
    decreases b - a
  {
    if b <= a then [] else Range(a, b - 1) + [b - 1]
  }

  /** `a` is `b` with some elements deleted and the others kept in order. */
  predicate Subsequence<T(==)>(a: seq<T>, b: seq<T>)
    decreases |b|
  {
    if a == [] then true
    else if b == [] then false
    else (a[0] == b[0] && Subsequence(a[1..], b[1..])) || Subsequence(a, b[1..])
  }

  /** Appending the same element to both sides keeps a subsequence. */
  lemma {:induction false} SubsequenceSnoc<T>(a: seq<T>, b: seq<T>, x: T)
    requires Subsequence(a, b)
    ensures Subsequence(a + [x], b + [x])
    decreases |b|
  {
    if b != [] {
      assert (b + [x])[1..] == b[1..] + [x];
      if a == [] {
        SubsequenceSnoc(a, b[1..], x);
      } else if a[0] == b[0] && Subsequence(a[1..], b[1..]) {
        SubsequenceSnoc(a[1..], b[1..], x);
        assert (a + [x])[1..] == a[1..] + [x];
      } else {
        SubsequenceSnoc(a, b[1..], x);
      }
    }
  }

  /** Appending an element to the longer list keeps a subsequence. */
  lemma {:induction false} SubsequenceSkip<T>(a: seq<T>, b: seq<T>, x: T)
    requires Subsequence(a, b)
    ensures Subsequence(a, b + [x])
    decreases |b|
  {
    if a != [] {
      assert (b + [x])[1..] == b[1..] + [x];
      if a[0] == b[0] && Subsequence(a[1..], b[1..]) {
        SubsequenceSkip(a[1..], b[1..], x);
      } else {
        SubsequenceSkip(a, b[1..], x);
      }
    }
  }

  /** `Within` keeps the order of the list it filters. */
  lemma {:induction false} WithinSubsequence<T(!new)>(s: seq<T>, keep: seq<T>)
    ensures Subsequence(Within(s, keep), s)
  {
    if s != [] {
      var w, r := Within(s[1..], keep), Within(s, keep);
      WithinSubsequence(s[1..], keep);
      if s[0] in keep {
        assert r[0] == s[0] && r[1..] == w;
      } else {
        assert r == w;
      }
    }
  }

  /** `Without` keeps the order of the list it filters. */
  lemma {:induction false} WithoutSubsequence<T(!new)>(s: seq<T>, drop: seq<T>)
    ensures Subsequence(Without(s, drop), s)
  {
    if s != [] {
      var w, r := Without(s[1..], drop), Without(s, drop);
      WithoutSubsequence(s[1..], drop);
      if s[0] !in drop {
        assert r[0] == s[0] && r[1..] == w;
      } else {
        assert r == w;
      }
    }
  }

  /** A filter that keeps every element returns the list itself. */
  lemma {:induction false} WithinAll<T(!new)>(s: seq<T>, keep: seq<T>)
    requires forall x :: x in s ==> x in keep
    ensures Within(s, keep) == s
  {
    if s != [] {
      assert s[0] in s;
      assert forall x :: x in s[1..] ==> x in s;
      WithinAll(s[1..], keep);
    }
  }
}
