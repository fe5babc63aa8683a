/** Sorting the task rows: the comparator built from the selected column and
    direction, the order the sorted rows are in, and the in-place sort that
    the table runs over its private copy of the rows.

    The runtime's `Array.prototype.sort` is stable. `SortedRows` is the
    stable insertion sort under the table's comparator, and
    `SortedRowsCharacterisation` shows it is the only ordered arrangement
    that keeps tied rows in their input order, so it is what any stable sort
    produces. The string collation is the parameter `collate` (see module
    Collation). */
module TaskSort {
  import opened Js
  import opened Collation
  import opened TaskRows

  /** The comparator passed to `sort`: the collation of the two sort values,
      negated when the direction is descending. The `|| 0` in the source maps
      a negative zero or NaN to 0 and leaves every other number alone; an
      integer result has neither, so it is not written here. */
  function RowCompare(a: TaskRow, b: TaskRow, key: SortKey, asc: bool, collate: (string, string) -> int): (r: int)
    ensures r == 0 <==> collate(SortValue(a, key), SortValue(b, key)) == 0
    ensures asc ==> (r < 0 <==> collate(SortValue(a, key), SortValue(b, key)) < 0)
    ensures !asc ==> (r < 0 <==> collate(SortValue(a, key), SortValue(b, key)) > 0)
  {
    collate(SortValue(a, key), SortValue(b, key)) * (if asc then 1 else -1)
  }

  /** `a` may stand before `b` in the output: non-decreasing sort values when
      ascending, non-increasing when descending. */
  predicate InOrder(a: TaskRow, b: TaskRow, key: SortKey, asc: bool, collate: (string, string) -> int)
  {
    if asc then collate(SortValue(a, key), SortValue(b, key)) <= 0
    else collate(SortValue(b, key), SortValue(a, key)) <= 0
  }

  /** Adjacent rows are in order. */
  predicate Ordered(r: seq<TaskRow>, key: SortKey, asc: bool, collate: (string, string) -> int)
  {
    forall i :: 0 <= i < |r| - 1 ==> InOrder(r[i], r[i + 1], key, asc, collate)
  }

  /** The rows of `s` whose sort value compares equal to `v`, in their order
      in `s`. */
  function RowsTiedWith(s: seq<TaskRow>, key: SortKey, collate: (string, string) -> int, v: string): (r: seq<TaskRow>)
  {
    if s == [] then []
    else
      RowsTiedWith(s[..|s| - 1], key, collate, v)
      + (if collate(SortValue(s[|s| - 1], key), v) == 0 then [s[|s| - 1]] else [])
  }

  /** `r` is an ordered arrangement of `s` that keeps tied rows in their order
      in `s`: what a stable sort produces. */
  ghost predicate IsStableSortOf(r: seq<TaskRow>, s: seq<TaskRow>, key: SortKey, asc: bool, collate: (string, string) -> int)
  {
    && Ordered(r, key, asc, collate)
    && forall v :: RowsTiedWith(r, key, collate, v) == RowsTiedWith(s, key, collate, v)
  }

  /** Insert `x` after the trailing rows of the sorted prefix `p` that do not
      compare greater than it, as one step of a stable insertion sort does. */
  function Insert(p: seq<TaskRow>, x: TaskRow, key: SortKey, asc: bool, collate: (string, string) -> int): (r: seq<TaskRow>)
    ensures |r| == |p| + 1
    decreases |p|
  {
    if p == [] then [x]
    else if RowCompare(p[|p| - 1], x, key, asc, collate) > 0 then
      Insert(p[..|p| - 1], x, key, asc, collate) + [p[|p| - 1]]
    else p + [x]
  }

  /** The displayed order of the rows `s` for the given column and direction. */
  function SortedRows(s: seq<TaskRow>, key: SortKey, asc: bool, collate: (string, string) -> int): (r: seq<TaskRow>)
    ensures |r| == |s|
  {
    if s == [] then []
    else Insert(SortedRows(s[..|s| - 1], key, asc, collate), s[|s| - 1], key, asc, collate)
  }

  // ---------------------------------------------------------------------
  // The comparator

  /** The descending comparator is the exact negation of the ascending one. */
  lemma DescendingIsNegation(a: TaskRow, b: TaskRow, key: SortKey, collate: (string, string) -> int)
    ensures RowCompare(a, b, key, false, collate) == -RowCompare(a, b, key, true, collate)
  {
  }

  /** The comparator says "not after" exactly when the rows are in order, and
      "after" only when the reverse order holds. */
  lemma RowCompareInOrder(a: TaskRow, b: TaskRow, key: SortKey, asc: bool, collate: (string, string) -> int)
    requires IsCollation(collate)
    ensures RowCompare(a, b, key, asc, collate) <= 0 <==> InOrder(a, b, key, asc, collate)
    ensures RowCompare(a, b, key, asc, collate) > 0 ==> InOrder(b, a, key, asc, collate)
  {
    CollationBasics(collate, SortValue(a, key), SortValue(b, key));
  }

  lemma InOrderTransitive(a: TaskRow, b: TaskRow, c: TaskRow, key: SortKey, asc: bool, collate: (string, string) -> int)
    requires IsCollation(collate)
    requires InOrder(a, b, key, asc, collate) && InOrder(b, c, key, asc, collate)
    ensures InOrder(a, c, key, asc, collate)
  {
    var va, vb, vc := SortValue(a, key), SortValue(b, key), SortValue(c, key);
    if asc {
      assert collate(va, vb) <= 0 && collate(vb, vc) <= 0;
    } else {
      assert collate(vc, vb) <= 0 && collate(vb, va) <= 0;
    }
  }

  lemma InOrderBothWays(a: TaskRow, b: TaskRow, key: SortKey, asc: bool, collate: (string, string) -> int)
    requires IsCollation(collate)
    requires InOrder(a, b, key, asc, collate) && InOrder(b, a, key, asc, collate)
    ensures collate(SortValue(a, key), SortValue(b, key)) == 0
  {
    CollationBasics(collate, SortValue(a, key), SortValue(b, key));
  }

  // ---------------------------------------------------------------------
  // Tied rows

  lemma {:induction false} TiedAppend(a: seq<TaskRow>, b: seq<TaskRow>, key: SortKey, collate: (string, string) -> int, v: string)
    ensures RowsTiedWith(a + b, key, collate, v) == RowsTiedWith(a, key, collate, v) + RowsTiedWith(b, key, collate, v)
    decreases |b|
  {
    if b == [] {
      assert a + b == a;
    } else {
      var b' := b[..|b| - 1];
      assert (a + b)[..|a + b| - 1] == a + b';
      TiedAppend(a, b', key, collate, v);
    }
  }

  lemma {:induction false} TiedMembers(s: seq<TaskRow>, key: SortKey, collate: (string, string) -> int, v: string, x: TaskRow)
    ensures x in RowsTiedWith(s, key, collate, v) <==> x in s && collate(SortValue(x, key), v) == 0
  {
    if s != [] {
      TiedMembers(s[..|s| - 1], key, collate, v, x);
      assert s == s[..|s| - 1] + [s[|s| - 1]];
    }
  }

  /** Two rows that do not tie can be swapped without changing the rows tied
      with any value. */
  lemma SwapUntied(x: TaskRow, y: TaskRow, key: SortKey, collate: (string, string) -> int, v: string)
    requires IsCollation(collate)
    requires collate(SortValue(x, key), SortValue(y, key)) != 0
    ensures RowsTiedWith([x], key, collate, v) + RowsTiedWith([y], key, collate, v)
         == RowsTiedWith([y], key, collate, v) + RowsTiedWith([x], key, collate, v)
  {
    var vx, vy := SortValue(x, key), SortValue(y, key);
    assert [x][..0] == [] && [y][..0] == [];
    if collate(vx, v) == 0 && collate(vy, v) == 0 {
      CollationBasics(collate, vy, v);
      EquivalentTransitive(collate, vx, v, vy);
    }
  }

  // ---------------------------------------------------------------------
  // Insertion

  lemma {:induction false} InsertPermutation(p: seq<TaskRow>, x: TaskRow, key: SortKey, asc: bool, collate: (string, string) -> int)
    ensures multiset(Insert(p, x, key, asc, collate)) == multiset(p) + multiset{x}
    ensures |Insert(p, x, key, asc, collate)| == |p| + 1
    decreases |p|
  {
    if p != [] && RowCompare(p[|p| - 1], x, key, asc, collate) > 0 {
      InsertPermutation(p[..|p| - 1], x, key, asc, collate);
      MultisetOfLast(p);
    }
  }

  /** The last row after an insertion is the inserted row or the previous
      last row. */
  lemma InsertLast(p: seq<TaskRow>, x: TaskRow, key: SortKey, asc: bool, collate: (string, string) -> int)
    ensures |Insert(p, x, key, asc, collate)| == |p| + 1
    ensures var r := Insert(p, x, key, asc, collate);
      r[|p|] == x || (p != [] && r[|p|] == p[|p| - 1])
  {
    InsertPermutation(p, x, key, asc, collate);
  }

  /** A prefix of an ordered sequence is ordered. */
  lemma OrderedDropLast(p: seq<TaskRow>, key: SortKey, asc: bool, collate: (string, string) -> int)
    requires p != [] && Ordered(p, key, asc, collate)
    ensures Ordered(p[..|p| - 1], key, asc, collate)
  {
    var p' := p[..|p| - 1];
    forall i | 0 <= i < |p'| - 1
      ensures InOrder(p'[i], p'[i + 1], key, asc, collate)
    {
      assert p'[i] == p[i] && p'[i + 1] == p[i + 1];
    }
  }

  /** Appending a row in order with the last one keeps a sequence ordered. */
  lemma OrderedAppend(q: seq<TaskRow>, y: TaskRow, key: SortKey, asc: bool, collate: (string, string) -> int)
    requires Ordered(q, key, asc, collate)
    requires q == [] || InOrder(q[|q| - 1], y, key, asc, collate)
    ensures Ordered(q + [y], key, asc, collate)
  {
    var r := q + [y];
    forall i | 0 <= i < |r| - 1
      ensures InOrder(r[i], r[i + 1], key, asc, collate)
    {
      if i < |q| - 1 {
        assert r[i] == q[i] && r[i + 1] == q[i + 1];
      }
    }
  }

  lemma {:induction false} InsertOrdered(p: seq<TaskRow>, x: TaskRow, key: SortKey, asc: bool, collate: (string, string) -> int)
    requires IsCollation(collate)
    requires Ordered(p, key, asc, collate)
    ensures Ordered(Insert(p, x, key, asc, collate), key, asc, collate)
    decreases |p|
  {
    if p != [] {
      var n := |p|;
      var last, p' := p[n - 1], p[..n - 1];
      RowCompareInOrder(last, x, key, asc, collate);
      if RowCompare(last, x, key, asc, collate) > 0 {
        OrderedDropLast(p, key, asc, collate);
        InsertOrdered(p', x, key, asc, collate);
        InsertLast(p', x, key, asc, collate);
        var q := Insert(p', x, key, asc, collate);
        assert InOrder(q[n - 1], last, key, asc, collate) by {
          if q[n - 1] != x {
            assert q[n - 1] == p[n - 2];
          }
        }
        OrderedAppend(q, last, key, asc, collate);
      } else {
        OrderedAppend(p, x, key, asc, collate);
      }
    }
  }

  /** Proof helper for `InsertStable`: moving a row past one it does not tie
      with leaves the rows tied with `v` as they were. */
  lemma MovePastUntied(p': seq<TaskRow>, last: TaskRow, x: TaskRow, q: seq<TaskRow>, key: SortKey, collate: (string, string) -> int, v: string)
    requires IsCollation(collate)
    requires collate(SortValue(x, key), SortValue(last, key)) != 0
    requires RowsTiedWith(q, key, collate, v) == RowsTiedWith(p' + [x], key, collate, v)
    ensures RowsTiedWith(q + [last], key, collate, v) == RowsTiedWith(p' + [last] + [x], key, collate, v)
  {
    calc {
      RowsTiedWith(q + [last], key, collate, v);
      { TiedAppend(q, [last], key, collate, v); }
      RowsTiedWith(q, key, collate, v) + RowsTiedWith([last], key, collate, v);
      { TiedAppend(p', [x], key, collate, v); }
      RowsTiedWith(p', key, collate, v) + RowsTiedWith([x], key, collate, v) + RowsTiedWith([last], key, collate, v);
      { SwapUntied(x, last, key, collate, v); }
      RowsTiedWith(p', key, collate, v) + (RowsTiedWith([last], key, collate, v) + RowsTiedWith([x], key, collate, v));
      { TiedAppend([last], [x], key, collate, v); }
      RowsTiedWith(p', key, collate, v) + RowsTiedWith([last] + [x], key, collate, v);
      { TiedAppend(p', [last] + [x], key, collate, v); assert p' + ([last] + [x]) == p' + [last] + [x]; }
      RowsTiedWith(p' + [last] + [x], key, collate, v);
    }
  }

  lemma {:induction false} InsertStable(p: seq<TaskRow>, x: TaskRow, key: SortKey, asc: bool, collate: (string, string) -> int, v: string)
    requires IsCollation(collate)
    ensures RowsTiedWith(Insert(p, x, key, asc, collate), key, collate, v) == RowsTiedWith(p + [x], key, collate, v)
    decreases |p|
  {
    if p != [] && RowCompare(p[|p| - 1], x, key, asc, collate) > 0 {
      var last, p' := p[|p| - 1], p[..|p| - 1];
      var q := Insert(p', x, key, asc, collate);
      assert Insert(p, x, key, asc, collate) == q + [last];
      assert p == p' + [last];
      CollationBasics(collate, SortValue(last, key), SortValue(x, key));
      InsertStable(p', x, key, asc, collate, v);
      MovePastUntied(p', last, x, q, key, collate, v);
    }
  }

  // ---------------------------------------------------------------------
  // The sorted rows

  /** Proof helper: a non-empty sequence's multiset is its prefix's plus its
      last element. */
  lemma MultisetOfLast(s: seq<TaskRow>)
    requires s != []
    ensures multiset(s) == multiset(s[..|s| - 1]) + multiset{s[|s| - 1]}
  {
    assert s == s[..|s| - 1] + [s[|s| - 1]];
  }

  /** The displayed rows are a permutation of the input. */
  lemma {:induction false} SortedRowsPermutation(s: seq<TaskRow>, key: SortKey, asc: bool, collate: (string, string) -> int)
    ensures multiset(SortedRows(s, key, asc, collate)) == multiset(s)
    ensures |SortedRows(s, key, asc, collate)| == |s|
  {
    if s != [] {
      var s', x := s[..|s| - 1], s[|s| - 1];
      var t' := SortedRows(s', key, asc, collate);
      SortedRowsPermutation(s', key, asc, collate);
      InsertPermutation(t', x, key, asc, collate);
      MultisetOfLast(s);
    }
  }

  /** Adjacent displayed rows are non-decreasing by the selected key when
      ascending, non-increasing when descending. */
  lemma {:induction false} SortedRowsOrdered(s: seq<TaskRow>, key: SortKey, asc: bool, collate: (string, string) -> int)
    requires IsCollation(collate)
    ensures Ordered(SortedRows(s, key, asc, collate), key, asc, collate)
  {
    if s != [] {
      var s', x := s[..|s| - 1], s[|s| - 1];
      SortedRowsOrdered(s', key, asc, collate);
      InsertOrdered(SortedRows(s', key, asc, collate), x, key, asc, collate);
    }
  }

  /** Tied rows keep their input order. */
  lemma {:induction false} SortedRowsStable(s: seq<TaskRow>, key: SortKey, asc: bool, collate: (string, string) -> int, v: string)
    requires IsCollation(collate)
    ensures RowsTiedWith(SortedRows(s, key, asc, collate), key, collate, v) == RowsTiedWith(s, key, collate, v)
  {
    if s != [] {
      var s', x := s[..|s| - 1], s[|s| - 1];
      var t' := SortedRows(s', key, asc, collate);
      calc {
        RowsTiedWith(SortedRows(s, key, asc, collate), key, collate, v);
        RowsTiedWith(Insert(t', x, key, asc, collate), key, collate, v);
        { InsertStable(t', x, key, asc, collate, v); }
        RowsTiedWith(t' + [x], key, collate, v);
        { TiedSnoc(t', x, key, collate, v); }
        RowsTiedWith(t', key, collate, v) + (if collate(SortValue(x, key), v) == 0 then [x] else []);
        { SortedRowsStable(s', key, asc, collate, v); }
        RowsTiedWith(s, key, collate, v);
      }
    }
  }

  /** Proof helper: appending one row adds it to the tied rows exactly when it
      ties the value. */
  lemma TiedSnoc(p: seq<TaskRow>, x: TaskRow, key: SortKey, collate: (string, string) -> int, v: string)
    ensures RowsTiedWith(p + [x], key, collate, v)
         == RowsTiedWith(p, key, collate, v) + (if collate(SortValue(x, key), v) == 0 then [x] else [])
  {
    assert (p + [x])[..|p|] == p;
  }

  /** In an ordered sequence every earlier row is in order with every later one. */
  lemma {:induction false} OrderedPairwise(r: seq<TaskRow>, key: SortKey, asc: bool, collate: (string, string) -> int, i: int, j: int)
    requires IsCollation(collate)
    requires Ordered(r, key, asc, collate)
    requires 0 <= i <= j < |r|
    ensures InOrder(r[i], r[j], key, asc, collate)
    decreases j - i
  {
    if i == j {
      CollationBasics(collate, SortValue(r[i], key), SortValue(r[i], key));
    } else {
      OrderedPairwise(r, key, asc, collate, i + 1, j);
      InOrderTransitive(r[i], r[i + 1], r[j], key, asc, collate);
    }
  }

  /** A sequence with no row tied with any value is empty. */
  lemma NoRowsTied(t: seq<TaskRow>, key: SortKey, collate: (string, string) -> int)
    requires IsCollation(collate)
    requires forall v :: RowsTiedWith(t, key, collate, v) == []
    ensures t == []
  {
    if t != [] {
      var v := SortValue(t[0], key);
      CollationBasics(collate, v, v);
      TiedMembers(t, key, collate, v, t[0]);
    }
  }

  /** Of two ordered arrangements that agree on the rows tied with every
      value, the last rows tie. */
  lemma LastRowsTie(r: seq<TaskRow>, t: seq<TaskRow>, key: SortKey, asc: bool, collate: (string, string) -> int)
    requires IsCollation(collate)
    requires Ordered(r, key, asc, collate) && Ordered(t, key, asc, collate)
    requires r != [] && t != []
    requires forall v :: RowsTiedWith(r, key, collate, v) == RowsTiedWith(t, key, collate, v)
    ensures collate(SortValue(r[|r| - 1], key), SortValue(t[|t| - 1], key)) == 0
  {
    var a, b := r[|r| - 1], t[|t| - 1];
    var va, vb := SortValue(a, key), SortValue(b, key);
    CollationBasics(collate, va, va);
    CollationBasics(collate, vb, vb);
    TiedMembers(t, key, collate, vb, b);
    TiedMembers(r, key, collate, vb, b);
    var i :| 0 <= i < |r| && r[i] == b;
    OrderedPairwise(r, key, asc, collate, i, |r| - 1);
    TiedMembers(r, key, collate, va, a);
    TiedMembers(t, key, collate, va, a);
    var j :| 0 <= j < |t| && t[j] == a;
    OrderedPairwise(t, key, asc, collate, j, |t| - 1);
    InOrderBothWays(a, b, key, asc, collate);
  }

  /** If `r' + [a]` and `t' + [b]` agree on the rows tied with every value and
      `a`, `b` tie, then `a == b` and the prefixes agree too. */
  lemma DropLastRow(r': seq<TaskRow>, a: TaskRow, t': seq<TaskRow>, b: TaskRow, key: SortKey, collate: (string, string) -> int)
    requires IsCollation(collate)
    requires collate(SortValue(a, key), SortValue(b, key)) == 0
    requires forall v :: RowsTiedWith(r' + [a], key, collate, v) == RowsTiedWith(t' + [b], key, collate, v)
    ensures a == b
    ensures forall v :: RowsTiedWith(r', key, collate, v) == RowsTiedWith(t', key, collate, v)
  {
    var va, vb := SortValue(a, key), SortValue(b, key);
    CollationBasics(collate, va, va);
    CollationBasics(collate, va, vb);
    assert (r' + [a])[..|r'|] == r' && (t' + [b])[..|t'|] == t';
    assert RowsTiedWith(r' + [a], key, collate, va) == RowsTiedWith(r', key, collate, va) + [a];
    assert RowsTiedWith(t' + [b], key, collate, va) == RowsTiedWith(t', key, collate, va) + [b];
    forall v
      ensures RowsTiedWith(r', key, collate, v) == RowsTiedWith(t', key, collate, v)
    {
      var x, y := RowsTiedWith(r', key, collate, v), RowsTiedWith(t', key, collate, v);
      assert RowsTiedWith(r' + [a], key, collate, v) == RowsTiedWith(t' + [b], key, collate, v);
      if collate(va, v) == 0 {
        EquivalentTransitive(collate, vb, va, v);
        assert x == (x + [a])[..|x|] && y == (y + [b])[..|y|];
      } else {
        if collate(vb, v) == 0 {
          EquivalentTransitive(collate, va, vb, v);
        }
        assert RowsTiedWith(r' + [a], key, collate, v) == x;
        assert RowsTiedWith(t' + [b], key, collate, v) == y;
      }
    }
  }

  /** Two ordered arrangements that agree on the rows tied with every value
      are the same arrangement. */
  lemma {:induction false} UniqueArrangement(r: seq<TaskRow>, t: seq<TaskRow>, key: SortKey, asc: bool, collate: (string, string) -> int)
    requires IsCollation(collate)
    requires Ordered(r, key, asc, collate) && Ordered(t, key, asc, collate)
    requires forall v :: RowsTiedWith(r, key, collate, v) == RowsTiedWith(t, key, collate, v)
    ensures r == t
    decreases |r|
  {
    if r == [] {
      NoRowsTied(t, key, collate);
    } else if t == [] {
      NoRowsTied(r, key, collate);
    } else {
      LastRowsTie(r, t, key, asc, collate);
      var r', t' := r[..|r| - 1], t[..|t| - 1];
      assert r == r' + [r[|r| - 1]] && t == t' + [t[|t| - 1]];
      DropLastRow(r', r[|r| - 1], t', t[|t| - 1], key, collate);
      assert Ordered(r', key, asc, collate);
      assert Ordered(t', key, asc, collate);
      UniqueArrangement(r', t', key, asc, collate);
    }
  }

  /** `SortedRows(s)` is exactly the ordered arrangement of `s` that keeps
      tied rows in their input order: the outcome of any stable sort under
      the table's comparator. */
  lemma SortedRowsCharacterisation(s: seq<TaskRow>, r: seq<TaskRow>, key: SortKey, asc: bool, collate: (string, string) -> int)
    requires IsCollation(collate)
    ensures r == SortedRows(s, key, asc, collate) <==> IsStableSortOf(r, s, key, asc, collate)
  {
    var t := SortedRows(s, key, asc, collate);
    SortedRowsOrdered(s, key, asc, collate);
    forall v ensures RowsTiedWith(t, key, collate, v) == RowsTiedWith(s, key, collate, v) {
      SortedRowsStable(s, key, asc, collate, v);
    }
    assert IsStableSortOf(t, s, key, asc, collate);
    if IsStableSortOf(r, s, key, asc, collate) {
      forall v ensures RowsTiedWith(r, key, collate, v) == RowsTiedWith(t, key, collate, v) {
        assert RowsTiedWith(r, key, collate, v) == RowsTiedWith(s, key, collate, v);
      }
      UniqueArrangement(r, t, key, asc, collate);
    }
  }

  /** With ascending order and a collation that puts the empty string first,
      a row whose key is missing (read as the empty string) is preceded only
      by rows whose key compares equal to the empty string. */
  lemma MissingKeysFirstWhenAscending(s: seq<TaskRow>, key: SortKey, collate: (string, string) -> int, i: int, j: int)
    requires IsCollation(collate) && EmptyFirst(collate)
    requires var r := SortedRows(s, key, true, collate); 0 <= i < j < |r| && SortValue(r[j], key) == ""
    ensures collate(SortValue(SortedRows(s, key, true, collate)[i], key), "") == 0
  {
    var r := SortedRows(s, key, true, collate);
    SortedRowsOrdered(s, key, true, collate);
    OrderedPairwise(r, key, true, collate, i, j);
    CollationBasics(collate, SortValue(r[i], key), "");
  }

  // ---------------------------------------------------------------------
  // The in-place sort

  /** Where the insertion loop stops: `x` goes right after `p[..j]` when the
      rows after that point all compare greater than `x` and the row before
      it (if any) does not. */
  lemma {:induction false} InsertAt(p: seq<TaskRow>, x: TaskRow, key: SortKey, asc: bool, collate: (string, string) -> int, j: int)
    requires 0 <= j <= |p|
    requires j == 0 || RowCompare(p[j - 1], x, key, asc, collate) <= 0
    requires forall k :: j <= k < |p| ==> RowCompare(p[k], x, key, asc, collate) > 0
    ensures Insert(p, x, key, asc, collate) == p[..j] + [x] + p[j..]
    decreases |p|
  {
    if j == |p| {
      assert p[..j] == p && p[j..] == [];
    } else {
      var p', last := p[..|p| - 1], p[|p| - 1];
      var q := Insert(p', x, key, asc, collate);
      assert RowCompare(last, x, key, asc, collate) > 0;
      InsertAt(p', x, key, asc, collate, j);
      SplitBeforeLast(p, x, j);
      calc {
        Insert(p, x, key, asc, collate);
        q + [last];
        p'[..j] + [x] + p'[j..] + [last];
        p[..j] + [x] + p[j..];
      }
    }
  }

  /** Proof helper, sequence algebra for `InsertAt`: placing `x` at `j`
      commutes with appending the last row. */
  lemma SplitBeforeLast(p: seq<TaskRow>, x: TaskRow, j: int)
    requires 0 <= j < |p|
    ensures p[..|p| - 1][..j] + [x] + p[..|p| - 1][j..] + [p[|p| - 1]] == p[..j] + [x] + p[j..]
  {
    var p' := p[..|p| - 1];
    assert p'[..j] == p[..j];
    assert p'[j..] + [p[|p| - 1]] == p[j..];
  }

  /** After the insertion loop: `x` placed at `j`, with the rows from `j` on
      shifted up by one, is the insertion of `x` into `p`. */
  lemma InsertPlaced(p: seq<TaskRow>, x: TaskRow, key: SortKey, asc: bool, collate: (string, string) -> int, j: int, placed: seq<TaskRow>)
    requires 0 <= j <= |p|
    requires j == 0 || RowCompare(p[j - 1], x, key, asc, collate) <= 0
    requires forall k :: j <= k < |p| ==> RowCompare(p[k], x, key, asc, collate) > 0
    requires |placed| == |p| + 1 && placed[j] == x
    requires forall k :: 0 <= k < j ==> placed[k] == p[k]
    requires forall k :: j < k <= |p| ==> placed[k] == p[k - 1]
    ensures placed == Insert(p, x, key, asc, collate)
  {
    InsertAt(p, x, key, asc, collate, j);
    assert placed == p[..j] + [x] + p[j..];
  }

  /** Sorting one more row of the input inserts it into the sorted prefix. */
  lemma SortedRowsExtend(s: seq<TaskRow>, key: SortKey, asc: bool, collate: (string, string) -> int, i: int)
    requires 0 <= i < |s|
    ensures SortedRows(s[..i + 1], key, asc, collate)
         == Insert(SortedRows(s[..i], key, asc, collate), s[i], key, asc, collate)
  {
    assert s[..i + 1][..i] == s[..i];
  }

  /** Shifts the rows of the sorted prefix `a[..i]` that compare greater
      than `x` one place to the right, overwriting `a[i]`, and returns the
      index of the gap left in front of them. */
  method ShiftGreater(a: array<TaskRow>, i: int, x: TaskRow, key: SortKey, asc: bool, collate: (string, string) -> int)
    returns (j: int)
    requires 0 <= i < a.Length
    modifies a
    ensures 0 <= j <= i
    ensures j == 0 || RowCompare(old(a[j - 1]), x, key, asc, collate) <= 0
    ensures forall k :: j <= k < i ==> RowCompare(old(a[k]), x, key, asc, collate) > 0
    ensures forall k :: 0 <= k < j ==> a[k] == old(a[k])
    ensures forall k :: j < k <= i ==> a[k] == old(a[k - 1])
    ensures forall k :: i < k < a.Length ==> a[k] == old(a[k])
  {
    ghost var o := a[..];
    j := i;
    while j > 0 && RowCompare(a[j - 1], x, key, asc, collate) > 0
      invariant 0 <= j <= i
      invariant forall k :: 0 <= k < j ==> a[k] == o[k]
      invariant forall k :: j < k <= i ==> a[k] == o[k - 1]
      invariant forall k :: i < k < a.Length ==> a[k] == o[k]
      invariant forall k :: j <= k < i ==> RowCompare(o[k], x, key, asc, collate) > 0
    {
      a[j] := a[j - 1];
      j := j - 1;
    }
    assert j == 0 || a[j - 1] == o[j - 1];
  }

  /** Moves `a[i]` left past the rows of the sorted prefix `a[..i]` that
      compare greater than it: one pass of the insertion sort. */
  method InsertInPlace(a: array<TaskRow>, i: int, key: SortKey, asc: bool, collate: (string, string) -> int)
    requires 0 <= i < a.Length
    modifies a
    ensures a[..i + 1] == Insert(old(a[..i]), old(a[i]), key, asc, collate)
    ensures forall k :: i < k < a.Length ==> a[k] == old(a[k])
  {
    var x := a[i];
    ghost var p := a[..i];
    var j := ShiftGreater(a, i, x, key, asc, collate);
    a[j] := x;
    ghost var placed := a[..i + 1];
    assert forall k :: 0 <= k < j ==> placed[k] == p[k];
    assert forall k :: j < k <= i ==> placed[k] == p[k - 1];
    InsertPlaced(p, x, key, asc, collate, j, placed);
  }

  /** Sorts `a` in place, as `copy.sort(comparator)` does. */
  method SortInPlace(a: array<TaskRow>, key: SortKey, asc: bool, collate: (string, string) -> int)
    modifies a
    ensures a[..] == SortedRows(old(a[..]), key, asc, collate)
  {
    ghost var orig := a[..];
    var i := 0;
    while i < a.Length
      invariant 0 <= i <= a.Length
      invariant a[..i] == SortedRows(orig[..i], key, asc, collate)
      invariant forall k :: i <= k < a.Length ==> a[k] == orig[k]
    {
      assert a[..i] == SortedRows(orig[..i], key, asc, collate) && a[i] == orig[i];
      InsertInPlace(a, i, key, asc, collate);
      SortedRowsExtend(orig, key, asc, collate, i);
      i := i + 1;
    }
    assert orig[..a.Length] == orig;
  }
}
