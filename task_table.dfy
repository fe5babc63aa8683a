/** The sortable task table: its sort state, the header-click state machine,
    the header labels with their arrow, and the rows it displays. */
module TaskTable {
  import opened Collation
  import opened TaskRows
  import opened TaskSort

  /** The selected column and the direction flag. */
  datatype SortState = SortState(key: SortKey, asc: bool)

  /** A fresh table sorts by code, ascending. */
  const InitialState := SortState(Code, true)

  /** The state after a click on the header of column `k`: the active column
      flips its direction, any other column becomes active and ascending. */
  function Click(s: SortState, k: SortKey): (r: SortState)
    ensures r.key == k
    ensures r != s
  {
    if s.key == k then SortState(s.key, !s.asc) else SortState(k, true)
  }

  /** The states after a sequence of header clicks. */
  function Clicks(s: SortState, ks: seq<SortKey>): (r: SortState)
    ensures ks != [] ==> r.key == ks[|ks| - 1]
  {
    if ks == [] then s else Click(Clicks(s, ks[..|ks| - 1]), ks[|ks| - 1])
  }

  /** The arrow shown after a column's name: ▲ or ▼ on the active column,
      nothing on the others. */
  function Arrow(s: SortState, column: SortKey): (r: string)
    ensures |r| <= 1
    ensures r != "" <==> s.key == column
  {
    if s.key == column then (if s.asc then "▲" else "▼") else ""
  }

  /** The name of a sortable column's header. */
  function ColumnName(column: SortKey): (r: string)
  {
    match column
    case Code => "Task ID"
    case Title => "Name"
    case CategoryTitle => "Category"
  }

  /** The text of a sortable header: its name, a space, and its arrow. */
  function HeaderLabel(s: SortState, column: SortKey): (r: string)
    ensures |ColumnName(column)| < |r| <= |ColumnName(column)| + 2
    ensures r[|ColumnName(column)|] == ' '
  {
    ColumnName(column) + " " + Arrow(s, column)
  }

  // ---------------------------------------------------------------------
  // The click state machine

  /** After a click the clicked column is active, and the direction is
      descending exactly when an active ascending column was clicked. */
  lemma ClickOutcome(s: SortState, k: SortKey)
    ensures Click(s, k).key == k
    ensures !Click(s, k).asc <==> s.key == k && s.asc
  {
  }

  /** Clicking the active header flips only the direction. */
  lemma ClickActiveFlipsDirection(s: SortState)
    ensures Click(s, s.key) == s.(asc := !s.asc)
  {
  }

  /** Two clicks on the same header restore the state when that header was
      already active. */
  lemma ClickTwiceRestores(s: SortState)
    ensures Click(Click(s, s.key), s.key) == s
  {
  }

  /** Clicking another header selects it and forces ascending order, whatever
      the previous direction was. */
  lemma ClickOtherResetsAscending(s: SortState, k: SortKey)
    requires k != s.key
    ensures Click(s, k) == SortState(k, true)
    ensures Click(s.(asc := !s.asc), k) == Click(s, k)
  {
  }

  /** The result of any click sequence depends only on the state after its
      first clicks and the remaining ones. */
  lemma {:induction false} ClicksAppend(s: SortState, a: seq<SortKey>, b: seq<SortKey>)
    ensures Clicks(s, a + b) == Clicks(Clicks(s, a), b)
    decreases |b|
  {
    if b == [] {
      assert a + b == a;
    } else {
      var b' := b[..|b| - 1];
      assert (a + b)[..|a + b| - 1] == a + b';
      ClicksAppend(s, a, b');
    }
  }

  /** An even number of clicks on the active header leaves the state as it
      was, an odd number only flips the direction. */
  lemma {:induction false} RepeatedClicksOnActive(s: SortState, n: nat)
    ensures Clicks(s, seq(n, _ => s.key)) == if n % 2 == 0 then s else s.(asc := !s.asc)
  {
    if n > 0 {
      var ks := seq(n, _ => s.key);
      assert ks[..n - 1] == seq(n - 1, _ => s.key);
      RepeatedClicksOnActive(s, n - 1);
    }
  }

  /** Every state is reached from the initial one in at most two clicks: one
      click on the column, and one more on it to turn it descending. */
  lemma EveryStateReachable(t: SortState)
    ensures exists ks :: |ks| <= 2 && Clicks(InitialState, ks) == t
  {
    var one := [t.key];
    assert one[..0] == [];
    assert Clicks(InitialState, one) == Click(InitialState, t.key);
    if t == InitialState {
      assert Clicks(InitialState, []) == t;
    } else if t.key == Code || t.asc {
      assert Clicks(InitialState, one) == t;
    } else {
      var two := [t.key, t.key];
      assert two[..1] == one;
      assert Clicks(InitialState, two) == t;
    }
  }

  // ---------------------------------------------------------------------
  // The headers

  /** Only the active column shows an arrow: ▲ when ascending, ▼ when
      descending. */
  lemma ArrowOnlyOnActiveColumn(s: SortState, column: SortKey)
    ensures Arrow(s, column) != "" <==> column == s.key
    ensures Arrow(s, column) == "▲" <==> column == s.key && s.asc
    ensures Arrow(s, column) == "▼" <==> column == s.key && !s.asc
  {
  }

  /** Exactly one sortable header carries an arrow. */
  lemma ExactlyOneArrow(s: SortState)
    ensures |set column: SortKey | Arrow(s, column) != ""| == 1
  {
    assert (set column: SortKey | Arrow(s, column) != "") == {s.key};
  }

  /** An inactive header reads as its name and a trailing space; the active
      one as its name, a space and the arrow. */
  lemma HeaderLabelShape(s: SortState, column: SortKey)
    ensures column != s.key ==> HeaderLabel(s, column) == ColumnName(column) + " "
    ensures column == s.key ==> HeaderLabel(s, column) == ColumnName(column) + " " + (if s.asc then "▲" else "▼")
    ensures HeaderLabel(s, column)[..|ColumnName(column)|] == ColumnName(column)
  {
  }

  /** The component: its state fields, the header click handler, and the rows
      it displays. */
  class SortableTaskTable {
    var sortKey: SortKey
    var asc: bool

    function State(): (r: SortState)
      reads this
    {
      SortState(sortKey, asc)
    }

    constructor ()
      ensures State() == InitialState
    {
      sortKey := Code;
      asc := true;
    }

    /** `clickHeader(key)`. */
    method ClickHeader(key: SortKey)
      modifies this
      ensures State() == Click(old(State()), key)
    {
      if sortKey == key {
        asc := !asc;
      } else {
        sortKey := key;
        asc := true;
      }
    }

    /** The displayed rows: a copy of `initial` (an absent one read as no
        rows), sorted in place by the selected column and direction. The
        input array is left as it was. */
    method Rows(initial: array?<TaskRow>, collate: (string, string) -> int) returns (rows: seq<TaskRow>)
      requires IsCollation(collate)
      ensures initial == null ==> rows == []
      ensures initial != null ==> rows == SortedRows(initial[..], sortKey, asc, collate)
      ensures initial != null ==> IsStableSortOf(rows, initial[..], sortKey, asc, collate)
      ensures initial != null ==> multiset(rows) == multiset(initial[..])
    {
      var input := if initial == null then [] else initial[..];
      var copy := new TaskRow[|input|](i requires 0 <= i < |input| => input[i]);
      assert copy[..] == input;
      SortInPlace(copy, sortKey, asc, collate);
      rows := copy[..];
      SortedRowsPermutation(input, sortKey, asc, collate);
      SortedRowsCharacterisation(input, rows, sortKey, asc, collate);
    }
  }

  /** Clicking a header and then computing the rows displays the input sorted
      by the clicked column, in the direction the click selects. */
  method ClickThenRows(table: SortableTaskTable, key: SortKey, initial: array<TaskRow>, collate: (string, string) -> int)
    returns (rows: seq<TaskRow>)
    requires IsCollation(collate)
    modifies table
    ensures table.State() == Click(old(table.State()), key)
    ensures rows == SortedRows(initial[..], key, Click(old(table.State()), key).asc, collate)
  {
    table.ClickHeader(key);
    rows := table.Rows(initial, collate);
  }
}
