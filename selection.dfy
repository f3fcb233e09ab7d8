/** The selection state machine of the lottery picker: twenty numbered cells
    with a `selected` flag each, and the ordered list of selected values that
    the tray shows. The transitions are pure functions on a `Board`; the
    component's class applies them to its fields. */
module Selection {

  /** Number of cells on the grid, holding the values 1..CellCount. */
  const CellCount: nat := 20
  /** Largest number of values a ticket holds. */
  const MaxPicks: nat := 10

  datatype Cell = Cell(value: int, selected: bool)

  /** `numbers` are the grid cells, `selectedNumbers` the picks in the order
      they were made. */
  datatype Board = Board(numbers: seq<Cell>, selectedNumbers: seq<int>)

  datatype ToggleResult = SelectionFull | Toggled(board: Board)

  predicate Distinct(s: seq<int>) {
    forall i, j :: 0 <= i < j < |s| ==> s[i] != s[j]
  }

  predicate DistinctValues(cells: seq<Cell>) {
    forall i, j :: 0 <= i < j < |cells| ==> cells[i].value != cells[j].value
  }

  /** The grid as created: cell i holds the value i + 1. */
  predicate WellFormed(cells: seq<Cell>) {
    |cells| == CellCount && forall i :: 0 <= i < |cells| ==> cells[i].value == i + 1
  }

  /** The flags and the list never disagree. */
  predicate Agree(b: Board) {
    forall i :: 0 <= i < |b.numbers| ==>
      (b.numbers[i].selected <==> b.numbers[i].value in b.selectedNumbers)
  }

  /** The invariant every transition keeps. */
  predicate Consistent(b: Board) {
    && WellFormed(b.numbers)
    && Distinct(b.selectedNumbers)
    && (forall x :: x in b.selectedNumbers ==> 1 <= x <= CellCount)
    && Agree(b)
    && |b.selectedNumbers| <= MaxPicks
  }

  /** A cell may be clicked unless the ticket is full and the cell is not
      already on it. The same test greys a ball out and picks the cursor. */
  predicate Selectable(cell: Cell, count: int) {
    !(count >= MaxPicks && !cell.selected)
  }

  /** The grid as created: cells 1..20, none selected. */
  function InitialNumbers(): (r: seq<Cell>)
    ensures WellFormed(r)
    ensures forall j :: 0 <= j < |r| ==> !r[j].selected
  {
    seq(CellCount, i => Cell(i + 1, false))
  }

  function InitialBoard(): Board {
    Board(InitialNumbers(), [])
  }

  /** `s.filter(n => n !== v)`. */
  function Without(s: seq<int>, v: int): (r: seq<int>)
    ensures forall x :: x in r <==> x in s && x != v
    ensures |r| <= |s|
  {
    if s == [] then []
    else if s[0] == v then Without(s[1..], v)
    else [s[0]] + Without(s[1..], v)
  }

  /** Flip the flag of every cell holding `v`, leaving the others alone. */
  function FlipValue(cells: seq<Cell>, v: int): seq<Cell> {
    seq(|cells|, j requires 0 <= j < |cells| =>
      if cells[j].value == v then cells[j].(selected := !cells[j].selected) else cells[j])
  }

  /** Set every flag to membership of the cell's value in `list`. */
  function MarkMembers(cells: seq<Cell>, list: seq<int>): seq<Cell> {
    seq(|cells|, j requires 0 <= j < |cells| => cells[j].(selected := cells[j].value in list))
  }

  function ClearFlags(cells: seq<Cell>): seq<Cell> {
    seq(|cells|, j requires 0 <= j < |cells| => cells[j].(selected := false))
  }

  /** `numbers.filter(n => !n.selected).map(n => n.value)`. */
  function AvailableValues(cells: seq<Cell>): (r: seq<int>)
    ensures forall x :: x in r <==> Cell(x, false) in cells
  {
    if cells == [] then []
    else (if cells[0].selected then [] else [cells[0].value]) + AvailableValues(cells[1..])
  }

  /** The values of the flagged cells, in grid order. */
  function FlaggedValues(cells: seq<Cell>): (r: seq<int>)
    ensures forall x :: x in r <==> Cell(x, true) in cells
  {
    if cells == [] then []
    else (if cells[0].selected then [cells[0].value] else []) + FlaggedValues(cells[1..])
  }

  /** `s.slice(0, n)` for a non-negative n. */
  function Take(s: seq<int>, n: nat): seq<int> {
    if n <= |s| then s[..n] else s
  }

  function Min(a: int, b: int): int {
    if a <= b then a else b
  }

  /** A click on cell i: refused when the ticket is full and the cell is not
      on it; otherwise its flag flips, and its value leaves the list or is
      appended to it. */
  function Toggle(b: Board, i: nat): (r: ToggleResult)
    requires i < |b.numbers|
    ensures r == SelectionFull <==> |b.selectedNumbers| >= MaxPicks && !b.numbers[i].selected
  {
    var number := b.numbers[i];
    if !Selectable(number, |b.selectedNumbers|) then SelectionFull
    else
      var list := if number.selected then Without(b.selectedNumbers, number.value)
                  else b.selectedNumbers + [number.value];
      Toggled(Board(FlipValue(b.numbers, number.value), list))
  }

  /** Quick select: `shuffled` is the random order of the unselected values;
      its first `count` entries are appended and the list is cut to ten. */
  function QuickSelect(b: Board, shuffled: seq<int>, count: nat): (r: Board)
    ensures |r.selectedNumbers| <= MaxPicks && |r.numbers| == |b.numbers|
    ensures forall j :: 0 <= j < |b.numbers| ==>
      r.numbers[j] == Cell(b.numbers[j].value, b.numbers[j].value in r.selectedNumbers)
  {
    var newSelected := Take(b.selectedNumbers + Take(shuffled, count), MaxPicks);
    Board(MarkMembers(b.numbers, newSelected), newSelected)
  }

  /** Reset: every flag cleared and the list emptied. */
  function Reset(b: Board): (r: Board)
    ensures r.selectedNumbers == [] && |r.numbers| == |b.numbers|
    ensures forall j :: 0 <= j < |b.numbers| ==> r.numbers[j] == Cell(b.numbers[j].value, false)
  {
    Board(ClearFlags(b.numbers), [])
  }

  // ---------------------------------------------------------------------
  // Facts about lists without duplicates

  lemma {:induction false} WithoutDistinct(s: seq<int>, v: int)
    requires Distinct(s)
    ensures Distinct(Without(s, v))
    ensures v in s ==> |Without(s, v)| == |s| - 1
    ensures v !in s ==> Without(s, v) == s
  {
    if s != [] {
      assert Distinct(s[1..]);
      WithoutDistinct(s[1..], v);
      if s[0] == v {
        assert v !in s[1..];
      } else {
        assert v in s ==> v in s[1..];
        assert s[0] !in s[1..];
        ConsDistinct(s[0], Without(s[1..], v));
      }
    }
  }

  lemma ConsDistinct(x: int, t: seq<int>)
    requires Distinct(t) && x !in t
    ensures Distinct([x] + t)
  {
    var r := [x] + t;
    forall i, j | 0 <= i < j < |r| ensures r[i] != r[j] {
      assert r[j] == t[j - 1];
    }
  }

  /** Removing the value at position k of a list without duplicates leaves
      the values before it and after it, in their order. */
  lemma {:induction false} WithoutAt(s: seq<int>, k: nat)
    requires Distinct(s) && k < |s|
    ensures Without(s, s[k]) == s[..k] + s[k + 1..]
  {
    var v := s[k];
    assert Distinct(s[1..]);
    if k == 0 {
      assert v !in s[1..];
      WithoutDistinct(s[1..], v);
    } else {
      assert s[0] != v;
      assert s[1..][k - 1] == v;
      WithoutAt(s[1..], k - 1);
      assert s[..k] == [s[0]] + s[1..][..k - 1];
      assert s[k + 1..] == s[1..][k..];
    }
  }

  lemma {:induction false} DistinctCard(s: seq<int>)
    requires Distinct(s)
    ensures |set x | x in s| == |s|
  {
    if s != [] {
      assert Distinct(s[1..]);
      DistinctCard(s[1..]);
      assert (set x | x in s) == {s[0]} + (set x | x in s[1..]);
      assert s[0] !in (set x | x in s[1..]);
    }
  }

  lemma {:induction false} DistinctAtMostOnce(s: seq<int>)
    requires Distinct(s)
    ensures forall x :: multiset(s)[x] <= 1
  {
    if s != [] {
      assert Distinct(s[1..]);
      DistinctAtMostOnce(s[1..]);
      assert s == [s[0]] + s[1..];
      assert multiset(s) == multiset{s[0]} + multiset(s[1..]);
      assert s[0] !in multiset(s[1..]);
    }
  }

  lemma RepeatCountsTwice(b: seq<int>, i: nat, j: nat)
    requires i < j < |b|
    ensures b[i] == b[j] ==> multiset(b)[b[i]] >= 2
  {
    assert b == b[..j] + b[j..];
    assert multiset(b) == multiset(b[..j]) + multiset(b[j..]);
    assert b[i] in b[..j];
    assert b[j] in b[j..];
  }

  /** Reordering a list without duplicates gives a list without duplicates. */
  lemma DistinctPermutation(a: seq<int>, b: seq<int>)
    requires Distinct(a) && multiset(a) == multiset(b)
    ensures Distinct(b)
  {
    DistinctAtMostOnce(a);
    forall i, j | 0 <= i < j < |b| ensures b[i] != b[j] {
      RepeatCountsTwice(b, i, j);
    }
  }

  lemma AppendDistinct(a: seq<int>, p: seq<int>)
    requires Distinct(a) && Distinct(p)
    requires forall x :: x in p ==> x !in a
    ensures Distinct(a + p)
  {
    var all := a + p;
    forall i, j | 0 <= i < j < |all| ensures all[i] != all[j] {
      if i < |a| && j >= |a| {
        assert all[j] == p[j - |a|];
        assert all[i] in a;
      } else if i >= |a| {
        assert all[i] == p[i - |a|] && all[j] == p[j - |a|];
      }
    }
  }

  lemma TakeDistinct(s: seq<int>, n: nat)
    requires Distinct(s)
    ensures Distinct(Take(s, n))
    ensures forall x :: x in Take(s, n) ==> x in s
  {
  }

  // ---------------------------------------------------------------------
  // Counting flagged and unflagged cells

  lemma {:induction false} PartitionValues(cells: seq<Cell>)
    requires DistinctValues(cells)
    ensures Distinct(AvailableValues(cells)) && Distinct(FlaggedValues(cells))
    ensures |AvailableValues(cells)| + |FlaggedValues(cells)| == |cells|
  {
    if cells != [] {
      var rest := cells[1..];
      assert DistinctValues(rest);
      PartitionValues(rest);
      var c := cells[0];
      assert Cell(c.value, false) !in rest && Cell(c.value, true) !in rest by {
        forall k | 0 <= k < |rest| ensures rest[k].value != c.value {
          assert rest[k] == cells[k + 1];
        }
      }
      var avail := (if c.selected then [] else [c.value]) + AvailableValues(rest);
      var flagged := (if c.selected then [c.value] else []) + FlaggedValues(rest);
      forall i, j | 0 <= i < j < |avail| ensures avail[i] != avail[j] {
        if i == 0 && !c.selected {
          assert avail[j] in AvailableValues(rest);
        }
      }
      forall i, j | 0 <= i < j < |flagged| ensures flagged[i] != flagged[j] {
        if i == 0 && c.selected {
          assert flagged[j] in FlaggedValues(rest);
        }
      }
    }
  }

  /** The number of flagged cells equals the length of the list, and the
      remaining cells are the unselected ones. */
  lemma SelectedCount(b: Board)
    requires Consistent(b)
    ensures |FlaggedValues(b.numbers)| == |b.selectedNumbers|
    ensures |AvailableValues(b.numbers)| == CellCount - |b.selectedNumbers|
  {
    var cells := b.numbers;
    assert DistinctValues(cells);
    PartitionValues(cells);
    var flagged := FlaggedValues(cells);
    assert (set x | x in flagged) == (set x | x in b.selectedNumbers) by {
      forall x | x in flagged ensures x in b.selectedNumbers {
        var k :| 0 <= k < |cells| && cells[k] == Cell(x, true);
      }
      forall x | x in b.selectedNumbers ensures x in flagged {
        assert cells[x - 1] == Cell(x, true);
      }
    }
    DistinctCard(flagged);
    DistinctCard(b.selectedNumbers);
  }

  // ---------------------------------------------------------------------
  // The transitions

  lemma InitialConsistent()
    ensures Consistent(InitialBoard())
  {
  }

  /** What an accepted click changes: the clicked flag and nothing else on
      the grid; the value leaves the list with the other picks kept in
      order, or joins it at the end. */
  lemma ToggleEffect(b: Board, i: nat)
    requires Consistent(b) && i < |b.numbers|
    requires Toggle(b, i).Toggled?
    ensures var nb := Toggle(b, i).board;
      && |nb.numbers| == |b.numbers|
      && nb.numbers[i] == Cell(b.numbers[i].value, !b.numbers[i].selected)
      && (forall j :: 0 <= j < |b.numbers| && j != i ==> nb.numbers[j] == b.numbers[j])
      && (b.numbers[i].selected ==>
            |nb.selectedNumbers| == |b.selectedNumbers| - 1 &&
            (forall x :: x in nb.selectedNumbers <==> x in b.selectedNumbers && x != b.numbers[i].value) &&
            forall k :: 0 <= k < |b.selectedNumbers| && b.selectedNumbers[k] == b.numbers[i].value ==>
              nb.selectedNumbers == b.selectedNumbers[..k] + b.selectedNumbers[k + 1..])
      && (!b.numbers[i].selected ==> nb.selectedNumbers == b.selectedNumbers + [b.numbers[i].value])
  {
    var v := b.numbers[i].value;
    WithoutDistinct(b.selectedNumbers, v);
    forall k | 0 <= k < |b.selectedNumbers| && b.selectedNumbers[k] == v
      ensures Without(b.selectedNumbers, v) == b.selectedNumbers[..k] + b.selectedNumbers[k + 1..]
    {
      WithoutAt(b.selectedNumbers, k);
    }
  }

  /** An accepted click keeps the flags and the list in agreement, the list
      free of duplicates and at most ten long. */
  lemma ToggleKeepsConsistent(b: Board, i: nat)
    requires Consistent(b) && i < |b.numbers|
    requires Toggle(b, i).Toggled?
    ensures Consistent(Toggle(b, i).board)
  {
    var v := b.numbers[i].value;
    WithoutDistinct(b.selectedNumbers, v);
    var nb := Toggle(b, i).board;
    if !b.numbers[i].selected {
      assert v !in b.selectedNumbers;
      forall p, q | 0 <= p < q < |nb.selectedNumbers|
        ensures nb.selectedNumbers[p] != nb.selectedNumbers[q]
      {
        if q == |b.selectedNumbers| {
          assert nb.selectedNumbers[p] in b.selectedNumbers;
        }
      }
    }
  }

  /** The values quick select may append: unselected, so not on the list,
      and without duplicates. */
  lemma ShuffledFresh(b: Board, shuffled: seq<int>)
    requires Consistent(b)
    requires multiset(shuffled) == multiset(AvailableValues(b.numbers))
    ensures Distinct(shuffled)
    ensures forall x :: x in shuffled ==>
      Cell(x, false) in b.numbers && x !in b.selectedNumbers && 1 <= x <= CellCount
  {
    assert DistinctValues(b.numbers);
    PartitionValues(b.numbers);
    DistinctPermutation(AvailableValues(b.numbers), shuffled);
    forall x | x in shuffled
      ensures Cell(x, false) in b.numbers && x !in b.selectedNumbers && 1 <= x <= CellCount
    {
      assert x in multiset(shuffled);
      assert x in AvailableValues(b.numbers);
      var k :| 0 <= k < |b.numbers| && b.numbers[k] == Cell(x, false);
    }
  }

  /** Quick select keeps the invariant; every flag is membership in the new
      list. */
  lemma QuickSelectKeepsConsistent(b: Board, shuffled: seq<int>, count: nat)
    requires Consistent(b)
    requires multiset(shuffled) == multiset(AvailableValues(b.numbers))
    ensures Consistent(QuickSelect(b, shuffled, count))
  {
    ShuffledFresh(b, shuffled);
    var picks := Take(shuffled, count);
    TakeDistinct(shuffled, count);
    AppendDistinct(b.selectedNumbers, picks);
    TakeDistinct(b.selectedNumbers + picks, MaxPicks);
  }

  /** Quick select: the old list stays in front, every value it adds was an
      unselected cell, and the list grows by
      min(count, 10 - old length, number of unselected cells). */
  lemma QuickSelectGrowth(b: Board, shuffled: seq<int>, count: nat)
    requires Consistent(b)
    requires multiset(shuffled) == multiset(AvailableValues(b.numbers))
    ensures var nl := QuickSelect(b, shuffled, count).selectedNumbers;
      && |b.selectedNumbers| <= |nl|
      && nl[..|b.selectedNumbers|] == b.selectedNumbers
      && (forall k :: |b.selectedNumbers| <= k < |nl| ==>
            Cell(nl[k], false) in b.numbers && nl[k] !in b.selectedNumbers)
      && |nl| == |b.selectedNumbers| +
           Min(count, Min(MaxPicks - |b.selectedNumbers|, |AvailableValues(b.numbers)|))
  {
    var old_ := b.selectedNumbers;
    var picks := Take(shuffled, count);
    var nl := QuickSelect(b, shuffled, count).selectedNumbers;
    assert |shuffled| == |AvailableValues(b.numbers)| by {
      assert |multiset(shuffled)| == |multiset(AvailableValues(b.numbers))|;
    }
    SelectedCount(b);
    assert nl == Take(old_ + picks, MaxPicks);
    assert (old_ + picks)[..|old_|] == old_;
    forall k | |old_| <= k < |nl| ensures Cell(nl[k], false) in b.numbers && nl[k] !in old_ {
      assert nl[k] == picks[k - |old_|];
      assert nl[k] in multiset(shuffled);
      assert nl[k] in AvailableValues(b.numbers);
      var j :| 0 <= j < |b.numbers| && b.numbers[j] == Cell(nl[k], false);
    }
  }

  /** Reset clears every flag, keeps every value and empties the list. */
  lemma ResetClears(b: Board)
    requires WellFormed(b.numbers)
    ensures var nb := Reset(b);
      && Consistent(nb)
      && |nb.numbers| == |b.numbers|
      && (forall i :: 0 <= i < |b.numbers| ==> nb.numbers[i] == Cell(b.numbers[i].value, false))
      && |nb.selectedNumbers| == 0
  {
  }

}
