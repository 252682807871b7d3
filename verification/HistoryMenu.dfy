/** The history menu: the tree of dates with the first rows of the first date moved up to the root.
    Menu and tree indexes carry an internal id; the id -1 marks a row of the menu's root. The menu
    goes through the tree's search, which reads behind its cache for rows below the last start. */
module HistoryMenu {
  import opened HistoryTree

  const MOVEDROWS := 15

  datatype ModelIndex = Invalid | Index(row: int, column: int, id: int)

  /** The tree model, given by its cache of date rows, the number of filtered rows, and what the
      memory behind the cache holds. */
  datatype Tree = Tree(cache: seq<int>, n: int, behind: int) {

    ghost predicate Valid() {
      Partitions(cache, n)
    }

    /** The filtered row behind a tree index, or -1. */
    function MapToSource(index: ModelIndex): int {
      if index.Invalid? || index.id == 0 then -1
      else
        var r := DateRow(cache, n, index.id - 1) + index.row;
        if 0 <= r < n then r else -1
    }

    function MapFromSource(row: int, column: int): ModelIndex {
      if row < 0 || row >= n then Invalid
      else
        var place := HistoryTree.MapFromSource(cache, row, behind);
        if place.Item? then Index(place.row, column, place.date + 1) else Invalid
    }

    function ColumnCount(parent: ModelIndex): int {
      if MapToSource(parent) == -1 then 2 else 0
    }

    function RowCount(parent: ModelIndex): int {
      if parent.Index? && (parent.id != 0 || parent.column > 0) then 0
      else if parent.Invalid? then |cache|
      else RowsOfDate(cache, n, parent.row)
    }

    function At(row: int, column: int, parent: ModelIndex): ModelIndex {
      if row < 0 || column < 0 || column >= ColumnCount(parent) || (parent.Index? && parent.column > 0) then Invalid
      else if parent.Invalid? then Index(row, column, 0)
      else Index(row, column, parent.row + 1)
    }

    function Parent(index: ModelIndex): ModelIndex {
      if index.Invalid? || index.id == 0 then Invalid else Index(index.id - 1, 0, 0)
    }
  }

  datatype Menu = Menu(tree: Tree) {

    /** How many rows of the first date stand directly in the menu. */
    function BumpedRows(): int {
      var first := tree.At(0, 0, Invalid);
      var rows := tree.RowCount(first);
      if rows <= MOVEDROWS then rows else MOVEDROWS
    }

    /** How far the menu's folders stand behind the dates they show. */
    function FolderShift(): int {
      var bumped := BumpedRows();
      if bumped <= MOVEDROWS && bumped == tree.RowCount(tree.At(0, 0, Invalid)) then bumped - 1 else bumped
    }

    function RowCount(parent: ModelIndex): int {
      if parent.Index? && parent.column > 0 then 0
      else if parent.Invalid? then FolderShift() + tree.RowCount(Invalid)
      else if parent.id == -1 && parent.row < BumpedRows() then 0
      else
        var index := MapToSource(parent);
        var count := tree.RowCount(index);
        if index == tree.At(0, 0, Invalid) then count - BumpedRows() else count
    }

    function MapToSource(index: ModelIndex): ModelIndex {
      if index.Invalid? then Invalid
      else if index.id == -1 then
        if index.row < BumpedRows() then tree.At(index.row, index.column, tree.At(0, 0, Invalid))
        else tree.At(index.row - FolderShift(), index.column, Invalid)
      else tree.MapFromSource(index.id, index.column)
    }

    function ColumnCount(parent: ModelIndex): int {
      tree.ColumnCount(MapToSource(parent))
    }

    function At(row: int, column: int, parent: ModelIndex): ModelIndex {
      if row < 0 || column < 0 || column >= ColumnCount(parent) || (parent.Index? && parent.column > 0) then Invalid
      else if parent.Invalid? then Index(row, column, -1)
      else
        var treeParent := MapToSource(parent);
        var bumped := if treeParent == tree.At(0, 0, Invalid) then BumpedRows() else 0;
        var treeIndex := tree.At(row + bumped, column, treeParent);
        var historyRow := tree.MapToSource(treeIndex);
        Index(row, column, if historyRow == -1 then (if treeIndex.Index? then treeIndex.row else -1) else historyRow)
    }

    function Parent(index: ModelIndex): ModelIndex {
      if index.Invalid? || index.id == -1 then Invalid
      else
        var treeParent := tree.Parent(tree.MapFromSource(index.id, 0));
        var row := if treeParent.Index? then treeParent.row else -1;
        var column := if treeParent.Index? then treeParent.column else -1;
        Index(FolderShift() + row, column, tree.MapToSource(treeParent))
    }

    // ---- What the menu lists -------------------------------------------------------------------

    /** The filtered row a menu entry stands for, or -1 for a folder. */
    function Shows(index: ModelIndex): int {
      tree.MapToSource(MapToSource(index))
    }

    /** The rows below one root entry, in menu order: itself when it is a history row, its children
        when it is a folder. */
    function ListEntry(row: int): seq<int> {
      var entry := At(row, 0, Invalid);
      if row < BumpedRows() then [Shows(entry)] else ListChildren(entry, RowCount(entry))
    }

    function ListChildren(folder: ModelIndex, count: int): seq<int> {
      if count <= 0 then [] else ListChildren(folder, count - 1) + [Shows(At(count - 1, 0, folder))]
    }

    /** The first `rows` root entries flattened. */
    function List(rows: int): seq<int> {
      if rows <= 0 then [] else List(rows - 1) + ListEntry(rows - 1)
    }
  }

  /** The search for row `r` finds it behind the cache: `r` lies below the last start and is what the
      memory there holds. */
  predicate Lost(t: Tree, r: int) {
    IsLost(t.cache, r, t.behind)
  }

  /** The rows from `lo` up to `hi` as the menu shows them: a lost row of a folder shows nothing. */
  function Range(m: Menu, lo: int, hi: int): seq<int>
    decreases hi - lo
  {
    if hi <= lo then [] else Range(m, lo, hi - 1) + [Shown(m, hi - 1)]
  }

  function Shown(m: Menu, r: int): int {
    if m.BumpedRows() <= r && Lost(m.tree, r) then -1 else r
  }

  lemma {:induction false} RangeConcat(m: Menu, lo: int, mid: int, hi: int)
    requires lo <= mid <= hi
    ensures Range(m, lo, mid) + Range(m, mid, hi) == Range(m, lo, hi)
    decreases hi - mid
  {
    hide Shown;
    if mid < hi {
      RangeConcat(m, lo, mid, hi - 1);
    } else {
      assert Range(m, mid, hi) == [];
    }
  }

  /** The numbers from 0 up to `n`. */
  function Numbers(n: int): seq<int> {
    if n <= 0 then [] else Numbers(n - 1) + [n - 1]
  }

  /** All rows are shown exactly when none is lost. */
  lemma {:induction false} RangeIsNumbers(m: Menu, n: int)
    ensures |Range(m, 0, n)| == |Numbers(n)|
    ensures Range(m, 0, n) == Numbers(n) <==> forall r :: m.BumpedRows() <= r < n && 0 <= r ==> !Lost(m.tree, r)
  {
    hide *;
    NumbersUnfold(m, n);
    if n > 0 {
      RangeIsNumbers(m, n - 1);
      SameSnoc(Range(m, 0, n - 1), Numbers(n - 1), Shown(m, n - 1), n - 1);
    }
  }

  lemma NumbersUnfold(m: Menu, n: int)
    ensures n <= 0 ==> Range(m, 0, n) == [] == Numbers(n)
    ensures n > 0 ==> Range(m, 0, n) == Range(m, 0, n - 1) + [Shown(m, n - 1)] && Numbers(n) == Numbers(n - 1) + [n - 1]
    ensures n > 0 ==> (Shown(m, n - 1) == n - 1 <==> !(m.BumpedRows() <= n - 1 && Lost(m.tree, n - 1)))
  {
  }

  lemma SameSnoc(a: seq<int>, b: seq<int>, x: int, y: int)
    requires |a| == |b|
    ensures a + [x] == b + [y] <==> a == b && x == y
  {
    if a + [x] == b + [y] {
      assert a == (a + [x])[..|a|] && b == (b + [y])[..|b|] && (a + [x])[|a|] == x && (b + [y])[|b|] == y;
    }
  }

  /** The first date's rows, and where dates start. */
  lemma DateFacts(t: Tree, date: nat)
    requires t.Valid() && date < |t.cache|
    ensures 0 <= DateRow(t.cache, t.n, date) < DateRow(t.cache, t.n, date + 1) <= t.n
    ensures t.At(date, 0, Invalid) == Index(date, 0, 0)
    ensures t.RowCount(Index(date, 0, 0)) == RowsOfDate(t.cache, t.n, date)
    ensures DateRow(t.cache, t.n, 0) == 0 && DateRow(t.cache, t.n, |t.cache|) == t.n
  {
  }

  /** A folder of the menu: which date it is for, and where its first listed row is. */
  lemma FolderFacts(m: Menu, row: int)
    requires m.tree.Valid() && m.tree.n > 0
    requires m.BumpedRows() <= row < m.RowCount(Invalid)
    ensures var date := row - m.FolderShift();
            var bumped := if date == 0 then m.BumpedRows() else 0;
            && 0 <= date < |m.tree.cache|
            && m.At(row, 0, Invalid) == Index(row, 0, -1)
            && m.MapToSource(Index(row, 0, -1)) == Index(date, 0, 0)
            && m.RowCount(Index(row, 0, -1)) == RowsOfDate(m.tree.cache, m.tree.n, date) - bumped
            && m.RowCount(Index(row, 0, -1)) > 0
  {
    DateFacts(m.tree, 0);
    DateFacts(m.tree, row - m.FolderShift());
  }

  /** What the search finds for a row. */
  lemma SearchFacts(t: Tree, r: int, date: int, row: int, column: int)
    requires t.Valid() && 0 <= r < t.n && PlaceOf(t.cache, t.n, r, Item(date, row))
    ensures t.MapFromSource(r, column) == if Lost(t, r) then Invalid else Index(row, column, date + 1)
    ensures t.MapToSource(Index(row, column, date + 1)) == r
  {
    hide IsLost, HistoryTree.MapFromSource;
    MapFromSourceIsPlace(t.cache, t.n, r, t.behind);
    PlaceIsUnique(t.cache, t.n, r, Item(date, row), MapFromSourceChecked(t.cache, r));
  }

  /** A child of a folder, and what it shows. */
  lemma ChildFacts(m: Menu, row: int, k: int, column: int)
    requires m.tree.Valid() && m.tree.n > 0 && 0 <= column < 2
    requires m.BumpedRows() <= row < m.RowCount(Invalid) && 0 <= k < m.RowCount(Index(row, 0, -1))
    ensures var date := row - m.FolderShift();
            var r := DateRow(m.tree.cache, m.tree.n, date) + (if date == 0 then m.BumpedRows() else 0) + k;
            var child := m.At(k, column, Index(row, 0, -1));
            && m.BumpedRows() <= r < m.tree.n && 0 <= r
            && child == Index(k, column, r)
            && (m.tree.MapFromSource(r, column) ==
                if Lost(m.tree, r) then Invalid else Index(r - DateRow(m.tree.cache, m.tree.n, date), column, date + 1))
            && m.Shows(child) == Shown(m, r)
  {
    FolderFacts(m, row);
    var t := m.tree;
    var date := row - m.FolderShift();
    DateFacts(t, 0);
    DateFacts(t, date);
    hide LowerBound, HistoryTree.MapFromSource, Lost;
    LaterDates(t, date);
    var bumped := if date == 0 then m.BumpedRows() else 0;
    var r := DateRow(t.cache, t.n, date) + bumped + k;
    SearchFacts(t, r, date, bumped + k, column);
    SearchFacts(t, r, date, bumped + k, 0);
  }

  /** Rows of later dates stand below those of the first. */
  lemma LaterDates(t: Tree, date: nat)
    requires t.Valid() && date < |t.cache|
    ensures date > 0 ==> DateRow(t.cache, t.n, 1) <= DateRow(t.cache, t.n, date)
    ensures RowsOfDate(t.cache, t.n, 0) == DateRow(t.cache, t.n, 1)
  {
  }

  lemma {:induction false} ChildrenListed(m: Menu, row: int, count: int)
    requires m.tree.Valid() && m.tree.n > 0
    requires m.BumpedRows() <= row < m.RowCount(Invalid) && 0 <= count <= m.RowCount(Index(row, 0, -1))
    ensures var date := row - m.FolderShift();
            var r := DateRow(m.tree.cache, m.tree.n, date) + if date == 0 then m.BumpedRows() else 0;
            m.ListChildren(Index(row, 0, -1), count) == Range(m, r, r + count)
  {
    hide *;
    var date := row - m.FolderShift();
    var r := DateRow(m.tree.cache, m.tree.n, date) + if date == 0 then m.BumpedRows() else 0;
    ChildrenUnfold(m, Index(row, 0, -1), count, r);
    if count > 0 {
      ChildrenListed(m, row, count - 1);
      ChildFacts(m, row, count - 1, 0);
    }
  }

  lemma ChildrenUnfold(m: Menu, folder: ModelIndex, count: int, r: int)
    requires count >= 0
    ensures count == 0 ==> m.ListChildren(folder, 0) == [] == Range(m, r, r)
    ensures count > 0 ==>
              m.ListChildren(folder, count) ==
              m.ListChildren(folder, count - 1) + [m.Shows(m.At(count - 1, 0, folder))]
    ensures count > 0 ==> Range(m, r, r + count) == Range(m, r, r + count - 1) + [Shown(m, r + count - 1)]
  {
  }

  /** How many rows are listed before root entry `row`. */
  function ListedBefore(m: Menu, row: int): int {
    if row <= m.BumpedRows() then row else DateRow(m.tree.cache, m.tree.n, row - m.FolderShift())
  }

  lemma BumpedEntry(m: Menu, row: int)
    requires m.tree.Valid() && m.tree.n > 0 && 0 <= row < m.BumpedRows()
    ensures m.ListEntry(row) == [row]
  {
    DateFacts(m.tree, 0);
  }

  lemma EntryListed(m: Menu, row: int)
    requires m.tree.Valid() && m.tree.n > 0 && 0 <= row < m.RowCount(Invalid)
    ensures 0 <= ListedBefore(m, row) <= ListedBefore(m, row + 1)
    ensures m.ListEntry(row) == Range(m, ListedBefore(m, row), ListedBefore(m, row + 1))
  {
    if row < m.BumpedRows() {
      BumpedEntry(m, row);
      DateFacts(m.tree, 0);
      assert Range(m, row, row + 1) == Range(m, row, row) + [row];
    } else {
      FolderEntry(m, row);
    }
  }

  /** Where the rows of a folder lie. */
  lemma FolderRange(m: Menu, row: int)
    requires m.tree.Valid() && m.tree.n > 0 && m.BumpedRows() <= row < m.RowCount(Invalid)
    ensures var date := row - m.FolderShift();
            var r := DateRow(m.tree.cache, m.tree.n, date) + if date == 0 then m.BumpedRows() else 0;
            && 0 <= date < |m.tree.cache|
            && r == ListedBefore(m, row)
            && r + m.RowCount(Index(row, 0, -1)) == ListedBefore(m, row + 1)
            && m.RowCount(Index(row, 0, -1)) > 0 && r >= 0
  {
    FolderFacts(m, row);
    DateFacts(m.tree, 0);
    DateFacts(m.tree, row - m.FolderShift());
    RowsAreDifference(m.tree, row - m.FolderShift());
    hide *;
    ListedUnfold(m, row);
    ListedUnfold(m, row + 1);
  }

  lemma RowsAreDifference(t: Tree, date: nat)
    requires t.Valid() && date < |t.cache|
    ensures RowsOfDate(t.cache, t.n, date) == DateRow(t.cache, t.n, date + 1) - DateRow(t.cache, t.n, date)
  {
  }

  lemma ListedUnfold(m: Menu, row: int)
    ensures ListedBefore(m, row) == if row <= m.BumpedRows() then row
             else DateRow(m.tree.cache, m.tree.n, row - m.FolderShift())
    ensures m.FolderShift() == if m.BumpedRows() == m.tree.RowCount(Index(0, 0, 0)) then m.BumpedRows() - 1
             else m.BumpedRows()
    ensures m.BumpedRows() <= m.tree.RowCount(Index(0, 0, 0))
  {
  }

  lemma FolderEntry(m: Menu, row: int)
    requires m.tree.Valid() && m.tree.n > 0 && m.BumpedRows() <= row < m.RowCount(Invalid)
    ensures 0 <= ListedBefore(m, row) <= ListedBefore(m, row + 1)
    ensures m.ListEntry(row) == Range(m, ListedBefore(m, row), ListedBefore(m, row + 1))
  {
    hide *;
    EntryUnfold(m, row);
    FolderFacts(m, row);
    FolderRange(m, row);
    ChildrenListed(m, row, m.RowCount(Index(row, 0, -1)));
  }

  lemma EntryUnfold(m: Menu, row: int)
    requires m.BumpedRows() <= row
    ensures m.ListEntry(row) == m.ListChildren(m.At(row, 0, Invalid), m.RowCount(m.At(row, 0, Invalid)))
  {
  }

  lemma {:induction false} FirstEntriesListed(m: Menu, rows: int)
    requires m.tree.Valid() && m.tree.n > 0 && 0 <= rows <= m.RowCount(Invalid)
    ensures 0 <= ListedBefore(m, rows) && m.List(rows) == Range(m, 0, ListedBefore(m, rows))
  {
    ListUnfold(m, rows);
    hide *;
    if rows > 0 {
      FirstEntriesListed(m, rows - 1);
      EntryListed(m, rows - 1);
      RangeConcat(m, 0, ListedBefore(m, rows - 1), ListedBefore(m, rows));
    }
  }

  lemma ListUnfold(m: Menu, rows: int)
    requires m.tree.Valid() && m.tree.n > 0 && 0 <= rows
    ensures rows == 0 ==> m.List(0) == [] == Range(m, 0, ListedBefore(m, 0)) && ListedBefore(m, 0) == 0
    ensures rows > 0 ==> m.List(rows) == m.List(rows - 1) + m.ListEntry(rows - 1)
  {
    DateFacts(m.tree, 0);
  }

  /** What the menu of a non-empty history lists: every filtered row, in order, but for a lost one. */
  lemma MenuLists(m: Menu)
    requires m.tree.Valid() && m.tree.n > 0
    ensures m.List(m.RowCount(Invalid)) == Range(m, 0, m.tree.n)
  {
    FirstEntriesListed(m, m.RowCount(Invalid));
    DateFacts(m.tree, 0);
    var rows := m.RowCount(Invalid);
    assert rows - m.FolderShift() == |m.tree.cache|;
  }

  /** The menu lists every filtered row exactly once, in order, if and only if what the memory behind
      the cache holds is no row that a folder lists below the last start. */
  lemma MenuListsEveryRow(m: Menu)
    requires m.tree.Valid() && m.tree.n > 0
    ensures var t := m.tree;
            m.List(m.RowCount(Invalid)) == Numbers(t.n) <==>
            !(m.BumpedRows() <= t.behind < t.n && t.cache[|t.cache| - 1] < t.behind)
  {
    MenuLists(m);
    RangeIsNumbers(m, m.tree.n);
    hide *;
    LostRow(m.tree, m.tree.behind);
    BumpedIsNat(m);
    forall r | m.BumpedRows() <= r < m.tree.n && 0 <= r
      ensures Lost(m.tree, r) ==> r == m.tree.behind
    {
      LostRow(m.tree, r);
    }
  }

  lemma LostRow(t: Tree, r: int)
    ensures t.cache != [] ==> (Lost(t, r) <==> t.cache[|t.cache| - 1] < r && r == t.behind)
    ensures t.Valid() && t.n > 0 ==> t.cache != []
  {
  }

  lemma BumpedIsNat(m: Menu)
    requires m.tree.Valid() && m.tree.n > 0
    ensures 0 < m.BumpedRows() <= m.tree.n && m.BumpedRows() <= MOVEDROWS
    ensures |m.tree.cache| == 1 ==> m.BumpedRows() == if m.tree.n <= MOVEDROWS then m.tree.n else MOVEDROWS
    ensures |m.tree.cache| > 1 ==> m.BumpedRows() <= m.tree.cache[|m.tree.cache| - 1]
  {
    DateFacts(m.tree, 0);
    if |m.tree.cache| > 1 {
      DateFacts(m.tree, 1);
      LaterDates(m.tree, |m.tree.cache| - 1);
    }
  }

  /** The menu over a tree with other memory behind its cache. */
  function With(m: Menu, behind: int): Menu {
    Menu(m.tree.(behind := behind))
  }

  /** Whatever the memory behind the cache holds, the menu lists every row, if and only if the last
      date has one row, or there is one date and all its rows are moved up. */
  lemma MenuCanBeReliedOn(m: Menu)
    requires m.tree.Valid() && m.tree.n > 0
    ensures (forall behind :: With(m, behind).List(With(m, behind).RowCount(Invalid)) == Numbers(m.tree.n)) <==>
            m.tree.cache[|m.tree.cache| - 1] == m.tree.n - 1 || (|m.tree.cache| == 1 && m.tree.n <= MOVEDROWS)
  {
    var last := m.tree.n - 1;
    BumpedIsNat(m);
    forall behind
      ensures With(m, behind).tree.Valid() && With(m, behind).BumpedRows() == m.BumpedRows()
      ensures With(m, behind).List(With(m, behind).RowCount(Invalid)) == Numbers(m.tree.n) <==>
              !(m.BumpedRows() <= behind < m.tree.n && m.tree.cache[|m.tree.cache| - 1] < behind)
    {
      SameBumped(m, behind);
      MenuListsEveryRow(With(m, behind));
    }
    hide *;
    var t := With(m, last);
    assert t.List(t.RowCount(Invalid)) == Numbers(m.tree.n) <==>
           !(m.BumpedRows() <= last < m.tree.n && m.tree.cache[|m.tree.cache| - 1] < last);
    StartsBelow(m.tree);
  }

  lemma SameBumped(m: Menu, behind: int)
    requires m.tree.Valid()
    ensures With(m, behind).tree.Valid() && With(m, behind).BumpedRows() == m.BumpedRows()
  {
  }

  lemma StartsBelow(t: Tree)
    requires t.Valid() && t.n > 0
    ensures t.cache != [] && 0 <= t.cache[|t.cache| - 1] < t.n && (|t.cache| == 1 ==> t.cache[0] == 0)
  {
  }

  /** With the end of the cache checked first, which is what a memory that holds no row comes to, the
      menu of every non-empty history lists every row. */
  lemma CheckedMenuListsEveryRow(m: Menu)
    requires m.tree.Valid() && m.tree.n > 0 && m.tree.behind < 0
    ensures m.List(m.RowCount(Invalid)) == Numbers(m.tree.n)
    ensures forall r :: 0 <= r < m.tree.n ==>
              HistoryTree.MapFromSource(m.tree.cache, r, m.tree.behind) == MapFromSourceChecked(m.tree.cache, r)
  {
    MenuListsEveryRow(m);
    BumpedIsNat(m);
  }

  /** The root has a sensible number of rows exactly when there is a history. */
  lemma EmptyHistoryMenu(m: Menu)
    requires m.tree.Valid() && m.tree.n >= 0
    ensures m.RowCount(Invalid) >= 0 <==> m.tree.n > 0
    ensures m.tree.n == 0 ==> m.RowCount(Invalid) == -1
  {
    if m.tree.n > 0 {
      DateFacts(m.tree, 0);
    }
  }

  /** The menu's root by position: the rows of the first date, but no more than fifteen, and then a folder
      for every date that has rows left. */
  lemma RootShape(m: Menu, row: int)
    requires m.tree.Valid() && m.tree.n > 0 && 0 <= row < m.RowCount(Invalid)
    ensures var first := if |m.tree.cache| > 1 then m.tree.cache[1] else m.tree.n;
            var bumped := if first <= 15 then first else 15;
            var gone := if first <= 15 then 1 else 0;
            var entry := m.At(row, 0, Invalid);
            && m.BumpedRows() == bumped && m.RowCount(Invalid) == bumped + |m.tree.cache| - gone
            && entry == Index(row, 0, -1)
            && (row < bumped ==> m.Shows(entry) == row)
            && (bumped <= row ==>
                m.Shows(entry) == -1 && m.MapToSource(entry) == m.tree.At(row - bumped + gone, 0, Invalid))
  {
    DateFacts(m.tree, 0);
    if m.BumpedRows() <= row {
      FolderFacts(m, row);
    }
  }

  /** The tree by depth, without its cache's names: the root has the dates, a date the rows from its
      own start to the next, and a row has nothing below it. Going up leads back. */
  lemma TreeShape(t: Tree, date: nat, row: nat, column: nat)
    requires t.Valid() && date < |t.cache| && column < 2
    requires row < (if date + 1 < |t.cache| then t.cache[date + 1] else t.n) - t.cache[date]
    ensures t.RowCount(Invalid) == |t.cache| && t.ColumnCount(Invalid) == 2
    ensures var next := if date + 1 < |t.cache| then t.cache[date + 1] else t.n;
            var at := t.At(date, 0, Invalid);
            && at.Index? && t.RowCount(at) == next - t.cache[date] && t.ColumnCount(at) == 2
            && t.MapToSource(at) == -1 && t.Parent(at) == Invalid && t.RowCount(t.At(date, 1, Invalid)) == 0
    ensures var at := t.At(date, 0, Invalid);
            var leaf := t.At(row, column, at);
            && leaf.Index? && t.MapToSource(leaf) == t.cache[date] + row && t.Parent(leaf) == at
            && t.RowCount(leaf) == 0 && t.ColumnCount(leaf) == 0 && t.At(0, 0, leaf) == Invalid
  {
    DateFacts(t, date);
    DateFacts(t, 0);
    LaterDates(t, date);
  }

  /** Nothing stands below a row of the menu, if and only if the row is not lost; below a lost row the
      menu counts every date once more. */
  lemma NothingBelow(m: Menu, row: int, k: int)
    requires m.tree.Valid() && m.tree.n > 0 && 0 <= row < m.RowCount(Invalid)
    ensures row < m.BumpedRows() ==> m.RowCount(m.At(row, 0, Invalid)) == 0
    ensures m.BumpedRows() <= row && 0 <= k < m.RowCount(Index(row, 0, -1)) ==>
              var child := m.At(k, 0, Index(row, 0, -1));
              && (m.RowCount(child) == 0 <==>
                  !(child.id == m.tree.behind && m.tree.cache[|m.tree.cache| - 1] < child.id))
              && (m.RowCount(child) != 0 ==> m.RowCount(child) == |m.tree.cache|)
  {
    hide DateRow, RowsOfDate, HistoryTree.MapFromSource;
    StartsBelow(m.tree);
    if m.BumpedRows() <= row && 0 <= k < m.RowCount(Index(row, 0, -1)) {
      ChildFacts(m, row, k, 0);
    }
  }

  /** Going down to a child and up again leads back, from the root always, from a folder if and only
      if the child is not lost. */
  lemma ParentOfChild(m: Menu, row: int, k: int, column: int)
    requires m.tree.Valid() && m.tree.n > 0 && 0 <= column < 2
    requires 0 <= row < m.RowCount(Invalid)
    ensures m.Parent(m.At(row, column, Invalid)) == Invalid
    ensures 0 <= k < m.RowCount(Index(row, 0, -1)) ==>
              var child := m.At(k, column, Index(row, 0, -1));
              && child.Index?
              && (m.Parent(child) == Index(row, 0, -1) <==>
                  !(child.id == m.tree.behind && m.tree.cache[|m.tree.cache| - 1] < child.id))
  {
    hide DateRow, RowsOfDate, HistoryTree.MapFromSource;
    if m.BumpedRows() <= row && 0 <= k < m.RowCount(Index(row, 0, -1)) {
      ChildFacts(m, row, k, column);
      ChildFacts(m, row, k, 0);
      ParentUnfold(m, m.At(k, column, Index(row, 0, -1)));
      StartsBelow(m.tree);
    }
  }

  lemma ParentUnfold(m: Menu, index: ModelIndex)
    requires index.Index? && index.id != -1
    ensures var place := m.tree.MapFromSource(index.id, 0);
            && (place.Index? && place.id > 0 ==> m.Parent(index) == Index(m.FolderShift() + place.id - 1, 0, -1))
            && (place.Invalid? ==> m.Parent(index) == Index(m.FolderShift() - 1, -1, -1))
  {
  }
}
