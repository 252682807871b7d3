/** The history tree: the filtered rows grouped by date. Only the row at which each date starts is
    cached; everything else is index arithmetic over that cache. */
module HistoryTree {

  datatype QDate = Null | Day(n: int)

  /** Rows of the history always carry a date. */
  ghost predicate AllDated(dates: seq<QDate>) {
    forall i :: 0 <= i < |dates| ==> dates[i] != Null
  }

  /** `cache` starts at 0, increases, and stays inside `n` rows. */
  ghost predicate Partitions(cache: seq<int>, n: int) {
    && (cache == [] <==> n == 0)
    && (cache != [] ==> cache[0] == 0 && cache[|cache| - 1] < n)
    && (forall j, k :: 0 <= j < k < |cache| ==> cache[j] < cache[k])
  }

  /** The row at which date `row` starts: `sourceDateRow`. */
  function DateRow(cache: seq<int>, n: int, row: int): int {
    if row <= 0 then 0 else if row >= |cache| then n else cache[row]
  }

  /** The number of rows of one date. */
  function RowsOfDate(cache: seq<int>, n: int, date: int): int {
    DateRow(cache, n, date + 1) - DateRow(cache, n, date)
  }

  /** Row `i` starts a maximal run of rows with the same date. */
  predicate IsStart(dates: seq<QDate>, i: int)
    requires 0 <= i < |dates|
  {
    i == 0 || dates[i] != dates[i - 1]
  }

  /** The rows from `from` on that start a date, in order. */
  function StartsFrom(dates: seq<QDate>, from: nat): seq<int> {
    var n := |dates| - 1;
    if n < from then [] else StartsFrom(dates[..n], from) + if IsStart(dates, n) then [n] else []
  }

  /** What a rebuild caches: every row that starts a date. */
  function Starts(dates: seq<QDate>): seq<int> {
    StartsFrom(dates, 0)
  }

  lemma {:induction false} StartsInOrder(dates: seq<QDate>, from: nat)
    ensures forall k :: 0 <= k < |StartsFrom(dates, from)| ==> from <= StartsFrom(dates, from)[k] < |dates|
    ensures forall j, k :: 0 <= j < k < |StartsFrom(dates, from)|
             ==> StartsFrom(dates, from)[j] < StartsFrom(dates, from)[k]
  {
    var n := |dates| - 1;
    if from <= n {
      StartsInOrder(dates[..n], from);
    }
  }

  lemma StartsLast(dates: seq<QDate>, from: nat)
    requires from < |dates|
    ensures var n := |dates| - 1;
            StartsFrom(dates, from) == StartsFrom(dates[..n], from) + if IsStart(dates, n) then [n] else []
  {
  }

  lemma NoStarts(dates: seq<QDate>, from: nat)
    requires |dates| <= from
    ensures StartsFrom(dates, from) == []
  {
  }

  lemma SomeStart(dates: seq<QDate>, from: nat)
    ensures StartsFrom(dates, from) != [] ==> from < |dates|
  {
  }

  lemma {:induction false} StartsSplit(dates: seq<QDate>, a: nat, b: nat)
    requires a <= b <= |dates|
    ensures StartsFrom(dates, a) == StartsFrom(dates[..b], a) + StartsFrom(dates, b)
  {
    if |dates| == b {
      assert dates[..b] == dates;
    } else {
      var n := |dates| - 1;
      StartsSplit(dates[..n], a, b);
      assert dates[..n][..b] == dates[..b];
    }
  }

  /** The first row of a suffix taken off. */
  lemma StartsStep(dates: seq<QDate>, a: nat)
    requires a < |dates|
    ensures StartsFrom(dates, a) == (if IsStart(dates, a) then [a] else []) + StartsFrom(dates, a + 1)
  {
    StartsSplit(dates, a, a + 1);
    assert dates[..a + 1][..a] == dates[..a];
    assert StartsFrom(dates[..a], a) == [];
  }

  /** A row is cached exactly when its date differs from the row above, so the cached rows cut the
      list into maximal runs of one date. */
  lemma {:induction false} CachedRowsAreStarts(dates: seq<QDate>, from: nat, i: nat)
    requires from <= i < |dates|
    ensures i in StartsFrom(dates, from) <==> IsStart(dates, i)
  {
    StartsSplit(dates, from, i);
    StartsStep(dates, i);
    StartsInOrder(dates[..i], from);
    StartsInOrder(dates, i + 1);
    hide StartsFrom;
    assert i !in StartsFrom(dates[..i], from) && i !in StartsFrom(dates, i + 1);
  }

  /** What is cached, in terms of the dates: row 0 and every row with another date than the one above. */
  lemma CachedRows(dates: seq<QDate>)
    ensures forall i :: 0 <= i < |dates| ==> (i in Starts(dates) <==> i == 0 || dates[i] != dates[i - 1])
  {
    hide StartsFrom;
    forall i | 0 <= i < |dates| ensures i in Starts(dates) <==> i == 0 || dates[i] != dates[i - 1] {
      CachedRowsAreStarts(dates, 0, i);
    }
  }

  /** The cache is a partition of the rows. */
  lemma StartsPartition(dates: seq<QDate>)
    ensures Partitions(Starts(dates), |dates|)
  {
    StartsInOrder(dates, 0);
    if dates != [] {
      StartsStep(dates, 0);
    }
  }

  /** All rows of a date carry the same date, and the row above its first one carries another. */
  lemma {:induction false} OneDatePerGroup(dates: seq<QDate>, k: nat, i: int)
    requires k < |Starts(dates)| && Starts(dates)[k] <= i < DateRow(Starts(dates), |dates|, k + 1)
    ensures 0 <= Starts(dates)[k] <= i < |dates| && dates[i] == dates[Starts(dates)[k]]
    ensures k == 0 <==> Starts(dates)[k] == 0
    ensures k > 0 ==> dates[Starts(dates)[k] - 1] != dates[Starts(dates)[k]]
    decreases i
  {
    StartsPartition(dates);
    var cache := Starts(dates);
    if i > cache[k] {
      CachedRowsAreStarts(dates, 0, i);
      forall j | 0 <= j < |cache| ensures cache[j] != i {
        if j > k { assert j == k + 1 || cache[k + 1] < cache[j]; }
      }
      OneDatePerGroup(dates, k, i - 1);
    } else {
      CachedRowsAreStarts(dates, 0, i);
    }
  }

  /** The first entry that is not less than `x`: `qLowerBound` on a sorted list. */
  function LowerBound(cache: seq<int>, x: int): (k: nat)
    ensures k <= |cache|
  {
    if cache == [] || cache[0] >= x then 0 else LowerBound(cache[1..], x) + 1
  }

  lemma {:induction false} LowerBoundAt(above: seq<int>, below: seq<int>, x: int)
    requires forall k :: 0 <= k < |above| ==> above[k] < x
    requires below != [] ==> below[0] >= x
    ensures LowerBound(above + below, x) == |above|
  {
    if above != [] {
      LowerBoundAt(above[1..], below, x);
      assert (above + below)[1..] == above[1..] + below;
    } else {
      assert above + below == below;
    }
  }

  lemma {:induction false} LowerBoundSplits(cache: seq<int>, x: int)
    ensures var k := LowerBound(cache, x);
            && (forall j :: 0 <= j < k ==> cache[j] < x)
            && (k < |cache| ==> cache[k] >= x)
  {
    if cache != [] && cache[0] < x {
      LowerBoundSplits(cache[1..], x);
      forall j | 0 <= j < LowerBound(cache, x) ensures cache[j] < x {
        assert j > 0 ==> cache[j] == cache[1..][j - 1];
      }
    }
  }

  // ---- Mapping rows to (date, row) and back ------------------------------------------------------

  datatype TreeIndex = OutsideList | Item(date: int, row: int)

  /** The right place of source row `r`. */
  ghost predicate PlaceOf(cache: seq<int>, n: int, r: int, place: TreeIndex) {
    && place.Item? && 0 <= place.date < |cache|
    && 0 <= place.row < RowsOfDate(cache, n, place.date)
    && MapToSource(cache, n, place.date, place.row) == r
  }

  function MapToSource(cache: seq<int>, n: int, date: int, row: int): int {
    DateRow(cache, n, date) + row
  }

  /** `mapFromSource` as it is written: the entry behind the last one is read like any other. What
      the memory there holds is the parameter `behind`. */
  function MapFromSource(cache: seq<int>, r: int, behind: int): TreeIndex {
    var it := LowerBound(cache, r);
    var found := if it < |cache| then cache[it] else behind;
    var date := if found != r then (if it == 0 then 0 else it - 1) else it;
    if date < |cache| then Item(date, r - cache[date]) else OutsideList
  }

  /** The same with the end of the list checked first. */
  function MapFromSourceChecked(cache: seq<int>, r: int): TreeIndex {
    MapFromSource(cache, r, r - 1)
  }

  /** A row below the last start that is what the memory behind the cache holds. */
  predicate IsLost(cache: seq<int>, r: int, behind: int) {
    cache != [] && cache[|cache| - 1] < r == behind
  }

  /** Every other row finds its place; with the check, every row does. */
  lemma MapFromSourceIsPlace(cache: seq<int>, n: int, r: int, behind: int)
    requires Partitions(cache, n) && 0 <= r < n
    ensures PlaceOf(cache, n, r, MapFromSource(cache, r, behind)) <==> !IsLost(cache, r, behind)
    ensures MapFromSource(cache, r, behind) ==
            if IsLost(cache, r, behind) then OutsideList else MapFromSourceChecked(cache, r)
    ensures PlaceOf(cache, n, r, MapFromSourceChecked(cache, r))
  {
    LowerBoundSplits(cache, r);
  }

  /** A place in terms of the cache: as many rows below the start of its date as its row says, and
      above the next start. */
  lemma PlaceMeans(cache: seq<int>, n: int, r: int, date: nat, row: nat)
    requires Partitions(cache, n) && date < |cache|
    ensures MapToSource(cache, n, date, row) == cache[date] + row
    ensures PlaceOf(cache, n, r, Item(date, row)) <==>
            r == cache[date] + row && r < if date + 1 < |cache| then cache[date + 1] else n
    ensures !PlaceOf(cache, n, r, OutsideList)
  {
  }

  /** Each row has one place only, so the two mappings undo each other. */
  lemma PlaceIsUnique(cache: seq<int>, n: int, r: int, p: TreeIndex, q: TreeIndex)
    requires Partitions(cache, n) && PlaceOf(cache, n, r, p) && PlaceOf(cache, n, r, q)
    ensures p == q
  {
  }

  /** Both directions of the mapping between the list and the tree: they undo each other exactly for
      the rows that are not lost. */
  lemma MappingsAreInverse(cache: seq<int>, n: int, behind: int)
    requires Partitions(cache, n)
    ensures forall r :: 0 <= r < n ==>
              var p := MapFromSource(cache, r, behind);
              (p.Item? && MapToSource(cache, n, p.date, p.row) == r <==> !IsLost(cache, r, behind))
    ensures forall date, row :: 0 <= date < |cache| && 0 <= row < RowsOfDate(cache, n, date) ==>
              var r := MapToSource(cache, n, date, row);
              0 <= r < n && (MapFromSource(cache, r, behind) == Item(date, row) <==> !IsLost(cache, r, behind))
  {
    hide LowerBound, IsLost;
    forall r | 0 <= r < n
      ensures var p := MapFromSource(cache, r, behind);
              (p.Item? && MapToSource(cache, n, p.date, p.row) == r <==> !IsLost(cache, r, behind))
    {
      MapFromSourceIsPlace(cache, n, r, behind);
    }
    forall date, row | 0 <= date < |cache| && 0 <= row < RowsOfDate(cache, n, date)
      ensures var r := MapToSource(cache, n, date, row);
              0 <= r < n && (MapFromSource(cache, r, behind) == Item(date, row) <==> !IsLost(cache, r, behind))
    {
      var r := MapToSource(cache, n, date, row);
      assert 0 <= r < n;
      MapFromSourceIsPlace(cache, n, r, behind);
      PlaceIsUnique(cache, n, r, Item(date, row), MapFromSourceChecked(cache, r));
    }
  }

  /** As written, the mapping can be relied on exactly up to the start of the last date. */
  lemma UncheckedMapping(cache: seq<int>, n: int, r: int)
    requires Partitions(cache, n) && 0 <= r < n
    ensures (forall behind :: PlaceOf(cache, n, r, MapFromSource(cache, r, behind))) <==> r <= cache[|cache| - 1]
  {
    forall behind
      ensures PlaceOf(cache, n, r, MapFromSource(cache, r, behind)) <==> !IsLost(cache, r, behind)
    {
      MapFromSourceIsPlace(cache, n, r, behind);
    }
    assert IsLost(cache, r, r) <==> cache[|cache| - 1] < r;
  }

  function SumOfSizes(cache: seq<int>, n: int, dates: nat): int {
    if dates == 0 then 0 else SumOfSizes(cache, n, dates - 1) + RowsOfDate(cache, n, dates - 1)
  }

  /** The dates' row counts add up to the rows of the list, and no date is empty. */
  lemma {:induction false} SizesSum(cache: seq<int>, n: int, dates: nat)
    requires Partitions(cache, n) && dates <= |cache|
    ensures SumOfSizes(cache, n, dates) == DateRow(cache, n, dates)
    ensures dates == |cache| ==> SumOfSizes(cache, n, dates) == n
    ensures forall k :: 0 <= k < dates ==> RowsOfDate(cache, n, k) > 0
  {
    if dates > 0 {
      SizesSum(cache, n, dates - 1);
    }
  }

  // ---- Keeping the cache when rows come and go ---------------------------------------------------

  /** Every entry `d` rows further down. */
  function Offset(cache: seq<int>, d: int): seq<int> {
    if cache == [] then [] else Offset(cache[..|cache| - 1], d) + [cache[|cache| - 1] + d]
  }

  lemma {:induction false} OffsetAt(cache: seq<int>, d: int)
    ensures |Offset(cache, d)| == |cache|
    ensures forall k :: 0 <= k < |cache| ==> Offset(cache, d)[k] == cache[k] + d
  {
    if cache != [] {
      OffsetAt(cache[..|cache| - 1], d);
    }
  }

  lemma OffsetConcat(a: seq<int>, b: seq<int>, d: int)
    ensures Offset(a + b, d) == Offset(a, d) + Offset(b, d)
    ensures |b| == 1 ==> Offset(b, d) == [b[0] + d]
  {
    OffsetAt(a, d);
    OffsetAt(b, d);
    OffsetAt(a + b, d);
  }

  /** Rows that lie `d` further down, with the same rows above them, start the same dates there. */
  lemma {:induction false} StartsMoved(dates: seq<QDate>, moved: seq<QDate>, m: nat, d: int)
    requires |moved| == |dates| + d && m >= 1 && m + d >= 1 && m <= |dates|
    requires forall j :: m - 1 <= j < |dates| ==> 0 <= j + d < |moved| && moved[j + d] == dates[j]
    ensures StartsFrom(moved, m + d) == Offset(StartsFrom(dates, m), d)
  {
    hide StartsFrom, Offset, IsStart;
    OffsetNothing(d);
    if m < |dates| {
      var n := |dates| - 1;
      StartsMoved(dates[..n], moved[..n + d], m, d);
      StartsLast(dates, m);
      StartsLast(moved, m + d);
      SameStart(dates, n, moved, n + d);
      OffsetConcat(StartsFrom(dates[..n], m), if IsStart(dates, n) then [n] else [], d);
    } else {
      NoStarts(dates, m);
      NoStarts(moved, m + d);
    }
  }

  lemma SameStart(a: seq<QDate>, i: int, b: seq<QDate>, j: int)
    requires 0 < i < |a| && 0 < j < |b| && a[i] == b[j] && a[i - 1] == b[j - 1]
    ensures IsStart(a, i) == IsStart(b, j)
  {
  }

  lemma OffsetNothing(d: int)
    ensures Offset([], d) == []
  {
  }

  /** The groups after a prepend: a new date in front, or one more row for the first date. */
  lemma StartsAfterPrepend(dates: seq<QDate>)
    requires dates != []
    ensures |dates| == 1 || dates[0] != dates[1] ==> Starts(dates) == [0] + Offset(Starts(dates[1..]), 1)
    ensures |dates| > 1 && dates[0] == dates[1] ==>
              Starts(dates[1..]) != [] && Starts(dates) == [0] + Offset(Starts(dates[1..])[1..], 1)
  {
    StartsStep(dates, 0);
    OffsetNothing(1);
    if |dates| > 1 {
      StartsStep(dates, 1);
      StartsStep(dates[1..], 0);
      StartsMoved(dates[1..], dates, 1, 1);
      hide StartsFrom, Offset;
      OffsetConcat([0], StartsFrom(dates[1..], 1), 1);
    } else {
      assert StartsFrom(dates, 1) == [] == Starts(dates[1..]);
    }
  }

  function WithoutRow(dates: seq<QDate>, i: int): seq<QDate>
    requires 0 <= i < |dates|
  {
    dates[..i] + dates[i + 1..]
  }

  /** The rows above stay, those below move up by one. */
  lemma WithoutRowAt(dates: seq<QDate>, i: nat)
    requires i < |dates|
    ensures |WithoutRow(dates, i)| == |dates| - 1
    ensures forall k :: 0 <= k < |dates| - 1 ==> WithoutRow(dates, i)[k] == dates[if k < i then k else k + 1]
  {
  }

  /** The rows around `i` carry one date that `i` itself does not. */
  predicate Merges(dates: seq<QDate>, i: int) {
    0 < i < |dates| - 1 && dates[i - 1] == dates[i + 1] != dates[i]
  }

  /** The groups without row `i`: the rows above keep theirs, those from `i + 2` on move up, and the
      row that takes the place of `i` starts a date if it differs from the one above. */
  lemma StartsAfterRemove(dates: seq<QDate>, i: nat)
    requires i < |dates|
    ensures Starts(dates) == Starts(dates[..i]) + StartsFrom(dates, i)
    ensures StartsFrom(dates, i) == (if IsStart(dates, i) then [i] else []) + StartsFrom(dates, i + 1)
    ensures i + 1 == |dates| ==> Starts(WithoutRow(dates, i)) == Starts(dates[..i]) && StartsFrom(dates, i + 1) == []
    ensures i + 1 < |dates| ==>
              var next := StartsFrom(dates, i + 2);
              && StartsFrom(dates, i + 1) == (if IsStart(dates, i + 1) then [i + 1] else []) + next
              && Starts(WithoutRow(dates, i)) ==
                 Starts(dates[..i]) + (if i == 0 || dates[i + 1] != dates[i - 1] then [i] else []) + Offset(next, -1)
  {
    hide StartsFrom, Offset;
    var d := WithoutRow(dates, i);
    assert d[..i] == dates[..i];
    StartsSplit(dates, 0, i);
    StartsStep(dates, i);
    if i + 1 < |dates| {
      StartsStep(dates, i + 1);
      RowTakesPlace(dates, i);
    } else {
      NoStarts(dates, i + 1);
      assert d == dates[..i];
    }
  }

  lemma RowTakesPlace(dates: seq<QDate>, i: nat)
    requires i + 1 < |dates|
    ensures Starts(WithoutRow(dates, i)) ==
            Starts(dates[..i]) + (if i == 0 || dates[i + 1] != dates[i - 1] then [i] else [])
                + Offset(StartsFrom(dates, i + 2), -1)
  {
    hide StartsFrom, Offset;
    var d := WithoutRow(dates, i);
    assert d[..i] == dates[..i];
    StartsSplit(d, 0, i);
    StartsStep(d, i);
    StartsMoved(dates, d, i + 2, -1);
  }

  /** The entries from `from` on moved up by one row. */
  function MoveUp(cache: seq<int>, from: nat): seq<int>
    requires from <= |cache|
  {
    cache[..from] + Offset(cache[from..], -1)
  }

  /** One round of `sourceRowsRemoved` for row `i`, with `total` rows still reported: the cache
      after it, and the row the next round is for. */
  function Round(cache: seq<int>, total: int, start: int, i: int): (r: (seq<int>, int))
    requires LowerBound(cache, i) < |cache|
  {
    var it := LowerBound(cache, i);
    var row := if cache[it] != i && it > 0 then it - 1 else it;
    var offset := cache[row];
    var rc := RowsOfDate(cache, total, row);
    if i - rc + 1 == offset && start <= i - rc + 1 then
      (MoveUp(cache[..row] + cache[row + 1..], row), i - (rc + 1))
    else
      (MoveUp(cache, row + 1), i - 1)
  }

  /** As long as there is another round, the cache stays a partition of the rows still reported: the
      dates keep a positive number of rows, so that each round goes on further up. */
  lemma RoundKeepsPartition(cache: seq<int>, total: int, start: int, i: int)
    requires Partitions(cache, total) && 0 <= start <= i && LowerBound(cache, i) < |cache|
    ensures var next := Round(cache, total, start, i);
            next.1 < i && (start <= next.1 ==> Partitions(next.0, total))
  {
    hide LowerBound, Offset, Round;
    var above, g, below := CutCache(cache, total, i);
    RoundAt(above, g, below, total, start, i);
    if (if below == [] then total else below[0]) == i + 1 && start <= g {
      if start <= g - 2 {
        WithoutMiddle(above, g, below, total);
        MovedPartition(above, below, total);
      }
    } else {
      MovedPartition(above + [g], below, total);
    }
  }

  /** The cache cut at the date of row `i`. */
  lemma CutCache(cache: seq<int>, total: int, i: int) returns (above: seq<int>, g: int, below: seq<int>)
    requires Partitions(cache, total) && 0 <= i && LowerBound(cache, i) < |cache|
    ensures cache == above + [g] + below && g <= i && (if below == [] then i == g else i < below[0])
    ensures (forall k :: 0 <= k < |above| ==> above[k] < g) && (above == [] <==> g == 0)
  {
    LowerBoundSplits(cache, i);
    hide LowerBound;
    var it := LowerBound(cache, i);
    var row := if cache[it] != i && it > 0 then it - 1 else it;
    above, g, below := cache[..row], cache[row], cache[row + 1..];
  }

  lemma WithoutMiddle(above: seq<int>, g: int, below: seq<int>, total: int)
    requires Partitions(above + [g] + below, total) && above != []
    ensures Partitions(above + below, total)
    ensures above[|above| - 1] < g && (below != [] ==> g < below[0])
  {
    var c, d := above + [g] + below, above + below;
    assert forall k :: 0 <= k < |d| ==> d[k] == c[if k < |above| then k else k + 1];
    assert c[|above| - 1] < c[|above|];
    assert below != [] ==> c[|above|] < c[|above| + 1];
  }

  /** Later entries moved up by one row that were not the next row. */
  lemma MovedPartition(above: seq<int>, below: seq<int>, total: int)
    requires Partitions(above + below, total) && above != []
    requires below != [] ==> above[|above| - 1] + 1 < below[0]
    ensures Partitions(above + Offset(below, -1), total)
  {
    hide Offset;
    OffsetAt(below, -1);
    var d := above + Offset(below, -1);
    forall j, k | 0 <= j < k < |d|
      ensures d[j] < d[k]
    {
      MovedPair(above, below, total, j, k);
    }
    MovedEnds(above, below, total);
  }

  lemma MovedPair(above: seq<int>, below: seq<int>, total: int, j: nat, k: nat)
    requires Partitions(above + below, total) && above != [] && j < k < |above + below|
    requires below != [] ==> above[|above| - 1] + 1 < below[0]
    requires |Offset(below, -1)| == |below| && forall m :: 0 <= m < |below| ==> Offset(below, -1)[m] == below[m] - 1
    ensures (above + Offset(below, -1))[j] < (above + Offset(below, -1))[k]
  {
    hide Offset;
    var c, n := above + below, |above|;
    assert c[j] < c[k];
    if j < n <= k {
      assert c[j] <= c[n - 1] == above[n - 1] && below[0] == c[n] <= c[k] == below[k - n];
    }
  }

  lemma MovedEnds(above: seq<int>, below: seq<int>, total: int)
    requires Partitions(above + below, total) && above != []
    ensures var d := above + Offset(below, -1); d[0] == 0 && d[|d| - 1] < total
  {
    OffsetAt(below, -1);
    assert (above + below)[0] == above[0];
  }

  /** `sourceRowsRemoved` from row `i` down to row `start`. */
  function Removed(cache: seq<int>, total: int, start: int, i: int): seq<int>
    requires Partitions(cache, total) && 0 <= start
    decreases i - start
  {
    if i < start then cache
    else if LowerBound(cache, i) == |cache| then []
    else
      var next := Round(cache, total, start, i);
      RoundKeepsPartition(cache, total, start, i);
      if next.1 < start then next.0 else Removed(next.0, total, start, next.1)
  }

  lemma MoveUpAt(above: seq<int>, below: seq<int>)
    ensures MoveUp(above + below, |above|) == above + Offset(below, -1)
  {
    assert (above + below)[..|above|] == above && (above + below)[|above|..] == below;
  }

  /** One round in a cache cut at the date of row `i`. */
  lemma RoundAt(above: seq<int>, g: int, below: seq<int>, total: int, start: int, i: int)
    requires (forall k :: 0 <= k < |above| ==> above[k] < g) && g <= i
    requires if below == [] then i == g else i < below[0]
    requires above == [] ==> g == 0
    ensures LowerBound(above + [g] + below, i) < |above + [g] + below|
    ensures var end := if below == [] then total else below[0];
            Round(above + [g] + below, total, start, i) ==
            if i + 1 == end && start <= g then (above + Offset(below, -1), g - 2)
            else (above + [g] + Offset(below, -1), i - 1)
  {
    hide LowerBound, MoveUp, Offset;
    var cache := above + [g] + below;
    if i == g {
      assert cache == above + ([g] + below);
      LowerBoundAt(above, [g] + below, i);
    } else {
      LowerBoundAt(above + [g], below, i);
    }
    assert cache[..|above|] + cache[|above| + 1..] == above + below;
    MoveUpAt(above, below);
    MoveUpAt(above + [g], below);
    assert RowsOfDate(cache, total, |above|) == (if below == [] then total else below[0]) - g;
  }

  /** The cache of `dates`, cut at the date of row `i`, unless that is the last date and begun above. */
  lemma CutAt(dates: seq<QDate>, i: nat) returns (above: seq<int>, g: int, below: seq<int>)
    requires i < |dates| && (IsStart(dates, i) || StartsFrom(dates, i + 1) != [])
    ensures Starts(dates) == above + [g] + below && below == StartsFrom(dates, i + 1)
    ensures IsStart(dates, i) ==> g == i && above == Starts(dates[..i])
    ensures !IsStart(dates, i) ==> above + [g] == Starts(dates[..i])
    ensures 0 <= g <= i && IsStart(dates, g) && (forall k :: 0 <= k < |above| ==> above[k] < g)
    ensures (below != [] ==> i < below[0]) && (above == [] <==> g == 0)
  {
    hide StartsFrom;
    StartsAfterRemove(dates, i);
    RowsAbove(dates, i);
    StartsInOrder(dates, i + 1);
    StartsInOrder(dates[..i], 0);
    below := StartsFrom(dates, i + 1);
    var front := Starts(dates[..i]);
    if IsStart(dates, i) {
      above, g := front, i;
      assert front + ([i] + below) == front + [i] + below;
    } else {
      var n := |front| - 1;
      above, g := front[..n], front[n];
      assert front == above + [g];
      assert front + ([] + below) == above + [g] + below;
      CachedRowsAreStarts(dates[..i], 0, g);
      FirstIsZero(dates[..i]);
    }
  }

  lemma FirstIsZero(dates: seq<QDate>)
    requires dates != []
    ensures Starts(dates) != [] && Starts(dates)[0] == 0
  {
    StartsPartition(dates);
  }

  /** Row `i` is the last of its date. */
  predicate EndsDate(dates: seq<QDate>, i: int)
    requires 0 <= i < |dates|
  {
    i + 1 == |dates| || dates[i + 1] != dates[i]
  }

  /** A date that begins at row `start` or below ends with row `e`. */
  ghost predicate EndsWhole(dates: seq<QDate>, start: int, e: int)
    requires 0 <= start && 0 <= e < |dates|
  {
    EndsDate(dates, e) && exists s :: start <= s <= e && IsStart(dates, s)
  }

  /** A date that begins and ends with row `i` is whole. */
  lemma OneRowIsWhole(d: seq<QDate>, start: nat, i: nat)
    requires start <= i < |d|
    ensures IsStart(d, i) && EndsDate(d, i) ==> EndsWhole(d, start, i)
  {
  }

  /** A round for a row whose date keeps other rows, or begins above the removed ones, does what the
      removal of that one row does to a rebuild. */
  lemma KeptRound(d: seq<QDate>, total: int, start: nat, i: nat)
    requires start <= i < |d| <= total && (total == |d| || StartsFrom(d, i + 1) != [])
    requires !EndsWhole(d, start, i) && (IsStart(d, i) || StartsFrom(d, i + 1) != [])
    ensures LowerBound(Starts(d), i) < |Starts(d)|
    ensures Round(Starts(d), total, start, i) == (Starts(WithoutRow(d, i)), i - 1)
    ensures StartsFrom(WithoutRow(d, i), i) != [] && i + 1 < |d|
  {
    hide StartsFrom, Round, LowerBound, Offset;
    OneRowIsWhole(d, start, i);
    NoStarts(d, |d|);
    var above, g, below := CutAt(d, i);
    RoundAt(above, g, below, total, start, i);
    StartsAfterRemove(d, i);
    BelowMovedUp(d, i);
    var w := WithoutRow(d, i);
    assert w[..i] == d[..i];
    StartsSplit(w, 0, i);
    var next := Offset(StartsFrom(d, i + 2), -1);
    assert below != [] ==> (below[0] == i + 1 <==> IsStart(d, i + 1));
    if IsStart(d, i) {
      assert Starts(d[..i]) + [i] + next == above + [g] + Offset(below, -1) by { assert [] + next == next; }
      assert StartsFrom(w, i) == [i] + next by { SameTail(Starts(d[..i]), StartsFrom(w, i), [i] + next); }
    } else {
      var x := (if IsStart(d, i + 1) then [i] else []) + next;
      OffsetAt(below, -1);
      assert Starts(d[..i]) + (if IsStart(d, i + 1) then [i] else []) + next == Starts(d[..i]) + x;
      assert StartsFrom(w, i) == x by { SameTail(Starts(d[..i]), StartsFrom(w, i), x); }
    }
  }

  lemma SameTail(a: seq<int>, b: seq<int>, c: seq<int>)
    requires a + b == a + c
    ensures b == c
  {
    assert b == (a + b)[|a|..] && c == (a + c)[|a|..];
  }

  /** The last date, begun above row `i`: the cache is dropped. */
  lemma DroppedAt(d: seq<QDate>, i: nat)
    requires i < |d|
    ensures StartsFrom(d, i) == [] <==> LowerBound(Starts(d), i) == |Starts(d)|
    ensures StartsFrom(d, i) == [] <==> !IsStart(d, i) && StartsFrom(d, i + 1) == []
  {
    hide LowerBound, StartsFrom;
    StartsSplit(d, 0, i);
    StartsStep(d, i);
    RowsAbove(d, i);
    StartsInOrder(d, i);
    LowerBoundAt(Starts(d[..i]), StartsFrom(d, i), i);
  }

  /** Removing one row in place, while the old total is still reported: the cache is dropped or is
      what a rebuild finds, exactly unless the rows around it carry one date that it does not. */
  lemma RemovedOneRow(dates: seq<QDate>, i: nat)
    requires i < |dates|
    ensures Partitions(Starts(dates), |dates|)
    ensures var c := Removed(Starts(dates), |dates|, i, i);
            c == [] || c == Starts(WithoutRow(dates, i)) <==> !Merges(dates, i)
  {
    hide StartsFrom, Round, Offset, LowerBound;
    StartsPartition(dates);
    DroppedAt(dates, i);
    if StartsFrom(dates, i) != [] {
      var above, g, below := CutAt(dates, i);
      RoundAt(above, g, below, |dates|, i, i);
      StartsAfterRemove(dates, i);
      BelowMovedUp(dates, i);
      var front, next := Starts(dates[..i]), if i + 1 < |dates| then Offset(StartsFrom(dates, i + 2), -1) else [];
      CompareLists(front, i, next);
    } else {
      NoStartBelow(dates, i);
    }
  }

  lemma NoStartBelow(dates: seq<QDate>, i: nat)
    requires i < |dates| && StartsFrom(dates, i) == []
    ensures !Merges(dates, i)
  {
    if Merges(dates, i) {
      CachedRowsAreStarts(dates, i, i + 1);
    }
  }

  lemma RowsAbove(dates: seq<QDate>, i: nat)
    requires i < |dates|
    ensures forall k :: 0 <= k < |Starts(dates[..i])| ==> 0 <= Starts(dates[..i])[k] < i
    ensures Starts(dates[..i]) == [] <==> i == 0
  {
    StartsInOrder(dates[..i], 0);
    if i > 0 {
      StartsStep(dates[..i], 0);
    }
  }

  lemma CompareLists(a: seq<int>, i: int, b: seq<int>)
    ensures a + [] == a && [] + b == b && a + ([] + b) == a + b
    ensures a + [i] + b == a + ([i] + b)
    ensures a + [i] + b != a + b && a + [i] + b != []
  {
    assert |a + [i] + b| == |a + b| + 1;
  }

  /** What is below row `i`, moved up, in the two ways the next row can start a date. */
  lemma BelowMovedUp(dates: seq<QDate>, i: nat)
    requires i < |dates|
    ensures i + 1 == |dates| ==> Offset(StartsFrom(dates, i + 1), -1) == [] == StartsFrom(dates, i + 1)
    ensures i + 1 < |dates| ==>
              var below, next := StartsFrom(dates, i + 1), StartsFrom(dates, i + 2);
              && Offset(below, -1) == (if IsStart(dates, i + 1) then [i] else []) + Offset(next, -1)
              && (below != [] ==> (below[0] == i + 1 <==> IsStart(dates, i + 1)))
  {
    hide Offset, StartsFrom;
    OffsetNothing(-1);
    if i + 1 == |dates| {
      NoStarts(dates, i + 1);
    } else {
      StartsStep(dates, i + 1);
      StartsInOrder(dates, i + 2);
      OffsetConcat([i + 1], StartsFrom(dates, i + 2), -1);
      OffsetConcat([], [i + 1], -1);
      assert [] + StartsFrom(dates, i + 2) == StartsFrom(dates, i + 2);
      assert [] + Offset(StartsFrom(dates, i + 2), -1) == Offset(StartsFrom(dates, i + 2), -1);
    }
  }

  /** The list without rows `from` to `to`. */
  function WithoutRows(dates: seq<QDate>, from: int, to: int): seq<QDate>
    requires 0 <= from <= to + 1 && to < |dates|
  {
    dates[..from] + dates[to + 1..]
  }

  /** The rows above stay, those below move up by as many as were removed. */
  lemma WithoutRowsAt(dates: seq<QDate>, from: int, to: int)
    requires 0 <= from <= to + 1 && to < |dates|
    ensures var d := WithoutRows(dates, from, to);
            && |d| == |dates| - (to - from + 1)
            && forall k :: 0 <= k < |d| ==> d[k] == dates[if k < from then k else k + (to - from + 1)]
  {
  }

  /** The dates that end in the list without row `i`, above it. */
  lemma EndsAbove(d: seq<QDate>, start: nat, i: nat, e: nat)
    requires start <= i < |d| && e < i
    ensures EndsWhole(WithoutRow(d, i), start, e) ==> EndsWhole(d, start, i) || EndsWhole(d, start, e)
  {
    var w := WithoutRow(d, i);
    assert forall s :: 0 <= s <= e ==> IsStart(w, s) == IsStart(d, s);
    if EndsWhole(w, start, e) {
      var s :| start <= s <= e && IsStart(w, s);
      assert IsStart(d, s) && start <= s <= i;
    }
  }

  /** Rounds from row `i` up to row `stop` that never take away a whole date. */
  lemma {:induction false} KeptRounds(d: seq<QDate>, total: int, start: nat, stop: nat, i: nat)
    requires start <= stop <= i < |d| <= total && (total == |d| || StartsFrom(d, i + 1) != [])
    requires forall e :: stop <= e <= i ==> !EndsWhole(d, start, e)
    requires StartsFrom(d, i) != []
    ensures Partitions(Starts(d), total) && Partitions(Starts(WithoutRows(d, stop, i)), total)
    ensures Removed(Starts(d), total, start, i) == Removed(Starts(WithoutRows(d, stop, i)), total, start, stop - 1)
    ensures StartsFrom(WithoutRows(d, stop, i), stop) != []
    decreases i
  {
    hide StartsFrom, Round, LowerBound, EndsWhole, Partitions;
    DroppedAt(d, i);
    KeptRound(d, total, start, i);
    var w := WithoutRow(d, i);
    StartsInTotal(d, total);
    StartsInTotal(w, total);
    if stop == i {
      assert WithoutRows(d, stop, i) == w;
    } else {
      forall e | stop <= e <= i - 1
        ensures !EndsWhole(w, start, e)
      {
        EndsAbove(d, start, i, e);
      }
      DroppedAt(w, i - 1);
      KeptRounds(w, total, start, stop, i - 1);
      assert WithoutRows(w, stop, i - 1) == WithoutRows(d, stop, i);
    }
  }

  /** Date order, newest first. */
  ghost predicate InDateOrder(dates: seq<QDate>) {
    AllDated(dates) && forall j, k :: 0 <= j < k < |dates| ==> dates[j].n >= dates[k].n
  }

  /** Rounds only move the last entry up, a row at a time, while it is below the rows they are for. */
  lemma {:induction false} RoundsMoveLast(cache: seq<int>, total: int, start: int, i: int)
    requires Partitions(cache, total) && 0 <= start && cache != [] && i < cache[|cache| - 1]
    ensures var c := Removed(cache, total, start, i);
            c != [] && cache[|cache| - 1] - Rows(start, i) <= c[|c| - 1] <= cache[|cache| - 1]
    decreases i - start
  {
    hide LowerBound, Offset, Round, Partitions;
    if start <= i {
      LastIsBelow(cache, i);
      var above, g, below := CutCache(cache, total, i);
      RoundAt(above, g, below, total, start, i);
      RoundKeepsPartition(cache, total, start, i);
      OffsetAt(below, -1);
      var next := Round(cache, total, start, i);
      if start <= next.1 {
        RoundsMoveLast(next.0, total, start, next.1);
      }
    }
  }

  lemma LastIsBelow(cache: seq<int>, i: int)
    requires cache != [] && i < cache[|cache| - 1]
    ensures LowerBound(cache, i) < |cache|
  {
    LowerBoundSplits(cache, i);
  }

  /** How many rows there are from `start` to `i`. */
  function Rows(start: int, i: int): int {
    if start <= i then i - start + 1 else 0
  }

  /** No date lies wholly in rows `start` to `end`. */
  ghost predicate NoWholeDate(dates: seq<QDate>, start: int, end: int)
    requires 0 <= start && end < |dates|
  {
    forall e :: start <= e <= end ==> !EndsWhole(dates, start, e)
  }

  /** Which removals of several rows the slot gets right: no whole date goes; or the last date loses
      its end; or the only whole date that goes is one row, the first of them; or the last date, of
      one row, goes and no date begins in the two rows above it that go with it. */
  ghost predicate RemovesWell(dates: seq<QDate>, start: nat, end: nat)
    requires start <= end < |dates|
  {
    || NoWholeDate(dates, start, end)
    || StartsFrom(dates, end) == []
    || (EndsWhole(dates, start, start) && NoWholeDate(dates, start + 1, end))
    || (end + 1 == |dates| && IsStart(dates, end)
        && forall k :: start <= k < end && end - 2 <= k ==> !IsStart(dates, k))
  }

  /** The date that row `e` ends, when it begins at row `start` or below. */
  lemma WholeDateAt(d: seq<QDate>, start: nat, e: nat) returns (above: seq<int>, g: int, below: seq<int>)
    requires start <= e < |d| && EndsWhole(d, start, e)
    ensures Starts(d) == above + [g] + below && below == StartsFrom(d, e + 1)
    ensures start <= g <= e && IsStart(d, g) && (forall k :: 0 <= k < |above| ==> above[k] < g)
    ensures (below == [] <==> e + 1 == |d|) && (below != [] ==> below[0] == e + 1)
    ensures above == [] <==> g == 0
    ensures IsStart(d, e) ==> g == e && above == Starts(d[..e])
  {
    hide StartsFrom, Partitions, IsStart, EndsWhole;
    var upper := d[..e + 1];
    var front := Starts(upper);
    StartsSplit(d, 0, e + 1);
    FrontParts(upper);
    var n := |front| - 1;
    above, g, below := front[..n], front[n], StartsFrom(d, e + 1);
    BelowWhole(d, start, e);
    assert front == above + [g];
    StartInPrefix(d, e + 1, g);
    var s := StartOfWhole(d, start, e);
    StartInPrefix(d, e + 1, s);
    StartsReach(upper, s);
    if IsStart(d, e) {
      StartInPrefix(d, e + 1, e);
      StartsReach(upper, e);
      StartsLast(upper, 0);
      assert upper[..e] == d[..e];
      assert (Starts(d[..e]) + [e])[..n] == Starts(d[..e]);
    }
  }

  lemma StartOfWhole(d: seq<QDate>, start: nat, e: nat) returns (s: nat)
    requires start <= e < |d| && EndsWhole(d, start, e)
    ensures start <= s <= e && IsStart(d, s)
  {
    hide IsStart;
    s :| start <= s <= e && IsStart(d, s);
  }

  /** The last start, and those above it. */
  lemma FrontParts(d: seq<QDate>)
    requires d != []
    ensures var front, n := Starts(d), |Starts(d)| - 1;
            && n >= 0 && 0 <= front[n] < |d| && IsStart(d, front[n])
            && (forall k :: 0 <= k < |front[..n]| ==> front[..n][k] < front[n])
            && (front[..n] == [] <==> front[n] == 0)
  {
    StartsPartition(d);
    hide StartsFrom;
    CachedRowsAreStarts(d, 0, Starts(d)[|Starts(d)| - 1]);
  }

  /** No start is below the last one. */
  lemma StartsReach(d: seq<QDate>, s: nat)
    requires s < |d| && IsStart(d, s)
    ensures Starts(d) != [] && s <= Starts(d)[|Starts(d)| - 1]
  {
    StartsPartition(d);
    hide StartsFrom, IsStart;
    CachedRowsAreStarts(d, 0, s);
  }

  lemma StartInPrefix(d: seq<QDate>, n: nat, i: nat)
    requires i < n <= |d|
    ensures IsStart(d[..n], i) == IsStart(d, i)
  {
  }

  lemma BelowWhole(d: seq<QDate>, start: nat, e: nat)
    requires start <= e < |d| && EndsWhole(d, start, e)
    ensures var below := StartsFrom(d, e + 1);
            (below == [] <==> e + 1 == |d|) && (below != [] ==> below[0] == e + 1)
  {
    if e + 1 < |d| {
      StartsStep(d, e + 1);
    } else {
      NoStarts(d, e + 1);
    }
  }

  /** Dropped, or what a rebuild finds. */
  predicate Right(cache: seq<int>, rebuilt: seq<int>) {
    cache == [] || cache == rebuilt
  }

  /** The last date, of one row, and rows above it. */
  lemma LastDateRemoved(d: seq<QDate>, start: nat, end: nat)
    requires start <= end && end + 1 == |d| && IsStart(d, end)
    ensures Partitions(Starts(d), |d|)
    ensures Right(Removed(Starts(d), |d|, start, end), Starts(WithoutRows(d, start, end))) <==>
            forall k :: start <= k < end && end - 2 <= k ==> !IsStart(d, k)
  {
    hide StartsFrom, Round, LowerBound, Partitions, Offset;
    StartsPartition(d);
    DroppedAt(d, end);
    OneRowIsWhole(d, start, end);
    var above, g, below := WholeDateAt(d, start, end);
    RoundAt(above, g, below, |d|, start, end);
    RoundKeepsPartition(Starts(d), |d|, start, end);
    OffsetNothing(-1);
    assert above + [] == above;
    assert WithoutRows(d, start, end) == d[..start];
    if start <= end - 2 {
      LastDateAndMore(d, start, end);
    } else if start == end - 1 {
      LastDateAndOne(d, start);
    }
  }

  lemma LastDateAndOne(d: seq<QDate>, start: nat)
    requires start + 2 == |d|
    ensures Right(Starts(d[..start + 1]), Starts(d[..start])) <==> !IsStart(d, start)
  {
    hide StartsFrom;
    var front := d[..start + 1];
    StartsLast(front, 0);
    assert front[..start] == d[..start];
    assert IsStart(front, start) == IsStart(d, start);
    CompareLists(Starts(d[..start]), start, []);
    FirstIsZero(front);
  }

  /** The rounds from two rows above the last date on, with that date gone from the cache. */
  lemma LastDateAndMore(d: seq<QDate>, start: nat, end: nat)
    requires start <= end - 2 && end + 1 == |d|
    ensures Partitions(Starts(d[..end]), |d|)
    ensures Right(Removed(Starts(d[..end]), |d|, start, end - 2), Starts(d[..start])) <==>
            !IsStart(d, end - 2) && !IsStart(d, end - 1)
  {
    hide StartsFrom, Round, LowerBound, Partitions, Offset;
    var front := d[..end];
    var cache := Starts(front);
    StartsInTotal(front, |d|);
    StartsStep(front, end - 2);
    StartsStep(front, end - 1);
    NoStarts(front, end);
    StartsSplit(front, 0, end - 2);
    assert front[..end - 2] == d[..end - 2];
    DroppedAt(front, end - 2);
    StartsInOrder(d[..start], 0);
    FirstIsZero(front);
    if IsStart(d, end - 1) {
      assert cache[|cache| - 1] == end - 1;
      RoundsMoveLast(cache, |d|, start, end - 2);
    } else if IsStart(d, end - 2) {
      assert cache[|cache| - 1] == end - 2;
      var above, g, below := CutAt(front, end - 2);
      assert below == [];
      RoundAt(above, g, below, |d|, start, end - 2);
      RoundKeepsPartition(cache, |d|, start, end - 2);
      OffsetNothing(-1);
      assert above + [g] + [] == above + [g];
      if start <= end - 3 {
        RoundsMoveLast(cache, |d|, start, end - 3);
      }
    }
  }

  /** The start of what is left of the rows below, in date order. */
  lemma RestMoved(d: seq<QDate>, start: nat, e: nat)
    requires InDateOrder(d) && start <= e && e + 1 < |d| && IsStart(d, e + 1)
    ensures Starts(WithoutRows(d, start, e)) == Starts(d[..start]) + ([start] + Offset(StartsFrom(d, e
             + 2), start - e - 1))
    ensures StartsFrom(d, e + 1) == [e + 1] + StartsFrom(d, e + 2)
  {
    hide StartsFrom, Offset;
    var x := WithoutRows(d, start, e);
    StartsStep(d, e + 1);
    assert x[..start] == d[..start];
    StartsSplit(x, 0, start);
    StartsStep(x, start);
    assert start > 0 ==> d[start - 1] != d[e + 1] by {
      assert d[e] != d[e + 1] && d[e].n >= d[e + 1].n;
      assert start > 0 ==> d[start - 1].n >= d[e].n;
    }
    StartsMoved(d, x, e + 2, start - e - 1);
  }

  /** Rounds that take away a whole date with others below it: the rows taken along above it are not
      counted, unless there are none. */
  lemma WholeDateRemoved(d: seq<QDate>, total: int, start: nat, e: nat)
    requires InDateOrder(d) && start <= e && e + 1 < |d| <= total && EndsWhole(d, start, e)
    ensures Partitions(Starts(d), total)
    ensures Right(Removed(Starts(d), total, start, e), Starts(WithoutRows(d, start, e))) <==> e == start
  {
    hide StartsFrom, Round, LowerBound, Partitions, Offset, EndsWhole, IsStart, Removed;
    StartsInTotal(d, total);
    EndMeansStart(d, start, e);
    var above, g, below := WholeDateAt(d, start, e);
    FirstRoundOfWhole(above, g, below, total, start, e);
    if e == start {
      WholeRowRemoved(d, e);
    } else {
      LastOfRest(d, start, e);
    }
  }

  /** The round that takes the date away, and those above it. */
  lemma FirstRoundOfWhole(above: seq<int>, g: int, below: seq<int>, total: int, start: nat, e: nat)
    requires Partitions(above + [g] + below, total) && start <= g <= e && below != [] && below[0] == e + 1
    requires (forall k :: 0 <= k < |above| ==> above[k] < g) && (above == [] ==> g == 0)
    ensures var r := Removed(above + [g] + below, total, start, e);
            && (e == start ==> r == above + Offset(below, -1))
            && r != [] && r[|r| - 1] >= below[|below| - 1] - 1 - Rows(start, g - 2)
  {
    hide StartsFrom, Round, LowerBound, Partitions, Offset;
    RoundAt(above, g, below, total, start, e);
    RoundKeepsPartition(above + [g] + below, total, start, e);
    LastMoved(above, below, -1);
    if start <= g - 2 {
      LastInOrder(above + [g], below, total);
      RoundsMoveLast(above + Offset(below, -1), total, start, g - 2);
    }
  }

  lemma LastInOrder(above: seq<int>, below: seq<int>, total: int)
    requires Partitions(above + below, total) && below != []
    ensures below[|below| - 1] >= below[0]
  {
    var cache := above + below;
    assert cache[|above|] == below[0] && cache[|cache| - 1] == below[|below| - 1];
  }

  lemma LastMoved(above: seq<int>, below: seq<int>, d: int)
    requires below != []
    ensures var c := above + Offset(below, d); c != [] && c[|c| - 1] == below[|below| - 1] + d
  {
    OffsetAt(below, d);
  }

  /** The last entry of a rebuild without rows `start` to `e`. */
  lemma LastOfRest(d: seq<QDate>, start: nat, e: nat)
    requires InDateOrder(d) && start <= e && e + 1 < |d| && IsStart(d, e + 1)
    ensures var below, rebuilt := StartsFrom(d, e + 1), Starts(WithoutRows(d, start, e));
            below != [] && rebuilt != [] && rebuilt[|rebuilt| - 1] == below[|below| - 1] + (start - e - 1)
  {
    hide StartsFrom, Offset;
    RestMoved(d, start, e);
    OffsetAt(StartsFrom(d, e + 2), start - e - 1);
  }

  /** A date of one row taken away. */
  lemma WholeRowRemoved(d: seq<QDate>, e: nat)
    requires InDateOrder(d) && e + 1 < |d| && IsStart(d, e + 1) && IsStart(d, e)
    ensures Starts(WithoutRows(d, e, e)) == Starts(d[..e]) + Offset(StartsFrom(d, e + 1), -1)
  {
    hide StartsFrom, Offset;
    RestMoved(d, e, e);
    OffsetConcat([e + 1], StartsFrom(d, e + 2), -1);
    OffsetConcat([], [e + 1], -1);
  }

  lemma EndMeansStart(d: seq<QDate>, start: nat, e: nat)
    requires start <= e && e + 1 < |d| && EndsWhole(d, start, e)
    ensures IsStart(d, e + 1) && (start == e ==> IsStart(d, e))
  {
  }

  /** The last row at which a whole date ends. */
  lemma {:induction false} LastWhole(d: seq<QDate>, start: nat, end: nat) returns (e: nat)
    requires end < |d| && !NoWholeDate(d, start, end)
    ensures start <= e <= end && EndsWhole(d, start, e) && forall k :: e < k <= end ==> !EndsWhole(d, start, k)
    decreases end
  {
    hide EndsWhole;
    if EndsWhole(d, start, end) {
      e := end;
    } else {
      e := LastWhole(d, start, end - 1);
    }
  }

  /** The rounds below the last whole date. */
  lemma RowsBelowWhole(d: seq<QDate>, start: nat, e: nat, end: nat) returns (rest: seq<QDate>)
    requires InDateOrder(d) && start <= e < end < |d| && EndsWhole(d, start, e) && StartsFrom(d, end) != []
    requires forall k :: e < k <= end ==> !EndsWhole(d, start, k)
    ensures rest == WithoutRows(d, e + 1, end) && e + 1 < |rest|
    ensures InDateOrder(rest) && EndsWhole(rest, start, e)
    ensures WithoutRows(rest, start, e) == WithoutRows(d, start, end)
    ensures Partitions(Starts(d), |d|) && Partitions(Starts(rest), |d|)
    ensures Removed(Starts(d), |d|, start, end) == Removed(Starts(rest), |d|, start, e)
  {
    hide StartsFrom, Round, LowerBound, Partitions, Removed;
    rest := WithoutRows(d, e + 1, end);
    KeptRounds(d, |d|, start, e + 1, end);
    SomeStart(rest, e + 1);
    assert d[e] != d[e + 1] && d[e].n >= d[e + 1].n >= d[end + 1].n;
    var s :| start <= s <= e && IsStart(d, s);
    assert IsStart(rest, s) && rest[e] == d[e] && rest[e + 1] == d[end + 1];
  }

  /** For rows in date order the removal of rows `start` to `end` in place drops the cache or gives
      what a rebuild finds, exactly in the four cases. */
  lemma RemovedSeveralRows(dates: seq<QDate>, start: nat, end: nat)
    requires InDateOrder(dates) && start <= end < |dates|
    ensures Partitions(Starts(dates), |dates|)
    ensures var cache := Removed(Starts(dates), |dates|, start, end);
            && (Right(cache, Starts(WithoutRows(dates, start, end))) <==> RemovesWell(dates, start, end))
            && (cache == [] || cache == Starts(dates[..start] + dates[end + 1..]) <==> RemovesWell(dates, start, end))
  {
    hide StartsFrom, Round, LowerBound, Partitions, EndsWhole, IsStart, EndsDate;
    StartsPartition(dates);
    DroppedAt(dates, end);
    OneRowIsWhole(dates, start, start);
    OneRowIsWhole(dates, start, end);
    if StartsFrom(dates, end) == [] {
    } else if NoWholeDate(dates, start, end) {
      KeptRounds(dates, |dates|, start, start, end);
    } else {
      var e := LastWhole(dates, start, end);
      OnlyFirstRow(dates, start, e, end);
      if end + 1 == |dates| && IsStart(dates, end) {
        LastRowIsWhole(dates, start, end);
        LastDateRemoved(dates, start, end);
      } else {
        BelowLastWhole(dates, start, e, end);
      }
    }
  }

  /** In the third case the last whole date is the first row. */
  lemma OnlyFirstRow(d: seq<QDate>, start: nat, e: nat, end: nat)
    requires start <= e <= end < |d| && EndsWhole(d, start, e) && forall k :: e < k <= end ==> !EndsWhole(d, start, k)
    ensures EndsWhole(d, start, start) && NoWholeDate(d, start + 1, end) <==> e == start
  {
    var next := start + 1;
    if e == start {
      forall k | next <= k <= end
        ensures !EndsWhole(d, next, k)
      {
        assert EndsWhole(d, next, k) ==> EndsWhole(d, start, k);
      }
    } else if EndsWhole(d, start, start) {
      assert IsStart(d, start + 1);
      assert EndsWhole(d, start + 1, e);
    }
  }

  lemma LastRowIsWhole(d: seq<QDate>, start: nat, end: nat)
    requires start <= end && end + 1 == |d| && IsStart(d, end)
    ensures EndsWhole(d, start, start) && NoWholeDate(d, start + 1, end) ==> start == end
  {
    assert start < end ==> EndsWhole(d, start + 1, end);
  }

  lemma BelowLastWhole(d: seq<QDate>, start: nat, e: nat, end: nat)
    requires InDateOrder(d) && start <= e <= end < |d| && EndsWhole(d, start, e) && StartsFrom(d, end) != []
    requires forall k :: e < k <= end ==> !EndsWhole(d, start, k)
    requires !(end + 1 == |d| && IsStart(d, end))
    ensures Partitions(Starts(d), |d|)
    ensures Right(Removed(Starts(d), |d|, start, end), Starts(WithoutRows(d, start, end))) <==> e == start
  {
    hide StartsFrom, Round, LowerBound, Partitions, Removed;
    StartsPartition(d);
    DroppedAt(d, end);
    NoStarts(d, |d|);
    if e == end {
      WholeDateRemoved(d, |d|, start, e);
    } else {
      var rest := RowsBelowWhole(d, start, e, end);
      WholeDateRemoved(rest, |d|, start, e);
    }
  }

  lemma StartsInTotal(d: seq<QDate>, total: int)
    requires d != [] && |d| <= total
    ensures Partitions(Starts(d), total)
  {
    StartsPartition(d);
  }

  /** Rows in date order never merge. */
  lemma SortedNeverMerges(dates: seq<QDate>, i: nat)
    requires InDateOrder(dates)
    ensures !Merges(dates, i)
  {
  }

  /** Removing several rows does not keep the cache right: both rows of the first of two dates. */
  lemma RemovedTwoRowsFails()
    ensures var dates := [Day(3), Day(3), Day(2)];
            && Starts(dates) == [0, 2]
            && Starts(dates[2..]) == [0]
            && Removed([0, 2], 3, 0, 1) == [1]
  {
    var dates := [Day(3), Day(3), Day(2)];
    StartsStep(dates, 0);
    StartsStep(dates, 1);
    StartsStep(dates, 2);
    StartsStep(dates[2..], 0);
    hide StartsFrom;
    TwoRowsRound();
  }

  lemma TwoRowsRound()
    ensures Removed([0, 2], 3, 0, 1) == [1]
  {
    RoundAt([], 0, [2], 3, 0, 1);
    OffsetConcat([], [2], -1);
    hide LowerBound, Round, Offset;
    assert [] + [0] + [2] == [0, 2] && [] + [1] == [1];
  }

  // ---- The model ---------------------------------------------------------------------------------

  datatype Notice = DateInserted | RowInserted(date: int, row: int) | Reset

  class HistoryTreeModel {
    /** The dates of the filtered rows, newest first. */
    var dates: seq<QDate>
    var m_sourceRowCache: seq<int>

    ghost predicate Valid()
      reads this
    {
      AllDated(dates) && (m_sourceRowCache == [] || m_sourceRowCache == Starts(dates))
    }

    /** `rowCount` of the root: the number of dates, counting them first when there is no cache. */
    method DateCount() returns (rows: int)
      requires Valid()
      modifies `m_sourceRowCache
      ensures m_sourceRowCache == Starts(dates) && rows == |m_sourceRowCache|
      ensures forall i :: 0 <= i < |dates| ==> (i in m_sourceRowCache <==> i == 0 || dates[i] != dates[i - 1])
      ensures forall k :: 0 <= k < rows ==> 0 <= m_sourceRowCache[k] < |dates|
      ensures forall j, k :: 0 <= j < k < rows ==> m_sourceRowCache[j] < m_sourceRowCache[k]
      ensures old(m_sourceRowCache) != [] ==> m_sourceRowCache == old(m_sourceRowCache)
    {
      hide Starts;
      if m_sourceRowCache != [] {
        rows := |m_sourceRowCache|;
      } else {
        rows := CountDates();
      }
      CachedRows(dates);
      StartsPartition(dates);
    }

    method CountDates() returns (rows: int)
      requires AllDated(dates) && m_sourceRowCache == []
      modifies `m_sourceRowCache
      ensures m_sourceRowCache == Starts(dates) && rows == |m_sourceRowCache|
    {
      var currentDate := Null;
      rows := 0;
      for i := 0 to |dates|
        invariant m_sourceRowCache == Starts(dates[..i]) && rows == |m_sourceRowCache|
        invariant currentDate == if i == 0 then Null else dates[i - 1]
      {
        assert dates[..i + 1][..i] == dates[..i];
        var rowDate := dates[i];
        if rowDate != currentDate {
          m_sourceRowCache := m_sourceRowCache + [i];
          currentDate := rowDate;
          rows := rows + 1;
        }
      }
      assert dates[..|dates|] == dates;
    }

    method SourceDateRow(row: int) returns (r: int)
      requires Valid()
      modifies `m_sourceRowCache
      ensures Valid() && r == DateRow(m_sourceRowCache, |dates|, row)
      ensures row > 0 ==> m_sourceRowCache == Starts(dates)
      ensures r == if row <= 0 then 0 else if row < |m_sourceRowCache| then m_sourceRowCache[row] else |dates|
    {
      if row <= 0 {
        return 0;
      }
      if m_sourceRowCache == [] {
        var n := DateCount();
      }
      if row >= |m_sourceRowCache| {
        return |dates|;
      }
      r := m_sourceRowCache[row];
    }

    /** The slot for rows that have just been inserted. For one in front the announced change, applied
        to the groups that were there before, gives the groups that are there now, whatever the memory
        behind the cache holds; for any others the cache is dropped, to be rebuilt. */
    method SourceRowsInserted(start: nat, end: nat, behind: int) returns (notice: Notice)
      requires AllDated(dates) && start <= end < |dates|
      modifies `m_sourceRowCache
      ensures Valid()
      ensures end > 0 ==> notice == Reset && m_sourceRowCache == []
      ensures end == 0 ==> notice != Reset && m_sourceRowCache == Starts(dates)
      ensures end == 0 ==> (notice == DateInserted <==> |dates| == 1 || dates[0] != dates[1])
      ensures notice == DateInserted ==> m_sourceRowCache == [0] + Offset(Starts(dates[1..]), 1)
      ensures notice.RowInserted? ==>
                && notice == RowInserted(0, 0) && Starts(dates[1..]) != []
                && m_sourceRowCache == [0] + Offset(Starts(dates[1..])[1..], 1)
    {
      if start != 0 || start != end {
        m_sourceRowCache := [];
        return Reset;
      }
      m_sourceRowCache := [];
      var n := DateCount();
      StartsAfterPrepend(dates);
      FirstRowsDate(dates, behind);
      var treeIndex := MapFromSource(m_sourceRowCache, 0, behind);
      if RowsOfDate(m_sourceRowCache, |dates|, treeIndex.date) == 1 {
        notice := DateInserted;
      } else {
        notice := RowInserted(treeIndex.date, treeIndex.row);
      }
    }

    /** The slot for removed rows, which still sees the old number of rows. For a single row, the cache
        is dropped or is that of the rows that are left, exactly unless dates merge; for any rows in
        date order, exactly in the four cases. */
    method SourceRowsRemoved(start: nat, end: nat)
      requires Valid() && start <= end < |dates|
      modifies `m_sourceRowCache
      ensures Partitions(Starts(dates), |dates|)
      ensures m_sourceRowCache == if old(m_sourceRowCache) == [] then []
               else Removed(Starts(dates), |dates|, start, end)
      ensures start == end && old(m_sourceRowCache) != [] ==>
                (m_sourceRowCache == [] || m_sourceRowCache == Starts(WithoutRow(dates, end)) <==> !Merges(dates, end))
      ensures (forall j, k :: 0 <= j < k < |dates| ==> dates[j].n >= dates[k].n) && old(m_sourceRowCache) != [] ==>
                (m_sourceRowCache == [] || m_sourceRowCache == Starts(dates[..start] + dates[end + 1..]) <==>
                 RemovesWell(dates, start, end))
    {
      StartsPartition(dates);
      if m_sourceRowCache == [] {
        return;
      }
      hide Starts, StartsFrom, Round, LowerBound, Partitions, RemovesWell, Right;
      RemovedOneRow(dates, end);
      if InDateOrder(dates) {
        RemovedSeveralRows(dates, start, end);
      }
      RemoveLoop(start, end);
    }

    /** The loop over the removed rows, the last one first. */
    method RemoveLoop(start: nat, end: nat)
      requires start <= end && Partitions(m_sourceRowCache, |dates|)
      modifies `m_sourceRowCache
      ensures m_sourceRowCache == Removed(old(m_sourceRowCache), |dates|, start, end)
    {
      hide Round, LowerBound, Partitions;
      var total := |dates|;
      var i := end;
      while i >= start
        invariant i >= start ==> Partitions(m_sourceRowCache, total)
        invariant Removed(old(m_sourceRowCache), total, start, end) ==
                  if i < start then m_sourceRowCache else Removed(m_sourceRowCache, total, start, i)
        decreases i - start
      {
        if LowerBound(m_sourceRowCache, i) == |m_sourceRowCache| {
          m_sourceRowCache := [];
          return;
        }
        i := RemoveOneRound(total, start, i);
      }
    }

    /** One round: the cache stays a partition of the rows reported for as long as there are rounds,
        and the next one is for a row further up. */
    method RemoveOneRound(total: int, start: int, i: int) returns (next: int)
      requires Partitions(m_sourceRowCache, total) && 0 <= start <= i
      requires LowerBound(m_sourceRowCache, i) < |m_sourceRowCache|
      modifies `m_sourceRowCache
      ensures next < i && (start <= next ==> Partitions(m_sourceRowCache, total))
      ensures (m_sourceRowCache, next) == Round(old(m_sourceRowCache), total, start, i)
    {
      hide *;
      RoundKeepsPartition(m_sourceRowCache, total, start, i);
      next := ComputeRound(total, start, i);
    }

    method ComputeRound(total: int, start: int, i: int) returns (next: int)
      requires LowerBound(m_sourceRowCache, i) < |m_sourceRowCache|
      modifies `m_sourceRowCache
      ensures (m_sourceRowCache, next) == Round(old(m_sourceRowCache), total, start, i)
    {
      hide RowsOfDate, MoveUp, LowerBound;
      var it := LowerBound(m_sourceRowCache, i);
      var row := if m_sourceRowCache[it] != i && it > 0 then it - 1 else it;
      var offset := m_sourceRowCache[row];
      var rc := RowsOfDate(m_sourceRowCache, total, row);
      if i - rc + 1 == offset && start <= i - rc + 1 {
        m_sourceRowCache := m_sourceRowCache[..row] + m_sourceRowCache[row + 1..];
        next := i - (rc + 1);
      } else {
        row := row + 1;
        next := i - 1;
      }
      MoveEntriesUp(row);
    }

    /** The loop that moves the entries from `row` on. */
    method MoveEntriesUp(row: nat)
      requires row <= |m_sourceRowCache|
      modifies `m_sourceRowCache
      ensures m_sourceRowCache == MoveUp(old(m_sourceRowCache), row)
    {
      ghost var cut := m_sourceRowCache;
      var j := row;
      while j < |m_sourceRowCache|
        invariant row <= j <= |m_sourceRowCache| == |cut|
        invariant forall k :: 0 <= k < |cut| ==> m_sourceRowCache[k] == if row <= k < j then cut[k] - 1 else cut[k]
      {
        m_sourceRowCache := m_sourceRowCache[j := m_sourceRowCache[j] - 1];
        j := j + 1;
      }
      OffsetAt(cut[row..], -1);
    }
  }

  /** The first date has one row exactly when the second row starts another date. */
  lemma FirstRowsDate(dates: seq<QDate>, behind: int)
    requires dates != []
    ensures MapFromSource(Starts(dates), 0, behind) == Item(0, 0)
    ensures RowsOfDate(Starts(dates), |dates|, 0) == 1 <==> |dates| == 1 || dates[0] != dates[1]
  {
    hide StartsFrom, LowerBound;
    StartsStep(dates, 0);
    if |dates| > 1 {
      StartsStep(dates, 1);
      StartsInOrder(dates, 2);
      FirstDateSize(if IsStart(dates, 1) then [1] else [], StartsFrom(dates, 2), |dates|, behind);
    } else {
      NoStarts(dates, 1);
      FirstDateSize([], [], 1, behind);
    }
  }

  lemma FirstDateSize(second: seq<int>, next: seq<int>, n: nat, behind: int)
    requires second == [] || second == [1]
    requires forall k :: 0 <= k < |next| ==> 2 <= next[k]
    requires n >= 1 && (n == 1 ==> second == next == [])
    ensures MapFromSource([0] + (second + next), 0, behind) == Item(0, 0)
    ensures RowsOfDate([0] + (second + next), n, 0) == 1 <==> n == 1 || second == [1]
  {
  }
}
