/** The history filter: a proxy that shows every URL of the source model once, at its newest row.
    It keeps, per visible row, the row's offset from the back of the source (so that prepending
    leaves the offsets alone), and a hash from URL to that offset. */
module HistoryFilter {

  /** URL strings: the filter only ever compares them. */
  type Url(==, !new)

  ghost function Urls(s: seq<Url>): set<Url> {
    set u | u in s
  }

  /** The URL at offset `r` from the back; source row `i` has offset `|s| - i`. */
  function UrlAt(s: seq<Url>, r: int): Url
    requires 1 <= r <= |s|
  {
    s[|s| - r]
  }

  /** The row at offset `r` is the newest row with its URL. */
  ghost predicate Shown(s: seq<Url>, r: int) {
    1 <= r <= |s| && UrlAt(s, r) !in s[..|s| - r]
  }

  ghost predicate Decreasing(rows: seq<int>) {
    forall j, k :: 0 <= j < k < |rows| ==> rows[j] > rows[k]
  }

  /** `rows` and `hash` are an index of `s`: the offsets of exactly the newest rows per URL, newest
      first, and the same offsets by URL. */
  ghost predicate IsIndexOf(s: seq<Url>, rows: seq<int>, hash: map<Url, int>) {
    && Decreasing(rows)
    && (forall r :: r in rows <==> Shown(s, r))
    && hash.Keys == Urls(s)
    && (forall r :: Shown(s, r) ==> UrlAt(s, r) in hash && hash[UrlAt(s, r)] == r)
  }

  /** Every URL is shown at some offset. */
  lemma {:induction false} OffsetOf(s: seq<Url>, u: Url) returns (r: int)
    requires u in s
    ensures Shown(s, r) && UrlAt(s, r) == u
  {
    var i := 0;
    while s[i] != u
      invariant 0 <= i < |s| && u !in s[..i]
      decreases |s| - i
    {
      i := i + 1;
    }
    r := |s| - i;
  }

  lemma ShownInRange(s: seq<Url>, r: int)
    ensures Shown(s, r) ==> 1 <= r <= |s|
  {
  }

  lemma NotInPrefix(s: seq<Url>, k: int, u: Url)
    requires 0 <= k <= |s| && u !in s[..k]
    ensures forall i :: 0 <= i < k ==> s[i] != u
  {
    assert forall i :: 0 <= i < k ==> s[..k][i] == s[i];
  }

  lemma NotInShorterPrefix(s: seq<Url>, j: int, k: int, u: Url)
    requires 0 <= j <= k <= |s| && u !in s[..k]
    ensures u !in s[..j]
  {
    NotInPrefix(s, k, u);
  }

  lemma InSlice(s: seq<Url>, from: int, to: int, i: int)
    requires 0 <= from <= i < to <= |s|
    ensures s[i] in s[from..to]
  {
    assert s[from..to][i - from] == s[i];
  }

  /** A URL that is in a part of `s` occurs no further up than where it is shown. */
  lemma ShownIsNewest(s: seq<Url>, r: int, i: int)
    requires Shown(s, r) && 0 <= i < |s| && s[i] == UrlAt(s, r)
    ensures |s| - r <= i
  {
    NotInPrefix(s, |s| - r, UrlAt(s, r));
  }

  /** Two rows never show the same URL. */
  lemma ShownOnce(s: seq<Url>, r: int, q: int)
    requires Shown(s, r) && Shown(s, q) && UrlAt(s, r) == UrlAt(s, q)
    ensures r == q
  {
    ShownIsNewest(s, r, |s| - q);
    ShownIsNewest(s, q, |s| - r);
  }

  lemma HeadOfDecreasing(a: seq<int>)
    requires Decreasing(a) && a != []
    ensures Decreasing(a[1..]) && a[0] in a
    ensures forall r :: r in a ==> r <= a[0]
    ensures forall r :: r in a[1..] <==> r in a && r != a[0]
  {
    assert a == [a[0]] + a[1..];
  }

  lemma SomeMember(a: seq<int>)
    ensures a != [] ==> exists r :: r in a
  {
    if a != [] {
      var r := a[0];
      assert r in a;
    }
  }

  /** Strictly decreasing lists with the same members are the same list. */
  lemma {:induction false} SameDecreasing(a: seq<int>, b: seq<int>)
    requires Decreasing(a) && Decreasing(b)
    requires forall r :: r in a <==> r in b
    ensures a == b
  {
    hide Decreasing;
    SomeMember(a);
    SomeMember(b);
    if a != [] {
      HeadOfDecreasing(a);
      HeadOfDecreasing(b);
      SameDecreasing(a[1..], b[1..]);
      assert a == [a[0]] + a[1..] && b == [b[0]] + b[1..];
    }
  }

  /** An index by rows: row `i` is in the list exactly when its URL does not occur above it, the hash
      then has its offset, and the list goes down the source. */
  lemma IndexMeans(s: seq<Url>, rows: seq<int>, hash: map<Url, int>)
    requires IsIndexOf(s, rows, hash)
    ensures forall k :: 0 <= k < |rows| ==> 1 <= rows[k] <= |s|
    ensures forall j, k :: 0 <= j < k < |rows| ==> rows[j] > rows[k]
    ensures forall i :: 0 <= i < |s| ==> (|s| - i in rows <==> s[i] !in s[..i])
    ensures forall i :: 0 <= i < |s| && s[i] !in s[..i] ==> s[i] in hash && hash[s[i]] == |s| - i
    ensures forall u :: u in hash <==> u in s
  {
    OffsetsInRange(s, rows, hash);
    forall i | 0 <= i < |s|
      ensures |s| - i in rows <==> s[i] !in s[..i]
      ensures s[i] !in s[..i] ==> s[i] in hash && hash[s[i]] == |s| - i
    {
      assert Shown(s, |s| - i) <==> s[i] !in s[..i];
      assert UrlAt(s, |s| - i) == s[i];
    }
    forall u ensures u in hash <==> u in s {
      assert u in Urls(s) <==> u in s;
    }
  }

  /** There is only one index: what is kept up row by row is what a rebuild would find. */
  lemma IndexIsUnique(s: seq<Url>, rows: seq<int>, hash: map<Url, int>, rows': seq<int>, hash': map<Url, int>)
    requires IsIndexOf(s, rows, hash) && IsIndexOf(s, rows', hash')
    ensures rows == rows' && hash == hash'
  {
    hide Shown;
    SameDecreasing(rows, rows');
    forall u | u in hash ensures u in hash' && hash[u] == hash'[u] {
      var r := OffsetOf(s, u);
    }
  }

  /** After a prepend the new row is shown, and every old one that has another URL. */
  lemma ShownAfterPrepend(s: seq<Url>, r: int)
    requires s != []
    ensures Shown(s, r) <==> r == |s| || (Shown(s[1..], r) && UrlAt(s[1..], r) != s[0])
    ensures 1 <= r < |s| ==> UrlAt(s, r) == UrlAt(s[1..], r)
  {
    if 1 <= r < |s| {
      assert s[..|s| - r] == [s[0]] + s[1..][..|s| - 1 - r];
    }
  }

  /** Moving a URL to the front keeps the index an index. */
  lemma PrependKeepsIndex(s: seq<Url>, rows: seq<int>, hash: map<Url, int>, rows': seq<int>, hash': map<Url, int>)
    requires s != [] && IsIndexOf(s[1..], rows, hash)
    requires Decreasing(rows')
    requires forall r :: r in rows' <==> r == |s| || (r in rows && !(s[0] in hash && r == hash[s[0]]))
    requires hash' == hash[s[0] := |s|]
    ensures IsIndexOf(s, rows', hash')
  {
    hide Shown;
    forall r ensures r in rows' <==> Shown(s, r) {
      ShownAfterPrepend(s, r);
      if s[0] in hash && Shown(s[1..], r) {
        var q := OffsetOf(s[1..], s[0]);
        ShownInRange(s[1..], r);
        ShownInRange(s[1..], q);
        if UrlAt(s[1..], r) == s[0] { ShownOnce(s[1..], q, r); }
      }
    }
    forall r | Shown(s, r) ensures 1 <= r <= |s| && UrlAt(s, r) in hash' && hash'[UrlAt(s, r)] == r {
      ShownInRange(s, r);
      ShownAfterPrepend(s, r);
      if r < |s| {
        assert UrlAt(s[1..], r) in hash;
      }
    }
    assert s == [s[0]] + s[1..];
    assert hash'.Keys == Urls(s);
  }

  /** Taking one entry out of a strictly decreasing list. */
  lemma RemovedFromDecreasing(rows: seq<int>, k: nat)
    requires k < |rows| && Decreasing(rows)
    ensures var rest := rows[..k] + rows[k + 1..];
            Decreasing(rest) && forall r :: r in rest <==> r in rows && r != rows[k]
  {
    var rest := rows[..k] + rows[k + 1..];
    forall r ensures r in rest <==> r in rows && r != rows[k] {
      assert rows == rows[..k] + [rows[k]] + rows[k + 1..];
      assert rows[k] !in rows[..k] && rows[k] !in rows[k + 1..];
    }
  }

  /** What the rebuild has after `i` rows: the offsets and URLs of the rows above row `i`. */
  ghost predicate IndexesFirst(s: seq<Url>, i: int, rows: seq<int>, hash: map<Url, int>) {
    && 0 <= i <= |s|
    && Decreasing(rows)
    && (forall r :: r in rows <==> Shown(s, r) && r > |s| - i)
    && hash.Keys == Urls(s[..i])
    && (forall r :: Shown(s, r) && r > |s| - i ==> UrlAt(s, r) in hash && hash[UrlAt(s, r)] == r)
  }

  lemma LoadStep(s: seq<Url>, i: int, rows: seq<int>, hash: map<Url, int>)
    requires IndexesFirst(s, i, rows, hash) && i < |s|
    ensures s[i] !in hash ==> IndexesFirst(s, i + 1, rows + [|s| - i], hash[s[i] := |s| - i])
    ensures s[i] in hash ==> IndexesFirst(s, i + 1, rows, hash)
  {
    assert s[..i + 1] == s[..i] + [s[i]];
    assert Shown(s, |s| - i) <==> s[i] !in hash;
    assert UrlAt(s, |s| - i) == s[i];
    hide Shown;
    if s[i] !in hash {
      var rows', hash' := rows + [|s| - i], hash[s[i] := |s| - i];
      assert forall k :: 0 <= k < |rows| ==> rows[k] in rows;
      forall r | Shown(s, r) && r > |s| - i - 1 ensures UrlAt(s, r) in hash' && hash'[UrlAt(s, r)] == r {
        assert r > |s| - i ==> UrlAt(s, r) in hash;
      }
      assert hash'.Keys == Urls(s[..i + 1]);
    } else {
      assert hash.Keys == Urls(s[..i + 1]);
    }
  }

  lemma IndexesAll(s: seq<Url>, rows: seq<int>, hash: map<Url, int>)
    requires IndexesFirst(s, |s|, rows, hash)
    ensures IsIndexOf(s, rows, hash)
  {
    assert s[..|s|] == s;
  }

  lemma OffsetsInRange(s: seq<Url>, rows: seq<int>, hash: map<Url, int>)
    requires IsIndexOf(s, rows, hash)
    ensures Decreasing(rows)
    ensures forall k :: 0 <= k < |rows| ==> Shown(s, rows[k]) && 1 <= rows[k] <= |s|
  {
    assert forall k :: 0 <= k < |rows| ==> rows[k] in rows;
  }

  /** Every URL is shown in some visible row. */
  lemma RowShowing(s: seq<Url>, rows: seq<int>, hash: map<Url, int>, u: Url) returns (k: int)
    requires IsIndexOf(s, rows, hash) && u in s
    ensures 0 <= k < |rows| && Shown(s, rows[k]) && 1 <= rows[k] <= |s| && UrlAt(s, rows[k]) == u
  {
    var r := OffsetOf(s, u);
    k :| 0 <= k < |rows| && rows[k] == r;
  }

  // ---- Counting visible rows -------------------------------------------------------------------

  /** The URLs shown in visible rows `lo` up to `hi`. */
  ghost function VisibleUrls(s: seq<Url>, rows: seq<int>, lo: int, hi: int): set<Url>
    decreases hi - lo
  {
    if 0 <= lo < hi <= |rows| && 1 <= rows[hi - 1] <= |s|
    then VisibleUrls(s, rows, lo, hi - 1) + {UrlAt(s, rows[hi - 1])}
    else {}
  }

  lemma {:induction false} VisibleAt(s: seq<Url>, rows: seq<int>, lo: int, hi: int, u: Url) returns (k: int)
    requires u in VisibleUrls(s, rows, lo, hi)
    ensures 0 <= lo <= k < hi <= |rows| && 1 <= rows[k] <= |s| && UrlAt(s, rows[k]) == u
    decreases hi - lo
  {
    k := hi - 1;
    if UrlAt(s, rows[hi - 1]) != u {
      k := VisibleAt(s, rows, lo, hi - 1, u);
    }
  }

  lemma {:induction false} RowIsVisible(s: seq<Url>, rows: seq<int>, lo: int, hi: int, k: int)
    requires 0 <= lo <= k < hi <= |rows| && forall i :: 0 <= i < |rows| ==> 1 <= rows[i] <= |s|
    ensures UrlAt(s, rows[k]) in VisibleUrls(s, rows, lo, hi)
    decreases hi - lo
  {
    if k < hi - 1 {
      RowIsVisible(s, rows, lo, hi - 1, k);
    }
  }

  lemma {:induction false} NotYetVisible(s: seq<Url>, rows: seq<int>, hash: map<Url, int>, lo: int, m: int, hi: int)
    requires IsIndexOf(s, rows, hash) && 0 <= lo <= m <= hi < |rows|
    ensures 1 <= rows[hi] <= |s| && UrlAt(s, rows[hi]) !in VisibleUrls(s, rows, lo, m)
  {
    hide IsIndexOf, Shown;
    OffsetsInRange(s, rows, hash);
    if lo < m {
      NotYetVisible(s, rows, hash, lo, m - 1, hi);
      var r, q := rows[m - 1], rows[hi];
      if UrlAt(s, r) == UrlAt(s, q) {
        ShownOnce(s, r, q);
      }
    }
  }

  /** Distinct rows show distinct URLs. */
  lemma {:induction false} VisibleUrlsSize(s: seq<Url>, rows: seq<int>, hash: map<Url, int>, lo: int, hi: int)
    requires IsIndexOf(s, rows, hash) && 0 <= lo <= hi <= |rows|
    ensures |VisibleUrls(s, rows, lo, hi)| == hi - lo
  {
    hide IsIndexOf;
    if lo < hi {
      VisibleUrlsSize(s, rows, hash, lo, hi - 1);
      NotYetVisible(s, rows, hash, lo, hi - 1, hi - 1);
    }
  }

  lemma AllUrlsVisible(s: seq<Url>, rows: seq<int>, hash: map<Url, int>)
    requires IsIndexOf(s, rows, hash)
    ensures VisibleUrls(s, rows, 0, |rows|) == Urls(s)
  {
    hide IsIndexOf, Shown, VisibleUrls;
    OffsetsInRange(s, rows, hash);
    forall u ensures u in s <==> u in VisibleUrls(s, rows, 0, |rows|) {
      if u in s {
        var k := RowShowing(s, rows, hash, u);
        RowIsVisible(s, rows, 0, |rows|, k);
      }
      if u in VisibleUrls(s, rows, 0, |rows|) {
        var k := VisibleAt(s, rows, 0, |rows|, u);
      }
    }
  }

  /** The hash and the list of offsets have the same size. */
  lemma IndexSize(s: seq<Url>, rows: seq<int>, hash: map<Url, int>)
    requires IsIndexOf(s, rows, hash)
    ensures |hash| == |rows| == |Urls(s)|
  {
    AllUrlsVisible(s, rows, hash);
    VisibleUrlsSize(s, rows, hash, 0, |rows|);
    assert |hash| == |hash.Keys|;
  }

  lemma NotAbove(s: seq<Url>, r: int, start: int, u: Url)
    requires 1 <= r <= |s| && UrlAt(s, r) == u && 0 <= start <= |s| && u !in s[..start]
    ensures r <= |s| - start
  {
    NotInPrefix(s, start, u);
  }

  /** A URL of the removed block that does not occur above it is shown in one of the rows. */
  lemma ShownInBlock(s: seq<Url>, rows: seq<int>, hash: map<Url, int>, row: nat, lastRow: nat, i: nat)
    requires IsIndexOf(s, rows, hash) && row <= lastRow < |rows|
    requires 1 <= rows[lastRow] <= rows[row] <= |s| && |s| - rows[row] <= i <= |s| - rows[lastRow]
    requires s[i] !in s[..|s| - rows[row]]
    ensures s[i] in VisibleUrls(s, rows, row, lastRow + 1)
  {
    hide IsIndexOf, VisibleUrls, Shown, UrlAt;
    OffsetsInRange(s, rows, hash);
    var k := RowShowing(s, rows, hash, s[i]);
    ShownIsNewest(s, rows[k], i);
    NotAbove(s, rows[k], |s| - rows[row], s[i]);
    RowIsVisible(s, rows, row, lastRow + 1, k);
  }

  /** A URL shown in one of the rows occurs in the removed block and not above it. */
  lemma BlockOfShown(s: seq<Url>, rows: seq<int>, hash: map<Url, int>, row: nat, lastRow: nat, u: Url)
    requires IsIndexOf(s, rows, hash) && row <= lastRow < |rows|
    requires 1 <= rows[lastRow] <= rows[row] <= |s|
    requires u in VisibleUrls(s, rows, row, lastRow + 1)
    ensures u in s[|s| - rows[row]..|s| - rows[lastRow] + 1] && u !in s[..|s| - rows[row]]
  {
    hide IsIndexOf, VisibleUrls;
    OffsetsInRange(s, rows, hash);
    var k := VisibleAt(s, rows, row, lastRow + 1, u);
    hide Decreasing, UrlAt, Shown;
    InOrder(rows, row, k);
    InOrder(rows, k, lastRow);
    ShownBetween(s, rows[lastRow], rows[k], rows[row], u);
  }

  lemma InOrder(rows: seq<int>, j: int, k: int)
    requires Decreasing(rows) && 0 <= j <= k < |rows|
    ensures rows[k] <= rows[j]
  {
  }

  lemma ShownBetween(s: seq<Url>, q: int, r: int, p: int, u: Url)
    requires 1 <= q <= r <= p <= |s| && UrlAt(s, r) == u && Shown(s, r)
    ensures u in s[|s| - p..|s| - q + 1] && u !in s[..|s| - p]
  {
    InSlice(s, |s| - p, |s| - q + 1, |s| - r);
    NotInShorterPrefix(s, |s| - p, |s| - r, u);
  }

  /** The URLs shown in the removed rows are those that occur in the removed block but not above. */
  lemma RemovedUrls(s: seq<Url>, rows: seq<int>, hash: map<Url, int>, row: nat, lastRow: nat, u: Url)
    requires IsIndexOf(s, rows, hash) && row <= lastRow < |rows|
    requires 1 <= rows[lastRow] <= rows[row] <= |s|
    ensures var start, end := |s| - rows[row], |s| - rows[lastRow];
            u in VisibleUrls(s, rows, row, lastRow + 1) <==> u in s[start..end + 1] && u !in s[..start]
  {
    hide VisibleUrls, IsIndexOf;
    var start, end := |s| - rows[row], |s| - rows[lastRow];
    if u in s[start..end + 1] && u !in s[..start] {
      var i :| start <= i <= end && s[i] == u;
      ShownInBlock(s, rows, hash, row, lastRow, i);
    }
    if u in VisibleUrls(s, rows, row, lastRow + 1) {
      BlockOfShown(s, rows, hash, row, lastRow, u);
    }
  }

  /** The source without the rows from the one at offset `r` down to the one at offset `q`. */
  function WithoutBlock(s: seq<Url>, r: int, q: int): seq<Url>
    requires 1 <= q <= r <= |s|
  {
    s[..|s| - r] + s[|s| - q + 1..]
  }

  /** The rows above the block stay in place, those below it move up by its size. */
  lemma WithoutBlockAt(s: seq<Url>, r: int, q: int)
    requires 1 <= q <= r <= |s|
    ensures |WithoutBlock(s, r, q)| == |s| - (r - q + 1)
    ensures forall i :: 0 <= i < |s| - (r - q + 1) ==>
              WithoutBlock(s, r, q)[i] == s[if i < |s| - r then i else i + (r - q + 1)]
  {
  }

  /** The URLs shown in visible rows `row` to `lastRow` that occur again below them. */
  ghost function Returning(s: seq<Url>, rows: seq<int>, row: int, lastRow: int): set<Url>
    requires 0 <= lastRow < |rows| && 1 <= rows[lastRow] <= |s|
  {
    VisibleUrls(s, rows, row, lastRow + 1) * Urls(s[|s| - rows[lastRow] + 1..])
  }

  /** Those are the URLs of the removed block that do not occur above it but do below. */
  lemma ReturningMeans(s: seq<Url>, rows: seq<int>, hash: map<Url, int>, row: nat, lastRow: nat, u: Url)
    requires IsIndexOf(s, rows, hash) && row <= lastRow < |rows|
    requires 1 <= rows[lastRow] <= rows[row] <= |s|
    ensures var start, end := |s| - rows[row], |s| - rows[lastRow];
            u in Returning(s, rows, row, lastRow) <==>
            u in s[start..end + 1] && u !in s[..start] && u in s[end + 1..]
  {
    hide VisibleUrls, IsIndexOf;
    RemovedUrls(s, rows, hash, row, lastRow, u);
  }

  /** Taking a block out of the source hides the removed rows' URLs, but for those that occur
      again below the block. */
  lemma SurvivorCount(s: seq<Url>, rows: seq<int>, hash: map<Url, int>, row: nat, lastRow: nat,
                      rows': seq<int>, hash': map<Url, int>)
    requires IsIndexOf(s, rows, hash) && row <= lastRow < |rows|
    requires 1 <= rows[lastRow] <= rows[row] <= |s|
    requires IsIndexOf(WithoutBlock(s, rows[row], rows[lastRow]), rows', hash')
    ensures |rows'| == |rows| - (lastRow + 1 - row) + |Returning(s, rows, row, lastRow)|
  {
    hide IsIndexOf, VisibleUrls, Shown;
    VisibleUrlsSize(s, rows, hash, row, lastRow + 1);
    IndexSize(s, rows, hash);
    var start, end := |s| - rows[row], |s| - rows[lastRow];
    var gone := VisibleUrls(s, rows, row, lastRow + 1);
    var above, below := s[..start], s[end + 1..];
    IndexSize(above + below, rows', hash');
    forall u ensures u in gone <==> u in s[start..end + 1] && u !in above {
      RemovedUrls(s, rows, hash, row, lastRow, u);
    }
    BlockOfUrls(s, start, end, gone);
    hide Urls;
    LeftAfterRemoving(Urls(s), gone, Urls(below));
  }

  lemma LeftAfterRemoving(all: set<Url>, gone: set<Url>, back: set<Url>)
    requires gone <= all
    ensures |all - (gone - back)| == |all| - |gone| + |gone * back|
  {
    assert gone == (gone - back) + gone * back;
    assert all == (all - (gone - back)) + (gone - back);
  }

  /** The URLs left when a block goes whose URLs, but for those above it, are `gone`. */
  lemma BlockOfUrls(s: seq<Url>, start: nat, end: nat, gone: set<Url>)
    requires start <= end < |s|
    requires forall u :: u in gone <==> u in s[start..end + 1] && u !in s[..start]
    ensures gone <= Urls(s)
    ensures Urls(s[..start] + s[end + 1..]) == Urls(s) - (gone - Urls(s[end + 1..]))
  {
    assert s == s[..start] + s[start..end + 1] + s[end + 1..];
  }

  class HistoryFilterModel {
    /** The URLs of the source model's rows, newest first. */
    var source: seq<Url>
    var m_sourceRow: seq<int>
    var m_historyHash: map<Url, int>
    var m_loaded: bool

    ghost predicate Valid()
      reads this
    {
      m_loaded ==> IsIndexOf(source, m_sourceRow, m_historyHash)
    }

    constructor (source: seq<Url>)
      ensures Valid() && !m_loaded && this.source == source
    {
      this.source := source;
      m_sourceRow, m_historyHash, m_loaded := [], map[], false;
    }

    /** The rebuild from scratch. */
    method Load()
      requires Valid()
      modifies `m_sourceRow, `m_historyHash, `m_loaded
      ensures m_loaded && IsIndexOf(source, m_sourceRow, m_historyHash)
      ensures old(m_loaded) ==> m_sourceRow == old(m_sourceRow) && m_historyHash == old(m_historyHash)
    {
      if m_loaded {
        return;
      }
      m_sourceRow, m_historyHash := [], map[];
      assert IndexesFirst(source, 0, m_sourceRow, m_historyHash);
      hide IndexesFirst;
      for i := 0 to |source|
        invariant IndexesFirst(source, i, m_sourceRow, m_historyHash)
      {
        var url := source[i];
        LoadStep(source, i, m_sourceRow, m_historyHash);
        if url !in m_historyHash {
          m_sourceRow := m_sourceRow + [|source| - i];
          m_historyHash := m_historyHash[url := |source| - i];
        }
      }
      IndexesAll(source, m_sourceRow, m_historyHash);
      m_loaded := true;
    }

    method RowCount() returns (n: int)
      requires Valid()
      modifies `m_sourceRow, `m_historyHash, `m_loaded
      ensures m_loaded && Valid() && n == |m_historyHash| == |m_sourceRow| == |Urls(source)|
      ensures old(m_loaded) ==> m_sourceRow == old(m_sourceRow) && m_historyHash == old(m_historyHash)
    {
      Load();
      IndexSize(source, m_sourceRow, m_historyHash);
      n := |m_historyHash|;
    }

    /** The search in the list of offsets, for row `row` of the source. */
    method FindVisibleRow(row: nat) returns (r: int)
      requires m_loaded && row < |source|
      ensures source[row] !in m_historyHash || |source| - row !in m_sourceRow ==> r == -1
      ensures source[row] in m_historyHash && |source| - row in m_sourceRow ==>
                0 <= r < |m_sourceRow| && m_sourceRow[r] == |source| - row
    {
      var url := source[row];
      if url !in m_historyHash {
        return -1;
      }
      var sourceModelRow := |source| - row;
      for i := 0 to |m_sourceRow|
        invariant sourceModelRow !in m_sourceRow[..i]
      {
        if m_sourceRow[i] == sourceModelRow {
          return i;
        }
      }
      return -1;
    }

    /** Exactly the newest row of each URL is visible, and it maps back to where it came from. */
    method MapFromSource(row: nat) returns (r: int)
      requires Valid() && row < |source|
      modifies `m_sourceRow, `m_historyHash, `m_loaded
      ensures m_loaded && Valid()
      ensures r == -1 <==> source[row] in source[..row]
      ensures r != -1 ==> 0 <= r < |m_sourceRow| && |source| - m_sourceRow[r] == row
      ensures forall k :: 0 <= k < |m_sourceRow| && |source| - m_sourceRow[k] == row ==> r == k
    {
      Load();
      r := FindVisibleRow(row);
      assert Shown(source, |source| - row) <==> source[row] !in source[..row];
      assert source[row] in Urls(source);
      assert forall k :: 0 <= k < |m_sourceRow| ==> m_sourceRow[k] in m_sourceRow;
    }

    /** The source row behind a visible row, -1 for a row that is not visible. */
    method MapToSource(row: nat) returns (r: int)
      requires Valid()
      modifies `m_sourceRow, `m_historyHash, `m_loaded
      ensures m_loaded && Valid() && (old(m_loaded) ==> m_sourceRow == old(m_sourceRow))
      ensures row < |m_sourceRow| ==> r == |source| - m_sourceRow[row] && 0 <= r < |source| && source[r] !in source[..r]
      ensures row >= |m_sourceRow| ==> r == -1
    {
      Load();
      if row >= |m_sourceRow| {
        return -1;
      }
      assert m_sourceRow[row] in m_sourceRow;
      r := |source| - m_sourceRow[row];
    }

    /** The slot for a row that has just been prepended to the source. */
    method SourceRowsInserted()
      requires source != [] && (m_loaded ==> IsIndexOf(source[1..], m_sourceRow, m_historyHash))
      modifies `m_sourceRow, `m_historyHash
      ensures Valid() && m_loaded == old(m_loaded)
    {
      if !m_loaded {
        return;
      }
      hide Shown;
      var url := source[0];
      ghost var rows, hash := m_sourceRow, m_historyHash;
      if url in m_historyHash {
        ghost var q := OffsetOf(source[1..], url);
        ShownInRange(source[1..], q);
        var sourceRow := |source| - m_historyHash[url];
        ShownAfterPrepend(source, q);
        var realRow := FindVisibleRow(sourceRow);
        RemovedFromDecreasing(rows, realRow);
        m_sourceRow := m_sourceRow[..realRow] + m_sourceRow[realRow + 1..];
        m_historyHash := m_historyHash - {url};
      }
      m_historyHash := m_historyHash[url := |source|];
      assert m_historyHash == hash[url := |source|];
      OffsetsInRange(source[1..], rows, hash);
      m_sourceRow := [|source|] + m_sourceRow;
      PrependKeepsIndex(source, rows, hash, m_sourceRow, m_historyHash);
    }

    /** Prepending and updating in place gives what `load` gives on the new list. */
    method PrependAgreesWithRebuild(url: Url)
      requires Valid() && m_loaded
      modifies this
      ensures Valid() && m_loaded && source == [url] + old(source)
      ensures forall rows, hash :: IsIndexOf(source, rows, hash) ==> m_sourceRow == rows && m_historyHash == hash
    {
      source := [url] + source;
      assert source[1..] == old(source);
      SourceRowsInserted();
      forall rows, hash | IsIndexOf(source, rows, hash)
        ensures m_sourceRow == rows && m_historyHash == hash
      {
        IndexIsUnique(source, m_sourceRow, m_historyHash, rows, hash);
      }
    }

    /** Removes the source rows from visible row `row` to visible row `row + count - 1`, `rows` being the
        index before; as many rows come back as removed URLs occur again further down, and only then
        is the view reset. */
    method RemoveRows(row: int, count: int)
      returns (removed: bool, reset: bool, ghost rows: seq<int>, ghost hash: map<Url, int>)
      requires Valid()
      modifies this
      ensures Valid() && m_loaded
      ensures IsIndexOf(old(source), rows, hash) && (old(m_loaded) ==> rows == old(m_sourceRow))
      ensures removed <==> 0 <= row && 0 < count && row + count <= |rows|
      ensures !removed ==> !reset && source == old(source) && m_sourceRow == rows
      ensures removed ==>
                && 1 <= rows[row + count - 1] <= rows[row] <= |old(source)|
                && source == WithoutBlock(old(source), rows[row], rows[row + count - 1])
                && |source| == |old(source)| - (rows[row] - rows[row + count - 1] + 1)
                && (forall i :: 0 <= i < |source| ==> source[i] == old(source)[
                    if i < |old(source)| - rows[row] then i else i + (rows[row] - rows[row + count - 1] + 1)])
      ensures removed ==>
                var back := Returning(old(source), rows, row, row + count - 1);
                |m_sourceRow| == |rows| - count + |back| && (reset <==> |back| > 0)
    {
      hide Returning, WithoutBlock, IsIndexOf;
      var oldCount := RowCount();
      rows, hash := m_sourceRow, m_historyHash;
      if row < 0 || count <= 0 || row + count > oldCount {
        removed, reset := false, false;
        return;
      }
      ghost var s := source;
      reset := RemoveBlock(row, row + count - 1, oldCount);
      WithoutBlockAt(s, rows[row], rows[row + count - 1]);
      removed := true;
    }

    /** The part of `removeRows` behind its guard. */
    method RemoveBlock(row: nat, lastRow: nat, oldCount: nat) returns (reset: bool)
      requires Valid() && m_loaded && row <= lastRow < oldCount == |m_sourceRow|
      modifies this
      ensures Valid() && m_loaded
      ensures 1 <= old(m_sourceRow[lastRow]) <= old(m_sourceRow[row]) <= old(|source|)
      ensures source == WithoutBlock(old(source), old(m_sourceRow[row]), old(m_sourceRow[lastRow]))
      ensures |m_sourceRow| == oldCount - (lastRow + 1 - row) + |Returning(old(source), old(m_sourceRow), row, lastRow)|
      ensures reset <==> |Returning(old(source), old(m_sourceRow), row, lastRow)| > 0
    {
      ghost var s, rows, hash := source, m_sourceRow, m_historyHash;
      hide Returning, IsIndexOf, VisibleUrls, Shown;
      OffsetsInRange(s, rows, hash);
      assert rows[row] >= rows[lastRow];
      var start := |source| - m_sourceRow[row];
      var end := |source| - m_sourceRow[lastRow];
      source := source[..start] + source[end + 1..];
      m_loaded := false;
      var newCount := RowCount();
      reset := oldCount - (lastRow + 1 - row) != newCount;
      SurvivorCount(s, rows, hash, row, lastRow, m_sourceRow, m_historyHash);
    }
  }
}
