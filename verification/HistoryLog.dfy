/** The history manager: the list of visited pages, newest first, and the append log it is saved
    to. Saving appends only what is new since the last save, which it recognises by one URL. */
module HistoryLog {

  type Chars(==, !new)

  /** A string, of which only equality and emptiness matter here. */
  datatype Text = Empty | Text(chars: Chars)

  datatype QDateTime = InvalidTime | Time(seconds: int)

  datatype HistoryItem = HistoryItem(title: Text, url: Text, dateTime: QDateTime)

  datatype Record = Record(version: int, item: HistoryItem)

  const HISTORY_VERSION := 23
  const DAY := 86400

  const NoItem := HistoryItem(Empty, Empty, InvalidTime)

  /** `m_history.value(0)`: the newest entry, or a default one. */
  function Newest(h: seq<HistoryItem>): HistoryItem {
    if h == [] then NoItem else h[0]
  }

  // ---- Reading the log -------------------------------------------------------------------------

  /** What `load` has after some records. */
  datatype Loading = Loading(list: seq<HistoryItem>, last: HistoryItem, needToSort: bool)

  const Start := Loading([], NoItem, false)

  /** `last < item` in the reversed order of the list: the record is older than the one before it. */
  predicate Older(item: HistoryItem, last: HistoryItem) {
    item.dateTime.Time? && last.dateTime.Time? && last.dateTime.seconds > item.dateTime.seconds
  }

  function Step(st: Loading, r: Record): Loading {
    if r.version != HISTORY_VERSION || r.item.dateTime.InvalidTime? then st
    else if r.item == st.last then
      if st.last.title.Empty? && st.list != []
      then st.(list := [st.list[0].(title := r.item.title)] + st.list[1..])
      else st
    else
      Loading([r.item] + st.list, r.item, st.needToSort || (st.list != [] && Older(r.item, st.last)))
  }

  function LoadFrom(st: Loading, records: seq<Record>): Loading
    decreases |records|
  {
    if records == [] then st else Step(LoadFrom(st, records[..|records| - 1]), records[|records| - 1])
  }

  lemma {:induction false} LoadFromConcat(st: Loading, a: seq<Record>, b: seq<Record>)
    ensures LoadFrom(st, a + b) == LoadFrom(LoadFrom(st, a), b)
    decreases |b|
  {
    if b == [] {
      assert a + b == a;
    } else {
      var n := |b| - 1;
      assert (a + b)[..|a + b| - 1] == a + b[..n];
      LoadFromConcat(st, a, b[..n]);
    }
  }

  /** Reading the file gives exactly the list `h`, with no need to sort. */
  predicate Reads(file: seq<Record>, h: seq<HistoryItem>) {
    LoadFrom(Start, file) == Loading(h, Newest(h), false)
  }

  /** Entries with valid times, newest first, no entry twice in a row. */
  predicate Loadable(h: seq<HistoryItem>) {
    h == [] || (h[0].dateTime.Time? && Loadable(h[1..])
                && (|h| > 1 ==> h[0] != h[1] && !Older(h[0], h[1])))
  }

  /** The records written for `h`, oldest entry first. */
  function Log(h: seq<HistoryItem>): seq<Record> {
    if h == [] then [] else Log(h[1..]) + [Record(HISTORY_VERSION, h[0])]
  }

  /** What has been read without a need to sort can be read again. */
  lemma {:induction false} LoadedIsLoadable(records: seq<Record>)
    ensures var st := LoadFrom(Start, records);
            st.last == Newest(st.list) && (!st.needToSort ==> Loadable(st.list))
  {
    if records != [] {
      LoadedIsLoadable(records[..|records| - 1]);
      var st, r := LoadFrom(Start, records[..|records| - 1]), records[|records| - 1];
      hide LoadFrom;
      assert st.list != [] ==> [st.list[0]] + st.list[1..] == st.list;
      assert ([r.item] + st.list)[1..] == st.list;
    }
  }

  /** Reading the records of `a` after those of a readable list puts `a` in front of it, exactly if
      the whole is readable; it never adds more than one entry a record. */
  lemma {:induction false} LoadLog(st: Loading, a: seq<HistoryItem>)
    requires st == Loading(st.list, Newest(st.list), false) && Loadable(st.list)
    ensures |LoadFrom(st, Log(a)).list| <= |a| + |st.list|
    ensures LoadFrom(st, Log(a)).last == Newest(LoadFrom(st, Log(a)).list)
    ensures LoadFrom(st, Log(a)) == Loading(a + st.list, Newest(a + st.list), false) <==> Loadable(a + st.list)
  {
    if a == [] {
      assert a + st.list == st.list;
    } else {
      LoadLog(st, a[1..]);
      var r := Record(HISTORY_VERSION, a[0]);
      LoadFromConcat(st, Log(a[1..]), [r]);
      LoadOne(LoadFrom(st, Log(a[1..])), r);
      assert (a + st.list)[1..] == a[1..] + st.list;
      LoadNext(LoadFrom(st, Log(a[1..])), a[0], a[1..] + st.list);
      assert [a[0]] + (a[1..] + st.list) == a + st.list;
    }
  }

  lemma LoadOne(st: Loading, r: Record)
    ensures LoadFrom(st, [r]) == Step(st, r)
  {
    assert [r][..0] == [];
    assert LoadFrom(st, []) == st;
  }

  lemma LoadableCons(x: HistoryItem, h: seq<HistoryItem>)
    ensures Loadable([x] + h) <==>
            x.dateTime.Time? && Loadable(h) && (h != [] ==> x != h[0] && !Older(x, h[0]))
  {
    assert ([x] + h)[1..] == h;
  }

  lemma LoadNext(st: Loading, x: HistoryItem, h: seq<HistoryItem>)
    requires |st.list| <= |h| && st.last == Newest(st.list)
    requires st == Loading(h, Newest(h), false) <==> Loadable(h)
    ensures var next := Step(st, Record(HISTORY_VERSION, x));
            && |next.list| <= |h| + 1 && next.last == Newest(next.list)
            && (next == Loading([x] + h, x, false) <==> Loadable([x] + h))
  {
    LoadableCons(x, h);
    hide Loadable;
    var next := Step(st, Record(HISTORY_VERSION, x));
    if x.dateTime.Time? && x != st.last {
      assert next.list == [x] + st.list;
      assert next.list == [x] + h <==> st.list == h by {
        assert next.list[1..] == st.list && ([x] + h)[1..] == h;
      }
    } else {
      assert |next.list| <= |h|;
      assert next.list != [x] + h;
      assert st.list != [] ==> [st.list[0]] + st.list[1..] == st.list;
    }
  }

  lemma {:induction false} LoadablePrefix(a: seq<HistoryItem>, b: seq<HistoryItem>)
    ensures Loadable(a + b) ==> Loadable(a)
  {
    hide Loadable;
    if a == [] {
      NothingIsLoadable();
    } else {
      LoadablePrefix(a[1..], b);
      assert a == [a[0]] + a[1..] && a + b == [a[0]] + (a[1..] + b);
      LoadableCons(a[0], a[1..]);
      LoadableCons(a[0], a[1..] + b);
    }
  }

  lemma NothingIsLoadable()
    ensures Loadable([])
  {
  }

  /** Two readable lists that overlap make a readable list. */
  lemma {:induction false} LoadableOverlap(a: seq<HistoryItem>, b: seq<HistoryItem>, c: seq<HistoryItem>)
    requires b != [] && Loadable(b + c)
    ensures Loadable(a + (b + c)) <==> Loadable(a + b)
  {
    hide Loadable;
    if a == [] {
      LoadablePrefix(b, c);
      assert [] + b == b && [] + (b + c) == b + c;
    } else {
      LoadableOverlap(a[1..], b, c);
      assert a + b == [a[0]] + (a[1..] + b) && a + (b + c) == [a[0]] + (a[1..] + (b + c));
      LoadableCons(a[0], a[1..] + b);
      LoadableCons(a[0], a[1..] + (b + c));
      assert (a[1..] + b)[0] == (a[1..] + (b + c))[0];
    }
  }

  /** What a file reads as, and whether it has to be sorted. */
  function Filed(file: seq<Record>): seq<HistoryItem> {
    LoadFrom(Start, file).list
  }

  predicate Unsorted(file: seq<Record>) {
    LoadFrom(Start, file).needToSort
  }

  lemma ReadsIsFiled(file: seq<Record>, h: seq<HistoryItem>)
    ensures Reads(file, h) <==> !Unsorted(file) && Filed(file) == h
    ensures AllTimed(Filed(file)) && (!Unsorted(file) ==> Loadable(Filed(file)))
    ensures Reads(file, h) ==> Loadable(h)
  {
    hide LoadFrom, Loadable;
    LoadedIsLoadable(file);
    LoadedIsTimed(file);
  }

  // ---- Expiry ----------------------------------------------------------------------------------

  /** Seconds until an entry expires, or a week when that is more than seven days away. */
  function Timeout(item: HistoryItem, now: int, limit: int): int
    requires item.dateTime.Time?
  {
    var check := item.dateTime.seconds + limit * DAY;
    if check / DAY - now / DAY > 7 then 7 * DAY else check - now
  }

  predicate Expired(item: HistoryItem, now: int, limit: int)
    requires item.dateTime.Time?
  {
    item.dateTime.seconds + limit * DAY <= now
  }

  /** How long the timer waits for a time, in seconds: a week at most when that is more than seven days
      away. */
  function Until(time: int, now: int): int {
    if time / 86400 - now / 86400 > 7 then 604800 else time - now
  }

  predicate ExpiredOne(item: HistoryItem, now: int, limit: int) {
    item.dateTime.Time? && Expired(item, now, limit)
  }

  /** The capped timeout decides expiry as the uncapped one would, and fits the timer. */
  lemma TimeoutDecides(item: HistoryItem, now: int, limit: int)
    requires item.dateTime.Time?
    ensures Timeout(item, now, limit) <= 0 <==> Expired(item, now, limit)
    ensures Timeout(item, now, limit) * 1000 < 8 * DAY * 1000 < 0x8000_0000
  {
  }

  lemma TimeoutIs(item: HistoryItem, now: int, limit: int)
    requires item.dateTime.Time?
    ensures Timeout(item, now, limit) == Until(item.dateTime.seconds + limit * 86400, now)
  {
  }

  predicate AllTimed(h: seq<HistoryItem>) {
    forall i :: 0 <= i < |h| ==> h[i].dateTime.Time?
  }

  /** The list without its expired end. */
  function Unexpired(h: seq<HistoryItem>, now: int, limit: int): (r: seq<HistoryItem>)
    requires AllTimed(h)
    ensures r <= h
  {
    if h == [] || !Expired(h[|h| - 1], now, limit) then h else Unexpired(h[..|h| - 1], now, limit)
  }

  /** The entries that have not expired, wherever they stand. */
  function Living(h: seq<HistoryItem>, now: int, limit: int): seq<HistoryItem>
    requires AllTimed(h)
  {
    if h == [] then []
    else Living(h[..|h| - 1], now, limit) + if Expired(h[|h| - 1], now, limit) then [] else [h[|h| - 1]]
  }

  /** No expired entry stands above one that has not expired. */
  predicate ExpiredAtEnd(h: seq<HistoryItem>, now: int, limit: int)
    requires AllTimed(h)
  {
    forall i, j :: 0 <= i < j < |h| && Expired(h[i], now, limit) ==> Expired(h[j], now, limit)
  }

  lemma {:induction false} LivingSize(h: seq<HistoryItem>, now: int, limit: int)
    requires AllTimed(h)
    ensures |Living(h, now, limit)| <= |h|
    ensures |Living(h, now, limit)| == |h| <==> forall i :: 0 <= i < |h| ==> !Expired(h[i], now, limit)
    ensures |Living(h, now, limit)| == |h| ==> Living(h, now, limit) == h
  {
    if h != [] {
      LivingSize(h[..|h| - 1], now, limit);
    }
  }

  lemma ExpiredBelow(h: seq<HistoryItem>, now: int, limit: int)
    requires AllTimed(h) && h != [] && Expired(h[|h| - 1], now, limit)
    ensures AllTimed(h[..|h| - 1]) && (ExpiredAtEnd(h, now, limit) <==> ExpiredAtEnd(h[..|h| - 1], now, limit))
  {
    var front := h[..|h| - 1];
    assert forall i :: 0 <= i < |front| ==> front[i] == h[i];
  }

  /** Expiry keeps exactly the living entries if and only if the expired ones stand at the end. */
  lemma {:induction false} ExpiryKeepsLiving(h: seq<HistoryItem>, now: int, limit: int)
    requires AllTimed(h)
    ensures Unexpired(h, now, limit) == Living(h, now, limit) <==> ExpiredAtEnd(h, now, limit)
  {
    if h != [] {
      var n := |h| - 1;
      if Expired(h[n], now, limit) {
        ExpiryKeepsLiving(h[..n], now, limit);
        assert Living(h, now, limit) == Living(h[..n], now, limit);
        ExpiredBelow(h, now, limit);
      } else {
        LivingSize(h, now, limit);
      }
    }
  }

  predicate NewestFirst(h: seq<HistoryItem>)
    requires AllTimed(h)
  {
    h == [] || (NewestFirst(h[1..]) && (|h| > 1 ==> h[0].dateTime.seconds >= h[1].dateTime.seconds))
  }

  lemma {:induction false} NewestFirstPairs(h: seq<HistoryItem>, i: nat, j: nat)
    requires AllTimed(h) && NewestFirst(h) && i <= j < |h|
    ensures h[i].dateTime.seconds >= h[j].dateTime.seconds
  {
    if i > 0 {
      NewestFirstPairs(h[1..], i - 1, j - 1);
    } else if j > 0 {
      NewestFirstPairs(h[1..], 0, j - 1);
    }
  }

  /** A list with the newest entry first has them at the end. */
  lemma NewestFirstExpiresAtEnd(h: seq<HistoryItem>, now: int, limit: int)
    requires AllTimed(h) && NewestFirst(h)
    ensures ExpiredAtEnd(h, now, limit)
  {
    forall i, j | 0 <= i < j < |h| && Expired(h[i], now, limit) ensures Expired(h[j], now, limit) {
      NewestFirstPairs(h, i, j);
    }
  }

  /** A readable list is one with valid times, the newest entry first, and no entry twice in a row. */
  lemma {:induction false} LoadableMeans(h: seq<HistoryItem>)
    ensures Loadable(h) <==>
            && AllTimed(h) && NewestFirst(h)
            && (forall j, k :: 0 <= j < |h| && k == j + 1 < |h| ==> h[j] != h[k])
  {
    if h != [] {
      LoadableMeans(h[1..]);
      assert forall j :: 0 <= j < |h[1..]| ==> h[1..][j] == h[j + 1];
      if AllTimed(h[1..]) && h[0].dateTime.Time? {
        assert AllTimed(h);
      }
      if forall j, k :: 0 <= j < |h| && k == j + 1 < |h| ==> h[j] != h[k] {
        forall j, k | 0 <= j < |h[1..]| && k == j + 1 < |h[1..]|
          ensures h[1..][j] != h[1..][k]
        {
          assert h[j + 1] != h[k + 1];
        }
      }
      if forall j, k :: 0 <= j < |h[1..]| && k == j + 1 < |h[1..]| ==> h[1..][j] != h[1..][k] {
        forall j, k | 1 <= j < |h| && k == j + 1 < |h|
          ensures h[j] != h[k]
        {
          assert h[1..][j - 1] != h[1..][k - 1];
        }
      }
    }
  }

  lemma {:induction false} NewestFirstPrefix(h: seq<HistoryItem>, n: nat)
    requires AllTimed(h) && NewestFirst(h) && n <= |h|
    ensures AllTimed(h[..n]) && NewestFirst(h[..n])
  {
    if n > 0 {
      NewestFirstPrefix(h[1..], n - 1);
      assert h[..n][1..] == h[1..][..n - 1];
    }
  }

  lemma NewestUrl(h: seq<HistoryItem>)
    ensures Newest(h).url == if h == [] then Empty else h[0].url
  {
  }

  /** What expiry leaves of a list with the newest entry first. */
  lemma InOrder(h: seq<HistoryItem>, now: int, limit: int)
    requires AllTimed(h) && NewestFirst(h)
    ensures var kept := Kept(h, now, limit);
            forall j, k :: 0 <= j <= k < |kept| ==>
              && kept[j].dateTime.Time? && kept[k].dateTime.Time?
              && kept[j].dateTime.seconds >= kept[k].dateTime.seconds
  {
    hide Kept;
    KeptMeans(h, now, limit);
    var kept := Kept(h, now, limit);
    forall j, k | 0 <= j <= k < |kept|
      ensures h[j].dateTime.seconds >= h[k].dateTime.seconds
    {
      NewestFirstPairs(h, j, k);
    }
  }

  // ---- What a file reads as, by its records ------------------------------------------------------

  /** The items of the records that are looked at, in the order of the file. */
  function Items(file: seq<Record>): seq<HistoryItem> {
    if file == [] then []
    else
      var r := file[|file| - 1];
      Items(file[..|file| - 1]) + if r.version == 23 && r.item.dateTime != InvalidTime then [r.item] else []
  }

  /** Without those that repeat the one before. */
  function Once(items: seq<HistoryItem>): seq<HistoryItem> {
    if |items| < 2 then items
    else
      var n := |items| - 1;
      Once(items[..n]) + if items[n] == items[n - 1] then [] else [items[n]]
  }

  function Reversed(items: seq<HistoryItem>): (r: seq<HistoryItem>)
    ensures |r| == |items| && forall k :: 0 <= k < |r| ==> r[k] == items[|items| - 1 - k]
  {
    if items == [] then [] else [items[|items| - 1]] + Reversed(items[..|items| - 1])
  }

  /** Some item is older than one before it in the file. */
  predicate TimeGoesBack(items: seq<HistoryItem>)
    requires AllTimed(items)
  {
    exists j, k :: 0 <= j < k < |items| && items[j].dateTime.seconds > items[k].dateTime.seconds
  }

  /** Reading a file gives the items of its records, the last one first, without repetitions; it needs
      to be sorted if and only if time goes back in it. */
  lemma {:induction false} FileReadsAs(file: seq<Record>)
    ensures AllTimed(Items(file)) && Filed(file) == Reversed(Once(Items(file)))
    ensures Unsorted(file) <==> TimeGoesBack(Items(file))
  {
    hide Once, Reversed, TimeGoesBack, Loadable;
    OnceStep([], NoItem);
    NeverBack([]);
    if file != [] {
      var n := |file| - 1;
      var r, items, st := file[n], Items(file[..n]), LoadFrom(Start, file[..n]);
      FileReadsAs(file[..n]);
      LoadedIsLoadable(file[..n]);
      assert LoadFrom(Start, file) == Step(st, r);
      assert st.list == Filed(file[..n]) && st.needToSort == Unsorted(file[..n]);
      assert r.version == 23 && r.item.dateTime.Time? ==> Items(file) == items + [r.item];
      assert !(r.version == 23 && r.item.dateTime.Time?) ==> Items(file) == items + [] == items;
      hide LoadFrom, Items;
      NewestOfOnce(items);
      RecordRead(st, r, items);
    }
  }

  lemma RecordRead(st: Loading, r: Record, items: seq<HistoryItem>)
    requires AllTimed(items) && st.list == Reversed(Once(items)) && st.last == Newest(st.list)
    requires st.needToSort <==> TimeGoesBack(items)
    ensures r.version == 23 && r.item.dateTime.Time? ==>
              && Step(st, r).list == Reversed(Once(items + [r.item])) && AllTimed(items + [r.item])
              && (Step(st, r).needToSort <==> TimeGoesBack(items + [r.item]))
    ensures !(r.version == 23 && r.item.dateTime.Time?) ==> Step(st, r) == st
  {
    hide Once, Reversed, TimeGoesBack;
    NewestOfOnce(items);
    if r.version == 23 && r.item.dateTime.Time? {
      OnceStep(items, r.item);
      TimeStep(items, r.item);
      assert st.list != [] ==> [st.list[0]] + st.list[1..] == st.list;
    }
  }

  lemma NeverBack(items: seq<HistoryItem>)
    ensures items == [] ==> AllTimed(items) && !TimeGoesBack(items)
  {
  }

  lemma {:induction false} NewestOfOnce(items: seq<HistoryItem>)
    ensures Newest(Reversed(Once(items))) == if items == [] then NoItem else items[|items| - 1]
    ensures Reversed(Once(items)) == [] <==> items == []
  {
    hide Once, Reversed;
    if items == [] {
      OnceStep([], NoItem);
    } else {
      var front, x := items[..|items| - 1], items[|items| - 1];
      assert items == front + [x];
      OnceStep(front, x);
      NewestOfOnce(front);
    }
  }

  lemma TimeStep(items: seq<HistoryItem>, x: HistoryItem)
    requires AllTimed(items) && x.dateTime.Time?
    ensures AllTimed(items + [x])
    ensures TimeGoesBack(items + [x]) <==>
            TimeGoesBack(items) || (items != [] && items[|items| - 1].dateTime.seconds > x.dateTime.seconds)
  {
    var all, n := items + [x], |items|;
    if TimeGoesBack(items) {
      var j, k :| 0 <= j < k < n && items[j].dateTime.seconds > items[k].dateTime.seconds;
      assert all[j].dateTime.seconds > all[k].dateTime.seconds;
    } else if n > 0 && items[n - 1].dateTime.seconds > x.dateTime.seconds {
      assert all[n - 1].dateTime.seconds > all[n].dateTime.seconds;
    }
  }

  lemma OnceStep(items: seq<HistoryItem>, x: HistoryItem)
    ensures Reversed(Once([])) == []
    ensures Reversed(Once(items + [x])) ==
            if items != [] && items[|items| - 1] == x then Reversed(Once(items)) else [x] + Reversed(Once(items))
  {
    assert (items + [x])[..|items|] == items;
    assert items == [] ==> items + [x] == [x] && Once([x]) == [x];
    var s := Once(items);
    assert (s + [x])[..|s|] == s && s + [] == s;
  }

  /** Entries that have expired. */
  predicate Gone(h: seq<HistoryItem>, now: int, limit: int) {
    AllTimed(h) && (h != [] ==> limit >= 0 && forall i :: 0 <= i < |h| ==> Expired(h[i], now, limit))
  }

  /** What expiry leaves; a negative limit keeps everything. */
  function Kept(h: seq<HistoryItem>, now: int, limit: int): seq<HistoryItem>
    requires AllTimed(h)
  {
    if limit < 0 then h else Unexpired(h, now, limit)
  }

  /** Expired entries below the list make no difference to expiry. */
  lemma {:induction false} KeptAboveGone(h: seq<HistoryItem>, gone: seq<HistoryItem>, now: int, limit: int)
    requires AllTimed(h) && Gone(gone, now, limit)
    ensures AllTimed(h + gone) && Kept(h + gone, now, limit) == Kept(h, now, limit)
    decreases |gone|
  {
    if gone == [] {
      assert h + gone == h;
    } else {
      var n := |gone| - 1;
      KeptAboveGone(h, gone[..n], now, limit);
      assert (h + gone)[..|h| + n] == h + gone[..n] && (h + gone)[|h| + n] == gone[n];
    }
  }

  lemma GoneLater(h: seq<HistoryItem>, now: int, later: int, limit: int)
    requires Gone(h, now, limit) && now <= later
    ensures Gone(h, later, limit)
  {
  }

  /** The same visits; the title may differ for a page without a URL. */
  predicate SameButTitles(a: seq<HistoryItem>, b: seq<HistoryItem>) {
    && |a| == |b|
    && forall i :: 0 <= i < |a| ==>
         a[i].url == b[i].url && a[i].dateTime == b[i].dateTime && (a[i].url == Empty || a[i] == b[i])
  }

  // ---- What the file holds -----------------------------------------------------------------------

  /** The oldest `saved` entries of the list `h`. */
  function Oldest(h: seq<HistoryItem>, saved: nat): seq<HistoryItem>
    requires saved <= |h|
  {
    h[|h| - saved..]
  }

  /** The list does not end with an entry that had expired when expiry was last looked at. */
  predicate EndLives(h: seq<HistoryItem>, at: int, limit: int)
    requires AllTimed(h)
  {
    h != [] && limit >= 0 ==> !Expired(h[|h| - 1], at, limit)
  }

  /** A file that need not be sorted reads as the oldest `saved` entries and `dropped` below them,
      which have expired; pages without a URL may have had other titles. */
  predicate Holds(file: seq<Record>, h: seq<HistoryItem>, saved: nat, dropped: seq<HistoryItem>, at: int, limit: int) {
    && AllTimed(h) && saved <= |h| && Gone(dropped, at, limit)
    && (!Unsorted(file) ==>
          && |Filed(file)| == saved + |dropped| && Filed(file)[saved..] == dropped
          && SameButTitles(Filed(file)[..saved], Oldest(h, saved)))
  }

  /** A page without a URL has had another title since it was saved. */
  predicate Retitled(file: seq<Record>, h: seq<HistoryItem>, saved: nat) {
    !Unsorted(file) && saved <= |Filed(file)| && saved <= |h| && Filed(file)[..saved] != Oldest(h, saved)
  }

  lemma HoldsLater(file: seq<Record>, h: seq<HistoryItem>, saved: nat, dropped: seq<HistoryItem>, at: int, now: int,
                   limit: int)
    requires Holds(file, h, saved, dropped, at, limit) && at <= now
    ensures Holds(file, h, saved, dropped, now, limit)
  {
    hide LoadFrom, SameButTitles;
    GoneLater(dropped, at, now, limit);
  }

  lemma KeptMeans(h: seq<HistoryItem>, now: int, limit: int)
    requires AllTimed(h)
    ensures var kept := Kept(h, now, limit);
            && kept <= h && AllTimed(kept) && (limit < 0 || h == [] ==> kept == h && EndLives(kept, now, limit))
            && (limit >= 0 ==>
                  && (forall i :: |kept| <= i < |h| ==> h[i].dateTime.seconds + limit * 86400 <= now)
                  && (kept != [] ==> kept[|kept| - 1].dateTime.seconds + limit * 86400 > now))
  {
    hide Unexpired;
    UnexpiredMeans(h, now, limit);
    UnexpiredEnd(h, now, limit);
  }

  lemma {:induction false} UnexpiredMeans(h: seq<HistoryItem>, now: int, limit: int)
    requires AllTimed(h)
    ensures var kept := Unexpired(h, now, limit);
            && (forall i :: |kept| <= i < |h| ==> h[i].dateTime.seconds + limit * 86400 <= now)
            && (kept != [] ==> h[|kept| - 1].dateTime.seconds + limit * 86400 > now)
  {
    if h != [] && Expired(h[|h| - 1], now, limit) {
      UnexpiredMeans(h[..|h| - 1], now, limit);
    }
  }

  /** Expiry looks at the oldest entry only. */
  lemma UnexpiredEnd(h: seq<HistoryItem>, now: int, limit: int)
    requires AllTimed(h)
    ensures h == [] ==> Unexpired(h, now, limit) == h && EndLives(h, now, limit)
    ensures h != [] ==>
              var last := h[|h| - 1];
              && last.dateTime.Time? && AllTimed(h[..|h| - 1])
              && (Expired(last, now, limit) ==> Unexpired(h, now, limit) == Unexpired(h[..|h| - 1], now, limit))
              && (!Expired(last, now, limit) ==> Unexpired(h, now, limit) == h && EndLives(h, now, limit))
    ensures limit < 0 ==> EndLives(h, now, limit)
  {
  }

  /** At another time and with another limit. */
  lemma HoldsAt(file: seq<Record>, h: seq<HistoryItem>, saved: nat, dropped: seq<HistoryItem>, at: int, limit: int,
                now: int, limit': int)
    requires Holds(file, h, saved, dropped, at, limit) && Gone(dropped, now, limit')
    ensures Holds(file, h, saved, dropped, now, limit')
  {
    hide LoadFrom, SameButTitles, Gone;
  }

  predicate EndsWith(a: seq<HistoryItem>, end: seq<HistoryItem>) {
    |end| <= |a| && a[|a| - |end|..] == end
  }

  lemma EndsWithSelf(a: seq<HistoryItem>)
    ensures EndsWith(a, a)
  {
  }

  lemma EndsWithMore(a: seq<HistoryItem>, b: seq<HistoryItem>, c: seq<HistoryItem>)
    requires EndsWith(a, b) && EndsWith(b, c)
    ensures EndsWith(a, c)
  {
    assert a[|a| - |c|..] == a[|a| - |b|..][|b| - |c|..];
  }

  lemma GoneAtEnd(a: seq<HistoryItem>, end: seq<HistoryItem>, now: int, limit: int)
    requires Gone(a, now, limit) && EndsWith(a, end)
    ensures Gone(end, now, limit)
  {
    assert forall i :: 0 <= i < |end| ==> end[i] == a[|a| - |end| + i];
  }

  lemma HoldsTimed(file: seq<Record>, h: seq<HistoryItem>, saved: nat, dropped: seq<HistoryItem>, at: int, limit: int)
    requires Holds(file, h, saved, dropped, at, limit)
    ensures AllTimed(h) && saved <= |h| && Gone(dropped, at, limit)
  {
  }

  lemma HoldsBelow(file: seq<Record>, h: seq<HistoryItem>, x: HistoryItem, saved: nat, dropped: seq<HistoryItem>,
                   at: int, limit: int)
    requires Holds(file, h, saved, dropped, at, limit) && x.dateTime.Time?
    ensures Holds(file, [x] + h, saved, dropped, at, limit)
    ensures Oldest([x] + h, saved) == Oldest(h, saved) && Retitled(file, [x] + h, saved) == Retitled(file, h, saved)
  {
    hide LoadFrom, SameButTitles, Gone;
    assert ([x] + h)[1 + |h| - saved..] == h[|h| - saved..];
  }

  /** The oldest entry becomes one that only the file holds. */
  lemma HoldsDropped(file: seq<Record>, h: seq<HistoryItem>, saved: nat, dropped: seq<HistoryItem>, at: int, limit: int)
    requires Holds(file, h, saved, dropped, at, limit) && saved > 0 && limit >= 0 && Expired(h[|h| - 1], at, limit)
    requires !Unsorted(file)
    ensures saved <= |Filed(file)|
    ensures Holds(file, h[..|h| - 1], saved - 1, [Filed(file)[saved - 1]] + dropped, at, limit)
    ensures Retitled(file, h[..|h| - 1], saved - 1) ==> Retitled(file, h, saved)
  {
    ReadsIsFiled(file, []);
    hide LoadFrom, Filed, Unsorted, SameButTitles;
    var filed, h' := Filed(file), h[..|h| - 1];
    SameParts(filed[..saved], Oldest(h, saved), saved - 1);
    assert filed[..saved][..saved - 1] == filed[..saved - 1];
    OldestShorter(h, saved);
    assert filed[saved - 1..] == [filed[saved - 1]] + dropped;
    assert filed[..saved][saved - 1] == filed[saved - 1] && Oldest(h, saved)[saved - 1] == h[|h| - 1];
  }

  lemma OldestShorter(h: seq<HistoryItem>, saved: nat)
    requires 0 < saved <= |h|
    ensures Oldest(h[..|h| - 1], saved - 1) == Oldest(h, saved)[..saved - 1]
  {
  }

  lemma SameParts(a: seq<HistoryItem>, b: seq<HistoryItem>, n: nat)
    requires SameButTitles(a, b) && n < |a|
    ensures SameButTitles(a[..n], b[..n]) && a[n].dateTime == b[n].dateTime
  {
  }

  /** An entry that only the list holds goes. */
  lemma HoldsShorter(file: seq<Record>, h: seq<HistoryItem>, dropped: seq<HistoryItem>, at: int, limit: int)
    requires Holds(file, h, 0, dropped, at, limit) && h != []
    ensures Holds(file, h[..|h| - 1], 0, dropped, at, limit) && !Retitled(file, h[..|h| - 1], 0)
  {
    hide LoadFrom;
  }

  /** With a file that has to be sorted only sizes matter. */
  lemma HoldsUnsorted(file: seq<Record>, h: seq<HistoryItem>, saved: nat, dropped: seq<HistoryItem>, at: int,
                      limit: int)
    requires Holds(file, h, saved, dropped, at, limit) && Unsorted(file) && h != [] && saved > 0
    ensures Holds(file, h[..|h| - 1], saved - 1, dropped, at, limit) && !Retitled(file, h[..|h| - 1], saved - 1)
  {
    hide LoadFrom;
  }

  /** A list just read. */
  lemma HoldsAll(file: seq<Record>, list: seq<HistoryItem>, at: int, limit: int)
    requires AllTimed(list) && (!Unsorted(file) ==> list == Filed(file))
    ensures var saved := if Unsorted(file) then 0 else |list|;
            Holds(file, list, saved, [], at, limit) && !Retitled(file, list, saved)
  {
    hide LoadFrom;
    assert list[|list|..] == [] && list[..|list|] == list && list[0..] == list;
  }

  /** Without other titles the file reads as those entries. */
  lemma HoldsExactly(file: seq<Record>, h: seq<HistoryItem>, saved: nat, dropped: seq<HistoryItem>, at: int, limit: int)
    requires Holds(file, h, saved, dropped, at, limit) && !Unsorted(file) && !Retitled(file, h, saved)
    ensures Filed(file) == Oldest(h, saved) + dropped && Reads(file, Oldest(h, saved) + dropped)
  {
    hide LoadFrom, SameButTitles;
    ReadsIsFiled(file, Oldest(h, saved) + dropped);
    assert Filed(file) == Filed(file)[..saved] + Filed(file)[saved..];
  }

  lemma HoldsWhole(file: seq<Record>, h: seq<HistoryItem>, dropped: seq<HistoryItem>, at: int, limit: int)
    requires Holds(file, h, |h|, dropped, at, limit) && !Unsorted(file) && !Retitled(file, h, |h|)
    ensures Filed(file) == h + dropped
  {
    hide LoadFrom, Holds, Filed, Unsorted, Retitled, Reads;
    HoldsExactly(file, h, |h|, dropped, at, limit);
    assert h[0..] == h;
  }

  /** A file that reads as the whole list, and expired entries below. */
  lemma ReadHolds(file: seq<Record>, h: seq<HistoryItem>, dropped: seq<HistoryItem>, at: int, limit: int)
    requires AllTimed(h) && Gone(dropped, at, limit) && Reads(file, h + dropped)
    ensures !Unsorted(file) && Holds(file, h, |h|, dropped, at, limit) && !Retitled(file, h, |h|)
  {
    hide LoadFrom;
    ReadsIsFiled(file, h + dropped);
    assert (h + dropped)[|h|..] == dropped && (h + dropped)[..|h|] == h && h[0..] == h;
  }

  lemma EndsBefore(filed: seq<HistoryItem>, a: nat, b: nat, last: HistoryItem, at: int, limit: int)
    requires 0 < a <= |filed| && b <= |filed| && last.dateTime.Time? && filed[a - 1].dateTime == last.dateTime
    requires limit >= 0 ==> !Expired(last, at, limit)
    ensures Gone(filed[b..], at, limit) ==> a <= b
  {
    if b < a {
      assert filed[b..][a - 1 - b] == filed[a - 1];
    }
  }

  // ---- What a title change does to it -------------------------------------------------------------

  function WithTitle(h: seq<HistoryItem>, i: nat, title: Text): seq<HistoryItem>
    requires i < |h|
  {
    h[i := h[i].(title := title)]
  }

  lemma TitleInPart(h: seq<HistoryItem>, i: nat, title: Text, f: nat)
    requires i < |h| && f <= |h|
    ensures |WithTitle(h, i, title)| == |h|
    ensures WithTitle(h, i, title)[f..] == h[f..] <==> i < f || title == h[i].title
  {
    var h' := WithTitle(h, i, title);
    if f <= i {
      assert h'[f..][i - f] == h'[i] && h[f..][i - f] == h[i];
    }
  }

  /** A title that leaves the file as good as it was. */
  lemma HoldsWithTitle(file: seq<Record>, h: seq<HistoryItem>, saved: nat, dropped: seq<HistoryItem>, at: int,
                       limit: int, i: nat, title: Text)
    requires Holds(file, h, saved, dropped, at, limit) && EndLives(h, at, limit) && i < |h|
    requires i < |h| - saved || title == h[i].title || h[i].url == Empty
    ensures Holds(file, WithTitle(h, i, title), saved, dropped, at, limit)
    ensures EndLives(WithTitle(h, i, title), at, limit)
    ensures i < |h| - saved || title == h[i].title ==>
              (Retitled(file, WithTitle(h, i, title), saved) <==> Retitled(file, h, saved))
  {
    hide LoadFrom, Gone;
    TitleInPart(h, i, title, |h| - saved);
    if !(i < |h| - saved || title == h[i].title) {
      var a, b := Oldest(h, saved), Oldest(WithTitle(h, i, title), saved);
      var k := i - (|h| - saved);
      assert forall j :: 0 <= j < saved && j != k ==> b[j] == a[j];
      assert b[k] == a[k].(title := title) && a[k].url == Empty;
    }
  }

  // ---- What a save makes of it --------------------------------------------------------------------

  /** The file reads as the list, and below it as entries that have expired. */
  ghost predicate ReadsAs(file: seq<Record>, h: seq<HistoryItem>, at: int, limit: int) {
    exists gone :: Gone(gone, at, limit) && Reads(file, h + gone)
  }

  lemma ReadsAsMeans(file: seq<Record>, h: seq<HistoryItem>, at: int, limit: int)
    ensures ReadsAs(file, h, at, limit) <==>
            !Unsorted(file) && h <= Filed(file) && Gone(Filed(file)[|h|..], at, limit)
  {
    hide Gone, Reads, Filed, Unsorted;
    if ReadsAs(file, h, at, limit) {
      var gone :| Gone(gone, at, limit) && Reads(file, h + gone);
      ReadsIsFiled(file, h + gone);
      assert (h + gone)[|h|..] == gone;
    }
    if h <= Filed(file) {
      ReadsIsFiled(file, h + Filed(file)[|h|..]);
      assert h + Filed(file)[|h|..] == Filed(file);
    }
  }

  /** Records only ever add entries in front, at most one each, and never undo the need to sort. */
  lemma {:induction false} LogGrows(st: Loading, a: seq<HistoryItem>)
    requires st.last == Newest(st.list)
    ensures var next := LoadFrom(st, Log(a));
            && next.last == Newest(next.list) && (st.needToSort ==> next.needToSort)
            && |st.list| <= |next.list| <= |st.list| + |a|
            && next.list[|next.list| - |st.list|..] == st.list
  {
    hide LoadFrom, Step;
    if a == [] {
      NoRecords(st);
    } else {
      LogGrows(st, a[1..]);
      var before, r := LoadFrom(st, Log(a[1..])), Record(HISTORY_VERSION, a[0]);
      LoadFromConcat(st, Log(a[1..]), [r]);
      LoadOne(before, r);
      StepGrows(before, r);
      assert ([r.item] + before.list)[|before.list| + 1 - |st.list|..] == st.list;
    }
  }

  lemma NoRecords(st: Loading)
    ensures LoadFrom(st, Log([])) == st
  {
  }

  lemma StepGrows(st: Loading, r: Record)
    requires st.last == Newest(st.list)
    ensures var next := Step(st, r);
            && next.last == Newest(next.list) && (st.needToSort ==> next.needToSort)
            && (next.list == st.list || next.list == [r.item] + st.list)
            && (r.version == HISTORY_VERSION && r.item.dateTime.Time? ==> next.list != [] && next.list[0] == r.item)
  {
    assert st.list != [] ==> [st.list[0]] + st.list[1..] == st.list;
  }

  lemma AppendGrows(file: seq<Record>, a: seq<HistoryItem>)
    ensures Unsorted(file) ==> Unsorted(file + Log(a))
    ensures var was, now := Filed(file), Filed(file + Log(a));
            |was| <= |now| <= |was| + |a| && now[|now| - |was|..] == was
  {
    hide LoadFrom, Log, Loadable;
    LoadedIsLoadable(file);
    LoadFromConcat(Start, file, Log(a));
    LogGrows(LoadFrom(Start, file), a);
  }

  /** When records for the newest `count` entries of a list like `h` but for titles make the file read
      as that list, they add exactly the entries that the file did not hold. */
  lemma AddedBySave(file: seq<Record>, h: seq<HistoryItem>, saved: nat, dropped: seq<HistoryItem>, at: int, limit: int,
                    h': seq<HistoryItem>, count: nat)
    requires Holds(file, h, saved, dropped, at, limit) && EndLives(h, at, limit)
    requires count < |h'| == |h| && h'[|h| - 1].dateTime == h[|h| - 1].dateTime
    requires ReadsAs(file + Log(h'[..count]), h', at, limit)
    ensures !Unsorted(file) && saved > 0 && |h| - saved <= count && saved <= |Filed(file)|
    ensures |Filed(file + Log(h'[..count]))| == |h| - saved + |Filed(file)|
    ensures Filed(file)[..saved] == Oldest(h', saved)
  {
    var file' := file + Log(h'[..count]);
    ReadsAsMeans(file', h', at, limit);
    AppendGrows(file, h'[..count]);
    ReadsIsFiled(file', []);
    hide LoadFrom, Filed, Unsorted, Log, ReadsAs;
    EndsWhereSaved(Filed(file), Filed(file'), h, saved, at, limit, h', count);
  }

  lemma EndsWhereSaved(filed: seq<HistoryItem>, filed': seq<HistoryItem>, h: seq<HistoryItem>, saved: nat, at: int,
                       limit: int, h': seq<HistoryItem>, count: nat)
    requires AllTimed(h) && AllTimed(filed') && saved <= |h| && EndLives(h, at, limit)
    requires count < |h'| == |h| && h'[|h| - 1].dateTime == h[|h| - 1].dateTime
    requires saved <= |filed| <= |filed'| <= |filed| + count && filed'[|filed'| - |filed|..] == filed
    requires SameButTitles(filed[..saved], Oldest(h, saved)) && Gone(filed[saved..], at, limit)
    requires h' <= filed' && Gone(filed'[|h|..], at, limit)
    ensures saved > 0 && |filed'| == |h| - saved + |filed| && |h| - saved <= count
    ensures filed[..saved] == Oldest(h', saved)
  {
    var x, last := |filed'| - |filed|, h[|h| - 1];
    assert filed'[x + saved..] == filed[saved..];
    EndsBefore(filed', |h|, x + saved, last, at, limit);
    assert filed[..saved][saved - 1].dateTime == Oldest(h, saved)[saved - 1].dateTime;
    assert filed'[x + saved - 1] == filed[saved - 1];
    EndsBefore(filed', x + saved, |h|, last, at, limit);
    assert filed'[x..][..saved] == h'[x..];
  }

  /** With a page known to be saved last, whose first entry is at `f`. */
  lemma SavedWithTitle(file: seq<Record>, h: seq<HistoryItem>, saved: nat, dropped: seq<HistoryItem>, at: int,
                       limit: int, i: nat, title: Text, f: nat)
    requires Holds(file, h, saved, dropped, at, limit) && EndLives(h, at, limit)
    requires !Unsorted(file) && !Retitled(file, h, saved) && i < |h| && f <= |h| - saved && saved > 0
    ensures var h' := WithTitle(h, i, title);
            ReadsAs(file + Log(h'[..f]), h', at, limit) <==>
            Loadable(h') && f == |h| - saved && (i < |h| - saved || title == h[i].title)
  {
    hide LoadFrom, Loadable, Log, Filed, Unsorted, Reads, Gone, SameButTitles;
    var h' := WithTitle(h, i, title);
    TitleInPart(h, i, title, |h| - saved);
    HoldsExactly(file, h, saved, dropped, at, limit);
    var saved' := file + Log(h'[..f]);
    if ReadsAs(saved', h', at, limit) {
      AddedBySave(file, h, saved, dropped, at, limit, h', f);
      ReadsAsLoadable(saved', h', at, limit);
      assert Filed(file)[..saved] == Oldest(h, saved);
    }
    if f == |h| - saved && h'[f..] == h[f..] {
      SaveRest(file, h', f, dropped);
    }
  }

  lemma ReadsAsLoadable(file: seq<Record>, h: seq<HistoryItem>, at: int, limit: int)
    requires ReadsAs(file, h, at, limit)
    ensures Loadable(h)
  {
    hide LoadFrom, Loadable, Gone, Reads, Unsorted, Filed;
    var gone :| Gone(gone, at, limit) && Reads(file, h + gone);
    ReadsIsFiled(file, h + gone);
    LoadablePrefix(h, gone);
  }

  /** With none known, the page at `i` is taken for it: a save then repeats at most the newest record
      in the file, which is not read twice. */
  lemma SavedWithNewTitle(file: seq<Record>, h: seq<HistoryItem>, saved: nat, dropped: seq<HistoryItem>, at: int,
                          limit: int, i: nat, title: Text)
    requires Holds(file, h, saved, dropped, at, limit) && EndLives(h, at, limit) && i < |h| && h[i].url != Empty
    ensures var h' := WithTitle(h, i, title);
            ReadsAs(file + Log(h'[..i]), h', at, limit) <==>
            && Loadable(h') && title == h[i].title && |h| - saved <= i <= |h| - saved + 1
            && !Unsorted(file) && !Retitled(file, h, saved)
  {
    hide LoadFrom, Loadable, Log, Filed, Unsorted, Reads, Gone, SameButTitles;
    var h', b := WithTitle(h, i, title), |h| - saved;
    var file' := file + Log(h'[..i]);
    if ReadsAs(file', h', at, limit) {
      AddedBySave(file, h, saved, dropped, at, limit, h', i);
      ReadsAsLoadable(file', h', at, limit);
      ReadsAsMeans(file', h', at, limit);
      SameTitle(Filed(file)[..saved], h, saved, i, title);
      assert h' == h;
      HoldsExactly(file, h, saved, dropped, at, limit);
      if i > b + 1 {
        TooManyRecords(file, h, b, dropped, i);
      }
    }
    if title == h[i].title {
      assert h' == h;
      if b <= i <= b + 1 && !Unsorted(file) && !Retitled(file, h, saved) {
        HoldsExactly(file, h, saved, dropped, at, limit);
        RepeatedRecord(file, h, b, dropped, i);
      }
    }
  }

  lemma SameTitle(filed: seq<HistoryItem>, h: seq<HistoryItem>, saved: nat, i: nat, title: Text)
    requires saved <= |h| && |h| - saved <= i < |h| && h[i].url != Empty
    requires SameButTitles(filed, Oldest(h, saved)) && filed == Oldest(WithTitle(h, i, title), saved)
    ensures title == h[i].title
  {
    var k := i - (|h| - saved);
    assert filed[k] == h[i] && Oldest(WithTitle(h, i, title), saved)[k].title == title;
  }

  lemma LogConcat(a: seq<HistoryItem>, b: seq<HistoryItem>)
    ensures Log(a + b) == Log(b) + Log(a)
  {
    if a == [] {
      assert a + b == b && Log(b) + [] == Log(b);
    } else {
      LogConcat(a[1..], b);
      assert (a + b)[1..] == a[1..] + b;
    }
  }

  /** One record too many is the newest of the file again. */
  lemma RepeatedRecord(file: seq<Record>, h: seq<HistoryItem>, b: nat, dropped: seq<HistoryItem>, i: nat)
    requires b < |h| && b <= i <= b + 1 && Reads(file, h[b..] + dropped)
    ensures Reads(file + Log(h[..i]), h + dropped) <==> Loadable(h)
  {
    hide LoadFrom, Loadable, Log, Reads, Step;
    SaveRest(file, h, b, dropped);
    if i == b + 1 {
      var r := Record(HISTORY_VERSION, h[b]);
      assert h[..i] == h[..b] + [h[b]];
      LogConcat(h[..b], [h[b]]);
      LogOne(h[b]);
      SameRecord(file, r, h[b..] + dropped);
      LoadFromConcat(Start, file, [r]);
      LoadFromConcat(Start, file, Log(h[..b]));
      LoadFromConcat(Start, file + [r], Log(h[..b]));
      assert file + Log(h[..i]) == file + [r] + Log(h[..b]);
      SameLoading(file + Log(h[..i]), file + Log(h[..b]), h + dropped);
    }
  }

  lemma LogOne(x: HistoryItem)
    ensures Log([x]) == [Record(HISTORY_VERSION, x)]
  {
    assert Log([x][1..]) == [];
  }

  lemma SameLoading(a: seq<Record>, b: seq<Record>, h: seq<HistoryItem>)
    requires LoadFrom(Start, a) == LoadFrom(Start, b)
    ensures Reads(a, h) <==> Reads(b, h)
  {
  }

  lemma SameRecord(file: seq<Record>, r: Record, h: seq<HistoryItem>)
    requires Reads(file, h) && h != [] && r == Record(HISTORY_VERSION, h[0])
    ensures LoadFrom(Start, file + [r]) == LoadFrom(Start, file)
  {
    LoadFromConcat(Start, file, [r]);
    LoadOne(LoadFrom(Start, file), r);
    assert [h[0]] + h[1..] == h;
  }

  /** More of them are read as further entries. */
  lemma TooManyRecords(file: seq<Record>, h: seq<HistoryItem>, b: nat, dropped: seq<HistoryItem>, i: nat)
    requires b + 2 <= i <= |h| && Loadable(h) && Reads(file, h[b..] + dropped)
    ensures Unsorted(file + Log(h[..i])) || |Filed(file + Log(h[..i]))| > b + |Filed(file)|
  {
    hide LoadFrom, Loadable, Log, Reads, Unsorted, Filed;
    var more := h[b + 1..i];
    var file1 := file + Log(more);
    assert h[..i] == h[..b + 1] + more;
    LogConcat(h[..b + 1], more);
    assert file + Log(h[..i]) == file1 + Log(h[..b + 1]);
    AppendGrows(file1, h[..b + 1]);
    if !Unsorted(file + Log(h[..i])) {
      LoadableAt(h, b);
      ReadsIsFiled(file, h[b..] + dropped);
      NewestAfter(file, more);
      AppendGrows(file, more);
      var list := Filed(file1);
      assert list != Filed(file);
      ReadsIsFiled(file1, list);
      FrontAdds(file1, h, b, list);
    }
  }

  /** The newest entry after some records have been read. */
  lemma NewestAfter(file: seq<Record>, a: seq<HistoryItem>)
    requires a != [] && a[0].dateTime.Time?
    ensures Filed(file + Log(a)) != [] && Filed(file + Log(a))[0] == a[0]
  {
    hide LoadFrom, Loadable, Step;
    var r := Record(HISTORY_VERSION, a[0]);
    LoadFromConcat(Start, file, Log(a[1..]));
    LoadedIsLoadable(file + Log(a[1..]));
    assert file + Log(a) == file + Log(a[1..]) + [r];
    LoadFromConcat(Start, file + Log(a[1..]), [r]);
    LoadOne(LoadFrom(Start, file + Log(a[1..])), r);
    StepGrows(LoadFrom(Start, file + Log(a[1..])), r);
  }

  lemma {:induction false} LoadableAt(h: seq<HistoryItem>, b: nat)
    requires Loadable(h) && b + 1 < |h|
    ensures h[b] != h[b + 1] && h[b + 1].dateTime.Time?
  {
    if b > 0 {
      LoadableAt(h[1..], b - 1);
    }
  }

  lemma FrontAdds(file: seq<Record>, h: seq<HistoryItem>, b: nat, list: seq<HistoryItem>)
    requires b + 1 < |h| && Loadable(h) && list != [] && list[0] == h[b + 1] && Reads(file, list)
    ensures |Filed(file + Log(h[..b + 1]))| == b + 1 + |list|
  {
    hide LoadFrom, Loadable, Log, Reads, Unsorted, Filed;
    assert list == [list[0]] + list[1..];
    assert h == (h[..b + 1] + [list[0]]) + h[b + 2..];
    LoadablePrefix(h[..b + 1] + [list[0]], h[b + 2..]);
    AppendOverlap(file, h[..b + 1], [list[0]], list[1..]);
    ReadsIsFiled(file + Log(h[..b + 1]), h[..b + 1] + list);
  }

  // ---- The manager -----------------------------------------------------------------------------

  /** The first entry with URL `u`, or the length of the list. */
  function FirstWith(h: seq<HistoryItem>, u: Text): (i: nat)
    ensures i <= |h| && (i < |h| ==> h[i].url == u)
    ensures forall j :: 0 <= j < i ==> h[j].url != u
  {
    if h == [] || h[0].url == u then 0 else 1 + FirstWith(h[1..], u)
  }

  lemma FirstIsFirst(h: seq<HistoryItem>, u: Text, i: nat)
    requires i < |h| && h[i].url == u
    ensures FirstWith(h, u) <= i
    ensures FirstWith(h, u) == i <==> forall j :: 0 <= j < i ==> h[j].url != u
  {
  }

  /** A title is not looked at in the search for a page. */
  lemma {:induction false} FirstWithTitle(h: seq<HistoryItem>, i: nat, title: Text, u: Text)
    requires i < |h|
    ensures FirstWith(WithTitle(h, i, title), u) == FirstWith(h, u)
  {
    var h' := WithTitle(h, i, title);
    if h[0].url != u {
      if i > 0 {
        FirstWithTitle(h[1..], i - 1, title, u);
        assert h'[1..] == WithTitle(h[1..], i - 1, title);
      } else {
        assert h'[1..] == h[1..];
      }
    }
  }

  /** The list after visits in the given order; a first entry may have expired at once. */
  function Visited(items: seq<HistoryItem>, h: seq<HistoryItem>, now: int, limit: int): seq<HistoryItem>
    requires AllTimed(items)
  {
    if items == [] then h
    else
      var x, before := items[|items| - 1], Visited(items[..|items| - 1], h, now, limit);
      if before == [] then Kept([x], now, limit) else [x] + before
  }

  lemma VisitedNone(h: seq<HistoryItem>, now: int, limit: int)
    ensures Visited([], h, now, limit) == h
  {
  }

  lemma VisitedStep(items: seq<HistoryItem>, i: nat, h: seq<HistoryItem>, now: int, limit: int)
    requires AllTimed(items) && i < |items|
    ensures var before := Visited(items[..i], h, now, limit);
            Visited(items[..i + 1], h, now, limit) ==
            if before == [] then Kept([items[i]], now, limit) else [items[i]] + before
  {
    hide Kept;
    assert items[..i + 1][..i] == items[..i];
  }

  /** The items with other titles. */
  function Entitled(items: seq<HistoryItem>, titles: seq<Text>): (r: seq<HistoryItem>)
    requires |titles| == |items|
    ensures |r| == |items| && forall i :: 0 <= i < |r| ==> r[i] == items[i].(title := titles[i])
  {
    seq(|items|, i requires 0 <= i < |items| => items[i].(title := titles[i]))
  }

  /** What the file holds below the list. */
  function Below(file: seq<Record>, h: seq<HistoryItem>): seq<HistoryItem> {
    if |h| <= |Filed(file)| then Filed(file)[|h|..] else []
  }

  lemma ReadBackHolds(file: seq<Record>, h: seq<HistoryItem>, at: int, limit: int)
    requires ReadsAs(file, h, at, limit)
    ensures var dropped := Below(file, h);
            && Gone(dropped, at, limit) && Reads(file, h + dropped) && AllTimed(h)
            && !Unsorted(file) && Filed(file) == h + dropped && FilesAs(file, h, |h|, dropped, at, limit, Newest(h).url)
  {
    hide LoadFrom, Loadable, Reads, Gone, Holds, Unsorted, Filed, Retitled, ReadsAs;
    ReadsAsMeans(file, h, at, limit);
    var dropped := Below(file, h);
    assert h + dropped == Filed(file);
    ReadsIsFiled(file, h + dropped);
    assert forall i :: 0 <= i < |h| ==> h[i] == Filed(file)[i];
    ReadHolds(file, h, dropped, at, limit);
  }

  /** What a manager knows about its file. With a page known to be saved last, it reads as the oldest
      entries with their present titles, that page the newest of them, and expired ones below. */
  predicate FilesAs(file: seq<Record>, h: seq<HistoryItem>, saved: nat, dropped: seq<HistoryItem>, at: int, limit: int,
                    last: Text)
  {
    && Holds(file, h, saved, dropped, at, limit)
    && (last != Empty ==>
          !Unsorted(file) && !Retitled(file, h, saved) && saved > 0 && h[|h| - saved].url == last)
  }

  /** The titles that the saved entries were written with. */
  predicate TitlesAre(file: seq<Record>, saved: nat, titles: seq<Text>) {
    && |titles| == saved
    && (!Unsorted(file) ==>
          saved <= |Filed(file)| && forall k :: 0 <= k < saved ==> Filed(file)[k].title == titles[k])
  }

  /** No saved page without a URL has another title than it was written with. */
  predicate TitlesKept(h: seq<HistoryItem>, saved: nat, titles: seq<Text>) {
    && |titles| == saved <= |h|
    && forall k :: 0 <= k < saved && Oldest(h, saved)[k].url == Empty ==> Oldest(h, saved)[k].title == titles[k]
  }

  lemma TitlesKeptMeans(file: seq<Record>, h: seq<HistoryItem>, saved: nat, dropped: seq<HistoryItem>, at: int,
                        limit: int, titles: seq<Text>)
    requires Holds(file, h, saved, dropped, at, limit) && TitlesAre(file, saved, titles) && !Unsorted(file)
    ensures TitlesKept(h, saved, titles) <==> !Retitled(file, h, saved)
  {
    hide LoadFrom, Gone, AllTimed, Filed, Unsorted;
    TitlesDecide(Filed(file)[..saved], Oldest(h, saved), titles);
  }

  lemma TitlesDecide(a: seq<HistoryItem>, b: seq<HistoryItem>, titles: seq<Text>)
    requires SameButTitles(a, b) && |titles| == |a| && forall k :: 0 <= k < |a| ==> a[k].title == titles[k]
    ensures a == b <==> forall k :: 0 <= k < |b| && b[k].url == Empty ==> b[k].title == titles[k]
  {
    forall k | 0 <= k < |a| && (b[k].url == Empty ==> b[k].title == titles[k])
      ensures a[k] == b[k]
    {
      assert a[k].title == titles[k];
    }
  }

  function Min(a: int, b: int): int {
    if a < b then a else b
  }

  function Fewer(saved: nat): nat {
    if saved == 0 then 0 else saved - 1
  }

  /** With the oldest entry gone from the list, one that the file holds is among the expired. */
  function DroppedMore(file: seq<Record>, saved: nat, dropped: seq<HistoryItem>): (r: seq<HistoryItem>)
    ensures EndsWith(r, dropped)
  {
    if saved == 0 || Unsorted(file) || saved > |Filed(file)| then dropped else [Filed(file)[saved - 1]] + dropped
  }

  lemma KeptDropped(h: seq<HistoryItem>, saved: nat, titles: seq<Text>)
    requires h != []
    ensures TitlesKept(h, saved, titles) ==>
              TitlesKept(h[..|h| - 1], Fewer(saved), titles[..Min(Fewer(saved), |titles|)])
  {
    if saved > 0 && TitlesKept(h, saved, titles) {
      OldestShorter(h, saved);
    }
  }

  lemma TitlesDropped(file: seq<Record>, saved: nat, titles: seq<Text>)
    ensures TitlesAre(file, saved, titles) ==>
              TitlesAre(file, Fewer(saved), titles[..Min(Fewer(saved), |titles|)])
  {
    hide LoadFrom, Filed, Unsorted;
  }

  lemma KnownDropped(file: seq<Record>, h: seq<HistoryItem>, saved: nat, dropped: seq<HistoryItem>, at: int, limit: int,
                     last: Text, titles: seq<Text>)
    requires h != []
    ensures (FilesAs(file, h, saved, dropped, at, limit, last) && TitlesAre(file, saved, titles)
             && limit >= 0 && ExpiredOne(h[|h| - 1], at, limit)) ==>
              && FilesAs(file, h[..|h| - 1], Fewer(saved), DroppedMore(file, saved, dropped), at, limit, Empty)
              && TitlesAre(file, Fewer(saved), titles[..Min(Fewer(saved), |titles|)])
  {
    hide LoadFrom, Holds, Gone, Filed, Unsorted, Retitled, TitlesAre;
    TitlesDropped(file, saved, titles);
    if FilesAs(file, h, saved, dropped, at, limit, last) && limit >= 0 && ExpiredOne(h[|h| - 1], at, limit) {
      if saved == 0 {
        HoldsShorter(file, h, dropped, at, limit);
      } else if Unsorted(file) {
        HoldsUnsorted(file, h, saved, dropped, at, limit);
      } else {
        HoldsDropped(file, h, saved, dropped, at, limit);
      }
    }
  }

  function Titles(h: seq<HistoryItem>): seq<Text> {
    seq(|h|, k requires 0 <= k < |h| => h[k].title)
  }

  lemma TitlesOfAll(file: seq<Record>, h: seq<HistoryItem>, dropped: seq<HistoryItem>)
    ensures !Unsorted(file) && Filed(file) == h + dropped ==> TitlesAre(file, |h|, Titles(h))
    ensures TitlesKept(h, |h|, Titles(h))
  {
    hide LoadFrom, Filed, Unsorted;
    assert h[0..] == h;
  }

  /** A list just read, and what is known about the file then. */
  lemma KnownOfLoaded(file: seq<Record>, list: seq<HistoryItem>, at: int, limit: int)
    requires AllTimed(list) && (!Unsorted(file) ==> list == Filed(file))
    ensures var saved, titles := if Unsorted(file) then 0 else |list|, if Unsorted(file) then [] else Titles(list);
            && FilesAs(file, list, saved, [], at, limit, Empty)
            && TitlesAre(file, saved, titles) && TitlesKept(list, saved, titles)
  {
    hide LoadFrom, Filed, Unsorted, Holds, Titles;
    HoldsAll(file, list, at, limit);
    assert list + [] == list;
    TitlesOfAll(file, list, []);
  }

  /** With the whole list in the file, its newest entry counts as saved last. */
  lemma KnownWhole(file: seq<Record>, h: seq<HistoryItem>, dropped: seq<HistoryItem>, at: int, limit: int,
                   titles: seq<Text>, last: Text)
    requires FilesAs(file, h, |h|, dropped, at, limit, last) && !Unsorted(file)
    requires TitlesAre(file, |h|, titles) && TitlesKept(h, |h|, titles)
    ensures FilesAs(file, h, |h|, dropped, at, limit, Newest(h).url) && Filed(file) == h + dropped
  {
    hide LoadFrom, Filed, Unsorted, Holds, Retitled, TitlesAre, TitlesKept;
    TitlesKeptMeans(file, h, |h|, dropped, at, limit, titles);
    HoldsWhole(file, h, dropped, at, limit);
  }

  lemma KnownLater(file: seq<Record>, h: seq<HistoryItem>, saved: nat, dropped: seq<HistoryItem>, at: int, now: int,
                   limit: int, last: Text)
    requires FilesAs(file, h, saved, dropped, at, limit, last) && at <= now
    ensures FilesAs(file, h, saved, dropped, now, limit, last)
  {
    hide LoadFrom, Holds, Filed, Unsorted, Retitled;
    HoldsLater(file, h, saved, dropped, at, now, limit);
  }

  /** Records of the first `n` entries, the oldest of them first. */
  predicate RecordsOf(records: seq<Record>, h: seq<HistoryItem>, n: int) {
    n == |records| <= |h| && forall k :: 0 <= k < n ==> records[k] == Record(23, h[n - 1 - k])
  }

  /** The file after a save: the records above the page saved last are appended, or all are written anew. */
  function Written(file: seq<Record>, h: seq<HistoryItem>, last: Text): seq<Record> {
    if last == Empty || FirstWith(h, last) == |h| then Log(h) else file + Log(h[..FirstWith(h, last)])
  }

  /** Whether a title change leaves a log that the next save brings up to date. */
  predicate Harmless(file: seq<Record>, h: seq<HistoryItem>, saved: nat, titles: seq<Text>, last: Text, i: nat,
                     title: Text)
    requires i < |h|
  {
    if last != Empty then
      && (forall j :: 0 <= j < |h| - saved ==> h[j].url != last)
      && (i < |h| - saved || title == h[i].title)
    else
      || h[i].url == Empty
      || (title == h[i].title && |h| - saved <= i <= |h| - saved + 1 && !Unsorted(file) && TitlesKept(h, saved, titles))
  }

  lemma AnewReads(h: seq<HistoryItem>, at: int, limit: int)
    ensures ReadsAs(Log(h), h, at, limit) <==> Loadable(h)
  {
    hide Log, Loadable, Reads;
    SaveAllReads(h);
    if Loadable(h) {
      assert Gone([], at, limit) && Reads(Log(h), h + []);
    }
    if ReadsAs(Log(h), h, at, limit) {
      ReadsAsLoadable(Log(h), h, at, limit);
    }
  }

  /** What a title change and then a save make of the file, in every case. */
  lemma SavedAfterTitle(file: seq<Record>, h: seq<HistoryItem>, saved: nat, dropped: seq<HistoryItem>, at: int,
                        limit: int, titles: seq<Text>, last: Text, i: nat, title: Text)
    requires FilesAs(file, h, saved, dropped, at, limit, last) && TitlesAre(file, saved, titles)
    requires EndLives(h, at, limit) && i < |h| && (last == Empty ==> FirstWith(h, h[i].url) == i)
    ensures var h', last' := WithTitle(h, i, title), if last == Empty then h[i].url else last;
            ReadsAs(Written(file, h', last'), h', at, limit) <==>
            Loadable(h') && Harmless(file, h, saved, titles, last, i, title)
  {
    hide Holds, Unsorted, Retitled, EndLives, FirstWith, AllTimed, TitlesAre, TitlesKept, Loadable, ReadsAs, Log;
    HoldsTimed(file, h, saved, dropped, at, limit);
    var h' := WithTitle(h, i, title);
    FirstWithTitle(h, i, title, if last == Empty then h[i].url else last);
    if last != Empty {
      FirstIsFirst(h, last, |h| - saved);
      SavedWithTitle(file, h, saved, dropped, at, limit, i, title, FirstWith(h, last));
    } else if h[i].url == Empty {
      AnewReads(h', at, limit);
    } else {
      SavedWithNewTitle(file, h, saved, dropped, at, limit, i, title);
      if !Unsorted(file) {
        TitlesKeptMeans(file, h, saved, dropped, at, limit, titles);
      }
    }
  }

  lemma TitleKeepsEnd(file: seq<Record>, h: seq<HistoryItem>, saved: nat, dropped: seq<HistoryItem>, at: int,
                      limit: int, last: Text, i: nat, title: Text)
    requires FilesAs(file, h, saved, dropped, at, limit, last) && EndLives(h, at, limit) && i < |h|
    ensures AllTimed(WithTitle(h, i, title)) && EndLives(WithTitle(h, i, title), at, limit)
  {
    hide LoadFrom, SameButTitles, Gone;
  }

  lemma HarmlessLast(file: seq<Record>, h: seq<HistoryItem>, saved: nat, titles: seq<Text>, last: Text, i: nat,
                     title: Text)
    requires i < |h| && FirstWith(h, h[i].url) == i && Harmless(file, h, saved, titles, last, i, title)
    requires last != Empty || h[i].url == Empty || i == |h| - saved
    ensures var h', last' := WithTitle(h, i, title), if last == Empty then h[i].url else last;
            last' != Empty ==> forall j :: 0 <= j < |h'| - saved ==> h'[j].url != last'
  {
    hide LoadFrom, Unsorted, TitlesKept;
  }

  lemma NothingHeld(file: seq<Record>, at: int, limit: int)
    requires file == []
    ensures ReadsAs(file, [], at, limit) && Log([]) == [] && AllTimed([]) && EndLives([], at, limit)
  {
    assert Gone([], at, limit) && Reads([], [] + []);
  }

  /** What is known about the file stays known, but for a save that is still to repeat a record. */
  lemma KnownAfterTitle(file: seq<Record>, h: seq<HistoryItem>, saved: nat, dropped: seq<HistoryItem>, at: int,
                        limit: int, titles: seq<Text>, last: Text, i: nat, title: Text)
    requires FilesAs(file, h, saved, dropped, at, limit, last) && TitlesAre(file, saved, titles)
    requires EndLives(h, at, limit) && i < |h| && Harmless(file, h, saved, titles, last, i, title)
    requires last != Empty || h[i].url == Empty || i == |h| - saved
    ensures FilesAs(file, WithTitle(h, i, title), saved, dropped, at, limit, if last == Empty then h[i].url else last)
  {
    hide Unsorted, Retitled, EndLives, FirstWith, AllTimed, Holds, TitlesAre, TitlesKept;
    HoldsTimed(file, h, saved, dropped, at, limit);
    HoldsWithTitle(file, h, saved, dropped, at, limit, i, title);
    if !Unsorted(file) {
      TitlesKeptMeans(file, h, saved, dropped, at, limit, titles);
    }
  }

  class HistoryManager {
    var m_history: seq<HistoryItem>
    var m_lastSavedUrl: Text
    var m_historyLimit: int
    /** The interval of the expiry timer in milliseconds, when it has been started. */
    var m_expiredTimer: int
    /** The records of the history file. */
    var file: seq<Record>

    /** How many of the oldest entries the file holds and with which titles, which expired entries it
        holds below them, and when expiry was last looked at. */
    ghost var savedCount: nat
    ghost var savedTitles: seq<Text>
    ghost var dropped: seq<HistoryItem>
    ghost var checkedAt: int

    ghost predicate Filing()
      reads this
    {
      && FilesAs(file, m_history, savedCount, dropped, checkedAt, m_historyLimit, m_lastSavedUrl)
      && TitlesAre(file, savedCount, savedTitles)
    }

    ghost predicate Valid()
      reads this
    {
      Filing() && EndLives(m_history, checkedAt, m_historyLimit)
    }

    /** No entry added since the last save has the URL saved last. */
    ghost predicate LastSavedNotVisitedAgain()
      reads this
    {
      m_lastSavedUrl != Empty ==>
        forall i :: 0 <= i < |m_history| - savedCount ==> m_history[i].url != m_lastSavedUrl
    }

    ghost predicate NoneRetitled()
      reads this
    {
      TitlesKept(m_history, savedCount, savedTitles)
    }

    /** The file reads as the list, and below it as entries that have expired. */
    ghost predicate ReadsBack()
      reads this
    {
      ReadsAs(file, m_history, checkedAt, m_historyLimit)
    }

    /** It will after a save. */
    ghost predicate SavesWell()
      reads this
    {
      ReadsAs(Written(file, m_history, m_lastSavedUrl), m_history, checkedAt, m_historyLimit)
    }

    /** Exactly if the list is readable and the page saved last was not visited again. */
    lemma SavesWellMeans()
      requires Valid()
      ensures SavesWell() <==> LastSavedNotVisitedAgain() && Loadable(m_history)
    {
      hide Holds, Unsorted, Retitled, EndLives, FirstWith, TitlesAre, TitlesKept, Loadable, ReadsAs, Log, AllTimed;
      if m_lastSavedUrl == Empty {
        AnewReads(m_history, checkedAt, m_historyLimit);
      } else {
        HoldsTimed(file, m_history, savedCount, dropped, checkedAt, m_historyLimit);
        var title := m_history[0].title;
        assert WithTitle(m_history, 0, title) == m_history;
        SavedAfterTitle(file, m_history, savedCount, dropped, checkedAt, m_historyLimit, savedTitles,
                        m_lastSavedUrl, 0, title);
      }
    }

    lemma EndsAlive()
      requires Valid()
      ensures AllTimed(m_history) && EndLives(m_history, checkedAt, m_historyLimit)
    {
      hide LoadFrom, EndLives;
    }

    constructor (limit: int, ghost now: int)
      ensures Valid() && m_history == [] && file == [] && m_lastSavedUrl == Empty
      ensures m_historyLimit == limit && checkedAt == now
    {
      m_history, m_lastSavedUrl, m_historyLimit, m_expiredTimer, file := [], Empty, limit, 0, [];
      savedCount, savedTitles, dropped, checkedAt := 0, [], [], now;
    }

    /** Called in any state; what is known about the file stays known unless the clock was set back. The
        entries that go are the oldest, up to the first that has not expired, and the timer waits for
        that one. */
    method CheckForExpired(now: int)
      requires AllTimed(m_history)
      modifies `m_history, `m_lastSavedUrl, `m_expiredTimer, `savedCount, `savedTitles, `dropped, `checkedAt
      ensures old(Filing()) && old(checkedAt) <= now ==> Valid()
      ensures checkedAt == now && m_history == Kept(old(m_history), now, m_historyLimit)
      ensures m_history <= old(m_history)
      ensures m_historyLimit >= 0 ==>
                && (forall i :: |m_history| <= i < |old(m_history)| ==>
                      old(m_history)[i].dateTime.seconds + m_historyLimit * 86400 <= now)
                && (m_history != [] ==> m_history[|m_history| - 1].dateTime.seconds + m_historyLimit * 86400 > now)
      ensures m_historyLimit < 0 ==> m_history == old(m_history)
      ensures m_expiredTimer ==
              if m_historyLimit < 0 || m_history == [] then old(m_expiredTimer)
              else 1000 * Until(m_history[|m_history| - 1].dateTime.seconds + m_historyLimit * 86400, now)
      ensures m_expiredTimer != old(m_expiredTimer) ==> 0 < m_expiredTimer < 8 * DAY * 1000
      ensures m_lastSavedUrl == if m_history == old(m_history) then old(m_lastSavedUrl) else Empty
      ensures m_history == old(m_history) ==>
                savedCount == old(savedCount) && savedTitles == old(savedTitles) && dropped == old(dropped)
      ensures EndsWith(dropped, old(dropped))
      ensures old(savedCount == |m_history|) ==> savedCount == |m_history|
      ensures old(LastSavedNotVisitedAgain()) ==> LastSavedNotVisitedAgain()
      ensures old(NoneRetitled()) ==> NoneRetitled()
    {
      hide FilesAs, TitlesAre, TitlesKept, EndsWith, EndLives, Unexpired, AllTimed, Until;
      KeptMeans(m_history, now, m_historyLimit);
      EndsWithSelf(dropped);
      if m_historyLimit < 0 || m_history == [] {
        if Filing() && checkedAt <= now {
          KnownLater(file, m_history, savedCount, dropped, checkedAt, now, m_historyLimit, m_lastSavedUrl);
        }
        checkedAt := now;
        return;
      }
      var nextTimeout := DropExpired(now);
      if nextTimeout > 0 {
        m_expiredTimer := nextTimeout * 1000;
      }
    }

    /** Its loop. */
    method DropExpired(now: int) returns (nextTimeout: int)
      requires AllTimed(m_history) && m_historyLimit >= 0
      modifies `m_history, `m_lastSavedUrl, `savedCount, `savedTitles, `dropped, `checkedAt
      ensures old(Filing()) && old(checkedAt) <= now ==> Filing()
      ensures checkedAt == now && m_history == Unexpired(old(m_history), now, m_historyLimit) && AllTimed(m_history)
      ensures EndLives(m_history, now, m_historyLimit)
      ensures m_history == [] ==> nextTimeout <= 0
      ensures m_history != [] ==>
                var time := m_history[|m_history| - 1].dateTime.seconds + m_historyLimit * 86400;
                nextTimeout == Until(time, now) && 0 < nextTimeout < 8 * DAY
      ensures if |m_history| == |old(m_history)|
              then && m_history == old(m_history) && m_lastSavedUrl == old(m_lastSavedUrl) && dropped == old(dropped)
                   && savedCount == old(savedCount) && savedTitles == old(savedTitles)
              else m_lastSavedUrl == Empty
      ensures EndsWith(dropped, old(dropped))
      ensures old(savedCount == |m_history|) ==> savedCount == |m_history|
      ensures old(NoneRetitled()) ==> NoneRetitled()
    {
      hide FilesAs, TitlesAre, TitlesKept, EndsWith, EndLives, Unexpired, AllTimed, Timeout, Expired, Until;
      ghost var known, was := Filing() && checkedAt <= now, dropped;
      if known {
        KnownLater(file, m_history, savedCount, dropped, checkedAt, now, m_historyLimit, m_lastSavedUrl);
      }
      checkedAt := now;
      EndsWithSelf(dropped);
      nextTimeout := 0;
      while m_history != []
        invariant nextTimeout <= 0 && checkedAt == now
        invariant (known ==> Filing()) && AllTimed(m_history) && |m_history| <= |old(m_history)|
        invariant Unexpired(m_history, now, m_historyLimit) == Unexpired(old(m_history), now, m_historyLimit)
        invariant if |m_history| == |old(m_history)|
                  then && m_history == old(m_history) && m_lastSavedUrl == old(m_lastSavedUrl) && dropped == was
                       && savedCount == old(savedCount) && savedTitles == old(savedTitles)
                  else m_lastSavedUrl == Empty
        invariant EndsWith(dropped, was)
        invariant old(savedCount == |m_history|) ==> savedCount == |m_history|
        invariant old(NoneRetitled()) ==> NoneRetitled()
        decreases |m_history|
      {
        var last := m_history[|m_history| - 1];
        UnexpiredEnd(m_history, now, m_historyLimit);
        nextTimeout := Timeout(last, now, m_historyLimit);
        TimeoutDecides(last, now, m_historyLimit);
        TimeoutIs(last, now, m_historyLimit);
        if nextTimeout > 0 {
          return;
        }
        EndsWithMore(DroppedMore(file, savedCount, dropped), dropped, was);
        DropLast();
      }
      UnexpiredEnd(m_history, now, m_historyLimit);
    }

    /** The oldest entry goes; a saved one stays in the file, among the expired. */
    method DropLast()
      requires m_history != []
      modifies `m_history, `m_lastSavedUrl, `savedCount, `savedTitles, `dropped
      ensures m_lastSavedUrl == Empty && m_history == old(m_history)[..|old(m_history)| - 1]
      ensures var last := old(m_history[|m_history| - 1]);
              old(Filing()) && m_historyLimit >= 0 && ExpiredOne(last, checkedAt, m_historyLimit) ==> Filing()
      ensures dropped == old(DroppedMore(file, savedCount, dropped))
      ensures old(savedCount == |m_history|) ==> savedCount == |m_history|
      ensures old(NoneRetitled()) ==> NoneRetitled()
    {
      hide FilesAs, DroppedMore, TitlesAre, TitlesKept;
      KnownDropped(file, m_history, savedCount, dropped, checkedAt, m_historyLimit, m_lastSavedUrl, savedTitles);
      KeptDropped(m_history, savedCount, savedTitles);
      dropped := DroppedMore(file, savedCount, dropped);
      savedCount := Fewer(savedCount);
      savedTitles := savedTitles[..Min(savedCount, |savedTitles|)];
      m_history := m_history[..|m_history| - 1];
      m_lastSavedUrl := Empty;
    }

    /** Called in any state, too. */
    method AddHistoryItem(item: HistoryItem, privateBrowsing: bool, now: int)
      requires item.dateTime.Time?
      modifies `m_history, `m_lastSavedUrl, `m_expiredTimer, `savedCount, `savedTitles, `dropped, `checkedAt
      ensures old(Valid()) && old(checkedAt) <= now ==> Valid() && checkedAt <= now
      ensures privateBrowsing ==> m_history == old(m_history) && m_lastSavedUrl == old(m_lastSavedUrl)
      ensures !privateBrowsing && old(m_history) != [] ==>
                m_history == [item] + old(m_history) && m_lastSavedUrl == old(m_lastSavedUrl)
      ensures !privateBrowsing && old(m_history) == [] ==>
                && m_history == Kept([item], now, m_historyLimit)
                && m_lastSavedUrl == (if m_history == [item] then old(m_lastSavedUrl) else Empty)
      ensures old(Valid() && LastSavedNotVisitedAgain()) && (item.url != old(m_lastSavedUrl) || privateBrowsing) ==>
                LastSavedNotVisitedAgain()
      ensures old(m_history) != [] ==> savedCount == old(savedCount) && dropped == old(dropped)
    {
      hide LoadFrom, Unexpired, Holds, Gone, Filed, Unsorted, Retitled, TitlesAre, TitlesKept;
      if privateBrowsing {
        return;
      }
      if Valid() {
        HoldsTimed(file, m_history, savedCount, dropped, checkedAt, m_historyLimit);
        HoldsBelow(file, m_history, item, savedCount, dropped, checkedAt, m_historyLimit);
      }
      assert m_history == [] ==> [item] + m_history == [item];
      m_history := [item] + m_history;
      if |m_history| == 1 {
        CheckForExpired(now);
      }
    }

    /** A limit that brings no entry back to life which only the file still holds keeps what is known;
        with any other the next session will find those entries again. */
    method SetHistoryLimit(limit: int, now: int)
      requires AllTimed(m_history)
      modifies `m_history, `m_lastSavedUrl, `m_expiredTimer, `m_historyLimit, `savedCount, `savedTitles, `dropped,
               `checkedAt
      ensures m_historyLimit == limit
      ensures limit == old(m_historyLimit) ==> m_history == old(m_history) && checkedAt == old(checkedAt)
      ensures limit != old(m_historyLimit) ==> m_history == Kept(old(m_history), now, limit) && checkedAt == now
      ensures old(Valid()) && limit != old(m_historyLimit) ==> (Valid() <==> Gone(old(dropped), now, limit))
    {
      hide LoadFrom, Unexpired, Holds, Gone, Filed, Unsorted, Retitled, TitlesAre, TitlesKept, EndLives;
      if m_historyLimit == limit {
        return;
      }
      if Filing() && Gone(dropped, now, limit) {
        HoldsAt(file, m_history, savedCount, dropped, checkedAt, m_historyLimit, now, limit);
      }
      m_historyLimit := limit;
      checkedAt := now;
      CheckForExpired(now);
      if Valid() {
        HoldsTimed(file, m_history, savedCount, dropped, checkedAt, m_historyLimit);
        GoneAtEnd(dropped, old(dropped), now, limit);
      }
    }

    /** The index of the oldest entry to write, and whether the file is written anew. */
    method FirstToSave() returns (first: int, saveAll: bool)
      ensures var i := FirstWith(m_history, m_lastSavedUrl);
              if m_lastSavedUrl == Empty || i == |m_history| then saveAll && first == |m_history| - 1
              else !saveAll && first == i - 1
    {
      saveAll := m_lastSavedUrl == Empty;
      first := |m_history| - 1;
      if !saveAll {
        ghost var goal := FirstWith(m_history, m_lastSavedUrl);
        for i := 0 to |m_history|
          invariant i <= goal && first == |m_history| - 1
        {
          if m_history[i].url == m_lastSavedUrl {
            first := i - 1;
            break;
          }
        }
      }
      if first == |m_history| - 1 {
        saveAll := true;
      }
    }

    /** The part of `save` that writes: what is appended, or the whole file. */
    method WriteFile()
      modifies `file
      ensures file == Written(old(file), m_history, m_lastSavedUrl)
      ensures var i := FirstWith(m_history, m_lastSavedUrl);
              if m_lastSavedUrl == Empty || i == |m_history| then RecordsOf(file, m_history, |m_history|)
              else old(file) <= file && RecordsOf(file[|old(file)|..], m_history, i)
    {
      hide Log, RecordsOf;
      var first, saveAll := FirstToSave();
      var out := WriteRecords(first + 1);
      if saveAll {
        assert m_history[..|m_history|] == m_history;
        file := out;
      } else {
        ghost var was := file;
        file := file + out;
        assert file[|was|..] == out;
      }
    }

    /** `save`: appends what is above the page saved last, or writes the file anew. The file then reads
        as the whole list, and below it as expired entries, exactly if that page was not visited again
        and the list is readable; and after any save for which it does, all is known again. */
    method Save()
      modifies `file, `m_lastSavedUrl, `savedCount, `savedTitles, `dropped
      ensures file == old(Written(file, m_history, m_lastSavedUrl))
      ensures var i := FirstWith(m_history, old(m_lastSavedUrl));
              if old(m_lastSavedUrl) == Empty || i == |m_history| then RecordsOf(file, m_history, |m_history|)
              else old(file) <= file && RecordsOf(file[|old(file)|..], m_history, i)
      ensures m_lastSavedUrl == (if m_history == [] then Empty else m_history[0].url) && savedCount == |m_history|
      ensures LastSavedNotVisitedAgain() && NoneRetitled()
      ensures old(Valid()) ==> (ReadsBack() <==> old(LastSavedNotVisitedAgain()) && Loadable(m_history))
      ensures old(m_lastSavedUrl == Empty || FirstWith(m_history, m_lastSavedUrl) == |m_history|) ==>
                (ReadsBack() <==> Loadable(m_history))
      ensures ReadsBack() ==>
                && Gone(dropped, checkedAt, m_historyLimit) && Reads(file, m_history + dropped) && AllTimed(m_history)
                && (EndLives(m_history, checkedAt, m_historyLimit) ==> Valid())
    {
      hide Log, Loadable, LoadFrom, Reads, Holds, Gone, Retitled, TitlesAre, TitlesKept, ReadsAs, EndLives, RecordsOf,
           FirstWith;
      if Valid() {
        SavesWellMeans();
      }
      AnewReads(m_history, checkedAt, m_historyLimit);
      WriteFile();
      m_lastSavedUrl := Newest(m_history).url;
      savedCount, savedTitles, dropped := |m_history|, Titles(m_history), Below(file, m_history);
      TitlesOfAll(file, m_history, dropped);
      if ReadsBack() {
        ReadBackHolds(file, m_history, checkedAt, m_historyLimit);
      }
    }

    /** Any number of visits and then a save. When none of them is to the page saved last, the file
        reads as the list in memory exactly if that is readable. */
    method VisitAndSave(items: seq<HistoryItem>, now: int)
      requires Valid() && LastSavedNotVisitedAgain() && checkedAt <= now && AllTimed(items)
      requires forall i :: 0 <= i < |items| ==> items[i].url != m_lastSavedUrl
      modifies this
      ensures m_historyLimit == old(m_historyLimit) && m_history == Visited(items, old(m_history), now, m_historyLimit)
      ensures ReadsBack() <==> Loadable(m_history)
      ensures ReadsBack() ==> Valid() && LastSavedNotVisitedAgain()
    {
      hide Loadable, ReadsAs, EndLives, Written, Kept, Visited, Valid, NoneRetitled;
      ghost var saved := m_lastSavedUrl;
      VisitedNone(m_history, now, m_historyLimit);
      for i := 0 to |items|
        invariant Valid() && LastSavedNotVisitedAgain() && checkedAt <= now && m_historyLimit == old(m_historyLimit)
        invariant m_lastSavedUrl == saved || m_lastSavedUrl == Empty
        invariant m_history == Visited(items[..i], old(m_history), now, m_historyLimit)
      {
        VisitedStep(items, i, old(m_history), now, m_historyLimit);
        AddHistoryItem(items[i], false, now);
      }
      assert items[..|items|] == items;
      EndsAlive();
      Save();
    }

    /** A title change and then a save: the file reads as the list exactly if the change is harmless. */
    method RetitleAndSave(url: Text, title: Text)
      requires Valid() && FirstWith(m_history, url) < |m_history|
      modifies `m_history, `file, `m_lastSavedUrl, `savedCount, `savedTitles, `dropped
      ensures var i := FirstWith(old(m_history), url);
              && m_history == WithTitle(old(m_history), i, title)
              && (ReadsBack() <==>
                  Loadable(m_history)
                  && old(Harmless(file, m_history, savedCount, savedTitles, m_lastSavedUrl,
                                  FirstWith(m_history, url), title)))
      ensures ReadsBack() ==> Valid() && LastSavedNotVisitedAgain()
    {
      hide Log, Loadable, LoadFrom, Reads, Holds, Gone, Retitled, TitlesAre, TitlesKept, ReadsAs, EndLives, FirstWith,
          Harmless, Written;
      var found := UpdateHistoryItem(url, title);
      Save();
    }

    /** What browsing does: a page is visited and then its title arrives, any number of times, before a
        save. With a page known to be saved last that is not visited again, the file reads as the list,
        titles and all, exactly if that is readable. */
    method BrowseAndSave(items: seq<HistoryItem>, titles: seq<Text>, now: int)
      requires Valid() && LastSavedNotVisitedAgain() && m_lastSavedUrl != Empty && checkedAt <= now
      requires AllTimed(items) && |titles| == |items|
      requires forall i :: 0 <= i < |items| ==> items[i].url != m_lastSavedUrl
      modifies this
      ensures AllTimed(Entitled(items, titles)) && m_historyLimit == old(m_historyLimit)
      ensures m_history == Visited(Entitled(items, titles), old(m_history), now, m_historyLimit)
      ensures ReadsBack() <==> Loadable(m_history)
      ensures ReadsBack() ==> Valid() && LastSavedNotVisitedAgain()
    {
      hide Log, Loadable, LoadFrom, Reads, Holds, Gone, Retitled, TitlesAre, TitlesKept, ReadsAs, EndLives, Written,
          Unsorted, Kept, Filed, Visited, Valid, NoneRetitled;
      ghost var all := Entitled(items, titles);
      VisitedNone(m_history, now, m_historyLimit);
      for i := 0 to |items|
        invariant Valid() && LastSavedNotVisitedAgain() && checkedAt <= now && m_historyLimit == old(m_historyLimit)
        invariant m_lastSavedUrl == old(m_lastSavedUrl)
        invariant m_history == Visited(all[..i], old(m_history), now, m_historyLimit)
      {
        VisitedStep(all, i, old(m_history), now, m_historyLimit);
        VisitWithTitle(items[i], titles[i], now);
      }
      assert all[..|items|] == all;
      EndsAlive();
      Save();
    }

    /** One visit and its title. */
    method VisitWithTitle(item: HistoryItem, title: Text, now: int)
      requires Valid() && LastSavedNotVisitedAgain() && m_lastSavedUrl != Empty && checkedAt <= now
      requires item.dateTime.Time? && item.url != m_lastSavedUrl
      modifies `m_history, `m_lastSavedUrl, `m_expiredTimer, `savedCount, `savedTitles, `dropped, `checkedAt
      ensures Valid() && LastSavedNotVisitedAgain() && checkedAt <= now && m_lastSavedUrl == old(m_lastSavedUrl)
      ensures old(m_history) != [] && m_history == [item.(title := title)] + old(m_history)
    {
      hide Log, Loadable, LoadFrom, Reads, Holds, Gone, Retitled, TitlesAre, TitlesKept, ReadsAs, EndLives, Written,
          Unsorted, Unexpired, Filed, FirstWith;
      HoldsTimed(file, m_history, savedCount, dropped, checkedAt, m_historyLimit);
      AddHistoryItem(item, false, now);
      FirstIsFirst(m_history, item.url, 0);
      var found := UpdateHistoryItem(item.url, title);
    }

    /** The records of the newest `count` entries, oldest first. */
    method WriteRecords(count: nat) returns (out: seq<Record>)
      requires count <= |m_history|
      ensures out == Log(m_history[..count])
      ensures RecordsOf(out, m_history, count)
    {
      out := [];
      var i := count - 1;
      assert m_history[count..count] == [];
      while i >= 0
        invariant -1 <= i < count
        invariant out == Log(m_history[i + 1..count])
        invariant |out| == count - 1 - i
        invariant forall k :: 0 <= k < |out| ==> out[k] == Record(23, m_history[count - 1 - k])
      {
        assert m_history[i..count][1..] == m_history[i + 1..count];
        out := out + [Record(HISTORY_VERSION, m_history[i])];
        i := i - 1;
      }
      assert m_history[0..count] == m_history[..count];
    }

    /** The new title of a visited page. With a page known to be saved last, the next save brings the
        file up to date exactly if it would have before, and the visit is not in the file yet or its
        title does not change. With none known, the page is taken for it, and then exactly if its title
        does not change and the visit is the newest in the file or the one below: not after a first
        visit, nor with a file to be sorted. */
    method UpdateHistoryItem(url: Text, title: Text) returns (found: bool)
      modifies `m_history, `m_lastSavedUrl
      ensures found <==> FirstWith(old(m_history), url) < |old(m_history)|
      ensures !found ==> m_history == old(m_history) && m_lastSavedUrl == old(m_lastSavedUrl)
      ensures found ==>
                && var i := FirstWith(old(m_history), url);
                && m_history == old(m_history)[i := HistoryItem(title, url, old(m_history)[i].dateTime)]
                && m_lastSavedUrl == (if old(m_lastSavedUrl) == Empty then url else old(m_lastSavedUrl))
      ensures found && old(Valid()) ==>
                var harmless := old(FirstWith(m_history, url) < |m_history|
                                    && Harmless(file, m_history, savedCount, savedTitles, m_lastSavedUrl,
                                                FirstWith(m_history, url), title));
                && (SavesWell() <==> Loadable(m_history) && harmless)
                && AllTimed(m_history) && EndLives(m_history, checkedAt, m_historyLimit)
                && (harmless && (old(m_lastSavedUrl) != Empty || url == Empty
                                 || FirstWith(old(m_history), url) == |m_history| - savedCount) ==>
                      Valid() && LastSavedNotVisitedAgain())
    {
      hide FilesAs, ReadsAs, Written, Holds, EndLives, AllTimed, Unsorted, Retitled, TitlesAre, Loadable, Harmless;
      ghost var h, goal, last := m_history, FirstWith(m_history, url), m_lastSavedUrl;
      for i := 0 to |m_history|
        invariant i <= goal && m_history == h && m_lastSavedUrl == last
      {
        if m_history[i].url == url {
          m_history := m_history[i := m_history[i].(title := title)];
          if m_lastSavedUrl == Empty {
            m_lastSavedUrl := m_history[i].url;
          }
          if old(Valid()) {
            SavedAfterTitle(file, h, savedCount, dropped, checkedAt, m_historyLimit, savedTitles, last, i, title);
            TitleKeepsEnd(file, h, savedCount, dropped, checkedAt, m_historyLimit, last, i, title);
            if Harmless(file, h, savedCount, savedTitles, last, i, title)
               && (last != Empty || url == Empty || i == |h| - savedCount) {
              KnownAfterTitle(file, h, savedCount, dropped, checkedAt, m_historyLimit, savedTitles, last, i, title);
              HarmlessLast(file, h, savedCount, savedTitles, last, i, title);
            }
          }
          return true;
        }
      }
      found := false;
    }

    method Clear()
      modifies `m_history, `m_lastSavedUrl, `file, `savedCount, `savedTitles, `dropped
      ensures Valid() && m_history == [] && file == [] && m_lastSavedUrl == Empty
    {
      m_history := [];
      m_lastSavedUrl := Empty;
      Save();
      NothingHeld(file, checkedAt, m_historyLimit);
    }

    /** Reading the file. The list has the newest entry first, whatever the file holds: the items of
        its records, sorted if time goes back in it, without the expired end. Without a sort the file
        holds the list; with one, everything will be written anew. */
    method Load(now: int) returns (ghost sorted: seq<HistoryItem>)
      modifies `m_history, `m_lastSavedUrl, `m_expiredTimer, `savedCount, `savedTitles, `dropped, `checkedAt
      ensures Valid() && LastSavedNotVisitedAgain() && checkedAt == now
      ensures AllTimed(Items(file)) && (Unsorted(file) <==> TimeGoesBack(Items(file)))
      ensures multiset(sorted) == multiset(Reversed(Once(Items(file)))) && AllTimed(sorted)
      ensures m_history == Kept(sorted, now, m_historyLimit)
      ensures forall j, k :: 0 <= j <= k < |m_history| ==>
                && m_history[j].dateTime.Time? && m_history[k].dateTime.Time?
                && m_history[j].dateTime.seconds >= m_history[k].dateTime.seconds
      ensures !TimeGoesBack(Items(file)) ==>
                && sorted == Filed(file) == Reversed(Once(Items(file))) == m_history + dropped
                && savedCount == |m_history| && m_lastSavedUrl == (if m_history == [] then Empty else m_history[0].url)
      ensures TimeGoesBack(Items(file)) ==> m_lastSavedUrl == Empty
    {
      hide Loadable, Items, Once, Reversed, TimeGoesBack, Filed, Unsorted, Kept, Valid, Newest, Reads;
      var st := ReadRecords();
      FileReadsAs(file);
      ReadsIsFiled(file, Filed(file));
      LoadableMeans(Filed(file));
      var list := st.list;
      if st.needToSort {
        list := SortByTime(list);
      }
      sorted := list;
      InOrder(list, now, m_historyLimit);
      SetHistory(list, st.needToSort, now);
      NewestUrl(m_history);
    }

    /** The loop over the records. */
    method ReadRecords() returns (st: Loading)
      ensures st.list == Filed(file) && st.needToSort == Unsorted(file)
    {
      st := Start;
      assert file[..0] == [];
      for i := 0 to |file|
        invariant st == LoadFrom(Start, file[..i])
      {
        assert file[..i + 1][..i] == file[..i];
        st := Step(st, file[i]);
      }
      assert file[..|file|] == file;
    }

    /** `setHistory` for a list read from the file, and what follows it after a sort. */
    method SetHistory(list: seq<HistoryItem>, needToSort: bool, now: int)
      requires AllTimed(list) && needToSort == Unsorted(file) && (!needToSort ==> list == Filed(file))
      modifies `m_history, `m_lastSavedUrl, `m_expiredTimer, `savedCount, `savedTitles, `dropped, `checkedAt
      ensures Valid() && LastSavedNotVisitedAgain() && checkedAt == now
      ensures m_history == Kept(list, now, m_historyLimit)
      ensures needToSort ==> m_lastSavedUrl == Empty
      ensures !needToSort ==>
                && m_lastSavedUrl == Newest(m_history).url && savedCount == |m_history|
                && Filed(file) == m_history + dropped
    {
      hide FilesAs, Kept, Filed, Unsorted, EndLives, TitlesAre, TitlesKept, Titles;
      KnownOfLoaded(file, list, now, m_historyLimit);
      m_history, m_lastSavedUrl := list, Empty;
      savedCount, dropped, checkedAt := if needToSort then 0 else |list|, [], now;
      savedTitles := if needToSort then [] else Titles(list);
      CheckForExpired(now);
      if !needToSort {
        KnownWhole(file, m_history, dropped, checkedAt, m_historyLimit, savedTitles, m_lastSavedUrl);
        m_lastSavedUrl := Newest(m_history).url;
      }
    }
  }

  /** A session ends with a save, and the next one starts with what the file holds: whenever the save
      brings it up to date, exactly the list, but for what has expired meanwhile. */
  method NextSession(m: HistoryManager, now: int) returns (next: HistoryManager)
    requires m.SavesWell() && m.checkedAt <= now
    modifies m
    ensures fresh(next) && next.Valid() && next.LastSavedNotVisitedAgain()
    ensures AllTimed(old(m.m_history)) && next.m_history == Kept(old(m.m_history), now, old(m.m_historyLimit))
  {
    hide LoadFrom, Loadable, Unexpired, Reads, FirstWith, Holds, Gone, Retitled, Unsorted, Filed, TitlesAre, TitlesKept,
         ReadsAs, EndLives, Written, RecordsOf, Kept, TimeGoesBack, Items, Once, Reversed;
    m.Save();
    next := new HistoryManager(m.m_historyLimit, now);
    next.file := m.file;
    ReadsIsFiled(m.file, m.m_history + m.dropped);
    var sorted := next.Load(now);
    GoneLater(m.dropped, m.checkedAt, now, m.m_historyLimit);
    KeptAboveGone(m.m_history, m.dropped, now, m.m_historyLimit);
  }

  /** The whole list written to a new file. */
  lemma SaveAllReads(h: seq<HistoryItem>)
    ensures h[..|h|] == h && h + [] == h
    ensures Reads(Log(h), h) <==> Loadable(h)
  {
    assert Loadable([]);
    hide Log, Loadable, LoadFrom;
    LoadLog(Start, h);
    assert h + [] == h;
  }

  /** Records appended to a readable file. */
  lemma AppendReads(file: seq<Record>, base: seq<HistoryItem>, a: seq<HistoryItem>)
    requires Reads(file, base)
    ensures |Filed(file + Log(a))| <= |a| + |base|
    ensures Reads(file + Log(a), a + base) <==> Loadable(a + base)
  {
    hide Log, Loadable, LoadFrom, Newest;
    LoadedIsLoadable(file);
    LoadFromConcat(Start, file, Log(a));
    LoadLog(Loading(base, Newest(base), false), a);
  }

  /** The newest `count` entries appended to a file that reads as the list from `split` on: too few
      of them leave entries out. */
  lemma SaveNewReads(file: seq<Record>, h: seq<HistoryItem>, split: nat, count: nat, dropped: seq<HistoryItem>)
    requires split < |h| && count <= split && Reads(file, h[split..] + dropped)
    ensures Reads(file + Log(h[..count]), h + dropped) <==> count == split && Loadable(h)
  {
    hide *;
    if count == split {
      SaveRest(file, h, split, dropped);
    } else {
      SaveTooFew(file, h, split, count, dropped);
    }
  }

  lemma SaveRest(file: seq<Record>, h: seq<HistoryItem>, split: nat, dropped: seq<HistoryItem>)
    requires split < |h| && Reads(file, h[split..] + dropped)
    ensures Reads(file + Log(h[..split]), h + dropped) <==> Loadable(h)
  {
    hide *;
    SplitAt(h, split, dropped);
    AppendOverlap(file, h[..split], h[split..], dropped);
  }

  lemma SplitAt(h: seq<HistoryItem>, split: nat, dropped: seq<HistoryItem>)
    requires split < |h|
    ensures h[..split] + h[split..] == h && h[..split] + (h[split..] + dropped) == h + dropped && h[split..] != []
  {
  }

  lemma AppendOverlap(file: seq<Record>, a: seq<HistoryItem>, b: seq<HistoryItem>, dropped: seq<HistoryItem>)
    requires b != [] && Reads(file, b + dropped)
    ensures Reads(file + Log(a), a + (b + dropped)) <==> Loadable(a + b)
  {
    hide *;
    ReadsIsFiled(file, b + dropped);
    AppendReads(file, b + dropped, a);
    LoadableOverlap(a, b, dropped);
  }

  lemma SaveTooFew(file: seq<Record>, h: seq<HistoryItem>, split: nat, count: nat, dropped: seq<HistoryItem>)
    requires count < split < |h| && Reads(file, h[split..] + dropped)
    ensures !Reads(file + Log(h[..count]), h + dropped)
  {
    hide *;
    AppendReads(file, h[split..] + dropped, h[..count]);
    ReadsIsFiled(file + Log(h[..count]), h + dropped);
  }

  lemma {:induction false} LoadedIsTimed(records: seq<Record>)
    ensures AllTimed(LoadFrom(Start, records).list)
  {
    if records != [] {
      LoadedIsTimed(records[..|records| - 1]);
    }
  }

  function Insert(h: seq<HistoryItem>, x: HistoryItem): seq<HistoryItem>
    requires AllTimed(h) && x.dateTime.Time?
  {
    if h == [] || h[0].dateTime.seconds < x.dateTime.seconds then [x] + h else [h[0]] + Insert(h[1..], x)
  }

  lemma {:induction false} InsertAdds(h: seq<HistoryItem>, x: HistoryItem)
    requires AllTimed(h) && x.dateTime.Time?
    ensures multiset(Insert(h, x)) == multiset(h) + multiset{x}
    ensures AllTimed(Insert(h, x))
  {
    if h != [] && h[0].dateTime.seconds >= x.dateTime.seconds {
      InsertAdds(h[1..], x);
      assert h == [h[0]] + h[1..];
    }
  }

  lemma NewestFirstCons(x: HistoryItem, h: seq<HistoryItem>)
    requires x.dateTime.Time? && AllTimed(h)
    ensures AllTimed([x] + h)
    ensures NewestFirst([x] + h) <==> NewestFirst(h) && (h != [] ==> x.dateTime.seconds >= h[0].dateTime.seconds)
  {
    assert ([x] + h)[1..] == h;
  }

  /** Inserted into a sorted list, `x` lands between what is newer and what is older. */
  lemma {:induction false} InsertSorts(h: seq<HistoryItem>, x: HistoryItem)
    requires AllTimed(h) && NewestFirst(h) && x.dateTime.Time?
    ensures AllTimed(Insert(h, x)) && NewestFirst(Insert(h, x))
    ensures Insert(h, x) != []
    ensures Insert(h, x)[0] == if h == [] || h[0].dateTime.seconds < x.dateTime.seconds then x else h[0]
  {
    hide NewestFirst;
    NewestFirstCons(x, h);
    if h != [] && h[0].dateTime.seconds >= x.dateTime.seconds {
      assert h == [h[0]] + h[1..];
      NewestFirstCons(h[0], h[1..]);
      InsertSorts(h[1..], x);
      NewestFirstCons(h[0], Insert(h[1..], x));
    }
  }

  /** The library's sort, which promises no more than a sorted permutation. */
  method SortByTime(h: seq<HistoryItem>) returns (r: seq<HistoryItem>)
    requires AllTimed(h)
    ensures AllTimed(r) && NewestFirst(r) && multiset(r) == multiset(h)
  {
    hide Insert;
    r := [];
    for i := 0 to |h|
      invariant AllTimed(r) && NewestFirst(r) && multiset(r) == multiset(h[..i])
    {
      assert h[..i + 1] == h[..i] + [h[i]];
      InsertSorts(r, h[i]);
      InsertAdds(r, h[i]);
      r := Insert(r, h[i]);
    }
    assert h[..|h|] == h;
  }

  /** A first visit, its title change and a save: nothing is written at all. */
  method RetitleFirstVisit(item: HistoryItem, title: Text, now: int, limit: int) returns (m: HistoryManager)
    requires item.dateTime.Time? && item.url != Empty && (limit >= 0 ==> !Expired(item, now, limit))
    ensures fresh(m) && m.m_history == [item.(title := title)] && m.file == [] && !m.ReadsBack()
  {
    hide LoadFrom, Log, Unexpired, FirstWith, Kept, Holds, Gone, Retitled, Unsorted, Filed, Loadable, Reads,
        ReadsAs, TitlesAre, TitlesKept, EndLives;
    OneVisit(item, title, now, limit);
    m := new HistoryManager(limit, now);
    m.AddHistoryItem(item, false, now);
    var found := m.UpdateHistoryItem(item.url, title);
    m.Save();
    NothingRead(m.m_history, m.checkedAt, limit);
  }

  lemma OneVisit(item: HistoryItem, title: Text, now: int, limit: int)
    requires item.dateTime.Time? && (limit >= 0 ==> !Expired(item, now, limit))
    ensures AllTimed([item]) && Kept([item], now, limit) == [item]
    ensures FirstWith([item], item.url) == 0 == FirstWith([item.(title := title)], item.url)
    ensures [item][0 := item.(title := title)] == [item.(title := title)]
    ensures Log([item.(title := title)][..0]) == []
  {
  }

  lemma NothingRead(h: seq<HistoryItem>, at: int, limit: int)
    ensures h != [] ==> !ReadsAs([], h, at, limit)
  {
    ReadsAsMeans([], h, at, limit);
  }

  lemma TwoVisits(a: HistoryItem, b: HistoryItem, title: Text, before: int, now: int, limit: nat)
    requires a.dateTime.Time? && b.dateTime.Time? && a.dateTime.seconds > b.dateTime.seconds
    requires !Expired(b, before, limit) && Expired(b, now, limit) && !Expired(a, now, limit)
    ensures AllTimed([b]) && Kept([b], before, limit) == [b] && [a] + [b] == [a, b] && Loadable([a, b])
    ensures AllTimed([a, b]) && Kept([a, b], now, limit) == [a]
    ensures FirstWith([a], a.url) == 0 == FirstWith([a.(title := title)], a.url)
    ensures [a][0 := a.(title := title)] == [a.(title := title)]
    ensures [a.(title := title)][..0] == [] && Log([]) == [] && Loadable([a.(title := title)])
  {
    LoadableCons(a, [b]);
    LoadableCons(a.(title := title), []);
    LoadableCons(b, []);
    assert [b] + [] == [b] && [a, b][..1] == [a];
    assert AllTimed([a]) && Unexpired([a], now, limit) == [a];
  }

  /** After an expiry no page is known to be saved last; a title change then makes its page count as
      saved. The next save writes nothing, so that the file reads as the list only if the title is the
      old one. */
  method RetitleAfterExpiry(a: HistoryItem, b: HistoryItem, title: Text, before: int, now: int, limit: nat)
    returns (m: HistoryManager)
    requires a.dateTime.Time? && b.dateTime.Time? && a.url != Empty && before <= now
    requires a.dateTime.seconds > b.dateTime.seconds
    requires !Expired(b, before, limit) && Expired(b, now, limit) && !Expired(a, now, limit)
    ensures fresh(m) && m.m_history == [a.(title := title)] && Reads(m.file, [a, b])
    ensures m.ReadsBack() <==> title == a.title
  {
    hide LoadFrom, Log, Unexpired, FirstWith, Kept, Holds, Gone, Retitled, Unsorted, Filed, Loadable, Reads,
        ReadsAs, TitlesAre, TitlesKept, EndLives;
    TwoVisits(a, b, title, before, now, limit);
    m := SaveTwo(a, b, before, limit);
    ReadsIsFiled(m.file, [a, b]);
    m.CheckForExpired(now);
    var found := m.UpdateHistoryItem(a.url, title);
    ghost var file := m.file;
    assert file + [] == file;
    m.Save();
    assert m.file == file;
  }

  /** A run that saves two visits. */
  method SaveTwo(a: HistoryItem, b: HistoryItem, before: int, limit: nat) returns (m: HistoryManager)
    requires Loadable([a, b]) && a.dateTime.Time? && b.dateTime.Time? && a.url != Empty
    requires AllTimed([b]) && Kept([b], before, limit) == [b]
    ensures fresh(m) && m.Valid() && m.m_history == [a, b] && m.savedCount == 2 && m.m_historyLimit == limit
    ensures Reads(m.file, [a, b]) && m.m_lastSavedUrl == a.url && m.checkedAt <= before
    ensures m.NoneRetitled()
  {
    hide LoadFrom, Log, Unexpired, FirstWith, Kept, Holds, Gone, Retitled, Unsorted, Filed, Loadable, Reads,
        ReadsAs, TitlesAre, TitlesKept, EndLives;
    assert [a] + [b] == [a, b] && [a, b] + [] == [a, b];
    m := new HistoryManager(limit, before);
    m.AddHistoryItem(b, false, before);
    m.AddHistoryItem(a, false, before);
    m.EndsAlive();
    SaveAllReads([a, b]);
    m.Save();
  }
}
