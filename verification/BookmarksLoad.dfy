/** What loading makes of the tree in a bookmarks file: a root with exactly a folder for the bar and
    one for the menu. */
module BookmarksLoad {
  import opened Xbel

  const BOOKMARK_BAR := "Bookmarks Bar"
  const BOOKMARK_MENU := "Bookmarks Menu"
  /** Titles of older files. */
  const OLD_BAR := "Toolbar Bookmarks"
  const OLD_MENU := "Menu"

  predicate IsBar(n: Node) {
    n.kind == Folder && (n.title == OLD_BAR || n.title == BOOKMARK_BAR)
  }

  predicate IsMenu(n: Node) {
    n.kind == Folder && (n.title == OLD_MENU || n.title == BOOKMARK_MENU)
  }

  datatype Option = None | Some(node: Node)

  /** The last folder that can be the bar, under its present title. */
  function LastBar(ns: seq<Node>): Option {
    if ns == [] then None
    else if IsBar(ns[|ns| - 1]) then Some(ns[|ns| - 1].(title := BOOKMARK_BAR))
    else LastBar(ns[..|ns| - 1])
  }

  function LastMenu(ns: seq<Node>): Option {
    if ns == [] then None
    else if IsMenu(ns[|ns| - 1]) then Some(ns[|ns| - 1].(title := BOOKMARK_MENU))
    else LastMenu(ns[..|ns| - 1])
  }

  /** What is no folder, last first. */
  function Others(ns: seq<Node>): seq<Node> {
    if ns == [] then []
    else (if ns[|ns| - 1].kind == Folder then [] else [ns[|ns| - 1]]) + Others(ns[..|ns| - 1])
  }

  function OrNew(o: Option, title: string): Node {
    if o.Some? then o.node else NewNode(Folder).(title := title)
  }

  function Loaded(root: Node): Node {
    var bar := OrNew(LastBar(root.children), BOOKMARK_BAR);
    var menu := OrNew(LastMenu(root.children), BOOKMARK_MENU);
    root.(children := [bar, menu.(children := menu.children + Others(root.children))])
  }

  // ---- The same by position ----------------------------------------------------------------------

  /** Child `i` is the last folder with one of the two titles. */
  ghost predicate LastTitled(ns: seq<Node>, i: int, a: string, b: string) {
    && 0 <= i < |ns| && ns[i].kind == Folder && (ns[i].title == a || ns[i].title == b)
    && forall j :: i < j < |ns| && ns[j].kind == Folder ==> ns[j].title != a && ns[j].title != b
  }

  /** How many children are no folders. */
  function CountOthers(ns: seq<Node>): nat {
    if ns == [] then 0 else CountOthers(ns[..|ns| - 1]) + if ns[|ns| - 1].kind == Folder then 0 else 1
  }

  /** `more` is what is no folder among the children, in reverse order. */
  ghost predicate OthersReversed(ns: seq<Node>, more: seq<Node>) {
    && |more| == CountOthers(ns)
    && forall i :: 0 <= i < |ns| && ns[i].kind != Folder ==>
         0 <= |more| - 1 - CountOthers(ns[..i]) < |more| && more[|more| - 1 - CountOthers(ns[..i])] == ns[i]
  }

  /** The folder found, under its new title; a new one if there is none. */
  ghost predicate FoundOrNew(ns: seq<Node>, a: string, b: string, folder: Node) {
    && (forall i :: LastTitled(ns, i, a, b) ==> folder == ns[i].(title := b))
    && ((forall i :: !LastTitled(ns, i, a, b)) ==> folder == Node(Folder, "", b, "", false, []))
  }

  /** What loading makes of a tree: the bar, and the menu with everything that is no folder behind what
      it has itself. */
  ghost predicate IsLoaded(root: Node, loaded: Node) {
    && |loaded.children| == 2 && loaded == root.(children := loaded.children)
    && FoundOrNew(root.children, "Toolbar Bookmarks", "Bookmarks Bar", loaded.children[0])
    && var menu, n := loaded.children[1], CountOthers(root.children);
    && n <= |menu.children|
    && FoundOrNew(root.children, "Menu", "Bookmarks Menu", menu.(children := menu.children[..|menu.children| - n]))
    && OthersReversed(root.children, menu.children[|menu.children| - n..])
  }

  lemma OthersAreReversed(ns: seq<Node>)
    ensures OthersReversed(ns, Others(ns))
  {
    OthersSize(ns);
    hide Others, CountOthers;
    forall i | 0 <= i < |ns| && ns[i].kind != Folder
      ensures 0 <= |Others(ns)| - 1 - CountOthers(ns[..i]) < |Others(ns)|
      ensures Others(ns)[|Others(ns)| - 1 - CountOthers(ns[..i])] == ns[i]
    {
      OtherAt(ns, i);
    }
  }

  lemma {:induction false} OthersSize(ns: seq<Node>)
    ensures |Others(ns)| == CountOthers(ns)
  {
    if ns != [] {
      OthersSize(ns[..|ns| - 1]);
    }
  }

  lemma {:induction false} OthersStep(ns: seq<Node>)
    requires ns != []
    ensures var n := |ns| - 1;
            Others(ns) == (if ns[n].kind == Folder then [] else [ns[n]]) + Others(ns[..n])
  {
  }

  lemma {:induction false} OtherAt(ns: seq<Node>, i: nat)
    requires i < |ns| && ns[i].kind != Folder
    ensures 0 <= |Others(ns)| - 1 - CountOthers(ns[..i]) < |Others(ns)|
    ensures Others(ns)[|Others(ns)| - 1 - CountOthers(ns[..i])] == ns[i]
  {
    hide Others, CountOthers;
    var n := |ns| - 1;
    OthersStep(ns);
    OthersSize(ns[..i]);
    OthersSize(ns[..n]);
    if i < n {
      assert ns[..n][..i] == ns[..i] && ns[..n][i] == ns[i];
      OtherAt(ns[..n], i);
      var k := |Others(ns[..n])| - 1 - CountOthers(ns[..i]);
      BehindFront(if ns[n].kind == Folder then [] else [ns[n]], Others(ns[..n]), k);
    }
  }

  lemma BehindFront(x: seq<Node>, rest: seq<Node>, k: int)
    requires 0 <= k < |rest|
    ensures (x + rest)[|x| + k] == rest[k]
  {
  }

  lemma {:induction false} LastBarIs(ns: seq<Node>)
    ensures forall i :: LastTitled(ns, i, OLD_BAR, BOOKMARK_BAR) ==> LastBar(ns) == Some(ns[i].(title := BOOKMARK_BAR))
    ensures (forall i :: !LastTitled(ns, i, OLD_BAR, BOOKMARK_BAR)) ==> LastBar(ns) == None
  {
    if ns != [] {
      var n := |ns| - 1;
      LastBarIs(ns[..n]);
      LastTitledStep(ns, OLD_BAR, BOOKMARK_BAR);
      LastBarStep(ns);
      assert forall i :: 0 <= i < n ==> ns[..n][i] == ns[i];
      TitlesOfLast(ns[..n], OLD_BAR, BOOKMARK_BAR);
      hide LastTitled, LastBar;
      if IsBar(ns[n]) {
        assert LastTitled(ns, n, OLD_BAR, BOOKMARK_BAR);
      } else if forall i :: !LastTitled(ns, i, OLD_BAR, BOOKMARK_BAR) {
        forall i
          ensures !LastTitled(ns[..n], i, OLD_BAR, BOOKMARK_BAR)
        {
          assert !LastTitled(ns, i, OLD_BAR, BOOKMARK_BAR);
        }
      }
    }
  }

  lemma {:induction false} LastMenuIs(ns: seq<Node>)
    ensures forall i :: LastTitled(ns, i, OLD_MENU, BOOKMARK_MENU) ==>
              LastMenu(ns) == Some(ns[i].(title := BOOKMARK_MENU))
    ensures (forall i :: !LastTitled(ns, i, OLD_MENU, BOOKMARK_MENU)) ==> LastMenu(ns) == None
  {
    if ns != [] {
      var n := |ns| - 1;
      LastMenuIs(ns[..n]);
      LastTitledStep(ns, OLD_MENU, BOOKMARK_MENU);
      LastMenuStep(ns);
      assert forall i :: 0 <= i < n ==> ns[..n][i] == ns[i];
      TitlesOfLast(ns[..n], OLD_MENU, BOOKMARK_MENU);
      hide LastTitled, LastMenu;
      if IsMenu(ns[n]) {
        assert LastTitled(ns, n, OLD_MENU, BOOKMARK_MENU);
      } else if forall i :: !LastTitled(ns, i, OLD_MENU, BOOKMARK_MENU) {
        forall i
          ensures !LastTitled(ns[..n], i, OLD_MENU, BOOKMARK_MENU)
        {
          assert !LastTitled(ns, i, OLD_MENU, BOOKMARK_MENU);
        }
      }
    }
  }

  lemma {:induction false} LastBarStep(ns: seq<Node>)
    requires ns != []
    ensures var n := ns[|ns| - 1];
            LastBar(ns) == if IsBar(n) then Some(n.(title := BOOKMARK_BAR)) else LastBar(ns[..|ns| - 1])
  {
  }

  lemma {:induction false} LastMenuStep(ns: seq<Node>)
    requires ns != []
    ensures var n := ns[|ns| - 1];
            LastMenu(ns) == if IsMenu(n) then Some(n.(title := BOOKMARK_MENU)) else LastMenu(ns[..|ns| - 1])
  {
  }

  lemma LastTitledStep(ns: seq<Node>, a: string, b: string)
    requires ns != []
    ensures var n := |ns| - 1;
            if ns[n].kind == Folder && (ns[n].title == a || ns[n].title == b)
            then forall i :: LastTitled(ns, i, a, b) <==> i == n
            else forall i :: LastTitled(ns, i, a, b) <==> LastTitled(ns[..n], i, a, b)
  {
    var n := |ns| - 1;
    assert forall j :: 0 <= j < n ==> ns[..n][j] == ns[j];
    if !(ns[n].kind == Folder && (ns[n].title == a || ns[n].title == b)) {
      forall i
        ensures LastTitled(ns, i, a, b) <==> LastTitled(ns[..n], i, a, b)
      {
        if LastTitled(ns, i, a, b) {
          assert forall j :: i < j < n && ns[..n][j].kind == Folder ==> ns[..n][j].title != a && ns[..n][j].title != b;
        }
      }
    }
  }

  lemma LoadedIs(root: Node)
    ensures IsLoaded(root, Loaded(root))
  {
    hide LastBar, LastMenu, Others, LastTitled, OthersReversed, CountOthers;
    var ns := root.children;
    LastBarIs(ns);
    LastMenuIs(ns);
    OthersAreReversed(ns);
    OthersCount(ns);
    var menu := OrNew(LastMenu(ns), BOOKMARK_MENU);
    assert (menu.children + Others(ns))[..|menu.children|] == menu.children;
    assert (menu.children + Others(ns))[|menu.children|..] == Others(ns);
  }

  lemma OthersCount(ns: seq<Node>)
    ensures OthersReversed(ns, Others(ns)) ==> |Others(ns)| == CountOthers(ns)
  {
  }

  /** What is chosen among the root's children, and what is put back afterwards: nothing but folders
      is lost. */
  method Load(root: Node) returns (loaded: Node)
    ensures loaded == Loaded(root) && IsLoaded(root, loaded)
    ensures forall i :: 0 <= i < |root.children| && root.children[i].kind != Folder ==>
              root.children[i] in loaded.children[1].children
  {
    var toolbar, menu, others := Choose(root.children);
    var bar := OrNew(toolbar, BOOKMARK_BAR);
    var bookmarks := OrNew(menu, BOOKMARK_MENU);
    bookmarks := bookmarks.(children := bookmarks.children + others);
    loaded := root.(children := [bar, bookmarks]);
    hide IsLoaded;
    LoadedIs(root);
    InMenu(root, loaded);
  }

  /** The loop over the root's children, from the last. */
  method Choose(ns: seq<Node>) returns (toolbar: Option, menu: Option, others: seq<Node>)
    ensures toolbar == LastBar(ns) && menu == LastMenu(ns) && others == Others(ns)
  {
    toolbar, menu, others := None, None, [];
    var i := |ns|;
    TitlesDiffer();
    NothingLoaded();
    hide LastBar, LastMenu, Others;
    assert ns[..|ns|] == ns && [] + Others(ns) == Others(ns);
    while i > 0
      invariant 0 <= i <= |ns|
      invariant LastBar(ns) == if toolbar.Some? then toolbar else LastBar(ns[..i])
      invariant LastMenu(ns) == if menu.Some? then menu else LastMenu(ns[..i])
      invariant Others(ns) == others + Others(ns[..i])
    {
      ChildStep(ns, i, others);
      i := i - 1;
      var node := ns[i];
      if node.kind == Folder {
        if node.title == OLD_BAR && toolbar == None {
          node := node.(title := BOOKMARK_BAR);
        }
        if node.title == BOOKMARK_BAR && toolbar == None {
          toolbar := Some(node);
        }
        if node.title == OLD_MENU && menu == None {
          node := node.(title := BOOKMARK_MENU);
        }
        if node.title == BOOKMARK_MENU && menu == None {
          menu := Some(node);
        }
      } else {
        others := others + [node];
      }
    }
    assert ns[..0] == [] && others + [] == others;
  }

  lemma InMenu(root: Node, loaded: Node)
    requires IsLoaded(root, loaded)
    ensures forall i :: 0 <= i < |root.children| && root.children[i].kind != Folder ==>
              root.children[i] in loaded.children[1].children
  {
    hide CountOthers, FoundOrNew;
    var all, n := loaded.children[1].children, CountOthers(root.children);
    forall i | 0 <= i < |root.children| && root.children[i].kind != Folder
      ensures root.children[i] in all
    {
      assert all[|all| - n..][n - 1 - CountOthers(root.children[..i])] == root.children[i];
    }
  }

  lemma NothingLoaded()
    ensures LastBar([]) == None == LastMenu([]) && Others([]) == []
  {
  }

  /** The last of the first `i` children. */
  lemma ChildStep(ns: seq<Node>, i: nat, others: seq<Node>)
    requires 0 < i <= |ns|
    ensures var n, front := ns[i - 1], ns[..i - 1];
            && LastBar(ns[..i]) == (if IsBar(n) then Some(n.(title := BOOKMARK_BAR)) else LastBar(front))
            && LastMenu(ns[..i]) == (if IsMenu(n) then Some(n.(title := BOOKMARK_MENU)) else LastMenu(front))
            && others + Others(ns[..i]) == (if n.kind == Folder then others else others + [n]) + Others(front)
  {
    var n, front := ns[i - 1], ns[..i - 1];
    assert ns[..i][..i - 1] == front && ns[..i][i - 1] == n;
    assert [] + Others(front) == Others(front);
    assert others + ([n] + Others(front)) == others + [n] + Others(front);
  }

  lemma TitlesDiffer()
    ensures OLD_BAR != OLD_MENU && OLD_BAR != BOOKMARK_MENU && BOOKMARK_BAR != OLD_MENU && BOOKMARK_BAR != BOOKMARK_MENU
    ensures OLD_BAR != BOOKMARK_BAR && OLD_MENU != BOOKMARK_MENU
  {
    assert OLD_BAR[0] == 'T' && OLD_MENU[0] == 'M' && BOOKMARK_BAR[0] == 'B' && BOOKMARK_MENU[0] == 'B';
    assert |BOOKMARK_BAR| != |BOOKMARK_MENU|;
  }

  lemma BarAndMenuDiffer(n: Node)
    ensures !(IsBar(n) && IsMenu(n))
  {
    TitlesDiffer();
  }

  /** Loading what was loaded changes nothing. */
  lemma LoadIsStable(root: Node)
    ensures Loaded(Loaded(root)) == Loaded(root)
  {
    var bar, menu := Loaded(root).children[0], Loaded(root).children[1];
    ChosenTitles(root.children);
    ChosenOfPair(bar, menu);
    assert menu.children + [] == menu.children;
  }

  lemma {:induction false} ChosenTitles(ns: seq<Node>)
    ensures LastBar(ns).Some? ==> LastBar(ns).node.kind == Folder && LastBar(ns).node.title == BOOKMARK_BAR
    ensures LastMenu(ns).Some? ==> LastMenu(ns).node.kind == Folder && LastMenu(ns).node.title == BOOKMARK_MENU
  {
    if ns != [] {
      ChosenTitles(ns[..|ns| - 1]);
    }
  }

  /** How many of the root's children are kept. */
  function KeptCount(ns: seq<Node>): nat {
    |Others(ns)| + (if LastBar(ns).Some? then 1 else 0) + (if LastMenu(ns).Some? then 1 else 0)
  }

  /** Every folder is a bar or a menu, and there is at most one of each. */
  predicate NothingToDrop(ns: seq<Node>) {
    ns == []
    || (var rest, n := ns[..|ns| - 1], ns[|ns| - 1];
        NothingToDrop(rest)
        && (n.kind == Folder ==> (IsBar(n) && LastBar(rest) == None) || (IsMenu(n) && LastMenu(rest) == None)))
  }

  /** A child that is kept: no folder, or the last that can be the bar or the menu. */
  ghost predicate IsKept(ns: seq<Node>, i: int) {
    && 0 <= i < |ns|
    && (ns[i].kind != Folder
        || LastTitled(ns, i, "Toolbar Bookmarks", "Bookmarks Bar") || LastTitled(ns, i, "Menu", "Bookmarks Menu"))
  }

  /** All children are kept exactly then: a folder at the top with another title, or a second bar or
      menu, is lost. */
  lemma KeepsAllExactlyWhen(ns: seq<Node>)
    ensures KeptCount(ns) <= |ns|
    ensures KeptCount(ns) == |ns| <==> NothingToDrop(ns)
    ensures NothingToDrop(ns) <==> forall i :: 0 <= i < |ns| ==> IsKept(ns, i)
  {
    KeptByCount(ns);
    KeptByPlace(ns);
  }

  lemma {:induction false} KeptByPlace(ns: seq<Node>)
    ensures NothingToDrop(ns) <==> forall i :: 0 <= i < |ns| ==> IsKept(ns, i)
  {
    if ns != [] {
      var rest := ns[..|ns| - 1];
      KeptByPlace(rest);
      LastBarIs(rest);
      LastMenuIs(rest);
      KeptStep(ns);
      hide LastBar, LastMenu, LastTitled, IsKept, IsBar, IsMenu;
    }
  }

  /** No folder can have one of the two titles. */
  ghost predicate NoneTitled(ns: seq<Node>, a: string, b: string) {
    forall i :: !LastTitled(ns, i, a, b)
  }

  lemma KeptStep(ns: seq<Node>)
    requires ns != []
    ensures var rest, n := ns[..|ns| - 1], ns[|ns| - 1];
            (forall i :: 0 <= i < |ns| ==> IsKept(ns, i)) <==>
            (forall i :: 0 <= i < |rest| ==> IsKept(rest, i))
            && (n.kind == Folder ==>
                  || (IsBar(n) && NoneTitled(rest, OLD_BAR, BOOKMARK_BAR))
                  || (IsMenu(n) && NoneTitled(rest, OLD_MENU, BOOKMARK_MENU)))
  {
    var rest, n := ns[..|ns| - 1], ns[|ns| - 1];
    LastTitledStep(ns, OLD_BAR, BOOKMARK_BAR);
    LastTitledStep(ns, OLD_MENU, BOOKMARK_MENU);
    TitlesDiffer();
    TitlesOfLast(rest, OLD_BAR, BOOKMARK_BAR);
    TitlesOfLast(rest, OLD_MENU, BOOKMARK_MENU);
    assert forall i :: 0 <= i < |rest| ==> ns[i] == rest[i];
    hide LastTitled;
    if forall i :: 0 <= i < |ns| ==> IsKept(ns, i) {
      assert IsKept(ns, |rest|);
      forall i | 0 <= i < |rest|
        ensures IsKept(rest, i)
      {
        assert IsKept(ns, i);
      }
      forall i
        ensures IsBar(n) ==> !LastTitled(rest, i, OLD_BAR, BOOKMARK_BAR)
        ensures IsMenu(n) ==> !LastTitled(rest, i, OLD_MENU, BOOKMARK_MENU)
      {
        if 0 <= i < |rest| {
          assert IsKept(ns, i);
        }
      }
    } else {
      var i :| 0 <= i < |ns| && !IsKept(ns, i);
      if i < |rest| {
        assert || !IsKept(rest, i)
               || LastTitled(rest, i, OLD_BAR, BOOKMARK_BAR) || LastTitled(rest, i, OLD_MENU, BOOKMARK_MENU);
      }
    }
  }

  lemma TitlesOfLast(ns: seq<Node>, a: string, b: string)
    ensures forall i :: LastTitled(ns, i, a, b) ==>
              0 <= i < |ns| && ns[i].kind == Folder && (ns[i].title == a || ns[i].title == b)
  {
  }

  lemma {:induction false} KeptByCount(ns: seq<Node>)
    ensures KeptCount(ns) <= |ns|
    ensures KeptCount(ns) == |ns| <==> NothingToDrop(ns)
  {
    if ns != [] {
      var n := ns[|ns| - 1];
      KeptByCount(ns[..|ns| - 1]);
      BarAndMenuDiffer(n);
      hide IsBar, IsMenu;
      NoFolder(n);
    }
  }

  lemma NoFolder(n: Node)
    ensures n.kind != Folder ==> !IsBar(n) && !IsMenu(n)
  {
  }

  /** A session: the tree of any file is loaded, saved and, in the next session, read and loaded again.
      Loading then changes nothing more; the tree is what a file can hold of the one saved, and it is
      that very tree if and only if a file can hold all of it. */
  lemma SessionKeepsTree(root: Node)
    requires root.kind == Root
    ensures Loaded(StoredTree(Loaded(root))) == StoredTree(Loaded(root))
    ensures Loaded(StoredTree(Loaded(root))) == Loaded(root) <==> StorableTree(Loaded(root))
  {
    hide LastBar, LastMenu, Others, StoredAll, AllStorable;
    var loaded := Loaded(root);
    ChosenTitles(root.children);
    var bar, menu := loaded.children[0], loaded.children[1];
    assert loaded.children == [bar] + [menu];
    StoredPair(bar, menu);
    var stored := StoredTree(loaded);
    assert stored.children == [stored.children[0], stored.children[1]];
    ChosenOfPair(stored.children[0], stored.children[1]);
    assert stored.children[1].children + [] == stored.children[1].children;
    StoredAllIsSame(loaded.children);
  }

  lemma StoredPair(bar: Node, menu: Node)
    requires bar.kind == Folder && menu.kind == Folder
    ensures var ns := StoredAll([bar] + [menu]);
            && |ns| == 2 && ns[0].kind == Folder == ns[1].kind
            && ns[0].title == bar.title && ns[1].title == menu.title
  {
    assert ([bar] + [menu])[1..] == [menu] && [menu][1..] == [];
    hide StoredAll;
    StoredStep(bar, [menu]);
    StoredStep(menu, []);
  }

  lemma StoredStep(n: Node, ns: seq<Node>)
    ensures StoredAll([n] + ns) == Stored(n) + StoredAll(ns) && StoredAll([]) == [] && [n] + [] == [n]
  {
    assert ([n] + ns)[1..] == ns;
  }

  /** A bar and a menu are chosen as they are. */
  lemma ChosenOfPair(bar: Node, menu: Node)
    requires bar.kind == Folder == menu.kind && bar.title == BOOKMARK_BAR && menu.title == BOOKMARK_MENU
    ensures LastBar([bar, menu]) == Some(bar) && LastMenu([bar, menu]) == Some(menu) && Others([bar, menu]) == []
  {
    var ns := [bar, menu];
    assert ns[..1] == [bar] && [bar][..0] == [];
    BarAndMenuDiffer(bar);
    BarAndMenuDiffer(menu);
    assert LastBar(ns) == LastBar([bar]);
    assert Others(ns) == [] + ([] + Others([]));
  }

  /** Of a tree that a file can hold, loading makes one that a file can hold. */
  lemma LoadKeepsStorable(root: Node)
    requires StorableTree(root)
    ensures StorableTree(Loaded(root))
  {
    hide LastBar, LastMenu, Others, Storable, AllStorable;
    ChosenAreStorable(root.children);
    var bar, menu := OrNew(LastBar(root.children), BOOKMARK_BAR), OrNew(LastMenu(root.children), BOOKMARK_MENU);
    var full := menu.(children := menu.children + Others(root.children));
    FolderIsStorable(menu);
    FolderIsStorable(full);
    StorableConcat(menu.children, Others(root.children));
    OneIsStorable(full);
    StorableConcat([bar], [full]);
    OneIsStorable(bar);
    assert [bar] + [full] == [bar, full];
  }

  lemma FolderIsStorable(n: Node)
    requires n.kind == Folder
    ensures Storable(n) <==> n.url == "" && n.desc == "" && AllStorable(n.children)
    ensures Storable(NewNode(Folder).(title := n.title))
  {
  }

  lemma OneIsStorable(n: Node)
    ensures AllStorable([n]) <==> Storable(n)
  {
    assert [n][1..] == [] && AllStorable([]);
  }

  lemma {:induction false} StorableConcat(a: seq<Node>, b: seq<Node>)
    ensures AllStorable(a + b) <==> AllStorable(a) && AllStorable(b)
  {
    hide Storable;
    if a == [] {
      assert a + b == b;
    } else {
      StorableConcat(a[1..], b);
      assert (a + b)[1..] == a[1..] + b;
    }
  }

  lemma {:induction false} ChosenAreStorable(ns: seq<Node>)
    requires AllStorable(ns)
    ensures AllStorable(Others(ns))
    ensures Storable(OrNew(LastBar(ns), BOOKMARK_BAR)) && OrNew(LastBar(ns), BOOKMARK_BAR).kind == Folder
    ensures Storable(OrNew(LastMenu(ns), BOOKMARK_MENU)) && OrNew(LastMenu(ns), BOOKMARK_MENU).kind == Folder
  {
    hide *;
    ChosenUnfold(ns);
    if ns != [] {
      var rest, n := ns[..|ns| - 1], ns[|ns| - 1];
      assert ns == rest + [n];
      StorableConcat(rest, [n]);
      OneIsStorable(n);
      ChosenAreStorable(rest);
      StorableConcat(if n.kind == Folder then [] else [n], Others(rest));
      RetitledIsStorable(n);
    }
  }

  lemma ChosenUnfold(ns: seq<Node>)
    ensures ns == [] ==> AllStorable(Others(ns)) && LastBar(ns) == None && LastMenu(ns) == None
    ensures AllStorable([]) && Storable(OrNew(None, BOOKMARK_BAR)) && Storable(OrNew(None, BOOKMARK_MENU))
    ensures OrNew(None, BOOKMARK_BAR).kind == Folder == OrNew(None, BOOKMARK_MENU).kind
    ensures ns != [] ==>
              var rest, n := ns[..|ns| - 1], ns[|ns| - 1];
              && Others(ns) == (if n.kind == Folder then [] else [n]) + Others(rest)
              && LastBar(ns) == (if IsBar(n) then Some(n.(title := BOOKMARK_BAR)) else LastBar(rest))
              && LastMenu(ns) == (if IsMenu(n) then Some(n.(title := BOOKMARK_MENU)) else LastMenu(rest))
  {
  }

  lemma RetitledIsStorable(n: Node)
    requires Storable(n)
    ensures IsBar(n) ==> Storable(OrNew(Some(n.(title := BOOKMARK_BAR)), BOOKMARK_BAR)) && n.kind == Folder
    ensures IsMenu(n) ==> Storable(OrNew(Some(n.(title := BOOKMARK_MENU)), BOOKMARK_MENU)) && n.kind == Folder
    ensures n.kind == Folder ==> OrNew(Some(n.(title := BOOKMARK_BAR)), BOOKMARK_BAR).kind == Folder
    ensures n.kind == Folder ==> OrNew(Some(n.(title := BOOKMARK_MENU)), BOOKMARK_MENU).kind == Folder
  {
  }
}
