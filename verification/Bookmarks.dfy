/** The bookmark tree in memory: nodes with links to parent and children, and the commands that an
    undo stack runs on it. */
module Bookmarks {
  import Xbel

  // ---- The nodes as one value --------------------------------------------------------------------

  /** The fields of a node that the commands touch. */
  datatype State = State(title: string, url: string, parent: BookmarkNode?, children: seq<BookmarkNode>)

  type Forest = map<BookmarkNode, State>

  function RemoveAll(xs: seq<BookmarkNode>, x: BookmarkNode): seq<BookmarkNode> {
    if xs == [] then [] else (if xs[0] == x then [] else [xs[0]]) + RemoveAll(xs[1..], x)
  }

  function Inserted(xs: seq<BookmarkNode>, offset: nat, x: BookmarkNode): seq<BookmarkNode>
    requires offset <= |xs|
  {
    xs[..offset] + [x] + xs[offset..]
  }

  ghost predicate Distinct(xs: seq<BookmarkNode>) {
    forall i, j :: 0 <= i < j < |xs| ==> xs[i] != xs[j]
  }

  /** The nodes after `parent->remove(child)`. */
  function Removed(f: Forest, parent: BookmarkNode, child: BookmarkNode): Forest
    requires parent in f && child in f
  {
    var g := f[child := f[child].(parent := null)];
    g[parent := g[parent].(children := RemoveAll(g[parent].children, child))]
  }

  /** The nodes once `child` has left its old parent. */
  function Left(f: Forest, child: BookmarkNode): Forest
    requires child in f && (f[child].parent != null ==> f[child].parent in f)
  {
    if f[child].parent == null then f else Removed(f, f[child].parent, child)
  }

  /** The nodes that `add` works on are there. */
  predicate CanAdd(f: Forest, parent: BookmarkNode, child: BookmarkNode) {
    parent in f && child in f && (f[child].parent != null ==> f[child].parent in f)
  }

  /** Where a list of this size takes an insertion: -1 stands for the end, and other places out of range
      for the nearest one. */
  function Place(size: nat, offset: int): (p: nat)
    ensures p <= size && (0 <= offset <= size ==> p == offset)
  {
    if offset == -1 || offset > size then size else if offset < 0 then 0 else offset
  }

  /** The nodes after `parent->add(child, offset)`. */
  function Added(f: Forest, parent: BookmarkNode, child: BookmarkNode, offset: int): Forest
    requires CanAdd(f, parent, child)
  {
    var g := Left(f, child);
    var h := g[child := g[child].(parent := parent)];
    var place := Place(|h[parent].children|, offset);
    h[parent := h[parent].(children := Inserted(h[parent].children, place, child))]
  }

  /** Each node that has a parent is listed there, once; and each listed child has that parent. */
  ghost predicate Consistent(f: Forest) {
    forall n :: n in f ==> NodeConsistent(f, n)
  }

  ghost predicate NodeConsistent(f: Forest, n: BookmarkNode)
    requires n in f
  {
    && (f[n].parent != null ==> f[n].parent in f && n in f[f[n].parent].children)
    && (forall c :: c in f[n].children ==> c in f && f[c].parent == n)
    && Distinct(f[n].children)
  }

  lemma {:induction false} RemoveAllMembers(xs: seq<BookmarkNode>, x: BookmarkNode, y: BookmarkNode)
    ensures y in RemoveAll(xs, x) <==> y in xs && y != x
  {
    if xs != [] {
      RemoveAllMembers(xs[1..], x, y);
      assert xs == [xs[0]] + xs[1..];
    }
  }

  lemma {:induction false} RemoveAllNone(xs: seq<BookmarkNode>, x: BookmarkNode)
    requires x !in xs
    ensures RemoveAll(xs, x) == xs
  {
    if xs != [] {
      RemoveAllNone(xs[1..], x);
    }
  }

  lemma RemoveAllCons(y: BookmarkNode, ys: seq<BookmarkNode>, x: BookmarkNode)
    ensures RemoveAll([y] + ys, x) == (if y == x then [] else [y]) + RemoveAll(ys, x)
  {
    assert ([y] + ys)[1..] == ys;
  }

  lemma {:induction false} RemoveAllConcat(a: seq<BookmarkNode>, b: seq<BookmarkNode>, x: BookmarkNode)
    ensures RemoveAll(a + b, x) == RemoveAll(a, x) + RemoveAll(b, x)
  {
    hide RemoveAll;
    if a == [] {
      NothingRemoved(x);
      assert a + b == b && [] + RemoveAll(b, x) == RemoveAll(b, x);
    } else {
      RemoveAllConcat(a[1..], b, x);
      RemoveAllCons(a[0], a[1..], x);
      RemoveAllCons(a[0], a[1..] + b, x);
      var first := if a[0] == x then [] else [a[0]];
      assert first + (RemoveAll(a[1..], x) + RemoveAll(b, x)) == first + RemoveAll(a[1..], x) + RemoveAll(b, x);
      assert a == [a[0]] + a[1..] && a + b == [a[0]] + (a[1..] + b);
    }
  }

  lemma NothingRemoved(x: BookmarkNode)
    ensures RemoveAll([], x) == []
  {
  }

  lemma RemoveAllOnly(x: BookmarkNode)
    ensures RemoveAll([x], x) == []
  {
  }

  /** The parts of a list around one place. */
  lemma DistinctParts(xs: seq<BookmarkNode>, i: nat)
    requires i < |xs| && Distinct(xs)
    ensures xs[i] !in xs[..i] && xs[i] !in xs[i + 1..] && Distinct(xs[..i] + xs[i + 1..])
  {
  }

  lemma RemoveAllMiddle(a: seq<BookmarkNode>, x: BookmarkNode, b: seq<BookmarkNode>)
    requires x !in a && x !in b
    ensures RemoveAll(a + [x] + b, x) == a + b
  {
    hide RemoveAll;
    RemoveAllConcat(a + [x], b, x);
    RemoveAllConcat(a, [x], x);
    RemoveAllNone(a, x);
    RemoveAllNone(b, x);
    RemoveAllOnly(x);
    assert a + [] == a;
  }

  /** Taking out the one place of a node. */
  lemma RemoveAllAt(xs: seq<BookmarkNode>, i: nat)
    requires i < |xs| && Distinct(xs)
    ensures RemoveAll(xs, xs[i]) == xs[..i] + xs[i + 1..]
    ensures Distinct(RemoveAll(xs, xs[i]))
  {
    hide *;
    var a, x, b := xs[..i], xs[i], xs[i + 1..];
    assert xs == a + [x] + b;
    DistinctParts(xs, i);
    RemoveAllMiddle(a, x, b);
  }

  lemma InsertedMember(xs: seq<BookmarkNode>, offset: nat, x: BookmarkNode, y: BookmarkNode)
    requires offset <= |xs|
    ensures y in Inserted(xs, offset, x) <==> y in xs || y == x
  {
    assert xs == xs[..offset] + xs[offset..];
  }

  lemma InsertedFacts(xs: seq<BookmarkNode>, offset: nat, x: BookmarkNode)
    requires offset <= |xs| && x !in xs && Distinct(xs)
    ensures Distinct(Inserted(xs, offset, x)) && Inserted(xs, offset, x)[offset] == x
    ensures RemoveAll(Inserted(xs, offset, x), x) == xs
  {
    var ys := Inserted(xs, offset, x);
    assert xs == xs[..offset] + xs[offset..];
    assert Distinct(ys);
    RemoveAllAt(ys, offset);
    assert ys[..offset] == xs[..offset] && ys[offset + 1..] == xs[offset..];
  }

  /** Removing a child from its parent. */
  lemma RemovedIsConsistent(f: Forest, parent: BookmarkNode, child: BookmarkNode)
    requires Consistent(f) && parent in f && child in f && f[child].parent == parent
    ensures Consistent(Removed(f, parent, child))
  {
    hide RemoveAll, Distinct;
    var g := Removed(f, parent, child);
    var xs := f[parent].children;
    assert NodeConsistent(f, parent) && NodeConsistent(f, child);
    var i :| 0 <= i < |xs| && xs[i] == child;
    RemoveAllAt(xs, i);
    forall n | n in g
      ensures NodeConsistent(g, n)
    {
      assert NodeConsistent(f, n);
      hide NodeConsistent;
      RemovedNode(f, parent, child, n);
    }
  }

  lemma RemovedNode(f: Forest, parent: BookmarkNode, child: BookmarkNode, n: BookmarkNode)
    requires parent in f && child in f && n in f && f[child].parent == parent && NodeConsistent(f, n)
    requires NodeConsistent(f, parent) && Distinct(RemoveAll(f[parent].children, child))
    ensures NodeConsistent(Removed(f, parent, child), n)
  {
    hide RemoveAll, Distinct;
    var g, xs := Removed(f, parent, child), f[parent].children;
    RemoveAllMembers(xs, child, n);
    if n == parent {
      forall c | c in g[n].children
        ensures c in g && g[c].parent == n
      {
        RemoveAllMembers(xs, child, c);
      }
    } else {
      assert g[n].children == f[n].children;
      forall c | c in g[n].children
        ensures c in g && g[c].parent == n
      {
        assert c in f[n].children && c != child;
      }
    }
  }

  /** Removing what was added. */
  lemma RemovedAfterAdded(f: Forest, parent: BookmarkNode, child: BookmarkNode, offset: int)
    requires CanAdd(f, parent, child) && f[child].parent == null
    requires child !in f[parent].children && Distinct(f[parent].children)
    ensures Removed(Added(f, parent, child, offset), parent, child) == f
  {
    hide RemoveAll, Inserted, Distinct;
    var xs := f[parent].children;
    InsertedFacts(xs, Place(|xs|, offset), child);
  }

  /** Adding a node that has no parent. */
  lemma AddedIsConsistent(f: Forest, parent: BookmarkNode, child: BookmarkNode, offset: int)
    requires Consistent(f) && CanAdd(f, parent, child) && f[child].parent == null
    ensures Consistent(Added(f, parent, child, offset))
    ensures Removed(Added(f, parent, child, offset), parent, child) == f
  {
    hide RemoveAll, Inserted, Distinct, Removed;
    var g := Added(f, parent, child, offset);
    var xs := f[parent].children;
    assert NodeConsistent(f, parent);
    assert child !in xs;
    RemovedAfterAdded(f, parent, child, offset);
    var place := Place(|xs|, offset);
    InsertedFacts(xs, place, child);
    assert g[parent].children == Inserted(xs, place, child);
    forall n | n in g
      ensures NodeConsistent(g, n)
    {
      assert NodeConsistent(f, n);
      InsertedMember(xs, place, child, n);
      forall c | c in g[n].children
        ensures c in g && g[c].parent == n
      {
        if n == parent {
          InsertedMember(xs, place, child, c);
        } else {
          assert c in f[n].children && c != child;
        }
      }
    }
  }

  /** Adding any node moves it: it is then where it was put, and nowhere else. */
  lemma AddMoves(f: Forest, parent: BookmarkNode, child: BookmarkNode, offset: int)
    requires Consistent(f) && CanAdd(f, parent, child)
    ensures var g := Added(f, parent, child, offset);
            Consistent(g) && g[child].parent == parent
            && (forall n :: n in g && child in g[n].children ==> n == parent)
    ensures Removed(Added(f, parent, child, offset), parent, child) == Left(f, child)
  {
    hide RemoveAll, NodeConsistent;
    var h := Left(f, child);
    if f[child].parent != null {
      RemovedIsConsistent(f, f[child].parent, child);
    }
    assert Added(f, parent, child, offset) == Added(h, parent, child, offset);
    AddedIsConsistent(h, parent, child, offset);
    ListedByParent(Added(f, parent, child, offset), child);
  }

  lemma ListedByParent(f: Forest, child: BookmarkNode)
    requires Consistent(f)
    ensures forall n :: n in f && child in f[n].children ==> child in f && n == f[child].parent
  {
    forall n | n in f && child in f[n].children
      ensures child in f && n == f[child].parent
    {
      assert NodeConsistent(f, n);
    }
  }

  /** Adding a node back where it was. */
  lemma AddBack(f: Forest, parent: BookmarkNode, row: nat)
    requires Consistent(f) && parent in f && row < |f[parent].children|
    ensures var child := f[parent].children[row];
            && child in f && f[child].parent == parent
            && CanAdd(Removed(f, parent, child), parent, child)
            && Added(Removed(f, parent, child), parent, child, row) == f
  {
    hide RemoveAll;
    var xs := f[parent].children;
    var child := xs[row];
    assert NodeConsistent(f, parent);
    RemoveAllAt(xs, row);
    var ys := RemoveAll(xs, child);
    assert ys[..row] == xs[..row] && ys[row..] == xs[row + 1..];
    assert Inserted(ys, row, child) == xs;
  }

  // ---- The commands ------------------------------------------------------------------------------

  datatype Command =
    | Remove(parent: BookmarkNode, row: int, node: BookmarkNode)
    | Insert(parent: BookmarkNode, row: int, node: BookmarkNode)
    | Change(node: BookmarkNode, isTitle: bool, oldValue: string, newValue: string)

  function Changed(f: Forest, node: BookmarkNode, isTitle: bool, value: string): Forest
    requires node in f
  {
    f[node := if isTitle then f[node].(title := value) else f[node].(url := value)]
  }

  /** What a user can ask for: the removal of a child at its row, the insertion of any node, and a
      change made from the present value. */
  predicate CanDo(f: Forest, c: Command) {
    match c
    case Remove(parent, row, node) => parent in f && 0 <= row < |f[parent].children| && f[parent].children[row] == node
    case Insert(parent, _, node) => CanAdd(f, parent, node)
    case Change(node, isTitle, oldValue, _) => node in f && oldValue == if isTitle then f[node].title else f[node].url
  }

  /** What can be undone, too: an inserted node comes without a parent. */
  predicate CanPush(f: Forest, c: Command) {
    CanDo(f, c) && (c.Insert? ==> f[c.node].parent == null)
  }

  function Redone(f: Forest, c: Command): Forest {
    match c
    case Remove(parent, row, node) => if parent in f && node in f then Removed(f, parent, node) else f
    case Insert(parent, row, node) => if CanAdd(f, parent, node) then Added(f, parent, node, row) else f
    case Change(node, isTitle, _, newValue) => if node in f then Changed(f, node, isTitle, newValue) else f
  }

  function Undone(f: Forest, c: Command): Forest {
    match c
    case Remove(parent, row, node) => if CanAdd(f, parent, node) then Added(f, parent, node, row) else f
    case Insert(parent, row, node) => if parent in f && node in f then Removed(f, parent, node) else f
    case Change(node, isTitle, oldValue, _) => if node in f then Changed(f, node, isTitle, oldValue) else f
  }

  // ---- What a command does, field by field -------------------------------------------------------

  /** Nodes keep their titles and addresses. */
  ghost predicate SameTexts(f: Forest, g: Forest) {
    g.Keys == f.Keys && forall n :: n in f ==> g[n].title == f[n].title && g[n].url == f[n].url
  }

  /** Nodes keep their parents, but for one, and their children, but for some. */
  ghost predicate SameLinks(f: Forest, g: Forest, moved: set<BookmarkNode>, lists: set<BookmarkNode>) {
    && g.Keys == f.Keys
    && (forall n :: n in f && n !in moved ==> g[n].parent == f[n].parent)
    && (forall n :: n in f && n !in lists ==> g[n].children == f[n].children)
  }

  /** The list `now` is `was` with `x` at a place: the end for -1 or behind the end, the front for other
      negative ones. */
  ghost predicate HasAt(was: seq<BookmarkNode>, row: int, x: BookmarkNode, now: seq<BookmarkNode>) {
    var place := if row == -1 || row > |was| then |was| else if row < 0 then 0 else row;
    now == was[..place] + [x] + was[place..]
  }

  /** The list `now` is `was` without `x`, which it had once. */
  ghost predicate Lacks(was: seq<BookmarkNode>, x: BookmarkNode, now: seq<BookmarkNode>) {
    exists k :: 0 <= k < |was| && was[k] == x && now == was[..k] + was[k + 1..]
  }

  /** What a command does to all nodes. */
  ghost predicate Does(f: Forest, c: Command, g: Forest) {
    match c
    case Remove(parent, row, node) =>
      && SameTexts(f, g) && SameLinks(f, g, {node}, {parent})
      && parent in f && node in f && 0 <= row < |f[parent].children| && g[node].parent == null
      && g[parent].children == f[parent].children[..row] + f[parent].children[row + 1..]
    case Insert(parent, row, node) =>
      && SameTexts(f, g) && parent in f && node in f && g[node].parent == parent
      && var left := f[node].parent;
      && (left == null ==>
            SameLinks(f, g, {node}, {parent}) && HasAt(f[parent].children, row, node, g[parent].children))
      && (left != null && left != parent ==>
            && SameLinks(f, g, {node}, {parent, left}) && HasAt(f[parent].children, row, node, g[parent].children)
            && left in f && Lacks(f[left].children, node, g[left].children))
      && (left == parent ==>
            && SameLinks(f, g, {node}, {parent})
            && parent in f
            && exists k :: 0 <= k < |f[parent].children| && f[parent].children[k] == node
                           && HasAt(f[parent].children[..k] + f[parent].children[k + 1..], row, node,
                                    g[parent].children))
    case Change(node, isTitle, _, newValue) =>
      && SameLinks(f, g, {}, {}) && node in f
      && (forall n :: n in f && n != node ==> g[n].title == f[n].title && g[n].url == f[n].url)
      && g[node].title == (if isTitle then newValue else f[node].title)
      && g[node].url == (if isTitle then f[node].url else newValue)
  }

  lemma RemoveMeans(f: Forest, parent: BookmarkNode, row: int, node: BookmarkNode, g: Forest)
    requires Does(f, Command.Remove(parent, row, node), g)
    ensures g.Keys == f.Keys && parent in f && node in f && 0 <= row < |f[parent].children| && g[node].parent == null
    ensures g[parent].children == f[parent].children[..row] + f[parent].children[row + 1..]
    ensures forall n :: n in f ==>
              (n != parent ==> g[n].children == f[n].children) && (n != node ==> g[n].parent == f[n].parent)
  {
  }

  lemma InsertMeans(f: Forest, parent: BookmarkNode, row: int, node: BookmarkNode, g: Forest)
    requires Does(f, Insert(parent, row, node), g)
    ensures g.Keys == f.Keys && parent in f && node in f && g[node].parent == parent
    ensures f[node].parent == null ==>
              && HasAt(f[parent].children, row, node, g[parent].children)
              && forall n :: n in f ==>
                   (n != parent ==> g[n].children == f[n].children) && (n != node ==> g[n].parent == f[n].parent)
  {
    hide HasAt, Lacks;
  }

  lemma InsertIsDoable(f: Forest, parent: BookmarkNode, row: int, node: BookmarkNode)
    requires CanAdd(f, parent, node)
    ensures parent in f && node in f && CanDo(f, Insert(parent, row, node))
    ensures CanPush(f, Insert(parent, row, node)) <==> f[node].parent == null
  {
  }

  lemma ChangeIsDoable(f: Forest, node: BookmarkNode, isTitle: bool, value: string)
    requires node in f
    ensures CanPush(f, Change(node, isTitle, if isTitle then f[node].title else f[node].url, value))
    ensures CanDo(f, Change(node, isTitle, if isTitle then f[node].title else f[node].url, value))
  {
  }

  lemma ChangeMeans(f: Forest, c: Command, g: Forest)
    requires c.Change? && Does(f, c, g)
    ensures g.Keys == f.Keys && c.node in f
    ensures g[c.node].title == (if c.isTitle then c.newValue else f[c.node].title)
    ensures g[c.node].url == (if c.isTitle then f[c.node].url else c.newValue)
    ensures forall n :: n in f ==>
              && g[n].parent == f[n].parent && g[n].children == f[n].children
              && (n != c.node ==> g[n].title == f[n].title && g[n].url == f[n].url)
  {
  }

  lemma ChildOfParent(f: Forest, node: BookmarkNode)
    requires Consistent(f) && node in f && f[node].parent != null
    ensures var parent := f[node].parent;
            parent in f && node in f[parent].children && 0 <= IndexOf(f[parent].children, node)
            && CanDo(f, Command.Remove(parent, IndexOf(f[parent].children, node), node))
            && CanPush(f, Command.Remove(parent, IndexOf(f[parent].children, node), node))
  {
    hide IndexOf;
    assert NodeConsistent(f, node);
  }

  lemma PutsAt(xs: seq<BookmarkNode>, offset: int, x: BookmarkNode)
    ensures HasAt(xs, offset, x, Inserted(xs, Place(|xs|, offset), x))
  {
  }

  /** Doing a command does that. */
  lemma CommandDoes(f: Forest, c: Command)
    requires Consistent(f) && CanDo(f, c)
    ensures Does(f, c, Redone(f, c))
  {
    hide RemoveAll, Distinct, Added;
    match c {
      case Remove(parent, row, node) =>
        assert NodeConsistent(f, parent);
        RemoveAllAt(f[parent].children, row);
        hide Consistent;
      case Insert(parent, row, node) => hide Consistent, Removed; InsertDoes(f, parent, row, node);
      case Change(_, _, _, _) => hide Consistent;
    }
  }

  lemma InsertDoes(f: Forest, parent: BookmarkNode, row: int, node: BookmarkNode)
    requires Consistent(f) && CanAdd(f, parent, node)
    ensures Does(f, Insert(parent, row, node), Added(f, parent, node, row))
  {
    var h := Left(f, node);
    var k := LeftDoes(f, node);
    hide Consistent, HasAt, Lacks;
    AddedLater(f, parent, node, row);
    PutDoes(h, parent, node, row);
    hide Left, Added;
    if f[node].parent != null {
      LacksAt(f[f[node].parent].children, node, k);
    }
  }

  lemma LacksAt(was: seq<BookmarkNode>, x: BookmarkNode, k: nat)
    requires k < |was| && was[k] == x
    ensures Lacks(was, x, was[..k] + was[k + 1..])
  {
  }

  /** The node leaves its old parent first. */
  lemma LeftDoes(f: Forest, node: BookmarkNode) returns (k: nat)
    requires Consistent(f) && node in f && (f[node].parent != null ==> f[node].parent in f)
    ensures var h, left := Left(f, node), f[node].parent;
            && SameTexts(f, h) && SameLinks(f, h, {node}, if left == null then {} else {left}) && h[node].parent == null
            && (left != null ==>
                  && k < |f[left].children| && f[left].children[k] == node
                  && h[left].children == f[left].children[..k] + f[left].children[k + 1..])
  {
    hide RemoveAll, Distinct;
    var left := f[node].parent;
    k := 0;
    if left != null {
      assert NodeConsistent(f, node) && NodeConsistent(f, left);
      k :| 0 <= k < |f[left].children| && f[left].children[k] == node;
      RemoveAllAt(f[left].children, k);
    }
  }

  lemma AddedLater(f: Forest, parent: BookmarkNode, node: BookmarkNode, row: int)
    requires CanAdd(f, parent, node)
    ensures var h := Left(f, node);
            h.Keys == f.Keys && h[node].parent == null && CanAdd(h, parent, node)
            && Added(f, parent, node, row) == Added(h, parent, node, row)
  {
    hide RemoveAll;
  }

  lemma PutDoes(h: Forest, parent: BookmarkNode, node: BookmarkNode, row: int)
    requires CanAdd(h, parent, node) && h[node].parent == null
    ensures var g := Added(h, parent, node, row);
            && SameTexts(h, g) && SameLinks(h, g, {node}, {parent}) && g[node].parent == parent
            && HasAt(h[parent].children, row, node, g[parent].children)
  {
    hide RemoveAll;
  }

  /** Undoing what was just done gives the tree back. */
  lemma UndoAfterRedo(f: Forest, c: Command)
    requires Consistent(f) && CanPush(f, c)
    ensures Undone(Redone(f, c), c) == f && Consistent(Redone(f, c)) && Redone(f, c).Keys == f.Keys
  {
    hide Consistent, Removed, Added, CanAdd, NodeConsistent;
    match c {
      case Remove(parent, row, node) =>
        AddBack(f, parent, row);
        RemovedIsConsistent(f, parent, node);
        SameNodes(f, parent, node, -1);
      case Insert(parent, row, node) =>
        CanAddMeans(f, parent, node);
        AddedIsConsistent(f, parent, node, row);
        SameNodes(f, parent, node, row);
      case Change(node, isTitle, oldValue, newValue) =>
        ChangedIsConsistent(f, node, isTitle, newValue);
        assert Undone(Redone(f, c), c) == f;
    }
  }

  lemma CanAddMeans(f: Forest, parent: BookmarkNode, child: BookmarkNode)
    requires CanAdd(f, parent, child)
    ensures parent in f && child in f
  {
  }

  lemma SameNodes(f: Forest, parent: BookmarkNode, child: BookmarkNode, offset: int)
    requires parent in f && child in f
    ensures Removed(f, parent, child).Keys == f.Keys
    ensures CanAdd(f, parent, child) ==> Added(f, parent, child, offset).Keys == f.Keys
  {
  }

  lemma ChangedIsConsistent(f: Forest, node: BookmarkNode, isTitle: bool, value: string)
    requires Consistent(f) && node in f
    ensures Consistent(Changed(f, node, isTitle, value))
  {
    var g := Changed(f, node, isTitle, value);
    forall n | n in g
      ensures NodeConsistent(g, n)
    {
      assert NodeConsistent(f, n);
    }
  }

  /** Undoing an insertion gives the tree back exactly when the node had no parent: a node inserted
      out of another folder is not put back there. */
  lemma UndoInsertNeedsDetached(f: Forest, parent: BookmarkNode, row: int, node: BookmarkNode)
    requires Consistent(f) && CanAdd(f, parent, node)
    ensures Undone(Redone(f, Insert(parent, row, node)), Insert(parent, row, node)) == f <==> f[node].parent == null
  {
    hide Consistent, NodeConsistent, Added;
    AddMoves(f, parent, node, row);
    SameNodes(f, parent, node, row);
    CanAddMeans(f, parent, node);
    if f[node].parent != null {
      assert Left(f, node)[node].parent == null by { hide RemoveAll; }
    }
  }

  // ---- Runs of an undo stack ---------------------------------------------------------------------

  /** The tree once the commands were done in order. */
  function After(f: Forest, cs: seq<Command>): Forest {
    if cs == [] then f else Redone(After(f, cs[..|cs| - 1]), cs[|cs| - 1])
  }

  /** Each command could be pushed when its turn came. */
  predicate Good(f: Forest, cs: seq<Command>) {
    cs == [] || (Good(f, cs[..|cs| - 1]) && CanPush(After(f, cs[..|cs| - 1]), cs[|cs| - 1]))
  }

  lemma NothingDone(f: Forest)
    ensures After(f, []) == f && Good(f, [])
  {
  }

  lemma AfterSnoc(f: Forest, cs: seq<Command>, c: Command)
    ensures After(f, cs + [c]) == Redone(After(f, cs), c)
    ensures Good(f, cs + [c]) <==> Good(f, cs) && CanPush(After(f, cs), c)
  {
    assert (cs + [c])[..|cs|] == cs;
  }

  lemma {:induction false} AfterIsConsistent(f: Forest, cs: seq<Command>)
    requires Consistent(f) && Good(f, cs)
    ensures Consistent(After(f, cs)) && After(f, cs).Keys == f.Keys
  {
    hide Consistent, Redone, Undone, CanPush;
    if cs != [] {
      AfterIsConsistent(f, cs[..|cs| - 1]);
      UndoAfterRedo(After(f, cs[..|cs| - 1]), cs[|cs| - 1]);
    }
  }

  lemma {:induction false} GoodPrefix(f: Forest, cs: seq<Command>, k: nat)
    requires Good(f, cs) && k <= |cs|
    ensures Good(f, cs[..k])
    ensures k < |cs| ==> CanPush(After(f, cs[..k]), cs[k]) && After(f, cs[..k + 1]) == Redone(After(f, cs[..k]), cs[k])
  {
    hide Redone, CanPush;
    if k == |cs| {
      assert cs[..k] == cs;
    } else if k < |cs| - 1 {
      var front := cs[..|cs| - 1];
      GoodPrefix(f, front, k);
      assert front[..k] == cs[..k] && front[..k + 1] == cs[..k + 1];
    } else {
      assert cs[..k + 1] == cs;
    }
  }

  datatype Action = Push(command: Command) | UndoLast | RedoNext

  /** The stack: its commands, how many of them are done, and the tree. */
  datatype Stack = Stack(commands: seq<Command>, index: nat, tree: Forest)

  predicate Enabled(s: Stack, a: Action) {
    a.Push? ==> CanPush(s.tree, a.command)
  }

  /** Pushing drops the commands that were undone; there may be nothing to undo or redo. */
  function Step(s: Stack, a: Action): Stack
    requires s.index <= |s.commands|
  {
    match a
    case Push(c) => Stack(s.commands[..s.index] + [c], s.index + 1, Redone(s.tree, c))
    case UndoLast =>
      if s.index == 0 then s else Stack(s.commands, s.index - 1, Undone(s.tree, s.commands[s.index - 1]))
    case RedoNext =>
      if s.index == |s.commands| then s else Stack(s.commands, s.index + 1, Redone(s.tree, s.commands[s.index]))
  }

  /** The tree is the first one with the commands below the index done. */
  ghost predicate Invariant(f: Forest, s: Stack) {
    && s.index <= |s.commands| && Good(f, s.commands)
    && s.tree == After(f, s.commands[..s.index]) && Consistent(s.tree)
  }

  /** Every step keeps that; so undo goes back to the tree before the matching push, redo to the tree
      after it, and the links stay consistent. */
  lemma StepKeeps(f: Forest, s: Stack, a: Action)
    requires Consistent(f) && Invariant(f, s) && Enabled(s, a)
    ensures Invariant(f, Step(s, a))
  {
    hide Consistent, Redone, Undone, CanPush, After, Good;
    var cs, i := s.commands, s.index;
    GoodPrefix(f, cs, i);
    match a {
      case Push(c) =>
        AfterSnoc(f, cs[..i], c);
        UndoAfterRedo(s.tree, c);
        assert (cs[..i] + [c])[..i + 1] == cs[..i] + [c];
      case UndoLast =>
        if i > 0 {
          GoodPrefix(f, cs, i - 1);
          AfterIsConsistent(f, cs[..i - 1]);
          UndoAfterRedo(After(f, cs[..i - 1]), cs[i - 1]);
        }
      case RedoNext =>
        if i < |cs| {
          UndoAfterRedo(s.tree, cs[i]);
        }
    }
  }

  lemma IndexInRange(f: Forest, s: Stack)
    requires Invariant(f, s)
    ensures s.index <= |s.commands|
  {
  }

  lemma NothingToUndo(s: Stack)
    requires s.index == 0
    ensures Step(s, UndoLast) == s
  {
  }

  /** The tree that an undo gives back. */
  lemma UndoGoesBack(f: Forest, s: Stack) returns (before: Forest)
    requires Consistent(f) && Invariant(f, s) && 0 < s.index <= |s.commands|
    ensures var c := s.commands[s.index - 1];
            && Consistent(before) && CanPush(before, c) && s.tree == Redone(before, c)
            && Step(s, UndoLast) == Stack(s.commands, s.index - 1, before)
  {
    hide Consistent, Redone, Undone, CanPush, After, Good;
    var cs, i := s.commands, s.index - 1;
    before := After(f, cs[..i]);
    GoodPrefix(f, cs, i);
    AfterIsConsistent(f, cs[..i]);
    UndoAfterRedo(before, cs[i]);
  }

  /** The stacks of a run. */
  function Run(s: Stack, actions: seq<Action>): Stack
    requires s.index <= |s.commands|
    ensures Run(s, actions).index <= |Run(s, actions).commands|
  {
    if actions == [] then s else Step(Run(s, actions[..|actions| - 1]), actions[|actions| - 1])
  }

  predicate Allowed(s: Stack, actions: seq<Action>)
    requires s.index <= |s.commands|
  {
    || actions == []
    || (var before := actions[..|actions| - 1];
        Allowed(s, before) && Enabled(Run(s, before), actions[|actions| - 1]))
  }

  /** For every run of pushes, undos and redos from a consistent tree. */
  lemma {:induction false} RunsKeep(f: Forest, actions: seq<Action>)
    requires Consistent(f) && Allowed(Stack([], 0, f), actions)
    ensures Invariant(f, Run(Stack([], 0, f), actions))
  {
    hide Consistent, Step, Enabled, Good, After;
    var n := |actions|;
    if n == 0 {
      NothingDone(f);
    } else {
      RunsKeep(f, actions[..n - 1]);
      StepKeeps(f, Run(Stack([], 0, f), actions[..n - 1]), actions[n - 1]);
    }
  }

  function Undos(s: Stack, k: nat): Stack
    requires s.index <= |s.commands|
    ensures Undos(s, k).index <= |Undos(s, k).commands|
  {
    if k == 0 then s else Step(Undos(s, k - 1), UndoLast)
  }

  function Redos(s: Stack, k: nat): Stack
    requires s.index <= |s.commands|
    ensures Redos(s, k).index <= |Redos(s, k).commands|
    decreases k
  {
    if k == 0 then s else Redos(Step(s, RedoNext), k - 1)
  }

  /** After `k` undos the tree is the one before the last `k` commands were pushed, and `k` redos give
      the stack back. */
  lemma {:induction false} UndosAndRedos(f: Forest, s: Stack, k: nat)
    requires Consistent(f) && Invariant(f, s) && k <= s.index
    ensures Undos(s, k) == Stack(s.commands, s.index - k, After(f, s.commands[..s.index - k]))
    ensures Redos(Undos(s, k), k) == s
  {
    hide Consistent, Redone, Undone, CanPush, After, Good;
    if k > 0 {
      UndosAndRedos(f, s, k - 1);
      var i := s.index - k;
      GoodPrefix(f, s.commands, i);
      AfterIsConsistent(f, s.commands[..i]);
      UndoAfterRedo(After(f, s.commands[..i]), s.commands[i]);
      var last := Undos(s, k - 1);
      assert last == Stack(s.commands, i + 1, Redone(After(f, s.commands[..i]), s.commands[i]));
      assert Undos(s, k) == Stack(s.commands, i, After(f, s.commands[..i]));
      assert Step(Undos(s, k), RedoNext) == last;
      assert Redos(Undos(s, k), k) == Redos(last, k - 1);
    }
  }

  /** The stack after pushing commands, each of which can be pushed when its turn comes. */
  function Pushes(s: Stack, cs: seq<Command>): Stack
    requires s.index <= |s.commands|
    ensures Pushes(s, cs).index <= |Pushes(s, cs).commands|
  {
    if cs == [] then s else Step(Pushes(s, cs[..|cs| - 1]), Push(cs[|cs| - 1]))
  }

  predicate CanPushAll(s: Stack, cs: seq<Command>)
    requires s.index <= |s.commands|
  {
    cs == [] || (CanPushAll(s, cs[..|cs| - 1]) && CanPush(Pushes(s, cs[..|cs| - 1]).tree, cs[|cs| - 1]))
  }

  lemma {:induction false} PushesKeep(f: Forest, s: Stack, cs: seq<Command>)
    requires Consistent(f) && Invariant(f, s) && CanPushAll(s, cs)
    ensures Invariant(f, Pushes(s, cs)) && Pushes(s, cs).index == s.index + |cs|
    ensures cs != [] ==> Pushes(s, cs).commands == s.commands[..s.index] + cs
  {
    hide Consistent, Redone, CanPush, After, Good;
    if cs != [] {
      var front := cs[..|cs| - 1];
      PushesKeep(f, s, front);
      StepKeeps(f, Pushes(s, front), Push(cs[|cs| - 1]));
      assert front + [cs[|cs| - 1]] == cs;
      if front == [] {
        assert cs == [cs[0]];
      } else {
        var all := s.commands[..s.index] + front;
        assert all[..|all|] == all;
        assert all + [cs[|cs| - 1]] == s.commands[..s.index] + (front + [cs[|cs| - 1]]);
      }
    }
  }

  /** Pushing any number of commands and undoing as many gives back the tree from before. */
  lemma UndosAfterPushes(f: Forest, s: Stack, cs: seq<Command>)
    requires Consistent(f) && Invariant(f, s) && CanPushAll(s, cs)
    ensures Undos(Pushes(s, cs), |cs|).tree == s.tree
  {
    hide Consistent, Redone, CanPush, After, Good;
    PushesKeep(f, s, cs);
    UndosAndRedos(f, Pushes(s, cs), |cs|);
    if cs != [] {
      assert (s.commands[..s.index] + cs)[..s.index] == s.commands[..s.index];
    }
  }

  /** Whether destroying the command destroys its node, unless that has a parent: the flag that a
      removal sets when it is done and an insertion when it is undone. */
  predicate Done(cs: seq<Command>, index: nat, k: nat)
    requires k < |cs|
  {
    match cs[k]
    case Remove(_, _, _) => k < index
    case Insert(_, _, _) => k >= index
    case Change(_, _, _, _) => false
  }

  /** The flags of all commands that have one. */
  predicate FlagsRight(done: seq<bool>, cs: seq<Command>, index: nat) {
    |done| == |cs| && forall k :: 0 <= k < |cs| && !cs[k].Change? ==> done[k] == Done(cs, index, k)
  }

  lemma FlagsAfterUndo(done: seq<bool>, cs: seq<Command>, index: nat)
    requires index <= |cs| && FlagsRight(done, cs, index)
    ensures |done| == |cs|
    ensures index > 0 ==> FlagsRight(done[index - 1 := cs[index - 1].Insert?], cs, index - 1)
  {
  }

  /** Inserted nodes are new: no command before moved them. */
  ghost predicate InsertsNewNodes(cs: seq<Command>) {
    forall j, k :: 0 <= j < k < |cs| && cs[k].Insert? && !cs[j].Change? ==> cs[j].node != cs[k].node
  }

  lemma StaysDetached(f: Forest, c: Command, n: BookmarkNode)
    requires n in f && f[n].parent == null && CanPush(f, c) && Consistent(f)
    requires !(c.Insert? && c.node == n)
    ensures n in Redone(f, c) && Redone(f, c)[n].parent == null
  {
    hide RemoveAll, Consistent;
  }

  lemma {:induction false} StaysRemoved(f: Forest, cs: seq<Command>, j: nat, k: nat)
    requires Consistent(f) && Good(f, cs) && InsertsNewNodes(cs) && j < k <= |cs| && cs[j].Remove?
    ensures cs[j].node in After(f, cs[..k]) && After(f, cs[..k])[cs[j].node].parent == null
  {
    hide Consistent, Good, After, Redone;
    GoodPrefix(f, cs, k - 1);
    AfterIsConsistent(f, cs[..k - 1]);
    if k == j + 1 {
      RemoveDetaches(After(f, cs[..j]), cs[j]);
    } else {
      StaysRemoved(f, cs, j, k - 1);
      StaysDetached(After(f, cs[..k - 1]), cs[k - 1], cs[j].node);
    }
  }

  lemma RemoveDetaches(f: Forest, c: Command)
    requires Consistent(f) && c.Remove? && CanPush(f, c)
    ensures c.node in f && f[c.node].parent == c.parent
    ensures c.node in Redone(f, c) && Redone(f, c)[c.node].parent == null
  {
    hide RemoveAll;
    assert NodeConsistent(f, c.parent);
  }

  /** However many commands are undone when the stack is cut off or destroyed, no two of them destroy
      the same node. */
  lemma NoNodeIsDestroyedTwice(f: Forest, cs: seq<Command>, index: nat, j: nat, k: nat)
    requires Consistent(f) && Good(f, cs) && InsertsNewNodes(cs)
    requires j < k < |cs| && Done(cs, index, j) && Done(cs, index, k)
    ensures cs[j].node != cs[k].node
  {
    hide Consistent, Good, After, Redone;
    if cs[k].Remove? && cs[j].Remove? && cs[j].node == cs[k].node {
      StaysRemoved(f, cs, j, k);
      GoodPrefix(f, cs, k);
      AfterIsConsistent(f, cs[..k]);
      RemoveDetaches(After(f, cs[..k]), cs[k]);
    }
  }

  /** A command between two points of a run that takes a node out of the tree. */
  lemma {:induction false} FindRemoval(f: Forest, cs: seq<Command>, n: BookmarkNode, lo: nat, hi: nat) returns (j: nat)
    requires Consistent(f) && Good(f, cs) && lo <= hi <= |cs| && n in f
    requires n in After(f, cs[..lo]) && After(f, cs[..lo])[n].parent != null
    requires n in After(f, cs[..hi]) && After(f, cs[..hi])[n].parent == null
    ensures lo <= j < hi && cs[j].Remove? && cs[j].node == n
  {
    hide Consistent, Good, After, Does, Redone;
    var before := ParentStep(f, cs, n, hi - 1);
    if before[n].parent == null {
      j := FindRemoval(f, cs, n, lo, hi - 1);
    } else {
      j := hi - 1;
    }
  }

  /** And one that puts it in. */
  lemma {:induction false} FindInsertion(f: Forest, cs: seq<Command>, n: BookmarkNode, lo: nat, hi: nat)
    returns (j: nat)
    requires Consistent(f) && Good(f, cs) && lo <= hi <= |cs| && n in f
    requires n in After(f, cs[..lo]) && After(f, cs[..lo])[n].parent == null
    requires n in After(f, cs[..hi]) && After(f, cs[..hi])[n].parent != null
    ensures lo <= j < hi && cs[j].Insert? && cs[j].node == n
  {
    hide Consistent, Good, After, Does, Redone;
    var before := ParentStep(f, cs, n, hi - 1);
    if before[n].parent != null {
      j := FindInsertion(f, cs, n, lo, hi - 1);
    } else {
      j := hi - 1;
    }
  }

  /** A command changes the parent of its own node only. */
  lemma ParentStep(f: Forest, cs: seq<Command>, n: BookmarkNode, k: nat) returns (before: Forest)
    requires Consistent(f) && Good(f, cs) && k < |cs| && n in f
    ensures before == After(f, cs[..k]) && n in before && CanPush(before, cs[k])
    ensures var after := After(f, cs[..k + 1]);
            && n in after
            && (before[n].parent == null && after[n].parent != null ==> cs[k].Insert? && cs[k].node == n)
            && (before[n].parent != null && after[n].parent == null ==> cs[k].Remove? && cs[k].node == n)
  {
    hide Consistent, Good, After, Redone;
    before := After(f, cs[..k]);
    GoodPrefix(f, cs, k);
    AfterIsConsistent(f, cs[..k]);
    CommandDoes(before, cs[k]);
    assert cs[..k + 1] == cs[..k] + [cs[k]];
    AfterSnoc(f, cs[..k], cs[k]);
  }

  /** No node is lost: when the stack is destroyed, every node of a removal or insertion that has no
      parent then is destroyed with one of the commands. */
  lemma NoNodeIsLost(f: Forest, cs: seq<Command>, index: nat, k: nat) returns (j: nat)
    requires Consistent(f) && Good(f, cs) && index <= |cs| && k < |cs| && !cs[k].Change?
    requires cs[k].node in After(f, cs[..index]) && After(f, cs[..index])[cs[k].node].parent == null
    ensures j < |cs| && !cs[j].Change? && cs[j].node == cs[k].node && Done(cs, index, j)
  {
    hide Consistent, Good, After, Redone, Does;
    var n := cs[k].node;
    GoodPrefix(f, cs, index);
    AfterIsConsistent(f, cs[..index]);
    GoodPrefix(f, cs, k);
    AfterIsConsistent(f, cs[..k]);
    var before := ParentStep(f, cs, n, k);
    if cs[k].Insert? && k < index {
      CommandDoes(before, cs[k]);
      assert cs[..k + 1] == cs[..k] + [cs[k]];
      AfterSnoc(f, cs[..k], cs[k]);
      InsertMeans(before, cs[k].parent, cs[k].row, n, Redone(before, cs[k]));
      j := FindRemoval(f, cs, n, k + 1, index);
    } else if cs[k].Remove? && k >= index {
      RemoveDetaches(before, cs[k]);
      j := FindInsertion(f, cs, n, index, k);
    } else {
      j := k;
    }
  }

  // ---- The nodes on the heap ---------------------------------------------------------------------

  class BookmarkNode {
    var kind: Xbel.Type
    var title: string
    var url: string
    var parent: BookmarkNode?
    var children: seq<BookmarkNode>

    method Remove(child: BookmarkNode, ghost nodes: set<BookmarkNode>)
      requires this in nodes && child in nodes
      modifies this`children, child`parent
      ensures Snapshot(nodes) == Removed(old(Snapshot(nodes)), this, child)
    {
      child.parent := null;
      children := RemoveAll(children, child);
    }

    method Add(child: BookmarkNode, offset: int, ghost nodes: set<BookmarkNode>)
      requires this in nodes && child in nodes && CanAdd(Snapshot(nodes), this, child)
      modifies nodes
      ensures Snapshot(nodes) == Added(old(Snapshot(nodes)), this, child, offset)
      ensures child.parent == this && (old(child.parent) == null ==> HasAt(old(children), offset, child, children))
    {
      hide RemoveAll, Inserted, HasAt;
      PutsAt(children, offset, child);
      if child.parent != null {
        child.parent.Remove(child, nodes);
      }
      ghost var f := Snapshot(nodes);
      assert f == Left(old(Snapshot(nodes)), child);
      assert children == f[this].children;
      Put(child, Place(|children|, offset), nodes);
    }

    method Put(child: BookmarkNode, offset: nat, ghost nodes: set<BookmarkNode>)
      requires this in nodes && child in nodes && offset <= |children|
      modifies this`children, child`parent
      ensures var f := old(Snapshot(nodes));
              var g := f[child := f[child].(parent := this)];
              Snapshot(nodes) == g[this := g[this].(children := Inserted(g[this].children, offset, child))]
      ensures child.parent == this && children == Inserted(old(children), offset, child)
    {
      child.parent := this;
      children := Inserted(children, offset, child);
    }
  }

  ghost function Snapshot(nodes: set<BookmarkNode>): Forest
    reads nodes
  {
    map n | n in nodes :: State(n.title, n.url, n.parent, n.children)
  }

  lemma SnapshotMeans(nodes: set<BookmarkNode>)
    ensures Snapshot(nodes).Keys == nodes
    ensures forall n :: n in nodes ==> Snapshot(nodes)[n] == State(n.title, n.url, n.parent, n.children)
  {
  }

  /** The place of the first occurrence, -1 when there is none. */
  function IndexOf(xs: seq<BookmarkNode>, x: BookmarkNode): (i: int)
    ensures x in xs ==> 0 <= i < |xs| && xs[i] == x
    ensures x !in xs ==> i == -1
  {
    if xs == [] then -1
    else if xs[0] == x then 0
    else
      var i := IndexOf(xs[1..], x);
      if i == -1 then -1 else i + 1
  }

  lemma IndexOfChild(xs: seq<BookmarkNode>, i: nat)
    requires i < |xs| && Distinct(xs)
    ensures IndexOf(xs, xs[i]) == i
  {
    assert xs[i] in xs;
  }

  /** What an attached model does with the notifications: it takes the node out and puts it back, or
      the other way round, so that views see the tree before and after. The tree does not change. */
  class BookmarksModel {
    constructor () {
    }

    /** The row announced is the one the node has. */
    method EntryAdded(item: BookmarkNode, ghost nodes: set<BookmarkNode>) returns (row: int)
      requires item in nodes && Consistent(Snapshot(nodes)) && item.parent != null
      modifies nodes
      ensures Snapshot(nodes) == old(Snapshot(nodes))
      ensures item.parent in nodes && 0 <= row < |item.parent.children| && item.parent.children[row] == item
    {
      hide Removed, Added, CanAdd, IndexOf, Distinct;
      ghost var f := Snapshot(nodes);
      assert NodeConsistent(f, item);
      row := IndexOf(item.parent.children, item);
      var parent := item.parent;
      AddBack(f, parent, row);
      parent.Remove(item, nodes);
      parent.Add(item, row, nodes);
      assert f[item].parent == Snapshot(nodes)[item].parent;
      assert f[parent].children == Snapshot(nodes)[parent].children;
    }

    method EntryRemoved(parent: BookmarkNode, row: int, item: BookmarkNode, ghost nodes: set<BookmarkNode>)
      requires parent in nodes && item in nodes && Consistent(Snapshot(nodes)) && item.parent == null
      requires CanAdd(Snapshot(nodes), parent, item)
      modifies nodes
      ensures Snapshot(nodes) == old(Snapshot(nodes))
    {
      hide Removed, Added, CanAdd, NodeConsistent;
      ghost var f := Snapshot(nodes);
      AddedIsConsistent(f, parent, item, row);
      parent.Add(item, row, nodes);
      parent.Remove(item, nodes);
    }
  }

  class BookmarksManager {
    var loaded: bool
    var commands: seq<Command>
    /** How many of the commands are done. */
    var index: nat
    /** The flag of each removal and insertion. */
    var done: seq<bool>
    /** The model, once a view has asked for it. */
    var model: BookmarksModel?
    /** The nodes there are, in the tree or not, and what they were before the first command. */
    ghost var nodes: set<BookmarkNode>
    ghost var start: Forest

    ghost predicate Valid()
      reads this, nodes
    {
      && Consistent(start) && Invariant(start, Current())
      && start.Keys == nodes
      && FlagsRight(done, commands, index)
    }

    ghost function Current(): Stack
      reads this, nodes
    {
      Stack(commands, index, Snapshot(nodes))
    }

    lemma ValidMeans()
      requires Valid()
      ensures Consistent(start) && Invariant(start, Current()) && Current().index <= |Current().commands|
      ensures Current().tree == Snapshot(nodes) && Consistent(Snapshot(nodes))
    {
    }

    lemma RowsDistinct(parent: BookmarkNode)
      requires Valid() && parent in nodes
      ensures Distinct(parent.children)
    {
      hide Consistent, Distinct;
      ChildrenDistinct(Snapshot(nodes), parent);
    }

    constructor (ghost nodes: set<BookmarkNode>, loaded: bool)
      requires Consistent(Snapshot(nodes))
      ensures Valid() && this.nodes == nodes && this.loaded == loaded
      ensures Current() == Stack([], 0, Snapshot(nodes)) && start == Snapshot(nodes)
    {
      this.loaded, this.nodes, start := loaded, nodes, Snapshot(nodes);
      commands, index, done, model := [], 0, [], null;
    }

    /** The removal of a node; an insertion runs the two the other way round. */
    method Detach(parent: BookmarkNode, row: int, node: BookmarkNode)
      requires parent in nodes && node in nodes && node.parent == parent && Consistent(Snapshot(nodes))
      modifies nodes
      ensures Snapshot(nodes) == Removed(old(Snapshot(nodes)), parent, node)
    {
      hide RemoveAll, Added, NodeConsistent;
      ghost var f := Snapshot(nodes);
      RemovedIsConsistent(f, parent, node);
      parent.Remove(node, nodes);
      if model != null {
        model.EntryRemoved(parent, row, node, nodes);
      }
    }

    method Attach(parent: BookmarkNode, row: int, node: BookmarkNode)
      requires parent in nodes && node in nodes && Consistent(Snapshot(nodes))
      requires CanAdd(Snapshot(nodes), parent, node)
      modifies nodes
      ensures Snapshot(nodes) == Added(old(Snapshot(nodes)), parent, node, row)
    {
      hide RemoveAll, NodeConsistent, CanAdd;
      AddMoves(Snapshot(nodes), parent, node, row);
      parent.Add(node, row, nodes);
      assert Snapshot(nodes)[node].parent == parent;
      if model != null {
        var _ := model.EntryAdded(node, nodes);
      }
    }

    method RedoCommand(c: Command)
      requires CanDo(Snapshot(nodes), c) && Consistent(Snapshot(nodes))
      modifies nodes
      ensures Snapshot(nodes) == Redone(old(Snapshot(nodes)), c) && Does(old(Snapshot(nodes)), c, Snapshot(nodes))
    {
      hide Removed, Added, Consistent, Does;
      CommandDoes(Snapshot(nodes), c);
      match c {
        case Remove(parent, row, node) =>
          AddBack(Snapshot(nodes), parent, row);
          Detach(parent, row, node);
        case Insert(parent, row, node) => Attach(parent, row, node);
        case Change(node, isTitle, _, newValue) =>
          if isTitle {
            node.title := newValue;
          } else {
            node.url := newValue;
          }
      }
    }

    method UndoCommand(c: Command, ghost before: Forest)
      requires Consistent(before) && CanPush(before, c) && Snapshot(nodes) == Redone(before, c)
      modifies nodes
      ensures Snapshot(nodes) == before
    {
      hide Removed, Added, CanAdd, Consistent;
      UndoAfterRedo(before, c);
      match c {
        case Remove(parent, row, node) =>
          AddBack(before, parent, row);
          RemoveDetaches(before, c);
          assert node.parent == Snapshot(nodes)[node].parent;
          Attach(parent, row, node);
        case Insert(parent, row, node) =>
          InsertedAt(before, parent, node, row);
          assert node.parent == Snapshot(nodes)[node].parent && parent.children == Snapshot(nodes)[parent].children;
          Detach(parent, row, node);
        case Change(node, isTitle, oldValue, _) =>
          if isTitle {
            node.title := oldValue;
          } else {
            node.url := oldValue;
          }
      }
    }

    /** The stack's `push`: it cuts off what was undone and does the command. Undo can be relied on
        afterwards exactly if an inserted node had no parent. */
    method PushCommand(c: Command)
      requires Valid() && CanDo(Snapshot(nodes), c)
      modifies this`commands, this`index, this`done, nodes
      ensures Current() == Step(old(Current()), Push(c))
      ensures Valid() <==> old(CanPush(Snapshot(nodes), c))
      ensures old(index) <= |old(commands)| && commands == old(commands)[..old(index)] + [c] && index == |commands|
      ensures Does(old(Snapshot(nodes)), c, Snapshot(nodes))
    {
      hide Removed, Added, CanPush, CanDo, CanAdd, Consistent, Good, After, Redone, Does;
      if CanPush(Snapshot(nodes), c) {
        StepKeeps(start, Current(), Push(c));
      }
      AfterSnoc(start, commands[..index], c);
      commands, done := commands[..index] + [c], done[..index] + [c.Remove?];
      index := index + 1;
      RedoCommand(c);
    }

    method Undo()
      requires Valid()
      modifies this`index, this`done, nodes
      ensures Valid() && Current() == Step(old(Current()), UndoLast)
      ensures index == if old(index) == 0 then 0 else old(index) - 1
    {
      hide CanPush, Consistent, Invariant, Step, After, Redone, FlagsRight;
      StepKeeps(start, Current(), UndoLast);
      IndexInRange(start, Current());
      FlagsAfterUndo(done, commands, index);
      if index > 0 {
        ghost var before := UndoGoesBack(start, Current());
        index := index - 1;
        UndoCommand(commands[index], before);
        done := done[index := commands[index].Insert?];
      } else {
        NothingToUndo(Current());
      }
    }

    method Redo()
      requires Valid()
      modifies this`index, this`done, nodes
      ensures Valid() && Current() == Step(old(Current()), RedoNext)
      ensures index == if old(index) == |commands| then |commands| else old(index) + 1
      ensures old(index) < |commands| ==> Does(old(Snapshot(nodes)), commands[old(index)], Snapshot(nodes))
    {
      hide Removed, Added, CanDo, CanAdd, Consistent, Good, After, Does;
      StepKeeps(start, Current(), RedoNext);
      if index < |commands| {
        GoodPrefix(start, commands, index);
        RedoCommand(commands[index]);
        done := done[index := commands[index].Remove?];
        index := index + 1;
      }
    }

    method AddBookmark(parent: BookmarkNode, node: BookmarkNode, row: int)
      requires Valid() && (loaded ==> CanAdd(Snapshot(nodes), parent, node))
      modifies this`commands, this`index, this`done, nodes
      ensures Valid() <==> !loaded || old(node.parent) == null
      ensures Current() == if loaded then Step(old(Current()), Push(Insert(parent, row, node))) else old(Current())
      ensures loaded ==> node.parent == parent
      ensures loaded && old(node.parent) == null ==> HasAt(old(parent.children), row, node, parent.children)
      ensures loaded && old(node.parent) == null ==>
                forall n :: n in nodes ==>
                  (n != parent ==> n.children == old(n.children)) && (n != node ==> n.parent == old(n.parent))
    {
      if !loaded {
        return;
      }
      hide *;
      ghost var f := Snapshot(nodes);
      ValidMeans();
      SnapshotMeans(nodes);
      InsertIsDoable(f, parent, row, node);
      PushCommand(Insert(parent, row, node));
      SnapshotMeans(nodes);
      InsertMeans(f, parent, row, node, Snapshot(nodes));
    }

    /** A node in the tree is removed at its row. */
    method RemoveBookmark(node: BookmarkNode)
      requires Valid() && (loaded ==> node in nodes && node.parent != null)
      modifies this`commands, this`index, this`done, nodes
      ensures Valid()
      ensures !loaded ==> Current() == old(Current())
      ensures loaded ==>
                var parent := old(node.parent);
                var row := old(if node.parent in nodes then IndexOf(node.parent.children, node) else 0);
                && Current() == Step(old(Current()), Push(Command.Remove(parent, row, node)))
                && node.parent == null && parent in nodes && 0 <= row < |old(parent.children)|
                && old(parent.children)[row] == node
                && parent.children == old(parent.children)[..row] + old(parent.children)[row + 1..]
      ensures forall n :: n in nodes ==>
                (n != old(node.parent) ==> n.children == old(n.children)) && (n != node ==> n.parent == old(n.parent))
    {
      if !loaded {
        return;
      }
      hide *;
      ValidMeans();
      ghost var f := Snapshot(nodes);
      SnapshotMeans(nodes);
      ChildOfParent(f, node);
      var parent := node.parent;
      var row := IndexOf(parent.children, node);
      PushCommand(Command.Remove(parent, row, node));
      SnapshotMeans(nodes);
      RemoveMeans(f, parent, row, node, Snapshot(nodes));
    }

    /** The removal of the child at a row. */
    method RemoveRow(parent: BookmarkNode, row: nat)
      requires Valid() && loaded && parent in nodes && row < |parent.children|
      modifies this`commands, this`index, this`done, nodes
      ensures Valid()
      ensures var c := Command.Remove(parent, row, old(parent.children)[row]);
              CanPush(old(Snapshot(nodes)), c) && Current() == Step(old(Current()), Push(c))
      ensures parent.children == old(parent.children)[..row] + old(parent.children)[row + 1..]
      ensures forall n :: n in nodes && n != parent ==> n.children == old(n.children)
    {
      hide Removed, Added, CanAdd, Consistent, Good, After, IndexOf, RemoveAll;
      ghost var now := Snapshot(nodes);
      var node := parent.children[row];
      RemovedAtRow(now, parent, row);
      assert now[node].parent == node.parent && now[parent].children == parent.children;
      RemoveBookmark(node);
      assert Snapshot(nodes) == Removed(now, parent, node);
      forall n | n in nodes ensures Snapshot(nodes)[n].children == n.children && now[n].children == old(n.children) {
      }
    }

    /** The model's `removeRows`: every row but the menu and the bar is removed, last first, by a
        command of its own; as many undos give back the tree from before. */
    method RemoveRows(parent: BookmarkNode, row: int, count: int, menu: BookmarkNode, toolbar: BookmarkNode)
      returns (removed: bool, ghost cs: seq<Command>)
      requires Valid() && loaded && parent in nodes
      modifies this`commands, this`index, this`done, nodes
      ensures Valid() && Current() == Pushes(old(Current()), cs) && CanPushAll(old(Current()), cs)
      ensures Undos(Current(), |cs|).tree == old(Snapshot(nodes))
      ensures removed <==> 0 <= row && 0 < count && row + count <= |old(parent.children)|
      ensures !removed ==> cs == []
      ensures removed ==>
                parent.children == old(parent.children)[..row]
                                   + Kept(old(parent.children)[row..row + count], {menu, toolbar})
                                   + old(parent.children)[row + count..]
      ensures removed ==>
                forall i :: row <= i < row + count ==>
                  (old(parent.children)[i] in parent.children <==> old(parent.children)[i] in {menu, toolbar})
      ensures forall n :: n in nodes && n != parent ==> n.children == old(n.children)
    {
      hide *;
      cs := [];
      removed := 0 <= row && 0 < count && row + count <= |parent.children|;
      ghost var before := Current();
      ValidMeans();
      NothingPushed(before);
      ghost var xs := parent.children;
      RowsDistinct(parent);
      if removed {
        cs := RemoveBlock(parent, row, count, menu, toolbar);
        KeptMembers(xs, row, row + count, {menu, toolbar}, parent.children);
      }
      UndosAfterPushes(start, before, cs);
    }

    /** The loop behind the guard. */
    method RemoveBlock(parent: BookmarkNode, row: nat, count: nat, menu: BookmarkNode, toolbar: BookmarkNode)
      returns (ghost cs: seq<Command>)
      requires Valid() && loaded && parent in nodes && row + count <= |parent.children|
      modifies this`commands, this`index, this`done, nodes
      ensures Valid() && Current() == Pushes(old(Current()), cs) && CanPushAll(old(Current()), cs)
      ensures parent.children == old(parent.children)[..row]
                                 + Kept(old(parent.children)[row..row + count], {menu, toolbar})
                                 + old(parent.children)[row + count..]
      ensures forall n :: n in nodes && n != parent ==> n.children == old(n.children)
    {
      hide *;
      cs := [];
      ghost var before, xs, keep, hi := Current(), parent.children, {menu, toolbar}, row + count;
      ValidMeans();
      NothingPushed(before);
      KeptNothing(xs, hi, keep);
      var i := row + count - 1;
      while i >= row
        invariant row - 1 <= i < hi
        invariant Valid() && Current() == Pushes(before, cs) && CanPushAll(before, cs)
        invariant parent.children == xs[..i + 1] + Kept(xs[i + 1..hi], keep) + xs[hi..]
        invariant forall n :: n in nodes && n != parent ==> n.children == old(n.children)
      {
        var node := parent.children[i];
        KeptStep(xs, i, hi, keep, parent.children);
        if node != menu && node != toolbar {
          ValidMeans();
          PushesSnoc(before, cs, Command.Remove(parent, i, node));
          cs := cs + [Command.Remove(parent, i, node)];
          RemoveRow(parent, i);
        }
        i := i - 1;
      }
    }

    method SetTitle(node: BookmarkNode, newTitle: string)
      requires Valid() && (loaded ==> node in nodes)
      modifies this`commands, this`index, this`done, nodes
      ensures Valid()
      ensures Current() == if loaded then Step(old(Current()), Push(Change(node, true, old(node.title), newTitle)))
               else old(Current())
      ensures node.title == (if loaded then newTitle else old(node.title)) && node.url == old(node.url)
      ensures forall n :: n in nodes ==>
                && n.parent == old(n.parent) && n.children == old(n.children)
                && (n != node ==> n.title == old(n.title) && n.url == old(n.url))
    {
      if loaded {
        hide *;
        ghost var f, c := Snapshot(nodes), Change(node, true, node.title, newTitle);
        ValidMeans();
        SnapshotMeans(nodes);
        ChangeIsDoable(f, node, true, newTitle);
        PushCommand(Change(node, true, node.title, newTitle));
        SnapshotMeans(nodes);
        ChangeMeans(f, c, Snapshot(nodes));
      }
    }

    method SetUrl(node: BookmarkNode, newUrl: string)
      requires Valid() && (loaded ==> node in nodes)
      modifies this`commands, this`index, this`done, nodes
      ensures Valid()
      ensures Current() == if loaded then Step(old(Current()), Push(Change(node, false, old(node.url), newUrl)))
               else old(Current())
      ensures node.url == (if loaded then newUrl else old(node.url)) && node.title == old(node.title)
      ensures forall n :: n in nodes ==>
                && n.parent == old(n.parent) && n.children == old(n.children)
                && (n != node ==> n.title == old(n.title) && n.url == old(n.url))
    {
      if loaded {
        hide *;
        ghost var f, c := Snapshot(nodes), Change(node, false, node.url, newUrl);
        ValidMeans();
        SnapshotMeans(nodes);
        ChangeIsDoable(f, node, false, newUrl);
        PushCommand(Change(node, false, node.url, newUrl));
        SnapshotMeans(nodes);
        ChangeMeans(f, c, Snapshot(nodes));
      }
    }
  }

  /** The nodes that are the menu or the bar. */
  function Kept(xs: seq<BookmarkNode>, keep: set<BookmarkNode>): seq<BookmarkNode> {
    if xs == [] then [] else (if xs[0] in keep then [xs[0]] else []) + Kept(xs[1..], keep)
  }

  lemma ChildrenDistinct(f: Forest, n: BookmarkNode)
    requires Consistent(f) && n in f
    ensures Distinct(f[n].children)
  {
    assert NodeConsistent(f, n);
  }

  lemma {:induction false} KeptIs(xs: seq<BookmarkNode>, keep: set<BookmarkNode>, x: BookmarkNode)
    ensures x in Kept(xs, keep) <==> x in xs && x in keep
  {
    if xs != [] {
      KeptIs(xs[1..], keep, x);
      assert xs == [xs[0]] + xs[1..];
    }
  }

  /** Of the rows in question the nodes to keep stay, and no others. */
  lemma KeptMembers(xs: seq<BookmarkNode>, lo: nat, hi: nat, keep: set<BookmarkNode>, now: seq<BookmarkNode>)
    requires Distinct(xs) && lo <= hi <= |xs| && now == xs[..lo] + Kept(xs[lo..hi], keep) + xs[hi..]
    ensures forall i :: lo <= i < hi ==> (xs[i] in now <==> xs[i] in keep)
  {
    hide Kept;
    forall i | lo <= i < hi
      ensures xs[i] in now <==> xs[i] in keep
    {
      KeptIs(xs[lo..hi], keep, xs[i]);
      assert xs[lo..hi][i - lo] == xs[i];
      assert xs[i] !in xs[..lo] && xs[i] !in xs[hi..];
    }
  }

  lemma KeptNothing(xs: seq<BookmarkNode>, hi: nat, keep: set<BookmarkNode>)
    requires hi <= |xs|
    ensures xs == xs[..hi] + Kept(xs[hi..hi], keep) + xs[hi..]
  {
    assert xs[hi..hi] == [] && xs[..hi] + [] == xs[..hi];
  }

  lemma KeptFirst(xs: seq<BookmarkNode>, i: nat, hi: nat, keep: set<BookmarkNode>)
    requires i < hi <= |xs|
    ensures Kept(xs[i..hi], keep) == (if xs[i] in keep then [xs[i]] else []) + Kept(xs[i + 1..hi], keep)
  {
    assert xs[i..hi][1..] == xs[i + 1..hi] && xs[i..hi][0] == xs[i];
  }

  lemma AroundOne(front: seq<BookmarkNode>, x: BookmarkNode, more: seq<BookmarkNode>, rest: seq<BookmarkNode>)
    ensures front + [x] + more + rest == front + ([x] + more) + rest
    ensures [] + more == more
    ensures var all := front + [x] + more + rest;
            all[|front|] == x && all[..|front|] + all[|front| + 1..] == front + more + rest
  {
  }

  /** One more row of a list whose rows from `i + 1` up to `hi` have been looked at. */
  lemma KeptStep(xs: seq<BookmarkNode>, i: nat, hi: nat, keep: set<BookmarkNode>, now: seq<BookmarkNode>)
    requires i < hi <= |xs| && now == xs[..i + 1] + Kept(xs[i + 1..hi], keep) + xs[hi..]
    ensures i < |now| && now[i] == xs[i]
    ensures (if xs[i] in keep then now else now[..i] + now[i + 1..]) == xs[..i] + Kept(xs[i..hi], keep) + xs[hi..]
  {
    KeptFirst(xs, i, hi, keep);
    var more, rest := Kept(xs[i + 1..hi], keep), xs[hi..];
    hide Kept;
    assert xs[..i + 1] == xs[..i] + [xs[i]];
    AroundOne(xs[..i], xs[i], more, rest);
  }

  /** What the removal of the child at `row` does to the parent's list. */
  lemma RemovedAtRow(f: Forest, parent: BookmarkNode, row: nat)
    requires Consistent(f) && parent in f && row < |f[parent].children|
    ensures var xs := f[parent].children;
            && xs[row] in f && f[xs[row]].parent == parent && IndexOf(xs, xs[row]) == row
            && Removed(f, parent, xs[row]).Keys == f.Keys
            && Removed(f, parent, xs[row])[parent].children == xs[..row] + xs[row + 1..]
            && (forall n :: n in f && n != parent ==> Removed(f, parent, xs[row])[n].children == f[n].children)
  {
    hide RemoveAll, IndexOf;
    assert NodeConsistent(f, parent);
    RemoveAllAt(f[parent].children, row);
    IndexOfChild(f[parent].children, row);
  }

  lemma NothingPushed(s: Stack)
    requires s.index <= |s.commands|
    ensures Pushes(s, []) == s && CanPushAll(s, [])
  {
  }

  /** One more push. */
  lemma PushesSnoc(s: Stack, cs: seq<Command>, c: Command)
    requires s.index <= |s.commands|
    ensures Pushes(s, cs + [c]) == Step(Pushes(s, cs), Push(c))
    ensures CanPushAll(s, cs + [c]) <==> CanPushAll(s, cs) && CanPush(Pushes(s, cs).tree, c)
  {
    hide Step, CanPush;
    assert (cs + [c])[..|cs|] == cs;
  }

  lemma InsertedAt(f: Forest, parent: BookmarkNode, child: BookmarkNode, row: int)
    requires Consistent(f) && CanAdd(f, parent, child) && f[child].parent == null
    ensures var g := Added(f, parent, child, row);
            Consistent(g) && parent in g && child in g && g[child].parent == parent
  {
    AddedIsConsistent(f, parent, child, row);
  }

  // ---- Indexes of the model ----------------------------------------------------------------------

  datatype ModelIndex = NoIndex | At(row: int, column: int, node: BookmarkNode)

  /** The node an index stands for; no index stands for the root. */
  function NodeOf(root: BookmarkNode, index: ModelIndex): BookmarkNode {
    if index.NoIndex? then root else index.node
  }

  function RowCount(f: Forest, root: BookmarkNode, parent: ModelIndex): nat
    requires NodeOf(root, parent) in f
  {
    if parent.At? && parent.column > 0 then 0 else |f[NodeOf(root, parent)].children|
  }

  function ColumnCount(parent: ModelIndex): nat {
    if parent.At? && parent.column > 0 then 0 else 2
  }

  function Index(f: Forest, root: BookmarkNode, row: int, column: int, parent: ModelIndex): ModelIndex
    requires NodeOf(root, parent) in f
  {
    if row < 0 || column < 0 || row >= RowCount(f, root, parent) || column >= ColumnCount(parent) then NoIndex
    else At(row, column, f[NodeOf(root, parent)].children[row])
  }

  /** Below the root every node has a parent. */
  function ParentIndex(f: Forest, root: BookmarkNode, index: ModelIndex): ModelIndex
    requires index.At? ==> index.node in f
    requires index.At? && f[index.node].parent != null && f[index.node].parent != root ==>
               f[index.node].parent in f && f[f[index.node].parent].parent != null
                   && f[f[index.node].parent].parent in f
  {
    if index.NoIndex? || f[index.node].parent == null || f[index.node].parent == root then NoIndex
    else
      var parent := f[index.node].parent;
      At(IndexOf(f[f[parent].parent].children, parent), 0, parent)
  }

  /** An index of the model for a node with children: none for the root, else column 0 and the row
      that the node has. */
  ghost predicate IsParentIndex(f: Forest, root: BookmarkNode, index: ModelIndex) {
    && root in f
    && (index.At? ==>
          && index.node in f && index.node != root && index.column == 0
          && f[index.node].parent != null && f[index.node].parent in f
          && 0 <= index.row < |f[f[index.node].parent].children|
          && f[f[index.node].parent].children[index.row] == index.node)
  }

  /** The parent of an index in row and column below another is that other. */
  lemma ParentOfIndex(f: Forest, root: BookmarkNode, row: int, column: int, parent: ModelIndex)
    requires Consistent(f) && IsParentIndex(f, root, parent)
    requires 0 <= row < RowCount(f, root, parent) && 0 <= column < ColumnCount(parent)
    ensures var index := Index(f, root, row, column, parent);
            index.At? && index.node in f && f[index.node].parent == NodeOf(root, parent)
            && index == At(row, column, f[NodeOf(root, parent)].children[row])
            && ParentIndex(f, root, index) == parent
    ensures RowCount(f, root, parent) == |f[NodeOf(root, parent)].children| && ColumnCount(parent) == 2
  {
    assert NodeConsistent(f, NodeOf(root, parent));
    if parent.At? {
      assert NodeConsistent(f, f[parent.node].parent);
      IndexOfChild(f[f[parent.node].parent].children, parent.row);
    }
  }
}
