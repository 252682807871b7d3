/** The drawing board: the elements shown, in painting order, the elements undone, and all elements
    it owns; and the token stream a board is saved as. */
module Board {

  /** What an element carries besides its type. */
  type Data(==, 0, !new)

  /** A board element; `id` is its identity. */
  datatype Element = Element(id: int, kind: int, data: Data)

  ghost predicate Distinct(s: seq<Element>) {
    forall i, j :: 0 <= i < j < |s| ==> s[i] != s[j]
  }

  ghost function Members(s: seq<Element>): set<Element> {
    set e | e in s
  }

  /** The list without the first `e`. */
  function Erase(s: seq<Element>, e: Element): seq<Element> {
    if s == [] then [] else if s[0] == e then s[1..] else [s[0]] + Erase(s[1..], e)
  }

  /** The lists that undo and redo move elements between. */
  datatype Lists = Lists(drawing: seq<Element>, undos: seq<Element>)

  function Remove(s: Lists, e: Element): Lists {
    if e in s.drawing then Lists(Erase(s.drawing, e), s.undos + [e]) else s
  }

  function Undo(s: Lists): Lists {
    if s.drawing == [] then s else Remove(s, s.drawing[|s.drawing| - 1])
  }

  function Redo(s: Lists): Lists {
    if s.undos == [] then s
    else Lists(s.drawing + [s.undos[|s.undos| - 1]], s.undos[..|s.undos| - 1])
  }

  function Undos(s: Lists, k: nat): Lists {
    if k == 0 then s else Undo(Undos(s, k - 1))
  }

  function Redos(s: Lists, k: nat): Lists
    decreases k
  {
    if k == 0 then s else Redos(Redo(s), k - 1)
  }

  /** No element is listed twice or in both lists. */
  ghost predicate Proper(s: Lists) {
    Distinct(s.drawing) && Distinct(s.undos) && Members(s.drawing) !! Members(s.undos)
  }

  lemma {:induction false} EraseLast(s: seq<Element>)
    requires s != [] && Distinct(s)
    ensures Erase(s, s[|s| - 1]) == s[..|s| - 1]
  {
    if |s| > 1 {
      EraseLast(s[1..]);
      assert s[1..][|s| - 2] == s[|s| - 1];
      assert s[..|s| - 1] == [s[0]] + s[1..][..|s| - 2];
    }
  }

  lemma {:induction false} EraseAt(s: seq<Element>, e: Element, k: nat)
    requires k < |s| && s[k] == e && e !in s[..k]
    ensures Erase(s, e) == s[..k] + s[k + 1..]
  {
    if k > 0 {
      assert s[1..][..k - 1] == s[..k][1..];
      assert s[0] == s[..k][0];
      EraseAt(s[1..], e, k - 1);
    }
  }

  lemma {:induction false} FirstIndex(s: seq<Element>, e: Element) returns (k: nat)
    requires e in s
    ensures k < |s| && s[k] == e && e !in s[..k]
  {
    if s[0] == e {
      k := 0;
    } else {
      k := FirstIndex(s[1..], e);
      k := k + 1;
      assert s[..k] == [s[0]] + s[1..][..k - 1];
    }
  }

  /** Taking one element out of a list without repetition. */
  lemma EraseKeepsDistinct(s: seq<Element>, e: Element)
    requires e in s && Distinct(s)
    ensures Distinct(Erase(s, e)) && Members(Erase(s, e)) == Members(s) - {e}
    ensures |Erase(s, e)| == |s| - 1
  {
    var k := FirstIndex(s, e);
    EraseAt(s, e, k);
    assert s == s[..k] + [e] + s[k + 1..];
    assert e !in s[k + 1..];
  }

  /** In a list without repetition that is the one at its place. */
  lemma OnlyPlace(s: seq<Element>, e: Element)
    requires Distinct(s)
    ensures forall k :: 0 <= k < |s| && s[k] == e ==> Erase(s, e) == s[..k] + s[k + 1..]
  {
    hide Erase;
    forall k | 0 <= k < |s| && s[k] == e ensures Erase(s, e) == s[..k] + s[k + 1..] {
      EraseAt(s, e, k);
    }
  }

  lemma PutAtEnds(rest: seq<Element>, e: Element)
    requires Distinct(rest) && e !in Members(rest)
    ensures Distinct(rest + [e]) && Distinct([e] + rest)
    ensures Members(rest + [e]) == Members(rest) + {e} == Members([e] + rest)
  {
    assert forall k :: 0 <= k < |rest| ==> rest[k] in Members(rest);
  }

  lemma SplitAt(s: seq<Element>, k: nat)
    requires k < |s|
    ensures s == s[..k] + [s[k]] + s[k + 1..]
  {
  }

  lemma SameElements(a: seq<Element>, b: seq<Element>, e: Element)
    ensures multiset(a + b + [e]) == multiset(a + [e] + b) == multiset([e] + (a + b))
  {
  }

  /** An element moved to either end of the drawing list: the same elements in another order. */
  lemma MovedElement(s: Lists, e: Element)
    requires Proper(s) && e in s.drawing
    ensures var rest := Erase(s.drawing, e);
            && Proper(Lists(rest + [e], s.undos)) && Members(rest + [e]) == Members(s.drawing)
            && Proper(Lists([e] + rest, s.undos)) && Members([e] + rest) == Members(s.drawing)
            && multiset(rest + [e]) == multiset(s.drawing) == multiset([e] + rest)
  {
    var rest := Erase(s.drawing, e);
    EraseKeepsDistinct(s.drawing, e);
    assert e in Members(s.drawing);
    var k := FirstIndex(s.drawing, e);
    EraseAt(s.drawing, e, k);
    hide Distinct, Members, Erase;
    PutAtEnds(rest, e);
    SplitAt(s.drawing, k);
    SameElements(s.drawing[..k], s.drawing[k + 1..], e);
  }

  /** Undo and redo move elements between two lists that stay disjoint. */
  lemma StepsStayProper(s: Lists, e: Element)
    requires Proper(s)
    ensures Proper(Remove(s, e)) && Proper(Undo(s)) && Proper(Redo(s))
    ensures Members(Remove(s, e).drawing) + Members(Remove(s, e).undos) == Members(s.drawing) + Members(s.undos)
    ensures Members(Redo(s).drawing) + Members(Redo(s).undos) == Members(s.drawing) + Members(s.undos)
  {
    RemoveStaysProper(s, e);
    if s.drawing != [] {
      RemoveStaysProper(s, s.drawing[|s.drawing| - 1]);
    }
    if s.undos != [] {
      RedoStaysProper(s);
    }
  }

  lemma RedoStaysProper(s: Lists)
    requires Proper(s) && s.undos != []
    ensures Proper(Redo(s))
    ensures Members(Redo(s).drawing) + Members(Redo(s).undos) == Members(s.drawing) + Members(s.undos)
  {
    var n := |s.undos| - 1;
    var e := s.undos[n];
    EraseLast(s.undos);
    EraseKeepsDistinct(s.undos, e);
    assert e in Members(s.undos);
    hide Distinct, Members, Erase;
    PutAtEnds(s.drawing, e);
  }

  lemma RemoveStaysProper(s: Lists, e: Element)
    requires Proper(s)
    ensures Proper(Remove(s, e))
    ensures Members(Remove(s, e).drawing) + Members(Remove(s, e).undos) == Members(s.drawing) + Members(s.undos)
  {
    if e in s.drawing {
      EraseKeepsDistinct(s.drawing, e);
      assert e in Members(s.drawing);
    }
  }

  /** One redo takes back one undo. */
  lemma RedoAfterUndo(s: Lists)
    requires Proper(s) && s.drawing != []
    ensures Redo(Undo(s)) == s
  {
    EraseLast(s.drawing);
    var n := |s.drawing| - 1;
    assert s.drawing == s.drawing[..n] + [s.drawing[n]];
  }

  /** `k` redos take back `k` undos: both lists are as they were. */
  lemma {:induction false} RedosAfterUndos(s: Lists, k: nat)
    requires Proper(s) && k <= |s.drawing|
    ensures Redos(Undos(s, k), k) == s
    ensures Proper(Undos(s, k)) && |Undos(s, k).drawing| == |s.drawing| - k
  {
    hide Proper, Undo, Redo;
    if k > 0 {
      RedosAfterUndos(s, k - 1);
      var t := Undos(s, k - 1);
      RedoAfterUndo(t);
      StepsStayProper(t, t.drawing[|t.drawing| - 1]);
      UndoShortens(t);
      assert Redos(Undo(t), k) == Redos(Redo(Undo(t)), k - 1);
    }
  }

  lemma UndoShortens(s: Lists)
    requires Proper(s) && s.drawing != []
    ensures |Undo(s).drawing| == |s.drawing| - 1
  {
    EraseLast(s.drawing);
  }

  /** A redo takes back a removal exactly when the top-most element was removed. */
  lemma RedoAfterRemove(s: Lists, e: Element)
    requires Proper(s) && e in s.drawing
    ensures Redo(Remove(s, e)) == s <==> s.drawing[|s.drawing| - 1] == e
  {
    var n := |s.drawing| - 1;
    if s.drawing[n] == e {
      RedoAfterUndo(s);
    } else {
      assert Redo(Remove(s, e)).drawing[|Erase(s.drawing, e)|] == e;
      EraseKeepsDistinct(s.drawing, e);
    }
  }

  // ---- The token stream --------------------------------------------------------------------------

  /** MessagePack objects, as far as the board writes or looks at them. */
  datatype Token = Integer(n: int) | Raw(data: Data)

  /** An element as it is saved. */
  datatype Saved = Saved(kind: int, data: Data)

  function Image(s: seq<Element>): seq<Saved> {
    if s == [] then [] else Image(s[..|s| - 1]) + [Saved(s[|s| - 1].kind, s[|s| - 1].data)]
  }

  function Packed(s: seq<Element>): seq<Token> {
    if s == [] then [] else Packed(s[..|s| - 1]) + [Integer(s[|s| - 1].kind), Raw(s[|s| - 1].data)]
  }

  /** What the reader remembers between tokens, and what it has built. */
  datatype Reading = Reading(getUuid: bool, getThis: bool, kind: int, uuid: Data, self: Data, built: seq<Saved>)

  function Read(st: Reading, t: Token, supported: set<int>): Reading {
    match t
    case Integer(n) => if n >= 0 then st.(kind := n) else st
    case Raw(data) =>
      if !st.getUuid && st.kind == 0 then st.(uuid := data, getUuid := true)
      else if !st.getThis && st.kind == 0 then st.(self := data, getThis := true)
      else if st.kind != 0 && st.kind in supported then st.(built := st.built + [Saved(st.kind, data)])
      else st
  }

  function ReadAll(st: Reading, tokens: seq<Token>, supported: set<int>): Reading {
    if tokens == [] then st
    else Read(ReadAll(st, tokens[..|tokens| - 1], supported), tokens[|tokens| - 1], supported)
  }

  /** The saved elements that a reader builds again. */
  function Supported(s: seq<Saved>, supported: set<int>): seq<Saved> {
    if s == [] then []
    else Supported(s[..|s| - 1], supported)
         + if s[|s| - 1].kind != 0 && s[|s| - 1].kind in supported then [s[|s| - 1]] else []
  }

  /** The type a raw object has when it comes after these tokens: the last integer that is not
      negative, 0 without one. */
  function TypeAfter(tokens: seq<Token>): int {
    var n := |tokens| - 1;
    if n < 0 then 0
    else if tokens[n].Integer? && tokens[n].n >= 0 then tokens[n].n else TypeAfter(tokens[..n])
  }

  /** The raw objects of type 0. */
  function Heads(tokens: seq<Token>): seq<Data> {
    var n := |tokens| - 1;
    if n < 0 then []
    else Heads(tokens[..n]) + if tokens[n].Raw? && TypeAfter(tokens[..n]) == 0 then [tokens[n].data] else []
  }

  /** The raw objects of a supported type. */
  function Elements(tokens: seq<Token>, supported: set<int>): seq<Saved> {
    var n := |tokens| - 1;
    if n < 0 then []
    else
      var kind := TypeAfter(tokens[..n]);
      Elements(tokens[..n], supported)
      + if tokens[n].Raw? && kind != 0 && kind in supported then [Saved(kind, tokens[n].data)] else []
  }

  /** The type by position: what the last such integer says. */
  lemma {:induction false} TypeIsLast(tokens: seq<Token>, k: nat)
    requires k < |tokens| && tokens[k].Integer? && tokens[k].n >= 0
    requires forall i :: k < i < |tokens| ==> tokens[i].Raw? || tokens[i].n < 0
    ensures TypeAfter(tokens) == tokens[k].n
  {
    if k < |tokens| - 1 {
      TypeIsLast(tokens[..|tokens| - 1], k);
    }
  }

  lemma {:induction false} NoType(tokens: seq<Token>)
    requires forall i :: 0 <= i < |tokens| ==> tokens[i].Raw? || tokens[i].n < 0
    ensures TypeAfter(tokens) == 0
  {
    if tokens != [] {
      NoType(tokens[..|tokens| - 1]);
    }
  }

  /** The reader takes the first two raw objects of type 0 for the identity and the board itself, and
      builds exactly the raw objects of a supported type, in order, whatever else the stream holds. */
  lemma {:induction false} ReadMeans(st: Reading, tokens: seq<Token>, supported: set<int>)
    requires st.kind == 0 && !st.getUuid && !st.getThis && st.built == []
    ensures var r, heads := ReadAll(st, tokens, supported), Heads(tokens);
            && r.kind == TypeAfter(tokens) && r.built == Elements(tokens, supported)
            && (r.getUuid <==> |heads| > 0) && (r.getThis <==> |heads| > 1)
            && r.uuid == (if |heads| > 0 then heads[0] else st.uuid)
            && r.self == (if |heads| > 1 then heads[1] else st.self)
  {
    if tokens != [] {
      ReadMeans(st, tokens[..|tokens| - 1], supported);
    }
  }

  lemma ReadAllSnoc(st: Reading, tokens: seq<Token>, t: Token, supported: set<int>)
    ensures ReadAll(st, tokens + [t], supported) == Read(ReadAll(st, tokens, supported), t, supported)
  {
    assert (tokens + [t])[..|tokens|] == tokens;
  }

  /** The two tokens of one element, read after the tokens of the board itself. */
  lemma ReadElement(st: Reading, tokens: seq<Token>, e: Saved, supported: set<int>)
    requires e.kind >= 0
    requires ReadAll(st, tokens, supported).getUuid && ReadAll(st, tokens, supported).getThis
    ensures var was := ReadAll(st, tokens, supported);
            ReadAll(st, tokens + [Integer(e.kind), Raw(e.data)], supported)
            == was.(kind := e.kind,
                    built := was.built + if e.kind != 0 && e.kind in supported then [e] else [])
  {
    hide ReadAll;
    ReadAllSnoc(st, tokens, Integer(e.kind), supported);
    ReadAllSnoc(st, tokens + [Integer(e.kind)], Raw(e.data), supported);
    assert tokens + [Integer(e.kind)] + [Raw(e.data)] == tokens + [Integer(e.kind), Raw(e.data)];
  }

  lemma ReadHead(uuid: Data, self: Data, st: Reading, supported: set<int>)
    requires st.kind == 0 && !st.getUuid && !st.getThis
    ensures ReadAll(st, [Raw(uuid), Raw(self)], supported)
            == st.(uuid := uuid, getUuid := true, self := self, getThis := true)
  {
    assert ReadAll(st, [], supported) == st;
    hide ReadAll;
    ReadAllSnoc(st, [], Raw(uuid), supported);
    ReadAllSnoc(st, [] + [Raw(uuid)], Raw(self), supported);
    assert [] + [Raw(uuid)] + [Raw(self)] == [Raw(uuid), Raw(self)];
  }

  lemma PackedLast(s: seq<Element>)
    requires s != []
    ensures var e := s[|s| - 1];
            && Packed(s) == Packed(s[..|s| - 1]) + [Integer(e.kind), Raw(e.data)]
            && Image(s) == Image(s[..|s| - 1]) + [Saved(e.kind, e.data)]
  {
  }

  /** What is saved, by position: type and data of the elements shown, from the second pair on. */
  lemma {:induction false} PackedAt(s: seq<Element>, k: nat)
    requires k < |s|
    ensures |Packed(s)| == 2 * |s| && |Image(s)| == |s|
    ensures Packed(s)[2 * k] == Integer(s[k].kind) && Packed(s)[2 * k + 1] == Raw(s[k].data)
    ensures Image(s)[k] == Saved(s[k].kind, s[k].data)
  {
    if k < |s| - 1 {
      PackedAt(s[..|s| - 1], k);
    } else if |s| > 1 {
      PackedAt(s[..|s| - 1], k - 1);
    }
  }

  lemma ConcatRight(a: seq<Token>, b: seq<Token>, c: seq<Token>)
    ensures a + (b + c) == (a + b) + c
  {
  }

  /** Reading what the board writes gives back its identity, its own data, and every element of a
      supported type, in painting order. */
  lemma {:induction false} ReadPacked(uuid: Data, self: Data, s: seq<Element>, st: Reading, supported: set<int>)
    requires st.kind == 0 && !st.getUuid && !st.getThis && st.built == []
    requires forall e :: e in s ==> e.kind >= 0
    ensures var r := ReadAll(st, [Raw(uuid), Raw(self)] + Packed(s), supported);
            && r.uuid == uuid && r.self == self && r.getUuid && r.getThis
            && r.built == Supported(Image(s), supported)
  {
    var head := [Raw(uuid), Raw(self)];
    if s == [] {
      assert head + Packed(s) == head;
      hide ReadAll;
      ReadHead(uuid, self, st, supported);
    } else {
      hide ReadAll, Packed, Image, Supported;
      var n := |s| - 1;
      var e := s[n];
      assert e in s;
      ReadPacked(uuid, self, s[..n], st, supported);
      PackedLast(s);
      ConcatRight(head, Packed(s[..n]), [Integer(e.kind), Raw(e.data)]);
      ReadElement(st, head + Packed(s[..n]), Saved(e.kind, e.data), supported);
      SupportedSnoc(Image(s[..n]), Saved(e.kind, e.data), supported);
    }
  }

  lemma SupportedSnoc(s: seq<Saved>, x: Saved, supported: set<int>)
    ensures Supported(s + [x], supported) ==
            Supported(s, supported) + if x.kind != 0 && x.kind in supported then [x] else []
  {
    assert (s + [x])[..|s|] == s;
  }

  // ---- The widget --------------------------------------------------------------------------------

  class BanBaseWidget {
    var allElements: set<Element>
    var drawingElements: seq<Element>
    var undos: seq<Element>
    var redoing: bool
    var disableDraw: bool
    var uuid: Data
    var self: Data

    ghost function Both(): Lists
      reads this
    {
      Lists(drawingElements, undos)
    }

    /** What every operation keeps. */
    ghost predicate Valid()
      reads this
    {
      !redoing && Proper(Both()) && Members(drawingElements) + Members(undos) <= allElements
    }

    constructor (uuid: Data, self: Data)
      ensures Valid() && drawingElements == [] && undos == [] && allElements == {}
    {
      allElements, drawingElements, undos, redoing, disableDraw := {}, [], [], false, false;
      this.uuid, this.self := uuid, self;
    }

    /** A new element ends what can be redone, unless it is itself being redone. The lists stay
        proper exactly if the element is not shown already. */
    method AddElement(element: Element, addToDrawing: bool)
      requires Proper(Both()) && Members(drawingElements) + Members(undos) <= allElements
      requires redoing ==> addToDrawing && element !in drawingElements && element !in undos
      modifies this
      ensures allElements == old(allElements) + {element}
      ensures disableDraw == old(disableDraw) && uuid == old(uuid) && self == old(self)
      ensures !addToDrawing ==> Both() == old(Both()) && redoing == old(redoing)
      ensures addToDrawing ==> drawingElements == old(drawingElements) + [element] && !redoing
      ensures addToDrawing ==> undos == if old(redoing) then old(undos) else []
      ensures addToDrawing ==> (Valid() <==> element !in old(drawingElements))
      ensures !addToDrawing && !redoing ==> Valid()
    {
      allElements := allElements + {element};
      if addToDrawing {
        ghost var shown := drawingElements;
        drawingElements := drawingElements + [element];
        if !redoing {
          undos := [];
        } else {
          redoing := false;
        }
        ShownTwice(shown, element);
      }
    }

    /** A removed element can be redone. */
    method RemoveDrawingElementTriggered(element: Element)
      requires Valid()
      modifies `drawingElements, `undos
      ensures Valid() && Both() == Remove(old(Both()), element)
      ensures element !in old(drawingElements) ==> drawingElements == old(drawingElements) && undos == old(undos)
      ensures element in old(drawingElements) ==> undos == old(undos) + [element]
      ensures forall k :: 0 <= k < |old(drawingElements)| && old(drawingElements)[k] == element ==>
                drawingElements == old(drawingElements)[..k] + old(drawingElements)[k + 1..]
    {
      StepsStayProper(Both(), element);
      OnlyPlace(drawingElements, element);
      hide Erase, Distinct, Members;
      if element in drawingElements {
        EraseElement(element);
        undos := undos + [element];
      }
    }

    method OnUndoTriggered()
      requires Valid()
      modifies `drawingElements, `undos
      ensures Valid() && Both() == if disableDraw then old(Both()) else Undo(old(Both()))
      ensures disableDraw || old(drawingElements) == [] ==>
                drawingElements == old(drawingElements) && undos == old(undos)
      ensures !disableDraw && old(drawingElements) != [] ==>
                var n := |old(drawingElements)| - 1;
                drawingElements == old(drawingElements)[..n] && undos == old(undos) + [old(drawingElements)[n]]
    {
      if disableDraw {
        return;
      }
      if |drawingElements| > 0 {
        RemoveDrawingElementTriggered(drawingElements[|drawingElements| - 1]);
      }
    }

    method OnRedoTriggered()
      requires Valid()
      modifies this
      ensures Valid() && allElements == old(allElements)
      ensures Both() == if disableDraw then old(Both()) else Redo(old(Both()))
      ensures disableDraw == old(disableDraw) && uuid == old(uuid) && self == old(self)
      ensures disableDraw || old(undos) == [] ==> drawingElements == old(drawingElements) && undos == old(undos)
      ensures !disableDraw && old(undos) != [] ==>
                var n := |old(undos)| - 1;
                drawingElements == old(drawingElements) + [old(undos)[n]] && undos == old(undos)[..n]
    {
      if disableDraw {
        return;
      }
      if undos != [] {
        var element := undos[|undos| - 1];
        assert element in Members(undos);
        ghost var rest := undos[..|undos| - 1];
        assert undos == rest + [element];
        undos := undos[..|undos| - 1];
        redoing := true;
        AddElement(element, true);
      }
    }

    method OnTopMostElementTriggered(element: Element)
      requires Valid()
      modifies `drawingElements
      ensures Valid() && multiset(drawingElements) == multiset(old(drawingElements))
      ensures drawingElements ==
              if element in old(drawingElements) then Erase(old(drawingElements), element) + [element]
              else old(drawingElements)
    {
      if element in drawingElements {
        MovedElement(Both(), element);
        hide Proper, Members, Erase;
        EraseElement(element);
        drawingElements := drawingElements + [element];
      }
    }

    method OnBottomMostElementTriggered(element: Element)
      requires Valid()
      modifies `drawingElements
      ensures Valid() && multiset(drawingElements) == multiset(old(drawingElements))
      ensures drawingElements ==
              if element in old(drawingElements) then [element] + Erase(old(drawingElements), element)
              else old(drawingElements)
    {
      if element in drawingElements {
        MovedElement(Both(), element);
        hide Proper, Members, Erase;
        EraseElement(element);
        drawingElements := [element] + drawingElements;
      }
    }

    method EraseElement(element: Element)
      requires element in drawingElements
      modifies `drawingElements
      ensures drawingElements == Erase(old(drawingElements), element)
    {
      var k := FindElement(element);
      drawingElements := drawingElements[..k] + drawingElements[k + 1..];
    }

    /** `std::find`, and what erasing at the place found does. */
    method FindElement(element: Element) returns (k: nat)
      requires element in drawingElements
      ensures k < |drawingElements| && drawingElements[k] == element
      ensures drawingElements[..k] + drawingElements[k + 1..] == Erase(drawingElements, element)
    {
      k := 0;
      while drawingElements[k] != element
        invariant 0 <= k < |drawingElements| && element !in drawingElements[..k]
        decreases |drawingElements| - k
      {
        k := k + 1;
      }
      EraseAt(drawingElements, element, k);
    }

    method ClearAll()
      modifies `allElements, `drawingElements, `undos
      ensures allElements == {} && drawingElements == [] && undos == []
      ensures !redoing ==> Valid()
    {
      allElements := {};
      drawingElements := [];
      undos := [];
    }

    /** The saved form of what is shown. */
    method GetMsgPackData() returns (tokens: seq<Token>)
      ensures tokens == [Raw(uuid), Raw(self)] + Packed(drawingElements)
    {
      tokens := [Raw(uuid), Raw(self)];
      for i := 0 to |drawingElements|
        invariant tokens == [Raw(uuid), Raw(self)] + Packed(drawingElements[..i])
      {
        assert drawingElements[..i + 1][..i] == drawingElements[..i];
        tokens := tokens + [Integer(drawingElements[i].kind), Raw(drawingElements[i].data)];
      }
      assert drawingElements[..|drawingElements|] == drawingElements;
    }

    /** Rebuilds the board from tokens; new elements get identities from `firstId` on. */
    method SetMsgPackData(tokens: seq<Token>, supported: set<int>, firstId: int)
      requires !redoing
      modifies `allElements, `drawingElements, `undos, `uuid, `self
      ensures Valid() && undos == []
      ensures var r := ReadAll(Reading(false, false, 0, old(uuid), old(self), []), tokens, supported);
              uuid == r.uuid && self == r.self && Image(drawingElements) == r.built
      ensures var heads := Heads(tokens);
              && uuid == (if |heads| > 0 then heads[0] else old(uuid))
              && self == (if |heads| > 1 then heads[1] else old(self))
              && Image(drawingElements) == Elements(tokens, supported)
    {
      hide ReadAll, Image, Members, Heads, Elements, TypeAfter;
      ReadMeans(Reading(false, false, 0, uuid, self, []), tokens, supported);
      ReadTokens(tokens, supported, firstId);
    }

    /** The loop over the tokens. */
    method ReadTokens(tokens: seq<Token>, supported: set<int>, firstId: int)
      requires !redoing
      modifies `allElements, `drawingElements, `undos, `uuid, `self
      ensures Valid() && undos == []
      ensures var r := ReadAll(Reading(false, false, 0, old(uuid), old(self), []), tokens, supported);
              uuid == r.uuid && self == r.self && Image(drawingElements) == r.built
    {
      hide ReadAll, Image, Members;
      ClearAll();
      var getUuid, getThis, kind := false, false, 0;
      ghost var start := Reading(false, false, 0, uuid, self, []);
      ReadNothing(start, supported);
      assert tokens[..0] == [];
      for i := 0 to |tokens|
        invariant undos == [] && !redoing && Members(drawingElements) <= allElements
        invariant Numbered(drawingElements, firstId)
        invariant Reading(getUuid, getThis, kind, uuid, self, Image(drawingElements))
                  == ReadAll(start, tokens[..i], supported)
      {
        assert tokens[..i + 1] == tokens[..i] + [tokens[i]];
        ReadAllSnoc(start, tokens[..i], tokens[i], supported);
        match tokens[i]
        case Integer(n) =>
          if n >= 0 {
            kind := n;
          }
        case Raw(data) =>
          if !getUuid && kind == 0 {
            uuid := data;
            getUuid := true;
          } else if !getThis && kind == 0 {
            self := data;
            getThis := true;
          } else if kind != 0 {
            if kind in supported {
              AppendRead(kind, data, firstId);
            }
          }
      }
      assert tokens[..|tokens|] == tokens;
      NumberedIsDistinct(drawingElements, firstId);
      NoMembers();
    }

    /** An element read from the stream goes on top. */
    method AppendRead(kind: int, data: Data, firstId: int)
      requires Members(drawingElements) <= allElements && Numbered(drawingElements, firstId)
      modifies `allElements, `drawingElements
      ensures Members(drawingElements) <= allElements && Numbered(drawingElements, firstId)
      ensures Image(drawingElements) == Image(old(drawingElements)) + [Saved(kind, data)]
    {
      var element := Element(firstId + |drawingElements|, kind, data);
      ghost var shown := drawingElements;
      allElements := allElements + {element};
      drawingElements := drawingElements + [element];
      assert drawingElements[..|shown|] == shown;
    }
  }

  ghost predicate Numbered(s: seq<Element>, firstId: int) {
    forall k :: 0 <= k < |s| ==> s[k].id == firstId + k
  }

  lemma NumberedIsDistinct(s: seq<Element>, firstId: int)
    requires Numbered(s, firstId)
    ensures Distinct(s)
  {
  }

  lemma NoMembers()
    ensures Members([]) == {} && Image([]) == []
  {
  }

  lemma ReadNothing(st: Reading, supported: set<int>)
    ensures ReadAll(st, [], supported) == st && Image([]) == [] && Members([]) == {}
  {
  }

  lemma ShownTwice(shown: seq<Element>, e: Element)
    requires Distinct(shown)
    ensures Distinct(shown + [e]) <==> e !in shown
  {
    if k :| 0 <= k < |shown| && shown[k] == e {
      assert (shown + [e])[k] == (shown + [e])[|shown|];
    }
  }

  /** Saving a board and reading it back on another shows the same elements in the same order, but
      for the types the reader does not support. */
  method SaveAndRead(from: BanBaseWidget, to: BanBaseWidget, supported: set<int>, firstId: int)
    requires from != to && !to.redoing
    requires forall e :: e in from.drawingElements ==> e.kind >= 0
    modifies to
    ensures to.Valid() && to.uuid == from.uuid && to.self == from.self
    ensures Image(to.drawingElements) == Supported(Image(from.drawingElements), supported)
  {
    var tokens := from.GetMsgPackData();
    ReadPacked(from.uuid, from.self, from.drawingElements, Reading(false, false, 0, to.uuid, to.self, []), supported);
    to.SetMsgPackData(tokens, supported, firstId);
  }
}
