/** Bookmarks in XBEL: the reader over the tokens of an XML stream, the writer, and what reading back
    what was written gives. */
module Xbel {

  // ---- Bookmark trees ----------------------------------------------------------------------------

  datatype Type = Root | Folder | Bookmark | Separator

  datatype Node = Node(kind: Type, url: string, title: string, desc: string, expanded: bool, children: seq<Node>)

  const UNKNOWN_TITLE := "Unknown title"

  function NewNode(kind: Type): Node {
    Node(kind, "", "", "", false, [])
  }

  /** The comparison of the source: fields, number of children, then the children one by one. */
  predicate Same(a: Node, b: Node) {
    && a.url == b.url && a.title == b.title && a.desc == b.desc && a.expanded == b.expanded && a.kind == b.kind
    && |a.children| == |b.children|
    && (forall i :: 0 <= i < |a.children| ==> Same(a.children[i], b.children[i]))
  }

  /** It decides equality of whole trees. */
  lemma {:induction false} SameIsEquality(a: Node, b: Node)
    ensures Same(a, b) <==> a == b
  {
    if |a.children| == |b.children| {
      forall i | 0 <= i < |a.children|
        ensures Same(a.children[i], b.children[i]) <==> a.children[i] == b.children[i]
      {
        SameIsEquality(a.children[i], b.children[i]);
      }
    }
  }

  // ---- Documents and their tokens ----------------------------------------------------------------

  datatype Tag = XbelTag | FolderTag | BookmarkTag | SeparatorTag | TitleTag | DescTag | UnknownTag(id: nat)

  /** The attributes that are looked at; an absent one reads as the empty text. */
  datatype Attributes = Attributes(version: string, folded: string, href: string)

  const NO_ATTRIBUTES := Attributes("", "", "")

  /** `Other` stands for comments, processing instructions, the start of the document and its DTD. */
  datatype Token = Start(tag: Tag, attrs: Attributes) | End | Characters(text: string) | Other

  /** A piece of a well-formed document. */
  datatype Item = Element(tag: Tag, attrs: Attributes, content: seq<Item>) | Text(text: string) | Remark

  function Tokens(item: Item): seq<Token>
    decreases item, 0
  {
    match item
    case Element(tag, attrs, content) => [Start(tag, attrs)] + AllTokens(content) + [End]
    case Text(text) => [Characters(text)]
    case Remark => [Other]
  }

  function AllTokens(items: seq<Item>): seq<Token>
    decreases items
  {
    if items == [] then [] else Tokens(items[0]) + AllTokens(items[1..])
  }

  // ---- Reading tokens ----------------------------------------------------------------------------

  /** What is left after the ends of `depth` open elements. */
  function Skip(ts: seq<Token>, depth: nat): (rest: seq<Token>)
    ensures |rest| <= |ts|
  {
    if depth == 0 || ts == [] then ts
    else Skip(ts[1..], if ts[0].Start? then depth + 1 else if ts[0].End? then depth - 1 else depth)
  }

  /** The text of the current element and what is left after its end. An element inside is an error,
      after which nothing more is read. */
  function ElementText(ts: seq<Token>): (r: (string, seq<Token>))
    ensures |r.1| <= |ts|
  {
    if ts == [] then ("", [])
    else
      match ts[0]
      case Characters(text) => var r := ElementText(ts[1..]); (text + r.0, r.1)
      case Other => ElementText(ts[1..])
      case End => ("", ts[1..])
      case Start(_, _) => ("", [])
  }

  function NewFolder(attrs: Attributes): Node {
    NewNode(Folder).(expanded := attrs.folded == "no")
  }

  function NewBookmark(attrs: Attributes): Node {
    NewNode(Bookmark).(url := attrs.href)
  }

  function Named(mark: Node): Node {
    if mark.title == "" then mark.(title := UNKNOWN_TITLE) else mark
  }

  /** The content of a bookmark, added to what was read of it so far. */
  function ReadMark(mark: Node, ts: seq<Token>): (r: (Node, seq<Token>))
    ensures |r.1| <= |ts|
    decreases |ts|
  {
    if ts == [] then (Named(mark), [])
    else if ts[0].End? then (Named(mark), ts[1..])
    else if !ts[0].Start? then ReadMark(mark, ts[1..])
    else
      match ts[0].tag
      case TitleTag => var r := ElementText(ts[1..]); ReadMark(mark.(title := r.0), r.1)
      case DescTag => var r := ElementText(ts[1..]); ReadMark(mark.(desc := r.0), r.1)
      case _ => ReadMark(mark, Skip(ts[1..], 1))
  }

  function WithChild(parent: Node, child: Node): Node {
    parent.(children := parent.children + [child])
  }

  /** The content of a folder, or of the whole document, added to what was read of it so far. */
  function ReadContent(parent: Node, ts: seq<Token>): (r: (Node, seq<Token>))
    ensures |r.1| <= |ts|
    decreases |ts|
  {
    if ts == [] then (parent, [])
    else if ts[0].End? then (parent, ts[1..])
    else if !ts[0].Start? then ReadContent(parent, ts[1..])
    else
      match ts[0].tag
      case FolderTag =>
        var r := ReadContent(NewFolder(ts[0].attrs), ts[1..]); ReadContent(WithChild(parent, r.0), r.1)
      case BookmarkTag =>
        var r := ReadMark(NewBookmark(ts[0].attrs), ts[1..]); ReadContent(WithChild(parent, r.0), r.1)
      case SeparatorTag =>
        ReadContent(WithChild(parent, NewNode(Separator)), if |ts| > 1 then ts[2..] else [])
      case TitleTag =>
        if parent.kind == Root then ReadContent(parent, Skip(ts[1..], 1))
        else var r := ElementText(ts[1..]); ReadContent(parent.(title := r.0), r.1)
      case DescTag =>
        if parent.kind == Root then ReadContent(parent, Skip(ts[1..], 1))
        else var r := ElementText(ts[1..]); ReadContent(parent.(desc := r.0), r.1)
      case _ => ReadContent(parent, Skip(ts[1..], 1))
  }

  // ---- What a document means ---------------------------------------------------------------------

  /** The text in the content of an element. */
  function TextOf(items: seq<Item>): string {
    if items == [] then "" else (if items[0].Text? then items[0].text else "") + TextOf(items[1..])
  }

  predicate OnlyText(items: seq<Item>) {
    forall i :: 0 <= i < |items| ==> !items[i].Element?
  }

  /** A bookmark after one more piece of its content. */
  function MarkWith(mark: Node, item: Item): Node {
    if !item.Element? then mark
    else if item.tag == TitleTag then mark.(title := TextOf(item.content))
    else if item.tag == DescTag then mark.(desc := TextOf(item.content))
    else mark
  }

  function MarkWithAll(mark: Node, items: seq<Item>): Node
    decreases items
  {
    if items == [] then mark else MarkWithAll(MarkWith(mark, items[0]), items[1..])
  }

  /** A folder, or the root, after one more piece of its content: folders, bookmarks and separators
      become children, a folder's title and description are kept, all else means nothing. */
  function With(parent: Node, item: Item): Node
    decreases item, 0
  {
    if !item.Element? then parent
    else
      match item.tag
      case FolderTag => WithChild(parent, WithAll(NewFolder(item.attrs), item.content))
      case BookmarkTag => WithChild(parent, Named(MarkWithAll(NewBookmark(item.attrs), item.content)))
      case SeparatorTag => WithChild(parent, NewNode(Separator))
      case TitleTag => if parent.kind == Root then parent else parent.(title := TextOf(item.content))
      case DescTag => if parent.kind == Root then parent else parent.(desc := TextOf(item.content))
      case _ => parent
  }

  function WithAll(parent: Node, items: seq<Item>): Node
    decreases items
  {
    if items == [] then parent else WithAll(With(parent, items[0]), items[1..])
  }

  /** What the reader relies on: titles and descriptions hold no elements, separators hold nothing. */
  predicate Proper(item: Item)
    decreases item, 0
  {
    item.Element? ==>
      && (item.tag == TitleTag || item.tag == DescTag ==> OnlyText(item.content))
      && (item.tag == SeparatorTag ==> item.content == [])
      && (item.tag == FolderTag || item.tag == BookmarkTag ==> AllProper(item.content))
  }

  predicate AllProper(items: seq<Item>)
    decreases items
  {
    items == [] || (Proper(items[0]) && AllProper(items[1..]))
  }

  // ---- The reader reads what the document means --------------------------------------------------

  lemma AllTokensStep(item: Item, items: seq<Item>, rest: seq<Token>)
    ensures AllTokens([item] + items) + rest == Tokens(item) + (AllTokens(items) + rest)
  {
    assert ([item] + items)[1..] == items;
  }

  lemma ElementTokens(tag: Tag, attrs: Attributes, content: seq<Item>, rest: seq<Token>)
    ensures var ts := Tokens(Element(tag, attrs, content)) + rest;
            |ts| > 1 && ts[0] == Start(tag, attrs) && ts[1..] == AllTokens(content) + ([End] + rest)
  {
    assert AllTokens(content) + [End] + rest == AllTokens(content) + ([End] + rest);
  }

  /** Skipping passes over whole pieces. */
  lemma {:induction false} SkipItem(item: Item, rest: seq<Token>, depth: nat)
    requires depth > 0
    ensures Skip(Tokens(item) + rest, depth) == Skip(rest, depth)
    decreases item, 0
  {
    hide AllTokens;
    var ts := Tokens(item) + rest;
    if item.Element? {
      ElementTokens(item.tag, item.attrs, item.content, rest);
      SkipItems(item.content, [End] + rest, depth + 1);
      assert ([End] + rest)[1..] == rest;
    } else {
      assert ts[1..] == rest;
    }
  }

  lemma {:induction false} SkipItems(items: seq<Item>, rest: seq<Token>, depth: nat)
    requires depth > 0
    ensures Skip(AllTokens(items) + rest, depth) == Skip(rest, depth)
    decreases items
  {
    hide Skip, Tokens;
    if items == [] {
      assert AllTokens(items) + rest == rest;
    } else {
      assert items == [items[0]] + items[1..];
      AllTokensStep(items[0], items[1..], rest);
      SkipItem(items[0], AllTokens(items[1..]) + rest, depth);
      SkipItems(items[1..], rest, depth);
    }
  }

  /** Skipping the current element ends right after it. */
  lemma SkipElement(items: seq<Item>, rest: seq<Token>)
    ensures Skip(AllTokens(items) + ([End] + rest), 1) == rest
  {
    hide AllTokens;
    SkipItems(items, [End] + rest, 1);
    assert ([End] + rest)[1..] == rest;
  }

  lemma {:induction false} ElementTextOf(items: seq<Item>, rest: seq<Token>)
    requires OnlyText(items)
    ensures ElementText(AllTokens(items) + ([End] + rest)) == (TextOf(items), rest)
  {
    var ts := AllTokens(items) + ([End] + rest);
    if items == [] {
      assert ts == [End] + rest && ts[1..] == rest;
    } else {
      assert items == [items[0]] + items[1..];
      AllTokensStep(items[0], items[1..], [End] + rest);
      ElementTextOf(items[1..], rest);
      assert "" + TextOf(items[1..]) == TextOf(items[1..]);
      assert ts[1..] == AllTokens(items[1..]) + ([End] + rest);
    }
  }

  lemma ReadMarkStep(mark: Node, item: Item, rest: seq<Token>)
    requires Proper(item)
    ensures ReadMark(mark, Tokens(item) + rest) == ReadMark(MarkWith(mark, item), rest)
  {
    hide AllTokens, Skip, ElementText;
    var ts := Tokens(item) + rest;
    if item.Element? {
      ElementTokens(item.tag, item.attrs, item.content, rest);
      if item.tag == TitleTag || item.tag == DescTag {
        ElementTextOf(item.content, rest);
      } else {
        SkipElement(item.content, rest);
      }
    } else {
      assert ts[1..] == rest;
    }
  }

  lemma {:induction false} ReadMarkOf(mark: Node, items: seq<Item>, rest: seq<Token>)
    requires AllProper(items)
    ensures ReadMark(mark, AllTokens(items) + ([End] + rest)) == (Named(MarkWithAll(mark, items)), rest)
    decreases items
  {
    hide Tokens, MarkWith, Named, Proper;
    var ts := AllTokens(items) + ([End] + rest);
    if items == [] {
      assert ts == [End] + rest && ts[1..] == rest;
    } else {
      assert items == [items[0]] + items[1..];
      AllTokensStep(items[0], items[1..], [End] + rest);
      ReadMarkStep(mark, items[0], AllTokens(items[1..]) + ([End] + rest));
      ReadMarkOf(MarkWith(mark, items[0]), items[1..], rest);
    }
  }

  /** One piece of a folder. */
  lemma {:induction false} ReadContentStep(parent: Node, item: Item, rest: seq<Token>)
    requires Proper(item)
    ensures ReadContent(parent, Tokens(item) + rest) == ReadContent(With(parent, item), rest)
    decreases item, 0
  {
    hide AllTokens, Skip, ElementText, ReadMark, MarkWithAll, WithAll, AllProper, WithChild, NewFolder, Named, TextOf;
    var ts := Tokens(item) + rest;
    if item.Element? {
      ElementTokens(item.tag, item.attrs, item.content, rest);
      match item.tag {
        case FolderTag => ReadContentOf(NewFolder(item.attrs), item.content, rest);
        case BookmarkTag => ReadMarkOf(NewBookmark(item.attrs), item.content, rest);
        case SeparatorTag => NoTokens(); assert ts[1..] == [End] + rest; assert ts[2..] == rest;
        case TitleTag => ElementTextOf(item.content, rest); SkipElement(item.content, rest);
        case DescTag => ElementTextOf(item.content, rest); SkipElement(item.content, rest);
        case _ => SkipElement(item.content, rest);
      }
    } else {
      assert ts[1..] == rest;
    }
  }

  lemma NoTokens()
    ensures AllTokens([]) == []
  {
  }

  /** For every document whose titles and descriptions hold no elements and whose separators are
      empty, at any depth, the reader builds what the document means and stops right after it. */
  lemma {:induction false} ReadContentOf(parent: Node, items: seq<Item>, rest: seq<Token>)
    requires AllProper(items)
    ensures ReadContent(parent, AllTokens(items) + ([End] + rest)) == (WithAll(parent, items), rest)
    decreases items
  {
    hide Tokens, With, Proper;
    var ts := AllTokens(items) + ([End] + rest);
    if items == [] {
      assert ts == [End] + rest && ts[1..] == rest;
    } else {
      assert items == [items[0]] + items[1..];
      AllTokensStep(items[0], items[1..], [End] + rest);
      ReadContentStep(parent, items[0], AllTokens(items[1..]) + ([End] + rest));
      ReadContentOf(With(parent, items[0]), items[1..], rest);
    }
  }

  /** The reader takes just one token for the end of a separator. What is read of the folder around a
      separator, and what is left over, whatever the separator holds: its first piece stands for its
      end, and an end further on for the end of the folder. */
  lemma SeparatorInFolder(parent: Node, attrs: Attributes, content: seq<Item>, items: seq<Item>, rest: seq<Token>)
    requires AllProper(content) && AllProper(items)
    requires content != [] && content[0].Element? ==> AllProper(content[0].content)
    ensures var ts := AllTokens([Element(SeparatorTag, attrs, content)] + items) + ([End] + rest);
            var with, more := WithChild(parent, NewNode(Separator)), AllTokens(items) + ([End] + rest);
            ReadContent(parent, ts) ==
            if content == [] then (WithAll(with, items), rest)
            else if content[0].Element? then
              (WithAll(with, content[0].content), AllTokens(content[1..]) + ([End] + more))
            else (WithAll(with, content[1..]), more)
  {
    hide AllTokens, AllProper, WithAll, WithChild, ReadContent;
    var separator := Element(SeparatorTag, attrs, content);
    var with, more := WithChild(parent, NewNode(Separator)), AllTokens(items) + ([End] + rest);
    AllTokensStep(separator, items, [End] + rest);
    ElementTokens(SeparatorTag, attrs, content, more);
    ReadSeparatorTokens(parent, Tokens(separator) + more);
    NoTokens();
    if content == [] {
      assert (AllTokens(content) + ([End] + more))[1..] == more;
      ReadContentOf(with, items, rest);
    } else {
      ProperTail(content);
      assert content == [content[0]] + content[1..];
      AllTokensStep(content[0], content[1..], [End] + more);
      AfterFirstPiece(with, content[0], content[1..], more);
    }
  }

  lemma ReadSeparatorTokens(parent: Node, ts: seq<Token>)
    requires |ts| > 1 && ts[0].Start? && ts[0].tag == SeparatorTag
    ensures ts[1..] != [] && ReadContent(parent, ts) == ReadContent(WithChild(parent, NewNode(Separator)), ts[1..][1..])
  {
    assert ts[2..] == ts[1..][1..];
  }

  /** The first token of the first piece is gone, and reading goes on. */
  lemma AfterFirstPiece(with: Node, first: Item, others: seq<Item>, more: seq<Token>)
    requires AllProper(others) && (first.Element? ==> AllProper(first.content))
    ensures var inner := AllTokens(others) + ([End] + more);
            var ts := Tokens(first) + inner;
            && ts != []
            && ReadContent(with, ts[1..]) ==
               if first.Element? then (WithAll(with, first.content), inner) else (WithAll(with, others), more)
  {
    hide AllTokens, AllProper, WithAll, ReadContent;
    var inner := AllTokens(others) + ([End] + more);
    if first.Element? {
      ElementTokens(first.tag, first.attrs, first.content, inner);
      ReadContentOf(with, first.content, inner);
    } else {
      assert |Tokens(first)| == 1 && (Tokens(first) + inner)[1..] == inner;
      ReadContentOf(with, others, more);
    }
  }

  lemma ProperTail(items: seq<Item>)
    requires AllProper(items)
    ensures items != [] ==> AllProper(items[1..])
  {
  }

  /** The folder ends where it should if and only if the separator is empty. */
  lemma SeparatorMustBeEmpty(parent: Node, attrs: Attributes, content: seq<Item>, items: seq<Item>, rest: seq<Token>)
    requires AllProper(content) && AllProper(items)
    requires content != [] && content[0].Element? ==> AllProper(content[0].content)
    ensures var separator := Element(SeparatorTag, attrs, content);
            ReadContent(parent, AllTokens([separator] + items) + ([End] + rest)).1 == rest <==>
            content == []
  {
    hide AllTokens, AllProper, WithAll, WithChild, ReadContent;
    SeparatorInFolder(parent, attrs, content, items, rest);
    var more := AllTokens(items) + ([End] + rest);
    assert |more| > |rest|;
    assert content != [] ==> |AllTokens(content[1..]) + ([End] + more)| > |rest|;
  }

  lemma OneText(text: string)
    ensures AllTokens([Text(text)]) == [Characters(text)]
  {
  }

  // ---- What does not matter in a document --------------------------------------------------------

  /** The content of a bookmark without what is not looked at. */
  function StripMark(items: seq<Item>): seq<Item>
    decreases items
  {
    if items == [] then []
    else if items[0].Element? && (items[0].tag == TitleTag || items[0].tag == DescTag) then
      [items[0]] + StripMark(items[1..])
    else StripMark(items[1..])
  }

  predicate Known(item: Item) {
    item.Element? && !item.tag.UnknownTag? && item.tag != XbelTag
  }

  /** The content of a folder without text, comments and unknown elements, at any depth. */
  function Strip(items: seq<Item>): seq<Item>
    decreases items, 0
  {
    if items == [] then []
    else (if Known(items[0]) then [StripItem(items[0])] else []) + Strip(items[1..])
  }

  function StripItem(item: Item): Item
    requires Known(item)
    decreases item, 1
  {
    if item.tag == FolderTag then item.(content := Strip(item.content))
    else if item.tag == BookmarkTag then item.(content := StripMark(item.content))
    else item
  }

  lemma {:induction false} StripMarkMeansNothing(mark: Node, items: seq<Item>)
    ensures MarkWithAll(mark, StripMark(items)) == MarkWithAll(mark, items)
    decreases items
  {
    if items != [] {
      StripMarkMeansNothing(MarkWith(mark, items[0]), items[1..]);
      assert StripMark(items) == [items[0]] + StripMark(items[1..]) ==> StripMark(items)[1..] == StripMark(items[1..]);
    }
  }

  lemma {:induction false} StripItemMeansNothing(parent: Node, item: Item)
    requires Known(item)
    ensures With(parent, StripItem(item)) == With(parent, item)
    decreases item, 1
  {
    hide Strip, StripMark, WithAll, MarkWithAll;
    if item.tag == FolderTag {
      StripMeansNothing(NewFolder(item.attrs), item.content);
    } else if item.tag == BookmarkTag {
      StripMarkMeansNothing(NewBookmark(item.attrs), item.content);
    }
  }

  lemma {:induction false} StripMeansNothing(parent: Node, items: seq<Item>)
    ensures WithAll(parent, Strip(items)) == WithAll(parent, items)
    decreases items, 0
  {
    hide StripItem, With;
    if items != [] {
      StripMeansNothing(With(parent, items[0]), items[1..]);
      if Known(items[0]) {
        StripItemMeansNothing(parent, items[0]);
        assert Strip(items) == [StripItem(items[0])] + Strip(items[1..]);
        assert Strip(items)[1..] == Strip(items[1..]);
      } else {
        assert Strip(items) == Strip(items[1..]);
        UnknownMeansNothing(parent, items[0]);
      }
    }
  }

  lemma UnknownMeansNothing(parent: Node, item: Item)
    requires !Known(item)
    ensures With(parent, item) == parent
  {
  }

  // ---- Whole documents ---------------------------------------------------------------------------

  function DropOther(ts: seq<Token>): (rest: seq<Token>)
    ensures |rest| <= |ts|
  {
    if ts == [] || ts[0].Start? || ts[0].End? then ts else DropOther(ts[1..])
  }

  /** The tree of a document: empty unless its element is `xbel` without a version or with 1.0. */
  function Read(ts: seq<Token>): Node {
    var t := DropOther(ts);
    if t != [] && t[0].Start? && t[0].tag == XbelTag && (t[0].attrs.version == "" || t[0].attrs.version == "1.0")
    then ReadContent(NewNode(Root), t[1..]).0
    else NewNode(Root)
  }

  /** A document: what comes before its element, its content, what comes after. */
  function Document(version: string, items: seq<Item>): seq<Token> {
    [Other, Other, Start(XbelTag, Attributes(version, "", ""))] + (AllTokens(items) + ([End] + [Other]))
  }

  /** The tree read from a document is what the document means; no other version is read. */
  lemma ReadOfDocument(version: string, items: seq<Item>)
    requires AllProper(items)
    ensures Read(Document(version, items)) ==
            if version == "" || version == "1.0" then WithAll(NewNode(Root), items) else NewNode(Root)
  {
    hide AllTokens, ReadContent, WithAll, AllProper;
    var ts := Document(version, items);
    var body := AllTokens(items) + ([End] + [Other]);
    assert ts[1..][1..] == ts[2..] && ts[2..][1..] == body;
    assert DropOther(ts) == DropOther(ts[1..]) && DropOther(ts[1..]) == DropOther(ts[2..]);
    assert ts[2].Start?;
    ReadContentOf(NewNode(Root), items, [Other]);
  }

  /** Text, comments and unknown elements among the children of folders, at any depth, and in
      bookmarks do not change what is read. */
  lemma NoiseIsIgnored(version: string, a: seq<Item>, b: seq<Item>)
    requires AllProper(a) && AllProper(b) && Strip(a) == Strip(b)
    ensures Read(Document(version, a)) == Read(Document(version, b))
  {
    hide Read, Document, WithAll, AllProper, Strip;
    ReadOfDocument(version, a);
    ReadOfDocument(version, b);
    StripMeansNothing(NewNode(Root), a);
    StripMeansNothing(NewNode(Root), b);
  }

  // ---- What is read, field by field --------------------------------------------------------------

  /** Piece `i` is the last element with the tag. */
  ghost predicate LastPiece(items: seq<Item>, tag: Tag, i: int) {
    && 0 <= i < |items| && items[i].Element? && items[i].tag == tag
    && forall j :: i < j < |items| && items[j].Element? ==> items[j].tag != tag
  }

  /** The text is that of the last element with the tag, and empty without one. */
  ghost predicate IsTextOf(items: seq<Item>, tag: Tag, text: string) {
    && (forall i :: LastPiece(items, tag, i) ==> text == TextOf(items[i].content))
    && (NonePiece(items, tag) ==> text == "")
  }

  ghost predicate NonePiece(items: seq<Item>, tag: Tag) {
    forall j :: 0 <= j < |items| && items[j].Element? ==> items[j].tag != tag
  }

  /** The node that an element stands for. */
  ghost predicate StandsFor(item: Item, node: Node)
    requires item.Element?
    decreases item, 0
  {
    match item.tag
    case FolderTag =>
      && node.kind == Folder && node.url == "" && node.expanded == (item.attrs.folded == "no")
      && IsTextOf(item.content, TitleTag, node.title) && IsTextOf(item.content, DescTag, node.desc)
      && StandForAll(item.content, node.children)
    case BookmarkTag =>
      && node.kind == Bookmark && node.url == item.attrs.href && !node.expanded && node.children == []
      && IsTextOf(item.content, DescTag, node.desc)
      && (if IsTextOf(item.content, TitleTag, "") then node.title == "Unknown title"
          else IsTextOf(item.content, TitleTag, node.title))
    case SeparatorTag => node == Node(Separator, "", "", "", false, [])
    case _ => false
  }

  /** The nodes that folders, bookmarks and separators among the pieces stand for, in order. */
  ghost predicate StandForAll(items: seq<Item>, nodes: seq<Node>)
    decreases items
  {
    if items == [] then nodes == []
    else if items[0].Element? && items[0].tag in {FolderTag, BookmarkTag, SeparatorTag} then
      nodes != [] && StandsFor(items[0], nodes[0]) && StandForAll(items[1..], nodes[1..])
    else StandForAll(items[1..], nodes)
  }

  /** The text of pieces is that of their parts. */
  lemma {:induction false} TextOfConcat(a: seq<Item>, b: seq<Item>, text: string)
    ensures TextOf(a + b) == TextOf(a) + TextOf(b)
    ensures TextOf([Text(text)]) == text && TextOf([Remark]) == TextOf([]) == ""
  {
    assert [Text(text)][1..] == [] && [Remark][1..] == [];
    if a == [] {
      assert a + b == b && "" + TextOf(b) == TextOf(b);
    } else {
      TextOfConcat(a[1..], b, text);
      assert (a + b)[1..] == a[1..] + b;
      var x := if a[0].Text? then a[0].text else "";
      assert x + (TextOf(a[1..]) + TextOf(b)) == (x + TextOf(a[1..])) + TextOf(b);
    }
  }

  /** The last text in a row of pieces, or what was there before. */
  function LastText(items: seq<Item>, tag: Tag, before: string): string {
    if items == [] then before
    else if items[0].Element? && items[0].tag == tag then LastText(items[1..], tag, TextOf(items[0].content))
    else LastText(items[1..], tag, before)
  }

  lemma {:induction false} LastTextIs(items: seq<Item>, tag: Tag, before: string)
    ensures forall i :: LastPiece(items, tag, i) ==> LastText(items, tag, before) == TextOf(items[i].content)
    ensures NonePiece(items, tag) ==> LastText(items, tag, before) == before
  {
    if items != [] {
      var next := if items[0].Element? && items[0].tag == tag then TextOf(items[0].content) else before;
      LastTextIs(items[1..], tag, next);
      LastPieceStep(items, tag);
      hide LastPiece, TextOf, NonePiece;
      forall i | LastPiece(items, tag, i)
        ensures LastText(items, tag, before) == TextOf(items[i].content)
      {
        if i > 0 {
          assert items[1..][i - 1] == items[i];
        }
      }
    }
  }

  lemma LastPieceStep(items: seq<Item>, tag: Tag)
    requires items != []
    ensures forall i :: LastPiece(items, tag, i) ==>
              && 0 <= i < |items|
              && (if i > 0 then LastPiece(items[1..], tag, i - 1)
                  else items[0].Element? && items[0].tag == tag && NonePiece(items[1..], tag))
    ensures NonePiece(items, tag) ==> NonePiece(items[1..], tag) && !(items[0].Element? && items[0].tag == tag)
  {
  }

  /** The content of a bookmark. */
  lemma {:induction false} MarkFields(mark: Node, items: seq<Item>)
    ensures MarkWithAll(mark, items)
            == mark.(title := LastText(items, TitleTag, mark.title), desc := LastText(items, DescTag, mark.desc))
    decreases items
  {
    hide TextOf;
    if items != [] {
      MarkFields(MarkWith(mark, items[0]), items[1..]);
    }
  }

  lemma BookmarkStands(item: Item)
    requires item.Element? && item.tag == BookmarkTag
    ensures StandsFor(item, Named(MarkWithAll(NewBookmark(item.attrs), item.content)))
  {
    hide MarkWithAll, LastText, LastPiece, NonePiece;
    MarkFields(NewBookmark(item.attrs), item.content);
    LastTextIs(item.content, TitleTag, "");
    LastTextIs(item.content, DescTag, "");
    var title := LastText(item.content, TitleTag, "");
    if IsTextOf(item.content, TitleTag, "") && title != "" {
      SomeText(item.content, TitleTag, "", title);
    }
  }

  /** There is only one such text. */
  lemma SomeText(items: seq<Item>, tag: Tag, a: string, b: string)
    requires IsTextOf(items, tag, a) && IsTextOf(items, tag, b)
    ensures a == b
  {
    if !NonePiece(items, tag) {
      var i := FindLast(items, tag);
    }
  }

  lemma {:induction false} FindLast(items: seq<Item>, tag: Tag) returns (i: int)
    requires !NonePiece(items, tag)
    ensures LastPiece(items, tag, i)
  {
    var n := |items| - 1;
    if items[n].Element? && items[n].tag == tag {
      i := n;
    } else {
      assert forall j :: 0 <= j < n ==> items[..n][j] == items[j];
      i := FindLast(items[..n], tag);
    }
  }

  /** The content of a folder or of the root. */
  lemma {:induction false} ContentFields(parent: Node, items: seq<Item>)
    ensures var r, n := WithAll(parent, items), |parent.children|;
            && r.kind == parent.kind && r.url == parent.url && r.expanded == parent.expanded
            && r.title == (if parent.kind == Root then parent.title else LastText(items, TitleTag, parent.title))
            && r.desc == (if parent.kind == Root then parent.desc else LastText(items, DescTag, parent.desc))
            && parent.children <= r.children && StandForAll(items, r.children[n..])
    decreases items
  {
    hide StandsFor, TextOf, NewFolder;
    if items == [] {
      assert parent.children[|parent.children|..] == [];
    } else {
      var next := With(parent, items[0]);
      ContentFields(next, items[1..]);
      PieceFields(parent, items[0]);
      hide With;
      var r, n := WithAll(parent, items), |parent.children|;
      if items[0].Element? && items[0].tag in {FolderTag, BookmarkTag, SeparatorTag} {
        assert r.children[n..][1..] == r.children[n + 1..] && r.children[n..][0] == r.children[n] == next.children[n];
      }
    }
  }

  lemma {:induction false} PieceFields(parent: Node, item: Item)
    ensures var next := With(parent, item);
            && next.kind == parent.kind && next.url == parent.url && next.expanded == parent.expanded
            && next.title == (if item.Element? && item.tag == TitleTag && parent.kind != Root
                              then TextOf(item.content) else parent.title)
            && next.desc == (if item.Element? && item.tag == DescTag && parent.kind != Root
                             then TextOf(item.content) else parent.desc)
            && (if item.Element? && item.tag in {FolderTag, BookmarkTag, SeparatorTag}
                then |next.children| == |parent.children| + 1 && parent.children <= next.children
                     && StandsFor(item, next.children[|parent.children|])
                else next.children == parent.children)
    decreases item, 1
  {
    hide WithAll, MarkWithAll, TextOf, StandForAll, LastText, LastPiece, NonePiece, IsTextOf;
    if item.Element? && item.tag == FolderTag {
      FolderStands(item);
    } else if item.Element? && item.tag == BookmarkTag {
      BookmarkStands(item);
    }
  }

  lemma {:induction false} FolderStands(item: Item)
    requires item.Element? && item.tag == FolderTag
    ensures StandsFor(item, WithAll(NewFolder(item.attrs), item.content))
    decreases item, 0
  {
    hide WithAll, LastText, LastPiece, NonePiece, StandForAll;
    var folder := NewFolder(item.attrs);
    ContentFields(folder, item.content);
    LastTextIs(item.content, TitleTag, "");
    LastTextIs(item.content, DescTag, "");
    var r := WithAll(folder, item.content);
    assert r.children[0..] == r.children;
  }

  /** What is read of a document: for every folder, bookmark and separator in it, at any depth, a node with
      the fields that the element has. */
  lemma DocumentStands(version: string, items: seq<Item>)
    requires AllProper(items)
    ensures var root := Read(Document(version, items));
            && root == Node(Root, "", "", "", false, root.children)
            && if version == "" || version == "1.0" then StandForAll(items, root.children) else root.children == []
  {
    hide Read, Document, WithAll, AllProper, StandForAll;
    ReadOfDocument(version, items);
    ContentFields(NewNode(Root), items);
    var root := WithAll(NewNode(Root), items);
    assert root.children[0..] == root.children;
  }

  /** A bookmark with a title and a description. */
  lemma BookmarkWithBoth(attrs: Attributes, title: string, desc: string)
    ensures var a, b := Element(TitleTag, NO_ATTRIBUTES, [Text(title)]), Element(DescTag, NO_ATTRIBUTES, [Text(desc)]);
            Read(Document("1.0", [Element(BookmarkTag, attrs, [a, b])])) ==
            Node(Root, "", "", "", false,
                 [Node(Bookmark, attrs.href, if title == "" then "Unknown title" else title, desc, false, [])])
  {
    var a, b := Element(TitleTag, NO_ATTRIBUTES, [Text(title)]), Element(DescTag, NO_ATTRIBUTES, [Text(desc)]);
    var item := Element(BookmarkTag, attrs, [a, b]);
    TextOfConcat([], [], title);
    TextOfConcat([], [], desc);
    assert [a, b][1..] == [b] && [b][1..] == [];
    assert Proper(a) && Proper(b) && AllProper([b]) && AllProper([a, b]);
    hide TextOf;
    var mark := NewBookmark(attrs);
    assert MarkWithAll(mark.(title := title, desc := desc), []) == mark.(title := title, desc := desc);
    assert MarkWithAll(mark.(title := title), [b]) == mark.(title := title, desc := desc);
    assert MarkWithAll(mark, [a, b]) == mark.(title := title, desc := desc);
    hide Read, Document, MarkWithAll, AllProper;
    WithOne(NewNode(Root), item);
    ReadOfDocument("1.0", [item]);
  }

  // ---- Writing -----------------------------------------------------------------------------------

  function TextItems(text: string): seq<Item> {
    if text == "" then [] else [Text(text)]
  }

  function TitleItem(title: string): Item {
    Element(TitleTag, NO_ATTRIBUTES, TextItems(title))
  }

  /** An attribute written after the start of its element was closed ends up in the text. */
  function LateAttribute(desc: string): string {
    " desc=\"" + desc + "\""
  }

  /** The document of a node; a node of type root has none. */
  function Written(node: Node): seq<Item>
    decreases node, 1
  {
    match node.kind
    case Folder =>
      [Element(FolderTag, Attributes("", if node.expanded then "no" else "yes", ""),
               [TitleItem(node.title)] + WrittenAll(node.children))]
    case Bookmark =>
      [Element(BookmarkTag, Attributes("", "", node.url),
               [TitleItem(node.title)] + TextItems(if node.desc == "" then "" else LateAttribute(node.desc)))]
    case Separator => [Element(SeparatorTag, NO_ATTRIBUTES, [])]
    case Root => []
  }

  function WrittenAll(nodes: seq<Node>): seq<Item>
    decreases nodes, 0
  {
    if nodes == [] then [] else Written(nodes[0]) + WrittenAll(nodes[1..])
  }

  /** The items of a whole tree: those below the root, or the node's own. */
  function WrittenTree(root: Node): seq<Item> {
    if root.kind == Root then WrittenAll(root.children) else Written(root)
  }

  /** What is left of a node in a file: no description, no address of a folder, no fields of a
      separator, a title for every bookmark, and no inner node of type root. */
  function Stored(node: Node): seq<Node>
    decreases node, 1
  {
    match node.kind
    case Folder => [Node(Folder, "", node.title, "", node.expanded, StoredAll(node.children))]
    case Bookmark => [Named(Node(Bookmark, node.url, node.title, "", false, []))]
    case Separator => [NewNode(Separator)]
    case Root => []
  }

  function StoredAll(nodes: seq<Node>): seq<Node>
    decreases nodes, 0
  {
    if nodes == [] then [] else Stored(nodes[0]) + StoredAll(nodes[1..])
  }

  function StoredTree(root: Node): Node {
    NewNode(Root).(children := if root.kind == Root then StoredAll(root.children) else Stored(root))
  }

  /** The nodes that survive a file as they are. */
  predicate Storable(node: Node)
    decreases node, 1
  {
    match node.kind
    case Folder => node.url == "" && node.desc == "" && AllStorable(node.children)
    case Bookmark => node.title != "" && node.desc == "" && !node.expanded && node.children == []
    case Separator => node == NewNode(Separator)
    case Root => false
  }

  predicate AllStorable(nodes: seq<Node>)
    decreases nodes, 0
  {
    nodes == [] || (Storable(nodes[0]) && AllStorable(nodes[1..]))
  }

  predicate StorableTree(root: Node) {
    root == NewNode(Root).(children := root.children) && AllStorable(root.children)
  }

  lemma {:induction false} ProperConcat(a: seq<Item>, b: seq<Item>)
    ensures AllProper(a + b) <==> AllProper(a) && AllProper(b)
  {
    hide Proper;
    if a == [] {
      assert a + b == b;
    } else {
      ProperConcat(a[1..], b);
      assert (a + b)[1..] == a[1..] + b;
    }
  }

  lemma {:induction false} WithConcat(parent: Node, a: seq<Item>, b: seq<Item>)
    ensures WithAll(parent, a + b) == WithAll(WithAll(parent, a), b)
    decreases a
  {
    hide With;
    if a == [] {
      assert a + b == b;
    } else {
      WithConcat(With(parent, a[0]), a[1..], b);
      assert (a + b)[1..] == a[1..] + b;
    }
  }

  lemma WithOne(parent: Node, item: Item)
    ensures WithAll(parent, [item]) == With(parent, item)
    ensures AllProper([item]) <==> Proper(item)
  {
    hide With, Proper;
    assert [item][1..] == [];
    assert WithAll(With(parent, item), []) == With(parent, item);
    assert AllProper([]);
  }

  lemma TextOfItems(text: string)
    ensures TextOf(TextItems(text)) == text && OnlyText(TextItems(text))
  {
    if text != "" {
      assert [Text(text)][1..] == [];
      assert text + TextOf([]) == text;
    }
  }

  lemma {:induction false} MarkWithText(mark: Node, text: string)
    ensures MarkWithAll(mark, TextItems(text)) == mark
  {
    if text != "" {
      assert [Text(text)][1..] == [];
    }
  }

  /** The content written for a bookmark gives its title and nothing else. */
  lemma MarkOfWritten(mark: Node, title: string, text: string)
    ensures MarkWithAll(mark, [TitleItem(title)] + TextItems(text)) == mark.(title := title)
    ensures AllProper([TitleItem(title)] + TextItems(text))
  {
    hide TextItems;
    TextOfItems(title);
    TextOfItems(text);
    MarkWithText(mark.(title := title), text);
    assert ([TitleItem(title)] + TextItems(text))[1..] == TextItems(text);
    TextIsProper(TextItems(text));
  }

  lemma {:induction false} TextIsProper(items: seq<Item>)
    requires OnlyText(items)
    ensures AllProper(items)
  {
    if items != [] {
      TextIsProper(items[1..]);
    }
  }

  /** What was written for a node means what is stored of it. */
  lemma {:induction false} WrittenMeansStored(parent: Node, node: Node)
    ensures WithAll(parent, Written(node)) == parent.(children := parent.children + Stored(node))
    ensures AllProper(Written(node))
    decreases node, 1
  {
    match node.kind {
      case Folder =>
        var item := Written(node)[0];
        var folder := NewFolder(item.attrs);
        hide WithAll, AllProper, WrittenAll, StoredAll, TextItems;
        WithOne(parent, item);
        TextOfItems(node.title);
        WithOne(folder, TitleItem(node.title));
        WithConcat(folder, [TitleItem(node.title)], WrittenAll(node.children));
        ProperConcat([TitleItem(node.title)], WrittenAll(node.children));
        WrittenAllMeansStored(folder.(title := node.title), node.children);
        assert [] + StoredAll(node.children) == StoredAll(node.children);
      case Bookmark =>
        var item := Written(node)[0];
        hide WithAll, AllProper, TextItems, MarkWithAll, LateAttribute;
        WithOne(parent, item);
        MarkOfWritten(NewBookmark(item.attrs), node.title, if node.desc == "" then "" else LateAttribute(node.desc));
      case Separator =>
        hide WithAll, AllProper;
        WithOne(parent, Written(node)[0]);
      case Root =>
        assert parent.children + [] == parent.children;
    }
  }

  lemma {:induction false} WrittenAllMeansStored(parent: Node, nodes: seq<Node>)
    ensures WithAll(parent, WrittenAll(nodes)) == parent.(children := parent.children + StoredAll(nodes))
    ensures AllProper(WrittenAll(nodes))
    decreases nodes, 0
  {
    hide Written, Stored;
    if nodes == [] {
      assert parent.children + [] == parent.children;
    } else {
      WrittenMeansStored(parent, nodes[0]);
      ProperConcat(Written(nodes[0]), WrittenAll(nodes[1..]));
      WithConcat(parent, Written(nodes[0]), WrittenAll(nodes[1..]));
      WrittenAllMeansStored(parent.(children := parent.children + Stored(nodes[0])), nodes[1..]);
      assert parent.children + Stored(nodes[0]) + StoredAll(nodes[1..]) ==
             parent.children + (Stored(nodes[0]) + StoredAll(nodes[1..]));
    }
  }

  /** Reading back what was written, however white space and comments are laid out in it: the stored
      form of the tree. */
  lemma ReadOfWritten(root: Node, laidOut: seq<Item>)
    requires AllProper(laidOut) && Strip(laidOut) == Strip(WrittenTree(root))
    ensures Read(Document("1.0", laidOut)) == StoredTree(root)
  {
    hide Read, Document, WithAll, AllProper, Strip, Written, WrittenAll, Stored, StoredAll;
    var empty := NewNode(Root);
    if root.kind == Root {
      WrittenAllMeansStored(empty, root.children);
      assert [] + StoredAll(root.children) == StoredAll(root.children);
    } else {
      WrittenMeansStored(empty, root);
      assert [] + Stored(root) == Stored(root);
    }
    NoiseIsIgnored("1.0", laidOut, WrittenTree(root));
    ReadOfDocument("1.0", WrittenTree(root));
  }

  lemma {:induction false} StoredIsSame(node: Node)
    ensures Stored(node) == [node] <==> Storable(node)
    ensures |Stored(node)| <= 1 && (forall n :: n in Stored(node) ==> Storable(n))
    decreases node, 1
  {
    hide StoredAll, AllStorable;
    if node.kind == Folder {
      StoredAllIsSame(node.children);
    }
  }

  lemma {:induction false} StoredAllIsSame(nodes: seq<Node>)
    ensures StoredAll(nodes) == nodes <==> AllStorable(nodes)
    ensures |StoredAll(nodes)| <= |nodes| && AllStorable(StoredAll(nodes))
    decreases nodes, 0
  {
    hide Stored, Storable;
    if nodes != [] {
      StoredIsSame(nodes[0]);
      StoredAllIsSame(nodes[1..]);
      var first, others := Stored(nodes[0]), StoredAll(nodes[1..]);
      assert nodes == [nodes[0]] + nodes[1..];
      if first == [] {
        assert first + others == others;
      } else {
        assert first == [first[0]] && first[0] in first;
        assert (first + others)[1..] == others && (first + others)[0] == first[0];
      }
    }
  }

  /** What comes back of a node, field by field. */
  ghost predicate ComesBack(node: Node, back: Node)
    decreases node, 1
  {
    && back.kind == node.kind && back.desc == ""
    && back.title == (if node.kind == Separator then "" else if node.kind == Bookmark && node.title == ""
                      then "Unknown title" else node.title)
    && back.url == (if node.kind == Bookmark then node.url else "")
    && back.expanded == (node.kind == Folder && node.expanded)
    && (if node.kind == Folder then AllComeBack(node.children, back.children) else back.children == [])
  }

  /** One for every node that is not of type root, in order. */
  ghost predicate AllComeBack(nodes: seq<Node>, backs: seq<Node>)
    decreases nodes, 0
  {
    if nodes == [] then backs == []
    else if nodes[0].kind == Root then AllComeBack(nodes[1..], backs)
    else backs != [] && ComesBack(nodes[0], backs[0]) && AllComeBack(nodes[1..], backs[1..])
  }

  lemma {:induction false} StoredComesBack(node: Node)
    ensures node.kind == Root ==> Stored(node) == []
    ensures node.kind != Root ==> |Stored(node)| == 1 && ComesBack(node, Stored(node)[0])
    decreases node, 1
  {
    hide StoredAll, AllComeBack;
    if node.kind == Folder {
      StoredAllComeBack(node.children);
    }
  }

  lemma {:induction false} StoredAllComeBack(nodes: seq<Node>)
    ensures AllComeBack(nodes, StoredAll(nodes))
    decreases nodes, 0
  {
    hide Stored, ComesBack;
    if nodes != [] {
      StoredComesBack(nodes[0]);
      StoredAllComeBack(nodes[1..]);
      var first, others := Stored(nodes[0]), StoredAll(nodes[1..]);
      if nodes[0].kind == Root {
        assert first + others == others;
      } else {
        assert (first + others)[1..] == others && (first + others)[0] == first[0];
      }
    }
  }

  /** The tree that comes back has a plain root, and below it what comes back of each node. */
  lemma TreeComesBack(root: Node)
    ensures var back := StoredTree(root);
            && back == Node(Root, "", "", "", false, back.children)
            && AllComeBack(if root.kind == Root then root.children else [root], back.children)
  {
    hide Stored, StoredAll, ComesBack;
    StoredAllComeBack(root.children);
    StoredComesBack(root);
    if root.kind != Root {
      assert [root][1..] == [] && Stored(root)[1..] == [];
      assert AllComeBack([], []);
    }
  }

  /** The tree read back equals the tree written exactly when it has a plain root, no descriptions, a
      title for every bookmark, and only fields that fit a node's type. */
  lemma RoundTrip(root: Node, laidOut: seq<Item>)
    requires AllProper(laidOut) && Strip(laidOut) == Strip(WrittenTree(root))
    ensures Read(Document("1.0", laidOut)) == root <==> StorableTree(root)
  {
    hide Read, Document, AllProper, Strip, WrittenTree, Stored, StoredAll, AllStorable;
    ReadOfWritten(root, laidOut);
    StoredAllIsSame(root.children);
  }

  /** What was read from a written file is written and read back unchanged. */
  lemma StoredIsStable(root: Node)
    ensures StorableTree(StoredTree(root))
  {
    hide Stored, StoredAll, AllStorable;
    StoredAllIsSame(root.children);
    if root.kind != Root {
      StoredIsSame(root);
      AllOne(Stored(root));
    }
  }

  lemma AllOne(nodes: seq<Node>)
    requires |nodes| <= 1 && forall n :: n in nodes ==> Storable(n)
    ensures AllStorable(nodes)
  {
    hide Storable;
    if nodes != [] {
      assert nodes[0] in nodes && AllStorable([]);
      assert nodes[1..] == [];
    }
  }

  // ---- The reader and the writer as programs -----------------------------------------------------

  /** What the loops over the children of an element do next. */
  lemma NextStart(node: Node, ts: seq<Token>)
    ensures var t := DropOther(ts);
            if t == [] then ReadContent(node, ts) == (node, []) && ReadMark(node, ts) == (Named(node), [])
            else if t[0].Start? then
              ReadContent(node, ts) == ReadContent(node, t) && ReadMark(node, ts) == ReadMark(node, t)
            else t[0].End? && ReadContent(node, ts) == (node, t[1..]) && ReadMark(node, ts) == (Named(node), t[1..])
  {
    if !(ts == [] || ts[0].Start? || ts[0].End?) {
      NextStart(node, ts[1..]);
    }
  }

  class XbelReader {
    /** The tokens not read yet; none are left after an error. */
    var rest: seq<Token>
    /** The current token, `Other` when there is none. */
    var current: Token

    constructor (tokens: seq<Token>)
      ensures rest == tokens && current == Other
    {
      rest := tokens;
      current := Other;
    }

    method ReadNext() returns (valid: bool)
      modifies this
      ensures valid == (old(rest) != [])
      ensures if valid then [current] + rest == old(rest) else rest == [] && current == Other
    {
      valid := rest != [];
      if valid {
        current, rest := rest[0], rest[1..];
      } else {
        current := Other;
      }
    }

    method RaiseError()
      modifies this
      ensures rest == [] && current == Other
    {
      rest, current := [], Other;
    }

    method ReadNextStartElement() returns (found: bool)
      modifies this
      ensures var ts := DropOther(old(rest));
              if ts == [] then !found && rest == [] && !current.Start?
              else current == ts[0] && rest == ts[1..] && found == ts[0].Start?
    {
      found := false;
      var valid := ReadNext();
      while valid && !current.End? && !current.Start?
        invariant valid ==> DropOther(old(rest)) == DropOther([current] + rest)
        invariant !valid ==> DropOther(old(rest)) == [] && rest == [] && current == Other
        decreases valid, |rest|
      {
        assert ([current] + rest)[1..] == rest;
        valid := ReadNext();
      }
      assert ([current] + rest)[1..] == rest;
      found := valid && current.Start?;
    }

    method SkipCurrentElement()
      modifies this
      ensures rest == Skip(old(rest), 1)
    {
      var depth, valid := 1, true;
      while depth > 0 && valid
        invariant valid ==> Skip(old(rest), 1) == Skip(rest, depth)
        invariant !valid ==> Skip(old(rest), 1) == [] && rest == []
        decreases valid, |rest|
      {
        ghost var before := rest;
        valid := ReadNext();
        if valid {
          assert before[0] == current && before[1..] == rest;
          if current.End? {
            depth := depth - 1;
          } else if current.Start? {
            depth := depth + 1;
          }
        }
      }
    }

    method ReadElementText() returns (text: string)
      modifies this
      ensures (text, rest) == ElementText(old(rest))
    {
      text := "";
      ghost var goal := ElementText(rest);
      assert "" + goal.0 == goal.0;
      var going := true;
      while going
        invariant going ==> goal == (text + ElementText(rest).0, ElementText(rest).1)
        invariant !going ==> goal == (text, rest)
        decreases going, |rest|
      {
        ghost var before := rest;
        assert text + "" == text;
        going := ReadNext();
        if going {
          assert before[0] == current && before[1..] == rest;
          match current {
            case Characters(more) =>
              assert text + (more + ElementText(rest).0) == text + more + ElementText(rest).0;
              text := text + more;
            case Other =>
            case End => going := false;
            case Start(_, _) => RaiseError(); going := false;
          }
        }
      }
    }

    method ReadBookmarkNode() returns (bookmark: Node)
      requires current.Start?
      modifies this
      ensures (bookmark, rest) == ReadMark(NewBookmark(old(current.attrs)), old(rest))
    {
      bookmark := NewNode(Bookmark);
      bookmark := bookmark.(url := current.attrs.href);
      ghost var goal := ReadMark(bookmark, rest);
      hide ElementText, Skip, DropOther, ReadMark;
      NextStart(bookmark, rest);
      ghost var ts := DropOther(rest);
      var found := ReadNextStartElement();
      assert found ==> ts == [current] + rest;
      while found
        invariant found ==> current.Start? && goal == ReadMark(bookmark, [current] + rest)
        invariant !found ==> goal == (Named(bookmark), rest)
        decreases found, |rest|
      {
        bookmark := ReadPart(bookmark);
        NextStart(bookmark, rest);
        ts := DropOther(rest);
        found := ReadNextStartElement();
        assert found ==> ts == [current] + rest;
      }
      if bookmark.title == "" {
        bookmark := bookmark.(title := UNKNOWN_TITLE);
      }
    }

    /** The branches in that loop. */
    method ReadPart(bookmark: Node) returns (mark: Node)
      requires current.Start?
      modifies this
      ensures ReadMark(mark, rest) == ReadMark(bookmark, [old(current)] + old(rest)) && |rest| <= |old(rest)|
      ensures mark == bookmark.(title := mark.title, desc := mark.desc)
      ensures mark.title == if old(current.tag) == TitleTag then ElementText(old(rest)).0 else bookmark.title
      ensures mark.desc == if old(current.tag) == DescTag then ElementText(old(rest)).0 else bookmark.desc
    {
      mark := bookmark;
      assert ([current] + rest)[1..] == rest;
      hide ElementText, Skip;
      if current.tag == TitleTag {
        var text := ReadElementText();
        mark := mark.(title := text);
      } else if current.tag == DescTag {
        var text := ReadElementText();
        mark := mark.(desc := text);
      } else {
        SkipCurrentElement();
      }
    }

    method ReadSeparator(parent: Node) returns (node: Node)
      modifies this
      ensures node == WithChild(parent, NewNode(Separator))
      ensures rest == if old(rest) == [] then [] else old(rest)[1..]
    {
      node := parent.(children := parent.children + [NewNode(Separator)]);
      var _ := ReadNext();
    }

    method ReadFolder() returns (folder: Node)
      requires current.Start?
      modifies this
      ensures (folder, rest) == ReadContent(NewFolder(old(current.attrs)), old(rest))
      decreases |rest|, 0
    {
      folder := NewNode(Folder);
      folder := folder.(expanded := current.attrs.folded == "no");
      ghost var goal := ReadContent(folder, rest);
      hide ElementText, Skip, DropOther, ReadMark, WithChild, NewFolder;
      NextStart(folder, rest);
      ghost var ts := DropOther(rest);
      var found := ReadNextStartElement();
      assert found ==> ts == [current] + rest;
      while found
        invariant |rest| <= |old(rest)| && folder.kind == Folder
        invariant found ==> |rest| < |old(rest)|
        invariant found ==> current.Start? && goal == ReadContent(folder, [current] + rest)
        invariant !found ==> goal == (folder, rest)
        decreases found, |rest|
      {
        assert ([current] + rest)[1..] == rest;
        folder := ReadChild(folder);
        NextStart(folder, rest);
        ts := DropOther(rest);
        found := ReadNextStartElement();
        assert found ==> ts == [current] + rest;
      }
    }

    /** The branches in the loop of a folder. */
    method ReadChild(folder: Node) returns (node: Node)
      requires current.Start? && folder.kind == Folder
      modifies this
      ensures ReadContent(node, rest) == ReadContent(folder, [old(current)] + old(rest))
      ensures |rest| <= |old(rest)| && node.kind == Folder
      ensures node == folder.(title := node.title, desc := node.desc, children := node.children)
      ensures node.title == if old(current.tag) == TitleTag then ElementText(old(rest)).0 else folder.title
      ensures node.desc == if old(current.tag) == DescTag then ElementText(old(rest)).0 else folder.desc
      ensures folder.children <= node.children
      ensures |node.children| == |folder.children| +
                if old(current.tag) in {FolderTag, BookmarkTag, SeparatorTag} then 1 else 0
      decreases |rest|, 1
    {
      node := folder;
      assert ([current] + rest)[1..] == rest;
      assert |rest| > 0 ==> ([current] + rest)[2..] == rest[1..];
      hide ElementText, Skip, ReadMark;
      if current.tag == TitleTag {
        var text := ReadElementText();
        node := node.(title := text);
      } else if current.tag == DescTag {
        var text := ReadElementText();
        node := node.(desc := text);
      } else if current.tag == FolderTag {
        var child := ReadFolder();
        node := WithChild(node, child);
      } else if current.tag == BookmarkTag {
        var child := ReadBookmarkNode();
        node := WithChild(node, child);
      } else if current.tag == SeparatorTag {
        node := ReadSeparator(node);
      } else {
        SkipCurrentElement();
      }
    }

    method ReadXbel() returns (root: Node)
      modifies this
      ensures (root, rest) == ReadContent(NewNode(Root), old(rest))
    {
      root := NewNode(Root);
      ghost var goal := ReadContent(root, rest);
      hide ElementText, Skip, DropOther, ReadMark, WithChild, NewFolder;
      NextStart(root, rest);
      ghost var ts := DropOther(rest);
      var found := ReadNextStartElement();
      assert found ==> ts == [current] + rest;
      while found
        invariant root.kind == Root
        invariant found ==> current.Start? && goal == ReadContent(root, [current] + rest)
        invariant !found ==> goal == (root, rest)
        decreases found, |rest|
      {
        assert ([current] + rest)[1..] == rest;
        root := ReadTopLevel(root);
        NextStart(root, rest);
        ts := DropOther(rest);
        found := ReadNextStartElement();
        assert found ==> ts == [current] + rest;
      }
    }

    /** The branches in the loop of the whole document. */
    method ReadTopLevel(root: Node) returns (node: Node)
      requires current.Start? && root.kind == Root
      modifies this
      ensures ReadContent(node, rest) == ReadContent(root, [old(current)] + old(rest))
      ensures |rest| <= |old(rest)| && node.kind == Root
    {
      node := root;
      assert ([current] + rest)[1..] == rest;
      assert |rest| > 0 ==> ([current] + rest)[2..] == rest[1..];
      hide ElementText, Skip, ReadMark;
      if current.tag == FolderTag {
        var child := ReadFolder();
        node := WithChild(node, child);
      } else if current.tag == BookmarkTag {
        var child := ReadBookmarkNode();
        node := WithChild(node, child);
      } else if current.tag == SeparatorTag {
        node := ReadSeparator(node);
      } else {
        SkipCurrentElement();
      }
    }

    /** Reading a file. */
    method ReadDocument() returns (root: Node)
      modifies this
      ensures root == Read(old(rest))
    {
      root := NewNode(Root);
      hide ReadContent, DropOther;
      var found := ReadNextStartElement();
      if found {
        var version := current.attrs.version;
        if current.tag == XbelTag && (version == "" || version == "1.0") {
          root := ReadXbel();
        } else {
          RaiseError();
        }
      }
    }
  }

  class XbelWriter {
    var out: seq<Token>
    /** Whether the start of the last element is still open for attributes. */
    var inStartElement: bool

    ghost predicate Valid()
      reads this
    {
      inStartElement ==> out != [] && out[|out| - 1].Start?
    }

    constructor ()
      ensures Valid() && out == [] && !inStartElement
    {
      out, inStartElement := [], false;
    }

    method WriteStartElement(tag: Tag)
      modifies this
      ensures Valid() && inStartElement && out == old(out) + [Start(tag, NO_ATTRIBUTES)]
    {
      out, inStartElement := out + [Start(tag, NO_ATTRIBUTES)], true;
    }

    method WriteEndElement()
      modifies this
      ensures Valid() && !inStartElement && out == old(out) + [End]
    {
      out, inStartElement := out + [End], false;
    }

    /** An element that holds one text; an empty text leaves no token. */
    method WriteTextElement(tag: Tag, text: string)
      modifies this
      ensures Valid() && !inStartElement
      ensures out == old(out) + Tokens(Element(tag, NO_ATTRIBUTES, TextItems(text)))
    {
      WriteStartElement(tag);
      if text != "" {
        out := out + [Characters(text)];
        OneText(text);
      }
      WriteEndElement();
    }

    /** The attributes of the element whose start is open. */
    method WriteAttributes(attrs: Attributes)
      requires Valid() && inStartElement
      modifies this
      ensures Valid() && inStartElement
      ensures out == old(out)[..|old(out)| - 1] + [Start(old(out)[|old(out)| - 1].tag, attrs)]
    {
      var n := |out| - 1;
      out := out[..n] + [Start(out[n].tag, attrs)];
    }

    /** An attribute written when no start is open. */
    method WriteLateAttribute(desc: string)
      requires Valid() && !inStartElement
      modifies this
      ensures Valid() && !inStartElement && out == old(out) + [Characters(LateAttribute(desc))]
    {
      out := out + [Characters(LateAttribute(desc))];
    }

    method WriteItem(parent: Node)
      requires Valid()
      modifies this
      ensures Valid() && out == old(out) + AllTokens(Written(parent))
      ensures parent.kind != Root ==> !inStartElement
      decreases parent, 1
    {
      OneItem(parent);
      match parent.kind {
        case Folder => WriteFolder(parent);
        case Bookmark => WriteBookmark(parent);
        case Separator =>
          WriteStartElement(SeparatorTag);
          WriteEndElement();
        case Root =>
      }
    }

    method WriteFolder(parent: Node)
      requires Valid() && parent.kind == Folder
      modifies this
      ensures Valid() && !inStartElement && out == old(out) + Tokens(Written(parent)[0])
      decreases parent, 0
    {
      hide Tokens, AllTokens, WrittenAll;
      WriteStartElement(FolderTag);
      WriteAttributes(Attributes("", if parent.expanded then "no" else "yes", ""));
      WriteTextElement(TitleTag, parent.title);
      ghost var start := out;
      for i := 0 to |parent.children|
        invariant Valid() && (i == 0 ==> !inStartElement)
        invariant out + AllTokens(WrittenAll(parent.children[i..])) == start + AllTokens(WrittenAll(parent.children))
      {
        ghost var before := out;
        WriteItem(parent.children[i]);
        WrittenStep(parent.children, i);
        ghost var a, b := AllTokens(Written(parent.children[i])), AllTokens(WrittenAll(parent.children[i + 1..]));
        assert before + (a + b) == before + a + b;
      }
      NothingWritten();
      assert parent.children[|parent.children|..] == [];
      assert out + [] == out;
      WriteEndElement();
      FolderTokens(parent, old(out));
    }

    method WriteBookmark(parent: Node)
      requires Valid() && parent.kind == Bookmark
      modifies this
      ensures Valid() && !inStartElement && out == old(out) + Tokens(Written(parent)[0])
    {
      hide Tokens, AllTokens;
      WriteStartElement(BookmarkTag);
      if parent.url != "" {
        WriteAttributes(Attributes("", "", parent.url));
      }
      WriteTextElement(TitleTag, parent.title);
      if parent.desc != "" {
        WriteLateAttribute(parent.desc);
      }
      WriteEndElement();
      BookmarkTokens(parent, old(out));
    }

    /** Writing a tree to a file. */
    method Write(root: Node)
      requires out == [] && !inStartElement
      modifies this
      ensures out == Document("1.0", WrittenTree(root))
    {
      hide AllTokens, Written, WrittenAll;
      out := [Other, Other];
      WriteStartElement(XbelTag);
      WriteAttributes(Attributes("1.0", "", ""));
      ghost var start := out;
      if root.kind == Root {
        for i := 0 to |root.children|
          invariant Valid()
          invariant out + AllTokens(WrittenAll(root.children[i..])) == start + AllTokens(WrittenAll(root.children))
        {
          ghost var before := out;
          WriteItem(root.children[i]);
          WrittenStep(root.children, i);
          ghost var a, b := AllTokens(Written(root.children[i])), AllTokens(WrittenAll(root.children[i + 1..]));
          assert before + (a + b) == before + a + b;
        }
        NothingWritten();
        assert root.children[|root.children|..] == [];
        assert out + [] == out;
      } else {
        WriteItem(root);
      }
      ghost var items := AllTokens(WrittenTree(root));
      assert out == start + items;
      WriteEndElement();
      out := out + [Other];
      assert start + items + [End] + [Other] == start + (items + ([End] + [Other]));
    }
  }

  lemma NothingWritten()
    ensures AllTokens(WrittenAll([])) == []
  {
  }

  lemma {:induction false} AllTokensConcat(a: seq<Item>, b: seq<Item>)
    ensures AllTokens(a + b) == AllTokens(a) + AllTokens(b)
  {
    NoTokens();
    hide AllTokens, Tokens;
    if a == [] {
      assert a + b == b && [] + AllTokens(b) == AllTokens(b);
    } else {
      var first, others := a[0], a[1..];
      assert a == [first] + others && a + b == [first] + (others + b);
      AllTokensConcat(others, b);
      AllTokensCons(first, others);
      AllTokensCons(first, others + b);
      var x, y, z := Tokens(first), AllTokens(others), AllTokens(b);
      assert x + (y + z) == x + y + z;
    }
  }

  lemma AllTokensCons(item: Item, items: seq<Item>)
    ensures AllTokens([item] + items) == Tokens(item) + AllTokens(items)
  {
    assert ([item] + items)[1..] == items;
  }

  lemma WrittenStep(nodes: seq<Node>, i: nat)
    requires i < |nodes|
    ensures AllTokens(WrittenAll(nodes[i..])) == AllTokens(Written(nodes[i])) + AllTokens(WrittenAll(nodes[i + 1..]))
  {
    hide AllTokens, Written;
    assert nodes[i..][1..] == nodes[i + 1..];
    AllTokensConcat(Written(nodes[i]), WrittenAll(nodes[i + 1..]));
  }

  lemma OneItem(node: Node)
    ensures node.kind != Root ==> AllTokens(Written(node)) == Tokens(Written(node)[0])
    ensures node.kind == Separator ==> AllTokens(Written(node)) == [Start(SeparatorTag, NO_ATTRIBUTES), End]
    ensures node.kind == Root ==> AllTokens(Written(node)) == []
  {
    hide WrittenAll;
    if node.kind != Root {
      assert Written(node)[1..] == [];
      assert AllTokens([]) == [];
      assert Tokens(Written(node)[0]) + [] == Tokens(Written(node)[0]);
    }
  }

  lemma FolderTokens(node: Node, before: seq<Token>)
    requires node.kind == Folder
    ensures before + Tokens(Written(node)[0]) ==
            before + [Start(FolderTag, Attributes("", if node.expanded then "no" else "yes", ""))]
            + Tokens(TitleItem(node.title)) + AllTokens(WrittenAll(node.children)) + [End]
  {
    hide AllTokens, WrittenAll, TitleItem;
    AllTokensCons(TitleItem(node.title), WrittenAll(node.children));
    var title, children := Tokens(TitleItem(node.title)), AllTokens(WrittenAll(node.children));
    var first := [Start(FolderTag, Attributes("", if node.expanded then "no" else "yes", ""))];
    assert before + (first + (title + children) + [End]) == before + first + title + children + [End];
  }

  lemma BookmarkTokens(node: Node, before: seq<Token>)
    requires node.kind == Bookmark
    ensures before + Tokens(Written(node)[0]) ==
            before + [Start(BookmarkTag, Attributes("", "", node.url))] + Tokens(TitleItem(node.title))
            + (if node.desc == "" then [] else [Characters(LateAttribute(node.desc))]) + [End]
  {
    hide AllTokens, TitleItem, LateAttribute;
    var text := if node.desc == "" then "" else LateAttribute(node.desc);
    AllTokensCons(TitleItem(node.title), TextItems(text));
    LateAttributeNotEmpty(node.desc);
    OneText(text);
    NoTokens();
    var title, late := Tokens(TitleItem(node.title)), AllTokens(TextItems(text));
    assert before + ([Start(BookmarkTag, Attributes("", "", node.url))] + (title + late) + [End]) ==
           before + [Start(BookmarkTag, Attributes("", "", node.url))] + title + late + [End];
  }

  lemma LateAttributeNotEmpty(desc: string)
    ensures LateAttribute(desc) != ""
  {
  }

  lemma WrittenIsProper(root: Node)
    ensures AllProper(WrittenTree(root))
  {
    hide AllProper, Written, WrittenAll, WithAll, Stored, StoredAll;
    WrittenMeansStored(NewNode(Root), root);
    WrittenAllMeansStored(NewNode(Root), root.children);
  }

  /** A tree written to a file and read back. */
  /** An imported file. */
  method ReadFile(version: string, items: seq<Item>) returns (root: Node)
    requires AllProper(items)
    ensures root == Node(Root, "", "", "", false, root.children)
    ensures if version == "" || version == "1.0" then StandForAll(items, root.children) else root.children == []
  {
    hide Read, Document, AllProper, StandForAll;
    var reader := new XbelReader(Document(version, items));
    root := reader.ReadDocument();
    DocumentStands(version, items);
  }

  method SaveAndLoad(root: Node) returns (loaded: Node)
    ensures loaded == StoredTree(root)
    ensures loaded == root <==> StorableTree(root)
    ensures loaded == Node(Root, "", "", "", false, loaded.children)
    ensures AllComeBack(if root.kind == Root then root.children else [root], loaded.children)
  {
    hide AllComeBack, Read, Document, AllProper, Strip, WrittenTree, StoredTree, StorableTree;
    var writer := new XbelWriter();
    writer.Write(root);
    var reader := new XbelReader(writer.out);
    loaded := reader.ReadDocument();
    WrittenIsProper(root);
    ReadOfWritten(root, WrittenTree(root));
    RoundTrip(root, WrittenTree(root));
    TreeComesBack(root);
  }
}
