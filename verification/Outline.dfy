/**
 What the printed texts say, byte by byte: reading the full listing back gives names and depths, and
 every match of a search has its line in the text that is left.
 */
module Outline {
  import opened Bytes
  import opened Layout
  import opened Matching
  import opened Trees

  // ----- reading a text -----

  /** One printed line: three leading blanks for each level, and what comes after them. */
  datatype Row = Row(depth: nat, caption: seq<byte>)

  /** The number of blanks that a line starts with. */
  function Indent(line: seq<byte>): (n: nat)
    ensures n <= |line|
  {
    if line == [] || line[0] != 32 then 0 else 1 + Indent(line[1..])
  }

  /** The first line, without its newline. */
  function FirstLine(s: seq<byte>): (line: seq<byte>)
    ensures |line| <= |s|
  {
    if s == [] || s[0] == 10 then [] else [s[0]] + FirstLine(s[1..])
  }

  /** A text as its lines; bytes behind the last newline are no line. */
  function ReadText(s: seq<byte>): seq<Row>
    decreases |s|
  {
    var line := FirstLine(s);
    if |line| == |s| then []
    else [Row(Indent(line) / 3, line[Indent(line)..])] + ReadText(s[|line| + 1..])
  }

  // ----- rows and their text -----

  function Line(row: Row): seq<byte> { Blanks(3 * row.depth) + row.caption + [NEWLINE] }

  function Rendered(rows: seq<Row>): seq<byte>
  {
    if rows == [] then [] else Line(rows[0]) + Rendered(rows[1..])
  }

  /** Labels that a reader can tell from indentation and line ends. */
  predicate Tidy(caption: seq<byte>) { NEWLINE !in caption && (caption != [] ==> caption[0] != SPACE) }

  lemma {:induction false} RenderedJoin(a: seq<Row>, b: seq<Row>)
    ensures Rendered(a + b) == Rendered(a) + Rendered(b)
  {
    hide Line;
    if a == [] {
      assert a + b == b;
    } else {
      RenderedJoin(a[1..], b);
      assert (a + b)[1..] == a[1..] + b && (a + b)[0] == a[0];
    }
  }

  lemma {:induction false} IndentOfBlanks(n: nat, caption: seq<byte>)
    requires Tidy(caption)
    ensures Indent(Blanks(n) + caption) == n && (Blanks(n) + caption)[n..] == caption
  {
    if n > 0 {
      IndentOfBlanks(n - 1, caption);
      assert (Blanks(n) + caption)[1..] == Blanks(n - 1) + caption;
    } else {
      assert Blanks(0) + caption == caption;
    }
  }

  lemma {:induction false} FirstLineIs(line: seq<byte>, rest: seq<byte>)
    requires NEWLINE !in line
    ensures FirstLine(line + [NEWLINE] + rest) == line
  {
    var s := line + [NEWLINE] + rest;
    if line != [] {
      assert s[0] == line[0] && line[0] in line;
      assert s[1..] == line[1..] + [NEWLINE] + rest;
      FirstLineIs(line[1..], rest);
    }
  }

  /** Reading gives back what was rendered. */
  lemma {:induction false} ReadRendered(rows: seq<Row>)
    requires forall i :: 0 <= i < |rows| ==> Tidy(rows[i].caption)
    ensures ReadText(Rendered(rows)) == rows
  {
    hide Blanks, Indent, FirstLine, Tidy;
    if rows != [] {
      var line, rest := Blanks(3 * rows[0].depth) + rows[0].caption, Rendered(rows[1..]);
      assert Rendered(rows) == line + [NEWLINE] + rest;
      TidyLine(rows[0]);
      FirstLineIs(line, rest);
      IndentOfBlanks(3 * rows[0].depth, rows[0].caption);
      assert (line + [NEWLINE] + rest)[|line| + 1..] == rest;
      ReadRendered(rows[1..]);
      assert rows == [rows[0]] + rows[1..];
    }
  }

  lemma TidyLine(row: Row)
    requires Tidy(row.caption)
    ensures NEWLINE !in Blanks(3 * row.depth) + row.caption
  {
    var b := Blanks(3 * row.depth);
    assert forall i :: 0 <= i < |b| ==> b[i] == SPACE;
    hide Blanks;
  }

  // ----- the outline of a tree -----

  /** The full listing, or what a search for a name leaves. */
  datatype View = FullListing | NameSearch(target: seq<byte>)

  /**
   What a line says of a node: a directory has a slash, a file its extension, which the full listing
   leaves out unless it comes after "dir".
   */
  function Caption(view: View, node: Node): seq<byte>
  {
    match node
    case DirNode(name, _) => CStr(name) + [47]
    case FileNode(name, ext, _) => CStr(name) + if view.NameSearch? || AboveDir(ext) then [46] + ext else []
  }

  /** Depths and captions in pre-order. */
  function Rows(view: View, level: nat, nodes: seq<Node>): seq<Row>
    decreases nodes, 0
  {
    if nodes == [] then []
    else Rows(view, level, nodes[..|nodes| - 1]) + NodeRows(view, level, nodes[|nodes| - 1])
  }

  function NodeRows(view: View, level: nat, node: Node): seq<Row>
    decreases node, 1
  {
    [Row(level, Caption(view, node))] + if node.DirNode? then Rows(view, level + 1, node.kids) else []
  }

  /** Names that end within their field, and captions that can be told apart from the rest of a line. */
  predicate Readable(view: View, nodes: seq<Node>)
    decreases nodes
  {
    forall i :: 0 <= i < |nodes| ==>
      NUL in nodes[i].name && Tidy(Caption(view, nodes[i])) &&
      (nodes[i].DirNode? ==> Readable(view, nodes[i].kids))
  }

  /** The text of a tree in one of the two views. */
  function ViewText(view: View, level: nat, nodes: seq<Node>): seq<byte>
  {
    match view
    case FullListing => Listing(level, nodes)
    case NameSearch(target) => PreOrder(NameQuery(target), level, nodes)
  }

  function NodeViewText(view: View, level: nat, node: Node): seq<byte>
  {
    match view
    case FullListing => ListNode(level, node)
    case NameSearch(target) => PreOrderNode(NameQuery(target), level, node)
  }

  lemma ViewUnfold(view: View, level: nat, nodes: seq<Node>)
    ensures nodes == [] ==> ViewText(view, level, nodes) == []
    ensures nodes != [] ==>
              ViewText(view, level, nodes) ==
              ViewText(view, level, nodes[..|nodes| - 1]) + NodeViewText(view, level, nodes[|nodes| - 1])
  {
    hide ListNode, PreOrderNode;
  }

  lemma {:induction false} ViewIsRendered(view: View, level: nat, nodes: seq<Node>)
    requires Readable(view, nodes)
    ensures ViewText(view, level, nodes) == Rendered(Rows(view, level, nodes))
    ensures forall i :: 0 <= i < |Rows(view, level, nodes)| ==> Tidy(Rows(view, level, nodes)[i].caption)
    decreases nodes, 0
  {
    hide ViewText, NodeViewText, Tidy, Caption, NodeRows;
    ViewUnfold(view, level, nodes);
    if nodes != [] {
      var before, last := nodes[..|nodes| - 1], nodes[|nodes| - 1];
      assert forall i :: 0 <= i < |before| ==> before[i] == nodes[i];
      ViewIsRendered(view, level, before);
      NodeIsRendered(view, level, last);
      RenderedJoin(Rows(view, level, before), NodeRows(view, level, last));
    }
  }

  lemma {:induction false} NodeIsRendered(view: View, level: nat, node: Node)
    requires NUL in node.name && Tidy(Caption(view, node)) && (node.DirNode? ==> Readable(view, node.kids))
    ensures NodeViewText(view, level, node) == Rendered(NodeRows(view, level, node))
    ensures forall i :: 0 <= i < |NodeRows(view, level, node)| ==> Tidy(NodeRows(view, level, node)[i].caption)
    decreases node, 1
  {
    hide Tidy, Readable, Blanks, Rendered, ViewText, NodeViewText, Rows, Caption;
    var head := [Row(level, Caption(view, node))];
    HeadIsRendered(level, Caption(view, node));
    NodeLine(view, level, node);
    if node.DirNode? {
      ViewIsRendered(view, level + 1, node.kids);
      RenderedJoin(head, Rows(view, level + 1, node.kids));
    } else {
      assert head + [] == head;
    }
  }

  /** The line of a node, and what is printed below it. */
  lemma NodeLine(view: View, level: nat, node: Node)
    requires NUL in node.name
    ensures NodeViewText(view, level, node) ==
            Blanks(3 * level) + Caption(view, node) + [NEWLINE] +
            if node.DirNode? then ViewText(view, level + 1, node.kids) else []
  {
    hide CStr, Blanks, Listing, PreOrder, ListedName, AboveDir;
    ListedCaption(node);
    var b, n := Blanks(3 * level), CStr(node.name);
    match node
    case DirNode(_, kids) =>
      var below := ViewText(view, level + 1, kids);
      assert b + n + [SLASH, NEWLINE] + below == b + (n + [47]) + [NEWLINE] + below;
    case FileNode(_, ext, _) =>
      var tail := if view.NameSearch? || AboveDir(ext) then [46] + ext else [];
      assert b + n + tail + [NEWLINE] == b + (n + tail) + [NEWLINE] + [];
      assert view.NameSearch? ==> b + n + [DOT] + ext + [NEWLINE] == b + n + tail + [NEWLINE];
  }

  lemma HeadIsRendered(level: nat, caption: seq<byte>)
    ensures Rendered([Row(level, caption)]) == Blanks(3 * level) + caption + [NEWLINE]
  {
    var rows := [Row(level, caption)];
    assert rows[1..] == [];
    assert Rendered([]) == [];
  }

  lemma ListedCaption(node: Node)
    requires NUL in node.name
    ensures ListedName(node.name, if node.DirNode? then DIR_EXT else node.ext) == CStr(node.name)
    ensures node.FileNode? ==> (AboveDir(node.ext) <==> Compare(node.ext, DIR_EXT) == 1)
  {
    ListedNameIff(node.name, if node.DirNode? then DIR_EXT else node.ext);
    if node.FileNode? { AboveDirIs(node.ext); }
  }

  /**
   The listing of a tree, read back, is its outline: every name at its depth, in pre-order. For names
   that end within their field.
   */
  lemma ListingReadsBack(nodes: seq<Node>)
    requires Readable(FullListing, nodes)
    ensures ReadText(Listing(0, nodes)) == Rows(FullListing, 0, nodes)
  {
    hide Listing, Rows, Tidy, Readable;
    ViewIsRendered(FullListing, 0, nodes);
    ReadRendered(Rows(FullListing, 0, nodes));
  }

  /** And what a name search leaves, read back, is the outline of the nodes that it keeps. */
  lemma NameSearchReadsBack(target: seq<byte>, nodes: seq<Node>)
    requires Readable(NameSearch(target), Pruned(NameQuery(target), 0, nodes))
    ensures ReadText(Text(NameQuery(target), 0, nodes)) ==
            Rows(NameSearch(target), 0, Pruned(NameQuery(target), 0, nodes))
  {
    hide Text, Pruned, PreOrder, Rows, Tidy, Readable;
    var kept := Pruned(NameQuery(target), 0, nodes);
    TextIsPrunedPreOrder(NameQuery(target), 0, nodes);
    ViewIsRendered(NameSearch(target), 0, kept);
    ReadRendered(Rows(NameSearch(target), 0, kept));
  }

  /** Each node of the tree has its row, at a depth one less than the length of the path to it. */
  lemma {:induction false} NodeHasRow(view: View, level: nat, nodes: seq<Node>, path: seq<nat>, node: Node)
    returns (i: nat)
    requires At(nodes, path, node)
    ensures i < |Rows(view, level, nodes)| &&
            Rows(view, level, nodes)[i] == Row(level + |path| - 1, Caption(view, node))
    decreases |path|, nodes
  {
    hide Caption;
    var before, last := nodes[..|nodes| - 1], nodes[|nodes| - 1];
    if path[0] < |before| {
      assert before[path[0]] == nodes[path[0]];
      i := NodeHasRow(view, level, before, path, node);
    } else if |path| == 1 {
      i := |Rows(view, level, before)|;
    } else {
      var j := NodeHasRow(view, level + 1, last.kids, path[1..], node);
      i := |Rows(view, level, before)| + 1 + j;
    }
  }

  /** How many files and directories there are. */
  function Count(nodes: seq<Node>): nat
    decreases nodes
  {
    if nodes == [] then 0
    else
      var node := nodes[|nodes| - 1];
      Count(nodes[..|nodes| - 1]) + 1 + if node.DirNode? then Count(node.kids) else 0
  }

  /** And there are no other rows. */
  lemma {:induction false} OneRowEach(view: View, level: nat, nodes: seq<Node>)
    ensures |Rows(view, level, nodes)| == Count(nodes)
    decreases nodes
  {
    hide Caption;
    if nodes != [] {
      OneRowEach(view, level, nodes[..|nodes| - 1]);
      var last := nodes[|nodes| - 1];
      if last.DirNode? { OneRowEach(view, level + 1, last.kids); }
    }
  }

  // ----- the lines of matches -----

  function Spaces(n: nat): seq<byte> { seq(n, _ => 32) }

  lemma {:induction false} BlanksAreSpaces(n: nat)
    ensures Blanks(n) == Spaces(n)
  {
    if n > 0 {
      BlanksAreSpaces(n - 1);
      assert Spaces(n) == Spaces(n - 1) + [32];
    }
  }

  lemma {:induction false} TextWayIsOpen(q: Query, nodes: seq<Node>, path: seq<nat>, node: Node)
    requires q.TextQuery? && At(nodes, path, node)
    ensures WayIsOpen(q, nodes, path)
    decreases path
  {
    if |path| > 1 { TextWayIsOpen(q, nodes[path[0]].kids, path[1..], node); }
  }

  /**
   A text search prints every .txt file in reach that holds the pattern: indented by its depth, the
   name with its extension, a blank, and the stored text.
   */
  lemma TextMatchIsPrinted(engine: Engine, pattern: seq<byte>, limit: nat, nodes: seq<Node>, path: seq<nat>,
                           file: Node) returns (a: seq<byte>, b: seq<byte>)
    requires At(nodes, path, file) && |path| <= limit + 1
    requires file.FileNode? && file.ext == [116, 120, 116] && Occurs(pattern, CStr(file.content))
    requires engine == KmpEngine ==> pattern != []
    ensures Text(TextQuery(engine, pattern, limit), 0, nodes) ==
            a + Spaces(3 * (|path| - 1)) + CStr(file.name) + [46, 116, 120, 116, 32] + CStr(file.content) + [10] + b
  {
    var q := TextQuery(engine, pattern, limit);
    TextWayIsOpen(q, nodes, path, file);
    a, b := HitIsPrinted(q, 0, nodes, path, file);
    BlanksAreSpaces(3 * (|path| - 1));
    CStrUnique(file.ext, file.ext);
    hide Text, CStr, Blanks, Spaces, At, Occurs;
    var s, n, c := Spaces(3 * (|path| - 1)), CStr(file.name), CStr(file.content);
    assert s + n + [46] + [116, 120, 116] + [32] + c + [10] == s + n + [46, 116, 120, 116, 32] + c + [10];
    JoinedLeft(a, s + n, [46, 116, 120, 116, 32], c, b);
    assert a + (s + n) == a + s + n;
  }

  lemma JoinedLeft(a: seq<byte>, b: seq<byte>, c: seq<byte>, d: seq<byte>, e: seq<byte>)
    ensures a + (b + c + d + [10]) + e == a + b + c + d + [10] + e
  {
  }

  /** No directory above the end of a path has this name; a name search does not look below one. */
  predicate NotBelow(target: seq<byte>, nodes: seq<Node>, path: seq<nat>)
    decreases path
  {
    |path| > 1 ==>
      path[0] < |nodes| && nodes[path[0]].DirNode? && CStr(nodes[path[0]].name[..7]) != target &&
      NotBelow(target, nodes[path[0]].kids, path[1..])
  }

  lemma {:induction false} NameWayIsOpen(target: seq<byte>, nodes: seq<Node>, path: seq<nat>)
    requires NotBelow(target, nodes, path)
    ensures WayIsOpen(NameQuery(target), nodes, path)
    decreases path
  {
    hide CStr;
    if |path| > 1 { NameWayIsOpen(target, nodes[path[0]].kids, path[1..]); }
  }

  /**
   A name search prints every directory with that name that is not below another one, and every file
   with that name whose extension comes after "dir": indented by depth, the directory with a slash,
   the file with its extension.
   */
  lemma NameMatchIsPrinted(target: seq<byte>, nodes: seq<Node>, path: seq<nat>, node: Node)
    returns (a: seq<byte>, b: seq<byte>)
    requires At(nodes, path, node) && CStr(node.name[..7]) == target && NotBelow(target, nodes, path)
    requires node.FileNode? ==> AboveDir(node.ext)
    ensures Text(NameQuery(target), 0, nodes) ==
            a + Spaces(3 * (|path| - 1)) + CStr(node.name) +
            (if node.DirNode? then [47] else [46] + node.ext) + [10] + b
  {
    hide CStr, At;
    var q := NameQuery(target);
    NameWayIsOpen(target, nodes, path);
    if node.FileNode? { AboveDirIs(node.ext); }
    a, b := HitIsPrinted(q, 0, nodes, path, node);
    BlanksAreSpaces(3 * (|path| - 1));
    hide Text, Blanks, Spaces, AboveDir, NotBelow, WayIsOpen;
    var s, n := Spaces(3 * (|path| - 1)), CStr(node.name);
    var tail := if node.DirNode? then [47] else [46] + node.ext;
    assert LineOf(q, |path| - 1, node) == s + n + tail + [10];
    JoinedLeft(a, s, n, tail, b);
  }
}
