/**
 The directory tree as a value, and what the three walks of src/fat32.c print for it: the full
 listing, and the two searches that print a directory line first and take it back.
 */
module Trees {
  import opened Bytes
  import opened Layout
  import opened Matching

  /** A file with everything stored in its clusters, or a directory with its entries in order. */
  datatype Node =
    | FileNode(name: Name, ext: Ext, content: seq<byte>)
    | DirNode(name: Name, kids: seq<Node>)

  datatype Engine = BoyerMooreEngine | KmpEngine

  /** A search for a text down to a depth limit, or for a name. */
  datatype Query =
    | TextQuery(engine: Engine, pattern: seq<byte>, limit: nat)
    | NameQuery(target: seq<byte>)

  // ----- lines -----

  function Blanks(n: nat): (s: seq<byte>)
    ensures |s| == n && forall i :: 0 <= i < n ==> s[i] == SPACE
  {
    if n == 0 then [] else Blanks(n - 1) + [SPACE]
  }

  /** The name of a directory as both searches print it: up to its first NUL. */
  function DirLine(level: nat, name: Name): seq<byte>
  {
    Blanks(3 * level) + CStr(name) + [SLASH, NEWLINE]
  }

  function FileLine(q: Query, level: nat, f: Node): seq<byte>
    requires f.FileNode?
  {
    match q
    case TextQuery(_, _, _) =>
      Blanks(3 * level) + CStr(f.name) + [DOT] + CStr(f.ext) + [SPACE] + CStr(f.content) + [NEWLINE]
    case NameQuery(_) =>
      Blanks(3 * level) + CStr(f.name) + [DOT] + f.ext + [NEWLINE]
  }

  // ----- what a query accepts -----

  /** The answer of the search engine; only the empty pattern tells the two engines apart. */
  ghost predicate Accepts(engine: Engine, pattern: seq<byte>, text: seq<byte>)
  {
    Occurs(pattern, text) && (engine == KmpEngine ==> pattern != [])
  }

  /** custom_strncpy into a nine-byte array with n = 8: only seven bytes of the name are left. */
  function Shortened(name: Name): seq<byte>
  {
    CStr(name[..7])
  }

  ghost predicate FileShown(q: Query, f: Node)
    requires f.FileNode?
  {
    match q
    case TextQuery(engine, pattern, _) => f.ext == TXT_EXT && Accepts(engine, pattern, CStr(f.content))
    case NameQuery(target) => Compare(f.ext, DIR_EXT) == 1 && Shortened(f.name) == target
  }

  /** A directory that is a hit itself; the search does not go into it. */
  predicate DirShown(q: Query, name: Name)
  {
    q.NameQuery? && Shortened(name) == q.target
  }

  /** Whether a call at this level looks at its directory at all. */
  predicate Within(q: Query, level: nat)
  {
    q.TextQuery? ==> level <= q.limit
  }

  ghost predicate Hit(q: Query, level: nat, node: Node)
    decreases node, 1
  {
    match node
    case FileNode(_, _, _) => FileShown(q, node)
    case DirNode(name, kids) => DirShown(q, name) || (Within(q, level + 1) && AnyHit(q, level + 1, kids))
  }

  ghost predicate AnyHit(q: Query, level: nat, nodes: seq<Node>)
    decreases nodes, 0
  {
    exists i :: 0 <= i < |nodes| && Hit(q, level, nodes[i])
  }

  lemma AnyHitSnoc(q: Query, level: nat, nodes: seq<Node>, node: Node)
    ensures AnyHit(q, level, nodes + [node]) <==> AnyHit(q, level, nodes) || Hit(q, level, node)
  {
    hide Hit;
    var all := nodes + [node];
    assert all[|nodes|] == node;
    assert forall i :: 0 <= i < |nodes| ==> all[i] == nodes[i];
  }

  // ----- the text a search leaves behind -----

  /**
   What one node adds. Beyond the depth limit nothing is looked at, and a directory line is taken
   back or kept by what was found before it in the same directory.
   */
  ghost function NodeText(q: Query, level: nat, node: Node, foundBefore: bool): seq<byte>
    decreases node, 1
  {
    match node
    case FileNode(_, _, _) => if FileShown(q, node) then FileLine(q, level, node) else []
    case DirNode(name, kids) =>
      if DirShown(q, name) then DirLine(level, name)
      else if Within(q, level + 1) then
        if AnyHit(q, level + 1, kids) then DirLine(level, name) + Text(q, level + 1, kids) else []
      else if foundBefore then DirLine(level, name) else []
  }

  ghost function Text(q: Query, level: nat, nodes: seq<Node>): seq<byte>
    decreases nodes, 0
  {
    if nodes == [] then []
    else
      var before, last := nodes[..|nodes| - 1], nodes[|nodes| - 1];
      Text(q, level, before) + NodeText(q, level, last, AnyHit(q, level, before))
  }

  /** The highest index, counted from the start, that the search writes to on the way. */
  ghost function NodePeak(q: Query, level: nat, node: Node): nat
    decreases node, 1
  {
    match node
    case FileNode(_, _, _) => if FileShown(q, node) then |FileLine(q, level, node)| else 0
    case DirNode(name, kids) =>
      |DirLine(level, name)| + if !DirShown(q, name) && Within(q, level + 1) then Peak(q, level + 1, kids) else 0
  }

  ghost function Peak(q: Query, level: nat, nodes: seq<Node>): nat
    decreases nodes, 0
  {
    if nodes == [] then 0
    else
      var before, last := nodes[..|nodes| - 1], nodes[|nodes| - 1];
      Max(Peak(q, level, before), |Text(q, level, before)| + NodePeak(q, level, last))
  }

  function Max(a: nat, b: nat): nat { if a < b then b else a }

  lemma TextUnfold(q: Query, level: nat, nodes: seq<Node>)
    requires nodes != []
    ensures var before, last := nodes[..|nodes| - 1], nodes[|nodes| - 1];
            Text(q, level, nodes) == Text(q, level, before) + NodeText(q, level, last, AnyHit(q, level, before)) &&
            Peak(q, level, nodes) == Max(Peak(q, level, before), |Text(q, level, before)| + NodePeak(q, level, last))
  {
    hide NodeText, NodePeak, AnyHit;
  }

  lemma TextSnoc(q: Query, level: nat, nodes: seq<Node>, node: Node)
    ensures Text(q, level, nodes + [node]) ==
            Text(q, level, nodes) + NodeText(q, level, node, AnyHit(q, level, nodes))
    ensures Peak(q, level, nodes + [node]) ==
            Max(Peak(q, level, nodes), |Text(q, level, nodes)| + NodePeak(q, level, node))
  {
    hide NodeText, NodePeak, AnyHit, Text, Peak;
    var all := nodes + [node];
    TextUnfold(q, level, all);
    assert all[..|all| - 1] == nodes && all[|all| - 1] == node;
  }

  /** No hit, no text: an unsuccessful search takes back everything it printed. */
  lemma {:induction false} NoHitNoText(q: Query, level: nat, nodes: seq<Node>)
    requires !AnyHit(q, level, nodes)
    ensures Text(q, level, nodes) == []
    decreases nodes
  {
    if nodes != [] {
      var before, last := nodes[..|nodes| - 1], nodes[|nodes| - 1];
      assert before + [last] == nodes;
      AnyHitSnoc(q, level, before, last);
      NoHitNoText(q, level, before);
    }
  }

  /** Text and peak: the final text never ends past the highest index written. */
  lemma {:induction false} TextWithinPeak(q: Query, level: nat, nodes: seq<Node>)
    ensures |Text(q, level, nodes)| <= Peak(q, level, nodes)
    decreases nodes, 0
  {
    hide DirLine, FileLine;
    if nodes != [] {
      var before, last := nodes[..|nodes| - 1], nodes[|nodes| - 1];
      TextWithinPeak(q, level, before);
      NodeTextWithinPeak(q, level, last, AnyHit(q, level, before));
    }
  }

  lemma {:induction false} NodeTextWithinPeak(q: Query, level: nat, node: Node, foundBefore: bool)
    ensures |NodeText(q, level, node, foundBefore)| <= NodePeak(q, level, node)
    decreases node, 1
  {
    hide DirLine, FileLine;
    if node.DirNode? { TextWithinPeak(q, level + 1, node.kids); }
  }

  // ----- the two engines -----

  function Swapped(q: Query): Query
  {
    match q
    case TextQuery(BoyerMooreEngine, p, l) => TextQuery(KmpEngine, p, l)
    case TextQuery(KmpEngine, p, l) => TextQuery(BoyerMooreEngine, p, l)
    case NameQuery(_) => q
  }

  /** For every non-empty pattern both engines leave the same text over the same cells. */
  lemma {:induction false} EnginesAgree(q: Query, level: nat, nodes: seq<Node>)
    requires q.TextQuery? && q.pattern != []
    ensures AnyHit(q, level, nodes) <==> AnyHit(Swapped(q), level, nodes)
    ensures Text(q, level, nodes) == Text(Swapped(q), level, nodes)
    ensures Peak(q, level, nodes) == Peak(Swapped(q), level, nodes)
    decreases nodes, 0
  {
    hide DirLine, FileLine, Accepts;
    if nodes != [] {
      var before, last := nodes[..|nodes| - 1], nodes[|nodes| - 1];
      assert before + [last] == nodes;
      EnginesAgree(q, level, before);
      EnginesAgreeOnNode(q, level, last);
      AnyHitSnoc(q, level, before, last);
      AnyHitSnoc(Swapped(q), level, before, last);
      hide Hit, AnyHit, NodeText, NodePeak;
    }
  }

  lemma {:induction false} EnginesAgreeOnNode(q: Query, level: nat, node: Node)
    requires q.TextQuery? && q.pattern != []
    ensures Hit(q, level, node) <==> Hit(Swapped(q), level, node)
    ensures forall b :: NodeText(q, level, node, b) == NodeText(Swapped(q), level, node, b)
    ensures NodePeak(q, level, node) == NodePeak(Swapped(q), level, node)
    decreases node, 1
  {
    hide DirLine, Occurs;
    match node
    case FileNode(_, _, _) =>
      assert FileShown(q, node) == FileShown(Swapped(q), node);
      assert FileLine(q, level, node) == FileLine(Swapped(q), level, node);
    case DirNode(_, kids) =>
      EnginesAgree(q, level + 1, kids);
      hide Text, Peak, AnyHit;
  }

  // ----- printing and taking back is pruning and printing -----

  /** Every directory at this level may still be looked into. */
  ghost predicate WithinLimit(q: Query, level: nat, nodes: seq<Node>)
    decreases nodes
  {
    forall i :: 0 <= i < |nodes| && nodes[i].DirNode? ==>
      Within(q, level + 1) && WithinLimit(q, level + 1, nodes[i].kids)
  }

  /**
   The nodes that stay: the hits and the directories above a hit. A directory at the limit, which
   nothing looks into, stays when there was a hit before it in the same directory.
   */
  ghost predicate Kept(q: Query, level: nat, node: Node, foundBefore: bool)
  {
    Hit(q, level, node) || (node.DirNode? && !Within(q, level + 1) && foundBefore)
  }

  /** Within the limit these are the hits alone. */
  lemma KeptIsHit(q: Query, level: nat, nodes: seq<Node>, i: nat, foundBefore: bool)
    requires WithinLimit(q, level, nodes) && i < |nodes|
    ensures Kept(q, level, nodes[i], foundBefore) <==> Hit(q, level, nodes[i])
  {
    hide Hit;
  }

  ghost function PrunedNode(q: Query, level: nat, node: Node): Node
    decreases node, 1
  {
    match node
    case FileNode(_, _, _) => node
    case DirNode(name, kids) =>
      DirNode(name, if DirShown(q, name) || !Within(q, level + 1) then [] else Pruned(q, level + 1, kids))
  }

  /** The nodes that stay, in order; nothing below a directory that is a hit or that is not looked into. */
  ghost function Pruned(q: Query, level: nat, nodes: seq<Node>): seq<Node>
    decreases nodes, 0
  {
    if nodes == [] then []
    else
      var before, last := nodes[..|nodes| - 1], nodes[|nodes| - 1];
      Pruned(q, level, before) +
      if Kept(q, level, last, AnyHit(q, level, before)) then [PrunedNode(q, level, last)] else []
  }

  /** The pruned tree has the kept nodes, each at most once and in their order. */
  lemma {:induction false} PrunedIsKept(q: Query, level: nat, nodes: seq<Node>) returns (kept: seq<nat>)
    ensures |kept| == |Pruned(q, level, nodes)| && forall j, k :: 0 <= j < k < |kept| ==> kept[j] < kept[k]
    ensures forall i: nat :: i in kept <==> i < |nodes| && Kept(q, level, nodes[i], AnyHit(q, level, nodes[..i]))
    ensures forall k :: 0 <= k < |kept| ==>
              kept[k] in kept && Pruned(q, level, nodes)[k] == PrunedNode(q, level, nodes[kept[k]])
    decreases nodes
  {
    hide Kept, AnyHit, PrunedNode, Pruned;
    PrunedUnfold(q, level, nodes);
    kept := [];
    if nodes != [] {
      var before, last := nodes[..|nodes| - 1], nodes[|nodes| - 1];
      var shorter := PrunedIsKept(q, level, before);
      assert forall i :: 0 <= i < |before| ==> before[i] == nodes[i] && before[..i] == nodes[..i];
      kept := shorter;
      if Kept(q, level, last, AnyHit(q, level, before)) {
        kept := shorter + [|before|];
        OneMore(shorter, |before|);
      }
      assert nodes[..|before|] == before;
    }
  }

  /** A rising series with a larger number behind it. */
  lemma OneMore(s: seq<nat>, n: nat)
    requires (forall j, k :: 0 <= j < k < |s| ==> s[j] < s[k]) && forall i :: i in s ==> i < n
    ensures forall j, k :: 0 <= j < k < |s| + 1 ==> (s + [n])[j] < (s + [n])[k]
    ensures forall i: nat :: i in s + [n] <==> i in s || i == n
  {
    assert forall j :: 0 <= j < |s| ==> s[j] in s;
  }

  lemma PrunedUnfold(q: Query, level: nat, nodes: seq<Node>)
    ensures nodes == [] ==> Pruned(q, level, nodes) == []
    ensures nodes != [] ==>
              var before, last := nodes[..|nodes| - 1], nodes[|nodes| - 1];
              Pruned(q, level, nodes) == Pruned(q, level, before) +
              if Kept(q, level, last, AnyHit(q, level, before)) then [PrunedNode(q, level, last)] else []
  {
    hide Kept, AnyHit, PrunedNode;
  }

  /** A node of the pruned tree has the name and content of its original; only the entries below it can go. */
  lemma PrunedNodeIs(q: Query, level: nat, node: Node)
    ensures node.FileNode? ==> PrunedNode(q, level, node) == node
    ensures node.DirNode? ==>
              PrunedNode(q, level, node).DirNode? && PrunedNode(q, level, node).name == node.name &&
              PrunedNode(q, level, node).kids ==
                if (q.NameQuery? && CStr(node.name[..7]) == q.target) || (q.TextQuery? && level >= q.limit) then []
                else Pruned(q, level + 1, node.kids)
  {
    hide Pruned, CStr;
  }

  /** A tree printed as it is, in pre-order. */
  function PreOrderNode(q: Query, level: nat, node: Node): seq<byte>
    decreases node, 1
  {
    match node
    case FileNode(_, _, _) => FileLine(q, level, node)
    case DirNode(name, kids) => DirLine(level, name) + PreOrder(q, level + 1, kids)
  }

  function PreOrder(q: Query, level: nat, nodes: seq<Node>): seq<byte>
    decreases nodes, 0
  {
    if nodes == [] then []
    else PreOrder(q, level, nodes[..|nodes| - 1]) + PreOrderNode(q, level, nodes[|nodes| - 1])
  }

  lemma PreOrderSnoc(q: Query, level: nat, nodes: seq<Node>, node: Node)
    ensures PreOrder(q, level, nodes + [node]) == PreOrder(q, level, nodes) + PreOrderNode(q, level, node)
  {
    hide PreOrderNode;
    var all := nodes + [node];
    assert all[..|all| - 1] == nodes && all[|all| - 1] == node;
  }

  /** What a search leaves is the pre-order of the pruned tree, for every tree and limit. */
  lemma {:induction false} TextIsPrunedPreOrder(q: Query, level: nat, nodes: seq<Node>)
    ensures Text(q, level, nodes) == PreOrder(q, level, Pruned(q, level, nodes))
    decreases nodes, 0
  {
    hide DirLine, FileLine;
    if nodes != [] {
      var before, last := nodes[..|nodes| - 1], nodes[|nodes| - 1];
      TextIsPrunedPreOrder(q, level, before);
      NodeTextIsPruned(q, level, last, AnyHit(q, level, before));
      hide AnyHit, NodeText, Kept, PreOrderNode;
      if Kept(q, level, last, AnyHit(q, level, before)) {
        PreOrderSnoc(q, level, Pruned(q, level, before), PrunedNode(q, level, last));
      } else {
        assert Pruned(q, level, nodes) == Pruned(q, level, before);
        assert Text(q, level, nodes) == Text(q, level, before);
      }
    }
  }

  lemma {:induction false} NodeTextIsPruned(q: Query, level: nat, node: Node, foundBefore: bool)
    ensures NodeText(q, level, node, foundBefore) ==
            if Kept(q, level, node, foundBefore) then PreOrderNode(q, level, PrunedNode(q, level, node)) else []
    decreases node, 1
  {
    hide DirLine, FileLine, AnyHit;
    if node.DirNode? {
      TextIsPrunedPreOrder(q, level + 1, node.kids);
      assert DirLine(level, node.name) + [] == DirLine(level, node.name);
    }
  }

  /** No search reaches further than the whole tree printed as it is: such a buffer always does. */
  lemma {:induction false} PeakWithinPreOrder(q: Query, level: nat, nodes: seq<Node>)
    ensures |Text(q, level, nodes)| <= |PreOrder(q, level, nodes)|
    ensures Peak(q, level, nodes) <= |PreOrder(q, level, nodes)|
    decreases nodes, 0
  {
    hide DirLine, FileLine, NodeText, NodePeak, PreOrderNode;
    if nodes != [] {
      var before, last := nodes[..|nodes| - 1], nodes[|nodes| - 1];
      PeakWithinPreOrder(q, level, before);
      NodePeakWithinPreOrder(q, level, last, AnyHit(q, level, before));
    }
  }

  lemma {:induction false} NodePeakWithinPreOrder(q: Query, level: nat, node: Node, foundBefore: bool)
    ensures |NodeText(q, level, node, foundBefore)| <= |PreOrderNode(q, level, node)|
    ensures NodePeak(q, level, node) <= |PreOrderNode(q, level, node)|
    decreases node, 1
  {
    hide DirLine, FileLine, Text, Peak, PreOrder, AnyHit;
    if node.DirNode? { PeakWithinPreOrder(q, level + 1, node.kids); }
  }

  // ----- hits, told by paths -----

  /** The node at the end of a path of positions. */
  predicate At(nodes: seq<Node>, path: seq<nat>, node: Node)
    decreases path
  {
    path != [] && path[0] < |nodes| &&
    if |path| == 1 then nodes[path[0]] == node
    else nodes[path[0]].DirNode? && At(nodes[path[0]].kids, path[1..], node)
  }

  /** A node that the query accepts by itself. */
  ghost predicate Wanted(q: Query, node: Node)
  {
    match node
    case FileNode(_, _, _) => FileShown(q, node)
    case DirNode(name, _) => DirShown(q, name)
  }

  /** How far down a search looks that starts at this level. */
  predicate InReach(q: Query, level: nat, path: seq<nat>)
  {
    q.TextQuery? ==> level + |path| <= q.limit + 1
  }

  /** A search succeeds exactly when somewhere in reach there is a node that the query accepts. */
  lemma {:induction false} FoundIffSomeNode(q: Query, level: nat, nodes: seq<Node>)
    requires Within(q, level)
    ensures AnyHit(q, level, nodes) <==>
            exists path, node :: At(nodes, path, node) && InReach(q, level, path) && Wanted(q, node)
  {
    hide Wanted;
    if AnyHit(q, level, nodes) {
      var path, node := NodeOfHit(q, level, nodes);
    }
    forall path, node | At(nodes, path, node) && InReach(q, level, path) && Wanted(q, node)
      ensures AnyHit(q, level, nodes)
    {
      HitOfNode(q, level, nodes, path, node);
    }
  }

  lemma {:induction false} NodeOfHit(q: Query, level: nat, nodes: seq<Node>) returns (path: seq<nat>, node: Node)
    requires Within(q, level) && AnyHit(q, level, nodes)
    ensures At(nodes, path, node) && InReach(q, level, path) && Wanted(q, node)
    decreases nodes
  {
    hide FileShown, DirShown;
    var i :| 0 <= i < |nodes| && Hit(q, level, nodes[i]);
    if Wanted(q, nodes[i]) {
      path, node := [i], nodes[i];
    } else {
      path, node := NodeOfHit(q, level + 1, nodes[i].kids);
      assert ([i] + path)[1..] == path;
      path := [i] + path;
    }
  }

  lemma {:induction false} HitOfNode(q: Query, level: nat, nodes: seq<Node>, path: seq<nat>, node: Node)
    requires At(nodes, path, node) && InReach(q, level, path) && Wanted(q, node)
    ensures AnyHit(q, level, nodes)
    decreases path
  {
    hide FileShown, DirShown;
    assert Hit(q, level, nodes[path[0]]) by {
      if |path| > 1 { HitOfNode(q, level + 1, nodes[path[0]].kids, path[1..], node); }
    }
  }

  /**
   A text search succeeds exactly when some file named .txt, not below the limit, holds the pattern
   in its text; Knuth-Morris-Pratt asks for a pattern that is not empty besides.
   */
  lemma FoundIffSomeFile(engine: Engine, pattern: seq<byte>, limit: nat, level: nat, nodes: seq<Node>)
    requires level <= limit
    ensures AnyHit(TextQuery(engine, pattern, limit), level, nodes) <==>
            exists path, f :: At(nodes, path, f) && level + |path| <= limit + 1 && f.FileNode? &&
                              f.ext == [116, 120, 116] && Occurs(pattern, CStr(f.content)) &&
                              (engine == KmpEngine ==> pattern != [])
  {
    FoundIffSomeNode(TextQuery(engine, pattern, limit), level, nodes);
    hide At, Occurs;
  }

  /** Three bytes that come after "dir", the first difference deciding. */
  predicate AboveDir(ext: Ext)
  {
    ext[0] > 100 || (ext[0] == 100 && (ext[1] > 105 || (ext[1] == 105 && ext[2] > 114)))
  }

  lemma AboveDirIs(ext: Ext)
    ensures AboveDir(ext) <==> Compare(ext, DIR_EXT) == 1
    ensures ext == DIR_EXT <==> Compare(ext, DIR_EXT) == 0
  {
    var d: Ext := DIR_EXT;
    assert d[0] == 100 && d[1] == 105 && d[2] == 114;
    CompareSign(ext, d);
    if ext != d {
      var k := FirstDifference(ext, d);
      hide Compare;
      assert forall i :: 0 <= i < k ==> ext[..k][i] == ext[i] && d[..k][i] == d[i];
      assert k == 0 || k == 1 || k == 2;
    }
  }

  /**
   A name search succeeds exactly when some directory, or some file whose extension comes after
   "dir", is called what is searched for in its first seven bytes.
   */
  lemma FoundIffSomeName(target: seq<byte>, level: nat, nodes: seq<Node>)
    ensures AnyHit(NameQuery(target), level, nodes) <==>
            exists path, node :: At(nodes, path, node) && CStr(node.name[..7]) == target &&
                                 (node.FileNode? ==>
                                    node.ext[0] > 100 ||
                                    (node.ext[0] == 100 &&
                                     (node.ext[1] > 105 || (node.ext[1] == 105 && node.ext[2] > 114))))
  {
    FoundIffSomeNode(NameQuery(target), level, nodes);
    forall node: Node
      ensures Wanted(NameQuery(target), node) <==>
                CStr(node.name[..7]) == target && (node.FileNode? ==> AboveDir(node.ext))
    {
      if node.FileNode? { AboveDirIs(node.ext); }
    }
    hide At, Wanted, CStr;
  }

  // ----- what stays, told by paths -----

  lemma OneNode(q: Query, level: nat, node: Node)
    ensures AnyHit(q, level, [node]) <==> Hit(q, level, node)
  {
    hide Hit;
    assert [node][0] == node;
  }

  /** Above the limit a node stays in a text search exactly when a matching file is in it or below it. */
  lemma TextKeptIff(engine: Engine, pattern: seq<byte>, limit: nat, level: nat, node: Node, foundBefore: bool)
    requires level < limit
    ensures Kept(TextQuery(engine, pattern, limit), level, node, foundBefore) <==>
            exists path, f :: At([node], path, f) && level + |path| <= limit + 1 && f.FileNode? &&
                              f.ext == [116, 120, 116] && Occurs(pattern, CStr(f.content)) &&
                              (engine == KmpEngine ==> pattern != [])
  {
    hide Hit, At, Occurs, CStr, AnyHit;
    OneNode(TextQuery(engine, pattern, limit), level, node);
    FoundIffSomeFile(engine, pattern, limit, level, [node]);
  }

  /** At the limit a file stays when it matches, and a directory when a file before it in the same directory does. */
  lemma TextKeptAtLimitIff(engine: Engine, pattern: seq<byte>, limit: nat, nodes: seq<Node>, i: nat)
    requires i < |nodes|
    ensures var q := TextQuery(engine, pattern, limit);
            Kept(q, limit, nodes[i], AnyHit(q, limit, nodes[..i])) <==>
            exists j :: 0 <= j <= i && (nodes[i].FileNode? ==> j == i) && nodes[j].FileNode? &&
                        nodes[j].ext == [116, 120, 116] && Occurs(pattern, CStr(nodes[j].content)) &&
                        (engine == KmpEngine ==> pattern != [])
  {
    hide Occurs, CStr;
    var q := TextQuery(engine, pattern, limit);
    assert forall j :: 0 <= j < i ==> nodes[..i][j] == nodes[j];
    assert forall j :: 0 <= j <= i && nodes[j].DirNode? ==> !Hit(q, limit, nodes[j]);
    if nodes[i].DirNode? && AnyHit(q, limit, nodes[..i]) {
      var j :| 0 <= j < i && Hit(q, limit, nodes[..i][j]);
      assert nodes[j].FileNode? && FileShown(q, nodes[j]);
    }
    if nodes[i].DirNode? && !AnyHit(q, limit, nodes[..i]) {
      assert forall j :: 0 <= j < i ==> !Hit(q, limit, nodes[..i][j]);
    }
  }

  /** In a name search a node stays exactly when something with that name is in it or below it. */
  lemma NameKeptIff(target: seq<byte>, level: nat, node: Node, foundBefore: bool)
    ensures Kept(NameQuery(target), level, node, foundBefore) <==>
            exists path, n :: At([node], path, n) && CStr(n.name[..7]) == target && (n.FileNode? ==> AboveDir(n.ext))
  {
    hide Hit, At, CStr, AnyHit;
    OneNode(NameQuery(target), level, node);
    FoundIffSomeName(target, level, [node]);
  }

  // ----- every hit is printed -----

  /** No directory on the way is a hit itself, which would keep the search from going into it. */
  ghost predicate WayIsOpen(q: Query, nodes: seq<Node>, path: seq<nat>)
    decreases path
  {
    |path| > 1 ==>
      path[0] < |nodes| && nodes[path[0]].DirNode? && !DirShown(q, nodes[path[0]].name) &&
      WayIsOpen(q, nodes[path[0]].kids, path[1..])
  }

  function LineOf(q: Query, level: nat, node: Node): seq<byte>
  {
    match node
    case FileNode(_, _, _) => FileLine(q, level, node)
    case DirNode(name, _) => DirLine(level, name)
  }

  /** The text of one node is a stretch of the whole text. */
  lemma {:induction false} NodeTextInText(q: Query, level: nat, nodes: seq<Node>, i: nat)
    returns (a: seq<byte>, b: seq<byte>)
    requires i < |nodes|
    ensures Text(q, level, nodes) == a + NodeText(q, level, nodes[i], AnyHit(q, level, nodes[..i])) + b
    decreases nodes
  {
    hide NodeText, AnyHit, Text;
    var before, last := nodes[..|nodes| - 1], nodes[|nodes| - 1];
    TextUnfold(q, level, nodes);
    if i == |nodes| - 1 {
      a, b := Text(q, level, before), [];
      assert nodes[..i] == before;
    } else {
      var c;
      a, c := NodeTextInText(q, level, before, i);
      b := c + NodeText(q, level, last, AnyHit(q, level, before));
      assert before[i] == nodes[i] && before[..i] == nodes[..i];
    }
  }

  /** Each node in reach that the query accepts has its own line in the text, indented by its depth. */
  lemma {:induction false} HitIsPrinted(q: Query, level: nat, nodes: seq<Node>, path: seq<nat>, node: Node)
    returns (a: seq<byte>, b: seq<byte>)
    requires At(nodes, path, node) && InReach(q, level, path) && Wanted(q, node) && WayIsOpen(q, nodes, path)
    ensures Text(q, level, nodes) == a + LineOf(q, level + |path| - 1, node) + b
    decreases path
  {
    hide FileShown, DirShown, Text, FileLine, DirLine;
    var i := path[0];
    var before, behind := NodeTextInText(q, level, nodes, i);
    if |path| == 1 {
      a, b := before, behind;
      assert NodeText(q, level, node, AnyHit(q, level, nodes[..i])) == LineOf(q, level, node);
    } else {
      var dir := nodes[i];
      HitOfNode(q, level + 1, dir.kids, path[1..], node);
      var c, d := HitIsPrinted(q, level + 1, dir.kids, path[1..], node);
      a, b := before + (DirLine(level, dir.name) + c), d + behind;
      var line := LineOf(q, level + |path| - 1, node);
      DirNodeText(q, level, dir, AnyHit(q, level, nodes[..i]));
      Regrouped(before, DirLine(level, dir.name), c, line, d, behind);
    }
  }

  lemma DirNodeText(q: Query, level: nat, node: Node, foundBefore: bool)
    requires node.DirNode? && !DirShown(q, node.name) && Within(q, level + 1) && AnyHit(q, level + 1, node.kids)
    ensures NodeText(q, level, node, foundBefore) == DirLine(level, node.name) + Text(q, level + 1, node.kids)
  {
    hide Text, AnyHit, DirLine;
  }

  lemma Regrouped(a: seq<byte>, b: seq<byte>, c: seq<byte>, d: seq<byte>, e: seq<byte>, f: seq<byte>)
    ensures a + (b + (c + d + e)) + f == (a + (b + c)) + d + (e + f)
  {
  }

  // ----- the full listing -----

  /** all_list_dir_content reads nine bytes of an eight-byte name, the ninth being ext[0]. */
  function ListedName(name: Name, ext: Ext): seq<byte>
  {
    CStr(name + ext[..1])
  }

  /** The listing shows the name itself exactly when it ends within its eight bytes or ext is blank. */
  lemma ListedNameIff(name: Name, ext: Ext)
    ensures ListedName(name, ext) == CStr(name) <==> NUL in name || ext[0] == NUL
  {
    var s := name + ext[..1];
    if NUL in name {
      CStrUnique(s, CStr(name));
    } else if ext[0] == NUL {
      CStrUnique(name, name);
      CStrUnique(s, name);
    } else {
      CStrUnique(name, name);
      CStrUnique(s, s);
      assert |s| == 9;
    }
  }

  function ListNode(level: nat, node: Node): seq<byte>
    decreases node, 1
  {
    match node
    case DirNode(name, kids) =>
      Blanks(3 * level) + ListedName(name, DIR_EXT) + [SLASH, NEWLINE] + Listing(level + 1, kids)
    case FileNode(name, ext, _) =>
      Blanks(3 * level) + ListedName(name, ext) +
      (if Compare(ext, DIR_EXT) == 1 then [DOT] + ext else []) + [NEWLINE]
  }

  /** The whole tree in pre-order, three blanks for each level. */
  function Listing(level: nat, nodes: seq<Node>): seq<byte>
    decreases nodes, 0
  {
    if nodes == [] then []
    else Listing(level, nodes[..|nodes| - 1]) + ListNode(level, nodes[|nodes| - 1])
  }

  lemma ListingSnoc(level: nat, nodes: seq<Node>, node: Node)
    ensures Listing(level, nodes + [node]) == Listing(level, nodes) + ListNode(level, node)
  {
    hide ListNode;
    var all := nodes + [node];
    assert all[..|all| - 1] == nodes && all[|all| - 1] == node;
  }

  // ----- lines end with a newline -----

  predicate EndsLine(s: seq<byte>) { s == [] || s[|s| - 1] == NEWLINE }

  lemma {:induction false} TextEndsLine(q: Query, level: nat, nodes: seq<Node>)
    ensures EndsLine(Text(q, level, nodes))
    decreases nodes, 0
  {
    hide Blanks, CStr, FileShown;
    if nodes != [] {
      var before, last := nodes[..|nodes| - 1], nodes[|nodes| - 1];
      TextEndsLine(q, level, before);
      NodeTextEndsLine(q, level, last, AnyHit(q, level, before));
    }
  }

  lemma {:induction false} NodeTextEndsLine(q: Query, level: nat, node: Node, foundBefore: bool)
    ensures EndsLine(NodeText(q, level, node, foundBefore))
    decreases node, 1
  {
    hide Blanks, CStr, FileShown;
    if node.DirNode? { TextEndsLine(q, level + 1, node.kids); }
  }

  // ----- lines that can be taken back -----

  /** A directory whose line is taken back has no newline in its name, and so on below it. */
  ghost predicate NodePlain(q: Query, level: nat, node: Node, foundBefore: bool)
    decreases node, 1
  {
    node.DirNode? && !DirShown(q, node.name) ==>
      (NodeText(q, level, node, foundBefore) == [] ==> NEWLINE !in CStr(node.name)) &&
      (Within(q, level + 1) ==> PlainNames(q, level + 1, node.kids))
  }

  /** No line that the search takes back has a newline in the name; those that stay may have. */
  ghost predicate PlainNames(q: Query, level: nat, nodes: seq<Node>)
    decreases nodes, 0
  {
    nodes == [] ||
    (PlainNames(q, level, nodes[..|nodes| - 1]) &&
     NodePlain(q, level, nodes[|nodes| - 1], AnyHit(q, level, nodes[..|nodes| - 1])))
  }

  lemma {:induction false} PlainAt(q: Query, level: nat, nodes: seq<Node>, k: nat)
    requires PlainNames(q, level, nodes) && k < |nodes|
    ensures NodePlain(q, level, nodes[k], AnyHit(q, level, nodes[..k]))
    decreases nodes
  {
    hide NodePlain, AnyHit;
    if k < |nodes| - 1 {
      var before := nodes[..|nodes| - 1];
      assert before[k] == nodes[k] && before[..k] == nodes[..k];
      PlainAt(q, level, before, k);
    }
  }

  /** Names without newlines are always fine. */
  ghost predicate NoNewlines(nodes: seq<Node>)
    decreases nodes
  {
    forall i :: 0 <= i < |nodes| && nodes[i].DirNode? ==>
      NEWLINE !in CStr(nodes[i].name) && NoNewlines(nodes[i].kids)
  }

  lemma {:induction false} NoNewlinesIsPlain(q: Query, level: nat, nodes: seq<Node>)
    requires NoNewlines(nodes)
    ensures PlainNames(q, level, nodes)
    decreases nodes
  {
    hide NodeText, AnyHit, CStr;
    if nodes != [] {
      var before, last := nodes[..|nodes| - 1], nodes[|nodes| - 1];
      assert forall i :: 0 <= i < |before| ==> before[i] == nodes[i];
      NoNewlinesIsPlain(q, level, before);
      if last.DirNode? {
        NoNewlinesIsPlain(q, level + 1, last.kids);
      }
    }
  }
}
