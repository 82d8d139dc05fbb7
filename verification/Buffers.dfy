/**
 What the walks leave in their output buffer, as values: text, reach and blank cells, and how these
 add up node by node.
 */
module Buffers {
  import opened Bytes
  import opened Layout
  import opened Store
  import opened Invariant
  import opened Trees
  import opened DiskTree

  // ----- what is left in a buffer -----

  /** was, with text put at start, the cells behind it blank up to peak, and the rest as it was. */
  function Left(was: seq<byte>, start: nat, text: seq<byte>, peak: nat): (b: seq<byte>)
    ensures |b| == |was|
  {
    seq(|was|, k requires 0 <= k < |was| =>
      if k < start then was[k]
      else if k < start + |text| then text[k - start]
      else if k < start + peak then NUL
      else was[k])
  }

  lemma LeftNothing(was: seq<byte>, start: nat)
    ensures Left(was, start, [], 0) == was
  {
  }

  lemma LeftFromStart(was: seq<byte>, text: seq<byte>)
    requires |text| <= |was|
    ensures Left(was, 0, text, |text|)[..|text|] == text && Left(was, 0, text, |text|)[|text|..] == was[|text|..]
  {
  }

  /** Writing on after a text: texts add up, and so does the reach. */
  lemma LeftThenLeft(was: seq<byte>, start: nat, text: seq<byte>, peak: nat, more: seq<byte>, reach: nat)
    requires |text| <= peak && |more| <= reach && start + Max(peak, |text| + reach) <= |was|
    ensures Left(Left(was, start, text, peak), start + |text|, more, reach) ==
            Left(was, start, text + more, Max(peak, |text| + reach))
  {
    var a := Left(Left(was, start, text, peak), start + |text|, more, reach);
    var b := Left(was, start, text + more, Max(peak, |text| + reach));
    forall k | 0 <= k < |was| ensures a[k] == b[k] {}
  }

  lemma LeftAppended(was: seq<byte>, start: nat, text: seq<byte>, more: seq<byte>)
    requires start + |text| + |more| <= |was|
    ensures Left(Left(was, start, text, |text|), start + |text|, more, |more|) ==
            Left(was, start, text + more, |text + more|)
  {
    LeftThenLeft(was, start, text, |text|, more, |more|);
  }

  lemma LeftThree(was: seq<byte>, start: nat, a: seq<byte>, b: seq<byte>, c: seq<byte>)
    requires start + |a| + |b| + |c| <= |was|
    ensures Left(Left(Left(was, start, a, |a|), start + |a|, b, |b|), start + |a| + |b|, c, |c|) ==
            Left(was, start, a + b + c, |a| + |b| + |c|)
  {
    LeftAppended(was, start, a, b);
    LeftAppended(was, start, a + b, c);
  }

  /** Blanking a line again: its text goes, its reach stays. */
  lemma LeftErased(was: seq<byte>, start: nat, line: seq<byte>, peak: nat, b: seq<byte>)
    requires |line| <= peak && start + peak <= |was| && |b| == |was|
    requires forall k :: 0 <= k < |b| ==>
               b[k] == if start <= k < start + |line| then NUL else Left(was, start, line, peak)[k]
    ensures b == Left(was, start, [], peak)
  {
    forall k | 0 <= k < |was| ensures b[k] == Left(was, start, [], peak)[k] {}
  }


  /**
   What one call for a directory does to buffer, index and flag. Beyond the depth limit it returns
   at once and leaves the flag as it found it.
   */
  ghost predicate Searched(q: Query, level: nat, nodes: seq<Node>, was: seq<byte>, start: nat, foundBefore: bool,
                           b: seq<byte>, at: nat, found: bool)
  {
    if Within(q, level) then
      (found <==> AnyHit(q, level, nodes)) && at == start + |Text(q, level, nodes)| &&
      b == Left(was, start, Text(q, level, nodes), Peak(q, level, nodes))
    else
      found == foundBefore && at == start && b == was
  }

  /** How deep the tree below a directory can be. */
  ghost function Height(g: Shape, d: nat): nat
  {
    if d in g.depth then MaxDepth(g.depth) - g.depth[d] else 0
  }

  lemma HeightBelow(g: Shape, d: nat, c: nat)
    requires d in g.depth && c in g.depth && g.depth[c] == g.depth[d] + 1
    ensures Height(g, c) < Height(g, d)
  {
  }

  /**
   The flag and its backup after one node. Together they know of every hit so far; at the limit,
   where no call resets the flag, the flag alone does.
   */
  ghost predicate Collected(q: Query, level: nat, node: Node, foundBefore: bool, localBefore: bool, found: bool,
                            local: bool)
  {
    (found || local <==> foundBefore || localBefore || Hit(q, level, node)) &&
    (!Within(q, level + 1) ==> (found <==> foundBefore || Hit(q, level, node)))
  }

  lemma CollectDir(q: Query, level: nat, node: Node, foundBefore: bool, localBefore: bool, found: bool,
                   b: seq<byte>, at: nat, b': seq<byte>, at': nat)
    requires node.DirNode? && !DirShown(q, node.name)
    requires Searched(q, level + 1, node.kids, b, at, foundBefore, b', at', found)
    ensures Collected(q, level, node, foundBefore, localBefore, found, localBefore || foundBefore)
  {
    hide Left, Text, Peak, AnyHit;
  }

  /** The buffer, index and flag after the call for the directory below a line just printed. */
  ghost predicate BelowDone(was: seq<byte>, start: nat, q: Query, level: nat, node: Node, foundBefore: bool,
                            b: seq<byte>, at: nat, found: bool)
    requires node.DirNode?
  {
    var line, t, pk := DirLine(level, node.name), Text(q, level + 1, node.kids), Peak(q, level + 1, node.kids);
    if Within(q, level + 1) then
      (found <==> AnyHit(q, level + 1, node.kids)) && at == start + |line| + |t| &&
      b == Left(Left(was, start, line, |line|), start + |line|, t, pk)
    else
      found == foundBefore && at == start + |line| && b == Left(was, start, line, |line|)
  }

  lemma MakeBelowDone(was: seq<byte>, start: nat, q: Query, level: nat, node: Node, foundBefore: bool,
                      b: seq<byte>, at: nat, b': seq<byte>, at': nat, found: bool)
    requires node.DirNode?
    requires b == Left(was, start, DirLine(level, node.name), |DirLine(level, node.name)|)
    requires at == start + |DirLine(level, node.name)|
    requires Searched(q, level + 1, node.kids, b, at, foundBefore, b', at', found)
    ensures BelowDone(was, start, q, level, node, foundBefore, b', at', found)
  {
    hide Left, DirLine, Text, Peak, AnyHit;
  }

  ghost function BelowText(q: Query, level: nat, node: Node): seq<byte>
    requires node.DirNode?
  {
    if Within(q, level + 1) then Text(q, level + 1, node.kids) else []
  }

  /** Line and text below it as one text, of which either all stays or nothing. */
  lemma BelowLeft(was: seq<byte>, start: nat, q: Query, level: nat, node: Node, foundBefore: bool,
                  b: seq<byte>, at: nat, found: bool)
    requires node.DirNode? && !DirShown(q, node.name) && start + NodePeak(q, level, node) <= |was|
    requires BelowDone(was, start, q, level, node, foundBefore, b, at, found)
    ensures var line, below := DirLine(level, node.name), BelowText(q, level, node);
            |line + below| <= NodePeak(q, level, node) && at == start + |line + below| &&
            b == Left(was, start, line + below, NodePeak(q, level, node)) &&
            (found ==> NodeText(q, level, node, foundBefore) == line + below) &&
            (!found ==> NodeText(q, level, node, foundBefore) == [] && line + below == line)
  {
    hide Left, DirLine, Text, Peak, AnyHit, Hit;
    if Within(q, level + 1) {
      LeftBelow(was, start, q, level, node.name, node.kids);
      TextWithinPeak(q, level + 1, node.kids);
    } else {
      assert DirLine(level, node.name) + [] == DirLine(level, node.name);
    }
  }

  /** What a directory that is no hit itself adds, in its parts. */
  lemma DirNodeParts(q: Query, level: nat, node: Node, foundBefore: bool)
    requires node.DirNode? && !DirShown(q, node.name)
    ensures NodePeak(q, level, node) ==
            |DirLine(level, node.name)| + if Within(q, level + 1) then Peak(q, level + 1, node.kids) else 0
    ensures Hit(q, level, node) <==> Within(q, level + 1) && AnyHit(q, level + 1, node.kids)
    ensures var line := DirLine(level, node.name);
            NodeText(q, level, node, foundBefore) ==
            if !Within(q, level + 1) then if foundBefore then line else []
            else if AnyHit(q, level + 1, node.kids) then line + Text(q, level + 1, node.kids) else []
  {
    hide DirLine, Text, Peak, AnyHit;
  }

  lemma NoDirShown(q: Query, name: Name)
    requires q.TextQuery?
    ensures !DirShown(q, name)
  {
  }

  /** The first entry carries no extension, so neither branch of the loop body takes it. */
  lemma SkipFirst(fs: Fs, g: Shape, d: nat, e: Entry)
    requires InOrder(fs, g) && d in g.depth && d < CLUSTER_MAP_SIZE && e == Slot(fs, d, 0)
    ensures Compare(e.ext, DIR_EXT) == -1 && Compare(e.ext, TXT_EXT) != 0
  {
    FirstEntryIsSkipped(fs, g, d);
  }

  /** Within the limit, what was found before makes no difference to a node. */
  lemma SameNodeText(q: Query, level: nat, node: Node, a: bool, b: bool)
    requires Within(q, level + 1) || a == b
    ensures NodeText(q, level, node, a) == NodeText(q, level, node, b)
  {
  }

  /** A line that starts after a newline or at the first cell still does when it is printed. */
  lemma LeftNewline(was: seq<byte>, start: nat, level: nat, name: Name)
    requires start + |DirLine(level, name)| <= |was|
    ensures |DirLine(level, name)| > 0
    ensures Left(was, start, DirLine(level, name), |DirLine(level, name)|)[start + |DirLine(level, name)| - 1] ==
            NEWLINE
  {
    assert DirLine(level, name)[|DirLine(level, name)| - 1] == NEWLINE;
  }

  /** A directory line and what the search below leaves, put together. */
  lemma LeftBelow(was: seq<byte>, start: nat, q: Query, level: nat, name: Name, kids: seq<Node>)
    requires Within(q, level + 1)
    requires start + |DirLine(level, name)| + Peak(q, level + 1, kids) <= |was|
    ensures var line, t, pk := DirLine(level, name), Text(q, level + 1, kids), Peak(q, level + 1, kids);
            Left(Left(was, start, line, |line|), start + |line|, t, pk) == Left(was, start, line + t, |line| + pk) &&
            (!AnyHit(q, level + 1, kids) ==> t == [] && line + t == line)
  {
    hide Left, DirLine;
    TextWithinPeak(q, level + 1, kids);
    LeftThenLeft(was, start, DirLine(level, name), |DirLine(level, name)|, Text(q, level + 1, kids),
                 Peak(q, level + 1, kids));
    if !AnyHit(q, level + 1, kids) { NoHitNoText(q, level + 1, kids); }
  }

  lemma {:induction false} KidsPrefix(fs: Fs, g: Shape, d: nat, n: nat, m: nat)
    requires InOrder(fs, g) && d in g.depth && n <= m <= ENTRIES
    ensures Kids(fs, g, d, n) <= Kids(fs, g, d, m)
    decreases m
  {
    hide Inv, Conventional, NodeAt, Slot, Kids;
    if n < m {
      KidsStep(fs, g, d, m - 1);
      KidsPrefix(fs, g, d, n, m - 1);
    }
  }

  /** The reach of the first entries is no more than the reach of all. */
  lemma {:induction false} PeakFits(q: Query, level: nat, fs: Fs, g: Shape, d: nat, n: nat)
    requires InOrder(fs, g) && d in g.depth && n <= ENTRIES
    ensures Peak(q, level, Kids(fs, g, d, n)) <= Peak(q, level, TreeOf(fs, g, d))
    decreases ENTRIES - n
  {
    hide Inv, Conventional, Text, Peak, NodeAt, Slot, Kids;
    if n < ENTRIES {
      KidsStep(fs, g, d, n);
      PeakFits(q, level, fs, g, d, n + 1);
      if !(n == 0 || IsBlank(Slot(fs, d, n))) {
        TextSnoc(q, level, Kids(fs, g, d, n), NodeAt(fs, g, d, n));
      }
    }
  }

  lemma SearchStart(q: Query, level: nat, was: seq<byte>, start: nat, fs: Fs, g: Shape, d: nat)
    requires InOrder(fs, g) && d in g.depth
    ensures Text(q, level, Kids(fs, g, d, 0)) == [] && Peak(q, level, Kids(fs, g, d, 0)) == 0
    ensures !AnyHit(q, level, Kids(fs, g, d, 0)) && Left(was, start, [], 0) == was
  {
    KidsStart(fs, g, d);
    LeftNothing(was, start);
  }

  ghost predicate LineStart(b: seq<byte>, at: nat)
  {
    at == 0 || (at <= |b| && b[at - 1] == NEWLINE)
  }

  /** One round of a search loop, in terms of what is left in the buffer. */
  lemma SearchStep(q: Query, level: nat, was: seq<byte>, start: nat, fs: Fs, g: Shape, d: nat, i: nat)
    requires InOrder(fs, g) && d in g.depth && i < ENTRIES && d < CLUSTER_MAP_SIZE
    requires start + Peak(q, level, TreeOf(fs, g, d)) <= |was| && LineStart(was, start)
    requires PlainNames(q, level, TreeOf(fs, g, d))
    ensures i == 0 || IsBlank(Slot(fs, d, i)) ==> Kids(fs, g, d, i + 1) == Kids(fs, g, d, i)
    ensures !(i == 0 || IsBlank(Slot(fs, d, i))) ==>
              var done, node := Kids(fs, g, d, i), NodeAt(fs, g, d, i);
              var before, b := Left(was, start, Text(q, level, done), Peak(q, level, done)), AnyHit(q, level, done);
              var at, t := start + |Text(q, level, done)|, NodeText(q, level, node, b);
              Kids(fs, g, d, i + 1) == done + [node] &&
              at + NodePeak(q, level, node) <= |was| && LineStart(before, at) &&
              at + |t| == start + |Text(q, level, Kids(fs, g, d, i + 1))| &&
              Left(before, at, t, NodePeak(q, level, node)) ==
                Left(was, start, Text(q, level, Kids(fs, g, d, i + 1)), Peak(q, level, Kids(fs, g, d, i + 1))) &&
              (AnyHit(q, level, Kids(fs, g, d, i + 1)) <==> b || Hit(q, level, node)) &&
              NodePlain(q, level, node, b)
  {
    hide Inv, Conventional, Text, Peak, NodeAt, Slot, Kids, Left, NodeText, NodePeak, Hit, AnyHit, PlainNames,
         NodePlain, CStr;
    KidsStep(fs, g, d, i);
    if !(i == 0 || IsBlank(Slot(fs, d, i))) {
      var done, node := Kids(fs, g, d, i), NodeAt(fs, g, d, i);
      PeakFits(q, level, fs, g, d, i + 1);
      TextSnoc(q, level, done, node);
      AnyHitSnoc(q, level, done, node);
      TextWithinPeak(q, level, done);
      NodeTextWithinPeak(q, level, node, AnyHit(q, level, done));
      LeftThenLeft(was, start, Text(q, level, done), Peak(q, level, done),
                   NodeText(q, level, node, AnyHit(q, level, done)), NodePeak(q, level, node));
      TextEndsLine(q, level, done);
      LeftLineStart(was, start, Text(q, level, done), Peak(q, level, done));
      KidsPrefix(fs, g, d, i + 1, ENTRIES);
      PlainKid(q, level, TreeOf(fs, g, d), done, node);
    }
  }

  lemma PlainKid(q: Query, level: nat, nodes: seq<Node>, done: seq<Node>, node: Node)
    requires PlainNames(q, level, nodes) && done + [node] <= nodes
    ensures NodePlain(q, level, node, AnyHit(q, level, done))
  {
    hide PlainNames, NodePlain, AnyHit;
    PlainAt(q, level, nodes, |done|);
    assert nodes[..|done|] == done && nodes[|done|] == node;
  }

  /** Where a node's text is the same, so is what the erasing loop asks for. */
  lemma SameNodePlain(q: Query, level: nat, node: Node, a: bool, b: bool)
    requires NodePlain(q, level, node, a) && NodeText(q, level, node, a) == NodeText(q, level, node, b)
    ensures NodePlain(q, level, node, b)
  {
  }

  // ----- the erasing loop -----

  /** Back from i to the first cell or to the cell behind the last newline before i. */
  function Retreat(b: seq<byte>, i: nat): (j: nat)
    requires i <= |b|
    ensures j <= i && (j == 0 || b[j - 1] == NEWLINE) && forall k :: j <= k < i ==> b[k] != NEWLINE
  {
    if i == 0 || b[i - 1] == NEWLINE then i else Retreat(b, i - 1)
  }

  /** A directory line goes back to its start exactly when there is no newline in the name. */
  lemma RetreatIff(b: seq<byte>, start: nat, level: nat, name: Name)
    requires LineStart(b, start) && start + |DirLine(level, name)| <= |b|
    requires b[start..start + |DirLine(level, name)|] == DirLine(level, name)
    ensures |DirLine(level, name)| > 0
    ensures Retreat(b, start + |DirLine(level, name)| - 1) == start <==> NEWLINE !in CStr(name)
  {
    var line := DirLine(level, name);
    assert forall k :: 0 <= k < |line| ==> b[start + k] == line[k];
    var j := Retreat(b, start + |line| - 1);
    if NEWLINE in CStr(name) {
      var k :| 0 <= k < |CStr(name)| && CStr(name)[k] == NEWLINE;
      assert line[3 * level + k] == NEWLINE;
      hide DirLine, CStr, Retreat;
      assert b[start + 3 * level + k] == NEWLINE;
    } else {
      DirLineBytes(level, name);
      hide DirLine, CStr, Retreat;
      forall k | start <= k < start + |line| - 1 ensures b[k] != NEWLINE { assert b[k] == line[k - start]; }
      assert j == start;
    }
  }

  lemma LeftLineStart(was: seq<byte>, start: nat, text: seq<byte>, peak: nat)
    requires |text| <= peak && start + peak <= |was| && LineStart(was, start) && EndsLine(text)
    ensures LineStart(Left(was, start, text, peak), start + |text|)
  {
  }

  lemma DirLineBytes(level: nat, name: Name)
    requires NEWLINE !in CStr(name)
    ensures |DirLine(level, name)| > 0
    ensures forall k :: 0 <= k < |DirLine(level, name)| - 1 ==> DirLine(level, name)[k] != NEWLINE
  {
  }

  /** The line of one entry in the listing, without what is below it. */
  function ListHead(level: nat, e: Entry): seq<byte>
  {
    Blanks(3 * level) + ListedName(e.name, e.ext) + ListMark(e) + [NEWLINE]
  }

  lemma ListedNameIs(e: Entry)
    ensures ListedName(e.name, e.ext) == CStr(e.name + e.ext[..1])
  {
  }

  /** What follows the name: a slash, the extension, or nothing. */
  function ListMark(e: Entry): seq<byte>
  {
    if Compare(e.ext, DIR_EXT) == 0 then [SLASH]
    else if Compare(e.ext, DIR_EXT) == 1 then [DOT] + e.ext
    else []
  }

  lemma NodeAtEntry(fs: Fs, g: Shape, d: nat, i: nat)
    requires InOrder(fs, g) && d in g.depth && 1 <= i < ENTRIES && d < CLUSTER_MAP_SIZE && !IsBlank(Slot(fs, d, i))
    ensures var e, node := Slot(fs, d, i), NodeAt(fs, g, d, i);
            if e.ext == DIR_EXT then
              e.Cluster() in g.depth && node == DirNode(e.name, TreeOf(fs, g, e.Cluster()))
            else node == FileNode(e.name, e.ext, Stored(fs, e))
  {
    hide Inv, Conventional, Slot, Stored;
    ChildIsDeeper(fs, g, d, i);
  }

  /** The node of an entry; the first entry of a directory is none. */
  ghost function NodeOrNone(fs: Fs, g: Shape, d: nat, i: nat): Node
    requires InOrder(fs, g) && d in g.depth && i < ENTRIES && d < CLUSTER_MAP_SIZE && !IsBlank(Slot(fs, d, i))
  {
    if i == 0 then DirNode(NO_NAME, []) else NodeAt(fs, g, d, i)
  }

  /** What the extension of an entry decides: nothing for the first one, its kind for all others. */
  lemma EntryFacts(fs: Fs, g: Shape, d: nat, i: nat, e: Entry)
    requires InOrder(fs, g) && d in g.depth && i < ENTRIES && d < CLUSTER_MAP_SIZE && e == Slot(fs, d, i) && !IsBlank(e)
    ensures i == 0 ==> Compare(e.ext, DIR_EXT) == -1 && Compare(e.ext, TXT_EXT) != 0
    ensures i > 0 ==>
              var node := NodeAt(fs, g, d, i);
              if e.ext == DIR_EXT then
                e.Cluster() in g.depth && node == DirNode(e.name, TreeOf(fs, g, e.Cluster()))
              else node == FileNode(e.name, e.ext, Stored(fs, e))
  {
    hide InOrder, Slot, Stored, NodeAt, Compare;
    if i == 0 {
      SkipFirst(fs, g, d, e);
    } else {
      NodeAtEntry(fs, g, d, i);
    }
  }

  lemma LineInPlace(was: seq<byte>, start: nat, line: seq<byte>, peak: nat)
    requires |line| <= peak && start + peak <= |was| && LineStart(was, start)
    ensures Left(was, start, line, peak)[start..start + |line|] == line &&
            LineStart(Left(was, start, line, peak), start)
  {
  }

  lemma KidsStart(fs: Fs, g: Shape, d: nat)
    requires InOrder(fs, g) && d in g.depth
    ensures Kids(fs, g, d, 0) == Kids(fs, g, d, 1) == []
  {
  }

  lemma ListingEmpty(level: nat)
    ensures Listing(level, []) == []
  {
  }

  lemma ListNodeParts(level: nat, node: Node, e: Entry)
    requires if e.ext == DIR_EXT then node.DirNode? && node.name == e.name
             else node.FileNode? && node.name == e.name && node.ext == e.ext
    ensures ListNode(level, node) ==
            if node.DirNode? then ListHead(level, e) + Listing(level + 1, node.kids) else ListHead(level, e)
  {
    hide Blanks, ListedName, Listing;
    CompareZero(e.ext, DIR_EXT);
  }

  lemma MaxDepthBounds(g: Shape, d: nat)
    requires d in g.depth
    ensures g.depth[d] <= MaxDepth(g.depth)
  {
  }

  /** One round of the listing loop, in terms of what is left in the buffer. */
  lemma ListStep(was: seq<byte>, start: nat, level: nat, fs: Fs, g: Shape, d: nat, i: nat)
    requires InOrder(fs, g) && d in g.depth && 1 <= i < ENTRIES && d < CLUSTER_MAP_SIZE
    requires start + |Listing(level, TreeOf(fs, g, d))| <= |was|
    ensures IsBlank(Slot(fs, d, i)) ==> Kids(fs, g, d, i + 1) == Kids(fs, g, d, i)
    ensures !IsBlank(Slot(fs, d, i)) ==>
              var a, b := Listing(level, Kids(fs, g, d, i)), ListNode(level, NodeAt(fs, g, d, i));
              Listing(level, Kids(fs, g, d, i + 1)) == a + b && start + |a| + |b| <= |was| &&
              Left(Left(was, start, a, |a|), start + |a|, b, |b|) == Left(was, start, a + b, |a + b|)
  {
    hide Inv, Conventional, Listing, ListNode, NodeAt, Slot, Kids, Left;
    KidsStep(fs, g, d, i);
    ListingFits(level, fs, g, d, i + 1);
    if !IsBlank(Slot(fs, d, i)) {
      ListingSnoc(level, Kids(fs, g, d, i), NodeAt(fs, g, d, i));
      LeftAppended(was, start, Listing(level, Kids(fs, g, d, i)), ListNode(level, NodeAt(fs, g, d, i)));
    }
  }

  /** The listing of the first entries is no longer than the listing of all. */
  lemma {:induction false} ListingFits(level: nat, fs: Fs, g: Shape, d: nat, n: nat)
    requires InOrder(fs, g) && d in g.depth && n <= ENTRIES
    ensures |Listing(level, Kids(fs, g, d, n))| <= |Listing(level, TreeOf(fs, g, d))|
    decreases ENTRIES - n
  {
    hide Inv, Conventional, Listing, ListNode, NodeAt, Slot, Kids;
    if n < ENTRIES {
      KidsStep(fs, g, d, n);
      ListingFits(level, fs, g, d, n + 1);
      if !(n == 0 || IsBlank(Slot(fs, d, n))) {
        ListingSnoc(level, Kids(fs, g, d, n), NodeAt(fs, g, d, n));
      }
    }
  }

  /** strcmp and strncpy of the name search see only the first seven bytes of a name. */
  lemma ShortenedIs(name: Name, copy: seq<byte>)
    requires |copy| == 9 && copy[7] == NUL
    requires forall k :: 0 <= k < 7 && k <= |CStr(name)| ==> copy[k] == name[k]
    ensures CStr(copy) == Shortened(name)
  {
    var t := Shortened(name);
    assert t == CStr(name)[..|t|] by { ShorterPrefix(name); }
    assert t <= copy;
    assert copy[|t|] == NUL by { ShorterPrefix(name); }
    CStrUnique(copy, t);
  }

  lemma ShorterPrefix(name: Name)
    ensures Shortened(name) <= CStr(name) && |Shortened(name)| <= 7
    ensures |Shortened(name)| < 7 ==> |CStr(name)| == |Shortened(name)|
  {
    var t := Shortened(name);
    assert t <= name[..7] <= name;
    if |t| < 7 {
      assert name[|t|] == name[..7][|t|] == NUL;
      CStrUnique(name, t);
    } else {
      forall k | 0 <= k < 7 ensures name[k] != NUL { assert name[k] == t[k] && t[k] in t; }
    }
  }

  lemma {:induction false} CStrAfter(s: seq<byte>, i: nat)
    requires i <= |s| && NUL !in s[..i]
    ensures CStr(s) == s[..i] + CStr(s[i..])
  {
    hide CStr;
    if i == 0 {
      assert s[0..] == s && s[..0] == [];
    } else {
      FirstThenRest(s, i);
      CStrFirst(s);
      CStrAfter(s[1..], i - 1);
      JoinedFirst(s[0], s[1..][..i - 1], CStr(s[i..]));
    }
  }

  lemma CStrFirst(s: seq<byte>)
    requires s != [] && s[0] != NUL
    ensures CStr(s) == [s[0]] + CStr(s[1..])
  {
  }

  lemma FirstThenRest(s: seq<byte>, i: nat)
    requires 0 < i <= |s| && NUL !in s[..i]
    ensures s[..i] == [s[0]] + s[1..][..i - 1] && s[1..][i - 1..] == s[i..]
    ensures s[0] != NUL && NUL !in s[1..][..i - 1]
  {
    assert s[..i][0] == s[0];
    assert forall b :: b in s[1..][..i - 1] ==> b in s[..i];
  }

  lemma JoinedFirst(first: byte, middle: seq<byte>, last: seq<byte>)
    ensures [first] + (middle + last) == ([first] + middle) + last
  {
  }

  /** A buffer after clear_buffer. */
  function Cleared(b: seq<byte>, size: nat): (c: seq<byte>)
    ensures |c| == |b|
  {
    seq(|b|, k requires 0 <= k < |b| => if k < size then NUL else b[k])
  }

  /** What a search from the first cell of a cleared buffer leaves in it. */
  ghost function Answer(q: Query, nodes: seq<Node>, was: seq<byte>, size: nat): seq<byte>
  {
    Left(Cleared(was, size), 0, Text(q, 0, nodes), Peak(q, 0, nodes))
  }

  /**
   The text of the query, only blank cells behind it up to the end of the cleared region, and the old
   cells behind both that region and the reach of the search.
   */
  lemma AnswerShape(q: Query, nodes: seq<Node>, was: seq<byte>, size: nat)
    requires Peak(q, 0, nodes) <= |was|
    ensures |Text(q, 0, nodes)| <= |was|
    ensures Text(q, 0, nodes) <= Answer(q, nodes, was, size)
    ensures forall k :: |Text(q, 0, nodes)| <= k < size && k < |was| ==> Answer(q, nodes, was, size)[k] == 0
    ensures forall k :: size <= k < |was| && Peak(q, 0, nodes) <= k ==> Answer(q, nodes, was, size)[k] == was[k]
  {
    hide Text, Peak;
    TextWithinPeak(q, 0, nodes);
  }

  /** For every tree and every non-empty pattern the two engines leave the same bytes. */
  lemma SearchesLeaveSameBytes(pattern: seq<byte>, nodes: seq<Node>, was: seq<byte>)
    requires CStr(pattern) != []
    ensures Answer(TextQuery(BoyerMooreEngine, CStr(pattern), 10), nodes, was, 1024) ==
            Answer(TextQuery(KmpEngine, CStr(pattern), 10), nodes, was, 1024)
  {
    EnginesAgree(TextQuery(BoyerMooreEngine, CStr(pattern), 10), 0, nodes);
  }
}
