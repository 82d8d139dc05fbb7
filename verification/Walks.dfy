/**
 The tree walks of src/fat32.c on the disk: one shared output buffer, one shared index, level and
 found flag. Directory lines are printed first and taken back when nothing was found below.
 */
module Walks {
  import opened Bytes
  import opened Layout
  import opened Matching
  import opened Store
  import opened Invariant
  import opened Trees
  import opened DiskTree
  import opened Driver
  import opened Buffers
  import Outline

  class Walker {
    const driver: FatDriver
    const buffer: array<byte>
    var idx: nat
    var level: nat
    var found: bool

    /** The walker looks at a driver whose store is fs, with shape g, and prints elsewhere. */
    ghost predicate On(fs: Fs, g: Shape)
      reads driver, driver.disk, driver.fat
    {
      driver.Valid() && driver.State() == fs && driver.shape == g && Conventional(fs, g) && Apart()
    }

    /** The output buffer is no part of the driver. */
    ghost predicate Apart()
    {
      buffer as object != driver.disk as object && buffer as object != driver.fat as object &&
      buffer as object != driver as object && this as object != driver as object &&
      this as object != driver.disk as object && this as object != driver.fat as object
    }

    /** print, print_path_to_dir and the two searches all start from the first cell and level 0. */
    constructor (driver: FatDriver, buffer: array<byte>)
      ensures this.driver == driver && this.buffer == buffer && idx == 0 && level == 0 && !found
    {
      this.driver, this.buffer := driver, buffer;
      idx, level, found := 0, 0, false;
    }

    // ----- printing -----

    method PutByte(b: byte)
      requires idx < buffer.Length
      modifies this`idx, buffer
      ensures idx == old(idx) + 1
      ensures buffer[..] == Left(old(buffer[..]), old(idx), [b], 1)
    {
      buffer[idx] := b;
      idx := idx + 1;
    }

    method PutIndent()
      requires idx + 3 * level <= buffer.Length
      modifies this`idx, buffer
      ensures idx == old(idx) + 3 * level
      ensures buffer[..] == Left(old(buffer[..]), old(idx), Blanks(3 * level), 3 * level)
    {
      ghost var was, start := buffer[..], idx;
      for j := 0 to level
        invariant idx == start + 3 * j
        invariant buffer[..] == Left(was, start, Blanks(3 * j), 3 * j)
      {
        buffer[idx] := SPACE;
        idx := idx + 1;
        buffer[idx] := SPACE;
        idx := idx + 1;
        buffer[idx] := SPACE;
        idx := idx + 1;
        assert Blanks(3 * j + 3) == Blanks(3 * j) + [SPACE, SPACE, SPACE];
      }
    }

    /** The loops that copy a name, an extension or a file up to its first NUL. */
    method PutText(s: seq<byte>)
      requires idx + |CStr(s)| <= buffer.Length
      modifies this`idx, buffer
      ensures idx == old(idx) + |CStr(s)|
      ensures buffer[..] == Left(old(buffer[..]), old(idx), CStr(s), |CStr(s)|)
    {
      ghost var was, start := buffer[..], idx;
      ghost var c := CStr(s);
      var j := 0;
      while j < |s| && s[j] != NUL
        invariant j <= |c| && idx == start + j
        invariant buffer[..] == Left(was, start, c[..j], j)
      {
        assert j < |c| && c[j] == s[j];
        buffer[idx] := s[j];
        idx := idx + 1;
        j := j + 1;
      }
      assert j == |c| && c[..j] == c;
    }

    /** The indentation and a name up to its first NUL. */
    method PutLabel(s: seq<byte>)
      requires idx + 3 * level + |CStr(s)| <= buffer.Length
      modifies this`idx, buffer
      ensures idx == old(idx) + 3 * level + |CStr(s)|
      ensures buffer[..] == Left(old(buffer[..]), old(idx), Blanks(3 * level) + CStr(s), 3 * level + |CStr(s)|)
    {
      hide Left, CStr, Blanks;
      LeftAppended(buffer[..], idx, Blanks(3 * level), CStr(s));
      PutIndent();
      PutText(s);
    }

    method PutSlashAndNewline()
      requires idx + 2 <= buffer.Length
      modifies this`idx, buffer
      ensures idx == old(idx) + 2
      ensures buffer[..] == Left(old(buffer[..]), old(idx), [SLASH, NEWLINE], 2)
    {
      buffer[idx] := SLASH;
      idx := idx + 1;
      buffer[idx] := NEWLINE;
      idx := idx + 1;
    }

    method PutDirLine(name: Name)
      requires idx + |DirLine(level, name)| <= buffer.Length
      modifies this`idx, buffer
      ensures idx == old(idx) + |DirLine(level, name)|
      ensures buffer[..] == Left(old(buffer[..]), old(idx), DirLine(level, name), |DirLine(level, name)|)
    {
      hide Left, CStr, Blanks;
      LeftAppended(buffer[..], idx, Blanks(3 * level) + CStr(name), [SLASH, NEWLINE]);
      PutLabel(name);
      PutSlashAndNewline();
    }

    /** The line goes back to the last newline before it, byte by byte. */
    method EraseLine()
      requires 0 < idx <= buffer.Length
      modifies this`idx, buffer
      ensures idx == Retreat(old(buffer[..]), old(idx) - 1)
      ensures forall k :: 0 <= k < buffer.Length ==>
                buffer[k] == if idx <= k < old(idx) then NUL else old(buffer[k])
    {
      ghost var was, end := buffer[..], idx;
      assert forall k :: 0 <= k < buffer.Length ==> was[k] == old(buffer[k]);
      idx := idx - 1;
      buffer[idx] := NUL;
      while idx > 0 && buffer[idx - 1] != NEWLINE
        invariant idx < end && Retreat(was, idx) == Retreat(was, end - 1)
        invariant forall k :: 0 <= k < buffer.Length ==> buffer[k] == if idx <= k < end then NUL else was[k]
      {
        idx := idx - 1;
        buffer[idx] := NUL;
      }
    }

    method ClearBuffer(size: nat)
      requires size <= buffer.Length
      modifies buffer
      ensures forall k :: 0 <= k < buffer.Length ==> buffer[k] == if k < size then NUL else old(buffer[k])
    {
      for i := 0 to size
        invariant forall k :: 0 <= k < buffer.Length ==> buffer[k] == if k < i then NUL else old(buffer[k])
      {
        buffer[i] := NUL;
      }
    }

    // ----- the full listing -----

    method PutListLine(e: Entry)
      requires idx + |ListHead(level, e)| <= buffer.Length
      modifies this`idx, buffer
      ensures idx == old(idx) + |ListHead(level, e)|
      ensures buffer[..] == Left(old(buffer[..]), old(idx), ListHead(level, e), |ListHead(level, e)|)
    {
      hide Left, CStr, Blanks, Compare, ListedName, ListMark;
      LeftThree(buffer[..], idx, Blanks(3 * level) + ListedName(e.name, e.ext), ListMark(e), [NEWLINE]);
      assert ListedName(e.name, e.ext) == CStr(e.name + e.ext[..1]) by { ListedNameIs(e); }
      PutLabel(e.name + e.ext[..1]);
      PutMark(e);
      PutByte(NEWLINE);
    }

    method PutMark(e: Entry)
      requires idx + |ListMark(e)| <= buffer.Length
      modifies this`idx, buffer
      ensures idx == old(idx) + |ListMark(e)|
      ensures buffer[..] == Left(old(buffer[..]), old(idx), ListMark(e), |ListMark(e)|)
    {
      LeftNothing(buffer[..], idx);
      hide Left, Compare;
      var order := MemCmp(e.ext, DIR_EXT);
      if order == 0 {
        PutByte(SLASH);
      } else if order == 1 {
        PutDotAndExt(e.ext);
      }
    }

    method PutDotAndExt(ext: Ext)
      requires idx + 4 <= buffer.Length
      modifies this`idx, buffer
      ensures idx == old(idx) + 4
      ensures buffer[..] == Left(old(buffer[..]), old(idx), [DOT] + ext, 4)
    {
      buffer[idx] := DOT;
      idx := idx + 1;
      buffer[idx] := ext[0];
      idx := idx + 1;
      buffer[idx] := ext[1];
      idx := idx + 1;
      buffer[idx] := ext[2];
      idx := idx + 1;
    }

    method ReadTable(d: ClusterNo, ghost fs: Fs, ghost g: Shape) returns (table: Table)
      requires On(fs, g)
      ensures table == Tab(fs, d)
      ensures buffer[..] == old(buffer[..]) && idx == old(idx) && level == old(level) && found == old(found)
    {
      table := DecodeTable(driver.disk[d]);
    }

    /** The listing of a directory of a store in order: its tree, in pre-order. */
    method AllListDirContent(d: ClusterNo, ghost fs: Fs, ghost g: Shape)
      requires On(fs, g) && InOrder(fs, g) && d in g.depth
      requires idx + |Listing(level, TreeOf(fs, g, d))| <= buffer.Length
      modifies this`idx, this`level, buffer
      ensures On(fs, g) && level == old(level)
      ensures idx == old(idx) + |Listing(level, TreeOf(fs, g, d))|
      ensures buffer[..] == Left(old(buffer[..]), old(idx), Listing(level, TreeOf(fs, g, d)),
                                 |Listing(level, TreeOf(fs, g, d))|)
      decreases MaxDepth(g.depth) - g.depth[d], 1
    {
      hide On, InOrder, Tab, IsBlank, Inv, Conventional, Left, DecodeTable, Listing, ListNode, Kids, NodeAt, ListHead;
      var table := ReadTable(d, fs, g);
      ghost var was, start := buffer[..], idx;
      LeftNothing(was, start);
      KidsStart(fs, g, d);
      ListingEmpty(level);
      ghost var text := Listing(level, Kids(fs, g, d, 1));
      for i := 1 to ENTRIES
        invariant On(fs, g) && level == old(level)
        invariant text == Listing(level, Kids(fs, g, d, i)) && idx == start + |text|
        invariant buffer[..] == Left(was, start, text, |text|)
      {
        ListStep(was, start, level, fs, g, d, i);
        var e := table[i];
        if !IsBlank(e) {
          text := text + ListNode(level, NodeAt(fs, g, d, i));
          ListEntry(d, i, e, fs, g);
        }
      }
    }

    /** One entry of the listing: its line, and the listing below it. */
    method ListEntry(ghost d: ClusterNo, ghost i: nat, e: Entry, ghost fs: Fs, ghost g: Shape)
      requires On(fs, g) && InOrder(fs, g) && d in g.depth && 1 <= i < ENTRIES && e == Slot(fs, d, i) && !IsBlank(e)
      requires idx + |ListNode(level, NodeAt(fs, g, d, i))| <= buffer.Length
      modifies this`idx, this`level, buffer
      ensures On(fs, g) && level == old(level)
      ensures idx == old(idx) + |ListNode(level, NodeAt(fs, g, d, i))|
      ensures buffer[..] == Left(old(buffer[..]), old(idx), ListNode(level, NodeAt(fs, g, d, i)),
                                 |ListNode(level, NodeAt(fs, g, d, i))|)
      decreases MaxDepth(g.depth) - g.depth[d], 0
    {
      hide Inv, Conventional, Left, DecodeTable, Listing, ListNode, Kids, NodeAt, ListHead, TreeOf, Slot;
      NodeAtEntry(fs, g, d, i);
      ListNodeParts(level, NodeAt(fs, g, d, i), e);
      ghost var was, start := buffer[..], idx;
      PutListLine(e);
      if e.ext == DIR_EXT {
        ChildIsDeeper(fs, g, d, i);
        MaxDepthBounds(g, e.Cluster());
        DirBound(fs, g, e.Cluster());
        level := level + 1;
        AllListDirContent(e.Cluster(), fs, g);
        level := level - 1;
        LeftAppended(was, start, ListHead(level, e), Listing(level + 1, TreeOf(fs, g, e.Cluster())));
      }
    }

    // ----- one line of a search -----

    method PutDotText(s: seq<byte>)
      requires idx + 1 + |CStr(s)| <= buffer.Length
      modifies this`idx, buffer
      ensures idx == old(idx) + 1 + |CStr(s)|
      ensures buffer[..] == Left(old(buffer[..]), old(idx), [DOT] + CStr(s), 1 + |CStr(s)|)
    {
      hide Left, CStr;
      LeftAppended(buffer[..], idx, [DOT], CStr(s));
      PutByte(DOT);
      PutText(s);
    }

    method PutContent(s: seq<byte>)
      requires idx + 2 + |CStr(s)| <= buffer.Length
      modifies this`idx, buffer
      ensures idx == old(idx) + 2 + |CStr(s)|
      ensures buffer[..] == Left(old(buffer[..]), old(idx), [SPACE] + CStr(s) + [NEWLINE], 2 + |CStr(s)|)
    {
      hide Left, CStr;
      LeftThree(buffer[..], idx, [SPACE], CStr(s), [NEWLINE]);
      PutByte(SPACE);
      PutText(s);
      PutByte(NEWLINE);
    }

    /** Name, extension and text of a file that holds the pattern. */
    method PutTextFileLine(name: Name, ext: Ext, content: seq<byte>, ghost q: Query)
      requires q.TextQuery? && idx + |FileLine(q, level, FileNode(name, ext, content))| <= buffer.Length
      modifies this`idx, buffer
      ensures idx == old(idx) + |FileLine(q, level, FileNode(name, ext, content))|
      ensures buffer[..] == Left(old(buffer[..]), old(idx), FileLine(q, level, FileNode(name, ext, content)),
                                 |FileLine(q, level, FileNode(name, ext, content))|)
    {
      hide Left, CStr, Blanks;
      ghost var a, b, c := Blanks(3 * level) + CStr(name), [DOT] + CStr(ext), [SPACE] + CStr(content) + [NEWLINE];
      assert FileLine(q, level, FileNode(name, ext, content)) == a + b + c;
      LeftThree(buffer[..], idx, a, b, c);
      PutLabel(name);
      PutDotText(ext);
      PutContent(content);
    }

    /** Name and extension of a file with the wanted name. */
    method PutNamedFileLine(name: Name, ext: Ext, ghost q: Query, ghost content: seq<byte>)
      requires q.NameQuery? && idx + |FileLine(q, level, FileNode(name, ext, content))| <= buffer.Length
      modifies this`idx, buffer
      ensures idx == old(idx) + |FileLine(q, level, FileNode(name, ext, content))|
      ensures buffer[..] == Left(old(buffer[..]), old(idx), FileLine(q, level, FileNode(name, ext, content)),
                                 |FileLine(q, level, FileNode(name, ext, content))|)
    {
      hide Left, CStr, Blanks;
      ghost var a, b := Blanks(3 * level) + CStr(name), [DOT] + ext;
      assert FileLine(q, level, FileNode(name, ext, content)) == a + b + [NEWLINE];
      LeftThree(buffer[..], idx, a, b, [NEWLINE]);
      PutLabel(name);
      PutDotAndExt(ext);
      PutByte(NEWLINE);
    }

    /** A directory line is taken back: the text is gone, the cells behind it stay blank. */
    method TakeBack(ghost was: seq<byte>, ghost start: nat, ghost name: Name, ghost peak: nat)
      requires NEWLINE !in CStr(name) && |was| == buffer.Length && start + peak <= |was|
      requires peak >= |DirLine(level, name)| && idx == start + |DirLine(level, name)|
      requires buffer[..] == Left(was, start, DirLine(level, name), peak)
      requires LineStart(was, start)
      modifies this`idx, buffer
      ensures idx == start && buffer[..] == Left(was, start, [], peak)
    {
      ghost var line := DirLine(level, name);
      LineInPlace(was, start, line, peak);
      RetreatIff(buffer[..], start, level, name);
      hide DirLine, CStr, Retreat;
      EraseLine();
      LeftErased(was, start, line, peak, buffer[..]);
    }

    /** After the search below a directory: its line stays if something was found, or goes. */
    method SettleDir(ghost was: seq<byte>, ghost start: nat, ghost q: Query, ghost node: Node, ghost foundBefore: bool)
      requires node.DirNode? && !DirShown(q, node.name)
      requires NodeText(q, level, node, foundBefore) == [] ==> NEWLINE !in CStr(node.name)
      requires |was| == buffer.Length && LineStart(was, start) && start + NodePeak(q, level, node) <= |was|
      requires BelowDone(was, start, q, level, node, foundBefore, buffer[..], idx, found)
      modifies this`idx, buffer
      ensures idx == start + |NodeText(q, level, node, foundBefore)|
      ensures buffer[..] == Left(was, start, NodeText(q, level, node, foundBefore), NodePeak(q, level, node))
    {
      hide Left, DirLine, CStr, Text, Peak, AnyHit, NodeText, NodePeak, Hit, BelowDone, BelowText, DirShown;
      BelowLeft(was, start, q, level, node, foundBefore, buffer[..], idx, found);
      if !found {
        TakeBack(was, start, node.name, NodePeak(q, level, node));
      }
    }

    /** The directory line goes out before anything is known about what is below. */
    method OpenDir(ghost fs: Fs, ghost g: Shape, ghost q: Query, name: Name, ghost node: Node)
      requires On(fs, g) && node.DirNode? && node.name == name && !DirShown(q, name)
      requires idx + NodePeak(q, level, node) <= buffer.Length
      modifies this`idx, this`level, buffer
      ensures On(fs, g) && LineStart(buffer[..], idx)
      ensures level == old(level) + 1 && idx == old(idx) + |DirLine(old(level), name)|
      ensures buffer[..] == Left(old(buffer[..]), old(idx), DirLine(old(level), name), |DirLine(old(level), name)|)
      ensures Within(q, level) ==> idx + Peak(q, level, node.kids) <= buffer.Length
    {
      hide On, Left, DirLine, NodePeak, Peak, Text, AnyHit, Hit, NodeText, DirShown, Within;
      ApartOf(fs, g);
      DirNodeParts(q, level, node, false);
      LeftNewline(buffer[..], idx, level, name);
      PutDirLine(name);
      level := level + 1;
    }

    // ----- the search for a text -----

    method EngineFinds(engine: Engine, pattern: seq<byte>, content: seq<byte>) returns (b: bool)
      ensures b <==> Accepts(engine, CStr(pattern), CStr(content))
    {
      match engine
      case BoyerMooreEngine =>
        b := BoyerMoore(pattern, content);
      case KmpEngine =>
        ghost var m, n;
        b, m, n := KnuthMorrisPratt(pattern, content);
    }

    /** A .txt file is read through the driver, by its own key. */
    method ReadTextFile(d: ClusterNo, i: nat, e: Entry, ghost fs: Fs, ghost g: Shape)
      returns (code: int, content: seq<byte>)
      requires On(fs, g) && InOrder(fs, g) && d in g.depth && 1 <= i < ENTRIES && e == Slot(fs, d, i)
      requires !IsBlank(e) && e.ext == TXT_EXT
      modifies driver`dirTable
      ensures On(fs, g) && code == 0 && content == Stored(fs, e)
      ensures buffer[..] == old(buffer[..])
    {
      hide Inv, Conventional, DecodeTable, Slot, ReadCode, ReadData, Stored, InOrder, IsBlank;
      OwnKeyIsRead(fs, g, d, i);
      code, content := driver.Read(Request(e.name, e.ext, d, e.filesize));
    }

    /** A directory: its line, the search below it, and the line taken back when nothing was found. */
    method SearchTextDir(name: Name, c: ClusterNo, engine: Engine, pattern: seq<byte>, limit: nat, local: bool,
                         ghost fs: Fs, ghost g: Shape, ghost q: Query, ghost node: Node)
      returns (local': bool)
      requires On(fs, g) && InOrder(fs, g) && c in g.depth && node == DirNode(name, TreeOf(fs, g, c))
      requires q == TextQuery(engine, CStr(pattern), limit) && level <= limit
      requires idx + NodePeak(q, level, node) <= buffer.Length && LineStart(buffer[..], idx)
      requires NodePlain(q, level, node, found)
      modifies this`idx, this`level, this`found, buffer, driver`dirTable
      ensures On(fs, g) && level == old(level)
      ensures idx == old(idx) + |NodeText(q, level, node, old(found))|
      ensures buffer[..] == Left(old(buffer[..]), old(idx), NodeText(q, level, node, old(found)),
                                 NodePeak(q, level, node))
      ensures Collected(q, level, node, old(found), local, found, local')
      decreases Height(g, c), 2
    {
      hide On, InOrder, TreeOf, Left, DirLine, CStr, PlainNames, NodeText, NodePeak, Hit, Peak, Within, DirShown,
           LineStart, BelowDone, Searched, Collected, MaxDepth, Height;
      ghost var was, start := buffer[..], idx;
      NoDirShown(q, name);
      OpenDir(fs, g, q, name, node);
      ghost var b, at := buffer[..], idx;
      local' := local || found;
      DepthLimitedSearch(c, engine, pattern, limit, fs, g, q);
      level := level - 1;
      MakeBelowDone(was, start, q, level, node, old(found), b, at, buffer[..], idx, found);
      CollectDir(q, level, node, old(found), local, found, b, at, buffer[..], idx);
      SettleDir(was, start, q, node, old(found));
    }

    /** One entry of the depth-limited search. local collects hits that a later child call wipes out. */
    method SearchTextEntry(d: ClusterNo, i: nat, e: Entry, engine: Engine, pattern: seq<byte>, limit: nat, local: bool,
                           ghost fs: Fs, ghost g: Shape, ghost q: Query, ghost node: Node)
      returns (local': bool)
      requires On(fs, g) && InOrder(fs, g) && d in g.depth && i < ENTRIES && e == Slot(fs, d, i) && !IsBlank(e)
      requires q == TextQuery(engine, CStr(pattern), limit) && level <= limit && (i > 0 ==> node == NodeAt(fs, g, d, i))
      requires i > 0 ==> idx + NodePeak(q, level, node) <= buffer.Length && LineStart(buffer[..], idx)
      requires i > 0 ==> NodePlain(q, level, node, found)
      modifies this`idx, this`level, this`found, buffer, driver`dirTable
      ensures On(fs, g) && level == old(level)
      ensures i == 0 ==> idx == old(idx) && buffer[..] == old(buffer[..]) && found == old(found) && local' == local
      ensures i > 0 ==>
                idx == old(idx) + |NodeText(q, level, node, old(found))| &&
                buffer[..] == Left(old(buffer[..]), old(idx), NodeText(q, level, node, old(found)),
                                 NodePeak(q, level, node)) &&
                Collected(q, level, node, old(found), local, found, local')
      decreases Height(g, d), 0
    {
      hide On, Inv, InOrder, Conventional, Left, Kids, NodeAt, TreeOf, Slot, Stored, DirLine, FileLine, Accepts, CStr,
           Text, Peak, AnyHit, PlainNames, NodePlain, IsBlank, Compare, LineStart, MaxDepth;
      local' := local;
      EntryFacts(fs, g, d, i, e);
      var order := MemCmp(e.ext, DIR_EXT);
      var txtOrder := MemCmp(e.ext, TXT_EXT);
      if order == 0 {
        ChildIsDeeper(fs, g, d, i);
        DirBound(fs, g, e.Cluster());
        HeightBelow(g, d, e.Cluster());
        local' := SearchTextDir(e.name, e.Cluster(), engine, pattern, limit, local, fs, g, q, node);
      } else if txtOrder == 0 {
        SearchTextFile(d, i, e, engine, pattern, fs, g, q, node);
      } else {
        LeftNothing(buffer[..], idx);
      }
    }

    /** A .txt file: printed with its text when the engine finds the pattern in it. */
    method SearchTextFile(d: ClusterNo, i: nat, e: Entry, engine: Engine, pattern: seq<byte>,
                          ghost fs: Fs, ghost g: Shape, ghost q: Query, ghost node: Node)
      requires On(fs, g) && InOrder(fs, g) && d in g.depth && 1 <= i < ENTRIES && e == Slot(fs, d, i) && !IsBlank(e)
      requires q.TextQuery? && q.engine == engine && q.pattern == CStr(pattern)
      requires e.ext == TXT_EXT && node == FileNode(e.name, e.ext, Stored(fs, e))
      requires idx + NodePeak(q, level, node) <= buffer.Length
      modifies this`idx, this`found, buffer, driver`dirTable
      ensures On(fs, g)
      ensures idx == old(idx) + |NodeText(q, level, node, old(found))|
      ensures buffer[..] == Left(old(buffer[..]), old(idx), NodeText(q, level, node, old(found)),
                                 NodePeak(q, level, node))
      ensures found <==> old(found) || Hit(q, level, node)
    {
      hide On, InOrder, Left, Slot, Stored, FileLine, Accepts, CStr;
      ApartOf(fs, g);
      var code, content := ReadTextFile(d, i, e, fs, g);
      LeftNothing(buffer[..], idx);
      if code == 0 {
        var matched := EngineFinds(engine, pattern, content);
        if matched {
          PutTextFileLine(e.name, e.ext, content, q);
          found := true;
        }
      }
    }

    /** The depth-limited search, with either engine: it leaves the text of the query for the tree. */
    method DepthLimitedSearch(d: ClusterNo, engine: Engine, pattern: seq<byte>, limit: nat,
                              ghost fs: Fs, ghost g: Shape, ghost q: Query)
      requires On(fs, g) && InOrder(fs, g) && d in g.depth
      requires q == TextQuery(engine, CStr(pattern), limit)
      requires Within(q, level) ==> idx + Peak(q, level, TreeOf(fs, g, d)) <= buffer.Length
      requires Within(q, level) ==> PlainNames(q, level, TreeOf(fs, g, d))
      requires LineStart(buffer[..], idx)
      modifies this`idx, this`level, this`found, buffer, driver`dirTable
      ensures On(fs, g) && level == old(level)
      ensures Searched(q, level, TreeOf(fs, g, d), old(buffer[..]), old(idx), old(found), buffer[..], idx, found)
      decreases Height(g, d), 1
    {
      hide On, InOrder, Tab, IsBlank, Inv, Conventional, Left, DecodeTable, Kids, NodeAt, Hit, AnyHit, Text, Peak,
           NodeText, NodePeak, PlainNames;
      if level > limit {
        return;
      }
      var table := ReadTable(d, fs, g);
      ghost var was, start := buffer[..], idx;
      SearchStart(q, level, was, start, fs, g, d);
      found := false;
      var local := false;
      ghost var done := Kids(fs, g, d, 0);
      for i := 0 to ENTRIES
        invariant On(fs, g) && level == old(level)
        invariant done == Kids(fs, g, d, i)
        invariant idx == start + |Text(q, level, done)|
        invariant buffer[..] == Left(was, start, Text(q, level, done), Peak(q, level, done))
        invariant found || local <==> AnyHit(q, level, done)
        invariant !Within(q, level + 1) ==> (found <==> AnyHit(q, level, done))
      {
        SearchStep(q, level, was, start, fs, g, d, i);
        var e := table[i];
        if !IsBlank(e) {
          ghost var node := NodeOrNone(fs, g, d, i);
          if i > 0 {
            SameNodeText(q, level, node, found, AnyHit(q, level, done));
            SameNodePlain(q, level, node, AnyHit(q, level, done), found);
          }
          local := SearchTextEntry(d, i, e, engine, pattern, limit, local, fs, g, q, node);
        }
        done := Kids(fs, g, d, i + 1);
      }
      if local {
        found := true;
      }
    }

    // ----- the search for a name -----

    /** custom_strncpy(name, entry.name, 8) into nine bytes, then name[8] = 0. */
    method ShortName(name: Name) returns (copy: seq<byte>)
      ensures CStr(copy) == Shortened(name)
    {
      var dest := new byte[9];
      var i := 0;
      while i < 8
        invariant i <= 8 && i <= |CStr(name)|
        invariant forall k :: 0 <= k < i ==> dest[k] == name[k]
      {
        dest[i] := name[i];
        if name[i] == NUL {
          break;
        }
        i := i + 1;
      }
      dest[7] := NUL;
      dest[8] := NUL;
      copy := dest[..];
      ShortenedIs(name, copy);
    }

    /** custom_strcmp; the end of a buffer counts as a NUL. */
    method StrCmp(s1: seq<byte>, s2: seq<byte>) returns (difference: int)
      ensures difference == 0 <==> CStr(s1) == CStr(s2)
    {
      var i := 0;
      while i < |s1| && s1[i] != NUL && i < |s2| && s1[i] == s2[i]
        invariant i <= |s1| && i <= |s2| && s1[..i] == s2[..i] && NUL !in s1[..i]
      {
        i := i + 1;
      }
      CStrAfter(s1, i);
      CStrAfter(s2, i);
      var a := if i < |s1| then s1[i] else NUL;
      var b := if i < |s2| then s2[i] else NUL;
      difference := a as int - b as int;
    }

    /** A directory without the wanted name: line, search below, line taken back if nothing was there. */
    method FindInDir(name: Name, c: ClusterNo, target: seq<byte>, local: bool,
                     ghost fs: Fs, ghost g: Shape, ghost q: Query, ghost node: Node)
      returns (local': bool)
      requires On(fs, g) && InOrder(fs, g) && c in g.depth && node == DirNode(name, TreeOf(fs, g, c))
      requires q == NameQuery(CStr(target)) && !DirShown(q, name)
      requires idx + NodePeak(q, level, node) <= buffer.Length && LineStart(buffer[..], idx)
      requires NodePlain(q, level, node, found)
      modifies this`idx, this`level, this`found, buffer
      ensures On(fs, g) && level == old(level)
      ensures idx == old(idx) + |NodeText(q, level, node, old(found))|
      ensures buffer[..] == Left(old(buffer[..]), old(idx), NodeText(q, level, node, old(found)),
                                 NodePeak(q, level, node))
      ensures Collected(q, level, node, old(found), local, found, local')
      decreases Height(g, c), 2
    {
      hide On, InOrder, TreeOf, Left, DirLine, CStr, PlainNames, NodeText, NodePeak, Hit, Peak, Within, DirShown,
           LineStart, BelowDone, Searched, Collected, MaxDepth, Height;
      ghost var was, start := buffer[..], idx;
      OpenDir(fs, g, q, name, node);
      ghost var b, at := buffer[..], idx;
      local' := local || found;
      FindAndPrintPath(c, target, fs, g, q);
      level := level - 1;
      MakeBelowDone(was, start, q, level, node, old(found), b, at, buffer[..], idx, found);
      CollectDir(q, level, node, old(found), local, found, b, at, buffer[..], idx);
      SettleDir(was, start, q, node, old(found));
    }

    /** One entry of the name search. */
    method FindEntry(d: ClusterNo, i: nat, e: Entry, target: seq<byte>, local: bool,
                     ghost fs: Fs, ghost g: Shape, ghost q: Query, ghost node: Node)
      returns (local': bool)
      requires On(fs, g) && InOrder(fs, g) && d in g.depth && i < ENTRIES && e == Slot(fs, d, i) && !IsBlank(e)
      requires q == NameQuery(CStr(target)) && (i > 0 ==> node == NodeAt(fs, g, d, i))
      requires i > 0 ==> idx + NodePeak(q, level, node) <= buffer.Length && LineStart(buffer[..], idx)
      requires i > 0 ==> NodePlain(q, level, node, found)
      modifies this`idx, this`level, this`found, buffer
      ensures On(fs, g) && level == old(level)
      ensures i == 0 ==> idx == old(idx) && buffer[..] == old(buffer[..]) && found == old(found) && local' == local
      ensures i > 0 ==>
                idx == old(idx) + |NodeText(q, level, node, old(found))| &&
                buffer[..] == Left(old(buffer[..]), old(idx), NodeText(q, level, node, old(found)),
                                 NodePeak(q, level, node)) &&
                Collected(q, level, node, old(found), local, found, local')
      decreases Height(g, d), 0
    {
      local' := local;
      hide On, Inv, Conventional, Left, Kids, NodeAt, TreeOf, Slot, Stored, DirLine, FileLine, CStr, Text, Peak,
           AnyHit, PlainNames, Shortened, LineStart;
      ApartOf(fs, g);
      EntryFacts(fs, g, d, i, e);
      hide InOrder;
      var name := ShortName(e.name);
      var difference := StrCmp(name, target);
      var order := MemCmp(e.ext, DIR_EXT);
      LeftNothing(buffer[..], idx);
      if order == 0 && difference == 0 {
        PutDirLine(e.name);
        found := true;
      } else if order == 0 {
        ChildIsDeeper(fs, g, d, i);
        DirBound(fs, g, e.Cluster());
        HeightBelow(g, d, e.Cluster());
        local' := FindInDir(e.name, e.Cluster(), target, local, fs, g, q, node);
      } else if order == 1 && difference == 0 {
        PutNamedFileLine(e.name, e.ext, q, node.content);
        found := true;
      }
    }

    /** The name search: it leaves the text of the query for the tree. */
    method FindAndPrintPath(d: ClusterNo, target: seq<byte>, ghost fs: Fs, ghost g: Shape, ghost q: Query)
      requires On(fs, g) && InOrder(fs, g) && d in g.depth
      requires q == NameQuery(CStr(target))
      requires Within(q, level) ==> idx + Peak(q, level, TreeOf(fs, g, d)) <= buffer.Length
      requires Within(q, level) ==> PlainNames(q, level, TreeOf(fs, g, d))
      requires LineStart(buffer[..], idx)
      modifies this`idx, this`level, this`found, buffer
      ensures On(fs, g) && level == old(level)
      ensures Searched(q, level, TreeOf(fs, g, d), old(buffer[..]), old(idx), old(found), buffer[..], idx, found)
      decreases Height(g, d), 1
    {
      hide On, InOrder, Tab, IsBlank, Inv, Conventional, Left, DecodeTable, Kids, NodeAt, Hit, AnyHit, Text, Peak,
           NodeText, NodePeak, PlainNames;
      var table := ReadTable(d, fs, g);
      ghost var was, start := buffer[..], idx;
      SearchStart(q, level, was, start, fs, g, d);
      found := false;
      var local := false;
      ghost var done := Kids(fs, g, d, 0);
      for i := 0 to ENTRIES
        invariant On(fs, g) && level == old(level)
        invariant done == Kids(fs, g, d, i)
        invariant idx == start + |Text(q, level, done)|
        invariant buffer[..] == Left(was, start, Text(q, level, done), Peak(q, level, done))
        invariant found || local <==> AnyHit(q, level, done)
      {
        SearchStep(q, level, was, start, fs, g, d, i);
        var e := table[i];
        if !IsBlank(e) {
          ghost var node := NodeOrNone(fs, g, d, i);
          if i > 0 {
            SameNodeText(q, level, node, found, AnyHit(q, level, done));
            SameNodePlain(q, level, node, AnyHit(q, level, done), found);
          }
          local := FindEntry(d, i, e, target, local, fs, g, q, node);
        }
        done := Kids(fs, g, d, i + 1);
      }
      if local {
        found := true;
      }
    }

    // ----- the three calls from the shell -----

    /** print: the whole tree from the first cell on. */
    method Print(d: ClusterNo, ghost fs: Fs, ghost g: Shape)
      requires On(fs, g) && InOrder(fs, g) && d in g.depth
      requires |Listing(0, TreeOf(fs, g, d))| <= buffer.Length
      modifies this`idx, this`level, buffer
      ensures On(fs, g) && idx == |Listing(0, TreeOf(fs, g, d))|
      ensures buffer[..] == Left(old(buffer[..]), 0, Listing(0, TreeOf(fs, g, d)), |Listing(0, TreeOf(fs, g, d))|)
      ensures idx <= buffer.Length && buffer[..idx] == Listing(0, TreeOf(fs, g, d))
      ensures buffer[idx..] == old(buffer[..])[idx..]
      ensures Outline.Readable(Outline.FullListing, TreeOf(fs, g, d)) ==>
                Outline.ReadText(buffer[..idx]) == Outline.Rows(Outline.FullListing, 0, TreeOf(fs, g, d))
    {
      hide On, InOrder, TreeOf, Left, Listing, Outline.Readable, Outline.ReadText, Outline.Rows;
      ghost var was, listing := buffer[..], Listing(0, TreeOf(fs, g, d));
      ApartOf(fs, g);
      idx, level := 0, 0;
      AllListDirContent(d, fs, g);
      LeftFromStart(was, listing);
      assert buffer[..idx] == buffer[..][..idx] && buffer[idx..] == buffer[..][idx..];
      if Outline.Readable(Outline.FullListing, TreeOf(fs, g, d)) { Outline.ListingReadsBack(TreeOf(fs, g, d)); }
    }

    /** print_path_to_dir: 255 cells are cleared, then the name is searched for. */
    method PrintPathToDir(d: ClusterNo, target: seq<byte>, ghost fs: Fs, ghost g: Shape)
      requires On(fs, g) && InOrder(fs, g) && d in g.depth && buffer.Length >= 255
      requires Peak(NameQuery(CStr(target)), 0, TreeOf(fs, g, d)) <= buffer.Length
      requires PlainNames(NameQuery(CStr(target)), 0, TreeOf(fs, g, d))
      modifies this`idx, this`level, this`found, buffer
      ensures On(fs, g)
      ensures found <==>
                exists path, node :: At(TreeOf(fs, g, d), path, node) && CStr(node.name[..7]) == CStr(target) &&
                                     (node.FileNode? ==>
                                        node.ext[0] > 100 ||
                                        (node.ext[0] == 100 &&
                                         (node.ext[1] > 105 || (node.ext[1] == 105 && node.ext[2] > 114))))
      ensures found <==> AnyHit(NameQuery(CStr(target)), 0, TreeOf(fs, g, d))
      ensures Text(NameQuery(CStr(target)), 0, TreeOf(fs, g, d)) <= buffer[..]
      ensures buffer[..] == Answer(NameQuery(CStr(target)), TreeOf(fs, g, d), old(buffer[..]), 255)
    {
      hide On, InOrder, TreeOf, Left, Peak, Text, AnyHit, PlainNames, At, CStr;
      ApartOf(fs, g);
      FoundIffSomeName(CStr(target), 0, TreeOf(fs, g, d));
      AnswerShape(NameQuery(CStr(target)), TreeOf(fs, g, d), buffer[..], 255);
      idx, level, found := 0, 0, false;
      ClearBuffer(255);
      assert buffer[..] == Cleared(old(buffer[..]), 255);
      FindAndPrintPath(d, target, fs, g, NameQuery(CStr(target)));
    }

    /** search_dls_bm and search_dls_kmp: 1024 cells are cleared, the limit is 10. */
    method SearchDls(engine: Engine, d: ClusterNo, pattern: seq<byte>, ghost fs: Fs, ghost g: Shape)
      requires On(fs, g) && InOrder(fs, g) && d in g.depth && buffer.Length >= 1024
      requires Peak(TextQuery(engine, CStr(pattern), 10), 0, TreeOf(fs, g, d)) <= buffer.Length
      requires PlainNames(TextQuery(engine, CStr(pattern), 10), 0, TreeOf(fs, g, d))
      modifies this`idx, this`level, this`found, buffer, driver`dirTable
      ensures On(fs, g)
      ensures found <==>
                exists path, f :: At(TreeOf(fs, g, d), path, f) && |path| <= 11 && f.FileNode? &&
                                  f.ext == [116, 120, 116] && Occurs(CStr(pattern), CStr(f.content)) &&
                                  (engine == KmpEngine ==> CStr(pattern) != [])
      ensures found <==> AnyHit(TextQuery(engine, CStr(pattern), 10), 0, TreeOf(fs, g, d))
      ensures Text(TextQuery(engine, CStr(pattern), 10), 0, TreeOf(fs, g, d)) <= buffer[..]
      ensures buffer[..] == Answer(TextQuery(engine, CStr(pattern), 10), TreeOf(fs, g, d), old(buffer[..]), 1024)
    {
      hide On, InOrder, TreeOf, Left, Peak, Text, AnyHit, PlainNames, At, CStr, Occurs;
      ApartOf(fs, g);
      FoundIffSomeFile(engine, CStr(pattern), 10, 0, TreeOf(fs, g, d));
      AnswerShape(TextQuery(engine, CStr(pattern), 10), TreeOf(fs, g, d), buffer[..], 1024);
      idx, level, found := 0, 0, false;
      ClearBuffer(1024);
      assert buffer[..] == Cleared(old(buffer[..]), 1024);
      DepthLimitedSearch(d, engine, pattern, 10, fs, g, TextQuery(engine, CStr(pattern), 10));
    }

    lemma ApartOf(fs: Fs, g: Shape)
      requires On(fs, g)
      ensures Apart()
    {
    }
  }
}
