/**
 The path state of the shell in src/user-shell.c: the text of the current directory, its length and
 the cluster it stands for; cd, and the way down and back up that cp takes.
 */
module Shell {
  import opened Bytes
  import opened Layout
  import opened Chains
  import opened Store
  import opened Invariant
  import opened Safety
  import opened Refinement
  import opened DiskTree
  import opened Driver
  import Runs

  // ----- names and paths -----

  /** An argument as the name field of a request: cut off or filled up to eight bytes. */
  function Padded(argument: seq<byte>): Name
  {
    if |argument| >= 8 then argument[..8] else argument + seq(8 - |argument|, _ => NUL)
  }

  const DOTDOT: seq<byte> := [DOT, DOT]

  /** A slash, and the components each followed by a slash. */
  function PathText(path: seq<Name>): seq<byte>
  {
    if path == [] then [SLASH] else PathText(path[..|path| - 1]) + CStr(path[|path| - 1]) + [SLASH]
  }

  /** The directory c carries the last name of the path, its parent the one before, up to the root. */
  ghost predicate Spells(fs: Fs, g: Shape, path: seq<Name>, c: nat)
    decreases path
  {
    c in g.depth && c < CLUSTER_MAP_SIZE &&
    if path == [] then c == ROOT
    else
      c != ROOT && Slot(fs, c, 0).name == path[|path| - 1] && SLASH !in CStr(path[|path| - 1]) &&
      Spells(fs, g, path[..|path| - 1], ParentOf(fs, c))
  }

  /** The directory of that name in d, as the lookup by name and "dir" finds it. */
  function ChildDir(fs: Fs, d: ClusterNo, name: Name): Option
  {
    var i := Find(Tab(fs, d), name, DIR_EXT, 0);
    if i == ENTRIES || !Tab(fs, d)[i].IsDir() || Tab(fs, d)[i].Cluster() >= CLUSTER_MAP_SIZE then None
    else Some(Tab(fs, d)[i].Cluster())
  }

  datatype Option = None | Some(value: ClusterNo)

  /** The directory that the names lead to from d. */
  function Resolve(fs: Fs, d: ClusterNo, names: seq<Name>): Option
    decreases names
  {
    if names == [] then Some(d)
    else match ChildDir(fs, d, names[0])
      case None => None
      case Some(c) => Resolve(fs, c, names[1..])
  }

  /** Parent lookup inverts child lookup: the child's first entry names its own name and d. */
  lemma ChildThenParent(fs: Fs, g: Shape, d: nat, name: Name)
    requires InOrder(fs, g) && d in g.depth && d < CLUSTER_MAP_SIZE
    ensures ChildDir(fs, d, name).Some? ==>
              var c := ChildDir(fs, d, name).value;
              c in g.depth && c != ROOT && ParentOf(fs, c) == d && Slot(fs, c, 0).name == name &&
              g.depth[c] == g.depth[d] + 1 && ChildOf(fs, d, name) == c
    ensures var r := Request(name, DIR_EXT, d, 0);
            ReadDirectoryCode(fs, r) == if ChildDir(fs, d, name).None? then 2 else 0
  {
    hide DecodeTable, FatInv, DiskInv, ChainOf, DistinctKeys, Find;
    var i := Find(Tab(fs, d), name, DIR_EXT, 0);
    assert DirOk(fs, g, d);
    assert i > 0;
    if i < ENTRIES {
      ChildIsDeeper(fs, g, d, i);
      assert NamedByKind(fs, d, i);
      assert SlotOk(fs, g, d, i);
      var c := Slot(fs, d, i).Cluster();
      assert DirOk(fs, g, c);
      FindFromOne(Tab(fs, d), name);
    } else {
      FindFromOne(Tab(fs, d), name);
    }
    hide TreeInv, Conventional;
  }

  /** The scan from the second entry and the scan from the first agree when the first does not match. */
  lemma FindFromOne(t: Table, name: Name)
    requires t[0].ext != DIR_EXT
    ensures Find(t, name, DIR_EXT, 1) == Find(t, name, DIR_EXT, 0)
  {
    assert Find(t, name, DIR_EXT, 0) == Find(t, name, DIR_EXT, 1);
  }

  /** The path of a directory, resolved from the root, is that directory. */
  lemma {:induction false} SpelledIsResolved(fs: Fs, g: Shape, path: seq<Name>, c: nat)
    requires InOrder(fs, g) && Spells(fs, g, path, c)
    ensures Resolve(fs, ROOT, path) == Some(c)
    decreases path
  {
    hide InOrder, Slot, Tab;
    if path != [] {
      var above := ParentOf(fs, c);
      SpelledIsResolved(fs, g, path[..|path| - 1], above);
      OwnNameIsFound(fs, g, c);
      ResolveSnoc(fs, ROOT, path[..|path| - 1], path[|path| - 1]);
      assert path == path[..|path| - 1] + [path[|path| - 1]];
    }
  }

  lemma OwnNameIsFound(fs: Fs, g: Shape, c: nat)
    requires InOrder(fs, g) && c in g.depth && c != ROOT && c < CLUSTER_MAP_SIZE
    ensures ParentOf(fs, c) < CLUSTER_MAP_SIZE && ChildDir(fs, ParentOf(fs, c), Slot(fs, c, 0).name) == Some(c)
  {
    hide DecodeTable, FatInv, DiskInv, ChainOf, DistinctKeys, Find, SlotOk;
    assert DirOk(fs, g, c);
    assert HomeOk(fs, g, c);
    assert NamedByKind(fs, g.home[c].dir, g.home[c].slot);
    OwnKeyIsFound(fs, g, g.home[c].dir, g.home[c].slot);
    hide TreeInv, Conventional;
  }

  lemma {:induction false} ResolveSnoc(fs: Fs, d: ClusterNo, names: seq<Name>, last: Name)
    ensures Resolve(fs, d, names + [last]) ==
            match Resolve(fs, d, names)
            case None => None
            case Some(c) => ChildDir(fs, c, last)
    decreases names
  {
    hide ChildDir;
    if names == [] {
      assert (names + [last])[1..] == [];
    } else {
      assert (names + [last])[1..] == names[1..] + [last];
      if ChildDir(fs, d, names[0]).Some? {
        ResolveSnoc(fs, ChildDir(fs, d, names[0]).value, names[1..], last);
      }
    }
  }

  /** A path depends on the first entries of the directories only. */
  lemma {:induction false} SpellsFrame(fs: Fs, fs': Fs, g: Shape, g': Shape, path: seq<Name>, c: nat)
    requires Spells(fs, g, path, c)
    requires forall d :: d in g.depth && d < CLUSTER_MAP_SIZE ==> d in g'.depth && Slot(fs', d, 0) == Slot(fs, d, 0)
    ensures Spells(fs', g', path, c)
    decreases path
  {
    hide Slot;
    if path != [] {
      SpellsFrame(fs, fs', g, g', path[..|path| - 1], ParentOf(fs, c));
    }
  }

  // ----- the text of a path -----

  lemma PathTextSnoc(path: seq<Name>, last: Name)
    ensures PathText(path + [last]) == PathText(path) + CStr(last) + [SLASH]
    ensures (path + [last])[..|path|] == path
  {
    hide CStr;
    assert (path + [last])[..|path|] == path;
  }

  lemma PathTextEnds(path: seq<Name>)
    ensures PathText(path) != [] && PathText(path)[|PathText(path)| - 1] == SLASH
  {
  }

  // ----- cd on values -----

  /** Where the shell is: the path and the cluster it stands for. */
  datatype Spot = Spot(path: seq<Name>, cwd: ClusterNo)

  function CdStep(fs: Fs, s: Spot, argument: seq<byte>): Spot
  {
    if argument == DOTDOT then
      if s.path == [] || ParentOf(fs, s.cwd) >= CLUSTER_MAP_SIZE then s
      else Spot(s.path[..|s.path| - 1], ParentOf(fs, s.cwd))
    else match ChildDir(fs, s.cwd, Padded(argument))
      case None => s
      case Some(c) => Spot(s.path + [Padded(argument)], c)
  }

  function CdAll(fs: Fs, s: Spot, arguments: seq<seq<byte>>): Spot
    decreases arguments
  {
    if arguments == [] then s else CdAll(fs, CdStep(fs, s, arguments[0]), arguments[1..])
  }

  predicate SlashFree(argument: seq<byte>) { SLASH !in CStr(Padded(argument)) }

  lemma CdStepKeeps(fs: Fs, g: Shape, s: Spot, argument: seq<byte>)
    requires InOrder(fs, g) && Spells(fs, g, s.path, s.cwd) && SlashFree(argument)
    ensures Spells(fs, g, CdStep(fs, s, argument).path, CdStep(fs, s, argument).cwd)
  {
    hide InOrder, ChildDir, ParentOf, CStr, Padded, Spells;
    SpellsUp(fs, g, s.path, s.cwd);
    SpellsChild(fs, g, s.path, s.cwd, Padded(argument));
  }

  /**
   After any series of cds from the root, the cluster is the one that the names of the path lead to
   from the root.
   */
  lemma {:induction false} CdAllResolves(fs: Fs, g: Shape, s: Spot, arguments: seq<seq<byte>>)
    requires InOrder(fs, g) && Spells(fs, g, s.path, s.cwd)
    requires forall i :: 0 <= i < |arguments| ==> SlashFree(arguments[i])
    ensures var end := CdAll(fs, s, arguments);
            Spells(fs, g, end.path, end.cwd) && Resolve(fs, ROOT, end.path) == Some(end.cwd)
    decreases arguments
  {
    hide InOrder, CdStep, Spells, Resolve, SlashFree;
    if arguments == [] {
      SpelledIsResolved(fs, g, s.path, s.cwd);
    } else {
      CdStepKeeps(fs, g, s, arguments[0]);
      CdAllResolves(fs, g, CdStep(fs, s, arguments[0]), arguments[1..]);
    }
  }

  /** cd ".." undoes a cd that has found its directory: the path and the cluster are those from before. */
  lemma UpUndoesDown(fs: Fs, g: Shape, s: Spot, argument: seq<byte>)
    requires InOrder(fs, g) && Spells(fs, g, s.path, s.cwd) && argument != DOTDOT
    requires ChildDir(fs, s.cwd, Padded(argument)).Some?
    ensures CdStep(fs, CdStep(fs, s, argument), DOTDOT) == s
  {
    hide InOrder, ChildDir, ParentOf, Padded, Spells;
    SpellsIn(fs, g, s.path, s.cwd);
    ChildThenParent(fs, g, s.cwd, Padded(argument));
    assert (s.path + [Padded(argument)])[..|s.path|] == s.path;
  }

  // ----- unwinding the text -----

  /** Back from i to a slash, or to the front. */
  function Back(text: seq<byte>, i: nat): (j: nat)
    requires i < |text|
    ensures j <= i && (j == 0 || text[j] == SLASH) && forall k :: j < k <= i ==> text[k] != SLASH
  {
    if i == 0 || text[i] == SLASH then i else Back(text, i - 1)
  }

  /** The text that the unwinding loop leaves. */
  function Unwound(text: seq<byte>): seq<byte>
    requires |text| >= 2
  {
    text[..Back(text, |text| - 2) + 1]
  }

  lemma SlashBack(text: seq<byte>, i: nat)
    requires i < |text| && SLASH in text[..i + 1]
    ensures text[Back(text, i)] == SLASH
  {
    var k :| 0 <= k < i + 1 && text[..i + 1][k] == SLASH;
    assert text[k] == SLASH;
  }

  /** Unwinding takes off exactly the last component if and only if it has no slash in it. */
  lemma UnwoundIff(above: seq<Name>, last: Name)
    ensures var text := PathText(above) + CStr(last) + [SLASH];
            |text| >= 2 && SLASH in text[..|text| - 1] &&
            (Unwound(text) == PathText(above) <==> SLASH !in CStr(last))
  {
    hide PathText, CStr, Back;
    PathTextEnds(above);
    var front, c := PathText(above), CStr(last);
    var text := front + c + [SLASH];
    assert text[..|text| - 1][|front| - 1] == SLASH;
    var j := Back(text, |text| - 2);
    if SLASH in c {
      var k :| 0 <= k < |c| && c[k] == SLASH;
      assert text[|front| + k] == SLASH;
    } else {
      forall k | |front| <= k < |text| - 1 ensures text[k] != SLASH { assert text[k] == c[k - |front|]; }
      assert j == |front| - 1;
      assert text[..|front|] == front;
    }
  }

  class ShellState {
    const driver: FatDriver
    const currentDir: array<byte>
    var currentDirLen: nat
    var cwd: ClusterNo
    var retcode: int
    ghost var path: seq<Name>

    constructor (driver: FatDriver)
      ensures this.driver == driver && fresh(currentDir) && currentDir.Length == 255
      ensures path == [] && cwd == ROOT && currentDirLen == 1 && currentDir[0] == SLASH
    {
      this.driver := driver;
      currentDir := new byte[255](i => if i == 0 then SLASH else NUL);
      currentDirLen := 1;
      cwd := ROOT;
      retcode := 0;
      path := [];
    }

    ghost predicate Apart()
    {
      currentDir as object != driver.disk as object && currentDir as object != driver.fat as object &&
      currentDir as object != driver as object && this as object != driver as object
    }

    /** The driver's store is fs and in order. */
    ghost predicate On(fs: Fs, g: Shape)
      reads driver, driver.disk, driver.fat
    {
      driver.Valid() && driver.State() == fs && driver.shape == g && Conventional(fs, g) && Apart()
    }

    /** Text, length and cluster agree: all three are those of the path. */
    ghost predicate PathHolds(fs: Fs, g: Shape)
      reads this, currentDir
    {
      currentDir.Length == 255 && currentDirLen <= 255 &&
      currentDirLen == |PathText(path)| && currentDir[..currentDirLen] == PathText(path) &&
      Spells(fs, g, path, cwd)
    }

    /** The syscall that moves to the parent directory. */
    method AskParent(ghost fs: Fs, ghost g: Shape) returns (c: nat)
      requires On(fs, g)
      ensures c == ParentOf(fs, cwd)
    {
      c := driver.MoveToParentDirectory(Request(NO_NAME, NO_EXT, cwd, 0));
    }

    /** The syscalls that look for a directory and move into it. */
    method AskChild(name: Name, ghost fs: Fs, ghost g: Shape) returns (code: int, c: nat)
      requires On(fs, g) && InOrder(fs, g) && cwd in g.depth
      modifies driver`dirTable
      ensures On(fs, g)
      ensures code == ReadDirectoryCode(fs, Request(name, DIR_EXT, cwd, 0))
      ensures code == 0 ==> c == ChildOf(fs, cwd, name)
    {
      hide Inv, Conventional, ReadDirectoryCode, ChildOf, DirectoryFound, DecodeTable;
      var r := Request(name, DIR_EXT, cwd, CLUSTER_SIZE);
      CodeIgnoresSize(fs, r);
      code := driver.ReadDirectory(r);
      c := 0;
      if code == 0 {
        c := driver.MoveToChildDirectory(r);
      }
    }

    lemma ApartOf(fs: Fs, g: Shape)
      requires On(fs, g)
      ensures Apart()
    {
    }

    /** The calls of cd for "..": to the parent, and the last component of the text goes. */
    method CdUp(ghost fs: Fs, ghost g: Shape)
      requires On(fs, g) && InOrder(fs, g) && PathHolds(fs, g)
      modifies this`currentDirLen, this`cwd, this`retcode, this`path, currentDir
      ensures On(fs, g) && PathHolds(fs, g)
      ensures old(path) == [] ==> path == [] && cwd == old(cwd) && retcode == old(retcode)
      ensures old(path) != [] ==> path == old(path)[..|old(path)| - 1] && cwd == retcode == ParentOf(fs, old(cwd))
      ensures currentDirLen <= old(currentDirLen)
    {
      hide On, InOrder, Spells, PathText, CStr, ParentOf;
      ApartOf(fs, g);
      SpellsUp(fs, g, path, cwd);
      if cwd != ROOT {
        ghost var above, last := path[..|path| - 1], path[|path| - 1];
        assert path == above + [last];
        PathTextSnoc(above, last);
        retcode := AskParent(fs, g);
        cwd := retcode;
        UnwoundIff(above, last);
        EraseComponent();
        path := above;
      }
    }

    /** The unwinding loop: back to the slash before the last component, which stays. */
    method EraseComponent()
      requires currentDir.Length == 255 && 2 <= currentDirLen <= 255
      requires SLASH in currentDir[..currentDirLen][..currentDirLen - 1]
      modifies this`currentDirLen, currentDir
      ensures currentDirLen <= old(currentDirLen)
      ensures currentDir[..currentDirLen] == Unwound(old(currentDir[..currentDirLen]))
    {
      hide Back;
      ghost var was := currentDir[..currentDirLen];
      assert forall k :: 0 <= k < currentDirLen ==> currentDir[k] == was[k];
      ghost var stop := Back(was, |was| - 2);
      SlashBack(was, currentDirLen - 2);
      currentDirLen := currentDirLen - 2;
      while currentDir[currentDirLen] != SLASH
        decreases currentDirLen
        invariant stop <= currentDirLen <= |was| - 2
        invariant forall k :: 0 <= k <= currentDirLen ==> currentDir[k] == was[k]
      {
        currentDir[currentDirLen] := NUL;
        currentDirLen := currentDirLen - 1;
      }
      currentDir[currentDirLen] := SLASH;
      currentDirLen := currentDirLen + 1;
      assert currentDirLen == stop + 1;
      assert currentDir[..currentDirLen] == was[..currentDirLen];
    }

    /** The calls of cd for a name: down into the directory of that name, or nothing. */
    method CdDown(argument: seq<byte>, ghost fs: Fs, ghost g: Shape)
      requires On(fs, g) && InOrder(fs, g) && PathHolds(fs, g)
      requires ChildDir(fs, cwd, Padded(argument)).Some? ==>
                 SLASH !in CStr(Padded(argument)) && currentDirLen + |CStr(Padded(argument))| + 1 <= 255
      modifies this`currentDirLen, this`cwd, this`retcode, this`path, currentDir, driver`dirTable
      ensures On(fs, g) && PathHolds(fs, g)
      ensures match ChildDir(fs, old(cwd), Padded(argument))
              case Some(c) => path == old(path) + [Padded(argument)] && cwd == retcode == c
              case None => path == old(path) && cwd == old(cwd) && retcode == 2
      ensures currentDirLen <= old(currentDirLen) + |CStr(Padded(argument))| + 1
    {
      hide On, InOrder, ChildDir, Spells, PathText, CStr, ReadDirectoryCode, ChildOf, Padded;
      var name := Padded(argument);
      ApartOf(fs, g);
      SpellsIn(fs, g, path, cwd);
      ChildThenParent(fs, g, cwd, name);
      var c: nat;
      retcode, c := AskChild(name, fs, g);
      if retcode == 0 {
        retcode := c;
        AppendComponent(name);
        SpellsChild(fs, g, path, cwd, name);
        cwd := retcode;
        PathTextSnoc(path, name);
        path := path + [name];
      }
    }

    /** The name goes behind the text, and a slash behind the name. */
    method AppendComponent(name: Name)
      requires currentDir.Length == 255 && currentDirLen + |CStr(name)| + 1 <= 255
      modifies this`currentDirLen, currentDir
      ensures currentDirLen == old(currentDirLen) + |CStr(name)| + 1
      ensures currentDir[..currentDirLen] == old(currentDir[..currentDirLen]) + CStr(name) + [SLASH]
    {
      hide CStr;
      AppendName(name);
      AppendByte(SLASH);
    }

    method AppendByte(b: byte)
      requires currentDirLen < currentDir.Length
      modifies this`currentDirLen, currentDir
      ensures currentDirLen == old(currentDirLen) + 1
      ensures currentDir[..currentDirLen] == old(currentDir[..currentDirLen]) + [b]
    {
      currentDir[currentDirLen] := b;
      currentDirLen := currentDirLen + 1;
    }

    /** The loop over the bytes of the name. */
    method AppendName(name: Name)
      requires currentDir.Length == 255 && currentDirLen + |CStr(name)| <= 255
      modifies this`currentDirLen, currentDir
      ensures currentDirLen == old(currentDirLen) + |CStr(name)|
      ensures currentDir[..currentDirLen] == old(currentDir[..currentDirLen]) + CStr(name)
    {
      hide CStr;
      ghost var was, start := currentDir[..currentDirLen], currentDirLen;
      var i := 0;
      CStrStarts(name, 0);
      while i < |name| && name[i] != NUL
        invariant i <= |CStr(name)| && currentDirLen == start + i
        invariant CStr(name)[..i] == name[..i]
        invariant currentDir[..currentDirLen] == was + name[..i]
      {
        CStrStarts(name, i);
        assert was + name[..i + 1] == was + name[..i] + [name[i]];
        AppendByte(name[i]);
        i := i + 1;
      }
      CStrStarts(name, i);
    }

    /**
     cd: exactly ".." goes up, everything else is the name of a directory to go into. A directory
     with a slash in its name is left out, since the text could not be unwound past it.
     */
    method Cd(argument: seq<byte>, ghost fs: Fs, ghost g: Shape)
      requires On(fs, g) && InOrder(fs, g) && PathHolds(fs, g)
      requires argument != DOTDOT && ChildDir(fs, cwd, Padded(argument)).Some? ==>
                 SLASH !in CStr(Padded(argument)) && currentDirLen + |CStr(Padded(argument))| + 1 <= 255
      modifies this`currentDirLen, this`cwd, this`retcode, this`path, currentDir, driver`dirTable
      ensures On(fs, g) && PathHolds(fs, g)
      ensures Spot(path, cwd) == CdStep(fs, old(Spot(path, cwd)), argument)
      ensures argument == [46, 46] && old(path) == [] ==> path == [] && cwd == old(cwd)
      ensures argument == [46, 46] && old(path) != [] ==>
                path == old(path)[..|old(path)| - 1] && Resolve(fs, ROOT, path) == Some(cwd)
      ensures argument != [46, 46] ==>
                match ChildDir(fs, old(cwd), Padded(argument))
                case Some(c) => path == old(path) + [Padded(argument)] && cwd == c
                case None => path == old(path) && cwd == old(cwd)
      ensures argument == DOTDOT ==> retcode == if old(path) == [] then old(retcode) else cwd
      ensures argument != DOTDOT ==>
                retcode == if ChildDir(fs, old(cwd), Padded(argument)).Some? then cwd else 2
      ensures currentDirLen <= if argument == DOTDOT then old(currentDirLen)
                               else old(currentDirLen) + |CStr(Padded(argument))| + 1
    {
      hide On, InOrder, PathHolds, ChildDir, ParentOf, CStr, Padded, Resolve;
      RootPath(fs, g);
      PathLeads(fs, g);
      if |argument| == 2 && argument[0] == DOT && argument[1] == DOT {
        CdUp(fs, g);
      } else {
        CdDown(argument, fs, g);
      }
    }

    lemma PathLeads(fs: Fs, g: Shape)
      requires InOrder(fs, g) && PathHolds(fs, g)
      ensures path != [] ==> Resolve(fs, ROOT, path[..|path| - 1]) == Some(ParentOf(fs, cwd))
    {
      hide InOrder, ParentOf, Spells, Resolve;
      Place(fs, g);
      SpellsUp(fs, g, path, cwd);
      if path != [] {
        SpelledIsResolved(fs, g, path[..|path| - 1], ParentOf(fs, cwd));
      }
    }

    lemma ChildNumber(fs: Fs, g: Shape, name: Name)
      requires InOrder(fs, g) && PathHolds(fs, g)
      ensures ChildDir(fs, cwd, name).Some? ==> ChildDir(fs, cwd, name).value != ROOT
    {
      ChildIsNotRoot(fs, g, path, cwd, name);
    }

    // ----- cp into a directory -----

    lemma Place(fs: Fs, g: Shape)
      requires PathHolds(fs, g)
      ensures Spells(fs, g, path, cwd)
      ensures currentDirLen == |PathText(path)| <= currentDir.Length == 255
      ensures currentDir[..currentDirLen] == PathText(path)
    {
    }

    lemma CwdLives(fs: Fs, g: Shape)
      requires PathHolds(fs, g)
      ensures cwd in g.depth
    {
      SpellsIn(fs, g, path, cwd);
    }

    /** A path stands for one directory only, before and after the copy. */
    lemma SamePlace(fs': Fs, g': Shape, before: seq<Name>, home: nat)
      requires path == before && PathHolds(fs', g') && InOrder(fs', g') && Spells(fs', g', before, home)
      ensures cwd == home && currentDirLen == |PathText(before)| && currentDir[..currentDirLen] == PathText(before)
    {
      hide InOrder, Spells, PathText;
      SpelledIsResolved(fs', g', path, cwd);
      SpelledIsResolved(fs', g', path, home);
    }

    /** count times cd(".."), as cp does at its end. */
    method Ascend(count: nat, ghost fs: Fs, ghost g: Shape)
      requires On(fs, g) && InOrder(fs, g) && PathHolds(fs, g) && count <= |path|
      modifies this`currentDirLen, this`cwd, this`retcode, this`path, currentDir
      ensures On(fs, g) && PathHolds(fs, g) && path == old(path)[..|old(path)| - count]
    {
      hide On, InOrder, PathHolds;
      ghost var full := path;
      for i := 0 to count
        invariant On(fs, g) && PathHolds(fs, g) && path == full[..|full| - i]
      {
        CdUp(fs, g);
      }
    }

    /** The loop of cp that goes down the destination path, counting the steps that worked. */
    method Descend(dest: array<byte>, ghost fs: Fs, ghost g: Shape) returns (count: nat)
      requires On(fs, g) && InOrder(fs, g) && PathHolds(fs, g)
      requires dest != currentDir && dest as object != driver.disk as object && dest as object != driver.fat as object
      requires NUL in dest[..] && DOTDOT !in Components(CStr(dest[..]))
      requires currentDirLen + |CStr(dest[..])| + 1 <= 255
      modifies this`currentDirLen, this`cwd, this`retcode, this`path, currentDir, driver`dirTable, dest
      ensures On(fs, g) && PathHolds(fs, g)
      ensures var names := PaddedAll(Components(old(CStr(dest[..]))));
              count <= |names| && path == old(path) + names[..count] &&
              match Resolve(fs, old(cwd), names)
              case Some(d) => retcode != 2 && cwd == d
              case None => retcode == 2
    {
      hide On, InOrder, PathHolds, ChildDir, CStr, Padded, Components, PaddedAll, Before, After, Resolve, Descending;
      ghost var s := CStr(dest[..]);
      ghost var trip := Trip(fs, cwd, path, PaddedAll(Components(s)));
      DescendStart(trip, s);
      count := 0;
      while true
        invariant On(fs, g) && PathHolds(fs, g) && NUL in dest[..] && s == CStr(dest[..])
        invariant currentDirLen + |s| + 1 <= 255
        invariant Descending(trip, s, count, path, cwd)
        decreases |s|
      {
        DescendStep(trip, s, count, path, cwd);
        var first, last := NextComponent(dest);
        ChildNumber(fs, g, Padded(first));
        Cd(first, fs, g);
        if retcode == 2 {
          break;
        }
        count := count + 1;
        if last {
          break;
        }
        s := CStr(dest[..]);
      }
    }

    /** writer_with_clust: one cluster of data under that name in the current directory. */
    method WriteHere(r: Request, data: seq<byte>, ghost fs: Fs, ghost g: Shape, ghost before: seq<Name>,
                     ghost home: nat)
      returns (ghost fs': Fs, ghost g': Shape)
      requires On(fs, g) && InOrder(fs, g) && PathHolds(fs, g) && r.parent == cwd && Spells(fs, g, before, home)
      requires (r.ext == DIR_EXT <==> r.size == 0) && |data| >= ClusterCount(r.size) * CLUSTER_SIZE
      requires WriteCode(fs, r) == 0 ==> WriteFits(fs, r)
      modifies this`retcode, driver`dirTable, driver`shape, driver.disk, driver.fat
      ensures On(fs', g') && InOrder(fs', g') && PathHolds(fs', g')
      ensures fs' == Store.Write(fs, r, data) && g' == ShapeAfterWrite(fs, g, r)
      ensures Spells(fs', g', before, home)
      ensures retcode == WriteCode(fs, r)
    {
      hide Inv, Conventional, Spells, PathText, CStr, WriteCode, WriteFits, ClusterCount, Store.Write,
           ShapeAfterWrite, FreeUpTo, DecodeTable, Find;
      SpellsIn(fs, g, path, cwd);
      WriteKeepsPaths(fs, g, r, data);
      retcode := driver.Write(r, data);
      fs', g' := Store.Write(fs, r, data), ShapeAfterWrite(fs, g, r);
      SpellsFrame(fs, fs', g, g', path, cwd);
      SpellsFrame(fs, fs', g, g', before, home);
    }

    /**
     cp to a path without dots: down to it, one write there, and back up. Whether or not the path
     leads anywhere, the shell ends where it started, and the store differs by that write at most.
     */
    method CopyInto(dest: array<byte>, name: Name, ext: Ext, data: seq<byte>, ghost fs: Fs, ghost g: Shape)
      returns (ghost fs': Fs, ghost g': Shape)
      requires On(fs, g) && InOrder(fs, g) && PathHolds(fs, g)
      requires dest != currentDir && dest as object != driver.disk as object && dest as object != driver.fat as object
      requires NUL in dest[..] && DOT !in CStr(dest[..])
      requires currentDirLen + |CStr(dest[..])| + 1 <= 255
      requires ext != DIR_EXT && |data| == CLUSTER_SIZE
      requires CopyFits(fs, cwd, CStr(dest[..]), name, ext)
      modifies this`currentDirLen, this`cwd, this`retcode, this`path, currentDir, dest
      modifies driver`dirTable, driver`shape, driver.disk, driver.fat
      ensures On(fs', g') && InOrder(fs', g') && PathHolds(fs', g')
      ensures path == old(path) && cwd == old(cwd)
      ensures currentDirLen == old(currentDirLen) && currentDir[..currentDirLen] == old(currentDir[..currentDirLen])
      ensures match Resolve(fs, old(cwd), PaddedAll(Components(old(CStr(dest[..])))))
              case None => fs' == fs && g' == g
              case Some(d) =>
                var r := Request(name, ext, d, 2048);
                if WriteCode(fs, r) != 0 then fs' == fs
                else
                  ReadCode(fs', r) == 0 && data <= ReadData(fs', r) &&
                  forall a :: Represents(fs, g, a) ==>
                    Represents(fs', g', Abstract(a.items[Key(d, name, ext) := File(data)], a.names))
      ensures fs' == Copied(fs, old(cwd), old(CStr(dest[..])), name, ext, data)
    {
      hide On, InOrder, PathHolds, CStr, Components, PaddedAll, Resolve, WriteCode, WriteFits, ClusterCount,
           Store.Write, ShapeAfterWrite, Conventional, Inv, Represents, ReadCode, ReadData;
      ghost var names := PaddedAll(Components(CStr(dest[..])));
      NoDots(CStr(dest[..]));
      OneCluster();
      fs', g' := fs, g;
      ghost var before, home := path, cwd;
      Place(fs, g);
      var count := Descend(dest, fs, g);
      assert path[..|path| - count] == before;
      if retcode == 2 {
        Ascend(count, fs, g);
        SamePlace(fs', g', before, home);
        return;
      }
      CwdLives(fs, g);
      CopyIsRead(fs, g, Request(name, ext, cwd, CLUSTER_SIZE), data);
      fs', g' := WriteHere(Request(name, ext, cwd, CLUSTER_SIZE), data, fs, g, before, home);
      Ascend(count, fs', g');
      SamePlace(fs', g', before, home);
    }

    // ----- the directory a path of mv is in -----

    /**
     search_cluster_resolve_path: cd along all components but the last, whether or not they work,
     and everything back as it was, the path's text included.
     */
    method SearchClusterResolvePath(dest: array<byte>, ghost fs: Fs, ghost g: Shape) returns (cluster: ClusterNo)
      requires On(fs, g) && InOrder(fs, g) && PathHolds(fs, g) && NUL in currentDir[..]
      requires dest != currentDir && dest as object != driver.disk as object && dest as object != driver.fat as object
      requires NUL in dest[..] && currentDirLen + |CStr(dest[..])| + 1 <= 255
      modifies this`currentDirLen, this`cwd, this`retcode, this`path, currentDir, driver`dirTable, dest
      ensures On(fs, g) && PathHolds(fs, g)
      ensures path == old(path) && cwd == old(cwd)
      ensures currentDirLen == old(currentDirLen) && currentDir[..currentDirLen] == old(currentDir[..currentDirLen])
      ensures NUL in dest[..] && CStr(dest[..]) == old(CStr(dest[..]))
      ensures cluster == Walk(fs, old(cwd), Front(Components(old(CStr(dest[..])))))
      ensures var end := CdAll(fs, old(Spot(path, cwd)), Front(Components(old(CStr(dest[..])))));
              cluster == end.cwd && Resolve(fs, ROOT, end.path) == Some(cluster)
    {
      hide On, InOrder, PathHolds, CStr, Walk, Front, Components, CdAll, Resolve, Spells, SlashFree;
      var initialCluster := cwd;
      var dirLength := StrLen(currentDir[..]);
      var initialDir := currentDir[..dirLength];
      var initialLength := currentDirLen;
      ghost var initialPath := path;
      var pathLength := StrLen(dest[..]);
      var initialDest := dest[..pathLength];
      Place(fs, g);
      TextInString(fs, g);
      FrontIsSlashFree(CStr(dest[..]));
      WalkIsCds(fs, g, Spot(path, cwd), Front(Components(CStr(dest[..]))));
      CdAllResolves(fs, g, Spot(path, cwd), Front(Components(CStr(dest[..]))));
      WalkAll(dest, fs, g);
      cluster := cwd;
      PutBack(currentDir, initialDir);
      currentDirLen := initialLength;
      PutBack(dest, initialDest);
      cwd := initialCluster;
      path := initialPath;
      assert currentDir[..currentDirLen] == initialDir[..currentDirLen];
      BackInPlace(fs, g);
    }

    /** The loop: cd into every component that a slash follows. */
    method WalkAll(dest: array<byte>, ghost fs: Fs, ghost g: Shape)
      requires On(fs, g) && InOrder(fs, g) && PathHolds(fs, g)
      requires dest != currentDir && dest as object != driver.disk as object && dest as object != driver.fat as object
      requires NUL in dest[..] && currentDirLen + |CStr(dest[..])| + 1 <= 255
      modifies this`currentDirLen, this`cwd, this`retcode, this`path, currentDir, driver`dirTable, dest
      ensures On(fs, g) && PathHolds(fs, g)
      ensures cwd == Walk(fs, old(cwd), Front(Components(old(CStr(dest[..])))))
    {
      hide On, InOrder, PathHolds, CStr, Walk, Front, Components, ChildDir, Padded, Before, After, PaddedAll, ParentOf;
      ghost var start, s := cwd, CStr(dest[..]);
      ghost var parts := Front(Components(s));
      while true
        invariant On(fs, g) && PathHolds(fs, g) && NUL in dest[..] && s == CStr(dest[..])
        invariant currentDirLen + |s| + 1 <= 255
        invariant Walk(fs, start, parts) == Walk(fs, cwd, Front(Components(s)))
        decreases |s|
      {
        RootPath(fs, g);
        WalkStep(fs, cwd, s);
        ComponentFacts(s);
        var more := Includes(dest, SLASH);
        if !more {
          break;
        }
        var first, last := NextComponent(dest);
        Cd(first, fs, g);
        s := CStr(dest[..]);
      }
    }

    lemma RootPath(fs: Fs, g: Shape)
      requires PathHolds(fs, g)
      ensures path == [] <==> cwd == ROOT
      ensures cwd != ROOT ==> ParentOf(fs, cwd) < CLUSTER_MAP_SIZE
    {
      SpellsUp(fs, g, path, cwd);
    }

    /** The text of the path is all before the first NUL of the buffer. */
    lemma TextInString(fs: Fs, g: Shape)
      requires PathHolds(fs, g)
      ensures currentDirLen <= |CStr(currentDir[..])|
    {
      PathTextHasNoNul(path);
      CStrAtLeast(currentDir[..], currentDirLen);
    }

    lemma BackInPlace(fs: Fs, g: Shape)
      requires currentDir.Length == 255 && currentDirLen == |PathText(path)| <= 255
      requires currentDir[..currentDirLen] == PathText(path) && Spells(fs, g, path, cwd)
      ensures PathHolds(fs, g)
    {
    }

    /** Up to the next slash with split_by_first, or the whole rest when there is none. */
    method NextComponent(dest: array<byte>) returns (first: seq<byte>, last: bool)
      requires NUL in dest[..]
      modifies dest
      ensures NUL in dest[..] && first == Before(old(CStr(dest[..])), SLASH)
      ensures last <==> SLASH !in old(CStr(dest[..]))
      ensures !last ==> CStr(dest[..]) == After(old(CStr(dest[..])), SLASH)
      ensures last ==> dest[..] == old(dest[..])
    {
      var length := StrLen(dest[..]);
      var content := dest[..length];
      BeforeAfter(content, SLASH);
      var more := Includes(dest, SLASH);
      if more {
        var res := new byte[length];
        SplitByFirst(dest, SLASH, res);
        var n := StrLen(res[..]);
        return res[..n], false;
      }
      return content, true;
    }
  }

  /** is_include. */
  method Includes(str: array<byte>, target: byte) returns (found: bool)
    requires NUL in str[..]
    ensures found <==> target in CStr(str[..])
  {
    ghost var s := CStr(str[..]);
    CStrShort(str[..]);
    assert forall k :: 0 <= k < |s| ==> str[k] == s[k];
    hide CStr;
    var i := 0;
    while str[i] != NUL
      invariant i <= |s| && target !in s[..i]
      decreases |s| - i
    {
      if str[i] == target {
        return true;
      }
      i := i + 1;
    }
    assert s[..i] == s;
    return false;
  }

  /** memcpy of a saved string, and the NUL behind it. */
  method PutBack(buffer: array<byte>, saved: seq<byte>)
    requires |saved| < buffer.Length && NUL !in saved
    modifies buffer
    ensures buffer[..|saved|] == saved && NUL in buffer[..] && CStr(buffer[..]) == saved
  {
    hide CStr;
    for i := 0 to |saved|
      invariant buffer[..i] == saved[..i]
    {
      buffer[i] := saved[i];
    }
    buffer[|saved|] := NUL;
    assert buffer[..][|saved|] == NUL;
    CStrIs(buffer[..], saved);
  }

  /** split_by_first: the part before the separator is copied out, the rest moves to the front. */
  method SplitByFirst(pstr: array<byte>, sep: byte, result: array<byte>)
    requires pstr != result && sep != NUL && NUL in pstr[..]
    requires |Before(CStr(pstr[..]), sep)| < result.Length
    modifies pstr, result
    ensures NUL in pstr[..] && NUL in result[..]
    ensures CStr(result[..]) == Before(old(CStr(pstr[..])), sep)
    ensures CStr(pstr[..]) == After(old(CStr(pstr[..])), sep)
  {
    var i := CopyHead(pstr, sep, result);
    ghost var copied := result[..];
    if pstr[i] == sep {
      ShiftToFront(pstr, i + 1);
    } else {
      pstr[0] := NUL;
      CStrIs(pstr[..], []);
    }
    assert result[..] == copied;
  }

  /** The first loop: everything before the separator or the end, closed with a NUL. */
  method CopyHead(pstr: array<byte>, sep: byte, result: array<byte>) returns (i: nat)
    requires pstr != result && sep != NUL && NUL in pstr[..]
    requires |Before(CStr(pstr[..]), sep)| < result.Length
    modifies result
    ensures NUL in result[..] && CStr(result[..]) == Before(CStr(pstr[..]), sep)
    ensures i < pstr.Length
    ensures if pstr[i] == sep then
              i < |CStr(pstr[..])| && After(CStr(pstr[..]), sep) == CStr(pstr[..])[i + 1..]
            else After(CStr(pstr[..]), sep) == []
  {
    ghost var s := CStr(pstr[..]);
    ghost var head := Before(s, sep);
    BeforeAfter(s, sep);
    CStrShort(pstr[..]);
    assert forall k :: 0 <= k < |s| ==> pstr[k] == s[k];
    hide CStr, Before, After;
    i := 0;
    while pstr[i] != NUL && pstr[i] != sep
      invariant i <= |head|
      invariant result[..i] == head[..i]
      decreases |s| - i
    {
      result[i] := pstr[i];
      i := i + 1;
    }
    assert i == |head|;
    result[i] := NUL;
    CStrIs(result[..], head);
    assert result[..][i] == NUL;
  }

  /** The second loop: the string from position from on is moved down to the front, in ascending order. */
  method ShiftToFront(pstr: array<byte>, from: nat)
    requires NUL in pstr[..] && 0 < from <= |CStr(pstr[..])|
    modifies pstr
    ensures NUL in pstr[..] && CStr(pstr[..]) == old(CStr(pstr[..]))[from..]
  {
    hide CStr;
    ghost var was := pstr[..];
    ghost var s := CStr(was);
    ghost var tail := s[from..];
    CStrShort(was);
    assert forall k :: 0 <= k < |s| ==> was[k] == s[k] && s[k] in s;
    var i, j := from, 0;
    while pstr[i] != NUL
      invariant i == from + j && i <= |s|
      invariant forall k :: i <= k <= |s| ==> pstr[k] == was[k]
      invariant pstr[..j] == s[from..i]
      decreases |s| - i
    {
      pstr[j] := pstr[i];
      i := i + 1;
      j := j + 1;
    }
    assert i == |s|;
    pstr[j] := NUL;
    assert pstr[..][j] == NUL && pstr[..][..j] == tail;
    CStrIs(pstr[..], tail);
  }

  function Before(s: seq<byte>, sep: byte): (b: seq<byte>)
  {
    if s == [] || s[0] == sep then [] else [s[0]] + Before(s[1..], sep)
  }

  function After(s: seq<byte>, sep: byte): (a: seq<byte>)
    ensures |a| <= |s| && (s != [] ==> |a| < |s|)
  {
    if s == [] then [] else if s[0] == sep then s[1..] else After(s[1..], sep)
  }

  /** The parts around the first separator make up the string, the first one without it. */
  lemma {:induction false} BeforeAfter(s: seq<byte>, sep: byte)
    ensures sep !in Before(s, sep)
    ensures if sep in s then s == Before(s, sep) + [sep] + After(s, sep) else Before(s, sep) == s && After(s, sep) == []
  {
    if s != [] && s[0] != sep {
      var rest := s[1..];
      assert Before(s, sep) == [s[0]] + Before(rest, sep) && After(s, sep) == After(rest, sep);
      hide Before, After;
      BeforeAfter(rest, sep);
      assert s == [s[0]] + rest;
      assert sep in s <==> sep in rest;
      Regroup(s[0], Before(rest, sep), [sep] + After(rest, sep));
    }
  }

  lemma Regroup(first: byte, middle: seq<byte>, last: seq<byte>)
    ensures [first] + (middle + last) == ([first] + middle) + last
  {
  }

  /** A string goes on where its bytes are no NUL, and is complete where they are. */
  lemma CStrStarts(s: seq<byte>, i: nat)
    requires i <= |CStr(s)|
    ensures CStr(s)[..i] == s[..i]
    ensures i < |s| && s[i] != NUL ==> i < |CStr(s)| && CStr(s)[..i + 1] == s[..i + 1]
    ensures i == |s| || s[i] == NUL ==> CStr(s) == s[..i]
  {
    hide CStr;
    var t := CStr(s);
    assert i < |t| ==> t[i] in t && t[i] == s[i];
    assert t == s[..|t|];
  }

  lemma CStrShort(s: seq<byte>)
    requires NUL in s
    ensures |CStr(s)| < |s|
  {
    assert |CStr(s)| == |s| ==> CStr(s) == s;
  }

  lemma CStrIs(s: seq<byte>, t: seq<byte>)
    requires |t| < |s| && s[..|t|] == t && s[|t|] == NUL && NUL !in t
    ensures CStr(s) == t
  {
    CStrUnique(s, t);
  }

  // ----- the components of a destination -----

  /** The parts between the slashes; never empty, and a trailing slash ends in an empty component. */
  function Components(s: seq<byte>): (c: seq<seq<byte>>)
    ensures c != []
    decreases |s|
  {
    if SLASH in s then [Before(s, SLASH)] + Components(After(s, SLASH)) else [s]
  }

  /** The parts one after the other, with a slash between any two. */
  function Joined(parts: seq<seq<byte>>): seq<byte>
    requires parts != []
  {
    if |parts| == 1 then parts[0] else parts[0] + [47] + Joined(parts[1..])
  }

  /** The components have no slash in them and make up the string again. */
  lemma {:induction false} ComponentsMakeUp(s: seq<byte>)
    ensures Joined(Components(s)) == s
    ensures forall c :: c in Components(s) ==> 47 !in c
    decreases |s|
  {
    hide Before, After;
    BeforeAfter(s, SLASH);
    if SLASH in s {
      ComponentsMakeUp(After(s, SLASH));
      assert Components(s)[1..] == Components(After(s, SLASH));
      hide Components;
    }
  }

  /** And they are the only such parts. */
  lemma {:induction false} ComponentsOfJoined(parts: seq<seq<byte>>)
    requires parts != [] && forall c :: c in parts ==> 47 !in c
    ensures Components(Joined(parts)) == parts
  {
    hide Before, After;
    if |parts| > 1 {
      var rest := Joined(parts[1..]);
      ComponentsOfJoined(parts[1..]);
      assert parts[0] in parts;
      SplitAt(parts[0], rest);
      assert parts == [parts[0]] + parts[1..];
      assert SLASH in parts[0] + [47] + rest;
    } else {
      assert parts[0] in parts && parts == [parts[0]];
    }
  }

  lemma {:induction false} SplitAt(first: seq<byte>, rest: seq<byte>)
    requires SLASH !in first
    ensures Before(first + [47] + rest, SLASH) == first && After(first + [47] + rest, SLASH) == rest
  {
    var s := first + [47] + rest;
    if first != [] {
      assert s[0] == first[0] && first[0] in first;
      assert s[1..] == first[1..] + [47] + rest;
      SplitAt(first[1..], rest);
    }
  }

  /** The text of a path, split at its slashes, gives the names back, between an empty part and another. */
  lemma {:induction false} PathTextSplits(path: seq<Name>)
    requires forall i :: 0 <= i < |path| ==> 47 !in CStr(path[i])
    ensures Components(PathText(path)) == [[]] + seq(|path|, i requires 0 <= i < |path| => CStr(path[i])) + [[]]
  {
    var texts := seq(|path|, i requires 0 <= i < |path| => CStr(path[i]));
    PathTextIsJoined(path);
    hide CStr, PathText, Components, Joined;
    ComponentsOfJoined([[]] + texts + [[]]);
  }

  lemma {:induction false} PathTextIsJoined(path: seq<Name>)
    ensures PathText(path) == Joined([[]] + seq(|path|, i requires 0 <= i < |path| => CStr(path[i])) + [[]])
  {
    hide CStr, Joined;
    var texts := seq(|path|, i requires 0 <= i < |path| => CStr(path[i]));
    if path == [] {
      assert [[]] + texts + [[]] == [[], []];
      JoinedRoot();
    } else {
      var above := path[..|path| - 1];
      var before := seq(|above|, i requires 0 <= i < |above| => CStr(above[i]));
      PathTextIsJoined(above);
      assert texts == before + [CStr(path[|path| - 1])];
      JoinedSnoc([[]] + before, []);
      JoinedSnoc([[]] + before, CStr(path[|path| - 1]));
      JoinedSnoc([[]] + texts, []);
      assert [[]] + texts == ([[]] + before) + [CStr(path[|path| - 1])];
      var t := Joined([[]] + before);
      assert t + [47] + [] + CStr(path[|path| - 1]) + [47] == t + [47] + CStr(path[|path| - 1]) + [47] + [];
    }
  }

  lemma JoinedRoot()
    ensures Joined([[], []]) == [47]
  {
    var parts: seq<seq<byte>> := [[], []];
    assert parts[1..] == [[]];
  }

  lemma {:induction false} JoinedSnoc(parts: seq<seq<byte>>, last: seq<byte>)
    requires parts != []
    ensures Joined(parts + [last]) == Joined(parts) + [47] + last
  {
    assert (parts + [last])[1..] == parts[1..] + [last];
    if |parts| > 1 {
      JoinedSnoc(parts[1..], last);
    } else {
      assert parts[1..] + [last] == [last];
    }
  }

  function PaddedAll(parts: seq<seq<byte>>): (names: seq<Name>)
    ensures |names| == |parts|
  {
    seq(|parts|, i requires 0 <= i < |parts| => Padded(parts[i]))
  }

  /** The start of a way down, and the names it is to follow. */
  datatype Trip = Trip(fs: Fs, cwd: ClusterNo, path: seq<Name>, names: seq<Name>)

  /** After count names the shell is where they lead, and the rest of the string spells the other names. */
  ghost predicate Descending(trip: Trip, s: seq<byte>, count: nat, path: seq<Name>, cwd: ClusterNo)
  {
    NUL !in s && DOTDOT !in Components(s) && count <= |trip.names| &&
    path == trip.path + trip.names[..count] &&
    trip.names[count..] == PaddedAll(Components(s)) &&
    Resolve(trip.fs, trip.cwd, trip.names) == Resolve(trip.fs, cwd, trip.names[count..])
  }

  lemma DescendStart(trip: Trip, s: seq<byte>)
    requires NUL !in s && DOTDOT !in Components(s) && trip.names == PaddedAll(Components(s))
    ensures Descending(trip, s, 0, trip.path, trip.cwd)
  {
    assert trip.names[0..] == trip.names && trip.path + trip.names[..0] == trip.path;
  }

  lemma DescendStep(trip: Trip, s: seq<byte>, count: nat, path: seq<Name>, cwd: ClusterNo)
    requires Descending(trip, s, count, path, cwd)
    ensures var first := Before(s, SLASH); var name := Padded(first);
            first != DOTDOT && count < |trip.names| && SLASH !in CStr(name) && |CStr(name)| <= |s| &&
            match ChildDir(trip.fs, cwd, name)
            case None => Resolve(trip.fs, trip.cwd, trip.names) == None
            case Some(c) =>
              if SLASH in s then
                Descending(trip, After(s, SLASH), count + 1, path + [name], c) &&
                |CStr(name)| + 1 + |After(s, SLASH)| <= |s| && |After(s, SLASH)| < |s|
              else
                count + 1 == |trip.names| && path + [name] == trip.path + trip.names[..count + 1] &&
                Resolve(trip.fs, trip.cwd, trip.names) == Some(c)
    ensures path == trip.path + trip.names[..count]
  {
    hide ChildDir, CStr, Padded, Components, PaddedAll, Before, After;
    ComponentFacts(s);
    BeforeAfter(s, SLASH);
    var rest := trip.names[count..];
    assert rest[1..] == trip.names[count + 1..];
    assert trip.names[..count + 1] == trip.names[..count] + [rest[0]];
    assert Components(s)[0] in Components(s);
    if SLASH !in s {
      assert rest == PaddedAll([s]) && |rest| == 1;
      assert rest[1..] == [];
      var found := ChildDir(trip.fs, cwd, rest[0]);
      assert found.Some? ==> Resolve(trip.fs, found.value, rest[1..]) == found;
    }
    forall x | x in Components(s)[1..] ensures x in Components(s) {}
  }

  /** What the first round of the loop deals with, and what is left for the next. */
  lemma ComponentFacts(s: seq<byte>)
    requires NUL !in s
    ensures Components(s)[0] == Before(s, SLASH)
    ensures SLASH in s ==>
              Components(s)[1..] == Components(After(s, SLASH)) && |s| == |Before(s, SLASH)| + 1 + |After(s, SLASH)|
    ensures SLASH !in s ==> Components(s) == [s] && Before(s, SLASH) == s
    ensures PaddedAll(Components(s))[0] == Padded(Before(s, SLASH))
    ensures PaddedAll(Components(s))[1..] == PaddedAll(Components(s)[1..])
    ensures SLASH !in CStr(Padded(Before(s, SLASH))) && |CStr(Padded(Before(s, SLASH)))| <= |Before(s, SLASH)|
  {
    hide Padded, Before, After, CStr;
    BeforeAfter(s, SLASH);
    PaddedText(Before(s, SLASH));
    assert PaddedAll(Components(s))[0] == Padded(Components(s)[0]);
  }

  /** The name is the argument, cut off after eight bytes, with NULs behind it. */
  lemma PaddedText(argument: seq<byte>)
    requires NUL !in argument
    ensures CStr(Padded(argument)) == if |argument| >= 8 then argument[..8] else argument
    ensures forall k :: |argument| <= k < 8 ==> Padded(argument)[k] == 0
  {
    var t := if |argument| >= 8 then argument[..8] else argument;
    CStrUnique(Padded(argument), t);
  }

  function Front(parts: seq<seq<byte>>): seq<seq<byte>>
    requires parts != []
  {
    parts[..|parts| - 1]
  }

  /** One cd: up for "..", into the directory of that name, or nowhere. */
  function Moved(fs: Fs, d: ClusterNo, part: seq<byte>): (c: ClusterNo)
    requires d == ROOT || ParentOf(fs, d) < CLUSTER_MAP_SIZE
  {
    if part == DOTDOT then (if d == ROOT then d else ParentOf(fs, d))
    else match ChildDir(fs, d, Padded(part)) case Some(c) => c case None => d
  }

  /** A series of cds, each from where the one before has led. */
  function Walk(fs: Fs, d: ClusterNo, parts: seq<seq<byte>>): ClusterNo
    decreases parts
  {
    if parts == [] || !(d == ROOT || ParentOf(fs, d) < CLUSTER_MAP_SIZE) then d
    else Walk(fs, Moved(fs, d, parts[0]), parts[1..])
  }

  /** Where every part is a directory, the walk is the resolution of the names. */
  lemma {:induction false} WalkIsResolve(fs: Fs, g: Shape, d: nat, parts: seq<seq<byte>>)
    requires InOrder(fs, g) && d in g.depth && d < CLUSTER_MAP_SIZE && DOTDOT !in parts
    ensures Resolve(fs, d, PaddedAll(parts)).Some? ==> Walk(fs, d, parts) == Resolve(fs, d, PaddedAll(parts)).value
    decreases parts
  {
    hide InOrder, ChildDir, Padded, ParentOf, DOTDOT;
    if parts != [] {
      var name := Padded(parts[0]);
      assert PaddedAll(parts)[0] == name && PaddedAll(parts)[1..] == PaddedAll(parts[1..]);
      ParentInTable(fs, g, d);
      ChildThenParent(fs, g, d, name);
      if ChildDir(fs, d, name).Some? {
        WalkIsResolve(fs, g, ChildDir(fs, d, name).value, parts[1..]);
      }
    }
  }

  /** cd ".." from the root goes nowhere, and from elsewhere to where the path without its last name leads. */
  lemma UpLeadsToParent(fs: Fs, g: Shape, s: Spot)
    requires InOrder(fs, g) && Spells(fs, g, s.path, s.cwd)
    ensures s.path == [] ==> CdStep(fs, s, [46, 46]) == s
    ensures s.path != [] ==>
              CdStep(fs, s, [46, 46]).path == s.path[..|s.path| - 1] &&
              Resolve(fs, ROOT, s.path[..|s.path| - 1]) == Some(CdStep(fs, s, [46, 46]).cwd)
  {
    hide InOrder, ChildDir, ParentOf, Padded, Spells, Resolve;
    SpellsUp(fs, g, s.path, s.cwd);
    if s.path != [] {
      SpelledIsResolved(fs, g, s.path[..|s.path| - 1], ParentOf(fs, s.cwd));
    }
  }

  /** A walk goes where the same cds go, those to ".." included. */
  lemma {:induction false} WalkIsCds(fs: Fs, g: Shape, s: Spot, parts: seq<seq<byte>>)
    requires InOrder(fs, g) && Spells(fs, g, s.path, s.cwd)
    requires forall i :: 0 <= i < |parts| ==> SlashFree(parts[i])
    ensures Walk(fs, s.cwd, parts) == CdAll(fs, s, parts).cwd
    decreases parts
  {
    hide InOrder, Spells, SlashFree, ChildDir, ParentOf, Padded;
    SpellsUp(fs, g, s.path, s.cwd);
    if parts != [] {
      CdStepKeeps(fs, g, s, parts[0]);
      WalkIsCds(fs, g, CdStep(fs, s, parts[0]), parts[1..]);
    }
  }

  /** Every part of a string between slashes is free of slashes as a name, too. */
  lemma FrontIsSlashFree(s: seq<byte>)
    requires NUL !in s
    ensures forall i :: 0 <= i < |Front(Components(s))| ==> SlashFree(Front(Components(s))[i])
  {
    hide Components, Padded, CStr, Joined;
    ComponentsMakeUp(s);
    ComponentsHaveNoNul(s);
    forall i | 0 <= i < |Front(Components(s))| ensures SlashFree(Front(Components(s))[i])
    {
      var part := Components(s)[i];
      assert part in Components(s);
      PaddedText(part);
    }
  }

  lemma {:induction false} ComponentsHaveNoNul(s: seq<byte>)
    requires NUL !in s
    ensures forall c :: c in Components(s) ==> NUL !in c
    decreases |s|
  {
    hide Before, After;
    BeforeAfter(s, SLASH);
    if SLASH in s { ComponentsHaveNoNul(After(s, SLASH)); }
  }

  lemma ParentInTable(fs: Fs, g: Shape, d: nat)
    requires InOrder(fs, g) && d in g.depth && d < CLUSTER_MAP_SIZE
    ensures ParentOf(fs, d) < CLUSTER_MAP_SIZE
  {
    assert DirOk(fs, g, d);
  }

  lemma WalkStep(fs: Fs, d: ClusterNo, s: seq<byte>)
    requires NUL !in s
    ensures SLASH !in s ==> Walk(fs, d, Front(Components(s))) == d
    ensures SLASH in s && (d == ROOT || ParentOf(fs, d) < CLUSTER_MAP_SIZE) ==>
              Walk(fs, d, Front(Components(s))) ==
                  Walk(fs, Moved(fs, d, Before(s, SLASH)), Front(Components(After(s, SLASH))))
  {
    hide Moved, ParentOf, Before, After;
    ComponentFacts(s);
    if SLASH in s {
      assert Front(Components(s))[0] == Before(s, SLASH);
      assert Front(Components(s))[1..] == Front(Components(After(s, SLASH)));
    }
  }

  lemma {:induction false} PathTextHasNoNul(path: seq<Name>)
    ensures NUL !in PathText(path)
  {
    hide CStr;
    if path != [] {
      PathTextHasNoNul(path[..|path| - 1]);
    }
  }

  lemma {:induction false} CStrAtLeast(s: seq<byte>, n: nat)
    requires n <= |s| && NUL !in s[..n]
    ensures n <= |CStr(s)|
  {
    if n > 0 {
      assert s[..n][0] == s[0] && s[..n][1..] == s[1..][..n - 1];
      CStrAtLeast(s[1..], n - 1);
    }
  }

  /** No directory found below another is the root: its number is never the code of "not found". */
  lemma ChildIsNotRoot(fs: Fs, g: Shape, path: seq<Name>, d: nat, name: Name)
    requires InOrder(fs, g) && Spells(fs, g, path, d)
    ensures ChildDir(fs, d, name).Some? ==> ChildDir(fs, d, name).value != ROOT
  {
    hide InOrder, ChildDir;
    ChildThenParent(fs, g, d, name);
  }

  /** Without a dot there is no ".." among the components. */
  lemma {:induction false} NoDots(s: seq<byte>)
    requires DOT !in s
    ensures DOTDOT !in Components(s)
    decreases |s|
  {
    BeforeAfter(s, SLASH);
    if SLASH in s {
      assert forall b :: b in Before(s, SLASH) ==> b in s;
      assert forall b :: b in After(s, SLASH) ==> b in s;
      assert DOTDOT[0] == DOT;
      NoDots(After(s, SLASH));
    } else {
      assert DOTDOT[0] == DOT;
    }
  }

  /** The store after a copy along the path s: the write at its end, when it leads anywhere. */
  function Copied(fs: Fs, from: ClusterNo, s: seq<byte>, name: Name, ext: Ext, data: seq<byte>): Fs
    requires |data| == CLUSTER_SIZE
  {
    match Resolve(fs, from, PaddedAll(Components(s)))
    case None => fs
    case Some(d) => OneCluster(); Store.Write(fs, Request(name, ext, d, CLUSTER_SIZE), data)
  }

  /** The write at the end of a copy: the data reads back under its key, and the map has one item more. */
  lemma CopyIsRead(fs: Fs, g: Shape, r: Request, data: seq<byte>)
    requires InOrder(fs, g) && r.parent in g.depth && r.size == CLUSTER_SIZE == |data|
    requires WriteCode(fs, r) == 0 ==> WriteFits(fs, r)
    ensures ClusterCount(CLUSTER_SIZE) == 1
    ensures WriteCode(fs, r) != 0 ==> Store.Write(fs, r, data) == fs
    ensures WriteCode(fs, r) == 0 ==>
              ReadCode(Store.Write(fs, r, data), r) == 0 && data <= ReadData(Store.Write(fs, r, data), r)
    ensures WriteCode(fs, r) == 0 ==>
              forall a :: Represents(fs, g, a) ==>
                Represents(Store.Write(fs, r, data), ShapeAfterWrite(fs, g, r),
                           Abstract(a.items[Key(r.parent, r.name, r.ext) := File(data)], a.names))
  {
    hide Inv, Conventional, WriteCode, WriteFits, ClusterCount, Written, WrittenShape, TakenCells, ReadCode, ReadData,
         Represents, FirstFree, FreeSlot;
    OneCluster();
    if WriteCode(fs, r) == 0 {
      assert WriteReady(fs, g, r, data);
      Runs.WrittenFileIsRead(fs, g, r, data);
      WriteKeepsInv(fs, g, r, data);
      assert data[..r.size] == data;
      forall a | Represents(fs, g, a)
        ensures Represents(Store.Write(fs, r, data), ShapeAfterWrite(fs, g, r),
                           Abstract(a.items[Key(r.parent, r.name, r.ext) := File(data)], a.names))
      {
        WriteRepresents(fs, g, a, r, data);
      }
    }
  }

  predicate CopyFits(fs: Fs, from: ClusterNo, s: seq<byte>, name: Name, ext: Ext)
  {
    match Resolve(fs, from, PaddedAll(Components(s)))
    case None => true
    case Some(d) =>
      var r := Request(name, ext, d, CLUSTER_SIZE);
      WriteCode(fs, r) == 0 ==> WriteFits(fs, r)
  }

  /** The directory that names lead to is one of the tree. */
  lemma {:induction false} ResolvedLives(fs: Fs, g: Shape, d: nat, names: seq<Name>)
    requires InOrder(fs, g) && d in g.depth && d < CLUSTER_MAP_SIZE
    ensures Resolve(fs, d, names).Some? ==> Resolve(fs, d, names).value in g.depth
    decreases names
  {
    hide InOrder, ChildDir;
    if names != [] {
      ChildThenParent(fs, g, d, names[0]);
      if ChildDir(fs, d, names[0]).Some? {
        ResolvedLives(fs, g, ChildDir(fs, d, names[0]).value, names[1..]);
      }
    }
  }

  /** A copy leaves the store in order exactly when the write at the end of its path fits, if it goes through. */
  lemma CopySafeIff(fs: Fs, g: Shape, from: nat, s: seq<byte>, name: Name, ext: Ext, data: seq<byte>)
    requires InOrder(fs, g) && from in g.depth && from < CLUSTER_MAP_SIZE && |data| == CLUSTER_SIZE
    ensures Sound(Copied(fs, from, s, name, ext, data)) <==> CopyFits(fs, from, s, name, ext)
  {
    hide Inv, Resolve, WriteCode, WriteFits, ClusterCount, Store.Write, Conventional, Components, PaddedAll;
    var names := PaddedAll(Components(s));
    ResolvedLives(fs, g, from, names);
    OneCluster();
    match Resolve(fs, from, names)
    case None =>
    case Some(d) => WriteSafeIff(fs, g, Request(name, ext, d, CLUSTER_SIZE), data);
  }

  lemma OneCluster()
    ensures ClusterCount(CLUSTER_SIZE) == 1
  {
  }

  /** No write that fits moves a directory or renames it: paths mean the same afterwards. */
  lemma WriteKeepsPaths(fs: Fs, g: Shape, r: Request, data: seq<byte>)
    requires InOrder(fs, g) && r.parent in g.depth
    requires (r.ext == DIR_EXT <==> r.size == 0) && |data| >= ClusterCount(r.size) * CLUSTER_SIZE
    requires WriteCode(fs, r) == 0 ==> WriteFits(fs, r)
    ensures InOrder(Store.Write(fs, r, data), ShapeAfterWrite(fs, g, r))
    ensures forall d :: d in g.depth && d < CLUSTER_MAP_SIZE ==>
              d in ShapeAfterWrite(fs, g, r).depth && Slot(Store.Write(fs, r, data), d, 0) == Slot(fs, d, 0)
  {
    hide Inv, Conventional, DecodeTable, FreeUpTo, FreeSlot, ClusterCount, WriteCode, Written, WrittenShape,
         TakenCells, FirstFree, NewEntry, Find;
    if WriteCode(fs, r) == 0 {
      WriteKeepsInv(fs, g, r, data);
      WriteKeepsConvention(fs, g, r, data);
      WrittenTabs(fs, g, r, data);
      WrittenDepth(fs, g, r, data);
    }
  }

  lemma CodeIgnoresSize(fs: Fs, r: Request)
    requires r.ext == DIR_EXT
    ensures ReadDirectoryCode(fs, r) == ReadDirectoryCode(fs, Request(r.name, DIR_EXT, r.parent, 0))
    ensures !BlankKey(r)
  {
  }

  lemma SpellsChild(fs: Fs, g: Shape, path: seq<Name>, d: nat, name: Name)
    requires InOrder(fs, g) && Spells(fs, g, path, d) && SLASH !in CStr(name)
    ensures ChildDir(fs, d, name).Some? ==> Spells(fs, g, path + [name], ChildDir(fs, d, name).value)
  {
    hide InOrder, Slot, ChildDir, CStr;
    ChildThenParent(fs, g, d, name);
    PathTextSnoc(path, name);
  }

  lemma SpellsIn(fs: Fs, g: Shape, path: seq<Name>, c: nat)
    requires Spells(fs, g, path, c)
    ensures c in g.depth && c < CLUSTER_MAP_SIZE
  {
  }

  lemma SpellsUp(fs: Fs, g: Shape, path: seq<Name>, c: nat)
    requires Spells(fs, g, path, c)
    ensures c in g.depth && c < CLUSTER_MAP_SIZE && (path == [] <==> c == ROOT)
    ensures path != [] ==>
              ParentOf(fs, c) < CLUSTER_MAP_SIZE && Spells(fs, g, path[..|path| - 1], ParentOf(fs, c)) &&
              SLASH !in CStr(path[|path| - 1])
  {
    hide Slot, CStr;
  }
}
