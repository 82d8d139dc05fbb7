/** Chains of clusters in the file allocation table: following, linking, clearing and counting them. */
module Chains {
  import opened Layout

  /** An acyclic list of cells, each naming the next, the last one holding END_OF_FILE. */
  ghost predicate IsChain(f: Fat, ch: seq<nat>)
  {
    ch != [] &&
    (forall k :: 0 <= k < |ch| ==> ROOT <= ch[k] < CLUSTER_MAP_SIZE) &&
    (forall k :: 0 <= k < |ch| - 1 ==> f[ch[k]] == ch[k + 1]) &&
    f[ch[|ch| - 1]] == END_OF_FILE &&
    (forall j, k :: 0 <= j < k < |ch| ==> ch[j] != ch[k])
  }

  /**
   The cells that a chain-following loop visits from c, at most fuel of them. A loop that leaves the
   table goes on in memory behind it, of which nothing is said.
   */
  function Follow(f: Fat, c: nat, fuel: nat): seq<nat>
    decreases fuel
  {
    if fuel == 0 || c >= CLUSTER_MAP_SIZE then []
    else if f[c] == END_OF_FILE then [c]
    else [c] + Follow(f, f[c], fuel - 1)
  }

  /** The chain that starts at c; a chain never has more cells than the table. */
  function ChainOf(f: Fat, c: nat): seq<nat>
  {
    Follow(f, c, CLUSTER_MAP_SIZE)
  }

  lemma {:induction false} FollowChain(f: Fat, ch: seq<nat>, fuel: nat)
    requires IsChain(f, ch) && |ch| <= fuel
    ensures Follow(f, ch[0], fuel) == ch
  {
    if |ch| > 1 {
      assert f[ch[0]] == ch[1];
      forall k | 0 <= k < |ch[1..]| - 1
        ensures f[ch[1..][k]] == ch[1..][k + 1]
      {
        assert f[ch[k + 1]] == ch[k + 2];
      }
      FollowChain(f, ch[1..], fuel - 1);
    }
  }

  ghost function Cells(ch: seq<nat>): set<nat>
  {
    set c | c in ch
  }

  lemma {:induction false} DistinctSize(ch: seq<nat>)
    requires forall j, k :: 0 <= j < k < |ch| ==> ch[j] != ch[k]
    ensures |Cells(ch)| == |ch|
  {
    if ch != [] {
      var init, last := ch[..|ch| - 1], ch[|ch| - 1];
      DistinctSize(init);
      assert Cells(ch) == Cells(init) + {last};
    }
  }

  lemma SubsetSize<T>(a: set<T>, b: set<T>)
    requires a <= b
    ensures |a| <= |b|
  {
    if a != {} {
      var x :| x in a;
      SubsetSize(a - {x}, b - {x});
    }
  }

  /** All the cells of the table. */
  ghost function AllCells(): (s: set<nat>)
    ensures forall c: nat :: c < CLUSTER_MAP_SIZE ==> c in s
    ensures |s| == CLUSTER_MAP_SIZE
  {
    var ids: seq<nat> := seq(CLUSTER_MAP_SIZE, i => i);
    DistinctSize(ids);
    assert forall c: nat :: c < CLUSTER_MAP_SIZE ==> ids[c] == c && c in ids;
    Cells(ids)
  }

  /** A chain fits the table, so following it from its head gives the whole of it. */
  lemma ChainOfChain(f: Fat, ch: seq<nat>)
    requires IsChain(f, ch)
    ensures |ch| <= CLUSTER_MAP_SIZE && ChainOf(f, ch[0]) == ch
  {
    DistinctSize(ch);
    SubsetSize(Cells(ch), AllCells());
    FollowChain(f, ch, CLUSTER_MAP_SIZE);
  }

  /** The step of a chain-following loop: on to the next cell, or END_OF_FILE after the last. */
  lemma ChainNext(f: Fat, ch: seq<nat>, k: nat)
    requires IsChain(f, ch) && k < |ch|
    ensures ROOT <= ch[k] < CLUSTER_MAP_SIZE
    ensures if k + 1 < |ch| then f[ch[k]] == ch[k + 1] != END_OF_FILE else f[ch[k]] == END_OF_FILE
  {
  }

  /** A chain depends on its own cells only. */
  lemma ChainFrame(f: Fat, f': Fat, ch: seq<nat>)
    requires IsChain(f, ch) && forall c :: c in ch ==> f'[c] == f[c]
    ensures IsChain(f', ch) && ChainOf(f', ch[0]) == ch
  {
    ChainOfChain(f', ch);
  }

  // ----- free cells -----

  /** The empty cells of f between lo and hi, in ascending order. */
  function FreeUpTo(f: Fat, lo: nat, hi: nat): (s: seq<nat>)
    requires hi <= CLUSTER_MAP_SIZE
    ensures forall k :: 0 <= k < |s| ==> lo <= s[k] < hi && f[s[k]] == EMPTY
    ensures forall j, k :: 0 <= j < k < |s| ==> s[j] < s[k]
    ensures forall c :: lo <= c < hi && f[c] == EMPTY ==> c in s
  {
    if hi <= lo then []
    else if f[hi - 1] == EMPTY then FreeUpTo(f, lo, hi - 1) + [hi - 1]
    else FreeUpTo(f, lo, hi - 1)
  }

  /** The scans that start at 0 and at 2 see the same free cells: cells 0 and 1 are reserved. */
  lemma {:induction false} FreeScansAgree(f: Fat, hi: nat)
    requires ROOT <= hi <= CLUSTER_MAP_SIZE && f[0] != EMPTY && f[1] != EMPTY
    ensures FreeUpTo(f, 0, hi) == FreeUpTo(f, ROOT, hi)
  {
    if ROOT < hi {
      FreeScansAgree(f, hi - 1);
    } else {
      assert FreeUpTo(f, 0, 2) == FreeUpTo(f, 0, 1) == FreeUpTo(f, 0, 0);
    }
  }

  lemma {:induction false} FreePrefix(f: Fat, lo: nat, mid: nat, hi: nat)
    requires mid <= hi <= CLUSTER_MAP_SIZE
    ensures FreeUpTo(f, lo, mid) <= FreeUpTo(f, lo, hi)
    decreases hi
  {
    hide FreeUpTo;
    if mid < hi {
      FreePrefix(f, lo, mid, hi - 1);
      FreeGrows(f, lo, hi);
      var a, b, c := FreeUpTo(f, lo, mid), FreeUpTo(f, lo, hi - 1), FreeUpTo(f, lo, hi);
      PrefixOfPrefix(a, b, c);
    }
  }

  lemma FreeGrows(f: Fat, lo: nat, hi: nat)
    requires 0 < hi <= CLUSTER_MAP_SIZE
    ensures FreeUpTo(f, lo, hi - 1) <= FreeUpTo(f, lo, hi)
  {
    assert hi <= lo ==> FreeUpTo(f, lo, hi) == [] == FreeUpTo(f, lo, hi - 1);
  }

  lemma PrefixOfPrefix(a: seq<nat>, b: seq<nat>, c: seq<nat>)
    requires a <= b <= c
    ensures a <= c
  {
  }

  // ----- linking and clearing -----

  ghost predicate Allocatable(cells: seq<nat>)
  {
    (forall k :: 0 <= k < |cells| ==> ROOT <= cells[k] < CLUSTER_MAP_SIZE) &&
    (forall j, k :: 0 <= j < k < |cells| ==> cells[j] != cells[k])
  }

  /** The first k links of a chain over the given cells. */
  function LinkUpTo(f: Fat, cells: seq<nat>, k: nat): Fat
    requires k <= |cells| && forall i :: 0 <= i < |cells| ==> cells[i] < CLUSTER_MAP_SIZE
  {
    if k == 0 then f
    else LinkUpTo(f, cells, k - 1)[cells[k - 1] := if k == |cells| then END_OF_FILE else cells[k]]
  }

  lemma {:induction false} LinkAt(f: Fat, cells: seq<nat>, k: nat)
    requires k <= |cells| && Allocatable(cells)
    ensures forall j :: 0 <= j < k ==>
              LinkUpTo(f, cells, k)[cells[j]] == if j + 1 < |cells| then cells[j + 1] else END_OF_FILE
    ensures forall c :: 0 <= c < CLUSTER_MAP_SIZE && c !in cells[..k] ==> LinkUpTo(f, cells, k)[c] == f[c]
  {
    if k > 0 {
      LinkAt(f, cells, k - 1);
      assert cells[..k] == cells[..k - 1] + [cells[k - 1]];
    }
  }

  lemma LinkMakesChain(f: Fat, cells: seq<nat>)
    requires cells != [] && Allocatable(cells)
    ensures IsChain(LinkUpTo(f, cells, |cells|), cells)
    ensures ChainOf(LinkUpTo(f, cells, |cells|), cells[0]) == cells
    ensures forall c :: 0 <= c < CLUSTER_MAP_SIZE && c !in cells ==> LinkUpTo(f, cells, |cells|)[c] == f[c]
  {
    LinkAt(f, cells, |cells|);
    assert cells[..|cells|] == cells;
    ChainOfChain(LinkUpTo(f, cells, |cells|), cells);
  }

  /** What the freeing loop leaves after visiting the given cells. */
  function Clear(f: Fat, ch: seq<nat>): (f': Fat)
    ensures forall c :: 0 <= c < CLUSTER_MAP_SIZE ==> f'[c] == if c in ch then EMPTY else f[c]
  {
    seq(CLUSTER_MAP_SIZE, c requires 0 <= c < CLUSTER_MAP_SIZE => if c in ch then EMPTY else f[c])
  }

  /** Freeing freshly linked cells gives back the table, cell for cell. */
  lemma ClearUndoesLink(f: Fat, cells: seq<nat>)
    requires cells != [] && Allocatable(cells) && forall c :: c in cells ==> f[c] == EMPTY
    ensures Clear(LinkUpTo(f, cells, |cells|), cells) == f
  {
    LinkMakesChain(f, cells);
  }

  /** Clearing one more cell of a chain; its link was still there to be read. */
  lemma ClearNext(f: Fat, ch: seq<nat>, k: nat)
    requires IsChain(f, ch) && k < |ch|
    ensures Clear(f, ch[..k])[ch[k]] == f[ch[k]]
    ensures Clear(f, ch[..k])[ch[k] := EMPTY] == Clear(f, ch[..k + 1])
  {
    assert ch[k] !in ch[..k];
    assert ch[..k + 1] == ch[..k] + [ch[k]];
    assert forall c :: c in ch[..k + 1] <==> c in ch[..k] || c == ch[k];
  }
}
