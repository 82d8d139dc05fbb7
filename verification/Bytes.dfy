/**
 The byte-level helpers of src/stdlib/string.c: comparison, length of a C string and the
 ascending copy that the screen relies on.
 */
module Bytes {

  type byte = x: int | 0 <= x < 256

  const NUL: byte := 0
  const NEWLINE: byte := 10
  const SPACE: byte := 32
  const SLASH: byte := 47
  const DOT: byte := 46

  /** The part of a buffer before its first NUL; the whole buffer when it has none. */
  function CStr(s: seq<byte>): (t: seq<byte>)
    ensures t <= s && NUL !in t
    ensures |t| < |s| ==> s[|t|] == NUL
  {
    if s == [] || s[0] == NUL then [] else [s[0]] + CStr(s[1..])
  }

  /** CStr is the only NUL-free prefix that stops at a NUL or at the end of the buffer. */
  lemma {:induction false} CStrUnique(s: seq<byte>, t: seq<byte>)
    requires t <= s && NUL !in t
    requires |t| < |s| ==> s[|t|] == NUL
    ensures t == CStr(s)
  {
    if t != [] {
      assert t[0] == s[0] && t[0] in t;
      CStrUnique(s[1..], t[1..]);
    }
  }

  method StrLen(s: seq<byte>) returns (res: nat)
    ensures res == |CStr(s)| && CStr(s) == s[..res]
  {
    res := 0;
    while res < |s| && s[res] != NUL
      invariant res <= |s|
      invariant NUL !in s[..res]
    {
      res := res + 1;
    }
    CStrUnique(s, s[..res]);
  }

  /** The order that memcmp reports: the sign of the first difference, 0 when there is none. */
  function Compare(a: seq<byte>, b: seq<byte>): int
    requires |a| == |b|
  {
    if a == [] then 0
    else if a[0] < b[0] then -1
    else if a[0] > b[0] then 1
    else Compare(a[1..], b[1..])
  }

  lemma {:induction false} CompareSplit(a: seq<byte>, b: seq<byte>, k: nat)
    requires |a| == |b| && k <= |a| && a[..k] == b[..k]
    ensures Compare(a, b) == Compare(a[k..], b[k..])
  {
    if k == 0 {
      assert a[0..] == a && b[0..] == b;
    } else {
      assert a[0] == a[..k][0] == b[..k][0] == b[0];
      assert a[1..][..k - 1] == a[..k][1..] == b[..k][1..] == b[1..][..k - 1];
      CompareSplit(a[1..], b[1..], k - 1);
      assert a[1..][k - 1..] == a[k..] && b[1..][k - 1..] == b[k..];
    }
  }

  lemma {:induction false} CompareZero(a: seq<byte>, b: seq<byte>)
    requires |a| == |b|
    ensures Compare(a, b) == 0 <==> a == b
  {
    if a != [] {
      CompareZero(a[1..], b[1..]);
      assert a == [a[0]] + a[1..] && b == [b[0]] + b[1..];
    }
  }

  /** The first place where two regions differ, and that the order is decided there. */
  lemma {:induction false} FirstDifference(a: seq<byte>, b: seq<byte>) returns (k: nat)
    requires |a| == |b| && a != b
    ensures k < |a| && a[..k] == b[..k] && a[k] != b[k]
    ensures Compare(a, b) == if a[k] > b[k] then 1 else -1
  {
    if a[0] != b[0] {
      k := 0;
    } else {
      assert a == [a[0]] + a[1..] && b == [b[0]] + b[1..];
      var j := FirstDifference(a[1..], b[1..]);
      k := j + 1;
      assert a[..k] == [a[0]] + a[1..][..j] && b[..k] == [b[0]] + b[1..][..j];
    }
  }

  /** The sign of the comparison, told by the first byte that differs. */
  lemma CompareSign(a: seq<byte>, b: seq<byte>)
    requires |a| == |b|
    ensures Compare(a, b) == 1 <==> exists k :: 0 <= k < |a| && a[..k] == b[..k] && a[k] > b[k]
    ensures Compare(a, b) == -1 <==> exists k :: 0 <= k < |a| && a[..k] == b[..k] && a[k] < b[k]
    ensures Compare(a, b) == 0 <==> a == b
  {
    CompareZero(a, b);
    if a != b {
      var k := FirstDifference(a, b);
      hide Compare;
      assert forall i :: 0 <= i < k ==> a[..k][i] == a[i] && b[..k][i] == b[i];
      forall j | 0 <= j < |a| && a[..j] == b[..j] && a[j] != b[j] ensures j == k
      {
        assert forall i :: 0 <= i < j ==> a[..j][i] == a[i] && b[..j][i] == b[i];
      }
    }
  }

  /** memcmp: the first byte that differs decides, and nothing behind it. */
  method MemCmp(a: seq<byte>, b: seq<byte>) returns (r: int)
    requires |a| == |b|
    ensures r == Compare(a, b)
    ensures r == 0 <==> a == b
    ensures r == 1 <==> exists k :: 0 <= k < |a| && a[..k] == b[..k] && a[k] > b[k]
    ensures r == -1 <==> exists k :: 0 <= k < |a| && a[..k] == b[..k] && a[k] < b[k]
  {
    CompareSign(a, b);
    for i := 0 to |a|
      invariant a[..i] == b[..i]
    {
      if a[i] < b[i] {
        CompareSplit(a, b, i);
        return -1;
      } else if a[i] > b[i] {
        CompareSplit(a, b, i);
        return 1;
      }
    }
    return 0;
  }

  /**
   memcpy inside one memory: ascending, byte by byte. With the destination below the source the
   regions may overlap and the copy still moves the old bytes.
   */
  method MemCpyDown(mem: array<byte>, dst: nat, src: nat, n: nat)
    requires dst <= src && src + n <= mem.Length
    modifies mem
    ensures mem[..] == old(mem[..dst] + mem[src..src + n] + mem[dst + n..])
  {
    ghost var was := mem[..];
    ghost var gap := src - dst;
    for i := 0 to n
      invariant forall k :: dst <= k < dst + i ==> mem[k] == was[k + gap]
      invariant forall k :: 0 <= k < dst || dst + i <= k < mem.Length ==> mem[k] == was[k]
    {
      mem[dst + i] := mem[src + i];
    }
    assert mem[..] == was[..dst] + was[src..src + n] + was[dst + n..];
  }
}
