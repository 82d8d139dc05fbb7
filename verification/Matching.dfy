/** The two string searches of src/fat32.c: Knuth-Morris-Pratt and Boyer-Moore (bad character). */
module Matching {
  import opened Bytes

  predicate OccursAt(p: seq<byte>, t: seq<byte>, s: int)
  {
    0 <= s <= |t| - |p| && t[s..s + |p|] == p
  }

  /** What both searches are for. */
  ghost predicate Occurs(p: seq<byte>, t: seq<byte>)
  {
    exists s :: OccursAt(p, t, s)
  }

  // ----- prefixes that end at a position of the text -----

  /** The first k bytes of p are the last k of the first i bytes of t. */
  predicate Ends(p: seq<byte>, t: seq<byte>, i: int, k: int)
  {
    0 <= k <= |p| && k <= i <= |t| && p[..k] == t[i - k..i]
  }

  /** k is a border of the first i bytes of p: a proper prefix of them that is also a suffix. */
  predicate Border(p: seq<byte>, i: int, k: int)
  {
    k < i && Ends(p, p, i, k)
  }

  ghost predicate LongestBorder(p: seq<byte>, i: int, k: int)
  {
    Border(p, i, k) && forall l :: k < l ==> !Border(p, i, l)
  }

  /** A pattern occurs in a text that is something, the pattern, and something again. */
  lemma OccursIsPart(p: seq<byte>, t: seq<byte>)
    ensures Occurs(p, t) <==> exists a, b :: a + p + b == t
  {
    if Occurs(p, t) {
      var s :| OccursAt(p, t, s);
      assert t[..s] + p + t[s + |p|..] == t;
    }
    forall a: seq<byte>, b: seq<byte> | a + p + b == t ensures Occurs(p, t)
    {
      assert t[|a|..|a| + |p|] == p;
      assert OccursAt(p, t, |a|);
    }
  }

  /** One more byte of text extends exactly the matches whose next pattern byte agrees. */
  lemma EndsStep(p: seq<byte>, t: seq<byte>, i: int, k: int)
    requires 0 <= i < |t| && 0 <= k < |p|
    ensures Ends(p, t, i + 1, k + 1) <==> Ends(p, t, i, k) && p[k] == t[i]
  {
    if k <= i {
      assert p[..k + 1] == p[..k] + [p[k]];
      assert t[i - k..i + 1] == t[i - k..i] + [t[i]];
      if Ends(p, t, i + 1, k + 1) {
        assert p[..k] == p[..k + 1][..k] == t[i - k..i + 1][..k] == t[i - k..i];
        assert p[k] == p[..k + 1][k] == t[i - k..i + 1][k] == t[i];
      }
    }
  }

  /** Below a match of length j, the matches are the prefixes that end p[..j]. */
  lemma EndsBelow(p: seq<byte>, t: seq<byte>, i: int, j: int, k: int)
    requires Ends(p, t, i, j) && 0 <= k <= j
    ensures Ends(p, t, i, k) <==> Ends(p, p, j, k)
  {
    assert t[i - k..i] == t[i - j..i][j - k..] == p[..j][j - k..] == p[j - k..j];
  }

  // ----- the scanning step, shared by the table and the search -----

  /** No prefix of p longer than k and not longer than top ends at i and goes on with byte c. */
  ghost predicate Exhausted(p: seq<byte>, t: seq<byte>, i: int, c: byte, k: int, top: int)
  {
    forall l :: k < l < top && l < |p| && Ends(p, t, i, l) ==> p[l] != c
  }

  lemma ExhaustedFallback(p: seq<byte>, t: seq<byte>, i: int, c: byte, k: int, b: int, top: int)
    requires 0 < k < |p| && Ends(p, t, i, k) && LongestBorder(p, k, b)
    requires Exhausted(p, t, i, c, k, top) && p[k] != c
    ensures 0 <= b < k && Ends(p, t, i, b) && Exhausted(p, t, i, c, b, top)
  {
    EndsBelow(p, t, i, k, b);
    forall l | b < l < top && l < |p| && Ends(p, t, i, l)
      ensures p[l] != c
    {
      if l < k {
        EndsBelow(p, t, i, k, l);
        assert Border(p, k, l);
      }
    }
  }

  /** After the fallbacks, the next match length is decided by one comparison. */
  lemma NextMatch(p: seq<byte>, t: seq<byte>, i: int, k: int, top: int, l: int)
    requires 0 <= i < |t| && 0 <= k < |p| && Ends(p, t, i, k)
    requires Exhausted(p, t, i, t[i], k, top) && (k == 0 || p[k] == t[i])
    requires 0 < l <= |p| && l <= top && Ends(p, t, i + 1, l)
    ensures p[k] == t[i] ==> l <= k + 1
    ensures p[k] == t[i]
  {
    EndsStep(p, t, i, l - 1);
  }

  ghost predicate NoneLonger(p: seq<byte>, t: seq<byte>, i: int, k: int, top: int)
  {
    forall l :: k < l <= top ==> !Ends(p, t, i, l)
  }

  /** The longest match at the next position, when matches of length top or more do not count. */
  lemma StepIsLongest(p: seq<byte>, t: seq<byte>, i: int, k: int, top: int)
    requires 0 <= i < |t| && 0 <= k < |p| && Ends(p, t, i, k)
    requires Exhausted(p, t, i, t[i], k, top) && (k == 0 || p[k] == t[i])
    ensures p[k] == t[i] ==> Ends(p, t, i + 1, k + 1)
    ensures NoneLonger(p, t, i + 1, if p[k] == t[i] then k + 1 else k, top)
  {
    EndsStep(p, t, i, k);
    ghost var next := i + 1;
    forall l | 0 < l <= top && Ends(p, t, next, l)
      ensures p[k] == t[i] && l <= k + 1
    {
      NextMatch(p, t, i, k, top, l);
    }
  }

  // ----- Knuth-Morris-Pratt -----

  ghost predicate IsTable(p: seq<byte>, pi: seq<nat>, n: nat)
  {
    n <= |pi| && n <= |p| && forall i :: 0 <= i < n ==> LongestBorder(p, i + 1, pi[i])
  }

  /**
   The bounding function: pi[i] is the longest proper border of the first i + 1 bytes. Each
   fallback is paid for by an earlier increment of k, so there are fewer than m in all.
   */
  method BoundingFunction(p: seq<byte>) returns (pi: array<nat>, ghost fallbacks: nat)
    requires p != []
    ensures fresh(pi) && pi.Length == |p| && IsTable(p, pi[..], |p|)
    ensures fallbacks < |p|
  {
    var m := |p|;
    pi := new nat[m];
    pi[0] := 0;
    fallbacks := 0;
    var k := 0;
    assert LongestBorder(p, 1, 0);
    for i := 1 to m
      invariant k < i && k == pi[i - 1]
      invariant IsTable(p, pi[..], i)
      invariant fallbacks + k < i
    {
      ghost var table := pi[..];
      assert LongestBorder(p, i, table[i - 1]);
      assert forall l :: k < l < i && Ends(p, p, i, l) ==> Border(p, i, l);
      while k > 0 && p[k] != p[i]
        invariant k < i && Ends(p, p, i, k)
        invariant Exhausted(p, p, i, p[i], k, i)
        invariant pi[..] == table
        invariant fallbacks + k < i
      {
        assert LongestBorder(p, k, table[k - 1]);
        ExhaustedFallback(p, p, i, p[i], k, table[k - 1], i);
        k := pi[k - 1];
        fallbacks := fallbacks + 1;
      }
      StepIsLongest(p, p, i, k, i);
      if p[k] == p[i] {
        k := k + 1;
      }
      assert LongestBorder(p, i + 1, k);
      pi[i] := k;
      assert pi[..] == table[i := k];
    }
  }

  /** j is the longest prefix of the pattern that ends at position i of the text. */
  ghost predicate LongestEnd(p: seq<byte>, t: seq<byte>, i: int, j: int)
  {
    Ends(p, t, i, j) && forall l :: j < l ==> !Ends(p, t, i, l)
  }

  ghost predicate NoneEndsBefore(p: seq<byte>, t: seq<byte>, i: int)
  {
    forall e :: 0 <= e <= i ==> !Ends(p, t, e, |p|)
  }

  lemma OccursIffEnds(p: seq<byte>, t: seq<byte>)
    ensures Occurs(p, t) <==> !NoneEndsBefore(p, t, |t|)
  {
    if Occurs(p, t) {
      var s :| OccursAt(p, t, s);
      assert t[s + |p| - |p|..s + |p|] == p[..|p|];
      assert Ends(p, t, s + |p|, |p|);
    }
    if !NoneEndsBefore(p, t, |t|) {
      var e :| 0 <= e <= |t| && Ends(p, t, e, |p|);
      assert p[..|p|] == p;
      assert OccursAt(p, t, e - |p|);
    }
  }

  lemma ScanStart(p: seq<byte>, t: seq<byte>)
    requires p != []
    ensures LongestEnd(p, t, 0, 0) && NoneEndsBefore(p, t, 0)
  {
    assert p[..0] == t[0..0];
  }

  /** The longest match is where the fallbacks start from. */
  lemma LongestIsExhausted(p: seq<byte>, t: seq<byte>, i: int, c: byte, j: int)
    requires LongestEnd(p, t, i, j)
    ensures Ends(p, t, i, j) && Exhausted(p, t, i, c, j, |p|)
  {
  }

  /** Where the fallbacks end: a match of the whole pattern, or the longest match one byte further. */
  lemma ScanStep(p: seq<byte>, t: seq<byte>, i: int, k: int)
    requires 0 <= i < |t| && 0 <= k < |p| && Ends(p, t, i, k) && NoneEndsBefore(p, t, i)
    requires Exhausted(p, t, i, t[i], k, |p|) && (k == 0 || p[k] == t[i])
    ensures var j := if p[k] == t[i] then k + 1 else k;
            if j == |p| then !NoneEndsBefore(p, t, |t|) else LongestEnd(p, t, i + 1, j) && NoneEndsBefore(p, t, i + 1)
  {
    var j, next := if p[k] == t[i] then k + 1 else k, i + 1;
    StepIsLongest(p, t, i, k, |p|);
    assert Ends(p, t, next, j) by { assert k == 0 ==> p[..0] == t[next..next]; }
    forall l | j < l ensures !Ends(p, t, next, l) { assert l <= |p| ==> !Ends(p, t, next, l); }
  }

  /** The scan for a non-empty pattern with its table: j is the longest match that ends at i. */
  method Scan(p: seq<byte>, t: seq<byte>, pi: array<nat>) returns (found: bool, ghost fallbacks: nat)
    requires p != [] && pi.Length == |p| && IsTable(p, pi[..], |p|)
    ensures found <==> Occurs(p, t)
    ensures fallbacks <= |t|
  {
    hide Ends, Exhausted, LongestEnd, NoneEndsBefore, LongestBorder, Occurs;
    var m, n := |p|, |t|;
    OccursIffEnds(p, t);
    ScanStart(p, t);
    fallbacks := 0;
    var j := 0;
    for i := 0 to n
      invariant 0 <= j < m && LongestEnd(p, t, i, j)
      invariant NoneEndsBefore(p, t, i)
      invariant fallbacks + j <= i
    {
      LongestIsExhausted(p, t, i, t[i], j);
      while j > 0 && p[j] != t[i]
        invariant 0 <= j < m && Ends(p, t, i, j)
        invariant Exhausted(p, t, i, t[i], j, m)
        invariant fallbacks + j <= i
      {
        assert LongestBorder(p, j, pi[..][j - 1]);
        ExhaustedFallback(p, t, i, t[i], j, pi[j - 1], m);
        j := pi[j - 1];
        fallbacks := fallbacks + 1;
      }
      ScanStep(p, t, i, j);
      if p[j] == t[i] {
        j := j + 1;
      }
      if j == m {
        return true, fallbacks;
      }
    }
    return false, fallbacks;
  }

  /**
   Sound and complete for every pattern but the empty one, which the source rejects; linear,
   since the fallbacks of the search are paid for by the bytes it has read.
   */
  method KnuthMorrisPratt(patternBuffer: seq<byte>, textBuffer: seq<byte>)
    returns (found: bool, ghost tableFallbacks: nat, ghost scanFallbacks: nat)
    ensures found <==> CStr(patternBuffer) != [] && Occurs(CStr(patternBuffer), CStr(textBuffer))
    ensures var p, t := CStr(patternBuffer), CStr(textBuffer);
            found <==> p != [] && exists a, b :: a + p + b == t
    ensures tableFallbacks <= |CStr(patternBuffer)|
    ensures scanFallbacks <= |CStr(textBuffer)|
  {
    OccursIsPart(CStr(patternBuffer), CStr(textBuffer));
    hide Occurs;
    var m := StrLen(patternBuffer);
    var n := StrLen(textBuffer);
    tableFallbacks, scanFallbacks := 0, 0;
    if m == 0 { return false, 0, 0; }
    var pi: array<nat>;
    pi, tableFallbacks := BoundingFunction(patternBuffer[..m]);
    found, scanFallbacks := Scan(patternBuffer[..m], textBuffer[..n], pi);
  }

  // ----- Boyer-Moore -----

  /** last[c] is the last position of byte c among the first n of p, or -1. */
  ghost predicate LastOccurrence(p: seq<byte>, n: int, last: seq<int>)
    requires n <= |p|
  {
    |last| == 256 &&
    forall c: byte :: -1 <= last[c] < n && (last[c] >= 0 ==> p[last[c]] == c) &&
      forall i :: last[c] < i < n && 0 <= i ==> p[i] != c
  }

  /** No alignment between s and s + shift can match: each one puts a wrong byte under t[s + j]. */
  lemma ShiftIsSafe(p: seq<byte>, t: seq<byte>, s: int, j: int, last: seq<int>, shift: int, a: int)
    requires LastOccurrence(p, |p|, last)
    requires 0 <= s && 0 <= j < |p| && s + |p| <= |t| && p[j] != t[s + j]
    requires shift == if j - last[t[s + j]] > 1 then j - last[t[s + j]] else 1
    requires s <= a < s + shift
    ensures !OccursAt(p, t, a)
  {
    var i := s + j - a;
    assert 0 <= i < |p| && p[i] != t[s + j];
    if a <= |t| - |p| {
      assert t[a..a + |p|][i] == t[s + j];
    }
  }

  lemma ShiftsAreSafe(p: seq<byte>, t: seq<byte>, s: int, j: int, last: seq<int>, shift: int)
    requires LastOccurrence(p, |p|, last)
    requires 0 <= s && 0 <= j < |p| && s + |p| <= |t| && p[j] != t[s + j]
    requires shift == if j - last[t[s + j]] > 1 then j - last[t[s + j]] else 1
    ensures forall a :: s <= a < s + shift ==> !OccursAt(p, t, a)
  {
    forall a | s <= a < s + shift
      ensures !OccursAt(p, t, a)
    {
      ShiftIsSafe(p, t, s, j, last, shift, a);
    }
  }

  /** The table of last occurrences, filled in pattern order. */
  method BadCharacters(p: seq<byte>) returns (badChar: array<int>)
    ensures fresh(badChar) && LastOccurrence(p, |p|, badChar[..])
  {
    badChar := new int[256];
    for i := 0 to 256
      invariant forall c :: 0 <= c < i ==> badChar[c] == -1
    {
      badChar[i] := -1;
    }
    for i := 0 to |p|
      invariant LastOccurrence(p, i, badChar[..])
    {
      badChar[p[i]] := i;
    }
  }

  lemma NoneIsNowhere(p: seq<byte>, t: seq<byte>, s: int)
    requires s > |t| - |p| && forall a :: 0 <= a < s ==> !OccursAt(p, t, a)
    ensures !Occurs(p, t)
  {
  }

  lemma MatchIsOccurrence(p: seq<byte>, t: seq<byte>, s: int)
    requires 0 <= s && s + |p| <= |t| && forall i :: 0 <= i < |p| ==> p[i] == t[s + i]
    ensures Occurs(p, t)
  {
    assert t[s..s + |p|] == p;
    assert OccursAt(p, t, s);
  }

  method BoyerMoore(patternBuffer: seq<byte>, textBuffer: seq<byte>) returns (found: bool)
    ensures found <==> Occurs(CStr(patternBuffer), CStr(textBuffer))
    ensures var p, t := CStr(patternBuffer), CStr(textBuffer);
            found <==> exists a, b :: a + p + b == t
  {
    hide CStr, LastOccurrence, OccursAt, Occurs;
    OccursIsPart(CStr(patternBuffer), CStr(textBuffer));
    var m := StrLen(patternBuffer);
    var n := StrLen(textBuffer);
    var p, t := patternBuffer[..m], textBuffer[..n];
    var badChar := BadCharacters(p);
    ghost var last := badChar[..];
    var s := 0;
    while s <= n - m
      invariant 0 <= s && badChar[..] == last
      invariant forall a :: 0 <= a < s ==> !OccursAt(p, t, a)
    {
      var j := m - 1;
      while j >= 0 && p[j] == t[s + j]
        invariant -1 <= j < m
        invariant forall i :: j < i < m ==> p[i] == t[s + i]
      {
        j := j - 1;
      }
      if j < 0 {
        MatchIsOccurrence(p, t, s);
        return true;
      }
      LastIsFull(p, last);
      var jump := j - badChar[t[s + j]];
      var shift := if jump > 1 then jump else 1;
      ShiftsAreSafe(p, t, s, j, last, shift);
      s := s + shift;
    }
    NoneIsNowhere(p, t, s);
    return false;
  }

  lemma LastIsFull(p: seq<byte>, last: seq<int>)
    requires LastOccurrence(p, |p|, last)
    ensures |last| == 256
  {
  }
}
