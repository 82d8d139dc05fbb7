/**
 The integer printer and parser of src/user-shell.c (the printer is also in src/process.c), in
 32-bit arithmetic that wraps around.
 */
module Numbers {
  import opened Bytes
  import opened Layout
  import opened Store

  type int32 = x: int | -0x8000_0000 <= x < 0x8000_0000

  const LEAST: int32 := -0x8000_0000
  const ZERO: byte := 48
  const MINUS: byte := 45

  /** The 32-bit integer with the same low 32 bits. */
  function Wrap(x: int): (w: int32)
    ensures -0x8000_0000 <= x < 0x8000_0000 ==> w == x
  {
    ToInt32(x % 0x1_0000_0000)
  }

  /** The least number has no opposite: its negation wraps around to itself. */
  function Negate(n: int32): (m: int32)
    ensures m == if n == LEAST then LEAST else 0 - n
  {
    Wrap(0 - n as int)
  }

  lemma WrapAdd(a: int, b: int)
    ensures Wrap(Wrap(a) + b) == Wrap(a + b)
  {
    var x, y := a % 0x1_0000_0000, (a + b) % 0x1_0000_0000;
    assert (x + b - y) % 0x1_0000_0000 == 0;
  }

  /** C remainder: the sign of the dividend. */
  function TruncRem(a: int, b: int): (r: int)
    requires b > 0
    ensures -b < r < b && a == TruncDiv(a, b) * b + r
  {
    if a >= 0 then a % b else -(-a % b)
  }

  function SignedChar(c: byte): int { if c < 128 then c else c - 256 }

  // ----- what is printed and what is parsed -----

  /** The digits of a number, the last one last; those of a negative one fall below '0'. */
  function Numeral(m: int): seq<byte>
    decreases if m >= 0 then m else -m
  {
    if m == 0 then [] else Numeral(TruncDiv(m, 10)) + [ZERO + TruncRem(m, 10)]
  }

  function Text(n: int32): seq<byte>
  {
    if n == 0 then [ZERO] else if n < 0 then [MINUS] + Numeral(Negate(n)) else Numeral(n)
  }

  /** The value of a digit string, read as the parser reads it. */
  function Fold(s: seq<byte>): int32
  {
    if s == [] then 0 else Wrap(Fold(s[..|s| - 1]) * 10 + SignedChar(s[|s| - 1]) - ZERO)
  }

  lemma FoldStep(s: seq<byte>, c: byte)
    ensures Fold([]) == 0 && Fold(s + [c]) == Wrap(Fold(s) * 10 + SignedChar(c) - ZERO)
  {
    assert (s + [c])[..|s|] == s;
  }

  function Parsed(s: seq<byte>): int32
  {
    if s != [] && s[0] == MINUS then Negate(Fold(s[1..])) else Fold(s)
  }

  /** Reading the digits of a number gives the number, also for the negative digits of a negative one. */
  lemma {:induction false} FoldNumeral(m: int32)
    ensures Fold(Numeral(m)) == m
    decreases if m >= 0 then m as int else -(m as int)
  {
    hide Wrap;
    if m != 0 {
      FoldNumeral(TruncDiv(m, 10));
    }
  }

  /** Printer and parser undo each other, for every 32-bit number, the least one included. */
  lemma RoundTrip(n: int32)
    ensures Parsed(Text(n)) == n
  {
    hide Fold, Numeral, Negate;
    FoldNumeral(if n < 0 then Negate(n) else n);
    if n > 0 {
      DigitsAreDecimal(n);
    } else if n == 0 {
      FoldOne();
    } else {
      assert Text(n)[1..] == Numeral(Negate(n));
    }
  }

  lemma FoldOne()
    ensures Fold([ZERO]) == 0
  {
    assert [ZERO][..0] == [] && Fold([]) == 0;
  }

  predicate Digits(s: seq<byte>)
  {
    forall k :: 0 <= k < |s| ==> ZERO <= s[k] <= ZERO + 9
  }

  predicate Decimal(s: seq<byte>) { s != [] && Digits(s) }

  /** The digits of a positive number are decimal, without a leading zero. */
  lemma {:induction false} DigitsAreDecimal(m: int)
    requires m > 0
    ensures Decimal(Numeral(m)) && Numeral(m)[0] != ZERO
  {
    if m >= 10 {
      DigitsAreDecimal(m / 10);
    } else {
      assert Numeral(0) == [];
    }
  }

  /** The digits of a negative number are none that a reader would know, but for zeros. */
  lemma {:induction false} DigitsBelowZero(m: int)
    requires m < 0
    ensures Numeral(m) != [] && Numeral(m)[0] < ZERO
    decreases -m
  {
    if m <= -10 {
      DigitsBelowZero(TruncDiv(m, 10));
    } else {
      assert Numeral(0) == [];
    }
  }

  /** The text is a decimal number with an optional sign for all but the least number, whose negation wraps. */
  lemma DecimalIff(n: int32)
    ensures Decimal(if n < 0 then Text(n)[1..] else Text(n)) <==> n != LEAST
  {
    hide Numeral, Negate;
    if n < 0 {
      assert Text(n)[1..] == Numeral(Negate(n));
      if n == LEAST {
        DigitsBelowZero(LEAST);
      } else {
        DigitsAreDecimal(0 - n);
      }
    } else if n > 0 {
      DigitsAreDecimal(n);
    }
  }

  /** Ordinary place value, unbounded. */
  function Value(s: seq<byte>): int
  {
    if s == [] then 0 else Value(s[..|s| - 1]) * 10 + s[|s| - 1] - ZERO
  }

  /** Every decimal string without leading zeros whose value fits is printed back unchanged. */
  lemma {:induction false} ParseThenPrint(s: seq<byte>)
    requires Decimal(s) && s[0] != ZERO && Value(s) < 0x8000_0000
    ensures Parsed(s) == Value(s) && Text(Parsed(s)) == s
  {
    FoldIsValue(s);
    NumeralOfValue(s);
  }

  lemma {:induction false} FoldIsValue(s: seq<byte>)
    requires Digits(s)
    requires Value(s) < 0x8000_0000
    ensures 0 <= Value(s) && Fold(s) == Value(s)
  {
    if s != [] {
      hide Wrap;
      ValueNotNegative(s[..|s| - 1]);
      FoldIsValue(s[..|s| - 1]);
    }
  }

  lemma {:induction false} ValueNotNegative(s: seq<byte>)
    requires Digits(s)
    ensures 0 <= Value(s)
  {
    if s != [] {
      ValueNotNegative(s[..|s| - 1]);
    }
  }

  lemma {:induction false} NumeralOfValue(s: seq<byte>)
    requires Decimal(s) && s[0] != ZERO
    ensures Value(s) > 0 && Numeral(Value(s)) == s
  {
    var front, last := s[..|s| - 1], s[|s| - 1];
    assert s == front + [last];
    if front == [] {
      assert Value(front) == 0 && Numeral(0) == [];
    } else {
      NumeralOfValue(front);
      assert TruncDiv(Value(s), 10) == Value(front);
    }
  }

  /** The text, digit by digit: one digit, one more digit behind a number, and a sign before one. */
  lemma TextByDigits(m: int32, d: int)
    requires 0 <= d <= 9 && 0 <= m && 10 * m as int + d < 0x8000_0000
    ensures m == 0 ==> Text(d) == [48 + d]
    ensures m > 0 ==> Text(10 * m as int + d) == Text(m) + [48 + d]
    ensures m > 0 ==> Text(0 - m as int) == [45] + Text(m)
  {
    assert TruncDiv(10 * m as int + d, 10) == m && TruncRem(10 * m as int + d, 10) == d;
    assert Numeral(0) == [];
  }

  /** For any string of characters below 128 the loop computes its place value, modulo 2^32. */
  lemma {:induction false} FoldIsValueMod(s: seq<byte>)
    requires forall k :: 0 <= k < |s| ==> s[k] < 128
    ensures (Fold(s) - Value(s)) % 0x1_0000_0000 == 0
  {
    if s != [] {
      var front, last := s[..|s| - 1], s[|s| - 1] as int;
      FoldIsValueMod(front);
      WrapMod(Fold(front) * 10 + last - 48);
      hide Wrap;
      var a, b := Fold(front) - Value(front), Fold(s) - (Fold(front) * 10 + last - 48);
      assert Fold(s) - Value(s) == 10 * a + b;
      TenTimes(a, b);
    }
  }

  lemma WrapMod(x: int)
    ensures (Wrap(x) - x) % 0x1_0000_0000 == 0
  {
  }

  lemma TenTimes(a: int, b: int)
    requires a % 0x1_0000_0000 == 0 && b % 0x1_0000_0000 == 0
    ensures (10 * a + b) % 0x1_0000_0000 == 0
  {
  }

  /** A buffer of twelve bytes is always enough. */
  lemma {:induction false} NumeralLength(m: int, k: nat, bound: int)
    requires bound == Power(k) && -bound < m < bound
    ensures |Numeral(m)| <= k
    decreases k
  {
    if m != 0 && k > 0 {
      NumeralLength(TruncDiv(m, 10), k - 1, Power(k - 1));
    }
  }

  function Power(k: nat): int { if k == 0 then 1 else 10 * Power(k - 1) }

  lemma TextFits(n: int32)
    ensures |Text(n)| <= 11
  {
    assert Power(2) == 100 && Power(4) == 10000 && Power(6) == 1000000 && Power(8) == 100000000;
    assert Power(10) == 10000000000;
    NumeralLength(if n < 0 then Negate(n) else n, 10, Power(10));
  }

  // ----- the loops -----

  function Reversed(s: seq<byte>): (r: seq<byte>)
    ensures |r| == |s|
  {
    seq(|s|, i requires 0 <= i < |s| => s[|s| - 1 - i])
  }

  /** The swapping loop on the first n bytes. */
  method ReverseFront(str: array<byte>, n: nat)
    requires n <= str.Length
    modifies str
    ensures str[..n] == Reversed(old(str[..n])) && str[n..] == old(str[n..])
  {
    var start, end := 0, n - 1;
    while start < end
      invariant 0 <= start && start + end == n - 1 && start <= end + 2
      invariant forall k :: 0 <= k < start || end < k < n ==> str[k] == old(str[n - 1 - k])
      invariant forall k :: start <= k <= end || n <= k < str.Length ==> str[k] == old(str[k])
    {
      var temp := str[start];
      str[start] := str[end];
      str[end] := temp;
      start := start + 1;
      end := end - 1;
    }
  }

  /**
   int_to_str. The letters for digits above 9 are unreachable and left out. Nothing behind the
   closing NUL is touched.
   */
  method IntToStr(n: int32, str: array<byte>)
    requires str.Length > |Text(n)|
    modifies str
    ensures str[..|Text(n)|] == Text(n) && str[|Text(n)|] == NUL
    ensures str[|Text(n)| + 1..] == old(str[|Text(n)| + 1..])
  {
    if n == 0 {
      str[0] := ZERO;
      str[1] := NUL;
      return;
    }
    hide *;
    var i := PutText(n, str);
    str[i] := NUL;
    ghost var front, rest := str[..i], str[i..];
    assert rest[1..] == str[i + 1..] == old(str[i + 1..]);
    ReverseFront(str, i);
    ReversedTwice(Text(n));
    assert str[i] == rest[0] && str[i + 1..] == str[i..][1..];
  }

  /** Digits and sign, last character first. */
  method PutText(n: int32, str: array<byte>) returns (i: nat)
    requires n != 0 && |Text(n)| < str.Length
    modifies str
    ensures i == |Text(n)| && str[..i] == Reversed(Text(n)) && str[i..] == old(str[i..])
  {
    hide Numeral, Negate, Reversed;
    var num := if n < 0 then Negate(n) else n;
    i := PutDigits(num, str);
    if n < 0 {
      ReversedCons(MINUS, Numeral(num));
      ghost var rest := str[i..];
      str[i] := MINUS;
      i := i + 1;
      assert str[i..] == rest[1..];
    }
  }

  /** The digit loop: the last digit first. */
  method PutDigits(m: int32, str: array<byte>) returns (i: nat)
    requires |Numeral(m)| <= str.Length
    modifies str
    ensures i == |Numeral(m)| && str[..i] == Reversed(Numeral(m)) && str[i..] == old(str[i..])
  {
    ghost var digits := Numeral(m);
    hide Numeral, Reversed;
    var num: int := m;
    i := 0;
    ghost var printed: seq<byte> := [];
    ReversedOf([], []);
    assert digits == Numeral(num) + printed;
    while num != 0
      invariant i == |printed| <= |digits| && digits == Numeral(num) + printed
      invariant str[..i] == Reversed(printed)
      invariant str[i..] == old(str[i..])
      decreases if num >= 0 then num else -num
    {
      NumeralStep(num);
      printed := [ZERO + TruncRem(num, 10)] + printed;
      ReversedOf(printed, printed[1..]);
      str[i] := ZERO + TruncRem(num, 10);
      i := i + 1;
      num := TruncDiv(num, 10);
    }
    NumeralStep(0);
    assert printed == digits;
  }

  lemma NumeralStep(m: int)
    ensures if m == 0 then Numeral(m) == [] else Numeral(m) == Numeral(TruncDiv(m, 10)) + [ZERO + TruncRem(m, 10)]
  {
  }

  lemma ReversedOf(s: seq<byte>, tail: seq<byte>)
    requires s != [] ==> tail == s[1..]
    ensures Reversed(s) == if s == [] then [] else Reversed(tail) + [s[0]]
  {
  }

  lemma ReversedTwice(s: seq<byte>)
    ensures Reversed(Reversed(s)) == s
  {
  }

  lemma ReversedCons(c: byte, s: seq<byte>)
    ensures Reversed([c] + s) == Reversed(s) + [c]
  {
  }

  /** str_to_int: each character is added before '0' is taken away, each operation wraps. */
  method StrToInt(str: seq<byte>) returns (num: int32)
    requires NUL in str
    ensures num == Parsed(CStr(str))
  {
    hide Wrap, Negate, Fold, SignedChar, CStr;
    ghost var s := CStr(str);
    FoldStep([], 0);
    var result: int32, i, negative := 0, 0, false;
    if str[0] == MINUS {
      negative := true;
      i := 1;
    }
    ghost var first := i;
    assert s[first..i] == [];
    while str[i] != NUL
      invariant first <= i <= |s| && result == Fold(s[first..i])
      decreases |s| - i
    {
      assert s[first..i + 1] == s[first..i] + [str[i]];
      FoldStep(s[first..i], str[i]);
      WrapAdd(result as int * 10, SignedChar(str[i]));
      WrapAdd(result as int * 10 + SignedChar(str[i]), -48);
      result := Wrap(Wrap(Wrap(result as int * 10) + SignedChar(str[i])) - ZERO);
      i := i + 1;
    }
    assert s[first..i] == s[first..];
    if negative {
      result := Negate(result);
    }
    num := result;
  }
}
