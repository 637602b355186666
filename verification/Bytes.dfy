/**
  Ids as the program stores them: fixed-size big-endian byte arrays, compared
  lexicographically, with carry addition and one-hot powers of two. Everything here
  is shown to be arithmetic on the number an array denotes, modulo 256^size.
 */
module Bytes {
  import opened Ring

  type Byte = n: nat | n < 256

  function Pow2(e: nat): (p: nat)
    ensures p >= 1
  {
    if e == 0 then 1 else 2 * Pow2(e - 1)
  }

  function Pow256(e: nat): (p: nat)
    ensures p >= 1
  {
    if e == 0 then 1 else 256 * Pow256(e - 1)
  }

  /** The number a big-endian byte string denotes. */
  function Value(s: seq<Byte>): (v: nat)
    ensures v < Pow256(|s|)
  {
    if |s| == 0 then 0
    else
      DigitBound(s[0], Value(s[1..]), Pow256(|s| - 1));
      s[0] * Pow256(|s| - 1) + Value(s[1..])
  }

  lemma DigitBound(digit: Byte, rest: nat, unit: nat)
    requires rest < unit
    ensures digit * unit + rest < 256 * unit
  {
    assert digit * unit <= 255 * unit;
  }

  // ---- Order ----

  /** Lexicographic order of arrays of equal size. */
  predicate Less(a: seq<Byte>, b: seq<Byte>)
    requires |a| == |b|
  {
    |a| > 0 && (a[0] < b[0] || (a[0] == b[0] && Less(a[1..], b[1..])))
  }

  lemma {:induction false} LexicographicIsNumeric(a: seq<Byte>, b: seq<Byte>)
    requires |a| == |b|
    ensures Less(a, b) <==> Value(a) < Value(b)
    ensures a == b <==> Value(a) == Value(b)
  {
    if |a| > 0 {
      LexicographicIsNumeric(a[1..], b[1..]);
      var unit := Pow256(|a| - 1);
      if a[0] < b[0] {
        LeadingDigitDecides(a[0], Value(a[1..]), b[0], Value(b[1..]), unit);
      } else if b[0] < a[0] {
        LeadingDigitDecides(b[0], Value(b[1..]), a[0], Value(a[1..]), unit);
      } else {
        assert a == [a[0]] + a[1..] && b == [b[0]] + b[1..];
      }
    }
  }

  lemma LeadingDigitDecides(d: nat, x: nat, e: nat, y: nat, unit: nat)
    requires d < e && x < unit
    ensures d * unit + x < e * unit + y
  {
    assert (d + 1) * unit <= e * unit;
  }

  /** The range test as the program runs it, on arrays. */
  predicate InRangeBytes(v: seq<Byte>, lo: seq<Byte>, hi: seq<Byte>, includeLo: bool, includeHi: bool)
    requires |v| == |lo| == |hi|
  {
    var aboveLo := if includeLo then !Less(v, lo) else Less(lo, v);
    var belowHi := if includeHi then !Less(hi, v) else Less(v, hi);
    if !Less(hi, lo) && (lo != hi || (includeLo && includeHi)) then aboveLo && belowHi else aboveLo || belowHi
  }

  /** On 32-byte ids the array test is the number test. */
  lemma RangeTestOnIds(v: seq<Byte>, lo: seq<Byte>, hi: seq<Byte>, includeLo: bool, includeHi: bool)
    requires |v| == |lo| == |hi| == KEY_BITS / 8
    ensures Value(v) < RING && Value(lo) < RING && Value(hi) < RING
    ensures InRangeBytes(v, lo, hi, includeLo, includeHi)
       <==> InRange(Value(v), Value(lo), Value(hi), includeLo, includeHi)
  {
    RingIsPower();
    LexicographicIsNumeric(v, lo);
    LexicographicIsNumeric(lo, v);
    LexicographicIsNumeric(v, hi);
    LexicographicIsNumeric(hi, v);
    LexicographicIsNumeric(hi, lo);
  }

  // ---- Addition ----

  /** What eight bits keep of the sum of two bytes. */
  function Wrapped(sum: nat): Byte
    requires sum < 512
  {
    if sum < 256 then sum else sum - 256
  }

  /** One column of the addition: the 8-bit sum and the carry out, as the loop body computes them. */
  function Column(carry: bool, x: Byte, y: Byte): (r: (Byte, bool))
    ensures r.0 + (if r.1 then 256 else 0) == (if carry then 1 else 0) + x + y
  {
    var start := if carry then 1 else 0;
    var carry1 := 255 - start < x;
    var sum1 := Wrapped(start + x);
    var carry2 := 255 - sum1 < y;
    (Wrapped(sum1 + y), carry1 || carry2)
  }

  /** The digits of the sum and the carry out of the first column. */
  function Sum(a: seq<Byte>, b: seq<Byte>): (r: (seq<Byte>, bool))
    requires |a| == |b|
    ensures |r.0| == |a|
  {
    if |a| == 0 then ([], false)
    else
      var (digits, carry) := Sum(a[1..], b[1..]);
      var (digit, out) := Column(carry, a[0], b[0]);
      ([digit] + digits, out)
  }

  lemma {:induction false} SumIsExact(a: seq<Byte>, b: seq<Byte>)
    requires |a| == |b|
    ensures var (digits, carry) := Sum(a, b);
            Value(digits) + (if carry then Pow256(|a|) else 0) == Value(a) + Value(b)
  {
    if |a| > 0 {
      SumIsExact(a[1..], b[1..]);
      var (digits, carry) := Sum(a[1..], b[1..]);
      var (digit, out) := Column(carry, a[0], b[0]);
      ValueInFront(digit, digits);
      CarryStep(carry, a[0], b[0], Pow256(|digits|));
    }
  }

  lemma ValueInFront(digit: Byte, s: seq<Byte>)
    ensures Value([digit] + s) == digit * Pow256(|s|) + Value(s)
  {
  }

  lemma SumIsAddition(a: seq<Byte>, b: seq<Byte>)
    requires |a| == |b|
    ensures Value(Sum(a, b).0) == (Value(a) + Value(b)) % Pow256(|a|)
  {
    SumIsExact(a, b);
    DropCarry(Value(Sum(a, b).0), Sum(a, b).1, Pow256(|a|));
  }

  lemma SumOneMore(a: seq<Byte>, b: seq<Byte>, i: nat)
    requires i < |a| == |b|
    ensures var (digits, carry) := Sum(a[i + 1..], b[i + 1..]);
            var (digit, out) := Column(carry, a[i], b[i]);
            Sum(a[i..], b[i..]) == ([digit] + digits, out)
  {
    assert a[i..][1..] == a[i + 1..] && b[i..][1..] == b[i + 1..];
  }

  /** The addition loop, from the last byte to the first with a carry. */
  method AddColumns(a: array<Byte>, b: array<Byte>) returns (ret: array<Byte>)
    requires a.Length == b.Length
    ensures fresh(ret) && ret[..] == Sum(a[..], b[..]).0
  {
    ghost var as_, bs := a[..], b[..];
    var size := a.Length;
    ret := new Byte[size](_ => 0);
    var carry := false;
    var i := size - 1;
    assert ret[size..] == as_[size..] == bs[size..] == [];
    while i >= 0
      invariant -1 <= i < size
      invariant (ret[i + 1..], carry) == Sum(as_[i + 1..], bs[i + 1..])
    {
      SumOneMore(as_, bs, i);
      var column := Column(carry, a[i], b[i]);
      ghost var before := ret[i + 1..];
      ret[i] := column.0;
      assert ret[i..] == [column.0] + before;
      carry := column.1;
      i := i - 1;
    }
    assert ret[0..] == ret[..] && as_[0..] == as_ && bs[0..] == bs;
  }

  method Add(a: array<Byte>, b: array<Byte>) returns (ret: array<Byte>)
    requires a.Length == b.Length
    ensures fresh(ret) && ret.Length == a.Length
    ensures Value(ret[..]) == (Value(a[..]) + Value(b[..])) % Pow256(a.Length)
  {
    ret := AddColumns(a, b);
    assert |ret[..]| == |a[..]|;
    SumIsAddition(a[..], b[..]);
  }

  lemma CarryStep(carry: bool, x: Byte, y: Byte, unit: nat)
    ensures var (digit, out) := Column(carry, x, y);
            digit * unit + (if out then 256 * unit else 0) == (if carry then unit else 0) + x * unit + y * unit
  {
    var (digit, out) := Column(carry, x, y);
    assert (digit + (if out then 256 else 0)) * unit == ((if carry then 1 else 0) + x + y) * unit;
  }

  lemma DropCarry(v: nat, carry: bool, unit: nat)
    requires v < unit
    ensures (v + (if carry then unit else 0)) % unit == v
  {
  }

  // ---- Powers of two ----

  /** pow2: an all-zero array with at most one bit set. */
  method PowerOfTwo(size: nat, exp: nat) returns (ret: array<Byte>)
    ensures fresh(ret) && ret.Length == size
    ensures Value(ret[..]) == if exp < 8 * size then Pow2(exp) else 0
  {
    ret := new Byte[size](_ => 0);
    var index := size - 1 - exp / 8;
    OctetPow2(exp % 8);
    if index < size && index >= 0 {
      ret[index] := OctetPow2Value(exp % 8);
      OneHot(ret[..], index);
      PowerSplits(exp);
    } else {
      AllZero(ret[..]);
    }
  }

  function OctetPow2Value(e: nat): Byte
    requires e < 8
  {
    [1, 2, 4, 8, 16, 32, 64, 128][e]
  }

  lemma OctetPow2(e: nat)
    requires e < 8
    ensures OctetPow2Value(e) == Pow2(e)
  {
  }

  lemma {:induction false} AllZero(s: seq<Byte>)
    requires forall i :: 0 <= i < |s| ==> s[i] == 0
    ensures Value(s) == 0
  {
    if |s| > 0 {
      AllZero(s[1..]);
    }
  }

  lemma {:induction false} OneHot(s: seq<Byte>, index: nat)
    requires index < |s|
    requires forall i :: 0 <= i < |s| && i != index ==> s[i] == 0
    ensures Value(s) == s[index] * Pow256(|s| - 1 - index)
  {
    if index == 0 {
      AllZero(s[1..]);
    } else {
      OneHot(s[1..], index - 1);
    }
  }

  lemma {:induction false} PowerSplits(exp: nat)
    ensures Pow2(exp) == Pow2(exp % 8) * Pow256(exp / 8)
  {
    if exp >= 8 {
      PowerSplits(exp - 8);
      EightDoublings(exp - 8);
      assert (exp - 8) % 8 == exp % 8 && exp / 8 == (exp - 8) / 8 + 1;
      Swap(Pow2(exp % 8), Pow256((exp - 8) / 8));
    }
  }

  lemma EightDoublings(e: nat)
    ensures Pow2(e + 8) == 256 * Pow2(e)
  {
    assert Pow2(e + 8) == 2 * Pow2(e + 7) == 4 * Pow2(e + 6);
    assert Pow2(e + 6) == 2 * Pow2(e + 5) == 4 * Pow2(e + 4);
    assert Pow2(e + 4) == 2 * Pow2(e + 3) == 4 * Pow2(e + 2);
    assert Pow2(e + 2) == 2 * Pow2(e + 1) == 4 * Pow2(e);
  }

  lemma Swap(x: nat, y: nat)
    ensures 256 * (x * y) == x * (256 * y)
  {
  }

  /** The circle has 2^256 = 256^32 points. */
  lemma RingIsPower()
    ensures RING == Pow2(KEY_BITS) == Pow256(KEY_BITS / 8)
  {
    PowerSplits(KEY_BITS);
    assert Pow256(8) == 0x1_0000_0000_0000_0000;
    assert Pow256(16) == 0x1_0000_0000_0000_0000_0000_0000_0000_0000;
    assert Pow256(24) == 0x1_0000_0000_0000_0000_0000_0000_0000_0000_0000_0000_0000_0000;
    assert Pow256(32) == RING;
  }

  lemma {:induction false} Pow2Monotone(a: nat, b: nat)
    requires a < b
    ensures 2 * Pow2(a) <= Pow2(b)
    decreases b
  {
    if a + 1 < b {
      Pow2Monotone(a, b - 1);
    }
  }

  /** Adding a power of two to a 32-byte id moves clockwise by that power. */
  method FingerStart(n: array<Byte>, k: nat) returns (start: array<Byte>)
    requires n.Length == KEY_BITS / 8 && k < KEY_BITS
    ensures fresh(start) && start.Length == n.Length
    ensures Value(n[..]) < RING && Value(start[..]) == Ahead(Value(n[..]), Pow2(k))
  {
    RingIsPower();
    var power := PowerOfTwo(n.Length, k);
    start := Add(n, power);
  }
}
