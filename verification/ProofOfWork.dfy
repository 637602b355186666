/**
  The proof of work a node solves before it may join, and the bootstrap node's check of it.
  Both work on a printed bit string of the digest; here the string test is shown to bound
  the digest as a number.
 */
module ProofOfWork {
  import opened Options
  import opened Bytes

  const DIGEST_BYTES: nat := 20

  type Digest = d: seq<Byte> | |d| == DIGEST_BYTES witness seq(DIGEST_BYTES, _ => 0)

  // ---- Printing bits ----

  /** The low n bits of v, most significant first. */
  function BitsOf(v: nat, n: nat): (s: string)
    ensures |s| == n
    ensures forall i :: 0 <= i < n ==> s[i] == '0' || s[i] == '1'
  {
    if n == 0 then "" else BitsOf(v / 2, n - 1) + (if v % 2 == 1 then "1" else "0")
  }

  /** All bits of a byte string. */
  function Bits(bytes: seq<Byte>): (s: string)
    ensures |s| == 8 * |bytes|
  {
    if |bytes| == 0 then "" else BitsOf(bytes[0], 8) + Bits(bytes[1..])
  }

  /** Column j of the row starting at i: a byte in bits, or blanks after the end, with a blank in front. */
  function Cell(bytes: seq<Byte>, i: nat, j: nat): string {
    (if j > 0 then " " else "") + (if i + j < |bytes| then BitsOf(bytes[i + j], 8) else "  ")
  }

  /** A row of the dump from column j on. */
  function Row(bytes: seq<Byte>, i: nat, stride: nat, j: nat): string
    decreases stride - j
  {
    if j >= stride then "" else Cell(bytes, i, j) + Row(bytes, i, stride, j + 1)
  }

  function Line(bytes: seq<Byte>, i: nat, stride: nat): string {
    (if i != 0 then "\n" else "") + Row(bytes, i, stride, 0)
  }

  /** The dump from byte i on. */
  function Dump(bytes: seq<Byte>, stride: nat, i: nat): string
    requires stride >= 1
    decreases |bytes| - i
  {
    if i >= |bytes| then "" else Line(bytes, i, stride) + Dump(bytes, stride, i + stride)
  }

  method ByteDump(bytes: seq<Byte>, stride: nat) returns (ss: string)
    requires stride >= 1
    ensures ss == Dump(bytes, stride, 0)
  {
    ss := "";
    var i := 0;
    while i < |bytes|
      invariant ss + Dump(bytes, stride, i) == Dump(bytes, stride, 0)
      decreases |bytes| - i
    {
      var line := DumpLine(bytes, i, stride);
      Regroup(ss, line, Dump(bytes, stride, i + stride));
      ss := ss + line;
      i := i + stride;
    }
    assert ss + "" == ss;
  }

  method DumpLine(bytes: seq<Byte>, i: nat, stride: nat) returns (ss: string)
    ensures ss == Line(bytes, i, stride)
  {
    ss := if i != 0 then "\n" else "";
    for j := 0 to stride
      invariant ss + Row(bytes, i, stride, j) == Line(bytes, i, stride)
    {
      Regroup(ss, Cell(bytes, i, j), Row(bytes, i, stride, j + 1));
      ss := ss + Cell(bytes, i, j);
    }
    assert ss + "" == ss;
  }

  lemma Regroup(a: string, b: string, c: string)
    ensures a + (b + c) == (a + b) + c
  {
  }

  predicate IsSpace(c: char) {
    c == ' ' || c == '\n' || c == '\t' || c == '\r' || c == '\U{0B}' || c == '\U{0C}'
  }

  /** The string without its white space. */
  function Strip(s: string): string {
    if |s| == 0 then "" else (if IsSpace(s[0]) then "" else [s[0]]) + Strip(s[1..])
  }

  lemma {:induction false} StripConcat(a: string, b: string)
    ensures Strip(a + b) == Strip(a) + Strip(b)
  {
    if |a| == 0 {
      assert a + b == b;
    } else {
      assert (a + b)[1..] == a[1..] + b;
      StripConcat(a[1..], b);
    }
  }

  lemma {:induction false} StripNothing(s: string)
    requires forall i :: 0 <= i < |s| ==> !IsSpace(s[i])
    ensures Strip(s) == s
  {
    if |s| > 0 {
      StripNothing(s[1..]);
      assert s == [s[0]] + s[1..];
    }
  }

  function Min(a: nat, b: nat): nat {
    if a < b then a else b
  }

  lemma {:induction false} StripRow(bytes: seq<Byte>, i: nat, stride: nat, j: nat)
    requires i <= |bytes| && j <= stride
    ensures Strip(Row(bytes, i, stride, j)) == Bits(bytes[Min(i + j, |bytes|)..Min(i + stride, |bytes|)])
    decreases stride - j
  {
    if j < stride {
      StripRow(bytes, i, stride, j + 1);
      StripCell(bytes, i, j);
      StripConcat(Cell(bytes, i, j), Row(bytes, i, stride, j + 1));
      if i + j < |bytes| {
        var rest := bytes[i + j..Min(i + stride, |bytes|)];
        assert rest[1..] == bytes[i + j + 1..Min(i + stride, |bytes|)];
      }
    }
  }

  lemma StripCell(bytes: seq<Byte>, i: nat, j: nat)
    ensures Strip(Cell(bytes, i, j)) == if i + j < |bytes| then BitsOf(bytes[i + j], 8) else ""
  {
    var gap := if j > 0 then " " else "";
    var cell := if i + j < |bytes| then BitsOf(bytes[i + j], 8) else "  ";
    StripConcat(gap, cell);
    assert Strip(" ") == "" && Strip("  ") == "" && Strip("") == "";
    if i + j < |bytes| {
      StripNothing(cell);
    }
  }

  lemma {:induction false} BitsConcat(a: seq<Byte>, b: seq<Byte>)
    ensures Bits(a + b) == Bits(a) + Bits(b)
  {
    if |a| == 0 {
      assert a + b == b;
    } else {
      assert (a + b)[1..] == a[1..] + b;
      BitsConcat(a[1..], b);
    }
  }

  /** Whatever the row width, the dump without white space is the plain bit string. */
  lemma {:induction false} StrippedDump(bytes: seq<Byte>, stride: nat, i: nat)
    requires stride >= 1 && i <= |bytes|
    ensures Strip(Dump(bytes, stride, i)) == Bits(bytes[i..])
    decreases |bytes| - i
  {
    if i < |bytes| {
      var next := Min(i + stride, |bytes|);
      StripLine(bytes, i, stride);
      StripConcat(Line(bytes, i, stride), Dump(bytes, stride, i + stride));
      StrippedDump(bytes, stride, next);
      BitsConcat(bytes[i..next], bytes[next..]);
      assert bytes[i..] == bytes[i..next] + bytes[next..];
    }
  }

  lemma StripLine(bytes: seq<Byte>, i: nat, stride: nat)
    requires i <= |bytes|
    ensures Strip(Line(bytes, i, stride)) == Bits(bytes[i..Min(i + stride, |bytes|)])
  {
    StripRow(bytes, i, stride, 0);
    StripConcat(if i != 0 then "\n" else "", Row(bytes, i, stride, 0));
    assert Strip("\n") == "" && Strip("") == "";
  }

  /** The digest as both sides print it: a dump in one row, then all white space erased. */
  method PrintDigest(digest: Digest) returns (printed: string)
    ensures printed == Bits(digest)
  {
    var dump := ByteDump(digest, DIGEST_BYTES);
    StrippedDump(digest, DIGEST_BYTES, 0);
    assert digest[0..] == digest;
    printed := Strip(dump);
  }

  // ---- Bit strings as numbers ----

  function BitValue(s: string): nat {
    if |s| == 0 then 0 else 2 * BitValue(s[..|s| - 1]) + if s[|s| - 1] == '1' then 1 else 0
  }

  lemma {:induction false} BitValueOfBits(v: nat, n: nat)
    requires v < Pow2(n)
    ensures BitValue(BitsOf(v, n)) == v
    decreases n
  {
    if n > 0 {
      BitValueOfBits(v / 2, n - 1);
      assert BitsOf(v, n)[..n - 1] == BitsOf(v / 2, n - 1);
    }
  }

  lemma {:induction false} BitValueConcat(a: string, b: string)
    ensures BitValue(a + b) == BitValue(a) * Pow2(|b|) + BitValue(b)
    decreases |b|
  {
    if |b| == 0 {
      assert a + b == a;
    } else {
      var b' := b[..|b| - 1];
      assert (a + b)[..|a + b| - 1] == a + b';
      BitValueConcat(a, b');
      ShiftIn(BitValue(a), Pow2(|b'|), BitValue(b'), if b[|b| - 1] == '1' then 1 else 0);
    }
  }

  lemma ShiftIn(x: nat, unit: nat, y: nat, bit: nat)
    ensures 2 * (x * unit + y) + bit == x * (2 * unit) + (2 * y + bit)
  {
  }

  lemma Pow256IsPow2(n: nat)
    ensures Pow256(n) == Pow2(8 * n)
  {
    PowerSplits(8 * n);
    assert 8 * n % 8 == 0 && 8 * n / 8 == n;
  }

  lemma {:induction false} BitsDenoteValue(bytes: seq<Byte>)
    ensures BitValue(Bits(bytes)) == Value(bytes)
  {
    if |bytes| > 0 {
      BitsDenoteValue(bytes[1..]);
      assert Pow2(8) == 256;
      BitValueOfBits(bytes[0], 8);
      BitValueConcat(BitsOf(bytes[0], 8), Bits(bytes[1..]));
      Pow256IsPow2(|bytes| - 1);
    }
  }

  /** The prefix test as the program writes it: the first d characters against d zeros. */
  predicate HasLeadingZeros(s: string, d: nat) {
    s[..Min(d, |s|)] == seq(d, _ => '0')
  }

  lemma {:induction false} LeadingZerosBoundValue(s: string, d: nat)
    requires forall i :: 0 <= i < |s| ==> s[i] == '0' || s[i] == '1'
    ensures HasLeadingZeros(s, d) <==> d <= |s| && BitValue(s) < Pow2(|s| - d)
    decreases |s|
  {
    if d > |s| {
      assert |s[..Min(d, |s|)]| != |seq(d, _ => '0')|;
    } else if |s| > 0 {
      var init, last := s[..|s| - 1], s[|s| - 1];
      if d < |s| {
        LeadingZerosBoundValue(init, d);
        assert init[..d] == s[..d];
        assert Pow2(|s| - d) == 2 * Pow2(|init| - d);
      } else {
        LeadingZerosBoundValue(init, d - 1);
        assert s[..d] == s == init + [last];
        assert seq(d, _ => '0') == seq<char>(d - 1, _ => '0') + ['0'];
        assert init[..Min(d - 1, |init|)] == init;
      }
    }
  }

  // ---- Solving and checking ----

  function Decimal(n: nat): string {
    if n < 10 then ["0123456789"[n]] else Decimal(n / 10) + ["0123456789"[n % 10]]
  }

  /** The number a string of decimal digits denotes. */
  function DecimalValue(s: string): nat {
    if |s| == 0 then 0
    else 10 * DecimalValue(s[..|s| - 1]) + (if '0' <= s[|s| - 1] <= '9' then s[|s| - 1] as int - '0' as int else 0)
  }

  /** The digits denote the number, so different counters give different answers. */
  lemma {:induction false} DecimalDenotes(n: nat)
    ensures DecimalValue(Decimal(n)) == n
    decreases n
  {
    if n >= 10 {
      DecimalDenotes(n / 10);
      assert Decimal(n)[..|Decimal(n)| - 1] == Decimal(n / 10);
    }
  }

  predicate Solves(sha: string -> Digest, puzzle: string, difficulty: Byte, i: nat) {
    HasLeadingZeros(Bits(sha(puzzle + Decimal(i))), difficulty)
  }

  /** What the solver sends: the text it hashed and the printed hash. */
  datatype Solution = Solution(counter: nat, response: string, hashed: string)

  /**
    The first `rounds` rounds of the solver's search. It stops at the first counter that solves
    the puzzle, and goes on exactly as long as there is none.
   */
  method Solve(sha: string -> Digest, puzzle: string, difficulty: Byte, rounds: nat) returns (r: Option<Solution>)
    ensures r.None? <==> forall j :: 0 <= j < rounds ==> !Solves(sha, puzzle, difficulty, j)
    ensures r.Some? ==>
      && Solves(sha, puzzle, difficulty, r.value.counter)
      && (forall j :: 0 <= j < r.value.counter ==> !Solves(sha, puzzle, difficulty, j))
      && r.value.response == puzzle + Decimal(r.value.counter)
      && Accepts(sha, puzzle, r.value.response, r.value.hashed, difficulty)
  {
    var i := 0;
    while i < rounds
      invariant i <= rounds
      invariant forall j :: 0 <= j < i ==> !Solves(sha, puzzle, difficulty, j)
    {
      var response := puzzle + Decimal(i);
      var hashed := PrintDigest(sha(response));
      if HasLeadingZeros(hashed, difficulty) {
        assert Solves(sha, puzzle, difficulty, i);
        assert response[..Min(|puzzle|, |response|)] == puzzle;
        return Some(Solution(i, response, hashed));
      }
      i := i + 1;
    }
    r := None;
  }

  /** The bootstrap node's three checks; `address` is the address of the new node. */
  predicate Accepts(sha: string -> Digest, address: string, response: string, hashed: string, difficulty: Byte) {
    && response[..Min(|address|, |response|)] == address
    && Bits(sha(response)) == hashed
    && HasLeadingZeros(hashed, difficulty)
  }

  method Check(sha: string -> Digest, address: string, response: string, hashed: string, difficulty: Byte)
    returns (ok: bool)
    ensures ok <==> Accepts(sha, address, response, hashed, difficulty)
  {
    if response[..Min(|address|, |response|)] != address {
      return false;
    }
    var calculated := PrintDigest(sha(response));
    if calculated != hashed {
      return false;
    }
    return HasLeadingZeros(hashed, difficulty);
  }

  /** What acceptance means: an answer for this address whose digest, as a number, is below 2^(160 - difficulty). */
  lemma AcceptanceBoundsDigest(sha: string -> Digest, address: string, response: string, hashed: string,
                               difficulty: Byte)
    ensures Accepts(sha, address, response, hashed, difficulty) <==>
              && address <= response
              && hashed == Bits(sha(response))
              && difficulty <= 160 && Value(sha(response)) < Pow2(160 - difficulty)
  {
    var digest := sha(response);
    BitsDenoteValue(digest);
    BitsAreBinary(digest);
    LeadingZerosBoundValue(Bits(digest), difficulty);
  }

  lemma {:induction false} BitsAreBinary(bytes: seq<Byte>)
    ensures forall i :: 0 <= i < |Bits(bytes)| ==> Bits(bytes)[i] == '0' || Bits(bytes)[i] == '1'
  {
    if |bytes| > 0 {
      BitsAreBinary(bytes[1..]);
    }
  }

  /** Beyond 160 zeros no puzzle has a solution. */
  lemma TooDifficult(sha: string -> Digest, puzzle: string, difficulty: Byte, i: nat)
    requires difficulty > 160
    ensures !Solves(sha, puzzle, difficulty, i)
  {
    var response := puzzle + Decimal(i);
    assert puzzle <= response;
    assert response[..Min(|puzzle|, |response|)] == puzzle;
    AcceptanceBoundsDigest(sha, puzzle, response, Bits(sha(response)), difficulty);
  }
}
