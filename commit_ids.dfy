/**
 * Commit identifiers: 40 symbols over the alphabet '6' = 0, '1' = 1, 'c' = 2.
 * The first 10 symbols hold the branch number and the last 30 a counter,
 * each in base 3 with the least-significant digit first.
 */
module CommitIds {

  const IdLength: nat := 40
  const BranchDigits: nat := 10
  const CounterDigits: nat := 30

  /** The number of values each segment can hold: 3^10 branch numbers and
      3^30 counter values. */
  const BranchSpace: nat := 59049
  const CounterSpace: nat := 205891132094649

  /** The digit symbols, indexed by their value. */
  const Digits: string := "61c"

  /** The id of "no commit yet": forty '0', a character outside the alphabet. */
  const Sentinel: string := "0000000000000000000000000000000000000000"

  function Pow3(k: nat): (p: nat)
    ensures p > 0
  {
    if k == 0 then 1 else 3 * Pow3(k - 1)
  }

  lemma {:induction false} Pow3Add(a: nat, b: nat)
    ensures Pow3(a + b) == Pow3(a) * Pow3(b)
  {
    if b > 0 {
      Pow3Add(a, b - 1);
      assert Pow3(a) * (3 * Pow3(b - 1)) == 3 * (Pow3(a) * Pow3(b - 1));
    }
  }

  lemma SpacesArePowers()
    ensures Pow3(BranchDigits) == BranchSpace
    ensures Pow3(CounterDigits) == CounterSpace
  {
    assert Pow3(5) == 243;
    Pow3Add(5, 5);
    Pow3Add(10, 10);
    Pow3Add(20, 10);
  }

  predicate IsDigit(c: char) {
    c == '6' || c == '1' || c == 'c'
  }

  /** The value the counter decoder gives a symbol: anything but '6' or '1' counts as 2. */
  function DigitValue(c: char): (d: nat)
    ensures d < 3
    ensures IsDigit(c) ==> Digits[d] == c
  {
    if c == '6' then 0 else if c == '1' then 1 else 2
  }

  predicate IsCommitId(s: string) {
    |s| == IdLength && forall i :: 0 <= i < |s| ==> IsDigit(s[i])
  }

  /** The number a symbol string stands for, least-significant symbol first. */
  function Decode(s: seq<char>): (n: nat)
    ensures n < Pow3(|s|)
  {
    if s == [] then 0 else DigitValue(s[0]) + 3 * Decode(s[1..])
  }

  /** The lowest `len` base-3 digits of `n`, least-significant first. */
  function Encode(n: nat, len: nat): (s: seq<char>)
    ensures |s| == len
    ensures forall i :: 0 <= i < len ==> IsDigit(s[i])
  {
    if len == 0 then [] else [Digits[n % 3]] + Encode(n / 3, len - 1)
  }

  /** The counter step of `next_commit_id_part1`: decode, add one, encode in the same width
      (so the largest value wraps round to zero). */
  function Increment(digits: seq<char>): (r: seq<char>)
    ensures |r| == |digits|
  {
    Encode(Decode(digits) + 1, |digits|)
  }

  /** The id that follows `prev` on the branch with number `b`. */
  function NextId(prev: string, b: nat): string
    requires |prev| == IdLength
  {
    Encode(b, BranchDigits) + Increment(prev[BranchDigits..])
  }

  function BranchNo(id: string): nat
    requires |id| == IdLength
  {
    Decode(id[..BranchDigits])
  }

  function Counter(id: string): nat
    requires |id| == IdLength
  {
    Decode(id[BranchDigits..])
  }

  // ---------------------------------------------------------------------------
  // Arithmetic helpers

  lemma DivMod(n: nat, d: nat, q: nat, r: nat)
    requires d > 0 && r < d && n == d * q + r
    ensures n / d == q && n % d == r
  {
    var q', r' := n / d, n % d;
    assert d * q + r == d * q' + r';
    if q > q' {
      MulGap(d, q, q');
      assert false;
    } else if q < q' {
      MulGap(d, q', q);
      assert false;
    }
  }

  lemma MulGap(d: nat, a: nat, b: nat)
    requires a > b
    ensures d * a >= d * b + d
  {
    var k := a - b - 1;
    assert a == b + k + 1;
    assert d * a == d * b + d * k + d;
    assert d * k >= 0;
  }

  /** Two nested quotient-remainder splits compose into one. */
  lemma ComposeSplits(n: int, a: int, b: int, q: int, r: int, q2: int, r2: int)
    requires n == a * q + r && q == b * q2 + r2
    ensures n == (a * b) * q2 + (a * r2 + r)
  {
    assert a * q == a * (b * q2) + a * r2;
    assert a * (b * q2) == (a * b) * q2;
  }

  /** A remainder below `a` plus `a` times a remainder below `b` is below `a * b`. */
  lemma ComposeBound(a: nat, b: nat, r: nat, r2: nat)
    requires r < a && r2 < b
    ensures a * r2 + r < a * b
  {
    MulGap(a, b, r2);
  }

  /** Dividing by a * b is dividing by a and then by b; the remainders combine likewise. */
  lemma DivModMul(n: nat, a: nat, b: nat)
    requires a > 0 && b > 0
    ensures n / (a * b) == (n / a) / b
    ensures n % (a * b) == n % a + a * ((n / a) % b)
  {
    var q, r := n / a, n % a;
    var q2, r2 := q / b, q % b;
    ComposeSplits(n, a, b, q, r, q2, r2);
    ComposeBound(a, b, r, r2);
    DivMod(n, a * b, q2, a * r2 + r);
  }

  /** One more base-3 digit shifted out. */
  lemma DivPow3Step(n: nat, i: nat)
    ensures n / Pow3(i + 1) == (n / Pow3(i)) / 3
  {
    DivModMul(n, Pow3(i), 3);
    assert Pow3(i + 1) == Pow3(i) * 3;
  }

  // ---------------------------------------------------------------------------
  // Digit-by-digit views, used by the loops that decode and encode in place

  /** The arithmetic of one more digit behind a leading digit `d`. */
  lemma SnocStep(d: int, a: int, b: int, v: int, q: int)
    requires b == a + v * q
    ensures d + 3 * b == (d + 3 * a) + v * (3 * q)
  {
    assert v * (3 * q) == 3 * (v * q);
  }

  /** A non-empty prefix decodes to its first digit plus three times the rest. */
  lemma DecodePrefix(s: seq<char>, j: nat)
    requires 0 < j <= |s|
    ensures Decode(s[..j]) == DigitValue(s[0]) + 3 * Decode(s[1..][..j - 1])
  {
    assert s[..j][1..] == s[1..][..j - 1];
  }

  lemma {:induction false} DecodeSnoc(s: seq<char>, i: nat)
    requires i < |s|
    ensures Decode(s[..i + 1]) == Decode(s[..i]) + DigitValue(s[i]) * Pow3(i)
  {
    if i > 0 {
      var t := s[1..];
      DecodeSnoc(t, i - 1);
      DecodePrefix(s, i + 1);
      DecodePrefix(s, i);
      assert s[i] == t[i - 1];
      SnocStep(DigitValue(s[0]), Decode(t[..i - 1]), Decode(t[..i]), DigitValue(s[i]), Pow3(i - 1));
    }
  }

  lemma {:induction false} EncodeSnoc(n: nat, i: nat)
    ensures Encode(n, i + 1) == Encode(n, i) + [Digits[(n / Pow3(i)) % 3]]
  {
    if i > 0 {
      EncodeSnoc(n / 3, i - 1);
      DivModMul(n, 3, Pow3(i - 1));
    }
  }

  /** `n` with its lowest `i` base-3 digits shifted out, one division at a time
      as the encoding loops do it. */
  function Shift(n: nat, i: nat): nat {
    if i == 0 then n else Shift(n, i - 1) / 3
  }

  lemma {:induction false} ShiftDiv(n: nat, i: nat)
    ensures Shift(n, i) == n / Pow3(i)
  {
    if i == 0 {
      DivMod(n, 1, n, 0);
    } else {
      ShiftDiv(n, i - 1);
      DivPow3Step(n, i - 1);
    }
  }

  /** The next digit of an encoding is the lowest digit of what is left. */
  lemma EncodeShiftSnoc(n: nat, i: nat)
    ensures Encode(n, i + 1) == Encode(n, i) + [Digits[Shift(n, i) % 3]]
  {
    EncodeSnoc(n, i);
    ShiftDiv(n, i);
  }

  // ---------------------------------------------------------------------------
  // Round trips and injectivity

  /** Decoding an encoding gives the number back, modulo the width. */
  lemma {:induction false} DecodeEncode(n: nat, len: nat)
    ensures Decode(Encode(n, len)) == n % Pow3(len)
  {
    if len > 0 {
      var e := Encode(n, len);
      assert e[1..] == Encode(n / 3, len - 1);
      DecodeEncode(n / 3, len - 1);
      DivModMul(n, 3, Pow3(len - 1));
    }
  }

  /** Encoding a decoded digit string gives the string back. */
  lemma {:induction false} EncodeDecode(s: seq<char>)
    requires forall i :: 0 <= i < |s| ==> IsDigit(s[i])
    ensures Encode(Decode(s), |s|) == s
  {
    if s != [] {
      var n := Decode(s);
      DivMod(n, 3, Decode(s[1..]), DigitValue(s[0]));
      EncodeDecode(s[1..]);
    }
  }

  lemma EncodeInjective(n: nat, m: nat, len: nat)
    requires n < Pow3(len) && m < Pow3(len)
    requires Encode(n, len) == Encode(m, len)
    ensures n == m
  {
    DecodeEncode(n, len);
    DecodeEncode(m, len);
  }

  /** A string of symbols that all decode as 2 (such as the sentinel's '0's) is the largest value. */
  lemma {:induction false} DecodeAllTwos(s: seq<char>)
    requires forall i :: 0 <= i < |s| ==> DigitValue(s[i]) == 2
    ensures Decode(s) == Pow3(|s|) - 1
  {
    if s != [] {
      DecodeAllTwos(s[1..]);
    }
  }

  // ---------------------------------------------------------------------------
  // Properties of generated ids

  /** A generated id is well formed, is not the sentinel, carries the branch
      number in its first segment and the incremented counter in its second. */
  lemma NextIdFields(prev: string, b: nat)
    requires |prev| == IdLength
    ensures IsCommitId(NextId(prev, b))
    ensures NextId(prev, b) != Sentinel
    ensures BranchNo(NextId(prev, b)) == b % BranchSpace
    ensures Counter(NextId(prev, b)) == (Counter(prev) + 1) % CounterSpace
  {
    SpacesArePowers();
    var id := NextId(prev, b);
    assert id[..BranchDigits] == Encode(b, BranchDigits);
    DecodeEncode(b, BranchDigits);
    var n := Counter(prev) + 1;
    assert id[BranchDigits..] == Encode(n, CounterDigits);
    DecodeEncode(n, CounterDigits);
    assert Counter(id) == n % CounterSpace;
    assert !IsDigit(Sentinel[0]);
  }

  /** Two branch numbers below 3^10 never produce the same id, whatever the predecessors. */
  lemma DistinctBranchesDistinctIds(p1: string, p2: string, b1: nat, b2: nat)
    requires |p1| == IdLength && |p2| == IdLength
    requires b1 < BranchSpace && b2 < BranchSpace && b1 != b2
    ensures NextId(p1, b1) != NextId(p2, b2)
  {
    if NextId(p1, b1) == NextId(p2, b2) {
      assert NextId(p1, b1)[..BranchDigits] == Encode(b1, BranchDigits);
      assert NextId(p2, b2)[..BranchDigits] == Encode(b2, BranchDigits);
      EncodeInjective(b1, b2, BranchDigits);
    }
  }

  /** Only a string of '6' decodes to zero. */
  lemma {:induction false} DecodeZero(s: seq<char>)
    requires forall i :: 0 <= i < |s| ==> IsDigit(s[i])
    requires Decode(s) == 0
    ensures forall i :: 0 <= i < |s| ==> s[i] == '6'
  {
    if s != [] {
      DecodeZero(s[1..]);
      assert forall i :: 1 <= i < |s| ==> s[i] == s[1..][i - 1];
    }
  }

  /** Incrementing the largest value of a width wraps round to all '6'. */
  lemma IncrementAllTwos(t: seq<char>)
    requires forall i :: 0 <= i < |t| ==> DigitValue(t[i]) == 2
    ensures Decode(t) == Pow3(|t|) - 1
    ensures Decode(Increment(t)) == 0
    ensures forall i :: 0 <= i < |t| ==> Increment(t)[i] == '6'
  {
    DecodeAllTwos(t);
    var p := Pow3(|t|);
    var n := Decode(t) + 1;
    assert n == p;
    var e := Encode(n, |t|);
    assert Increment(t) == e;
    DecodeEncode(p, |t|);
    DivMod(p, p, 1, 0);
    assert Decode(e) == 0;
    DecodeZero(e);
  }

  /** A counter segment whose symbols all decode as 2 is the largest counter, so
      the next id wraps round to counter 0, written as thirty '6'. */
  lemma CounterWraps(prev: string, b: nat)
    requires |prev| == IdLength
    requires forall i :: BranchDigits <= i < IdLength ==> DigitValue(prev[i]) == 2
    ensures Counter(prev) == CounterSpace - 1
    ensures Counter(NextId(prev, b)) == 0
    ensures forall i :: BranchDigits <= i < IdLength ==> NextId(prev, b)[i] == '6'
  {
    var t := prev[BranchDigits..];
    assert forall i :: 0 <= i < |t| ==> DigitValue(t[i]) == 2 by {
      forall i | 0 <= i < |t| ensures DigitValue(t[i]) == 2 {
        assert t[i] == prev[BranchDigits + i];
      }
    }
    IncrementAllTwos(t);
    SpacesArePowers();
    var id := NextId(prev, b);
    var tail := Increment(t);
    assert id[BranchDigits..] == tail;
    forall i | BranchDigits <= i < IdLength ensures id[i] == '6' {
      assert id[i] == tail[i - BranchDigits];
    }
  }

  /** The sentinel is not a well-formed id, so it never collides with a stored commit. */
  lemma SentinelIsNotAnId()
    ensures !IsCommitId(Sentinel)
  {
    assert !IsDigit(Sentinel[0]);
  }

  /** The sentinel's counter is the largest; the first id after it has counter 0. */
  lemma SentinelSuccessor(b: nat)
    ensures Counter(Sentinel) == CounterSpace - 1
    ensures Counter(NextId(Sentinel, b)) == 0
    ensures forall i :: BranchDigits <= i < IdLength ==> NextId(Sentinel, b)[i] == '6'
  {
    CounterWraps(Sentinel, b);
  }

  // ---------------------------------------------------------------------------
  // The in-place operations on the commit-id buffer

  /** Whether `s` has the shape of a commit id: 40 symbols of the alphabet. */
  method IsItACommitId(s: string) returns (ok: bool)
    ensures ok == IsCommitId(s)
  {
    var n := |s|;
    if n != IdLength {
      return false;
    }
    var i := 0;
    while i < n
      invariant 0 <= i <= n
      invariant forall k :: 0 <= k < i ==> IsDigit(s[k])
    {
      var c := s[i];
      if c != '6' && c != '1' && c != 'c' {
        return false;
      }
      i := i + 1;
    }
    return true;
  }

  /** The first loop of the counter increment: reads the 30 symbols of
      id[off..off + 30], least-significant first, accumulating powers of 3. */
  method DecodeCounter(id: array<char>, off: nat) returns (num: nat)
    requires off + CounterDigits <= id.Length
    ensures num == Decode(id[off..off + CounterDigits])
  {
    var n := CounterDigits;
    ghost var digits := id[off..off + n];
    num := 0;
    var base3 := 1;
    var i := 0;
    while i < n
      invariant 0 <= i <= n
      invariant num == Decode(digits[..i])
      invariant base3 == Pow3(i)
    {
      var c := id[off + i];
      assert c == digits[i];
      if c == '6' {
        num := num + 0 * base3;
      } else if c == '1' {
        num := num + 1 * base3;
      } else {
        num := num + 2 * base3;
      }
      DecodeSnoc(digits, i);
      base3 := base3 * 3;
      i := i + 1;
    }
    assert digits[..n] == digits;
  }

  /** The second loop of the counter step: writes the lowest 30 base-3 digits
      of `num` into id[off..off + 30], least-significant first. */
  method EncodeCounter(id: array<char>, off: nat, num: nat)
    requires off + CounterDigits <= id.Length
    modifies id
    ensures id[off..off + CounterDigits] == Encode(num, CounterDigits)
    ensures id[..off] == old(id[..off])
    ensures id[off + CounterDigits..] == old(id[off + CounterDigits..])
  {
    var n := CounterDigits;
    var rest := num;
    var i := 0;
    while i < n
      invariant 0 <= i <= n
      invariant rest == Shift(num, i)
      invariant id[off..off + i] == Encode(num, i)
      invariant id[..off] == old(id[..off])
      invariant id[off + i..] == old(id[off + i..])
    {
      var r := rest % 3;
      if r == 0 {
        id[off + i] := '6';
      } else if r == 1 {
        id[off + i] := '1';
      } else {
        id[off + i] := 'c';
      }
      assert id[off + i] == Digits[Shift(num, i) % 3];
      EncodeShiftSnoc(num, i);
      assert id[off..off + i + 1] == id[off..off + i] + [id[off + i]];
      assert old(id[off + i..])[1..] == old(id[off + i + 1..]);
      rest := rest / 3;
      i := i + 1;
    }
  }

  /** Increments the 30-symbol counter held in id[off..off + 30]: decodes it,
      adds one and writes the lowest 30 digits back; nothing else changes. */
  method NextCommitIdPart1(id: array<char>, off: nat)
    requires off + CounterDigits <= id.Length
    modifies id
    ensures id[off..off + CounterDigits] == Increment(old(id[off..off + CounterDigits]))
    ensures id[..off] == old(id[..off])
    ensures id[off + CounterDigits..] == old(id[off + CounterDigits..])
  {
    ghost var before := id[off..off + CounterDigits];
    var num := DecodeCounter(id, off);
    num := num + 1;
    assert Increment(before) == Encode(num, CounterDigits);
    EncodeCounter(id, off, num);
  }

  /** Turns the previous id held in `id` into the next one for branch number `b`:
      the branch segment is written from `b`, the counter segment incremented. */
  method NextCommitId(id: array<char>, b: nat)
    requires id.Length == IdLength
    modifies id
    ensures id[..] == NextId(old(id[..]), b)
  {
    var n := b;
    var i := 0;
    while i < BranchDigits
      invariant 0 <= i <= BranchDigits
      invariant n == Shift(b, i)
      invariant id[..i] == Encode(b, i)
      invariant id[BranchDigits..] == old(id[BranchDigits..])
    {
      id[i] := Digits[n % 3];
      EncodeShiftSnoc(b, i);
      assert id[..i + 1] == id[..i] + [id[i]];
      n := n / 3;
      i := i + 1;
    }
    ghost var before := old(id[..]);
    ghost var mid := id[..];
    assert mid[..BranchDigits] == Encode(b, BranchDigits);
    assert mid[BranchDigits..IdLength] == before[BranchDigits..];
    NextCommitIdPart1(id, BranchDigits);
    assert id[..BranchDigits] == mid[..BranchDigits];
    assert id[BranchDigits..IdLength] == Increment(before[BranchDigits..]);
    assert id[..] == id[..BranchDigits] + id[BranchDigits..IdLength];
  }
}
