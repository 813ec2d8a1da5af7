/**
 * Adler-32 and the two Fletcher sums: a running sum of the bytes and a running sum of
 * those sums, both reduced at every byte. They are proved equal to closed forms reduced
 * once at the end, from which the checksum of a concatenation can be computed without the data.
 */
module Sums {
  import opened Bytes

  const ADLER := 65521
  const FLETCHER16 := 255
  const FLETCHER32 := 65535

  predicate Modulus(m: nat): (b: bool)
    ensures b ==> m > 0
  {
    m == ADLER || m == FLETCHER16 || m == FLETCHER32
  }

  function Value(b: byte): (n: nat)
    ensures n < 256
  {
    b as int
  }

  function ByteSum(data: seq<byte>): nat {
    if data == [] then 0 else Value(data[0]) + ByteSum(data[1..])
  }

  /** Every byte weighted by its distance from the end. */
  function WeightedSum(data: seq<byte>): nat {
    if data == [] then 0 else |data| * Value(data[0]) + WeightedSum(data[1..])
  }

  /** The two halves of a checksum. */
  datatype Pair = Pair(low: nat, high: nat)

  /** The closed form of a checksum whose low half starts at `start`. */
  function Closed(data: seq<byte>, m: nat, start: nat): Pair
    requires Modulus(m)
  {
    Pair((start + ByteSum(data)) % m, (|data| * start + WeightedSum(data)) % m)
  }

  lemma {:induction false} SumsConcat(a: seq<byte>, b: seq<byte>)
    ensures ByteSum(a + b) == ByteSum(a) + ByteSum(b)
    ensures WeightedSum(a + b) == WeightedSum(a) + |b| * ByteSum(a) + WeightedSum(b)
    decreases |a|
  {
    hide Value;
    if a == [] {
      assert a + b == b;
    } else {
      assert (a + b)[1..] == a[1..] + b;
      SumsConcat(a[1..], b);
      Distribute(|a|, |b|, Value(a[0]));
      Distribute2(|b|, Value(a[0]), ByteSum(a[1..]));
    }
  }

  lemma Distribute(m: nat, n: nat, x: nat)
    ensures (m + n) * x == m * x + n * x
  {
  }

  lemma Distribute2(n: nat, x: nat, y: nat)
    ensures n * (x + y) == n * x + n * y
  {
  }

  lemma DistributeMinus(n: nat, x: int, y: int)
    ensures n * (x - y) == n * x - n * y
  {
  }

  lemma SumsOneMore(data: seq<byte>, b: byte)
    ensures ByteSum(data + [b]) == ByteSum(data) + Value(b)
    ensures WeightedSum(data + [b]) == WeightedSum(data) + ByteSum(data) + Value(b)
  {
    hide Value;
    SumsConcat(data, [b]);
    assert [b][1..] == [];
  }

  // ----- reducing early or late -----

  lemma AddMultiple(x: int, t: int, m: nat)
    requires Modulus(m)
    ensures (x + t * m) % m == x % m
  {
    if
    case m == ADLER => AddAdler(x, t);
    case m == FLETCHER16 => AddFletcher16(x, t);
    case m == FLETCHER32 => AddFletcher32(x, t);
  }

  lemma AddAdler(x: int, t: int)
    ensures (x + t * 65521) % 65521 == x % 65521
  {
  }

  lemma AddFletcher16(x: int, t: int)
    ensures (x + t * 255) % 255 == x % 255
  {
  }

  lemma AddFletcher32(x: int, t: int)
    ensures (x + t * 65535) % 65535 == x % 65535
  {
  }

  lemma AddReduced(x: int, y: int, m: nat)
    requires Modulus(m)
    ensures (x % m + y) % m == (x + y) % m
  {
    AddMultiple(x % m + y, x / m, m);
  }

  lemma SplitProduct(k: nat, q: int, m: nat, r: int)
    ensures k * (q * m + r) == (k * q) * m + k * r
  {
  }

  lemma MultiplyReduced(k: nat, x: int, y: int, m: nat)
    requires Modulus(m)
    ensures (y + k * (x % m)) % m == (y + k * x) % m
  {
    hide Modulus;
    var q, r := x / m, x % m;
    SplitProduct(k, q, m, r);
    AddMultiple(y + k * r, k * q, m);
  }

  /** One byte through the loop body keeps both halves in step with the closed form. */
  lemma LoopStep(data: seq<byte>, b: byte, m: nat, start: nat)
    requires Modulus(m)
    ensures var was, next := Closed(data, m, start), Closed(data + [b], m, start);
            && next.low == (was.low + Value(b)) % m
            && next.high == (was.high + next.low) % m
  {
    hide Value, ByteSum, WeightedSum;
    SumsOneMore(data, b);
    var s, w, n := start + ByteSum(data), |data| * start + WeightedSum(data), |data|;
    AddReduced(s, Value(b), m);
    AddReduced(w, s + Value(b), m);
    AddReduced(s + Value(b), w % m, m);
    Distribute(n, 1, start);
  }

  method ComputeAdler32(data: seq<byte>) returns (sum: nat)
    ensures var c := Closed(data, ADLER, 1);
            sum == c.high * 0x1_0000 + c.low
  {
    hide Closed, Value;
    var a: nat, b: nat := 1, 0;
    ClosedEmpty(ADLER, 1);
    assert data[..0] == [];
    for i := 0 to |data|
      invariant Pair(a, b) == Closed(data[..i], ADLER, 1)
    {
      LoopStep(data[..i], data[i], ADLER, 1);
      assert data[..i + 1] == data[..i] + [data[i]];
      a := (a + Value(data[i])) % 65521;
      b := (b + a) % 65521;
    }
    assert data[..|data|] == data;
    return b * 0x1_0000 + a;
  }

  method ComputeFletcher16(data: seq<byte>) returns (sum: nat)
    ensures var c := Closed(data, FLETCHER16, 0);
            sum == c.high * 0x100 + c.low
  {
    hide Closed, Value;
    var sum1: nat, sum2: nat := 0, 0;
    ClosedEmpty(FLETCHER16, 0);
    assert data[..0] == [];
    for i := 0 to |data|
      invariant Pair(sum1, sum2) == Closed(data[..i], FLETCHER16, 0)
    {
      LoopStep(data[..i], data[i], FLETCHER16, 0);
      assert data[..i + 1] == data[..i] + [data[i]];
      sum1 := (sum1 + Value(data[i])) % 255;
      sum2 := (sum2 + sum1) % 255;
    }
    assert data[..|data|] == data;
    return sum2 * 0x100 + sum1;
  }

  method ComputeFletcher32(data: seq<byte>) returns (sum: nat)
    ensures var c := Closed(data, FLETCHER32, 0);
            sum == c.high * 0x1_0000 + c.low
  {
    hide Closed, Value;
    var sum1: nat, sum2: nat := 0, 0;
    ClosedEmpty(FLETCHER32, 0);
    assert data[..0] == [];
    for i := 0 to |data|
      invariant Pair(sum1, sum2) == Closed(data[..i], FLETCHER32, 0)
    {
      LoopStep(data[..i], data[i], FLETCHER32, 0);
      assert data[..i + 1] == data[..i] + [data[i]];
      sum1 := (sum1 + Value(data[i])) % 65535;
      sum2 := (sum2 + sum1) % 65535;
    }
    assert data[..|data|] == data;
    return sum2 * 0x1_0000 + sum1;
  }

  lemma ClosedEmpty(m: nat, start: nat)
    requires Modulus(m) && start <= 1
    ensures Closed([], m, start) == Pair(start, 0)
  {
  }

  /** The checksum of x ++ y from the checksums of x and y and the length of y. */
  function Combined(x: Pair, y: Pair, n: nat, m: nat, start: nat): Pair
    requires Modulus(m)
  {
    Pair((x.low + y.low - start) % m, (x.high + y.high + n * (x.low - start)) % m)
  }

  /** Checksums combine: that of a concatenation needs only the two checksums and the second length. */
  lemma {:induction false} CombineChecksums(x: seq<byte>, y: seq<byte>, m: nat, start: nat)
    requires Modulus(m)
    ensures Closed(x + y, m, start) == Combined(Closed(x, m, start), Closed(y, m, start), |y|, m, start)
  {
    hide ByteSum, WeightedSum, Modulus;
    SumsConcat(x, y);
    CombineLow(start + ByteSum(x), start + ByteSum(y), start, m);
    CombineHigh(|x| * start + WeightedSum(x), |y| * start + WeightedSum(y), start + ByteSum(x), start, |y|, m);
    TotalHigh(|x|, |y|, start, ByteSum(x), WeightedSum(x), WeightedSum(y));
  }

  lemma TotalHigh(nx: nat, ny: nat, start: nat, s: nat, wx: nat, wy: nat)
    ensures (nx + ny) * start + (wx + ny * s + wy)
         == (nx * start + wx) + (ny * start + wy) + ny * ((start + s) - start)
  {
    Distribute(nx, ny, start);
  }

  lemma CombineLow(sx: nat, sy: nat, start: nat, m: nat)
    requires Modulus(m)
    ensures (sx % m + sy % m - start) % m == (sx + sy - start) % m
  {
    hide Modulus;
    AddReduced(sx, sy % m - start, m);
    AddReduced(sy, sx - start, m);
  }

  lemma CombineHigh(wx: int, wy: int, s: nat, start: nat, n: nat, m: nat)
    requires Modulus(m)
    ensures (wx % m + wy % m + n * (s % m - start)) % m == (wx + wy + n * (s - start)) % m
  {
    hide Modulus;
    var reduced := n * (s % m - start);
    AddReduced(wx, wy % m + reduced, m);
    AddReduced(wy, wx + reduced, m);
    DistributeMinus(n, s % m, start);
    DistributeMinus(n, s, start);
    MultiplyReduced(n, s, wx + wy - n * start, m);
  }

  /** The sum of the first values, each taken from 1, as RFC 1950 words it. */
  function SumOfSums(data: seq<byte>): nat {
    if data == [] then 0 else SumOfSums(data[..|data| - 1]) + 1 + ByteSum(data)
  }

  /** Section 2.2 of RFC 1950: the high half of Adler-32 is the sum of all the low halves. */
  lemma {:induction false} AdlerHighIsSumOfSums(data: seq<byte>)
    ensures |data| + WeightedSum(data) == SumOfSums(data)
    decreases |data|
  {
    hide Value, ByteSum, WeightedSum;
    if data == [] {
      WeightedNothing();
    } else {
      var front := data[..|data| - 1];
      AdlerHighIsSumOfSums(front);
      assert data == front + [data[|data| - 1]];
      SumsOneMore(front, data[|data| - 1]);
    }
  }

  lemma WeightedNothing()
    ensures WeightedSum([]) == 0
  {
  }

  // ----- in numbers -----

  /** The empty message has the starting value in its low half and nothing in its high half. */
  lemma NothingSummed(m: nat, start: nat)
    requires (m == 65521 || m == 255 || m == 65535) && start <= 1
    ensures Closed([], m, start) == Pair(start, 0)
  {
  }

  /** Each byte, as a number, is added to the low half, and the new low half to the high half. */
  lemma ByteSummed(data: seq<byte>, b: byte, m: nat, start: nat)
    requires m == 65521 || m == 255 || m == 65535
    ensures var was, next := Closed(data, m, start), Closed(data + [b], m, start);
            && next.low == (was.low + (b as int)) % m
            && next.high == (was.high + next.low) % m
  {
    hide ByteSum, WeightedSum, Value, Closed;
    LoopStep(data, b, m, start);
    ValueOf(b);
  }

  lemma ValueOf(b: byte)
    ensures Value(b) == b as int
  {
  }

  /** A message of one byte. */
  lemma OneByte(b: byte, m: nat, start: nat)
    requires (m == 65521 || m == 255 || m == 65535) && start <= 1
    ensures Closed([b], m, start) == Pair((start + (b as int)) % m, (start + (b as int)) % m)
  {
    hide Closed;
    NothingSummed(m, start);
    ByteSummed([], b, m, start);
    assert [] + [b] == [b];
    Twice(start + (b as int), m);
  }

  lemma Twice(x: nat, m: nat)
    requires m > 0
    ensures x % m % m == x % m
  {
  }
}
