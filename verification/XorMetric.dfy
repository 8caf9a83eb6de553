/** The XOR metric on 160-bit node identifiers, byte by byte as the program computes it and as
    the number it stands for. */
module XorMetric {
  const ID_LENGTH := 20
  const ID_BITS := 160

  predicate IsId(id: seq<bv8>) {
    |id| == ID_LENGTH
  }

  ghost function Distance(a: seq<bv8>, b: seq<bv8>): seq<bv8>
    requires IsId(a) && IsId(b)
  {
    seq(ID_LENGTH, i requires 0 <= i < ID_LENGTH => a[i] ^ b[i])
  }

  // ---------- bits ----------

  /** `0x80 >> bit`. */
  function Mask(bit: nat): bv8
    requires bit < 8
  {
    if bit == 0 then 0x80 else if bit == 1 then 0x40 else if bit == 2 then 0x20 else if bit == 3 then 0x10
    else if bit == 4 then 0x08 else if bit == 5 then 0x04 else if bit == 6 then 0x02 else 0x01
  }

  predicate IsSet(x: bv8, bit: nat)
    requires bit < 8
  {
    x & Mask(bit) != 0
  }

  /** Bit j of an identifier, the most significant first. */
  predicate Bit(id: seq<bv8>, j: nat)
    requires j < 8 * |id|
  {
    IsSet(id[j / 8], j % 8)
  }

  /** The number its first n bits stand for. */
  ghost function Num(id: seq<bv8>, n: nat): nat
    requires n <= 8 * |id|
  {
    if n == 0 then 0 else 2 * Num(id, n - 1) + if Bit(id, n - 1) then 1 else 0
  }

  /** The distance as a 160-bit number. */
  ghost function D(a: seq<bv8>, b: seq<bv8>): nat
    requires IsId(a) && IsId(b)
  {
    Num(Distance(a, b), ID_BITS)
  }

  ghost function Pow2(n: nat): nat {
    if n == 0 then 1 else 2 * Pow2(n - 1)
  }

  lemma XorMasked(a: bv8, b: bv8, m: bv8)
    requires m & (m - 1) == 0
    ensures (a ^ b) & m != 0 <==> (a & m != 0) != (b & m != 0)
  {
  }

  lemma OneBit(t: nat)
    requires t < 8
    ensures Mask(t) & (Mask(t) - 1) == 0
  {
  }

  lemma XorBit(a: bv8, b: bv8, t: nat)
    requires t < 8
    ensures IsSet(a ^ b, t) <==> IsSet(a, t) != IsSet(b, t)
  {
    hide Mask;
    OneBit(t);
    XorMasked(a, b, Mask(t));
  }

  lemma DistanceBit(a: seq<bv8>, b: seq<bv8>, j: nat)
    requires IsId(a) && IsId(b) && j < ID_BITS
    ensures Bit(Distance(a, b), j) <==> (Bit(a, j) != Bit(b, j))
  {
    hide IsSet;
    XorBit(a[j / 8], b[j / 8], j % 8);
  }

  // ---------- comparing bytes compares numbers ----------

  /** The first bit two bytes differ in. */
  function FirstDifference(x: bv8, y: bv8): (t: nat)
    requires x != y
    ensures t < 8
  {
    if (x & 0x80) != (y & 0x80) then 0 else if (x & 0x40) != (y & 0x40) then 1
    else if (x & 0x20) != (y & 0x20) then 2 else if (x & 0x10) != (y & 0x10) then 3
    else if (x & 0x08) != (y & 0x08) then 4 else if (x & 0x04) != (y & 0x04) then 5
    else if (x & 0x02) != (y & 0x02) then 6 else 7
  }

  lemma ByteLess(x: bv8, y: bv8)
    requires x < y
    ensures var t := FirstDifference(x, y); !IsSet(x, t) && IsSet(y, t)
  {
  }

  lemma ByteAgrees(x: bv8, y: bv8, j: nat)
    requires x != y && j < FirstDifference(x, y)
    ensures IsSet(x, j) == IsSet(y, j)
  {
  }

  /** ClosestNodes' comparison: the first differing byte decides. */
  predicate BytesLess(x: seq<bv8>, y: seq<bv8>)
    requires |x| == |y|
  {
    x != [] && (x[0] < y[0] || (x[0] == y[0] && BytesLess(x[1..], y[1..])))
  }

  lemma {:induction false} NumPrefix(x: seq<bv8>, y: seq<bv8>, n: nat)
    requires |x| == |y| && n <= 8 * |x|
    requires forall j :: 0 <= j < n ==> (Bit(x, j) <==> Bit(y, j))
    ensures Num(x, n) == Num(y, n)
  {
    if n > 0 { NumPrefix(x, y, n - 1); }
  }

  /** Once smaller, a number stays smaller whatever bits follow. */
  lemma {:induction false} NumStaysLess(x: seq<bv8>, y: seq<bv8>, m: nat, n: nat)
    requires |x| == |y| && m <= n <= 8 * |x| && Num(x, m) < Num(y, m)
    ensures Num(x, n) < Num(y, n)
    decreases n - m
  {
    if m < n { NumStaysLess(x, y, m, n - 1); }
  }

  /** At the first differing byte, the smaller byte makes the smaller number. */
  lemma FirstByteDecides(x: seq<bv8>, y: seq<bv8>, i: nat)
    requires |x| == |y| && i < |x| && x[i] < y[i]
    requires forall k :: 0 <= k < i ==> x[k] == y[k]
    ensures Num(x, 8 * |x|) < Num(y, 8 * |y|)
  {
    hide FirstDifference, Bit;
    var n := 8 * i + FirstDifference(x[i], y[i]);
    DecidingBit(x, y, i);
    forall j | 0 <= j < n ensures Bit(x, j) <==> Bit(y, j) {
      BitBefore(x, y, i, j);
    }
    NumPrefix(x, y, n);
    NumStaysLess(x, y, n + 1, 8 * |x|);
  }

  lemma DecidingBit(x: seq<bv8>, y: seq<bv8>, i: nat)
    requires |x| == |y| && i < |x| && x[i] < y[i]
    ensures var n := 8 * i + FirstDifference(x[i], y[i]); !Bit(x, n) && Bit(y, n)
  {
    hide IsSet, FirstDifference;
    ByteLess(x[i], y[i]);
    Position(i, FirstDifference(x[i], y[i]));
  }

  lemma Position(i: nat, t: nat)
    requires t < 8
    ensures (8 * i + t) / 8 == i && (8 * i + t) % 8 == t
  {
  }

  lemma BitBefore(x: seq<bv8>, y: seq<bv8>, i: nat, j: nat)
    requires |x| == |y| && i < |x| && x[i] != y[i] && j < 8 * i + FirstDifference(x[i], y[i])
    requires forall k :: 0 <= k < i ==> x[k] == y[k]
    ensures Bit(x, j) <==> Bit(y, j)
  {
    hide IsSet, FirstDifference;
    if j / 8 == i {
      ByteAgrees(x[i], y[i], j % 8);
    }
  }

  lemma {:induction false} BytesLessFirst(x: seq<bv8>, y: seq<bv8>) returns (i: nat)
    requires |x| == |y| && x != y
    ensures i < |x| && x[i] != y[i] && forall k :: 0 <= k < i ==> x[k] == y[k]
    ensures BytesLess(x, y) <==> x[i] < y[i]
  {
    if x[0] != y[0] {
      i := 0;
    } else {
      assert x == [x[0]] + x[1..] && y == [y[0]] + y[1..];
      i := BytesLessFirst(x[1..], y[1..]);
      i := i + 1;
    }
  }

  lemma {:induction false} BytesLessIrreflexive(x: seq<bv8>)
    ensures !BytesLess(x, x)
  {
    if x != [] { BytesLessIrreflexive(x[1..]); }
  }

  /** The bytewise comparison is numeric order, and the number determines the bytes. */
  lemma BytesLessIsNumeric(x: seq<bv8>, y: seq<bv8>)
    requires |x| == |y|
    ensures BytesLess(x, y) <==> Num(x, 8 * |x|) < Num(y, 8 * |y|)
    ensures x == y <==> Num(x, 8 * |x|) == Num(y, 8 * |y|)
  {
    if x == y {
      BytesLessIrreflexive(x);
    } else {
      var i := BytesLessFirst(x, y);
      if x[i] < y[i] {
        FirstByteDecides(x, y, i);
      } else {
        FirstByteDecides(y, x, i);
      }
    }
  }

  // ---------- a metric ----------

  lemma {:induction false} NumTriangle(a: seq<bv8>, b: seq<bv8>, c: seq<bv8>, n: nat)
    requires IsId(a) && IsId(b) && IsId(c) && n <= ID_BITS
    ensures Num(Distance(a, c), n) <= Num(Distance(a, b), n) + Num(Distance(b, c), n)
  {
    hide Bit, Distance;
    if n > 0 {
      NumTriangle(a, b, c, n - 1);
      DistanceBit(a, c, n - 1);
      DistanceBit(a, b, n - 1);
      DistanceBit(b, c, n - 1);
    }
  }

  lemma {:induction false} NumOfZeros(id: seq<bv8>, n: nat)
    requires n <= 8 * |id| && forall j :: 0 <= j < n ==> !Bit(id, j)
    ensures Num(id, n) == 0
  {
    if n > 0 { NumOfZeros(id, n - 1); }
  }

  /** Symmetry, the triangle inequality, identity, and for each identifier and distance at most
      one identifier at that distance. */
  lemma XorIsMetric(a: seq<bv8>, b: seq<bv8>, c: seq<bv8>)
    requires IsId(a) && IsId(b) && IsId(c)
    ensures D(a, b) == D(b, a)
    ensures D(a, b) == 0 <==> a == b
    ensures D(a, c) <= D(a, b) + D(b, c)
    ensures D(a, b) == D(a, c) ==> b == c
  {
    forall j | 0 <= j < ID_BITS ensures Bit(Distance(a, b), j) <==> Bit(Distance(b, a), j) {
      DistanceBit(a, b, j);
      DistanceBit(b, a, j);
    }
    NumPrefix(Distance(a, b), Distance(b, a), ID_BITS);
    NumTriangle(a, b, c, ID_BITS);
    SameDistance(a, b, c);
    SelfDistance(a);
    SameDistance(a, a, b);
  }

  lemma SelfDistance(a: seq<bv8>)
    requires IsId(a)
    ensures D(a, a) == 0
  {
    forall j | 0 <= j < ID_BITS ensures !Bit(Distance(a, a), j) {
      DistanceBit(a, a, j);
    }
    NumOfZeros(Distance(a, a), ID_BITS);
  }

  lemma SameDistance(a: seq<bv8>, b: seq<bv8>, c: seq<bv8>)
    requires IsId(a) && IsId(b) && IsId(c)
    ensures D(a, b) == D(a, c) ==> b == c
  {
    if D(a, b) == D(a, c) {
      BytesLessIsNumeric(Distance(a, b), Distance(a, c));
      forall j | 0 <= j < ID_BITS ensures Bit(b, j) <==> Bit(c, j) {
        DistanceBit(a, b, j);
        DistanceBit(a, c, j);
      }
      NumPrefix(b, c, ID_BITS);
      BytesLessIsNumeric(b, c);
    }
  }

  // ---------- buckets ----------

  /** The position of the first set bit at or after j; the last bucket when there is none. */
  ghost function FirstBit(d: seq<bv8>, j: nat): (r: nat)
    requires IsId(d) && j <= ID_BITS
    ensures r < ID_BITS
    decreases ID_BITS - j
  {
    if j == ID_BITS then ID_BITS - 1 else if Bit(d, j) then j else FirstBit(d, j + 1)
  }

  ghost function BucketOf(a: seq<bv8>, b: seq<bv8>): (r: nat)
    requires IsId(a) && IsId(b)
    ensures r < ID_BITS
  {
    FirstBit(Distance(a, b), 0)
  }

  lemma {:induction false} FirstBitFound(d: seq<bv8>, j: nat, k: nat)
    requires IsId(d) && j <= k < ID_BITS && Bit(d, k)
    requires forall i :: j <= i < k ==> !Bit(d, i)
    ensures FirstBit(d, j) == k
    decreases k - j
  {
    hide Bit;
    if j < k { FirstBitFound(d, j + 1, k); }
  }

  lemma {:induction false} FirstBitNone(d: seq<bv8>, j: nat)
    requires IsId(d) && j <= ID_BITS
    requires forall i :: j <= i < ID_BITS ==> !Bit(d, i)
    ensures FirstBit(d, j) == ID_BITS - 1
    decreases ID_BITS - j
  {
    if j < ID_BITS { FirstBitNone(d, j + 1); }
  }

  lemma {:induction false} FirstBitIsFirst(d: seq<bv8>, j: nat)
    requires IsId(d) && j <= ID_BITS
    requires exists i :: j <= i < ID_BITS && Bit(d, i)
    ensures j <= FirstBit(d, j) && Bit(d, FirstBit(d, j))
    ensures forall i :: j <= i < FirstBit(d, j) ==> !Bit(d, i)
    decreases ID_BITS - j
  {
    hide Bit;
    if !Bit(d, j) { FirstBitIsFirst(d, j + 1); }
  }

  lemma {:induction false} Pow2Range(d: seq<bv8>, m: nat, n: nat)
    requires m <= n <= 8 * |d|
    ensures Num(d, m) * Pow2(n - m) <= Num(d, n) < (Num(d, m) + 1) * Pow2(n - m)
    decreases n - m
  {
    hide Bit;
    if m < n {
      Pow2Range(d, m, n - 1);
      Double(Num(d, m), Pow2(n - 1 - m));
      Double(Num(d, m) + 1, Pow2(n - 1 - m));
    }
  }

  lemma Double(x: nat, p: nat)
    ensures x * (2 * p) == 2 * (x * p)
  {
  }

  lemma SomeBit(a: seq<bv8>, b: seq<bv8>)
    requires IsId(a) && IsId(b) && a != b
    ensures exists j :: 0 <= j < ID_BITS && Bit(Distance(a, b), j)
  {
    XorIsMetric(a, b, b);
    if forall j :: 0 <= j < ID_BITS ==> !Bit(Distance(a, b), j) {
      NumOfZeros(Distance(a, b), ID_BITS);
    }
  }

  /** A number is as large as its first set bit says. */
  lemma FirstBitDecides(d: seq<bv8>, r: nat)
    requires r < 8 * |d| && Bit(d, r) && forall j :: 0 <= j < r ==> !Bit(d, j)
    ensures Pow2(8 * |d| - 1 - r) <= Num(d, 8 * |d|) < Pow2(8 * |d| - r)
  {
    hide Bit, Pow2;
    NumOfZeros(d, r);
    assert Num(d, r + 1) == 1;
    Pow2Range(d, r, 8 * |d|);
    Pow2Range(d, r + 1, 8 * |d|);
  }

  lemma FirstDifferentBit(a: seq<bv8>, b: seq<bv8>)
    requires IsId(a) && IsId(b) && a != b
    ensures var d, r := Distance(a, b), BucketOf(a, b);
            && (Bit(d, r) && forall j :: 0 <= j < r ==> !Bit(d, j))
            && (forall j :: 0 <= j < r ==> (Bit(a, j) <==> Bit(b, j)))
            && Bit(a, r) != Bit(b, r)
  {
    var d, r := Distance(a, b), BucketOf(a, b);
    hide Bit, FirstBit, Distance;
    SomeBit(a, b);
    FirstBitIsFirst(d, 0);
    forall j | 0 <= j <= r ensures Bit(d, j) <==> (Bit(a, j) != Bit(b, j)) {
      DistanceBit(a, b, j);
    }
  }

  /** For distinct identifiers the bucket index is the length of their common prefix in bits, that
      is 159 less the integer logarithm of their distance. */
  lemma BucketIsCommonPrefix(a: seq<bv8>, b: seq<bv8>)
    requires IsId(a) && IsId(b) && a != b
    ensures var r := BucketOf(a, b);
            && (forall j :: 0 <= j < r ==> (Bit(a, j) <==> Bit(b, j)))
            && (Bit(a, r) != Bit(b, r))
            && Pow2(ID_BITS - 1 - r) <= D(a, b) < Pow2(ID_BITS - r)
  {
    hide Bit, BucketOf, Num, Pow2;
    FirstDifferentBit(a, b);
    FirstBitDecides(Distance(a, b), BucketOf(a, b));
  }

  lemma {:induction false} Pow2Monotone(m: nat, n: nat)
    requires m <= n
    ensures Pow2(m) <= Pow2(n)
  {
    if m < n { Pow2Monotone(m, n - 1); }
  }

  /** Anything in a higher bucket is strictly closer than anything in a lower one. */
  lemma HigherBucketIsCloser(self: seq<bv8>, a: seq<bv8>, b: seq<bv8>)
    requires IsId(self) && IsId(a) && IsId(b) && a != self && b != self
    requires BucketOf(self, a) > BucketOf(self, b)
    ensures D(self, a) < D(self, b)
  {
    hide Bit, BucketOf, Num, Pow2;
    BucketIsCommonPrefix(self, a);
    BucketIsCommonPrefix(self, b);
    Pow2Monotone(ID_BITS - BucketOf(self, a), ID_BITS - 1 - BucketOf(self, b));
  }
}
