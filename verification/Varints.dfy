/**
 The length codec: seven bits of payload a byte, least significant group first, the top bit set on
 every byte but the last. This is the "Base 128 Varints" section of the Protocol Buffers Encoding
 specification, the same as unsigned LEB128 in section 7.6 of DWARF 4.
 */
module Varints {
  import opened Bits
  import opened Doubles

  const MAX_SIZE: nat := 10

  ////////// Encoding //////////

  /** The least number of seven-bit groups that hold `v`. */
  function MinSize(v: nat): (m: nat)
    ensures 1 <= m
  {
    if v < 128 then 1 else 1 + MinSize(v / 128)
  }

  /**
   The number of groups the encoder uses: one more than the least when `v` is so close below the
   power of two that the comparison in floating point takes it for not smaller.
   */
  function EncodedSize(v: nat): (n: nat)
    ensures 1 <= n
  {
    if v < Threshold(7 * MinSize(v)) then MinSize(v) else MinSize(v) + 1
  }

  /** The encoding of `v`. */
  function Encode(v: nat): (bytes: seq<byte>)
    ensures |bytes| == EncodedSize(v)
  {
    seq(EncodedSize(v), i requires 0 <= i < EncodedSize(v) => Group(v, i) + Marker(v, i))
  }

  function Group(v: nat, i: nat): (g: nat)
    ensures g < 128
  {
    ShiftRight(v, 7 * i) % 128
  }

  function Marker(v: nat, i: nat): nat {
    if i + 1 < EncodedSize(v) then 128 else 0
  }

  lemma {:induction false} MinSizeIsLeast(v: nat, n: nat)
    ensures v < Pow2(7 * n) <==> (MinSize(v) <= n || v == 0)
    decreases n
  {
    if n != 0 {
      Pow2Seven(n - 1);
      if v >= 128 {
        MinSizeIsLeast(v / 128, n - 1);
      }
    }
  }

  /** The size test of the two encoding loops is passed from `EncodedSize` on. */
  lemma SizeTest(v: nat, n: nat)
    requires 1 <= n
    ensures LessThanExp2(v, 7 * n) <==> EncodedSize(v) <= n
  {
    SizeThreshold(v, n);
    ComparisonIsExactBelowThreshold(v, 7 * n);
  }

  lemma SizeThreshold(v: nat, n: nat)
    requires 1 <= n
    ensures v < Threshold(7 * n) <==> EncodedSize(v) <= n
  {
    var m := MinSize(v);
    MinSizeIsLeast(v, m);
    if n < m {
      MinSizeIsLeast(v, n);
    } else if m < n {
      Pow2Increases(7 * m, 7 * n);
      if PRECISION < 7 * n {
        Pow2Increases(7 * n - PRECISION - 1, 7 * n);
      }
    }
  }

  lemma EncodedSizeHolds(v: nat)
    ensures v < Pow2(7 * EncodedSize(v))
  {
    MinSizeIsLeast(v, EncodedSize(v));
  }

  /** Ten bytes are enough for every 64-bit value. */
  lemma EncodedSizeBound(v: nat)
    requires v < TWO_TO_THE_64
    ensures 1 <= EncodedSize(v) <= MAX_SIZE
  {
    var k := 7 * MAX_SIZE;
    PowerTable(k);
    PowerTable(k - PRECISION - 1);
    SizeThreshold(v, MAX_SIZE);
  }

  /** A larger value never has a shorter encoding. */
  lemma EncodedSizeIsMonotone(a: nat, b: nat)
    requires a <= b
    ensures EncodedSize(a) <= EncodedSize(b)
  {
    var n := EncodedSize(b);
    SizeThreshold(b, n);
    SizeThreshold(a, n);
  }

  /**
   The encoding of a 64-bit value is as short as it can be, except in the two bands that round up
   to `2^56` and `2^63`, where it is one byte longer.
   */
  lemma EncodedSizeIsMinimalUpToRounding(v: nat)
    requires v < TWO_TO_THE_64
    ensures v < Pow2(7 * MinSize(v)) && forall n: nat :: 1 <= n < MinSize(v) ==> Pow2(7 * n) <= v
    ensures EncodedSize(v) == MinSize(v) + if InRoundingBand(v) then 1 else 0
  {
    var m := MinSize(v);
    MinSizeIsLeast(v, m);
    forall n: nat | 1 <= n < m
      ensures Pow2(7 * n) <= v
    {
      MinSizeIsLeast(v, n);
    }
    ComparisonIsExactBelowThreshold(v, 7 * m);
    MinSizeAtMostTen(v);
    if m <= 7 {
      ShortSize(v);
    } else {
      LongSize(v);
    }
  }

  lemma ShortSize(v: nat)
    requires MinSize(v) <= 7
    ensures EncodedSize(v) == MinSize(v) && !InRoundingBand(v)
  {
    var k := 7 * 7;
    MinSizeIsLeast(v, 7);
    PowerTable(k);
    MinSizeIsLeast(v, MinSize(v));
  }

  lemma LongSize(v: nat)
    requires v < TWO_TO_THE_64 && 7 < MinSize(v) <= MAX_SIZE
    ensures EncodedSize(v) == MinSize(v) + if InRoundingBand(v) then 1 else 0
  {
    var m := MinSize(v);
    var k := 7 * m;
    MinSizeIsLeast(v, m);
    MinSizeIsLeast(v, m - 1);
    PowerTable(k);
    PowerTable(k - 7);
    PowerTable(k - PRECISION - 1);
    assert Threshold(k) == Pow2(k) - Pow2(k - PRECISION - 1);
  }

  lemma MinSizeAtMostTen(v: nat)
    requires v < TWO_TO_THE_64
    ensures MinSize(v) <= MAX_SIZE
  {
    PowerTable(7 * MAX_SIZE);
    MinSizeIsLeast(v, MAX_SIZE);
  }

  predicate InRoundingBand(v: nat) {
    || 0x100_0000_0000_0000 - 4 <= v < 0x100_0000_0000_0000
    || 0x8000_0000_0000_0000 - 512 <= v < 0x8000_0000_0000_0000
  }

  ////////// Decoding //////////

  /** Some byte of `s` ends a varint. */
  predicate Terminated(s: seq<byte>) {
    exists i :: 0 <= i < |s| && s[i] < 128
  }

  /** The bytes up to and including the first one whose top bit is clear. */
  function PrefixLength(s: seq<byte>): (n: nat)
    requires Terminated(s)
    ensures 1 <= n <= |s| && s[n - 1] < 128
    ensures forall i :: 0 <= i < n - 1 ==> 128 <= s[i]
  {
    if s[0] < 128 then 1
    else
      var i :| 0 <= i < |s| && s[i] < 128;
      assert s[1..][i - 1] == s[i];
      1 + PrefixLength(s[1..])
  }

  /** The little-endian number whose base-128 digits are the low seven bits of each byte. */
  function Value(s: seq<byte>): nat {
    if s == [] then 0
    else
      var n := |s| - 1;
      Value(s[..n]) + s[n] % 128 * Pow2(7 * n)
  }

  lemma {:induction false} ValueBound(s: seq<byte>)
    ensures Value(s) < Pow2(7 * |s|)
  {
    if s != [] {
      var n := |s| - 1;
      ValueBound(s[..n]);
      Pow2Seven(n);
      MulGap(s[n] % 128, 128, Pow2(7 * n));
    }
  }

  /** The groups decoded so far and the bits not yet emitted make up the value. */
  lemma {:induction false} ValueOfGroups(v: nat, k: nat)
    requires k <= EncodedSize(v)
    ensures Value(Encode(v)[..k]) + ShiftRight(v, 7 * k) * Pow2(7 * k) == v
  {
    if k != 0 {
      var n := k - 1;
      ValueOfGroups(v, n);
      GroupValue(v, n);
      assert Encode(v)[..k][..n] == Encode(v)[..n];
      var x, p := ShiftRight(v, 7 * n), Pow2(7 * n);
      ShiftRightTwice(v, 7 * n, 7);
      ShiftBySeven(x);
      Pow2Seven(n);
      Redistribute(x, p);
    }
  }

  lemma GroupValue(v: nat, i: nat)
    requires i < EncodedSize(v)
    ensures Encode(v)[i] % 128 == ShiftRight(v, 7 * i) % 128
  {
  }

  lemma ShiftBySeven(x: nat)
    ensures ShiftRight(x, 7) == x / 128
  {
    var k := 7;
    assert Pow2(k) == 128;
    ShiftRightQuotient(x, k);
  }

  lemma Redistribute(x: nat, p: nat)
    ensures x % 128 * p + x / 128 * (128 * p) == x * p
  {
  }

  lemma {:induction false} ShiftedOut(v: nat, n: nat)
    requires v < Pow2(n)
    ensures ShiftRight(v, n) == 0
  {
    if n != 0 {
      ShiftedOut(v / 2, n - 1);
    }
  }

  /** Decoding an encoded value gives it back, whatever bytes come after it. */
  lemma RoundTrip(v: nat, s: seq<byte>)
    requires Encode(v) <= s
    ensures Terminated(s)
    ensures PrefixLength(s) == EncodedSize(v)
    ensures Value(s[..EncodedSize(v)]) == v
  {
    var n := EncodedSize(v);
    EncodedBytes(v);
    assert forall i :: 0 <= i < n ==> s[i] == Encode(v)[i];
    PrefixLengthIs(s, n);
    assert s[..n] == Encode(v);
    EncodedValue(v);
  }

  lemma EncodedValue(v: nat)
    ensures Value(Encode(v)) == v
  {
    hide Value, MinSize, Threshold, Pow2, ShiftRight;
    var n := EncodedSize(v);
    assert Encode(v)[..n] == Encode(v);
    ValueOfGroups(v, n);
    EncodedSizeHolds(v);
    ShiftedOut(v, 7 * n);
  }

  lemma EncodedBytes(v: nat)
    ensures forall i :: 0 <= i < EncodedSize(v) - 1 ==> 128 <= Encode(v)[i]
    ensures Encode(v)[EncodedSize(v) - 1] < 128
  {
  }

  lemma {:induction false} PrefixLengthIs(s: seq<byte>, n: nat)
    requires 1 <= n <= |s| && s[n - 1] < 128 && forall i :: 0 <= i < n - 1 ==> 128 <= s[i]
    ensures Terminated(s) && PrefixLength(s) == n
  {
  }

  /** No encoding is a proper prefix of another: a stream of encodings splits in one way. */
  lemma EncodingsArePrefixFree(v: nat, w: nat, s: seq<byte>)
    requires Encode(v) <= s && Encode(w) <= s
    ensures v == w
  {
    RoundTrip(v, s);
    RoundTrip(w, s);
  }

  /** One decoding step on a 64-bit word: the group is or-ed in above the bits already there. */
  lemma OrGroup(s: seq<byte>, k: nat)
    requires k < MAX_SIZE <= |s|
    ensures BitOr(Value(s[..k]), ShiftLeft64(s[k] % 128, k * 7)) == Value(s[..k + 1]) % TWO_TO_THE_64
    ensures k + 1 < MAX_SIZE ==> Value(s[..k + 1]) % TWO_TO_THE_64 == Value(s[..k + 1])
  {
    assert s[..k + 1] == s[..k] + [s[k]];
    ValueSnoc(s[..k], s[k]);
    ValueBound(s[..k]);
    OrShiftedGroup(Value(s[..k]), s[k] % 128, k);
    if k + 1 < MAX_SIZE {
      ValueBound(s[..k + 1]);
      NineGroupsFit(Value(s[..k + 1]), k + 1);
      SmallMod(Value(s[..k + 1]), TWO_TO_THE_64);
    } else {
      PowerTable(7 * k);
      TopBitSum(Value(s[..k]), s[k] % 128, Pow2(7 * k));
    }
  }

  lemma ValueSnoc(s: seq<byte>, b: byte)
    ensures Value(s + [b]) == Value(s) + b % 128 * Pow2(7 * |s|)
  {
  }

  lemma OrShiftedGroup(low: nat, group: nat, k: nat)
    requires low < Pow2(7 * k) && group < 128 && k < MAX_SIZE
    ensures BitOr(low, ShiftLeft64(group, k * 7))
         == low + (if k < MAX_SIZE - 1 then group else group % 2) * Pow2(7 * k)
  {
    ShiftedGroup(group, k);
    OrOfDisjointBits(low, if k < MAX_SIZE - 1 then group else group % 2, 7 * k);
  }

  lemma TopBitSum(low: nat, group: nat, p: nat)
    requires p == 0x8000_0000_0000_0000 && low < p
    ensures (low + group * p) % TWO_TO_THE_64 == low + group % 2 * p
  {
  }

  lemma ShiftedGroup(group: nat, k: nat)
    requires group < 128 && k < MAX_SIZE
    ensures ShiftLeft64(group, 7 * k) == (if k < MAX_SIZE - 1 then group else group % 2) * Pow2(7 * k)
  {
    if k < MAX_SIZE - 1 {
      Pow2Seven(k);
      MulGap(group, 128, Pow2(7 * k));
      NineGroupsFit(group * Pow2(7 * k), k + 1);
    } else {
      PowerTable(7 * k);
      TopBit(group, Pow2(7 * k));
    }
  }

  lemma TopBit(group: nat, p: nat)
    requires p == 0x8000_0000_0000_0000
    ensures (group * p) % TWO_TO_THE_64 == group % 2 * p
  {
    DivModUnique(group * p, TWO_TO_THE_64, group / 2, group % 2 * p);
  }

  /** One encoding step: the group with its marker is the byte of the encoding. */
  lemma OrMarker(v: nat, i: nat, marker: nat)
    requires i < EncodedSize(v) && marker == Marker(v, i)
    ensures BitOr(ShiftRight(v, i * 7) % 128, marker) == Encode(v)[i]
  {
    OrTopBit(Group(v, i), marker);
  }

  lemma OrTopBit(group: nat, marker: nat)
    requires group < 128 && (marker == 0 || marker == 128)
    ensures BitOr(group, marker) == group + marker
  {
    var k := 7;
    assert Pow2(k) == 128;
    OrOfDisjointBits(group, marker / 128, k);
  }

  lemma NineGroupsFit(v: nat, k: nat)
    requires k < MAX_SIZE && v < Pow2(7 * k)
    ensures v < TWO_TO_THE_64
  {
    var n := 7 * (MAX_SIZE - 1);
    PowerTable(n);
    if 7 * k < n {
      Pow2Increases(7 * k, n);
    }
  }

  ////////// The codec object //////////

  class Varint {
    var value: nat

    ghost predicate Valid()
      reads this
    {
      value < TWO_TO_THE_64
    }

    constructor (value: nat)
      requires value < TWO_TO_THE_64
      ensures Valid() && this.value == value
    {
      this.value := value;
    }

    /** Decodes the varint at the start of `buffer` and returns its length. */
    method Read(buffer: array<byte>) returns (length: nat)
      requires MAX_SIZE <= buffer.Length && Terminated(buffer[..MAX_SIZE])
      modifies this
      ensures Valid()
      ensures length == PrefixLength(buffer[..MAX_SIZE])
      ensures value == Value(buffer[..length]) % TWO_TO_THE_64
    {
      ghost var bytes := buffer[..MAX_SIZE];
      value := 0;
      for shift := 0 to MAX_SIZE
        invariant buffer[..MAX_SIZE] == bytes
        invariant forall i :: 0 <= i < shift ==> 128 <= bytes[i]
        invariant shift < MAX_SIZE ==> value == Value(bytes[..shift])
      {
        OrGroup(bytes, shift);
        value := BitOr(value, ShiftLeft64(buffer[shift] % 128, shift * 7));
        if buffer[shift] < 128 {
          PrefixLengthIs(bytes, shift + 1);
          assert buffer[..shift + 1] == bytes[..shift + 1];
          return shift + 1;
        }
      }
      assert false;
    }

    /** The length of the encoding. */
    method ByteSize() returns (n: nat)
      requires Valid()
      ensures n == EncodedSize(value)
      ensures n <= MAX_SIZE
    {
      EncodedSizeBound(value);
      for shift := 0 to MAX_SIZE
        invariant shift < EncodedSize(value)
      {
        SizeThreshold(value, shift + 1);
        var fits := CompareWithExp2(value, (shift + 1) * 7);
        if fits {
          return shift + 1;
        }
      }
      assert false;
    }

    /** Stores the encoding at the start of `buffer` and touches no byte after it. */
    method Write(buffer: array<byte>)
      requires Valid() && MAX_SIZE <= buffer.Length
      modifies buffer
      ensures EncodedSize(value) <= MAX_SIZE
      ensures buffer[..EncodedSize(value)] == Encode(value)
      ensures buffer[EncodedSize(value)..] == old(buffer[EncodedSize(value)..])
    {
      EncodedSizeBound(value);
      for shift := 0 to MAX_SIZE
        invariant shift < EncodedSize(value)
        invariant buffer[..shift] == Encode(value)[..shift]
        invariant buffer[shift..] == old(buffer[shift..])
      {
        SizeThreshold(value, shift + 1);
        var fits := CompareWithExp2(value, (shift + 1) * 7);
        var marker := if fits then 0 else 0x80;
        OrMarker(value, shift, marker);
        buffer[shift] := BitOr(ShiftRight(value, shift * 7) % 128, marker);
        assert buffer[..shift + 1] == Encode(value)[..shift + 1];
        assert buffer[shift + 1..] == old(buffer[shift + 1..]);
        if marker == 0 {
          return;
        }
      }
      assert false;
    }
  }
}
