/** A byte sequence read and written as a ring: offsets run modulo its length. */
module Rings {
  import opened Bits

  /** The offset `x` brought back into a ring of `n` bytes after at most one lap. */
  function Wrap(x: nat, n: nat): (r: nat)
    requires x < 2 * n
    ensures r < n
  {
    if x < n then x else x - n
  }

  lemma ModIsWrap(x: nat, n: nat)
    requires x < 2 * n
    ensures x % n == Wrap(x, n)
  {
  }

  lemma WrapTwice(x: nat, a: nat, b: nat, n: nat)
    requires x < n && a + b <= n
    ensures Wrap(Wrap(x + a, n) + b, n) == Wrap(x + (a + b), n)
  {
  }

  /** How far `to` lies ahead of `from`. */
  function Distance(from: nat, to: nat, n: nat): (d: nat)
    requires from < n && to < n
    ensures d < n && Wrap(from + d, n) == to
  {
    if from <= to then to - from else n - (from - to)
  }

  /** The `len` bytes from `off` on, around the end if need be. */
  function Window(data: seq<byte>, off: nat, len: nat): (w: seq<byte>)
    requires off < |data| && len <= |data|
    ensures |w| == len
  {
    seq(len, i requires 0 <= i < len => data[Wrap(off + i, |data|)])
  }

  /** `data` after `bytes` have been stored from `off` on, around the end if need be. */
  function Laid(data: seq<byte>, off: nat, bytes: seq<byte>): (d: seq<byte>)
    requires off < |data| && |bytes| <= |data|
    ensures |d| == |data|
  {
    seq(|data|, j requires 0 <= j < |data| => LaidByte(data, off, bytes, j))
  }

  function LaidByte(data: seq<byte>, off: nat, bytes: seq<byte>, j: nat): byte
    requires off < |data| && j < |data|
  {
    var d := Distance(off, j, |data|);
    if d < |bytes| then bytes[d] else data[j]
  }

  /** Reading back what was stored gives it back, and nothing outside the interval has changed. */
  lemma StoreThenLoad(data: seq<byte>, off: nat, bytes: seq<byte>)
    requires off < |data| && |bytes| <= |data|
    ensures Window(Laid(data, off, bytes), off, |bytes|) == bytes
    ensures forall j :: 0 <= j < |data| && |bytes| <= Distance(off, j, |data|) ==>
      Laid(data, off, bytes)[j] == data[j]
  {
    var n := |data|;
    var d := Laid(data, off, bytes);
    forall i | 0 <= i < |bytes|
      ensures Window(d, off, |bytes|)[i] == bytes[i]
    {
      assert Distance(off, Wrap(off + i, n), n) == i;
    }
    forall j | 0 <= j < n && |bytes| <= Distance(off, j, n)
      ensures d[j] == data[j]
    {
    }
  }

  lemma WindowSplit(data: seq<byte>, off: nat, a: nat, b: nat)
    requires off < |data| && a + b <= |data|
    ensures Window(data, off, a + b) == Window(data, off, a) + Window(data, Wrap(off + a, |data|), b)
  {
    var n := |data|;
    var mid := Wrap(off + a, n);
    forall i | 0 <= i < b
      ensures Window(data, off, a + b)[a + i] == Window(data, mid, b)[i]
    {
      assert Wrap(mid + i, n) == Wrap(off + a + i, n);
    }
  }

  /** Bytes stored behind an occupied window leave it alone as long as both fit in the ring. */
  lemma StoreBehindWindow(data: seq<byte>, off: nat, len: nat, bytes: seq<byte>)
    requires off < |data| && len + |bytes| <= |data|
    ensures Window(Laid(data, Wrap(off + len, |data|), bytes), off, len) == Window(data, off, len)
    ensures Window(Laid(data, Wrap(off + len, |data|), bytes), off, len + |bytes|)
         == Window(data, off, len) + bytes
  {
    var n := |data|;
    var to := Wrap(off + len, n);
    var d := Laid(data, to, bytes);
    forall i | 0 <= i < len
      ensures Window(d, off, len)[i] == Window(data, off, len)[i]
    {
      assert |bytes| <= Distance(to, Wrap(off + i, n), n);
    }
    StoreThenLoad(data, to, bytes);
    WindowSplit(d, off, len, |bytes|);
  }

  /** What of `bytes` comes to lie over the next `m` bytes when only `free` of them find free space. */
  function Overhang(bytes: seq<byte>, free: nat, m: nat): (o: seq<byte>)
    ensures |o| <= m
  {
    if |bytes| <= free then []
    else if |bytes| <= free + m then bytes[free..]
    else bytes[free..free + m]
  }

  /** A store that runs all around the ring into a window replaces the first bytes of the window. */
  lemma StoreOverWindow(data: seq<byte>, from: nat, left: seq<byte>, behind: nat, to: nat, bytes: seq<byte>)
    requires from < |data| && |left| + behind <= |data| && |bytes| <= |data|
    requires to == Wrap(from + |left|, |data|) + behind || to + |data| == Wrap(from + |left|, |data|) + behind
    requires to < |data| && Window(data, from, |left|) == left
    ensures var over := Overhang(bytes, |data| - |left| - behind, |left|);
      Window(Laid(data, to, bytes), from, |left|) == over + left[|over|..]
  {
    var n, m, len := |data|, |left|, |left| + behind;
    var over := Overhang(bytes, n - m - behind, m);
    forall i | 0 <= i < m
      ensures Window(Laid(data, to, bytes), from, m)[i] == (over + left[|over|..])[i]
    {
      var j := Wrap(from + i, n);
      assert left[i] == data[j];
      assert Distance(to, j, n) == if len == n && i == 0 then 0 else if len == n then i else n - len + i;
      assert LaidByte(data, to, bytes, j) == if i < |over| then over[i] else data[j];
    }
  }

  /** Two stores one behind the other are one store of the joined bytes. */
  lemma StoreTwice(data: seq<byte>, off: nat, a: seq<byte>, b: seq<byte>)
    requires off < |data| && |a| + |b| <= |data|
    ensures Laid(Laid(data, off, a), Wrap(off + |a|, |data|), b) == Laid(data, off, a + b)
  {
  }
}
