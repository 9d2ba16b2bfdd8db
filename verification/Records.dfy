/** The stored form of a log: each record is its length as a varint, then its bytes. */
module Records {
  import opened Bits
  import opened Varints
  import opened Wrappers

  type Record = seq<byte>

  function FrameSize(r: Record): (n: nat)
    ensures |r| < n
  {
    EncodedSize(|r|) + |r|
  }

  lemma FrameSizeParts(r: Record)
    ensures FrameSize(r) == EncodedSize(|r|) + |r|
  {
  }

  function Frame(r: Record): (s: seq<byte>)
    ensures |s| == FrameSize(r)
  {
    Encode(|r|) + r
  }

  function Frames(rs: seq<Record>): seq<byte> {
    if rs == [] then [] else Frame(rs[0]) + Frames(rs[1..])
  }

  /** The bytes that the records take: length prefix and payload of each. */
  function Footprint(rs: seq<Record>): nat {
    if rs == [] then 0 else FrameSize(rs[0]) + Footprint(rs[1..])
  }

  lemma {:induction false} FramesLength(rs: seq<Record>)
    ensures |Frames(rs)| == Footprint(rs)
  {
    if rs != [] {
      FramesLength(rs[1..]);
    }
  }

  lemma {:induction false} FramesConcat(rs: seq<Record>, ts: seq<Record>)
    ensures Frames(rs + ts) == Frames(rs) + Frames(ts)
  {
    if rs == [] {
      assert rs + ts == ts;
    } else {
      assert (rs + ts)[1..] == rs[1..] + ts;
      FramesConcat(rs[1..], ts);
      ConcatAssociative(Frame(rs[0]), Frames(rs[1..]), Frames(ts));
    }
  }

  lemma ConcatAssociative(a: seq<byte>, b: seq<byte>, c: seq<byte>)
    ensures a + (b + c) == (a + b) + c
  {
  }

  lemma FootprintConcat(rs: seq<Record>, ts: seq<Record>)
    ensures Footprint(rs + ts) == Footprint(rs) + Footprint(ts)
  {
    FramesConcat(rs, ts);
    FramesLength(rs);
    FramesLength(ts);
    FramesLength(rs + ts);
  }

  lemma FramesSnoc(rs: seq<Record>, r: Record)
    ensures Frames(rs + [r]) == Frames(rs) + Frame(r)
    ensures Footprint(rs + [r]) == Footprint(rs) + FrameSize(r)
  {
    FramesConcat(rs, [r]);
    FootprintConcat(rs, [r]);
    assert Frames([r]) == Frame(r) + Frames([]);
  }

  ////////// Suffixes //////////

  ghost predicate IsSuffix(s: seq<Record>, t: seq<Record>) {
    |s| <= |t| && s == t[|t| - |s|..]
  }

  lemma SuffixTransitive(s: seq<Record>, t: seq<Record>, u: seq<Record>)
    requires IsSuffix(s, t) && IsSuffix(t, u)
    ensures IsSuffix(s, u)
  {
  }

  lemma SuffixSnoc(s: seq<Record>, t: seq<Record>, r: Record)
    requires IsSuffix(s, t)
    ensures IsSuffix(s + [r], t + [r])
  {
  }

  ////////// Reading a stored log back //////////

  /** Splits stored bytes into records, or fails when they do not end at a record boundary. */
  function Parse(s: seq<byte>): Option<seq<Record>> {
    if s == [] then Some([])
    else if !Terminated(s) then None
    else
      var k := PrefixLength(s);
      var size := Value(s[..k]);
      if |s| < k + size then None
      else
        match Parse(s[k + size..])
        case None => None
        case Some(rest) => Some([s[k..k + size]] + rest)
  }

  /** A frame is found again at the start of whatever holds it, up to its last byte. */
  lemma FrameHead(r: Record, s: seq<byte>)
    requires Frame(r) <= s
    ensures Terminated(s) && PrefixLength(s) == EncodedSize(|r|)
    ensures Value(s[..EncodedSize(|r|)]) == |r|
    ensures s[EncodedSize(|r|)..FrameSize(r)] == r
  {
    var k := EncodedSize(|r|);
    assert s[..k] == Frame(r)[..k] == Encode(|r|);
    assert s[k..k + |r|] == Frame(r)[k..] == r;
    RoundTrip(|r|, s);
  }

  /** Parsing is the inverse of framing: no log reads back as another. */
  lemma {:induction false} ParseFrames(rs: seq<Record>)
    ensures Parse(Frames(rs)) == Some(rs)
  {
    if rs != [] {
      var r, s := rs[0], Frames(rs);
      FrameHead(r, s);
      assert s[FrameSize(r)..] == Frames(rs[1..]);
      ParseFrames(rs[1..]);
      assert rs == [r] + rs[1..];
    }
  }

  lemma FramesInjective(rs: seq<Record>, ts: seq<Record>)
    requires Frames(rs) == Frames(ts)
    ensures rs == ts
  {
    ParseFrames(rs);
    ParseFrames(ts);
  }

  ////////// What a write does to the log //////////

  /** Drops records from the front until `need` more bytes fit in a ring of `n`. */
  function Evict(rs: seq<Record>, need: nat, n: nat): (kept: seq<Record>)
    ensures |kept| <= |rs| && kept == rs[|rs| - |kept|..]
  {
    if rs == [] || Footprint(rs) + need <= n then rs else Evict(rs[1..], need, n)
  }

  /** The refusal test: one byte more than the frame must be there. */
  predicate Accepts(n: nat, r: Record) {
    FrameSize(r) + 1 <= n
  }

  /** A record is accepted exactly when its stored form leaves a byte of the ring over. */
  lemma AcceptedIffStoredFits(n: nat, r: Record)
    ensures Accepts(n, r) <==> |Frames([r])| < n
  {
    FramesSnoc([], r);
    assert [] + [r] == [r];
    FramesLength([]);
  }

  /** A record no longer than one that is accepted is accepted too. */
  lemma ShorterIsAccepted(n: nat, r: Record, s: Record)
    requires Accepts(n, r) && |s| <= |r|
    ensures Accepts(n, s)
  {
    EncodedSizeIsMonotone(|s|, |r|);
  }

  /** A record of one byte less than the ring, or more, is refused: its length prefix counts too. */
  lemma OneByteLessIsRefused(n: nat, r: Record)
    requires n <= |r| + 1
    ensures !Accepts(n, r)
  {
  }

  /** The log after an accepted write; a ring filled to the last byte reads as empty. */
  function AfterWrite(rs: seq<Record>, r: Record, n: nat): seq<Record> {
    var kept := Evict(rs, FrameSize(r), n);
    if Footprint(kept) + FrameSize(r) == n then [] else kept + [r]
  }

  predicate ExactFill(rs: seq<Record>, r: Record, n: nat) {
    Footprint(Evict(rs, FrameSize(r), n)) + FrameSize(r) == n
  }

  lemma AfterWriteIsSuffix(rs: seq<Record>, ws: seq<Record>, r: Record, n: nat)
    requires IsSuffix(rs, ws)
    ensures IsSuffix(AfterWrite(rs, r, n), ws + [r])
  {
  }

  /** The bytes that the records from the `k`-th on take. */
  function TailSize(rs: seq<Record>, k: nat): nat
    requires k <= |rs|
  {
    Footprint(rs[k..])
  }

  lemma TailSizeOfTail(rs: seq<Record>, t: nat, k: nat)
    requires t + k <= |rs|
    ensures TailSize(rs[t..], k) == TailSize(rs, t + k)
  {
  }

  lemma {:induction false} TailSizeDecreases(rs: seq<Record>, j: nat, k: nat)
    requires j <= k <= |rs|
    ensures TailSize(rs, k) <= TailSize(rs, j)
    ensures j < k ==> TailSize(rs, k) < TailSize(rs, j)
    decreases k - j
  {
    if j < k {
      TailSizeOfTail(rs, j, 1);
      TailSizeDecreases(rs, j + 1, k);
    }
  }

  /** How many records eviction drops. */
  function Dropped(rs: seq<Record>, need: nat, n: nat): nat {
    |rs| - |Evict(rs, need, n)|
  }

  /** Whatever fits beside the room asked for is kept. */
  lemma EvictKeepsWhatFits(t: seq<Record>, rs: seq<Record>, need: nat, n: nat)
    requires need <= n && IsSuffix(t, rs) && Footprint(t) + need <= n
    ensures IsSuffix(t, Evict(rs, need, n))
  {
    var kept := Evict(rs, need, n);
    if |kept| < |t| {
      LongerTailIsTooLong(rs, need, n, |rs| - |t|);
    }
  }

  lemma FootprintDecreases(rs: seq<Record>)
    requires rs != []
    ensures Footprint(rs[1..]) < Footprint(rs)
  {
  }

  /** Eviction makes room and drops no record more than that takes. */
  lemma {:induction false} EvictIsLeast(rs: seq<Record>, need: nat, n: nat)
    requires need <= n
    ensures Footprint(Evict(rs, need, n)) + need <= n
    ensures forall k: nat :: k < |rs| - |Evict(rs, need, n)| ==> n < TailSize(rs, k) + need
  {
    hide Footprint, TailSize;
    EvictMakesRoom(rs, need, n);
    forall k: nat | k < |rs| - |Evict(rs, need, n)|
      ensures n < TailSize(rs, k) + need
    {
      LongerTailIsTooLong(rs, need, n, k);
    }
  }

  lemma {:induction false} EvictMakesRoom(rs: seq<Record>, need: nat, n: nat)
    requires need <= n
    ensures Footprint(Evict(rs, need, n)) + need <= n
  {
    if rs != [] && n < Footprint(rs) + need {
      EvictMakesRoom(rs[1..], need, n);
    }
  }

  lemma {:induction false} LongerTailIsTooLong(rs: seq<Record>, need: nat, n: nat, k: nat)
    requires need <= n && k < |rs| - |Evict(rs, need, n)|
    ensures n < TailSize(rs, k) + need
  {
    hide FrameSize;
    if k == 0 {
      assert rs[0..] == rs;
    } else {
      LongerTailIsTooLong(rs[1..], need, n, k - 1);
      TailSizeOfTail(rs, 1, k - 1);
    }
  }
}
