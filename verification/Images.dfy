/**
 States of the file as any process may find them: the data area and the two header offsets. A write
 goes through a sequence of such states, one for every header update and every byte stored.
 */
module Images {
  import opened Bits
  import opened Varints
  import opened Rings
  import opened Records
  import opened Wrappers

  /** Room for a full header fetch, and offsets that stay within 64 bits after one lap. */
  const MIN_CAPACITY: nat := MAX_SIZE
  const MAX_CAPACITY: nat := 0x8000_0000_0000_0000

  datatype Image = Image(data: seq<byte>, start: nat, end: nat) {

    predicate InRange() {
      MIN_CAPACITY <= |data| <= MAX_CAPACITY && start < |data| && end < |data|
    }

    function Used(): nat
      requires InRange()
    {
      Distance(start, end, |data|)
    }

    /** The bytes between the two offsets, in ring order. */
    function Bytes(): seq<byte>
      requires InRange()
    {
      Window(data, start, Used())
    }

    /** What decoding from `start` to `end` yields. */
    function Decoded(): Option<seq<Record>>
      requires InRange()
    {
      Parse(Bytes())
    }

    /** The representation invariant: the live bytes are the frames of `rs`, one behind the other. */
    ghost predicate Holds(rs: seq<Record>) {
      InRange() && Bytes() == Frames(rs)
    }

    ghost predicate HoldsSuffixOf(rs: seq<Record>) {
      exists k: nat :: k <= |rs| && Holds(rs[k..])
    }
  }

  lemma HoldsDecodes(img: Image, rs: seq<Record>)
    requires img.Holds(rs)
    ensures img.Decoded() == Some(rs)
    ensures img.Used() == Footprint(rs)
  {
    ParseFrames(rs);
    FramesLength(rs);
  }

  /** Equal offsets mean that there is nothing to read. */
  lemma EqualOffsetsIffEmpty(img: Image, rs: seq<Record>)
    requires img.Holds(rs)
    ensures img.start == img.end <==> rs == []
  {
  }

  ////////// Header updates and stores //////////

  /** The first record, of `size` bytes with its prefix, is dropped. */
  function Popped(img: Image, size: nat): Image
    requires img.InRange() && size <= |img.data|
  {
    img.(start := Wrap(img.start + size, |img.data|))
  }

  function Published(img: Image, size: nat): Image
    requires img.InRange() && size <= |img.data|
  {
    img.(end := Wrap(img.end + size, |img.data|))
  }

  function Stored(img: Image, off: nat, bytes: seq<byte>): Image
    requires off < |img.data| && |bytes| <= |img.data|
  {
    img.(data := Laid(img.data, off, bytes))
  }

  /** The states while `bytes` are stored one after the other. */
  function StoreSteps(img: Image, off: nat, bytes: seq<byte>): (steps: seq<Image>)
    requires off < |img.data| && |bytes| <= |img.data|
    ensures |steps| == |bytes|
  {
    seq(|bytes|, k requires 0 <= k < |bytes| => Stored(img, off, bytes[..k + 1]))
  }

  lemma StoreStepsConcat(img: Image, off: nat, a: seq<byte>, b: seq<byte>)
    requires off < |img.data| && |a| + |b| <= |img.data|
    ensures Stored(Stored(img, off, a), Wrap(off + |a|, |img.data|), b) == Stored(img, off, a + b)
    ensures StoreSteps(img, off, a) + StoreSteps(Stored(img, off, a), Wrap(off + |a|, |img.data|), b)
         == StoreSteps(img, off, a + b)
  {
    var n := |img.data|;
    var mid := Wrap(off + |a|, n);
    StoreTwice(img.data, off, a, b);
    forall k | 0 <= k < |a| + |b|
      ensures (StoreSteps(img, off, a) + StoreSteps(Stored(img, off, a), mid, b))[k]
           == StoreSteps(img, off, a + b)[k]
    {
      if k < |a| {
        assert (a + b)[..k + 1] == a[..k + 1];
      } else {
        var tail := b[..k + 1 - |a|];
        assert (a + b)[..k + 1] == a + tail;
        StoreTwice(img.data, off, a, tail);
      }
    }
  }

  lemma PoppedHolds(img: Image, rs: seq<Record>)
    requires img.Holds(rs) && rs != []
    ensures img.InRange() && FrameSize(rs[0]) <= img.Used()
    ensures Popped(img, FrameSize(rs[0])).Holds(rs[1..])
  {
    var n, size, next := |img.data|, FrameSize(rs[0]), Popped(img, FrameSize(rs[0]));
    FramesLength(rs);
    var rest := img.Used() - size;
    assert Distance(next.start, img.end, n) == rest;
    WindowSplit(img.data, img.start, size, rest);
    assert Frames(rs)[size..] == Frames(rs[1..]);
    assert img.Bytes()[size..] == next.Bytes();
  }

  /**
   Ten bytes from the first record on hold its whole length prefix; whatever stale or foreign bytes
   come after the prefix, decoding the ten gives the length of the record.
   */
  lemma HeaderFetch(img: Image, rs: seq<Record>)
    requires img.Holds(rs) && rs != []
    ensures |rs[0]| < img.Used() && |rs[0]| < TWO_TO_THE_64
    ensures var header := Window(img.data, img.start, MAX_SIZE); var k := EncodedSize(|rs[0]|);
      Terminated(header) && PrefixLength(header) == k && Value(header[..k]) == |rs[0]|
  {
    var v := |rs[0]|;
    var header := Window(img.data, img.start, MAX_SIZE);
    PoppedHolds(img, rs);
    EncodedSizeBound(v);
    forall i | 0 <= i < EncodedSize(v)
      ensures header[i] == Encode(v)[i]
    {
      assert header[i] == img.Bytes()[i];
      assert Frames(rs)[i] == Frame(rs[0])[i];
    }
    assert header[..EncodedSize(v)] == Encode(v);
    RoundTrip(v, header);
  }

  /** The payload of the first record follows its prefix. */
  lemma PayloadFetch(img: Image, rs: seq<Record>)
    requires img.Holds(rs) && rs != []
    ensures FrameSize(rs[0]) <= img.Used()
    ensures Window(img.data, Wrap(img.start + EncodedSize(|rs[0]|), |img.data|), |rs[0]|) == rs[0]
  {
    var k, size := EncodedSize(|rs[0]|), |rs[0]|;
    assert Frame(rs[0])[k..] == rs[0];
    assert img.Bytes()[..k + size] == Frame(rs[0]) && FrameSize(rs[0]) == k + size <= img.Used();
    hide Frame, Frames, Footprint, FrameSize, Window, Encode;
    WindowSplit(img.data, img.start, k, size);
    WindowSplit(img.data, img.start, k + size, img.Used() - k - size);
    assert Window(img.data, img.start, k + size) == img.Bytes()[..k + size];
  }

  lemma PayloadAndRestFit(img: Image, rs: seq<Record>)
    requires img.Holds(rs) && rs != []
    ensures |rs[0]| + Footprint(rs[1..]) < |img.data|
  {
    HoldsDecodes(img, rs);
  }

  ////////// The states of a write //////////

  /** The states while records are popped until `need` bytes are free. */
  ghost function PopSteps(img: Image, rs: seq<Record>, need: nat): seq<Image>
    requires img.Holds(rs)
    decreases |rs|
  {
    if rs == [] || Footprint(rs) + need <= |img.data| then []
    else
      PoppedHolds(img, rs);
      var next := Popped(img, FrameSize(rs[0]));
      [next] + PopSteps(next, rs[1..], need)
  }

  ghost function Evicted(img: Image, rs: seq<Record>, need: nat): (out: Image)
    requires img.Holds(rs)
    ensures out.Holds(Evict(rs, need, |img.data|))
    ensures out.data == img.data && out.end == img.end
    decreases |rs|
  {
    if rs == [] || Footprint(rs) + need <= |img.data| then img
    else
      PoppedHolds(img, rs);
      Evicted(Popped(img, FrameSize(rs[0])), rs[1..], need)
  }

  /** One turn of the eviction loop. */
  lemma EvictOne(img: Image, rs: seq<Record>, need: nat)
    requires img.Holds(rs) && need <= |img.data| < Footprint(rs) + need
    ensures rs != [] && FrameSize(rs[0]) <= img.Used()
    ensures var next := Popped(img, FrameSize(rs[0]));
      && next.Holds(rs[1..])
      && Evict(rs, need, |img.data|) == Evict(rs[1..], need, |img.data|)
      && Evicted(img, rs, need) == Evicted(next, rs[1..], need)
      && PopSteps(img, rs, need) == [next] + PopSteps(next, rs[1..], need)
  {
    PoppedHolds(img, rs);
  }

  lemma EvictNone(img: Image, rs: seq<Record>, need: nat)
    requires img.Holds(rs) && Footprint(rs) + need <= |img.data|
    ensures Evict(rs, need, |img.data|) == rs && Evicted(img, rs, need) == img
    ensures PopSteps(img, rs, need) == []
  {
  }

  /** Every state of a write of `r`: pops, then the bytes of the frame, then the new end offset. */
  ghost function WriteSteps(img: Image, rs: seq<Record>, r: Record): (steps: seq<Image>)
    requires img.Holds(rs) && Accepts(|img.data|, r)
    ensures 0 < |steps|
  {
    var e := Evicted(img, rs, FrameSize(r));
    PopSteps(img, rs, FrameSize(r)) + StoreSteps(e, e.end, Frame(r)) + [WriteImage(img, rs, r)]
  }

  /** The state after a write of `r`. */
  ghost function WriteImage(img: Image, rs: seq<Record>, r: Record): Image
    requires img.Holds(rs) && Accepts(|img.data|, r)
  {
    var e := Evicted(img, rs, FrameSize(r));
    Published(Stored(e, e.end, Frame(r)), FrameSize(r))
  }

  /** Popping, storing and publishing one after the other go through the states of the write. */
  lemma AssembleWrite(img: Image, rs: seq<Record>, r: Record, header: seq<byte>, room: Image, laid: Image, done: Image)
    requires img.Holds(rs) && Accepts(|img.data|, r) && header == Encode(|r|)
    requires room == Evicted(img, rs, FrameSize(r))
    requires laid == Stored(room, room.end, header + r)
    requires done == laid.(end := Wrap(laid.end + |header| + |r|, |laid.data|))
    ensures done == WriteImage(img, rs, r)
    ensures PopSteps(img, rs, FrameSize(r)) + StoreSteps(room, room.end, header + r) + [done]
         == WriteSteps(img, rs, r)
    ensures done.Holds(AfterWrite(rs, r, |img.data|))
  {
    WriteMeansAfterWrite(img, rs, r);
  }

  /** A store into free space leaves what is live alone. */
  lemma StoredHolds(img: Image, rs: seq<Record>, bytes: seq<byte>)
    requires img.Holds(rs) && Footprint(rs) + |bytes| <= |img.data|
    ensures Stored(img, img.end, bytes).Holds(rs)
    ensures Window(Laid(img.data, img.end, bytes), img.start, Footprint(rs) + |bytes|)
         == Frames(rs) + bytes
  {
    hide Footprint, Frames, Laid;
    FramesLength(rs);
    StoreBehindWindow(img.data, img.start, img.Used(), bytes);
  }

  /** Publishing a frame stored behind the live records appends its record, or empties a full ring. */
  lemma PublishedHolds(img: Image, rs: seq<Record>, r: Record)
    requires img.InRange() && img.Used() == Footprint(rs)
    requires Footprint(rs) + FrameSize(r) <= |img.data|
    requires Window(img.data, img.start, Footprint(rs) + FrameSize(r)) == Frames(rs) + Frame(r)
    ensures Published(img, FrameSize(r)).Holds(
              if Footprint(rs) + FrameSize(r) == |img.data| then [] else rs + [r])
  {
    hide Footprint, FrameSize, Frame, Window;
    FramesSnoc(rs, r);
  }

  lemma StoredAndPublishedHolds(e: Image, kept: seq<Record>, r: Record)
    requires e.Holds(kept) && Footprint(kept) + FrameSize(r) <= |e.data|
    ensures Published(Stored(e, e.end, Frame(r)), FrameSize(r)).Holds(
              if Footprint(kept) + FrameSize(r) == |e.data| then [] else kept + [r])
  {
    FramesLength(kept);
    StoredHolds(e, kept, Frame(r));
    PublishedHolds(Stored(e, e.end, Frame(r)), kept, r);
  }

  /** More bytes stored behind bytes that are laid down but not published yet. */
  lemma ChunkHolds(img: Image, rs: seq<Record>, laid: seq<byte>, chunk: seq<byte>)
    requires img.Holds(rs) && Footprint(rs) + |laid| + |chunk| <= |img.data|
    requires Window(img.data, img.end, |laid|) == laid
    ensures var off := Wrap(img.end + |laid|, |img.data|);
      && Stored(img, off, chunk).Holds(rs)
      && Window(Laid(img.data, off, chunk), img.end, |laid| + |chunk|) == laid + chunk
  {
    hide Footprint, Frames, Laid;
    var n, used := |img.data|, img.Used();
    var off := Wrap(img.end + |laid|, n);
    var d := Laid(img.data, off, chunk);
    FramesLength(rs);
    StoreBehindWindow(img.data, img.end, |laid|, chunk);
    assert off == Wrap(img.start + (used + |laid|), n);
    StoreBehindWindow(img.data, img.start, used + |laid|, chunk);
    WindowSplit(d, img.start, used, |laid|);
    WindowSplit(img.data, img.start, used, |laid|);
    assert Window(d, img.start, used) == Window(d, img.start, used + |laid|)[..used];
    assert Window(img.data, img.start, used) == Window(img.data, img.start, used + |laid|)[..used];
  }

  /** Publishing a frame that lies complete behind the live records. */
  lemma FinishHolds(img: Image, rs: seq<Record>, r: Record)
    requires img.Holds(rs) && Footprint(rs) + FrameSize(r) <= |img.data|
    requires Window(img.data, img.end, FrameSize(r)) == Frame(r)
    ensures Published(img, FrameSize(r)).Holds(
              if Footprint(rs) + FrameSize(r) == |img.data| then [] else rs + [r])
  {
    FramesLength(rs);
    WindowSplit(img.data, img.start, img.Used(), FrameSize(r));
    PublishedHolds(img, rs, r);
  }

  /** A completed write means what `AfterWrite` says, on every log and every record. */
  lemma WriteMeansAfterWrite(img: Image, rs: seq<Record>, r: Record)
    requires img.Holds(rs) && Accepts(|img.data|, r)
    ensures WriteImage(img, rs, r).Holds(AfterWrite(rs, r, |img.data|))
  {
    EvictIsLeast(rs, FrameSize(r), |img.data|);
    StoredAndPublishedHolds(Evicted(img, rs, FrameSize(r)), Evict(rs, FrameSize(r), |img.data|), r);
  }

  lemma {:induction false} PopStepsKeep(img: Image, rs: seq<Record>, need: nat, i: nat)
    requires img.Holds(rs) && i < |PopSteps(img, rs, need)|
    ensures PopSteps(img, rs, need)[i].end == img.end && PopSteps(img, rs, need)[i].data == img.data
    decreases |rs|
  {
    PoppedHolds(img, rs);
    if i != 0 {
      PopStepsKeep(Popped(img, FrameSize(rs[0])), rs[1..], need, i - 1);
    }
  }

  lemma EndStays(img: Image, rs: seq<Record>, r: Record, i: nat)
    requires img.Holds(rs) && Accepts(|img.data|, r) && i + 1 < |WriteSteps(img, rs, r)|
    ensures WriteSteps(img, rs, r)[i].end == img.end
  {
    hide Evict, PopSteps, Footprint, FrameSize, Frame, Frames, Laid, Window, Image.Bytes;
    var pops := PopSteps(img, rs, FrameSize(r));
    if i < |pops| {
      PopStepsKeep(img, rs, FrameSize(r), i);
    }
  }

  lemma EndMoves(img: Image, rs: seq<Record>, r: Record)
    requires img.Holds(rs) && Accepts(|img.data|, r)
    ensures WriteSteps(img, rs, r)[|WriteSteps(img, rs, r)| - 1].end == Wrap(img.end + FrameSize(r), |img.data|)
  {
    hide Evict, Evicted, PopSteps, StoreSteps, Footprint, FrameSize, Frame, Frames, Laid, Window;
    hide Image.Bytes, Image.Holds;
  }

  /** The end offset moves in the last step of a write and in no other. */
  lemma EndMovesLast(img: Image, rs: seq<Record>, r: Record)
    requires img.Holds(rs) && Accepts(|img.data|, r)
    ensures forall i :: 0 <= i < |WriteSteps(img, rs, r)| - 1 ==> WriteSteps(img, rs, r)[i].end == img.end
    ensures WriteSteps(img, rs, r)[|WriteSteps(img, rs, r)| - 1].end == Wrap(img.end + FrameSize(r), |img.data|)
  {
    hide WriteSteps, WriteImage, FrameSize, Image.Holds;
    EndMoves(img, rs, r);
    var steps := WriteSteps(img, rs, r);
    forall i | 0 <= i < |steps| - 1
      ensures steps[i].end == img.end
    {
      EndStays(img, rs, r, i);
    }
  }

  lemma {:induction false} PopStepsCount(img: Image, rs: seq<Record>, need: nat)
    requires img.Holds(rs) && need <= |img.data|
    ensures |PopSteps(img, rs, need)| == Dropped(rs, need, |img.data|)
    decreases |rs|
  {
    if rs == [] || Footprint(rs) + need <= |img.data| {
      EvictNone(img, rs, need);
    } else {
      EvictOne(img, rs, need);
      PopStepsCount(Popped(img, FrameSize(rs[0])), rs[1..], need);
    }
  }

  /** Every pop drops one record. */
  lemma {:induction false} PopStepHolds(img: Image, rs: seq<Record>, need: nat, i: nat)
    requires img.Holds(rs) && i < |PopSteps(img, rs, need)|
    ensures i < |rs| && PopSteps(img, rs, need)[i].Holds(rs[i + 1..])
    decreases |rs|
  {
    PoppedHolds(img, rs);
    if i != 0 {
      PopStepHolds(Popped(img, FrameSize(rs[0])), rs[1..], need, i - 1);
      assert rs[1..][i..] == rs[i + 1..];
    }
  }

  lemma StoreStepsSafe(img: Image, rs: seq<Record>, bytes: seq<byte>, i: nat)
    requires img.Holds(rs) && Footprint(rs) + |bytes| <= |img.data| && i < |bytes|
    ensures StoreSteps(img, img.end, bytes)[i].Holds(rs)
  {
    StoredHolds(img, rs, bytes[..i + 1]);
  }

  /** The states that come before anything is published: pops, then some bytes stored behind the rest. */
  ghost function UnpublishedSteps(img: Image, rs: seq<Record>, need: nat, laid: seq<byte>): seq<Image>
    requires img.Holds(rs) && |laid| <= |img.data|
  {
    var room := Evicted(img, rs, need);
    PopSteps(img, rs, need) + StoreSteps(room, room.end, laid)
  }

  /** How many records are gone in the `i`-th state: one more with every pop, until there is room. */
  function Gone(rs: seq<Record>, need: nat, n: nat, i: nat): (k: nat)
    ensures k <= Dropped(rs, need, n) <= |rs|
  {
    if i < Dropped(rs, need, n) then i + 1 else Dropped(rs, need, n)
  }

  lemma UnpublishedStepHolds(img: Image, rs: seq<Record>, need: nat, laid: seq<byte>, i: nat)
    requires img.Holds(rs) && |laid| <= need <= |img.data| && i < |UnpublishedSteps(img, rs, need, laid)|
    ensures UnpublishedSteps(img, rs, need, laid)[i].Holds(rs[Gone(rs, need, |img.data|, i)..])
  {
    var d := Dropped(rs, need, |img.data|);
    PopStepsCount(img, rs, need);
    if i < d {
      PopStepHolds(img, rs, need, i);
    } else {
      EvictIsLeast(rs, need, |img.data|);
      StoreStepsSafe(Evicted(img, rs, need), Evict(rs, need, |img.data|), laid, i - d);
    }
  }

  lemma WriteStepsAreUnpublished(img: Image, rs: seq<Record>, r: Record)
    requires img.Holds(rs) && Accepts(|img.data|, r)
    ensures WriteSteps(img, rs, r) == UnpublishedSteps(img, rs, FrameSize(r), Frame(r)) + [WriteImage(img, rs, r)]
  {
  }

  /**
   Until the end offset is published, a write shows nothing but records that were there before:
   whatever state it stops in holds the log it began with, less the records popped so far, and it
   pops no more of them than it must.
   */
  lemma PartialWriteIsSafe(img: Image, rs: seq<Record>, r: Record, i: nat, stopped: Image) returns (k: nat)
    requires img.Holds(rs) && Accepts(|img.data|, r) && i + 1 < |WriteSteps(img, rs, r)|
    requires stopped == WriteSteps(img, rs, r)[i]
    ensures k == Gone(rs, FrameSize(r), |img.data|, i)
    ensures stopped.Holds(rs[k..]) && stopped.Decoded() == Some(rs[k..])
  {
    hide Evict, Evicted, PopSteps, StoreSteps, Frame, FrameSize, WriteSteps, WriteImage, Gone;
    k := Gone(rs, FrameSize(r), |img.data|, i);
    WriteStepsAreUnpublished(img, rs, r);
    UnpublishedStepHolds(img, rs, FrameSize(r), Frame(r), i);
    HoldsDecodes(stopped, rs[k..]);
  }

  ////////// Traces //////////

  /** The states from the `from`-th on, but for the last `but`, hold suffixes of `rs`. */
  ghost predicate IsSafeTrace(trace: seq<Image>, from: nat, but: nat, rs: seq<Record>) {
    forall i :: from <= i < |trace| - but ==> trace[i].HoldsSuffixOf(rs)
  }

  /** The trace of a streaming write that may never be finished. */
  lemma UnpublishedTraceIsSafe(before: seq<Image>, img: Image, rs: seq<Record>, need: nat, laid: seq<byte>)
    requires img.Holds(rs) && |laid| <= need <= |img.data|
    ensures IsSafeTrace(before + UnpublishedSteps(img, rs, need, laid), |before|, 0, rs)
  {
    hide Evict, Evicted, PopSteps, StoreSteps, UnpublishedSteps, Gone;
    var trace := before + UnpublishedSteps(img, rs, need, laid);
    forall i | |before| <= i < |trace|
      ensures trace[i].HoldsSuffixOf(rs)
    {
      UnpublishedStepHolds(img, rs, need, laid, i - |before|);
    }
  }

  /** The trace of a write, but for its last state. */
  lemma WriteTraceIsSafe(before: seq<Image>, img: Image, rs: seq<Record>, r: Record)
    requires img.Holds(rs) && Accepts(|img.data|, r)
    ensures IsSafeTrace(before + WriteSteps(img, rs, r), |before|, 1, rs)
  {
    hide Evict, Evicted, PopSteps, StoreSteps, UnpublishedSteps, WriteSteps, Frame, Image.HoldsSuffixOf;
    WriteStepsAreUnpublished(img, rs, r);
    UnpublishedTraceIsSafe(before, img, rs, FrameSize(r), Frame(r));
    var u := before + UnpublishedSteps(img, rs, FrameSize(r), Frame(r));
    assert before + WriteSteps(img, rs, r) == u + [WriteImage(img, rs, r)];
  }
}
