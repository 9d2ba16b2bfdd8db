/** A reader at its own offset while records are popped and written behind its back. */
module Readers {
  import opened Bits
  import opened Varints
  import opened Rings
  import opened Records
  import opened Images

  /** What a reader at `offset` still has to read, written as a file that starts there. */
  function SeenFrom(img: Image, offset: nat): Image {
    img.(start := offset)
  }

  /** Where the payload of the next record lies, and what is left to read behind it. */
  lemma NextRecordAt(img: Image, offset: nat, rest: seq<Record>, headerSize: nat, size: nat)
    requires SeenFrom(img, offset).Holds(rest) && rest != []
    requires headerSize == EncodedSize(|rest[0]|) && size == |rest[0]|
    ensures |img.data| > 0 && headerSize + size < |img.data| && size + Footprint(rest[1..]) < |img.data|
    ensures var n := |img.data|; var from, next := (offset + headerSize) % n, (offset + headerSize + size) % n;
      && Window(img.data, from, size) == rest[0]
      && SeenFrom(img, next).Holds(rest[1..])
      && Wrap(from + size, n) == next
  {
    hide Footprint, Frames, Frame, Window, Image.Bytes;
    var seen, n := SeenFrom(img, offset), |img.data|;
    PayloadFetch(seen, rest);
    PoppedHolds(seen, rest);
    PayloadAndRestFit(seen, rest);
    ModIsWrap(offset + headerSize, n);
    ModIsWrap(offset + headerSize + size, n);
    WrapTwice(offset, headerSize, size, n);
    assert SeenFrom(img, (offset + headerSize + size) % n) == Popped(seen, FrameSize(rest[0]));
  }

  /** The offset of the `i`-th live record, or the end offset when `i` is their number. */
  function Boundary(img: Image, rs: seq<Record>, i: nat): nat
    requires img.Holds(rs) && i <= |rs|
  {
    BoundaryInRange(img, rs, i);
    Wrap(img.start + Footprint(rs[..i]), |img.data|)
  }

  lemma BoundaryInRange(img: Image, rs: seq<Record>, i: nat)
    requires img.Holds(rs) && i <= |rs|
    ensures Footprint(rs[..i]) + Footprint(rs[i..]) == img.Used()
  {
    assert rs[..i] + rs[i..] == rs;
    FramesLength(rs);
    FootprintConcat(rs[..i], rs[i..]);
  }

  lemma BoundaryHolds(img: Image, rs: seq<Record>, i: nat)
    requires img.Holds(rs) && i <= |rs|
    ensures SeenFrom(img, Boundary(img, rs, i)).Holds(rs[i..])
  {
    var a, b := Footprint(rs[..i]), Footprint(rs[i..]);
    var seen := SeenFrom(img, Boundary(img, rs, i));
    BoundaryInRange(img, rs, i);
    WindowSplit(img.data, img.start, a, b);
    assert seen.Used() == b;
    assert img.Bytes()[a..] == seen.Bytes();
    FramesFrom(rs, i);
  }

  lemma FramesFrom(rs: seq<Record>, i: nat)
    requires i <= |rs|
    ensures Footprint(rs[..i]) <= |Frames(rs)| && Frames(rs)[Footprint(rs[..i])..] == Frames(rs[i..])
  {
    assert rs[..i] + rs[i..] == rs;
    FramesConcat(rs[..i], rs[i..]);
    FramesLength(rs[..i]);
  }

  /**
   A reader with `rest` still to read, and a write of `r` behind its back. Afterwards it has `rest`
   and then `r` to read, byte for byte, exactly when both together stay short of the whole ring.
   */
  lemma ReaderUnderWriter(img: Image, rs: seq<Record>, r: Record, offset: nat, rest: seq<Record>)
    requires img.Holds(rs) && Accepts(|img.data|, r)
    requires SeenFrom(img, offset).Holds(rest)
    ensures SeenFrom(WriteImage(img, rs, r), offset).Holds(rest + [r])
       <==> Footprint(rest) + FrameSize(r) < |img.data|
  {
    hide Footprint, FrameSize, Frames, Frame, Window, Laid, Evict, Evicted, Image.Bytes;
    var n, size := |img.data|, FrameSize(r);
    var after := SeenFrom(WriteImage(img, rs, r), offset);
    HoldsDecodes(SeenFrom(img, offset), rest);
    if Footprint(rest) + size < n {
      StoredAndPublishedHolds(SeenFrom(img, offset), rest, r);
      assert after == Published(Stored(SeenFrom(img, offset), img.end, Frame(r)), size);
    } else {
      assert after.Used() == Footprint(rest) + size - n;
      FramesSnoc(rest, r);
      if after.Holds(rest + [r]) {
        HoldsDecodes(after, rest + [r]);
      }
    }
  }

  lemma WriteLaysTheFrame(img: Image, rs: seq<Record>, r: Record)
    requires img.Holds(rs) && Accepts(|img.data|, r)
    ensures img.end < |img.data| && |Frame(r)| <= |img.data|
    ensures |WriteImage(img, rs, r).data| == |img.data|
    ensures WriteImage(img, rs, r).data == Laid(img.data, img.end, Frame(r))
  {
    hide Footprint, Frames, Laid, Window;
  }

  ////////// A reader over a whole run //////////

  /** A file, the log it holds, and where a reader on it stands. */
  datatype Followed = Followed(img: Image, live: seq<Record>, offset: nat)

  /** Something that happens to the file or to its reader: a write, or a read of one record. */
  datatype Event = Append(record: Record) | Next

  ghost predicate AllFit(events: seq<Event>, n: nat) {
    forall r :: Append(r) in events ==> Accepts(n, r)
  }

  /** Where a read of one record leaves a reader; one whose rest does not decode is not spoken of. */
  ghost function NextOffset(img: Image, offset: nat): nat {
    var seen := SeenFrom(img, offset);
    if seen.InRange() && seen.Decoded().Some? && seen.Decoded().value != [] then
      (offset + FrameSize(seen.Decoded().value[0])) % |img.data|
    else offset
  }

  ghost function AfterEvent(f: Followed, e: Event): (f': Followed)
    requires f.img.Holds(f.live) && (e.Append? ==> Accepts(|f.img.data|, e.record))
    ensures f'.img.Holds(f'.live) && |f'.img.data| == |f.img.data|
  {
    match e
    case Append(r) =>
      WriteMeansAfterWrite(f.img, f.live, r);
      WriteLaysTheFrame(f.img, f.live, r);
      Followed(WriteImage(f.img, f.live, r), AfterWrite(f.live, r, |f.img.data|), f.offset)
    case Next => f.(offset := NextOffset(f.img, f.offset))
  }

  /** The reader as a queue: writes put records in, reads take them out. */
  function QueueAfter(queue: seq<Record>, e: Event): seq<Record> {
    match e
    case Append(r) => queue + [r]
    case Next => if queue == [] then [] else queue[1..]
  }

  /** At every moment of the run the reader has the records of the queue to read, byte for byte. */
  ghost predicate SeesQueue(f: Followed, queue: seq<Record>, events: seq<Event>)
    requires f.img.Holds(f.live) && AllFit(events, |f.img.data|)
    decreases |events|
  {
    && SeenFrom(f.img, f.offset).Holds(queue)
    && (events != [] ==>
          (assert events[0] in events; SeesQueue(AfterEvent(f, events[0]), QueueAfter(queue, events[0]), events[1..])))
  }

  /** At no moment of the run do the records of the queue take the whole ring or more. */
  predicate KeepsUp(queue: seq<Record>, events: seq<Event>, n: nat)
    decreases |events|
  {
    Footprint(queue) < n && (events != [] ==> KeepsUp(QueueAfter(queue, events[0]), events[1..], n))
  }

  lemma ReaderUnderEvent(f: Followed, queue: seq<Record>, e: Event)
    requires f.img.Holds(f.live) && (e.Append? ==> Accepts(|f.img.data|, e.record))
    requires SeenFrom(f.img, f.offset).Holds(queue)
    ensures var f', queue' := AfterEvent(f, e), QueueAfter(queue, e);
      SeenFrom(f'.img, f'.offset).Holds(queue') <==> Footprint(queue') < |f.img.data|
  {
    hide Footprint, FrameSize, Frame, Frames, Window, WriteImage, AfterWrite;
    var seen := SeenFrom(f.img, f.offset);
    assert seen.InRange();
    hide Image.Holds;
    HoldsDecodes(seen, queue);
    match e
    case Append(r) =>
      FramesSnoc(queue, r);
      ReaderUnderWriter(f.img, f.live, r, f.offset, queue);
    case Next =>
      if queue != [] {
        NextRecordAt(f.img, f.offset, queue, EncodedSize(|queue[0]|), |queue[0]|);
        FrameSizeParts(queue[0]);
      }
  }

  /**
   A reader and any writes behind its back are a queue, first in first out and nothing lost, exactly as
   long as what waits to be read stays short of the ring.
   */
  lemma {:induction false} ReaderIsQueue(f: Followed, queue: seq<Record>, events: seq<Event>)
    requires f.img.Holds(f.live) && AllFit(events, |f.img.data|) && SeenFrom(f.img, f.offset).Holds(queue)
    ensures SeesQueue(f, queue, events) <==> KeepsUp(queue, events, |f.img.data|)
    decreases |events|
  {
    hide Footprint, AfterEvent, QueueAfter, Image.Holds, NextOffset;
    HoldsDecodes(SeenFrom(f.img, f.offset), queue);
    if events != [] {
      assert events[0] in events;
      ReaderUnderEvent(f, queue, events[0]);
      var f', queue' := AfterEvent(f, events[0]), QueueAfter(queue, events[0]);
      if Footprint(queue') < |f.img.data| {
        ReaderIsQueue(f', queue', events[1..]);
      }
    }
  }

  /** The file after the writes `ws` one after the other. */
  ghost function AfterWrites(f: Followed, ws: seq<Record>): (f': Followed)
    requires f.img.Holds(f.live) && forall r :: r in ws ==> Accepts(|f.img.data|, r)
    ensures f'.img.Holds(f'.live) && |f'.img.data| == |f.img.data| && f'.offset == f.offset
    decreases |ws|
  {
    if ws == [] then f
    else
      assert ws[0] in ws;
      AfterWrites(AfterEvent(f, Append(ws[0])), ws[1..])
  }

  /** Any number of writes behind its back: nothing is lost to a reader iff all of it stays short of the ring. */
  lemma {:induction false} ReaderUnderWriters(f: Followed, rest: seq<Record>, ws: seq<Record>)
    requires f.img.Holds(f.live) && SeenFrom(f.img, f.offset).Holds(rest)
    requires forall r :: r in ws ==> Accepts(|f.img.data|, r)
    ensures var f' := AfterWrites(f, ws);
      SeenFrom(f'.img, f'.offset).Holds(rest + ws) <==> Footprint(rest) + Footprint(ws) < |f.img.data|
    decreases |ws|
  {
    hide FrameSize, AfterEvent, Image.Holds;
    var f' := AfterWrites(f, ws);
    HoldsDecodes(SeenFrom(f.img, f.offset), rest);
    FootprintConcat(rest, ws);
    if Footprint(rest) + Footprint(ws) >= |f.img.data| {
      if SeenFrom(f'.img, f'.offset).Holds(rest + ws) {
        HoldsDecodes(SeenFrom(f'.img, f'.offset), rest + ws);
      }
    } else if ws == [] {
      assert rest + ws == rest;
    } else {
      assert ws[0] in ws;
      assert (rest + [ws[0]]) + ws[1..] == rest + ws;
      FramesSnoc(rest, ws[0]);
      ReaderUnderEvent(f, rest, Append(ws[0]));
      ReaderUnderWriters(AfterEvent(f, Append(ws[0])), rest + [ws[0]], ws[1..]);
    }
  }

  ////////// A reader that has fallen behind //////////

  /**
   A reader at the `i`-th live record keeps its place when the write evicts at most `i` records and
   does not fill the ring exactly.
   */
  lemma ReaderKeepsItsPlace(img: Image, rs: seq<Record>, r: Record, i: nat)
    requires img.Holds(rs) && Accepts(|img.data|, r) && i <= |rs|
    requires |rs| - |Evict(rs, FrameSize(r), |img.data|)| <= i && !ExactFill(rs, r, |img.data|)
    ensures SeenFrom(WriteImage(img, rs, r), Boundary(img, rs, i)).Holds(rs[i..] + [r])
  {
    var n := |img.data|;
    var kept := Evict(rs, FrameSize(r), n);
    EvictIsLeast(rs, FrameSize(r), n);
    var j := i - (|rs| - |kept|);
    TailSizeDecreases(kept, 0, j);
    assert kept[0..] == kept && kept[j..] == rs[i..];
    BoundaryHolds(img, rs, i);
    ReaderUnderWriter(img, rs, r, Boundary(img, rs, i), rs[i..]);
  }

  /**
   While the write is still under way, at every state before its last, a reader whose rest fits in
   the ring together with the new frame still has exactly that rest to read.
   */
  lemma ReaderDuringWrite(img: Image, rs: seq<Record>, r: Record, offset: nat, rest: seq<Record>, i: nat)
    requires img.Holds(rs) && Accepts(|img.data|, r)
    requires SeenFrom(img, offset).Holds(rest) && Footprint(rest) + FrameSize(r) <= |img.data|
    requires i + 1 < |WriteSteps(img, rs, r)|
    ensures SeenFrom(WriteSteps(img, rs, r)[i], offset).Holds(rest)
  {
    hide Evict, PopSteps, Footprint, FrameSize, Frame, Frames, Laid, Window, Image.Bytes;
    var pops := PopSteps(img, rs, FrameSize(r));
    if i < |pops| {
      PopStepsKeep(img, rs, FrameSize(r), i);
      assert SeenFrom(pops[i], offset) == SeenFrom(img, offset);
    } else {
      var e := Evicted(img, rs, FrameSize(r));
      var k := i - |pops|;
      assert WriteSteps(img, rs, r)[i] == StoreSteps(e, e.end, Frame(r))[k];
      StoreStepsSafe(SeenFrom(img, offset), rest, Frame(r), k);
      assert SeenFrom(StoreSteps(e, e.end, Frame(r))[k], offset)
          == StoreSteps(SeenFrom(img, offset), img.end, Frame(r))[k];
    }
  }

  lemma EndIsBehindTheLive(img: Image, rs: seq<Record>)
    requires img.Holds(rs) && |img.data| > 0
    ensures img.end < |img.data|
    ensures img.end == img.start + Footprint(rs) || img.end + |img.data| == img.start + Footprint(rs)
  {
    HoldsDecodes(img, rs);
  }

  /**
   A reader that has `left` of a record still to return, and `rest` behind it, when a write of `r` goes
   on behind its back. What it will return is `left` with its first bytes replaced by what of the new
   frame finds no free space: nothing is replaced if and as long as all three fit in the ring.
   */
  lemma PayloadUnderWriter(img: Image, rs: seq<Record>, r: Record, from: nat, left: seq<byte>, rest: seq<Record>)
    requires img.Holds(rs) && Accepts(|img.data|, r)
    requires from < |img.data| && |left| + Footprint(rest) <= |img.data|
    requires Window(img.data, from, |left|) == left
    requires SeenFrom(img, Wrap(from + |left|, |img.data|)).Holds(rest)
    ensures var over := Overhang(Frame(r), |img.data| - |left| - Footprint(rest), |left|);
      Window(WriteImage(img, rs, r).data, from, |left|) == over + left[|over|..]
  {
    hide WriteImage, Footprint, Frame, FrameSize, Frames, Laid, Window, Overhang, Accepts;
    hide Image.Holds, Image.InRange, Image.Bytes;
    EndIsBehindTheLive(SeenFrom(img, Wrap(from + |left|, |img.data|)), rest);
    WriteLaysTheFrame(img, rs, r);
    StoreOverWindow(img.data, from, left, Footprint(rest), img.end, Frame(r));
  }
}
