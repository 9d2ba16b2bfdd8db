/** What the operations of the ring file achieve together, over whole sequences of calls. */
module Sessions {
  import opened Bits
  import opened Varints
  import opened Rings
  import opened Records
  import opened Images
  import opened Readers
  import opened Ringfiles

  function Flatten(chunks: seq<seq<byte>>): seq<byte> {
    if chunks == [] then [] else Flatten(chunks[..|chunks| - 1]) + chunks[|chunks| - 1]
  }

  lemma FlattenNone(chunks: seq<seq<byte>>)
    ensures Flatten(chunks[..0]) == []
  {
  }

  lemma FlattenSnoc(chunks: seq<seq<byte>>, i: nat)
    requires i < |chunks|
    ensures Flatten(chunks[..i + 1]) == Flatten(chunks[..i]) + chunks[i]
  {
    assert chunks[..i + 1][..i] == chunks[..i];
  }

  lemma {:induction false} FlattenPrefixLength(chunks: seq<seq<byte>>, i: nat)
    requires i <= |chunks|
    ensures |Flatten(chunks[..i])| <= |Flatten(chunks)|
    decreases |chunks| - i
  {
    if i < |chunks| {
      FlattenSnoc(chunks, i);
      FlattenPrefixLength(chunks, i + 1);
    } else {
      assert chunks[..i] == chunks;
    }
  }

  /**
   A streaming write that is begun for `size` bytes and sent any non-empty chunks that fit in them. As
   long as it is not finished, every state of the file holds a suffix of the log before it.
   */
  method StreamingWriteChunks(ring: Ringfile, size: nat, chunks: seq<seq<byte>>) returns (accepted: bool)
    requires ring.Valid() && ring.streamingWriteOffset == 0
    requires forall i :: 0 <= i < |chunks| ==> chunks[i] != []
    requires |Flatten(chunks)| <= size && size + MAX_SIZE + 1 < TWO_TO_THE_64
    modifies ring, ring.file, ring.file.data
    ensures ring.Valid() && accepted == (EncodedSize(size) + size + 1 <= ring.BytesMax())
    ensures !accepted ==>
      && ring.file.State() == old(ring.file.State()) && ring.streamingWriteOffset == 0
      && ring.file.live == old(ring.file.live) && ring.file.trace == old(ring.file.trace)
    ensures accepted ==>
      var need, laid := EncodedSize(size) + size, Encode(size) + Flatten(chunks);
      var room := Evicted(old(ring.file.State()), old(ring.file.live), need);
      && ring.written == Flatten(chunks) && ring.streamingWriteBytesRemaining == size - |Flatten(chunks)|
      && ring.streamingWriteOffset == room.end + |laid|
      && ring.file.live == Evict(old(ring.file.live), need, ring.BytesMax())
      && ring.file.State() == Stored(room, room.end, laid)
      && ring.file.trace == old(ring.file.trace)
                          + UnpublishedSteps(old(ring.file.State()), old(ring.file.live), need, laid)
    ensures IsSafeTrace(ring.file.trace, |old(ring.file.trace)|, 0, old(ring.file.live))
  {
    hide Flatten, Evict, Evicted, PopSteps, Footprint, Encode, EncodedSize, Laid, StoreSteps, Window,
      Frames, Frame, IsSafeTrace, Image.Holds, Image.Bytes, Image.Used;
    ghost var file := ring.file;
    ghost var before, live, trace := file.State(), file.live, file.trace;
    NothingTraced(trace, live);
    accepted := ring.StreamingWriteStart(size);
    if !accepted {
      return;
    }
    ghost var need, header := EncodedSize(size) + size, Encode(size);
    ghost var room, pops := Evicted(before, live, need), trace + PopSteps(before, live, need);
    FlattenNone(chunks);
    ghost var laid := header;
    assert header + [] == header;
    for i := 0 to |chunks|
      invariant ring.file == file && ring.Valid() && ring.streamingWriteOffset != 0
      invariant ring.written == Flatten(chunks[..i]) && laid == header + ring.written
      invariant ring.streamingWriteOffset == room.end + |laid|
      invariant ring.streamingWriteBytesRemaining + |ring.written| == size
      invariant file.live == Evict(live, need, |before.data|)
      invariant file.State() == Stored(room, room.end, laid)
      invariant file.trace == pops + StoreSteps(room, room.end, laid)
    {
      FlattenSnoc(chunks, i);
      FlattenPrefixLength(chunks, i + 1);
      ModIsWrap(ring.streamingWriteOffset, ring.BytesMax());
      StoreStepsConcat(room, room.end, laid, chunks[i]);
      ConcatAssociative(header, ring.written, chunks[i]);
      ring.StreamingWrite(chunks[i]);
      laid := laid + chunks[i];
    }
    assert chunks[..|chunks|] == chunks;
    assert file.trace == trace + UnpublishedSteps(before, live, need, laid);
    UnpublishedTraceIsSafe(trace, before, live, need, laid);
  }

  lemma NothingTraced(trace: seq<Image>, rs: seq<Record>)
    ensures IsSafeTrace(trace, |trace|, 0, rs)
  {
  }

  /**
   A streaming write of a record cut into any non-empty chunks takes the file through exactly the
   states that a single write of the whole record takes it through, and to the same end.
   */
  method StreamingWriteAll(ring: Ringfile, chunks: seq<seq<byte>>) returns (accepted: bool)
    requires ring.Valid() && ring.streamingWriteOffset == 0
    requires forall i :: 0 <= i < |chunks| ==> chunks[i] != []
    requires |Flatten(chunks)| + MAX_SIZE + 1 < TWO_TO_THE_64
    modifies ring, ring.file, ring.file.data
    ensures ring.Valid() && ring.streamingWriteOffset == 0
    ensures accepted == Accepts(ring.BytesMax(), Flatten(chunks))
    ensures !accepted ==>
      && ring.file.State() == old(ring.file.State())
      && ring.file.live == old(ring.file.live) && ring.file.trace == old(ring.file.trace)
    ensures accepted ==>
      && ring.file.live == AfterWrite(old(ring.file.live), Flatten(chunks), ring.BytesMax())
      && ring.file.State() == WriteImage(old(ring.file.State()), old(ring.file.live), Flatten(chunks))
      && ring.file.trace == old(ring.file.trace)
                          + WriteSteps(old(ring.file.State()), old(ring.file.live), Flatten(chunks))
  {
    hide Flatten, Evict, Evicted, PopSteps, Footprint, Encode, EncodedSize, Laid, StoreSteps, Window,
      Frames, IsSafeTrace, WriteImage, WriteSteps, Image.Holds, Image.Bytes, Image.Used;
    ghost var payload, file := Flatten(chunks), ring.file;
    ghost var before, live := file.State(), file.live;
    FrameSizeParts(payload);
    var size := TotalSize(chunks);
    accepted := StreamingWriteChunks(ring, size, chunks);
    if accepted {
      ghost var complete := file.State();
      ring.StreamingWriteFinish();
      ghost var room := Evicted(before, live, FrameSize(payload));
      AssembleWrite(before, live, payload, Encode(size), room, complete, file.State());
    }
  }

  method TotalSize(chunks: seq<seq<byte>>) returns (size: nat)
    ensures size == |Flatten(chunks)|
  {
    size := 0;
    for i := 0 to |chunks|
      invariant size == |Flatten(chunks[..i])|
    {
      FlattenSnoc(chunks, i);
      size := size + |chunks[i]|;
    }
    assert chunks[..|chunks|] == chunks;
  }

  /**
   A streaming read hands out the record in order, whatever sizes are asked for: all of it once a
   positive request is answered with nothing. Either way the handle ends up at the next record.
   */
  method StreamingReadAll(ring: Ringfile, requests: seq<nat>, ghost rest: seq<Record>)
    returns (chunks: seq<seq<byte>>)
    requires ring.Remaining(rest) && rest != [] && ring.streamingReadOffset == 0
    modifies ring
    ensures |chunks| == |requests| && Flatten(chunks) <= rest[0]
    ensures forall i :: 0 <= i < |chunks| && 0 < requests[i] && chunks[i] == [] ==> Flatten(chunks) == rest[0]
    ensures ring.Remaining(rest[1..]) && ring.streamingReadOffset == 0
  {
    hide Footprint, Window, Image.Holds;
    ghost var record, file := rest[0], ring.file;
    var size := ring.StreamingReadStart(rest);
    chunks := [];
    assert record[0..] == record;
    for i := 0 to |requests|
      invariant ring.file == file && ring.Remaining(rest[1..])
      invariant |chunks| == i && Flatten(chunks) <= record
      invariant ring.StreamingLeft(record[|Flatten(chunks)|..])
      invariant forall j :: 0 <= j < i && 0 < requests[j] && chunks[j] == [] ==> Flatten(chunks) == record
    {
      ghost var before := Flatten(chunks);
      ghost var left := record[|before|..];
      var buffer := new byte[requests[i]];
      var count := ring.StreamingRead(buffer, requests[i], left);
      assert (chunks + [buffer[..count]])[..i] == chunks;
      chunks := chunks + [buffer[..count]];
      assert Flatten(chunks) == before + left[..count] == record[..|before| + count];
      assert left[count..] == record[|Flatten(chunks)|..];
    }
    ring.StreamingReadFinish();
  }

  /**
   A write through one handle behind the back of a reader with `rest` still to read: afterwards the
   reader has `rest` and the new record to read exactly when both stay short of the whole ring.
   */
  method WriteBehindReader(writer: Ringfile, reader: Ringfile, payload: seq<byte>, ghost rest: seq<Record>)
    returns (accepted: bool)
    requires writer != reader && writer.file == reader.file
    requires writer.Valid() && writer.streamingWriteOffset == 0 && reader.Remaining(rest)
    requires 1 <= |payload| && |payload| + MAX_SIZE + 1 < TWO_TO_THE_64
    modifies writer.file, writer.file.data
    ensures accepted == Accepts(writer.BytesMax(), payload)
    ensures !accepted ==> reader.Remaining(rest)
    ensures accepted ==>
      (reader.Remaining(rest + [payload]) <==> Footprint(rest) + FrameSize(payload) < writer.BytesMax())
  {
    hide Footprint, FrameSize, Frames, Window, WriteImage, WriteSteps, AfterWrite, Image.Holds, Image.Bytes, Image.Used;
    ghost var before, live := writer.file.State(), writer.file.live;
    accepted := writer.Write(payload);
    if accepted {
      ReaderUnderWriter(before, live, payload, reader.readOffset, rest);
    }
  }

  /**
   A write through one handle behind the back of a streaming reader with `left` of its record still to
   return and `rest` behind it: `left` survives exactly when what of the new frame finds no free space
   is the same bytes, and so whenever all three fit in the ring.
   */
  method WriteBehindStreamingReader(writer: Ringfile, reader: Ringfile, payload: seq<byte>,
                                    ghost left: seq<byte>, ghost rest: seq<Record>)
    returns (accepted: bool)
    requires writer != reader && writer.file == reader.file
    requires writer.Valid() && writer.streamingWriteOffset == 0
    requires reader.StreamingLeft(left) && reader.Remaining(rest)
    requires |left| + Footprint(rest) <= writer.BytesMax()
    requires 1 <= |payload| && |payload| + MAX_SIZE + 1 < TWO_TO_THE_64
    modifies writer.file, writer.file.data
    ensures accepted == Accepts(writer.BytesMax(), payload)
    ensures !accepted ==> reader.StreamingLeft(left)
    ensures accepted ==>
      var over := Overhang(Frame(payload), writer.BytesMax() - |left| - Footprint(rest), |left|);
      reader.StreamingLeft(left) <==> over <= left
    ensures |left| + Footprint(rest) + FrameSize(payload) <= writer.BytesMax() ==> reader.StreamingLeft(left)
  {
    hide Footprint, FrameSize, Frames, Frame, Window, WriteImage, WriteSteps, AfterWrite, IsSafeTrace,
      Image.Holds, Image.Bytes, Image.Used;
    ghost var before, live := writer.file.State(), writer.file.live;
    accepted := writer.Write(payload);
    if accepted {
      ghost var from, n := reader.streamingReadOffset % writer.BytesMax(), writer.BytesMax();
      PayloadUnderWriter(before, live, payload, from, left, rest);
      ghost var over := Overhang(Frame(payload), n - |left| - Footprint(rest), |left|);
      OverhangIffPrefix(over, left);
    }
  }

  lemma OverhangIffPrefix(over: seq<byte>, left: seq<byte>)
    requires |over| <= |left|
    ensures over + left[|over|..] == left <==> over <= left
  {
    assert left == left[..|over|] + left[|over|..];
    if over + left[|over|..] == left {
      assert (over + left[|over|..])[..|over|] == over;
    }
  }
}
