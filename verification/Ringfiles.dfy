/** The ring file: a data area behind a header of two offsets, and the handles open on it. */
module Ringfiles {
  import opened Bits
  import opened Varints
  import opened Rings
  import opened Records
  import opened Images
  import opened Readers
  import opened Wrappers

  const HEADER_SIZE: nat := 24

  /** The file itself, shared by every handle that has it open. */
  class Storage {
    const data: array<byte>
    var startOffset: nat
    var endOffset: nat
    /** The records that the file holds. */
    ghost var live: seq<Record>
    /** Every state that the file has gone through, one for each byte stored and offset changed. */
    ghost var trace: seq<Image>

    ghost function State(): Image
      reads this, data
    {
      Image(data[..], startOffset, endOffset)
    }

    ghost predicate Valid()
      reads this, data
      ensures Valid() ==> State().InRange()
    {
      State().Holds(live)
    }

    /** A fresh file of `size` bytes, header included. */
    constructor (size: nat)
      requires HEADER_SIZE + MIN_CAPACITY <= size <= HEADER_SIZE + MAX_CAPACITY
      ensures Valid() && fresh(data)
      ensures data.Length == size - HEADER_SIZE && live == []
    {
      data := new byte[size - HEADER_SIZE](i => 0);
      startOffset, endOffset := 0, 0;
      live, trace := [], [];
    }

    /** Seeks to `position` and writes, one byte after the other. */
    method StoreAt(position: nat, bytes: seq<byte>)
      requires position < data.Length && position + |bytes| <= data.Length
      modifies `trace, data
      ensures State() == Stored(old(State()), position, bytes)
      ensures trace == old(trace) + StoreSteps(old(State()), position, bytes)
    {
      ghost var before := State();
      for i := 0 to |bytes|
        invariant State() == Stored(before, position, bytes[..i])
        invariant trace == old(trace) + StoreSteps(before, position, bytes)[..i]
      {
        StoreOneMore(before, State(), position, bytes, i);
        data[position + i] := bytes[i];
        trace := trace + [State()];
      }
      assert bytes[..|bytes|] == bytes;
    }

    /** Seeks to `position` and reads `count` bytes into `buffer` from its `at`-th byte on. */
    method LoadAt(position: nat, buffer: array<byte>, at: nat, count: nat)
      requires position < data.Length && position + count <= data.Length
      requires at + count <= buffer.Length && buffer != data
      modifies buffer
      ensures buffer[at..at + count] == data[position..position + count]
      ensures buffer[..at] == old(buffer[..at])
      ensures buffer[at + count..] == old(buffer[at + count..])
    {
      for i := 0 to count
        invariant buffer[at..at + i] == data[position..position + i]
        invariant buffer[..at] == old(buffer[..at])
        invariant buffer[at + i..] == old(buffer[at + i..])
      {
        buffer[at + i] := data[position + i];
        assert buffer[at..at + i + 1] == buffer[at..at + i] + [buffer[at + i]];
        assert buffer[at + i + 1..] == old(buffer[at + i..])[1..];
      }
    }
  }

  lemma StoreOneMore(before: Image, now: Image, position: nat, bytes: seq<byte>, i: nat)
    requires position + |bytes| <= |before.data| && i < |bytes|
    requires now == Stored(before, position, bytes[..i])
    ensures now.(data := now.data[position + i := bytes[i]]) == Stored(before, position, bytes[..i + 1])
  {
  }

  /** A handle: the file as one process has it open, with its own reading and streaming positions. */
  class Ringfile {
    const file: Storage
    var readOffset: nat
    /** Where the next chunk of a streaming write goes; 0 when none is under way. */
    var streamingWriteOffset: nat
    var streamingWriteBytesRemaining: nat
    /** Where the next chunk of a streaming read comes from; 0 when none is under way. */
    var streamingReadOffset: nat
    var streamingReadBytesRemaining: nat
    /** The payload of the streaming write so far. */
    ghost var written: seq<byte>

    /** A streaming write has laid down the prefix and part of the payload behind the live records. */
    ghost predicate StreamingWriteInvariant()
      reads this, file, file.data
      requires file.Valid()
    {
      var size := |written| + streamingWriteBytesRemaining;
      var laid := Encode(size) + written;
      && Footprint(file.live) + EncodedSize(size) + size <= BytesMax()
      && EncodedSize(size) + size < BytesMax()
      && streamingWriteOffset == file.endOffset + |laid|
      && Window(file.data[..], file.endOffset, |laid|) == laid
    }

    ghost predicate Valid()
      reads this, file, file.data
    {
      file.Valid() && (streamingWriteOffset != 0 ==> StreamingWriteInvariant())
    }

    /** What this handle still has to read is `rest`. */
    ghost predicate Remaining(rest: seq<Record>)
      reads this, file, file.data
    {
      SeenFrom(file.State(), readOffset).Holds(rest)
    }

    /** The ring distance to the end offset is what remains to be read. */
    lemma RemainingDistance(rest: seq<Record>)
      requires Remaining(rest)
      ensures readOffset < BytesMax() && file.endOffset < BytesMax()
      ensures Distance(readOffset, file.endOffset, BytesMax()) == Footprint(rest)
      ensures EndOfFile() <==> rest == []
    {
      EqualOffsetsIffEmpty(SeenFrom(file.State(), readOffset), rest);
      HoldsDecodes(SeenFrom(file.State(), readOffset), rest);
    }

    /** A streaming read has `left` still to return of its record, up to the reading position. */
    ghost predicate StreamingLeft(left: seq<byte>)
      reads this, file, file.data
    {
      && 0 < streamingReadOffset && readOffset < BytesMax() && |left| <= BytesMax()
      && Wrap(streamingReadOffset % BytesMax() + |left|, BytesMax()) == readOffset
      && streamingReadBytesRemaining == |left|
      && Window(file.data[..], streamingReadOffset % BytesMax(), |left|) == left
    }

    /** Creates the file. The reading position is left as it is. */
    constructor Create(size: nat)
      requires HEADER_SIZE + MIN_CAPACITY <= size <= HEADER_SIZE + MAX_CAPACITY
      ensures Valid() && fresh(file) && fresh(file.data)
      ensures BytesMax() == size - HEADER_SIZE && file.live == [] && streamingWriteOffset == 0
    {
      file := new Storage(size);
      streamingReadOffset, streamingWriteOffset := 0, 0;
    }

    constructor Open(file: Storage)
      requires file.Valid()
      ensures Valid() && this.file == file
      ensures streamingReadOffset == streamingWriteOffset == 0
      ensures Remaining(file.live)
    {
      this.file := file;
      readOffset := file.startOffset;
      streamingReadOffset, streamingWriteOffset := 0, 0;
    }

    function BytesMax(): nat {
      file.data.Length
    }

    /** The ring distance from the start to the end offset is what the live records take. */
    function BytesUsed(): (used: nat)
      requires file.Valid()
      reads file, file.data
      ensures used == Footprint(file.live) < BytesMax()
    {
      HoldsDecodes(file.State(), file.live);
      if file.startOffset <= file.endOffset then file.endOffset - file.startOffset
      else BytesMax() - (file.startOffset - file.endOffset)
    }

    function BytesAvailable(): (available: nat)
      requires file.Valid()
      reads file, file.data
      ensures available == BytesMax() - Footprint(file.live)
    {
      BytesMax() - BytesUsed()
    }

    predicate EndOfFile()
      reads this, file
    {
      readOffset == file.endOffset
    }

    /** Reads `size` bytes from `offset` on, around the end of the data area if need be. */
    method WrappingRead(offset: nat, buffer: array<byte>, size: nat)
      requires 1 <= size <= BytesMax() && size <= buffer.Length && buffer != file.data
      modifies buffer
      ensures buffer[..size] == Window(file.data[..], offset % BytesMax(), size)
      ensures buffer[size..] == old(buffer[size..])
    {
      var from := offset % BytesMax();
      var endBytes, startBytes := Split(from, size, BytesMax());
      file.LoadAt(from, buffer, 0, endBytes);
      ghost var data, first := file.data[..], buffer[..endBytes];
      assert first == data[from..from + endBytes];
      if startBytes != 0 {
        file.LoadAt(0, buffer, endBytes, startBytes);
        assert buffer[endBytes..size] == data[..startBytes];
      }
      assert buffer[..endBytes] == first;
      WindowFromParts(data, from, endBytes, startBytes);
      assert buffer[..size] == buffer[..endBytes] + buffer[endBytes..size];
    }

    /** Writes `bytes` from `offset` on, around the end of the data area if need be. */
    method WrappingWrite(offset: nat, bytes: seq<byte>)
      requires 1 <= |bytes| <= BytesMax()
      modifies file`trace, file.data
      ensures file.State() == Stored(old(file.State()), offset % BytesMax(), bytes)
      ensures file.trace == old(file.trace) + StoreSteps(old(file.State()), offset % BytesMax(), bytes)
    {
      var from := offset % BytesMax();
      var endBytes, startBytes := Split(from, |bytes|, BytesMax());
      var tail, head := bytes[..endBytes], bytes[endBytes..];
      assert tail + head == bytes;
      StoreStepsConcat(file.State(), from, tail, head);
      file.StoreAt(from, tail);
      if startBytes != 0 {
        file.StoreAt(0, head);
      }
    }

    /** Fetches the longest possible length prefix at `offset` and decodes it. */
    method DecodeHeader(offset: nat, ghost rest: seq<Record>) returns (headerSize: nat, size: nat)
      requires SeenFrom(file.State(), offset).Holds(rest) && rest != []
      ensures headerSize == EncodedSize(|rest[0]|) && size == |rest[0]|
      ensures headerSize + size < BytesMax() && size < TWO_TO_THE_64
    {
      ghost var seen := SeenFrom(file.State(), offset);
      HeaderFetch(seen, rest);
      PoppedHolds(seen, rest);
      SmallMod(offset, BytesMax());
      var headerBuffer := new byte[MAX_SIZE];
      WrappingRead(offset, headerBuffer, MAX_SIZE);
      assert headerBuffer[..MAX_SIZE] == Window(seen.data, seen.start, MAX_SIZE);
      var varint := new Varint(0);
      headerSize := varint.Read(headerBuffer);
      assert headerBuffer[..headerSize] == headerBuffer[..MAX_SIZE][..headerSize];
      SmallMod(|rest[0]|, TWO_TO_THE_64);
      size := varint.value;
    }

    /** Drops the oldest record by advancing the start offset behind it. */
    method PopRecord() returns (popped: bool)
      requires file.Valid()
      modifies file
      ensures file.Valid() && popped == (old(file.live) != [])
      ensures !popped ==> file.State() == old(file.State()) && file.live == [] && file.trace == old(file.trace)
      ensures popped ==>
        && FrameSize(old(file.live)[0]) <= BytesMax()
        && file.State() == Popped(old(file.State()), FrameSize(old(file.live)[0]))
        && file.live == old(file.live)[1..]
        && file.trace == old(file.trace) + [file.State()]
    {
      hide Footprint, FrameSize, Frames, Frame, Window, Image.Bytes, Image.Used, Image.Holds;
      EqualOffsetsIffEmpty(file.State(), file.live);
      if file.startOffset == file.endOffset {
        return false;
      }
      ghost var before := file.State();
      PoppedHolds(file.State(), file.live);
      var headerSize, size := DecodeHeader(file.startOffset, file.live);
      ModIsWrap(file.startOffset + headerSize + size, BytesMax());
      FrameSizeParts(file.live[0]);
      file.startOffset := (file.startOffset + headerSize + size) % BytesMax();
      assert file.State() == Popped(before, headerSize + size);
      file.live := file.live[1..];
      file.trace := file.trace + [file.State()];
      popped := true;
    }

    /** Pops records until `need` bytes are available. Popping never fails and always gains room. */
    method MakeRoom(need: nat)
      requires file.Valid() && need < BytesMax()
      modifies file
      ensures file.Valid() && file.live == Evict(old(file.live), need, BytesMax())
      ensures file.State() == Evicted(old(file.State()), old(file.live), need)
      ensures file.trace == old(file.trace) + PopSteps(old(file.State()), old(file.live), need)
    {
      hide Evict, Evicted, PopSteps, Footprint, FrameSize, Popped, Distance, Image.Holds, Image.Bytes, Image.Used;
      ghost var first, all := file.State(), file.live;
      while BytesAvailable() < need
        invariant file.Valid()
        invariant Evict(file.live, need, BytesMax()) == Evict(all, need, BytesMax())
        invariant Evicted(file.State(), file.live, need) == Evicted(first, all, need)
        invariant file.trace + PopSteps(file.State(), file.live, need)
               == old(file.trace) + PopSteps(first, all, need)
        decreases BytesUsed()
      {
        var availableBefore := BytesAvailable();
        EvictOne(file.State(), file.live, need);
        FootprintDecreases(file.live);
        var popped := PopRecord();
        assert popped && availableBefore < BytesAvailable();
      }
      EvictNone(file.State(), file.live, need);
    }

    /** Stores a length prefix and a payload behind the live records, without publishing them. */
    method AppendFrame(header: seq<byte>, payload: seq<byte>)
      requires file.Valid() && 1 <= |header| && 1 <= |payload| && |header| + |payload| < BytesMax()
      modifies file`trace, file.data
      ensures file.State() == Stored(old(file.State()), file.endOffset, header + payload)
      ensures file.trace == old(file.trace) + StoreSteps(old(file.State()), file.endOffset, header + payload)
    {
      var headerSize := |header|;
      SmallMod(file.endOffset, BytesMax());
      ModIsWrap(file.endOffset + headerSize, BytesMax());
      StoreStepsConcat(file.State(), file.endOffset, header, payload);
      WrappingWrite(file.endOffset, header);
      WrappingWrite(file.endOffset + headerSize, payload);
    }

    /** Moves the end offset, which is what makes a record visible. */
    method Publish(end: nat)
      requires end < 2 * BytesMax()
      modifies file`endOffset, file`trace
      ensures file.endOffset == Wrap(end, BytesMax())
      ensures file.trace == old(file.trace) + [file.State()]
    {
      ModIsWrap(end, BytesMax());
      file.endOffset := end % BytesMax();
      file.trace := file.trace + [file.State()];
    }

    /** Makes room for an accepted record, stores it and publishes it. */
    method Append(header: seq<byte>, payload: seq<byte>)
      requires file.Valid() && Accepts(BytesMax(), payload)
      requires 1 <= |payload| && header == Encode(|payload|)
      modifies file, file.data
      ensures file.Valid() && file.live == AfterWrite(old(file.live), payload, BytesMax())
      ensures file.State() == WriteImage(old(file.State()), old(file.live), payload)
      ensures file.trace == old(file.trace) + WriteSteps(old(file.State()), old(file.live), payload)
      ensures IsSafeTrace(file.trace, |old(file.trace)|, 1, old(file.live))
    {
      hide Evict, Evicted, PopSteps, Footprint, EncodedSize, Laid, Stored, StoreSteps, Window,
        Frames, Frame, AfterWrite, WriteImage, WriteSteps, Image.Holds, Image.Bytes, Image.Used;
      ghost var before, live := file.State(), file.live;
      MakeRoom(|header| + |payload|);
      ghost var room := file.State();
      AppendFrame(header, payload);
      ghost var laid := file.State();
      Publish(file.endOffset + |header| + |payload|);
      assert file.State() == laid.(end := Wrap(laid.end + |header| + |payload|, |laid.data|));
      AssembleWrite(before, live, payload, header, room, laid, file.State());
      WriteTraceIsSafe(old(file.trace), before, live, payload);
      file.live := AfterWrite(live, payload, BytesMax());
    }

    /** Appends a record, evicting the oldest ones to make room, or refuses one that can never fit. */
    method Write(payload: seq<byte>) returns (accepted: bool)
      requires Valid() && streamingWriteOffset == 0
      requires 1 <= |payload| && |payload| + MAX_SIZE + 1 < TWO_TO_THE_64
      modifies file, file.data
      ensures Valid() && accepted == Accepts(BytesMax(), payload)
      ensures !accepted ==>
        file.State() == old(file.State()) && file.live == old(file.live) && file.trace == old(file.trace)
      ensures accepted ==>
        && file.live == AfterWrite(old(file.live), payload, BytesMax())
        && file.State() == WriteImage(old(file.State()), old(file.live), payload)
        && file.trace == old(file.trace) + WriteSteps(old(file.State()), old(file.live), payload)
        && IsSafeTrace(file.trace, |old(file.trace)|, 1, old(file.live))
    {
      hide IsSafeTrace, Encode, EncodedSize, AfterWrite, WriteImage, WriteSteps, Image.Holds;
      var headerBuffer := new byte[MAX_SIZE];
      var varint := new Varint(|payload|);
      var headerSize := varint.ByteSize();
      varint.Write(headerBuffer);
      if BytesMax() < headerSize + |payload| + 1 {
        return false;
      }
      Append(headerBuffer[..headerSize], payload);
      accepted := true;
    }

    ////////// Reading whole records //////////

    /** The length of the next record, if there is one. */
    method NextRecordSize(ghost rest: seq<Record>) returns (more: bool, size: nat)
      requires Remaining(rest)
      ensures more == (rest != [])
      ensures more ==> size == |rest[0]|
    {
      hide Footprint, FrameSize, Frames, Frame, Window, Image.Bytes, Image.Used, Image.Holds;
      EqualOffsetsIffEmpty(SeenFrom(file.State(), readOffset), rest);
      if readOffset == file.endOffset {
        return false, 0;
      }
      var headerSize, length := DecodeHeader(readOffset, rest);
      more, size := true, length;
    }

    /** Reads the next record into `buffer`, or leaves everything alone when it is too small. */
    method Read(buffer: array<byte>, ghost rest: seq<Record>) returns (ok: bool)
      requires Remaining(rest) && rest != [] && 1 <= |rest[0]| && buffer != file.data
      modifies `readOffset, buffer
      ensures ok == (|rest[0]| <= buffer.Length)
      ensures !ok ==> readOffset == old(readOffset) && buffer[..] == old(buffer[..])
      ensures ok ==> Remaining(rest[1..])
      ensures ok ==> buffer[..|rest[0]|] == rest[0] && buffer[|rest[0]|..] == old(buffer[|rest[0]|..])
    {
      hide Footprint, FrameSize, Frames, Frame, Window, Wrap, Image.Holds;
      var headerSize, size := DecodeHeader(readOffset, rest);
      if buffer.Length < size {
        return false;
      }
      NextRecordAt(file.State(), readOffset, rest, headerSize, size);
      WrappingRead(readOffset + headerSize, buffer, size);
      readOffset := (readOffset + headerSize + size) % BytesMax();
      ok := true;
    }

    ////////// Writing a record piecewise //////////

    /** Makes room for a record of `size` bytes and stores its length prefix, or refuses it. */
    method StreamingWriteStart(size: nat) returns (accepted: bool)
      requires Valid() && streamingWriteOffset == 0 && size + MAX_SIZE + 1 < TWO_TO_THE_64
      modifies this, file, file.data
      ensures Valid() && accepted == (EncodedSize(size) + size + 1 <= BytesMax())
      ensures readOffset == old(readOffset)
      ensures !accepted ==>
        && file.State() == old(file.State()) && file.live == old(file.live) && file.trace == old(file.trace)
        && streamingWriteOffset == 0
      ensures accepted ==>
        var need := EncodedSize(size) + size; var room := Evicted(old(file.State()), old(file.live), need);
        && file.live == Evict(old(file.live), need, BytesMax())
        && file.State() == Stored(room, room.end, Encode(size))
        && file.trace == old(file.trace) + PopSteps(old(file.State()), old(file.live), need)
                       + StoreSteps(room, room.end, Encode(size))
        && streamingWriteOffset == file.endOffset + EncodedSize(size)
        && streamingWriteBytesRemaining == size && written == []
    {
      hide Evict, Evicted, PopSteps, Stored, StoreSteps, Encode, EncodedSize, Image.Holds;
      var headerBuffer := new byte[MAX_SIZE];
      var varint := new Varint(size);
      var headerSize := varint.ByteSize();
      varint.Write(headerBuffer);
      if BytesMax() < headerSize + size + 1 {
        return false;
      }
      StartStreaming(headerBuffer[..headerSize], size);
      accepted := true;
    }

    method StartStreaming(header: seq<byte>, size: nat)
      requires file.Valid() && streamingWriteOffset == 0
      requires header == Encode(size) && |header| + size < BytesMax()
      modifies this, file, file.data
      ensures Valid() && readOffset == old(readOffset)
      ensures
        var need := |header| + size; var room := Evicted(old(file.State()), old(file.live), need);
        && file.live == Evict(old(file.live), need, BytesMax())
        && file.State() == Stored(room, room.end, header)
        && file.trace == old(file.trace) + PopSteps(old(file.State()), old(file.live), need)
                       + StoreSteps(room, room.end, header)
      ensures streamingWriteOffset == file.endOffset + |header|
      ensures streamingWriteBytesRemaining == size && written == []
    {
      hide Evict, Evicted, PopSteps, Footprint, Laid, StoreSteps, Frames, Frame, Window, Wrap, Distance, EncodedSize,
        Image.Holds, Image.Bytes, Image.Used;
      EvictIsLeast(file.live, |header| + size, BytesMax());
      MakeRoom(|header| + size);
      ghost var room := file.State();
      StoredHolds(room, file.live, header);
      StoreThenLoad(room.data, room.end, header);
      SmallMod(room.end, BytesMax());
      WrappingWrite(file.endOffset, header);
      assert header + [] == header;
      streamingWriteOffset := file.endOffset + |header|;
      streamingWriteBytesRemaining := size;
      written := [];
    }

    /** Stores the next chunk of the payload. */
    method StreamingWrite(chunk: seq<byte>)
      requires Valid() && streamingWriteOffset != 0
      requires 1 <= |chunk| <= streamingWriteBytesRemaining
      modifies this, file`trace, file.data
      ensures Valid() && readOffset == old(readOffset)
      ensures file.State() == Stored(old(file.State()), old(streamingWriteOffset) % BytesMax(), chunk)
      ensures file.trace == old(file.trace)
                          + StoreSteps(old(file.State()), old(streamingWriteOffset) % BytesMax(), chunk)
      ensures streamingWriteOffset == old(streamingWriteOffset) + |chunk|
      ensures streamingWriteBytesRemaining == old(streamingWriteBytesRemaining) - |chunk|
      ensures written == old(written) + chunk
    {
      hide Footprint, Encode, EncodedSize, Laid, StoreSteps, Window, Frames, Frame, Image.Holds, Image.Bytes,
        Image.Used;
      ghost var laid := Encode(|written| + streamingWriteBytesRemaining) + written;
      ModIsWrap(streamingWriteOffset, BytesMax());
      ChunkHolds(file.State(), file.live, laid, chunk);
      WrappingWrite(streamingWriteOffset, chunk);
      streamingWriteOffset := streamingWriteOffset + |chunk|;
      streamingWriteBytesRemaining := streamingWriteBytesRemaining - |chunk|;
      assert laid + chunk == Encode(|written| + |chunk| + streamingWriteBytesRemaining) + (written + chunk);
      written := written + chunk;
    }

    /** Publishes the record whose payload has been stored. */
    method StreamingWriteFinish()
      requires Valid() && streamingWriteOffset != 0 && streamingWriteBytesRemaining == 0
      modifies this, file
      ensures Valid() && streamingWriteOffset == 0 && readOffset == old(readOffset)
      ensures FrameSize(old(written)) <= BytesMax()
      ensures file.State() == Published(old(file.State()), FrameSize(old(written)))
      ensures file.trace == old(file.trace) + [file.State()]
      ensures file.live == if old(Footprint(file.live)) + FrameSize(old(written)) == BytesMax() then []
                           else old(file.live) + [old(written)]
    {
      hide Footprint, Encode, EncodedSize, Window, Frames, Image.Holds, Image.Bytes, Image.Used;
      FrameSizeParts(written);
      FinishHolds(file.State(), file.live, written);
      Publish(streamingWriteOffset);
      file.live := if Footprint(file.live) + FrameSize(written) == BytesMax() then [] else file.live + [written];
      streamingWriteOffset := 0;
    }

    ////////// Reading a record piecewise //////////

    /** Moves on to the record after the next and returns the length of the next, if there is one. */
    method StreamingReadStart(ghost rest: seq<Record>) returns (size: Option<nat>)
      requires Remaining(rest) && streamingReadOffset == 0
      modifies `readOffset, `streamingReadOffset, `streamingReadBytesRemaining
      ensures size == if rest == [] then None else Some(|rest[0]|)
      ensures rest == [] ==> Remaining([]) && streamingReadOffset == 0
      ensures rest != [] ==> Remaining(rest[1..]) && StreamingLeft(rest[0])
      ensures rest != [] ==> |rest[0]| + Footprint(rest[1..]) < BytesMax()
    {
      hide Footprint, FrameSize, Frames, Frame, Window, Wrap, Image.Holds;
      EqualOffsetsIffEmpty(SeenFrom(file.State(), readOffset), rest);
      if readOffset == file.endOffset {
        return None;
      }
      var headerSize, length := DecodeHeader(readOffset, rest);
      NextRecordAt(file.State(), readOffset, rest, headerSize, length);
      streamingReadOffset := readOffset + headerSize;
      streamingReadBytesRemaining := length;
      readOffset := (readOffset + headerSize + length) % BytesMax();
      size := Some(length);
    }

    /** Reads up to `size` more bytes of the record. */
    method StreamingRead(buffer: array<byte>, size: nat, ghost left: seq<byte>) returns (count: nat)
      requires StreamingLeft(left) && size <= buffer.Length && buffer != file.data
      modifies `streamingReadOffset, `streamingReadBytesRemaining, buffer
      ensures count == if size <= |left| then size else |left|
      ensures buffer[..count] == left[..count] && buffer[count..] == old(buffer[count..])
      ensures StreamingLeft(left[count..])
    {
      count := if streamingReadBytesRemaining < size then streamingReadBytesRemaining else size;
      if count == 0 {
        assert left[0..] == left;
        return;
      }
      ghost var data, from, n := file.data[..], streamingReadOffset % BytesMax(), BytesMax();
      WindowSplit(data, from, count, |left| - count);
      WrappingRead(streamingReadOffset, buffer, count);
      ModStep(streamingReadOffset, count, n);
      streamingReadOffset := streamingReadOffset + count;
      streamingReadBytesRemaining := streamingReadBytesRemaining - count;
    }

    method StreamingReadFinish()
      modifies `streamingReadOffset
      ensures streamingReadOffset == 0
    {
      streamingReadOffset := 0;
    }
  }

  lemma ModStep(x: nat, k: nat, n: nat)
    requires k <= n && 0 < n
    ensures (x + k) % n == Wrap(x % n + k, n)
  {
    var q, r := x / n, x % n;
    assert x == q * n + r;
    if r + k < n {
      DivModUnique(x + k, n, q, r + k);
    } else {
      DivModUnique(x + k, n, q + 1, r + k - n);
    }
  }

  ////////// Where a transfer is split //////////

  /** The two parts of a transfer as the two wrapping routines compute them, before any check. */
  function EndBytes(offset: nat, size: nat, n: nat): nat
    requires offset < n
  {
    if offset < (offset + size) % n then size else n - offset
  }

  function StartBytes(offset: nat, size: nat, n: nat): int
    requires offset < n
  {
    size - EndBytes(offset, size, n)
  }

  /**
   The split of a transfer is sound, with no part negative, past the end of the ring or over the other,
   exactly when there is something to transfer and no more than the ring.
   */
  lemma SplitIsSoundIff(offset: nat, size: nat, n: nat)
    requires offset < n
    ensures 0 <= StartBytes(offset, size, n) <= offset && offset + EndBytes(offset, size, n) <= n <==> 1 <= size <= n
  {
    if size <= n {
      ModIsWrap(offset + size, n);
    }
  }

  /** How many of `size` bytes from `offset` on lie before the end of the ring, and how many after. */
  method Split(offset: nat, size: nat, n: nat) returns (endBytes: nat, startBytes: nat)
    requires offset < n && 1 <= size <= n
    ensures endBytes + startBytes == size && 1 <= endBytes
    ensures offset + endBytes <= n && (startBytes != 0 ==> offset + endBytes == n)
    ensures endBytes == EndBytes(offset, size, n) && startBytes == StartBytes(offset, size, n)
  {
    var endOffset := (offset + size) % n;
    ModIsWrap(offset + size, n);
    if offset < endOffset {
      endBytes, startBytes := size, 0;
    } else {
      endBytes := n - offset;
      startBytes := size - endBytes;
    }
  }

  lemma WindowFromParts(data: seq<byte>, from: nat, endBytes: nat, startBytes: nat)
    requires from < |data| && endBytes + startBytes <= |data|
    requires from + endBytes <= |data| && (startBytes != 0 ==> from + endBytes == |data|)
    ensures Window(data, from, endBytes + startBytes) == data[from..from + endBytes] + data[..startBytes]
  {
    var parts := data[from..from + endBytes] + data[..startBytes];
    forall i | 0 <= i < endBytes + startBytes
      ensures Window(data, from, endBytes + startBytes)[i] == parts[i]
    {
      assert Window(data, from, endBytes + startBytes)[i] == data[Wrap(from + i, |data|)];
      if i < endBytes {
        assert parts[i] == data[from..from + endBytes][i] == data[from + i];
      } else {
        assert parts[i] == data[..startBytes][i - endBytes] == data[i - endBytes];
      }
    }
  }
}
