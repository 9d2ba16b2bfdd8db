/** Whole runs in which any write may be cut off at any point, and the file is written on afterwards. */
module Interruptions {
  import opened Bits
  import opened Records
  import opened Images
  import opened Ringfiles
  import opened Varints
  import opened Wrappers

  /** A write of `record` that is cut off after `steps` updates of the file, if it has that many. */
  datatype Attempt = Attempt(record: Record, steps: nat)

  /** An accepted write that began, and whether it ran to its end. */
  datatype Trial = Trial(record: Record, completed: bool)

  /**
   A file, every record whose write ran to its end, and the writes that began since the last one that
   filled the ring exactly.
   */
  datatype History = History(img: Image, committed: seq<Record>, recent: seq<Trial>)

  ////////// What a run has to keep //////////

  /** The bytes that all records from the `j`-th trial on would take. */
  function TrialSize(trials: seq<Trial>, j: nat): nat
    requires j <= |trials|
    decreases |trials| - j
  {
    if j == |trials| then 0 else FrameSize(trials[j].record) + TrialSize(trials, j + 1)
  }

  /** The records of the completed trials from the `j`-th on. */
  function CompletedFrom(trials: seq<Trial>, j: nat): seq<Record>
    requires j <= |trials|
    decreases |trials| - j
  {
    if j == |trials| then []
    else (if trials[j].completed then [trials[j].record] else []) + CompletedFrom(trials, j + 1)
  }

  /** If all trials from some point on fit in `n` bytes together, those completed are all still there. */
  ghost predicate KeepsWhatFits(live: seq<Record>, trials: seq<Trial>, n: nat) {
    forall j: nat :: j <= |trials| && TrialSize(trials, j) <= n ==> IsSuffix(CompletedFrom(trials, j), live)
  }

  lemma {:induction false} TrialsSnoc(trials: seq<Trial>, t: Trial, j: nat)
    requires j <= |trials|
    ensures TrialSize(trials + [t], j) == TrialSize(trials, j) + FrameSize(t.record)
    ensures CompletedFrom(trials + [t], j) == CompletedFrom(trials, j) + if t.completed then [t.record] else []
    decreases |trials| - j
  {
    hide FrameSize;
    var all := trials + [t];
    if j < |trials| {
      assert all[j] == trials[j];
      TrialsSnoc(trials, t, j + 1);
    } else {
      assert CompletedFrom(all, j + 1) == [] && all[j] == t;
    }
  }

  lemma {:induction false} CompletedFit(trials: seq<Trial>, j: nat)
    requires j <= |trials|
    ensures Footprint(CompletedFrom(trials, j)) <= TrialSize(trials, j)
    decreases |trials| - j
  {
    hide FrameSize;
    if j < |trials| {
      CompletedFit(trials, j + 1);
      var rest := CompletedFrom(trials, j + 1);
      assert ([trials[j].record] + rest)[1..] == rest && [] + rest == rest;
    }
  }

  /** A trial keeps what still fits, whether it is cut off with some of the evicted records gone or completed. */
  lemma TrialKeeps(live: seq<Record>, trials: seq<Trial>, t: Trial, n: nat, after: seq<Record>)
    requires KeepsWhatFits(live, trials, n) && FrameSize(t.record) <= n
    requires IsSuffix(Evict(live, FrameSize(t.record), n) + if t.completed then [t.record] else [], after)
    ensures KeepsWhatFits(after, trials + [t], n)
  {
    hide FrameSize, TrialSize, CompletedFrom, Footprint, Evict;
    var need := FrameSize(t.record);
    var kept := Evict(live, need, n);
    forall j: nat | j <= |trials + [t]| && TrialSize(trials + [t], j) <= n
      ensures IsSuffix(CompletedFrom(trials + [t], j), after)
    {
      if j <= |trials| {
        TrialsSnoc(trials, t, j);
        CompletedFit(trials, j);
        var c := CompletedFrom(trials, j);
        EvictKeepsWhatFits(c, live, need, n);
        if t.completed {
          SuffixSnoc(c, kept, t.record);
          SuffixTransitive(c + [t.record], kept + [t.record], after);
        } else {
          assert c + [] == c && kept + [] == kept;
          SuffixTransitive(c, kept, after);
        }
      } else {
        NothingCompletedAtEnd(trials + [t]);
      }
    }
  }

  lemma NothingCompletedAtEnd(trials: seq<Trial>)
    ensures CompletedFrom(trials, |trials|) == []
  {
  }

  lemma NothingToKeep(live: seq<Record>, n: nat)
    ensures KeepsWhatFits(live, [], n)
  {
  }

  ////////// The run //////////

  /**
   The file decodes to some `live` that are the last so many of the records whose writes ran to their
   end, and in which everything still is that had to be kept.
   */
  ghost predicate Consistent(h: History) {
    && h.img.InRange()
    && h.img.Decoded().Some?
    && h.img.Holds(h.img.Decoded().value)
    && IsSuffix(h.img.Decoded().value, h.committed)
    && IsSuffix(CompletedFrom(h.recent, 0), h.committed)
    && KeepsWhatFits(h.img.Decoded().value, h.recent, |h.img.data|)
  }

  ghost function AfterAttempt(h: History, a: Attempt): History
    requires Consistent(h)
  {
    var r, live := a.record, h.img.Decoded().value;
    if !Accepts(|h.img.data|, r) || a.steps == 0 then h
    else
      var steps := WriteSteps(h.img, live, r);
      if a.steps < |steps| then
        History(steps[a.steps - 1], h.committed, h.recent + [Trial(r, false)])
      else
        History(WriteImage(h.img, live, r), h.committed + [r],
                if ExactFill(live, r, |h.img.data|) then [] else h.recent + [Trial(r, true)])
  }

  lemma HoldsIsConsistent(h: History, rs: seq<Record>)
    requires h.img.Holds(rs) && IsSuffix(rs, h.committed) && IsSuffix(CompletedFrom(h.recent, 0), h.committed)
    requires KeepsWhatFits(rs, h.recent, |h.img.data|)
    ensures Consistent(h)
  {
    HoldsDecodes(h.img, rs);
  }

  lemma CutOffIsConsistent(h: History, a: Attempt, live: seq<Record>)
    requires Consistent(h) && h.img.Decoded() == Some(live)
    requires Accepts(|h.img.data|, a.record) && 0 < a.steps < |WriteSteps(h.img, live, a.record)|
    ensures Consistent(AfterAttempt(h, a))
  {
    hide FrameSize, CompletedFrom, Footprint, KeepsWhatFits, Image.Holds, Image.Bytes, WriteSteps, WriteImage,
      Evict, Gone, IsSuffix, Dropped;
    var stopped := WriteSteps(h.img, live, a.record)[a.steps - 1];
    var k := PartialWriteIsSafe(h.img, live, a.record, a.steps - 1, stopped);
    StepsKeepSize(h.img, live, a.record, a.steps - 1);
    LeftIsConsistent(h, a.record, live, k, stopped);
  }

  lemma LeftIsConsistent(h: History, r: Record, live: seq<Record>, k: nat, stopped: Image)
    requires Consistent(h) && h.img.Decoded() == Some(live) && FrameSize(r) <= |h.img.data|
    requires k <= Dropped(live, FrameSize(r), |h.img.data|)
    requires |stopped.data| == |h.img.data| && stopped.Holds(live[k..])
    ensures Consistent(History(stopped, h.committed, h.recent + [Trial(r, false)]))
  {
    hide FrameSize, CompletedFrom, Footprint, KeepsWhatFits, Image.Holds, Image.Bytes, Evict, IsSuffix, Dropped;
    var n, t := |h.img.data|, Trial(r, false);
    var kept := Evict(live, FrameSize(r), n);
    KeptIsLeft(live, FrameSize(r), n, k);
    assert kept + [] == kept && CompletedFrom(h.recent, 0) + [] == CompletedFrom(h.recent, 0);
    TrialKeeps(live, h.recent, t, n, live[k..]);
    TrialsSnoc(h.recent, t, 0);
    SuffixTransitive(live[k..], live, h.committed);
    HoldsIsConsistent(History(stopped, h.committed, h.recent + [t]), live[k..]);
  }

  lemma KeptIsLeft(live: seq<Record>, need: nat, n: nat, k: nat)
    requires k <= Dropped(live, need, n)
    ensures k <= |live| && IsSuffix(live[k..], live) && IsSuffix(Evict(live, need, n), live[k..])
  {
  }

  lemma StepsKeepSize(img: Image, rs: seq<Record>, r: Record, i: nat)
    requires img.Holds(rs) && Accepts(|img.data|, r) && i < |WriteSteps(img, rs, r)|
    ensures |WriteSteps(img, rs, r)[i].data| == |img.data|
  {
    hide Evict, PopSteps, Footprint, FrameSize, Frame, Frames, Image.Bytes;
    var pops := PopSteps(img, rs, FrameSize(r));
    if i < |pops| {
      PopStepsKeep(img, rs, FrameSize(r), i);
    }
  }

  lemma CompletedIsConsistent(h: History, a: Attempt, live: seq<Record>)
    requires Consistent(h) && h.img.Decoded() == Some(live)
    requires Accepts(|h.img.data|, a.record) && 0 < |WriteSteps(h.img, live, a.record)| <= a.steps
    ensures Consistent(AfterAttempt(h, a))
  {
    hide FrameSize, CompletedFrom, Footprint, KeepsWhatFits, Image.Holds, Image.Bytes, WriteSteps, WriteImage, Evict;
    var n, r := |h.img.data|, a.record;
    var t := Trial(r, true);
    var after, img := AfterWrite(live, r, n), WriteImage(h.img, live, r);
    WriteMeansAfterWrite(h.img, live, r);
    AfterWriteIsSuffix(live, h.committed, r, n);
    WriteKeepsSize(h.img, live, r);
    if ExactFill(live, r, n) {
      NothingToKeep(after, n);
      NothingCompletedAtEnd([]);
      HoldsIsConsistent(History(img, h.committed + [r], []), after);
    } else {
      TrialKeeps(live, h.recent, t, n, after);
      TrialsSnoc(h.recent, t, 0);
      SuffixSnoc(CompletedFrom(h.recent, 0), h.committed, r);
      HoldsIsConsistent(History(img, h.committed + [r], h.recent + [t]), after);
    }
  }

  lemma WriteKeepsSize(img: Image, rs: seq<Record>, r: Record)
    requires img.Holds(rs) && Accepts(|img.data|, r)
    ensures |WriteImage(img, rs, r).data| == |img.data|
  {
  }

  lemma AttemptIsConsistent(h: History, a: Attempt)
    requires Consistent(h)
    ensures Consistent(AfterAttempt(h, a))
  {
    if Accepts(|h.img.data|, a.record) && a.steps != 0 {
      var live := h.img.Decoded().value;
      if a.steps < |WriteSteps(h.img, live, a.record)| {
        CutOffIsConsistent(h, a, live);
      } else {
        CompletedIsConsistent(h, a, live);
      }
    }
  }

  /**
   The attempts are those of the file itself: a write of `payload` goes through the states of the attempts
   cut off after one step, after two, and so on, and ends in the state of one that is not.
   */
  method WriteIsAttempt(ring: Ringfile, payload: seq<byte>, ghost h: History) returns (accepted: bool)
    requires ring.Valid() && ring.streamingWriteOffset == 0
    requires 1 <= |payload| && |payload| + MAX_SIZE + 1 < TWO_TO_THE_64
    requires Consistent(h) && h.img == ring.file.State()
    modifies ring.file, ring.file.data
    ensures accepted == Accepts(ring.BytesMax(), payload)
    ensures !accepted ==> ring.file.trace == old(ring.file.trace)
    ensures accepted ==>
      && |old(ring.file.trace)| < |ring.file.trace|
      && old(ring.file.trace) == ring.file.trace[..|old(ring.file.trace)|]
      && ring.file.trace[|ring.file.trace| - 1] == ring.file.State()
    ensures forall steps :: 0 < steps <= |ring.file.trace| - |old(ring.file.trace)| ==>
      AfterAttempt(h, Attempt(payload, steps)).img == ring.file.trace[|old(ring.file.trace)| + steps - 1]
    ensures forall steps :: |ring.file.trace| - |old(ring.file.trace)| <= steps ==>
      AfterAttempt(h, Attempt(payload, steps)).img == ring.file.State()
    ensures forall steps :: 0 <= steps ==>
      AfterAttempt(h, Attempt(payload, steps)).committed == h.committed +
        if accepted && |ring.file.trace| - |old(ring.file.trace)| <= steps then [payload] else []
  {
    hide AfterWrite, WriteImage, WriteSteps, AfterAttempt, Consistent, IsSafeTrace, Image.Holds, Image.Decoded;
    ghost var live, n := ring.file.live, |ring.file.trace|;
    HoldsDecodes(ring.file.State(), live);
    accepted := ring.Write(payload);
    if accepted {
      AttemptStates(h, live, payload);
    } else {
      RefusedAttempts(h, payload);
    }
  }

  lemma AttemptStates(h: History, live: seq<Record>, r: Record)
    requires Consistent(h) && h.img.Decoded() == Some(live) && Accepts(|h.img.data|, r)
    ensures var states := WriteSteps(h.img, live, r);
      && states[|states| - 1] == WriteImage(h.img, live, r)
      && (forall k :: 0 < k <= |states| ==> AfterAttempt(h, Attempt(r, k)).img == states[k - 1])
      && (forall k :: |states| <= k ==> AfterAttempt(h, Attempt(r, k)).img == WriteImage(h.img, live, r))
      && forall k :: 0 <= k ==>
           AfterAttempt(h, Attempt(r, k)).committed == h.committed + if |states| <= k then [r] else []
  {
    StepsEndInImage(h.img, live, r);
    hide WriteImage, WriteSteps, Consistent, Accepts, Image.Holds, Image.Decoded;
  }

  lemma RefusedAttempts(h: History, r: Record)
    requires Consistent(h) && !Accepts(|h.img.data|, r)
    ensures forall k :: 0 <= k ==>
      AfterAttempt(h, Attempt(r, k)).img == h.img && AfterAttempt(h, Attempt(r, k)).committed == h.committed + []
  {
    hide Consistent, WriteSteps, WriteImage, Accepts;
  }

  lemma StepsEndInImage(img: Image, rs: seq<Record>, r: Record)
    requires img.Holds(rs) && Accepts(|img.data|, r)
    ensures WriteSteps(img, rs, r)[|WriteSteps(img, rs, r)| - 1] == WriteImage(img, rs, r)
  {
  }

  /** The state after any number of writes, each cut off somewhere or completed. */
  ghost function AfterAttempts(h: History, attempts: seq<Attempt>): (h': History)
    requires Consistent(h)
    ensures Consistent(h')
    decreases |attempts|
  {
    if attempts == [] then h
    else
      AttemptIsConsistent(h, attempts[0]);
      AfterAttempts(AfterAttempt(h, attempts[0]), attempts[1..])
  }

  ////////// What the history says //////////

  /** The records whose writes began: those that are accepted, if the attempt got anywhere. */
  function Begun(attempts: seq<Attempt>, n: nat): seq<Record>
    decreases |attempts|
  {
    if attempts == [] then []
    else (if Accepts(n, attempts[0].record) && attempts[0].steps != 0 then [attempts[0].record] else [])
         + Begun(attempts[1..], n)
  }

  function Tried(trials: seq<Trial>): seq<Record> {
    seq(|trials|, i requires 0 <= i < |trials| => trials[i].record)
  }

  /** The completed records from before the recent trials. */
  ghost function Older(h: History): seq<Record>
    requires Consistent(h)
  {
    h.committed[..|h.committed| - |CompletedFrom(h.recent, 0)|]
  }

  /** A history that has just come out of a write that filled the ring exactly. */
  ghost predicate JustFilled(h: History) {
    h.recent == [] && h.committed != [] && h.img.InRange() && h.img.Decoded() == Some([])
  }

  lemma TrialAdded(h: History, h': History, t: Trial)
    requires Consistent(h) && Consistent(h') && h'.recent == h.recent + [t]
    requires h'.committed == h.committed + if t.completed then [t.record] else []
    ensures Tried(h'.recent) == Tried(h.recent) + [t.record] && Older(h') == Older(h)
  {
    TrialsSnoc(h.recent, t, 0);
    assert IsSuffix(CompletedFrom(h.recent, 0), h.committed);
  }

  lemma FilledIsEmpty(img: Image, live: seq<Record>, r: Record)
    requires img.Holds(live) && Accepts(|img.data|, r) && ExactFill(live, r, |img.data|)
    ensures WriteImage(img, live, r).InRange() && WriteImage(img, live, r).Decoded() == Some([])
  {
    hide WriteImage, Evict, Footprint, FrameSize;
    WriteMeansAfterWrite(img, live, r);
    HoldsDecodes(WriteImage(img, live, r), []);
  }

  lemma AttemptKeepsSize(h: History, a: Attempt)
    requires Consistent(h)
    ensures |AfterAttempt(h, a).img.data| == |h.img.data|
  {
    hide WriteSteps, WriteImage, Accepts, CompletedFrom, KeepsWhatFits, Image.Holds, Image.Decoded;
    var live, r := h.img.Decoded().value, a.record;
    if Accepts(|h.img.data|, r) {
      WriteKeepsSize(h.img, live, r);
      if 0 < a.steps < |WriteSteps(h.img, live, r)| {
        StepsKeepSize(h.img, live, r, a.steps - 1);
      }
    }
  }

  lemma OneAttempt(h: History, a: Attempt)
    requires Consistent(h)
    ensures var h', n := AfterAttempt(h, a), |h.img.data|;
      && Consistent(h') && |h'.img.data| == n
      && (JustFilled(h') || (Tried(h'.recent) == Tried(h.recent) + Begun([a], n) && Older(h') == Older(h)))
  {
    AttemptIsConsistent(h, a);
    AttemptKeepsSize(h, a);
    var r, n, live := a.record, |h.img.data|, h.img.Decoded().value;
    assert h.img.Holds(live);
    BegunOne(a, n);
    hide Begun, CompletedFrom, KeepsWhatFits, Consistent, Older, Accepts, ExactFill, WriteSteps, WriteImage,
      Image.Decoded, Image.Holds;
    if !Accepts(n, r) || a.steps == 0 {
      assert Tried(h.recent) + [] == Tried(h.recent);
    } else if a.steps < |WriteSteps(h.img, live, r)| {
      assert h.committed + [] == h.committed;
      TrialAdded(h, AfterAttempt(h, a), Trial(r, false));
    } else if ExactFill(live, r, n) {
      FilledIsEmpty(h.img, live, r);
    } else {
      TrialAdded(h, AfterAttempt(h, a), Trial(r, true));
    }
  }

  lemma BegunOne(a: Attempt, n: nat)
    ensures Begun([a], n) == if Accepts(n, a.record) && a.steps != 0 then [a.record] else []
  {
  }

  lemma BegunFirst(attempts: seq<Attempt>, n: nat)
    requires attempts != []
    ensures Begun(attempts, n) == Begun([attempts[0]], n) + Begun(attempts[1..], n)
  {
    BegunOne(attempts[0], n);
  }

  /** Nothing is older than the trials since an exact fill but what was committed up to it. */
  lemma OlderWhenFilled(h: History)
    requires Consistent(h) && JustFilled(h)
    ensures Tried(h.recent) == [] && Older(h) == h.committed
  {
  }

  /**
   The trials of a history are all writes that began since the last that filled the ring exactly, or since
   the start, and the completed ones among them are the records that have been committed since.
   */
  lemma {:induction false} RecentAreBegun(h: History, attempts: seq<Attempt>) returns (t: nat)
    requires Consistent(h)
    ensures t <= |attempts|
    ensures var h', filled, n := AfterAttempts(h, attempts), AfterAttempts(h, attempts[..t]), |h.img.data|;
      if t == 0 then Tried(h'.recent) == Tried(h.recent) + Begun(attempts, n) && Older(h') == Older(h)
      else JustFilled(filled) && Tried(h'.recent) == Begun(attempts[t..], n) && Older(h') == filled.committed
    decreases |attempts|
  {
    hide AfterAttempt, Consistent, Older, JustFilled, Tried, Begun;
    t := 0;
    if attempts == [] {
      NoneBegun(h, |h.img.data|);
    } else {
      var first, rest, n := attempts[0], attempts[1..], |h.img.data|;
      var h1 := AfterAttempt(h, first);
      OneAttempt(h, first);
      BegunFirst(attempts, n);
      var t1 := RecentAreBegun(h1, rest);
      if 0 < t1 {
        t := t1 + 1;
        assert attempts[..t][1..] == rest[..t1] && attempts[t..] == rest[t1..];
      } else if JustFilled(h1) {
        t := 1;
        assert attempts[..1][1..] == [] && attempts[1..] == rest;
        OlderWhenFilled(h1);
        assert [] + Begun(rest, n) == Begun(rest, n);
      } else {
        var before, one := Tried(h.recent), Begun([first], n);
        assert before + (one + Begun(rest, n)) == before + one + Begun(rest, n);
      }
    }
  }

  lemma NoneBegun(h: History, n: nat)
    ensures Tried(h.recent) + Begun([], n) == Tried(h.recent)
  {
  }

  /**
   The contract of `AfterAttempts` unfolded for a fresh file: however many writes into it are cut off and
   wherever, and whatever is written afterwards, the file decodes, and to a suffix of the records whose
   writes ran to their end; and in it are all of them that belong to the trials since some point since
   the last exact fill, if those trials fit in the ring together.
   */
  lemma InterruptedRunsAreSafe(data: seq<byte>, attempts: seq<Attempt>, j: nat)
    requires MIN_CAPACITY <= |data| <= MAX_CAPACITY
    ensures Consistent(History(Image(data, 0, 0), [], []))
    ensures var h := AfterAttempts(History(Image(data, 0, 0), [], []), attempts);
      && h.img.Decoded().Some? && IsSuffix(h.img.Decoded().value, h.committed)
      && (j <= |h.recent| && TrialSize(h.recent, j) <= |h.img.data| ==>
            IsSuffix(CompletedFrom(h.recent, j), h.img.Decoded().value))
  {
  }
}
