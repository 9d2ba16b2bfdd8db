/** Which of all records ever written a ring of `n` bytes still holds. */
module Retention {
  import opened Records

  /** The log after the accepted writes `ws` into a fresh ring of `n` bytes. */
  function Run(ws: seq<Record>, n: nat): seq<Record> {
    if ws == [] then [] else AfterWrite(Run(ws[..|ws| - 1], n), ws[|ws| - 1], n)
  }

  /** How many writes are forgotten for good: those up to the last that filled the ring exactly. */
  function LastExactFill(ws: seq<Record>, n: nat): (t: nat)
    ensures t <= |ws|
  {
    if ws == [] then 0
    else
      var before := ws[..|ws| - 1];
      if ExactFill(Run(before, n), ws[|ws| - 1], n) then |ws| else LastExactFill(before, n)
  }

  lemma RunSnoc(before: seq<Record>, r: Record, n: nat)
    ensures Run(before + [r], n) == AfterWrite(Run(before, n), r, n)
    ensures LastExactFill(before + [r], n)
         == if ExactFill(Run(before, n), r, n) then |before| + 1 else LastExactFill(before, n)
  {
  }

  ghost predicate AllAccepted(ws: seq<Record>, n: nat) {
    forall i :: 0 <= i < |ws| ==> Accepts(n, ws[i])
  }

  /**
   Among the records of `ws` from the `t`-th on, `live` is the longest suffix whose stored form fits
   in `n` bytes.
   */
  ghost predicate IsLongestFit(live: seq<Record>, ws: seq<Record>, t: nat, n: nat) {
    && IsSuffix(live, ws) && t + |live| <= |ws|
    && Footprint(live) <= n
    && forall j: nat :: t <= j < |ws| - |live| ==> n < TailSize(ws, j)
  }

  /** One more record: evicting from the longest fit to make room gives the new longest fit. */
  lemma LongestFitSnoc(live: seq<Record>, ws: seq<Record>, t: nat, r: Record, n: nat)
    requires IsLongestFit(live, ws, t, n) && Accepts(n, r)
    ensures IsLongestFit(Evict(live, FrameSize(r), n) + [r], ws + [r], t, n)
  {
    var kept := Evict(live, FrameSize(r), n);
    EvictIsLeast(live, FrameSize(r), n);
    FramesSnoc(kept, r);
    SuffixTransitive(kept, live, ws);
    SuffixSnoc(kept, ws, r);
    forall j: nat | t <= j < |ws| - |kept|
      ensures n < TailSize(ws + [r], j)
    {
      TailSizeSnoc(ws, j, r);
      NoLongerTailFits(live, ws, t, FrameSize(r), n, j);
    }
  }

  lemma NoLongerTailFits(live: seq<Record>, ws: seq<Record>, t: nat, need: nat, n: nat, j: nat)
    requires IsLongestFit(live, ws, t, n) && need <= n
    requires t <= j < |ws| - |Evict(live, need, n)|
    ensures n < TailSize(ws, j) + need
  {
    hide Footprint, TailSize;
    var first := |ws| - |live|;
    if first <= j {
      LongerTailIsTooLong(live, need, n, j - first);
      TailSizeOfTail(ws, first, j - first);
    }
  }

  lemma TailSizeSnoc(ws: seq<Record>, k: nat, r: Record)
    requires k <= |ws|
    ensures TailSize(ws + [r], k) == TailSize(ws, k) + FrameSize(r)
  {
    assert (ws + [r])[k..] == ws[k..] + [r];
    FramesSnoc(ws[k..], r);
  }

  lemma NothingIsLongestFit(ws: seq<Record>, n: nat)
    ensures IsLongestFit([], ws, |ws|, n)
  {
  }

  /** The log is always a suffix of what was written. */
  lemma {:induction false} RunIsSuffix(ws: seq<Record>, n: nat)
    ensures IsSuffix(Run(ws, n), ws)
  {
    if ws != [] {
      var before, r := ws[..|ws| - 1], ws[|ws| - 1];
      assert before + [r] == ws;
      RunIsSuffix(before, n);
      RunSnoc(before, r, n);
      AfterWriteIsSuffix(Run(before, n), before, r, n);
    }
  }

  /** At any time the log is the longest fit among the records since the last exact fill. */
  lemma {:induction false} RunIsLongestFitSinceFill(ws: seq<Record>, n: nat)
    requires AllAccepted(ws, n)
    ensures IsLongestFit(Run(ws, n), ws, LastExactFill(ws, n), n)
  {
    if ws != [] {
      var before, r := ws[..|ws| - 1], ws[|ws| - 1];
      assert before + [r] == ws;
      RunIsLongestFitSinceFill(before, n);
      RunSnoc(before, r, n);
      if ExactFill(Run(before, n), r, n) {
        NothingIsLongestFit(ws, n);
      } else {
        LongestFitSnoc(Run(before, n), before, LastExactFill(before, n), r, n);
      }
    }
  }

  ////////// The same from the sizes alone //////////

  /** The bytes that the records from the `i`-th up to the `j`-th take. */
  function RangeSize(ws: seq<Record>, i: nat, j: nat): nat
    requires i <= j <= |ws|
  {
    Footprint(ws[i..j])
  }

  /** No consecutive records of `ws` take exactly `n` bytes together. */
  ghost predicate NoRangeFills(ws: seq<Record>, n: nat) {
    forall i: nat, j: nat :: i < j <= |ws| ==> RangeSize(ws, i, j) != n
  }

  /** The last place up to which some records since the last such place take exactly `n` bytes. */
  ghost function LastFill(ws: seq<Record>, n: nat): (t: nat)
    ensures t <= |ws|
  {
    if ws == [] then 0
    else
      var t := LastFill(ws[..|ws| - 1], n);
      if exists i: nat :: t <= i < |ws| && TailSize(ws, i) == n then |ws| else t
  }

  /** A write fills the ring exactly iff some records that end with it take exactly the ring. */
  lemma ExactFillIff(live: seq<Record>, before: seq<Record>, t: nat, r: Record, n: nat)
    requires IsLongestFit(live, before, t, n) && Accepts(n, r)
    ensures ExactFill(live, r, n) <==> exists i: nat :: t <= i <= |before| && TailSize(before + [r], i) == n
  {
    var kept := Evict(live, FrameSize(r), n);
    LongestFitSnoc(live, before, t, r, n);
    FramesSnoc(kept, r);
    FitsExactlyIff(kept + [r], before + [r], t, n);
  }

  lemma FitsExactlyIff(live: seq<Record>, ws: seq<Record>, t: nat, n: nat)
    requires IsLongestFit(live, ws, t, n) && live != []
    ensures Footprint(live) == n <==> exists i: nat :: t <= i < |ws| && TailSize(ws, i) == n
  {
    hide TailSize, Footprint;
    var first := |ws| - |live|;
    TailIsSuffix(live, ws);
    if i: nat :| t <= i < |ws| && TailSize(ws, i) == n {
      if first < i {
        TailSizeDecreases(ws, first, i);
      }
    }
  }

  lemma TailIsSuffix(s: seq<Record>, ws: seq<Record>)
    requires IsSuffix(s, ws)
    ensures TailSize(ws, |ws| - |s|) == Footprint(s)
  {
  }

  /** Replaying the writes finds the exact fills where the sizes put them. */
  lemma {:induction false} FillsFollowFromSizes(ws: seq<Record>, n: nat)
    requires AllAccepted(ws, n)
    ensures LastExactFill(ws, n) == LastFill(ws, n)
  {
    hide Run, AfterWrite, ExactFill, TailSize, IsLongestFit;
    if ws != [] {
      var before, r := ws[..|ws| - 1], ws[|ws| - 1];
      assert before + [r] == ws;
      FillsFollowFromSizes(before, n);
      RunIsLongestFitSinceFill(before, n);
      ExactFillIff(Run(before, n), before, LastExactFill(before, n), r, n);
    }
  }

  lemma {:induction false} NoFillIffNoRangeFills(ws: seq<Record>, n: nat)
    ensures LastFill(ws, n) == 0 <==> NoRangeFills(ws, n)
  {
    hide TailSize, RangeSize;
    if ws != [] {
      var before := ws[..|ws| - 1];
      NoFillIffNoRangeFills(before, n);
      forall i: nat, j: nat | i < j <= |before|
        ensures RangeSize(ws, i, j) == RangeSize(before, i, j)
      {
        RangesOfPrefix(ws, i, j);
      }
      forall i: nat | i < |ws|
        ensures RangeSize(ws, i, |ws|) == TailSize(ws, i)
      {
        RangesOfPrefix(ws, i, |ws|);
      }
    }
  }

  lemma RangesOfPrefix(ws: seq<Record>, i: nat, j: nat)
    requires i < j <= |ws|
    ensures if j < |ws| then RangeSize(ws, i, j) == RangeSize(ws[..|ws| - 1], i, j)
            else RangeSize(ws, i, j) == TailSize(ws, i)
  {
    assert j < |ws| ==> ws[..|ws| - 1][i..j] == ws[i..j];
    assert j == |ws| ==> ws[i..j] == ws[i..];
  }

  /** As long as no consecutive records take exactly the ring, the log is the longest suffix that fits. */
  lemma MaximalRetention(ws: seq<Record>, n: nat)
    requires AllAccepted(ws, n) && NoRangeFills(ws, n)
    ensures LastExactFill(ws, n) == 0 && IsLongestFit(Run(ws, n), ws, 0, n)
  {
    NoFillIffNoRangeFills(ws, n);
    FillsFollowFromSizes(ws, n);
    RunIsLongestFitSinceFill(ws, n);
  }

  /**
   Exactly when the log is the longest suffix that fits, told from the sizes of the records: none of
   their ranges fills the ring exactly, or the records from the last fill on no longer fit anyway.
   */
  lemma RetentionIsMaximalIff(ws: seq<Record>, n: nat)
    requires AllAccepted(ws, n)
    ensures LastExactFill(ws, n) == LastFill(ws, n) && (LastFill(ws, n) == 0 <==> NoRangeFills(ws, n))
    ensures var t := LastFill(ws, n);
      IsLongestFit(Run(ws, n), ws, 0, n) <==> (t == 0 || n < TailSize(ws, t - 1))
  {
    hide Run, LastFill, LastExactFill, IsLongestFit, TailSize;
    NoFillIffNoRangeFills(ws, n);
    FillsFollowFromSizes(ws, n);
    RunIsLongestFitSinceFill(ws, n);
    LongestFitSinceIff(Run(ws, n), ws, LastExactFill(ws, n), n);
  }

  lemma LongestFitSinceIff(live: seq<Record>, ws: seq<Record>, t: nat, n: nat)
    requires IsLongestFit(live, ws, t, n)
    ensures IsLongestFit(live, ws, 0, n) <==> (t == 0 || n < TailSize(ws, t - 1))
  {
    if 0 < t && n < TailSize(ws, t - 1) {
      forall j: nat | j < |ws| - |live|
        ensures n < TailSize(ws, j)
      {
        if j < t {
          TailSizeDecreases(ws, j, t - 1);
        }
      }
    }
  }

  /** The log is everything that was written iff all of it together stays short of the ring. */
  lemma {:induction false} RunIsAllIff(ws: seq<Record>, n: nat)
    requires AllAccepted(ws, n) && 0 < n
    ensures Run(ws, n) == ws <==> Footprint(ws) < n
  {
    if ws == [] {
      NothingRuns(n);
    } else {
      hide Run, Footprint, Accepts;
      var before, r := ws[..|ws| - 1], ws[|ws| - 1];
      assert before + [r] == ws;
      assert Accepts(n, ws[|ws| - 1]);
      RunIsAllIff(before, n);
      OneMoreIsAllIff(before, r, n);
    }
  }

  lemma OneMoreIsAllIff(before: seq<Record>, r: Record, n: nat)
    requires Accepts(n, r) && (Run(before, n) == before <==> Footprint(before) < n)
    ensures Run(before + [r], n) == before + [r] <==> Footprint(before + [r]) < n
  {
    hide Run, LastExactFill, AfterWrite, ExactFill, Accepts, Footprint, FrameSize;
    RunSnoc(before, r, n);
    RunIsSuffix(before, n);
    FramesSnoc(before, r);
    AfterWriteIsAllIff(Run(before, n), before, r, n);
  }

  lemma NothingRuns(n: nat)
    ensures Run([], n) == [] && Footprint([]) == 0
  {
  }

  lemma AfterWriteIsAllIff(live: seq<Record>, before: seq<Record>, r: Record, n: nat)
    requires IsSuffix(live, before) && Accepts(n, r)
    ensures AfterWrite(live, r, n) == before + [r] <==> live == before && Footprint(before) + FrameSize(r) < n
  {
    hide Footprint, FrameSize;
    var kept := Evict(live, FrameSize(r), n);
    EvictIsLeast(live, FrameSize(r), n);
    if AfterWrite(live, r, n) == before + [r] {
      assert (before + [r])[..|before|] == before && (kept + [r])[..|kept|] == kept;
    }
  }

  /** Two records of 13 stored bytes each into 26 bytes: both fit, and the log ends up empty. */
  lemma ExactFillForgetsEverything(a: Record, b: Record)
    requires |a| == 12 && |b| == 12
    ensures AllAccepted([a, b], 26) && TailSize([a, b], 0) == 26
    ensures Run([a, b], 26) == [] && LastExactFill([a, b], 26) == 2
    ensures !IsLongestFit(Run([a, b], 26), [a, b], 0, 26)
  {
    hide FrameSize, Evict, AfterWrite, ExactFill;
    assert [a, b] == [a] + [b] && [a] == [] + [a] && [a, b][0..] == [a, b];
    TwelveBytes(a);
    TwelveBytes(b);
    FootprintConcat([a], [b]);
    RunSnoc([], a, 26);
    RunSnoc([a], b, 26);
    FirstIsKept(a);
    SecondFills([a], b);
    assert !(26 < TailSize([a, b], 0));
  }

  lemma FirstIsKept(a: Record)
    requires FrameSize(a) == 13
    ensures AfterWrite([], a, 26) == [a] && !ExactFill([], a, 26)
  {
  }

  lemma SecondFills(live: seq<Record>, b: Record)
    requires Footprint(live) == 13 && FrameSize(b) == 13
    ensures AfterWrite(live, b, 26) == [] && ExactFill(live, b, 26)
  {
  }

  lemma TwelveBytes(r: Record)
    requires |r| == 12
    ensures FrameSize(r) == 13 && Footprint([r]) == 13
  {
  }
}
