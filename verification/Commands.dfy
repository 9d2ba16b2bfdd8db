/** The two loops of the command line tool: append the lines of a stream, print the records. */
module Commands {
  import opened Bits
  import opened Varints
  import opened Rings
  import opened Records
  import opened Images
  import opened Retention
  import opened Ringfiles

  const NEWLINE: byte := 10

  /** The next line of a non-empty stream, without its newline; the last line may have none. */
  function FirstLine(input: seq<byte>): (line: seq<byte>)
    ensures |line| <= |input| && line == input[..|line|] && NEWLINE !in line
    ensures |line| < |input| ==> input[|line|] == NEWLINE
  {
    if input == [] || input[0] == NEWLINE then []
    else
      var rest := FirstLine(input[1..]);
      assert input[..|rest| + 1] == [input[0]] + rest;
      [input[0]] + rest
  }

  /** The stream behind its first line. */
  function AfterLine(input: seq<byte>): (rest: seq<byte>)
    requires input != []
    ensures |rest| < |input|
  {
    var k := |FirstLine(input)|;
    if k < |input| then input[k + 1..] else []
  }

  function Lines(input: seq<byte>): seq<seq<byte>>
    decreases |input|
  {
    if input == [] then [] else [FirstLine(input)] + Lines(AfterLine(input))
  }

  lemma NoLines()
    ensures Lines([]) == []
  {
  }

  lemma NextLine(input: seq<byte>)
    requires input != []
    ensures Lines(input) == [FirstLine(input)] + Lines(AfterLine(input))
  {
  }

  function Printed(rs: seq<Record>): seq<byte> {
    if rs == [] then [] else Printed(rs[..|rs| - 1]) + rs[|rs| - 1] + [NEWLINE]
  }

  lemma {:induction false} FirstLineIs(line: seq<byte>, input: seq<byte>)
    requires NEWLINE !in line && line + [NEWLINE] <= input
    ensures FirstLine(input) == line && AfterLine(input) == input[|line| + 1..]
  {
    if line == [] {
      assert input[0] == NEWLINE;
    } else {
      assert input[0] == line[0] && input[1..][..|line|] == line[1..] + [NEWLINE];
      FirstLineIs(line[1..], input[1..]);
    }
  }

  lemma NothingPrinted()
    ensures Printed([]) == []
  {
  }

  lemma PrintedSnoc(rs: seq<Record>, r: Record)
    ensures Printed(rs + [r]) == Printed(rs) + r + [NEWLINE]
  {
  }

  lemma {:induction false} PrintedCons(r: Record, rs: seq<Record>)
    ensures Printed([r] + rs) == r + [NEWLINE] + Printed(rs)
  {
    if rs == [] {
      assert [r] + rs == [r] && [r][..0] == [];
    } else {
      var all := [r] + rs;
      assert all[..|all| - 1] == [r] + rs[..|rs| - 1];
      PrintedCons(r, rs[..|rs| - 1]);
    }
  }

  /** Printed records split back into what they were, as long as none holds a newline. */
  lemma {:induction false} LinesOfPrinted(rs: seq<Record>)
    requires forall r :: r in rs ==> NEWLINE !in r
    ensures Lines(Printed(rs)) == rs
  {
    if rs != [] {
      var r, rest := rs[0], rs[1..];
      assert rs == [r] + rest;
      PrintedCons(r, rest);
      FirstLineIs(r, Printed(rs));
      assert Printed(rs)[|r| + 1..] == Printed(rest);
      LinesOfPrinted(rest);
    }
  }

  /**
   Printed again, the lines of a stream are the stream, with a newline added where the last line has
   none: no byte is lost, repeated or invented.
   */
  lemma {:induction false} PrintedLines(input: seq<byte>)
    ensures Printed(Lines(input))
         == if input == [] || input[|input| - 1] == NEWLINE then input else input + [NEWLINE]
    decreases |input|
  {
    if input == [] {
      NoLines();
      NothingPrinted();
    } else {
      hide Lines, Printed, FirstLine, AfterLine;
      var line, rest := FirstLine(input), AfterLine(input);
      NextLine(input);
      PrintedCons(line, Lines(rest));
      PrintedLines(rest);
      LineAndRest(input);
      if rest == [] {
        NoLines();
        NothingPrinted();
        assert line + [NEWLINE] + [] == line + [NEWLINE];
      } else {
        Joined(line, [NEWLINE], rest);
      }
    }
  }

  /** A stream is its first line, the newline behind it if there is one, and the rest. */
  lemma LineAndRest(input: seq<byte>)
    requires input != []
    ensures var line, rest := FirstLine(input), AfterLine(input);
      if |line| == |input| then line == input && rest == [] && input[|input| - 1] != NEWLINE
      else input == line + [NEWLINE] + rest && (rest == [] ==> input[|input| - 1] == NEWLINE)
  {
    hide Lines, FirstLine;
    var line, k := FirstLine(input), |FirstLine(input)|;
    if k == |input| {
      assert input[|input| - 1] in line;
    } else {
      SplitAt(input, k);
    }
  }

  lemma SplitAt(s: seq<byte>, k: nat)
    requires k < |s|
    ensures s == s[..k] + [s[k]] + s[k + 1..]
  {
  }

  lemma Joined(line: seq<byte>, newline: seq<byte>, rest: seq<byte>)
    requires rest != []
    ensures (line + newline + rest)[|line + newline + rest| - 1] == rest[|rest| - 1]
    ensures line + newline + (rest + newline) == line + newline + rest + newline
  {
  }

  lemma {:induction false} LinesHaveNoNewline(input: seq<byte>)
    ensures forall line :: line in Lines(input) ==> NEWLINE !in line
    decreases |input|
  {
    if input != [] {
      LinesHaveNoNewline(AfterLine(input));
    }
  }

  /** The lines up to the first that a ring of `n` bytes refuses. */
  function Taken(lines: seq<seq<byte>>, n: nat): (taken: seq<seq<byte>>)
    ensures taken <= lines
    ensures AllAccepted(taken, n)
    ensures |taken| < |lines| ==> !Accepts(n, lines[|taken|])
  {
    if lines == [] || !Accepts(n, lines[0]) then [] else [lines[0]] + Taken(lines[1..], n)
  }

  lemma {:induction false} TakenIs(lines: seq<seq<byte>>, done: seq<seq<byte>>, n: nat)
    requires done <= lines && AllAccepted(done, n)
    requires |done| < |lines| ==> !Accepts(n, lines[|done|])
    ensures Taken(lines, n) == done
  {
  }

  lemma NoneAccepted(n: nat)
    ensures AllAccepted([], n)
  {
  }

  /** One line more is done. */
  lemma OneMoreLine(past: seq<Record>, done: seq<Record>, line: Record, rest: seq<Record>, n: nat)
    ensures var all := done + ([line] + rest);
      line == all[|done|] && line in all && done <= all && all == done + [line] + rest
    ensures past + done + [line] == past + (done + [line])
    ensures AllAccepted(done, n) && Accepts(n, line) ==> AllAccepted(done + [line], n)
  {
    var all := done + ([line] + rest);
    assert all[|done|] == line;
  }

  /**
   Appends each line of `stdin` as a record and stops at the first that is refused. `past` is what
   earlier sessions wrote.
   */
  method Write(ring: Ringfile, stdin: seq<byte>, ghost past: seq<Record>) returns (ok: bool)
    requires ring.Valid() && ring.streamingWriteOffset == 0
    requires ring.file.live == Run(past, ring.BytesMax())
    requires forall line :: line in Lines(stdin) ==> line != []
    requires |stdin| + MAX_SIZE + 1 < TWO_TO_THE_64
    modifies ring.file, ring.file.data
    ensures ring.Valid()
    ensures ok == (Taken(Lines(stdin), ring.BytesMax()) == Lines(stdin))
    ensures ring.file.live == Run(past + Taken(Lines(stdin), ring.BytesMax()), ring.BytesMax())
  {
    hide Run, AfterWrite, Accepts, AllAccepted, Taken, WriteImage, WriteSteps, IsSafeTrace, Image.Holds, FirstLine,
      AfterLine, Lines;
    ghost var n, all := ring.BytesMax(), Lines(stdin);
    NoneAccepted(n);
    ghost var done: seq<Record> := [];
    var input := stdin;
    assert past + [] == past;
    while input != []
      invariant ring.Valid() && |input| <= |stdin|
      invariant all == done + Lines(input) && AllAccepted(done, n)
      invariant ring.file.live == Run(past + done, n)
      decreases |input|
    {
      NextLine(input);
      var line := FirstLine(input);
      OneMoreLine(past, done, line, Lines(AfterLine(input)), n);
      var accepted := ring.Write(line);
      if !accepted {
        TakenIs(all, done, n);
        return false;
      }
      RunSnoc(past + done, line, n);
      done := done + [line];
      input := AfterLine(input);
    }
    NoLines();
    TakenIs(all, done, n);
    ok := true;
  }

  /** Prints every record, oldest first, each on a line of its own. */
  method Read(file: Storage) returns (stdout: seq<byte>)
    requires file.Valid() && forall r :: r in file.live ==> r != []
    ensures stdout == Printed(file.live)
  {
    hide Footprint, Frames, Frame, FrameSize, Window, Image.Bytes, Image.Used, Image.Holds, Distance, Printed;
    NothingPrinted();
    var ring := new Ringfile.Open(file);
    ghost var rest, done := file.live, [];
    assert [] + file.live == file.live;
    ring.RemainingDistance(rest);
    stdout := [];
    while true
      invariant ring.file == file && ring.Remaining(rest)
      invariant fresh(ring) && file.live == done + rest && stdout == Printed(done)
      invariant ring.readOffset < ring.BytesMax() && file.endOffset < ring.BytesMax()
      invariant Distance(ring.readOffset, file.endOffset, ring.BytesMax()) == Footprint(rest)
      decreases Distance(ring.readOffset, file.endOffset, ring.BytesMax())
    {
      var more, size := ring.NextRecordSize(rest);
      if !more {
        break;
      }
      assert rest[0] in file.live;
      var record := new byte[size];
      var ok := ring.Read(record, rest);
      assert ok && record[..] == record[..|rest[0]|] == rest[0];
      ring.RemainingDistance(rest[1..]);
      FootprintDecreases(rest);
      stdout := stdout + record[..] + [NEWLINE];
      PrintedSnoc(done, rest[0]);
      done, rest := done + [rest[0]], rest[1..];
    }
    assert done == file.live;
  }

  /** How many records the first `i` of `parts` have. */
  function CountBefore(parts: seq<seq<Record>>, i: nat): nat
    requires i <= |parts|
  {
    if i == 0 then 0 else CountBefore(parts, i - 1) + |parts[i - 1]|
  }

  /** `all` is the first of `parts`, then the second, and so on to the last. */
  ghost predicate InOrder(all: seq<Record>, parts: seq<seq<Record>>) {
    && |all| == CountBefore(parts, |parts|)
    && forall i, k :: 0 <= i < |parts| && 0 <= k < |parts[i]| ==>
         IsPlacedAt(all, CountBefore(parts, i) + k, parts[i][k])
  }

  predicate IsPlacedAt(all: seq<Record>, j: nat, r: Record) {
    j < |all| && all[j] == r
  }

  /** The bytes that the records of all `parts` take. */
  function TotalSize(parts: seq<seq<Record>>): nat {
    if parts == [] then 0 else TotalSize(parts[..|parts| - 1]) + Footprint(parts[|parts| - 1])
  }

  lemma {:induction false} CountBeforeOfPrefix(parts: seq<seq<Record>>, m: nat, i: nat)
    requires i <= m <= |parts|
    ensures CountBefore(parts[..m], i) == CountBefore(parts, i)
  {
    if 0 < i {
      CountBeforeOfPrefix(parts, m, i - 1);
    }
  }

  lemma InOrderSnoc(all: seq<Record>, parts: seq<seq<Record>>, part: seq<Record>)
    requires InOrder(all, parts)
    ensures InOrder(all + part, parts + [part])
  {
    var more := parts + [part];
    assert more[..|parts|] == parts;
    forall i | 0 <= i <= |parts|
      ensures CountBefore(more, i) == CountBefore(parts, i)
    {
      CountBeforeOfPrefix(more, |parts|, i);
    }
  }

  /** The lines of each session. */
  function LinesOf(inputs: seq<seq<byte>>): seq<seq<Record>> {
    seq(|inputs|, i requires 0 <= i < |inputs| => Lines(inputs[i]))
  }

  /** What each session gets into a ring of `n` bytes. */
  function TakenOf(inputs: seq<seq<byte>>, n: nat): seq<seq<Record>> {
    seq(|inputs|, i requires 0 <= i < |inputs| => Taken(Lines(inputs[i]), n))
  }

  /** Everything that the sessions in order get into a ring of `n` bytes. */
  function AllTaken(inputs: seq<seq<byte>>, n: nat): seq<Record> {
    if inputs == [] then []
    else AllTaken(inputs[..|inputs| - 1], n) + Taken(Lines(inputs[|inputs| - 1]), n)
  }

  lemma {:induction false} AllTakenIsInOrder(inputs: seq<seq<byte>>, n: nat)
    ensures InOrder(AllTaken(inputs, n), TakenOf(inputs, n))
    ensures Footprint(AllTaken(inputs, n)) == TotalSize(TakenOf(inputs, n))
  {
    hide Taken, Lines, Footprint, InOrder;
    if inputs == [] {
      NothingIsInOrder();
    } else {
      var before, last := inputs[..|inputs| - 1], Taken(Lines(inputs[|inputs| - 1]), n);
      AllTakenIsInOrder(before, n);
      InOrderSnoc(AllTaken(before, n), TakenOf(before, n), last);
      assert TakenOf(inputs, n) == TakenOf(before, n) + [last];
      assert (TakenOf(before, n) + [last])[..|before|] == TakenOf(before, n);
      FootprintConcat(AllTaken(before, n), last);
    }
  }

  /** A ring that takes every line takes the lines of each session. */
  lemma TakenOfAccepted(inputs: seq<seq<byte>>, n: nat)
    requires forall i :: 0 <= i < |inputs| ==> AllAccepted(Lines(inputs[i]), n)
    ensures TakenOf(inputs, n) == LinesOf(inputs)
  {
    hide Taken, Lines, Accepts;
    forall i | 0 <= i < |inputs|
      ensures Taken(Lines(inputs[i]), n) == Lines(inputs[i])
    {
      TakenIs(Lines(inputs[i]), Lines(inputs[i]), n);
    }
  }

  /** Records out of some order are in that order iff nothing is missing, which is as long as all fits. */
  lemma RunIsInOrderIff(inputs: seq<seq<byte>>, n: nat)
    requires 0 < n && AllAccepted(AllTaken(inputs, n), n)
    ensures InOrder(Run(AllTaken(inputs, n), n), TakenOf(inputs, n)) <==> TotalSize(TakenOf(inputs, n)) < n
  {
    hide Footprint, Run, TotalSize;
    var all := AllTaken(inputs, n);
    AllTakenIsInOrder(inputs, n);
    RunIsAllIff(all, n);
    RunIsSuffix(all, n);
  }

  lemma NothingIsInOrder()
    ensures InOrder([], []) && Footprint([]) == 0
  {
  }

  lemma {:induction false} AllTakenArePrintable(inputs: seq<seq<byte>>, n: nat)
    requires forall i :: 0 <= i < |inputs| ==> forall line :: line in Lines(inputs[i]) ==> line != []
    ensures forall r :: r in AllTaken(inputs, n) ==> r != [] && NEWLINE !in r
    ensures AllAccepted(AllTaken(inputs, n), n)
  {
    if inputs != [] {
      var last := inputs[|inputs| - 1];
      LinesHaveNoNewline(last);
      AllTakenArePrintable(inputs[..|inputs| - 1], n);
      forall r | r in Taken(Lines(last), n)
        ensures r in Lines(last)
      {
      }
    }
  }

  /** What a ring retains of lines can be printed and split again. */
  lemma PrintableRun(all: seq<Record>, n: nat)
    requires (forall r :: r in all ==> r != [] && NEWLINE !in r) && AllAccepted(all, n)
    ensures forall r :: r in Run(all, n) ==> r != []
    ensures Lines(Printed(Run(all, n))) == Run(all, n) && IsSuffix(Run(all, n), all)
    ensures IsLongestFit(Run(all, n), all, 0, n) <==> (LastFill(all, n) == 0 || n < TailSize(all, LastFill(all, n) - 1))
  {
    hide LastFill, TailSize, IsLongestFit, Run, Lines, Printed;
    RunIsSuffix(all, n);
    RetentionIsMaximalIff(all, n);
    forall r | r in Run(all, n)
      ensures r in all
    {
    }
    LinesOfPrinted(Run(all, n));
  }

  /**
   Lines piped in over any number of sessions and printed out again: what comes out splits back into
   exactly the records that the ring retains, the last so many of the lines it took, and as many of them
   as fit unless the ring was filled exactly in between. As long as all of them together stay short of
   the ring, and no longer, it is every line of every session, in order.
   */
  method PipeInPipeOut(size: nat, inputs: seq<seq<byte>>) returns (stdout: seq<byte>)
    requires HEADER_SIZE + MIN_CAPACITY <= size <= HEADER_SIZE + MAX_CAPACITY && inputs != []
    requires forall i :: 0 <= i < |inputs| ==> |inputs[i]| + MAX_SIZE + 1 < TWO_TO_THE_64
    requires forall i :: 0 <= i < |inputs| ==> forall line :: line in Lines(inputs[i]) ==> line != []
    ensures Lines(stdout) == Run(AllTaken(inputs, size - HEADER_SIZE), size - HEADER_SIZE)
    ensures IsSuffix(Lines(stdout), AllTaken(inputs, size - HEADER_SIZE))
    ensures var all, n := AllTaken(inputs, size - HEADER_SIZE), size - HEADER_SIZE;
      IsLongestFit(Lines(stdout), all, 0, n) <==> (LastFill(all, n) == 0 || n < TailSize(all, LastFill(all, n) - 1))
    ensures InOrder(Lines(stdout), TakenOf(inputs, size - HEADER_SIZE)) <==>
            TotalSize(TakenOf(inputs, size - HEADER_SIZE)) < size - HEADER_SIZE
    ensures (forall i :: 0 <= i < |inputs| ==> AllAccepted(Lines(inputs[i]), size - HEADER_SIZE)) ==>
      (InOrder(Lines(stdout), LinesOf(inputs)) <==> TotalSize(LinesOf(inputs)) < size - HEADER_SIZE)
  {
    hide LastFill, TailSize, IsLongestFit, Run, Taken, Image.Holds, Lines, Printed, FirstLine, InOrder, TotalSize,
      TakenOf, LinesOf, AllAccepted;
    ghost var n := size - HEADER_SIZE;
    var ring := new Ringfile.Create(size);
    EmptyRun(n);
    for i := 0 to |inputs|
      invariant fresh(ring) && fresh(ring.file) && fresh(ring.file.data)
      invariant ring.Valid() && ring.streamingWriteOffset == 0 && ring.BytesMax() == n
      invariant ring.file.live == Run(AllTaken(inputs[..i], n), n)
    {
      if i != 0 {
        ring := new Ringfile.Open(ring.file);
      }
      var ok := Write(ring, inputs[i], AllTaken(inputs[..i], n));
      assert inputs[..i + 1][..i] == inputs[..i];
    }
    assert inputs[..|inputs|] == inputs;
    ghost var all := AllTaken(inputs, n);
    AllTakenArePrintable(inputs, n);
    PrintableRun(all, n);
    RunIsInOrderIff(inputs, n);
    if forall i :: 0 <= i < |inputs| ==> AllAccepted(Lines(inputs[i]), n) {
      TakenOfAccepted(inputs, n);
    }
    stdout := Read(ring.file);
  }

  lemma EmptyRun(n: nat)
    ensures Run(AllTaken([], n), n) == []
  {
  }
}
