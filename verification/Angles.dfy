/**
 Matching started at an angle bracket. The two matchers agree on a `<` and a `>` as long as their rules
 of thumb agree on every angle bracket from the one to the other.
 */
module Angles {
  import opened Brackets
  import opened Characters
  import opened Matchers

  ////////// Where the rules of thumb differ //////////

  /** The forward matcher takes the `>` at `i` for part of an operator. */
  predicate IgnoredForward(line: string, i: nat)
    requires i < |line|
  {
    0 < i && (line[i - 1] == '-' || EndsWithOperator(line[..i - 1]))
  }

  /** The backward matcher takes the `>` at `i` for part of an operator. */
  predicate IgnoredBackward(line: string, i: nat)
    requires i < |line|
  {
    0 < i && (line[i - 1] == '-' || StartsWithSpacedAtLeast(line[i - 1..]) || EndsWithOperator(line[..i]))
  }

  /** The `<` at `i` is one of two in a row. */
  predicate InShift(line: string, i: nat)
    requires i < |line|
  {
    line[i] == '<' && ((0 < i && line[i - 1] == '<') || (i + 1 < |line| && line[i + 1] == '<'))
  }

  /**
   The character at `i` is not the last of three `<` in a row, not a `<` behind an `operator`, and not a
   `>` that one matcher takes for part of an operator and the other does not.
   */
  predicate IsClearAt(line: string, i: nat)
    requires i < |line|
  {
    && (line[i] == '<' && 0 < i ==>
          if line[i - 1] == '<' then i == 1 || line[i - 2] != '<' else !EndsWithOperator(line[..i]))
    && (line[i] == '>' ==> (IgnoredForward(line, i) <==> IgnoredBackward(line, i)))
  }

  /** The `i`-th place in line `l` lies before the `j`-th in line `k`. */
  predicate Before(l: nat, i: nat, k: nat, j: nat) {
    l < k || (l == k && i < j)
  }

  /** All characters from the `i`-th of line `l` up to the `j`-th of line `k`, without that, are clear. */
  predicate AreClear(lines: seq<string>, l: nat, i: nat, k: nat, j: nat) {
    forall m, x :: 0 <= m < |lines| && 0 <= x < |lines[m]| && !Before(m, x, l, i) && Before(m, x, k, j) ==>
      IsClearAt(lines[m], x)
  }

  /** The character at `i`, with shifts and ignored `>` blanked out. */
  function CharAt(line: string, i: nat): char
    requires i < |line|
  {
    if (line[i] == '>' && IgnoredForward(line, i)) || InShift(line, i) then ' ' else line[i]
  }

  ////////// Matching of angle brackets at the level they stand at //////////

  /** So many angle brackets are pending, and above them these real brackets. */
  datatype Nest = Nest(reals: seq<char>, angles: nat)

  datatype NestStep = Onward(nest: Nest) | Halt(found: bool)

  /** Inside real brackets only real brackets count; outside, angle brackets do, and `;` ends it. */
  function NestForwardStep(c: char, s: Nest): NestStep {
    if s.reals != [] then
      match PlainForwardStep(c, s.reals)
      case Go(reals) => Onward(Nest(reals, s.angles))
      case Stop(found) => if found then Onward(Nest([], s.angles)) else Halt(false)
    else if IsOpener(c) then Onward(Nest([c], s.angles))
    else if c == '<' then Onward(Nest([], s.angles + 1))
    else if c == '>' then if s.angles <= 1 then Halt(true) else Onward(Nest([], s.angles - 1))
    else if IsCloser(c) || c == ';' then Halt(false)
    else Onward(s)
  }

  function NestBackwardStep(c: char, s: Nest): NestStep {
    if s.reals != [] then
      match PlainBackwardStep(c, s.reals)
      case Go(reals) => Onward(Nest(reals, s.angles))
      case Stop(found) => if found then Onward(Nest([], s.angles)) else Halt(false)
    else if IsCloser(c) then Onward(Nest([c], s.angles))
    else if c == '>' then Onward(Nest([], s.angles + 1))
    else if c == '<' then if s.angles <= 1 then Halt(true) else Onward(Nest([], s.angles - 1))
    else if IsOpener(c) || c == ';' then Halt(false)
    else Onward(s)
  }

  function NestForward(lines: seq<string>, l: nat, i: nat, s: Nest): Outcome
    requires l < |lines| && i <= |lines[l]|
    decreases |lines| - l, |lines[l]| - i
  {
    if i == |lines[l]| then
      if l + 1 == |lines| then Unclosed else NestForward(lines, l + 1, 0, s)
    else
      match NestForwardStep(CharAt(lines[l], i), s)
      case Onward(s') => NestForward(lines, l, i + 1, s')
      case Halt(found) => if found then Found(l, i + 1) else Mismatch
  }

  function NestBackward(lines: seq<string>, l: nat, i: nat, s: Nest): Outcome
    requires l < |lines| && i <= |lines[l]|
    decreases l, i
  {
    if i == 0 then
      if l == 0 then Unclosed else NestBackward(lines, l - 1, |lines[l - 1]|, s)
    else
      match NestBackwardStep(CharAt(lines[l], i - 1), s)
      case Onward(s') => NestBackward(lines, l, i - 1, s')
      case Halt(found) => if found then Found(l, i - 1) else Mismatch
  }

  ////////// The two scans undo each other //////////

  lemma NestBackwardStepUndoes(c: char, s: Nest)
    requires 1 <= s.angles && AllOpeners(s.reals)
    ensures match NestForwardStep(c, s)
            case Onward(s') =>
              && 1 <= s'.angles && AllOpeners(s'.reals)
              && NestBackwardStep(c, Nest(Mirror(s'.reals), s'.angles)) == Onward(Nest(Mirror(s.reals), s.angles))
            case Halt(found) => found ==>
              c == '>' && NestBackwardStep(c, Nest([], 0)) == Onward(Nest(Mirror(s.reals), s.angles))
  {
    if s.reals != [] {
      BackwardStepUndoesForwardStep(c, s.reals);
    }
    assert Mirror([]) == [] && Mirror([c]) == [Closing(c)];
  }

  lemma NestForwardStepUndoes(c: char, s: Nest)
    requires 1 <= s.angles && AllClosers(s.reals)
    ensures match NestBackwardStep(c, s)
            case Onward(s') =>
              && 1 <= s'.angles && AllClosers(s'.reals)
              && NestForwardStep(c, Nest(MirrorBack(s'.reals), s'.angles))
                 == Onward(Nest(MirrorBack(s.reals), s.angles))
            case Halt(found) => found ==>
              c == '<' && NestForwardStep(c, Nest([], 0)) == Onward(Nest(MirrorBack(s.reals), s.angles))
  {
    if s.reals != [] {
      ForwardStepUndoesBackwardStep(c, s.reals);
    }
    assert MirrorBack([]) == [] && MirrorBack([c]) == [Opening(c)];
  }

  lemma {:induction false} NestBackwardRetraces(lines: seq<string>, l: nat, i: nat, s: Nest)
    requires l < |lines| && i <= |lines[l]| && 1 <= s.angles && AllOpeners(s.reals)
    requires NestForward(lines, l, i, s).Found?
    ensures var end := NestForward(lines, l, i, s);
      && end.line < |lines| && 0 < end.pos <= |lines[end.line]| && CharAt(lines[end.line], end.pos - 1) == '>'
      && NestBackward(lines, end.line, end.pos, Nest([], 0))
         == NestBackward(lines, l, i, Nest(Mirror(s.reals), s.angles))
    decreases |lines| - l, |lines[l]| - i
  {
    if i == |lines[l]| {
      NestBackwardRetraces(lines, l + 1, 0, s);
    } else {
      NestBackwardStepUndoes(CharAt(lines[l], i), s);
      match NestForwardStep(CharAt(lines[l], i), s)
      case Onward(s') => NestBackwardRetraces(lines, l, i + 1, s');
      case Halt(_) =>
    }
  }

  lemma {:induction false} NestForwardRetraces(lines: seq<string>, l: nat, i: nat, s: Nest)
    requires l < |lines| && i <= |lines[l]| && 1 <= s.angles && AllClosers(s.reals)
    requires NestBackward(lines, l, i, s).Found?
    ensures var start := NestBackward(lines, l, i, s);
      && start.line < |lines| && start.pos < |lines[start.line]| && CharAt(lines[start.line], start.pos) == '<'
      && NestForward(lines, start.line, start.pos, Nest([], 0))
         == NestForward(lines, l, i, Nest(MirrorBack(s.reals), s.angles))
    decreases l, i
  {
    if i == 0 {
      NestForwardRetraces(lines, l - 1, |lines[l - 1]|, s);
    } else {
      NestForwardStepUndoes(CharAt(lines[l], i - 1), s);
      match NestBackwardStep(CharAt(lines[l], i - 1), s)
      case Onward(s') => NestForwardRetraces(lines, l, i - 1, s');
      case Halt(_) =>
    }
  }

  ////////// The matchers track nests //////////

  /** `stack` is `s.angles` pending angle brackets with a grounded stack of `s.reals` above them. */
  ghost predicate Tracks(stack: seq<char>, s: Nest, angle: char) {
    && 1 <= s.angles <= |stack|
    && (forall i :: 0 <= i < s.angles ==> stack[i] == angle)
    && if s.reals == [] then |stack| == s.angles
       else Grounded(stack[s.angles..], angle) && Real(stack[s.angles..]) == s.reals
  }

  lemma {:induction false} PopWhileAbove(below: seq<char>, stack: seq<char>, angle: char)
    requires PopWhile(stack, angle) != []
    ensures PopWhile(below + stack, angle) == below + PopWhile(stack, angle)
    decreases |stack|
  {
    if Top(stack) == angle {
      assert Rest(below + stack) == below + Rest(stack);
      PopWhileAbove(below, Rest(stack), angle);
    }
  }

  lemma {:induction false} PopAll(stack: seq<char>, angle: char)
    requires forall i :: 0 <= i < |stack| ==> stack[i] == angle
    ensures PopWhile(stack, angle) == []
    decreases |stack|
  {
    if stack != [] {
      PopAll(Rest(stack), angle);
    }
  }

  /** A stack below another makes no difference, except that the other may close without an end. */
  lemma ForwardStepAbove(line: string, i: nat, below: seq<char>, stack: seq<char>)
    requires i < |line| && below != [] && Grounded(stack, '<')
    ensures match ForwardStep(line, i, stack)
            case Go(s) => ForwardStep(line, i, below + stack) == Go(below + s)
            case Stop(found) => ForwardStep(line, i, below + stack) == if found then Go(below) else Stop(false)
  {
    hide EndsWithOperator, PopWhile, Real;
    PoppedStackIsGrounded(stack, '<');
    PopWhileAbove(below, stack, '<');
    var s := PopWhile(stack, '<');
    assert Rest(below + s) == below + Rest(s) && Rest(below + stack) == below + Rest(stack);
    assert below + stack + [line[i]] == below + (stack + [line[i]]);
    if Top(stack) == '<' {
      AnglePopped(stack, '<');
    }
  }

  lemma BackwardStepAbove(line: string, i: nat, below: seq<char>, stack: seq<char>)
    requires i < |line| && below != [] && Grounded(stack, '>')
    ensures BackwardStep(line, i, below + stack).width == BackwardStep(line, i, stack).width
    ensures match BackwardStep(line, i, stack).step
            case Go(s) => BackwardStep(line, i, below + stack).step == Go(below + s)
            case Stop(found) =>
              BackwardStep(line, i, below + stack).step == if found then Go(below) else Stop(false)
  {
    hide EndsWithOperator, StartsWithSpacedAtLeast, PopWhile, Real;
    PoppedStackIsGrounded(stack, '>');
    PopWhileAbove(below, stack, '>');
    var s := PopWhile(stack, '>');
    assert Rest(below + s) == below + Rest(s) && Rest(below + stack) == below + Rest(stack);
    assert below + stack + [line[i]] == below + (stack + [line[i]]);
    if Top(stack) == '>' {
      AnglePopped(stack, '>');
    }
  }

  /** A step of a matcher and the step on the nest it tracks come to the same. */
  ghost predicate StepAgrees(step: Step, nest: NestStep, angle: char) {
    match (step, nest)
    case (Go(stack), Onward(s)) => Tracks(stack, s, angle)
    case (Stop(found), Halt(found')) => found == found'
    case _ => false
  }

  lemma TracksAbove(below: seq<char>, above: seq<char>, reals: seq<char>, angle: char)
    requires below != [] && (forall i :: 0 <= i < |below| ==> below[i] == angle)
    requires Grounded(above, angle) && Real(above) == reals
    ensures Tracks(below + above, Nest(reals, |below|), angle)
  {
    hide Real;
    GroundedIsNotEmpty(above, angle);
    assert (below + above)[|below|..] == above;
  }

  lemma ForwardStepInside(line: string, i: nat, stack: seq<char>, s: Nest)
    requires i < |line| && Tracks(stack, s, '<') && s.reals != []
    ensures StepAgrees(ForwardStep(line, i, stack), NestForwardStep(CharAt(line, i), s), '<')
  {
    hide EndsWithOperator, StartsWithSpacedAtLeast, ForwardStep, Real;
    var below, above := stack[..s.angles], stack[s.angles..];
    assert stack == below + above;
    ForwardStepIsPlain(line, i, above);
    ForwardStepAbove(line, i, below, above);
    match ForwardStep(line, i, above)
    case Go(above') => TracksAbove(below, above', Real(above'), '<');
    case Stop(_) =>
  }

  lemma ForwardStepOutside(line: string, i: nat, stack: seq<char>, s: Nest)
    requires i < |line| && IsClearAt(line, i) && !InShift(line, i) && Tracks(stack, s, '<') && s.reals == []
    ensures StepAgrees(ForwardStep(line, i, stack), NestForwardStep(CharAt(line, i), s), '<')
  {
    hide EndsWithOperator, StartsWithSpacedAtLeast, PopWhile, Real;
    PopAll(stack, '<');
    if IsOpener(line[i]) {
      Alone(line[i]);
      TracksAbove(stack, [line[i]], [line[i]], '<');
    }
  }

  lemma BackwardStepInside(line: string, i: nat, stack: seq<char>, s: Nest)
    requires i < |line| && Tracks(stack, s, '>') && s.reals != []
    ensures StepAgrees(BackwardStep(line, i, stack).step, NestBackwardStep(CharAt(line, i), s), '>')
  {
    hide EndsWithOperator, StartsWithSpacedAtLeast, BackwardStep, Real;
    var below, above := stack[..s.angles], stack[s.angles..];
    assert stack == below + above;
    BackwardStepIsPlain(line, i, above);
    BackwardStepAbove(line, i, below, above);
    match BackwardStep(line, i, above).step
    case Go(above') => TracksAbove(below, above', Real(above'), '>');
    case Stop(_) =>
  }

  lemma BackwardStepOutside(line: string, i: nat, stack: seq<char>, s: Nest)
    requires i < |line| && IsClearAt(line, i) && !InShift(line, i) && Tracks(stack, s, '>') && s.reals == []
    ensures StepAgrees(BackwardStep(line, i, stack).step, NestBackwardStep(CharAt(line, i), s), '>')
  {
    hide EndsWithOperator, StartsWithSpacedAtLeast, PopWhile, Real;
    PopAll(stack, '>');
    if IsCloser(line[i]) {
      Alone(line[i]);
      TracksAbove(stack, [line[i]], [line[i]], '>');
    }
  }

  /** Neither matcher does anything at such a character. */
  predicate IsInert(c: char) {
    !IsBracket(c) && c != '<' && c != '>' && c != ';'
  }

  lemma OperatorEndsInert(s: string)
    requires EndsWithOperator(s)
    ensures s != [] && IsInert(s[|s| - 1])
  {
    var j :| 0 <= j <= |s| && IsOperatorAt(s, j);
    if j + 8 == |s| {
      assert s[|s| - 1] == s[j..j + 8][7];
    }
  }

  /** The gap before the `i`-th character is not inside a shift. */
  predicate OffShift(line: string, i: nat)
    requires i <= |line|
  {
    0 < i < |line| ==> !(line[i - 1] == '<' && line[i] == '<')
  }

  /** On clear text the backward matcher skips a second character only where it makes no difference. */
  lemma SkippedIsInert(line: string, i: nat, stack: seq<char>, s: Nest)
    requires i < |line| && IsClearAt(line, i) && BackwardStep(line, i, stack).width != 1
    ensures BackwardStep(line, i, stack) == BackwardStepResult(Go(stack), 2) && 0 < i
    ensures line[i] == '>' || line[i - 1] == '<'
    ensures NestBackwardStep(CharAt(line, i), s) == NestBackwardStep(CharAt(line, i - 1), s) == Onward(s)
    ensures OffShift(line, i - 1)
  {
    hide EndsWithOperator;
    if EndsWithOperator(line[..i]) {
      OperatorEndsInert(line[..i]);
    }
    assert line[i] == '<' || IsInert(line[i - 1]);
  }

  /** At a clear shift the forward matcher pushes at the first character and pops at the second. */
  lemma ForwardOverShift(lines: seq<string>, l: nat, i: nat, stack: seq<char>)
    requires l < |lines| && i + 1 < |lines[l]| && lines[l][i] == lines[l][i + 1] == '<'
    requires OffShift(lines[l], i) && IsClearAt(lines[l], i) && stack != []
    ensures Forward(lines, l, i, stack) == Forward(lines, l, i + 2, stack)
  {
    hide EndsWithOperator;
    var line, pushed := lines[l], stack + ['<'];
    assert Rest(pushed) == stack && Top(pushed) == '<';
    assert ForwardStep(line, i, stack) == Go(pushed);
    assert ForwardStep(line, i + 1, pushed) == Go(stack);
    assert ForwardInLine(line, i + 1, pushed) == ForwardInLine(line, i + 2, stack);
  }

  lemma NestOverShift(lines: seq<string>, l: nat, i: nat, s: Nest)
    requires l < |lines| && i + 1 < |lines[l]| && lines[l][i] == lines[l][i + 1] == '<'
    ensures NestForward(lines, l, i, s) == NestForward(lines, l, i + 2, s)
  {
    hide EndsWithOperator;
    assert NestForward(lines, l, i + 1, s) == NestForward(lines, l, i + 2, s);
  }

  ////////// Scanning from one place to another //////////

  predicate AngleAt(lines: seq<string>, l: nat, p: nat, angle: char) {
    l < |lines| && p < |lines[l]| && lines[l][p] == angle
  }

  /** There is a `<` at `(l, p)`, and it is not the second of a shift. */
  predicate StartsAngle(lines: seq<string>, l: nat, p: nat) {
    AngleAt(lines, l, p, '<') && (0 < p ==> lines[l][p - 1] != '<')
  }

  /** Both scans come to the same, or both get as far as the `j`-th place of line `k` with the same nest. */
  ghost predicate ForwardAgrees(result: Outcome, nest: Outcome, lines: seq<string>, k: nat, j: nat)
    requires k < |lines| && j <= |lines[k]|
  {
    || result == nest
    || exists stack, s ::
         Tracks(stack, s, '<') && result == Forward(lines, k, j, stack) && nest == NestForward(lines, k, j, s)
  }

  ghost predicate BackwardAgrees(result: Outcome, nest: Outcome, lines: seq<string>, k: nat, j: nat)
    requires k < |lines| && j <= |lines[k]|
  {
    || result == nest
    || exists stack, s ::
         Tracks(stack, s, '>') && result == Backward(lines, k, j, stack) && nest == NestBackward(lines, k, j, s)
  }

  /** A scan forward may be stopped at any place that does not tear a shift. */
  lemma {:induction false} ForwardTracks(lines: seq<string>, l: nat, i: nat, k: nat, j: nat,
                                         stack: seq<char>, s: Nest)
    requires l <= k < |lines| && i <= |lines[l]| && j <= |lines[k]| && !Before(k, j, l, i)
    requires AreClear(lines, l, i, k, j) && OffShift(lines[l], i) && OffShift(lines[k], j) && Tracks(stack, s, '<')
    ensures ForwardAgrees(Forward(lines, l, i, stack), NestForward(lines, l, i, s), lines, k, j)
    decreases |lines| - l, |lines[l]| - i
  {
    hide ForwardStep, NestForwardStep, EndsWithOperator, StartsWithSpacedAtLeast, IsClearAt, IgnoredForward;
    var line := lines[l];
    if l == k && i == j {
    } else if i == |line| {
      hide ForwardAgrees;
      ForwardTracks(lines, l + 1, 0, k, j, stack, s);
    } else if InShift(line, i) {
      hide ForwardAgrees;
      assert IsClearAt(line, i);
      ForwardOverShift(lines, l, i, stack);
      NestOverShift(lines, l, i, s);
      NoThreeInARow(lines, l, i, k, j);
      ForwardTracks(lines, l, i + 2, k, j, stack, s);
    } else {
      assert IsClearAt(line, i);
      ForwardStepTracks(line, i, stack, s);
      match (ForwardStep(line, i, stack), NestForwardStep(CharAt(line, i), s))
      case (Go(stack'), Onward(s')) =>
        hide ForwardAgrees;
        ForwardTracks(lines, l, i + 1, k, j, stack', s');
      case _ =>
    }
  }

  lemma NoThreeInARow(lines: seq<string>, l: nat, i: nat, k: nat, j: nat)
    requires l <= k < |lines| && i < |lines[l]| && j <= |lines[k]| && Before(l, i, k, j)
    requires AreClear(lines, l, i, k, j) && OffShift(lines[l], i) && OffShift(lines[k], j) && InShift(lines[l], i)
    ensures i + 1 < |lines[l]| && lines[l][i + 1] == '<' && OffShift(lines[l], i + 2) && !Before(k, j, l, i + 2)
  {
    hide EndsWithOperator, StartsWithSpacedAtLeast;
    if i + 2 < |lines[l]| && Before(l, i + 2, k, j) {
      assert IsClearAt(lines[l], i + 2);
    }
  }

  lemma ForwardStepTracks(line: string, i: nat, stack: seq<char>, s: Nest)
    requires i < |line| && IsClearAt(line, i) && !InShift(line, i) && Tracks(stack, s, '<')
    ensures StepAgrees(ForwardStep(line, i, stack), NestForwardStep(CharAt(line, i), s), '<')
  {
    if s.reals != [] {
      ForwardStepInside(line, i, stack, s);
    } else {
      ForwardStepOutside(line, i, stack, s);
    }
  }

  /** A scan backward may be stopped at the start of the text or at a `<` that is not the second of a shift. */
  lemma {:induction false} BackwardTracks(lines: seq<string>, l: nat, i: nat, k: nat, j: nat,
                                          stack: seq<char>, s: Nest)
    requires k <= l < |lines| && i <= |lines[l]| && j <= |lines[k]| && !Before(l, i, k, j)
    requires j == 0 || StartsAngle(lines, k, j)
    requires AreClear(lines, k, j, l, i) && OffShift(lines[l], i) && Tracks(stack, s, '>')
    ensures BackwardAgrees(Backward(lines, l, i, stack), NestBackward(lines, l, i, s), lines, k, j)
    decreases l, i
  {
    hide BackwardStep, NestBackwardStep, EndsWithOperator, StartsWithSpacedAtLeast, IsClearAt, IgnoredForward;
    var line := lines[l];
    if l == k && i == j {
    } else if i == 0 {
      hide BackwardAgrees;
      BackwardTracks(lines, l - 1, |lines[l - 1]|, k, j, stack, s);
    } else {
      assert IsClearAt(line, i - 1);
      BackwardTakesStep(lines, l, i, stack);
      hide Backward, Tracks;
      if BackwardStep(line, i - 1, stack).width != 1 {
        hide BackwardAgrees;
        SkippedIsInert(line, i - 1, stack, s);
        BackwardTracks(lines, l, i - 2, k, j, stack, s);
      } else {
        ShiftsAreSkipped(line, i - 1, stack);
        BackwardStepTracks(line, i - 1, stack, s);
        match (BackwardStep(line, i - 1, stack).step, NestBackwardStep(CharAt(line, i - 1), s))
        case (Go(stack'), Onward(s')) =>
          hide BackwardAgrees;
          BackwardTracks(lines, l, i - 1, k, j, stack', s');
        case _ =>
      }
    }
  }

  lemma BackwardTakesStep(lines: seq<string>, l: nat, i: nat, stack: seq<char>)
    requires l < |lines| && 0 < i <= |lines[l]|
    ensures var r := BackwardStep(lines[l], i - 1, stack);
      match r.step
      case Go(s) => Backward(lines, l, i, stack) == Backward(lines, l, i - r.width, s)
      case Stop(found) => Backward(lines, l, i, stack) == if found then Found(l, i - 1) else Mismatch
  {
    hide BackwardStep;
  }

  lemma ShiftsAreSkipped(line: string, i: nat, stack: seq<char>)
    requires i < |line| && OffShift(line, i + 1) && BackwardStep(line, i, stack).width == 1
    ensures !InShift(line, i) && OffShift(line, i)
  {
  }

  lemma BackwardStepTracks(line: string, i: nat, stack: seq<char>, s: Nest)
    requires i < |line| && IsClearAt(line, i) && !InShift(line, i) && Tracks(stack, s, '>')
    ensures StepAgrees(BackwardStep(line, i, stack).step, NestBackwardStep(CharAt(line, i), s), '>')
  {
    if s.reals != [] {
      BackwardStepInside(line, i, stack, s);
    } else {
      BackwardStepOutside(line, i, stack, s);
    }
  }

  ////////// Where a scan can end //////////

  lemma {:induction false} ForwardFindsBehind(lines: seq<string>, l: nat, i: nat, stack: seq<char>)
    requires l < |lines| && i <= |lines[l]|
    ensures var end := Forward(lines, l, i, stack);
      end.Found? ==>
        && Before(l, i, end.line, end.pos) && end.line < |lines| && 0 < end.pos <= |lines[end.line]|
        && (IsCloser(lines[end.line][end.pos - 1]) || lines[end.line][end.pos - 1] == '>')
    decreases |lines| - l, |lines[l]| - i
  {
    hide EndsWithOperator, PopWhile;
    if i < |lines[l]| {
      match ForwardStep(lines[l], i, stack)
      case Go(s) =>
        assert Forward(lines, l, i, stack) == Forward(lines, l, i + 1, s);
        ForwardFindsBehind(lines, l, i + 1, s);
      case Stop(_) =>
    } else if stack != [] && l + 1 < |lines| {
      ForwardFindsBehind(lines, l + 1, 0, stack);
    }
  }

  lemma {:induction false} BackwardFindsBefore(lines: seq<string>, l: nat, i: nat, stack: seq<char>)
    requires l < |lines| && i <= |lines[l]|
    ensures var start := Backward(lines, l, i, stack);
      start.Found? ==> Before(start.line, start.pos, l, i)
    decreases l, i
  {
    hide BackwardStep;
    if 0 < i {
      var r := BackwardStep(lines[l], i - 1, stack);
      if r.step.Go? {
        BackwardTakesStep(lines, l, i, stack);
        BackwardFindsBefore(lines, l, i - r.width, r.step.stack);
      }
    } else if stack != [] && 0 < l {
      BackwardFindsBefore(lines, l - 1, |lines[l - 1]|, stack);
    }
  }

  lemma {:induction false} NestFindsBehind(lines: seq<string>, l: nat, i: nat, s: Nest)
    requires l < |lines| && i <= |lines[l]|
    ensures var end := NestForward(lines, l, i, s);
      end.Found? ==> Before(l, i, end.line, end.pos)
    decreases |lines| - l, |lines[l]| - i
  {
    hide NestForwardStep, CharAt;
    if i < |lines[l]| {
      match NestForwardStep(CharAt(lines[l], i), s)
      case Onward(s') => NestFindsBehind(lines, l, i + 1, s');
      case Halt(_) =>
    } else if l + 1 < |lines| {
      NestFindsBehind(lines, l + 1, 0, s);
    }
  }

  lemma {:induction false} NestFindsBefore(lines: seq<string>, l: nat, i: nat, s: Nest)
    requires l < |lines| && i <= |lines[l]|
    ensures var start := NestBackward(lines, l, i, s);
      start.Found? ==> Before(start.line, start.pos, l, i)
    decreases l, i
  {
    hide NestBackwardStep, CharAt;
    if 0 < i {
      match NestBackwardStep(CharAt(lines[l], i - 1), s)
      case Onward(s') => NestFindsBefore(lines, l, i - 1, s');
      case Halt(_) =>
    } else if 0 < l {
      NestFindsBefore(lines, l - 1, |lines[l - 1]|, s);
    }
  }

  ////////// The theorem //////////

  /** From a lone `<` with only clear text up to a place, the forward matcher finds it iff nests end there. */
  lemma ForwardFromAngle(lines: seq<string>, l: nat, p: nat, k: nat, e: nat)
    requires StartsAngle(lines, l, p) && !InShift(lines[l], p)
    requires k < |lines| && 0 < e <= |lines[k]| && lines[k][e - 1] != '<'
    requires Before(l, p, k, e) && AreClear(lines, l, p, k, e)
    ensures Forward(lines, l, p, []) == Found(k, e) <==> NestForward(lines, l, p + 1, Nest([], 1)) == Found(k, e)
  {
    hide EndsWithOperator, StartsWithSpacedAtLeast;
    assert IsClearAt(lines[l], p);
    assert [] + ['<'] == ['<'];
    assert Tracks(['<'], Nest([], 1), '<');
    assert ForwardInLine(lines[l], p, []) == ForwardInLine(lines[l], p + 1, ['<']);
    var result, nest := Forward(lines, l, p + 1, ['<']), NestForward(lines, l, p + 1, Nest([], 1));
    ForwardTracks(lines, l, p + 1, k, e, ['<'], Nest([], 1));
    if result != nest {
      var stack, s :| Tracks(stack, s, '<') && result == Forward(lines, k, e, stack)
        && nest == NestForward(lines, k, e, s);
      ForwardFindsBehind(lines, k, e, stack);
      NestFindsBehind(lines, k, e, s);
    }
  }

  /** The same for the backward matcher from a `>` that it does not take for part of an operator. */
  lemma BackwardFromAngle(lines: seq<string>, l: nat, p: nat, l': nat, p': nat)
    requires StartsAngle(lines, l, p) && AngleAt(lines, l', p', '>') && !IgnoredBackward(lines[l'], p')
    requires Before(l, p, l', p') && AreClear(lines, l, p, l', p' + 1)
    ensures Backward(lines, l', p' + 1, []) == Found(l, p) <==>
            NestBackward(lines, l', p', Nest([], 1)) == Found(l, p)
  {
    hide EndsWithOperator, StartsWithSpacedAtLeast;
    assert [] + ['>'] == ['>'];
    assert Tracks(['>'], Nest([], 1), '>');
    assert BackwardInLine(lines[l'], p' + 1, []) == BackwardInLine(lines[l'], p', ['>']);
    var result, nest := Backward(lines, l', p', ['>']), NestBackward(lines, l', p', Nest([], 1));
    BackwardTracks(lines, l', p', l, p, ['>'], Nest([], 1));
    if result != nest {
      var stack, s :| Tracks(stack, s, '>') && result == Backward(lines, l, p, stack)
        && nest == NestBackward(lines, l, p, s);
      BackwardFindsBefore(lines, l, p, stack);
      NestFindsBefore(lines, l, p, s);
    }
  }

  lemma NestMatchingIsSymmetric(lines: seq<string>, l: nat, p: nat, l': nat, p': nat)
    requires AngleAt(lines, l, p, '<') && AngleAt(lines, l', p', '>')
    requires CharAt(lines[l], p) == '<' && CharAt(lines[l'], p') == '>'
    ensures NestForward(lines, l, p + 1, Nest([], 1)) == Found(l', p' + 1) <==>
            NestBackward(lines, l', p', Nest([], 1)) == Found(l, p)
  {
    assert Mirror([]) == [] && MirrorBack([]) == [];
    if NestForward(lines, l, p + 1, Nest([], 1)) == Found(l', p' + 1) {
      NestBackwardRetraces(lines, l, p + 1, Nest([], 1));
    }
    if NestBackward(lines, l', p', Nest([], 1)) == Found(l, p) {
      NestForwardRetraces(lines, l', p', Nest([], 1));
    }
  }

  /**
   With only clear text between them, the matchers pair a `<` and a `>` with each other or not at all,
   save that each turns down a start that it takes for an operator: the forward one `<=` and `<<`, the
   backward one such a `>`. The `<` may not be the second of a shift.
   */
  lemma AngleMatchersUndoEachOther(lines: seq<string>, l: nat, p: nat, l': nat, p': nat)
    requires StartsAngle(lines, l, p) && AngleAt(lines, l', p', '>') && AreClear(lines, l, p, l', p' + 1)
    ensures CloseExpressionResult(lines, l, p) == (l', p' + 1) <==>
            && ReverseCloseExpressionResult(lines, l', p') == (l, p)
            && !StartsWithShiftOrAtMost(lines[l][p..]) && !IgnoredBackward(lines[l'], p')
  {
    hide EndsWithOperator, StartsWithSpacedAtLeast, IsClearAt;
    if !Before(l, p, l', p') {
      ForwardFindsBehind(lines, l, p, []);
      BackwardFindsBefore(lines, l', p' + 1, []);
    } else if !StartsWithShiftOrAtMost(lines[l][p..]) {
      assert lines[l][p..][0] == '<' && (p + 1 < |lines[l]| ==> lines[l][p..][1] == lines[l][p + 1]);
      ForwardFromAngle(lines, l, p, l', p' + 1);
      AngleEndsMatter(lines, l, p, l', p');
      if !IgnoredBackward(lines[l'], p') {
        BackwardFromAngle(lines, l, p, l', p');
        NestMatchingIsSymmetric(lines, l, p, l', p');
      }
    }
  }

  /** A `>` that is taken for part of an operator ends no nest. */
  lemma AngleEndsMatter(lines: seq<string>, l: nat, p: nat, l': nat, p': nat)
    requires StartsAngle(lines, l, p) && AngleAt(lines, l', p', '>') && IsClearAt(lines[l'], p')
    ensures !IgnoredBackward(lines[l'], p') <==> CharAt(lines[l'], p') == '>'
    ensures NestForward(lines, l, p + 1, Nest([], 1)) == Found(l', p' + 1) ==> CharAt(lines[l'], p') == '>'
  {
    hide EndsWithOperator, StartsWithSpacedAtLeast;
    if NestForward(lines, l, p + 1, Nest([], 1)) == Found(l', p' + 1) {
      NestBackwardRetraces(lines, l, p + 1, Nest([], 1));
    }
  }

  /** What the forward matcher finds for a `<` through clear text, the backward matcher takes back to it. */
  lemma CloseThenReverseAngle(lines: seq<string>, l: nat, p: nat)
    requires StartsAngle(lines, l, p) && CloseExpressionResult(lines, l, p).1 > -1
    requires var (l', e) := CloseExpressionResult(lines, l, p); AreClear(lines, l, p, l', e)
    ensures var (l', e) := CloseExpressionResult(lines, l, p);
      && l' < |lines| && 0 < e <= |lines[l']|
      && ReverseCloseExpressionResult(lines, l', e - 1) == (l, p)
  {
    hide EndsWithOperator, StartsWithSpacedAtLeast, IsClearAt;
    var (l', e) := CloseExpressionResult(lines, l, p);
    ForwardFindsBehind(lines, l, p, []);
    assert lines[l][p..][0] == '<' && (p + 1 < |lines[l]| ==> lines[l][p..][1] == lines[l][p + 1]);
    ForwardFromAngle(lines, l, p, l', e);
    NestBackwardRetraces(lines, l, p + 1, Nest([], 1));
    AngleMatchersUndoEachOther(lines, l, p, l', e - 1);
  }

  ////////// What each rule of thumb takes for an operator //////////

  /** A pair of angle brackets, with `pre` before it and `mid` inside it. */
  function Pair(pre: string, mid: string): string {
    pre + "<" + mid + ">"
  }

  ghost predicate AllInert(s: string) {
    forall k :: 0 <= k < |s| ==> IsInert(s[k])
  }

  predicate EndsIn(s: string, c: char) {
    s != [] && s[|s| - 1] == c
  }

  lemma PairIs(pre: string, mid: string, post: string)
    requires AllInert(mid)
    ensures var line, i, k := Pair(pre, mid) + post, |pre|, |pre| + 1 + |mid|;
      && |line| == k + 1 + |post| && line[..i] == pre && line[i] == '<' && line[..k] == pre + "<" + mid
      && line[..k - 1] == (pre + "<" + mid)[..k - 1]
      && line[k] == '>' && line[k + 1..] == post && line[k - 1] == (if mid == [] then '<' else mid[|mid| - 1])
      && (0 < i ==> line[i - 1] == pre[i - 1])
      && (mid != [] ==> line[i + 1] == mid[0])
      && forall x :: i + 1 <= x < k ==> IsInert(line[x])
  {
    var line, i, k := Pair(pre, mid) + post, |pre|, |pre| + 1 + |mid|;
    forall x | i + 1 <= x < k
      ensures IsInert(line[x])
    {
      assert line[x] == mid[x - i - 1];
    }
  }

  /** The forward matcher does not take up the `<` of such a pair. */
  predicate NotTakenUp(pre: string, mid: string) {
    (mid != [] && mid[0] == '=') || EndsIn(pre, '<') || EndsWithOperator(pre)
  }

  /**
   The forward matcher closes a lone `<` at the next `>`, unless the one is `<=`, the second of a shift or
   behind an `operator`, when it gives up by the end of the line, or the other is `->` or one character
   behind an `operator`.
   */
  lemma ForwardOnPair(pre: string, mid: string, more: seq<string>)
    requires AllInert(mid)
    ensures var result := CloseExpressionResult([Pair(pre, mid)] + more, 0, |pre|);
      var passedOver := EndsIn(mid, '-') || EndsWithOperator((pre + "<" + mid)[..|pre| + |mid|]);
      && (NotTakenUp(pre, mid) ==> result == (|more| + 1, -1))
      && (!NotTakenUp(pre, mid) && !passedOver ==> result == (0, |Pair(pre, mid)|))
      && (!NotTakenUp(pre, mid) && passedOver && more == [] ==> result == (1, -1))
  {
    hide EndsWithOperator, IsInert;
    PairIs(pre, mid, []);
    var line, i, k := Pair(pre, mid), |pre|, |pre| + 1 + |mid|;
    assert line + [] == line;
    NoOperatorInNothing();
    assert line[i..][0] == '<' && line[i..][1] == line[i + 1];
    if EndsIn(pre, '<') || EndsWithOperator(pre) {
      assert ForwardStep(line, i, []) == Go([]);
      ForwardPairInLine(line, i, k, []);
    } else {
      assert [] + ['<'] == ['<'];
      assert ForwardStep(line, i, []) == Go(['<']);
      ForwardPairInLine(line, i, k, ['<']);
    }
    FirstLineDecides(line, i, more);
    if mid != [] {
      InertIsNoAngle(mid[0]);
    }
  }

  lemma FirstLineDecides(line: string, i: nat, more: seq<string>)
    requires i <= |line|
    ensures match ForwardInLine(line, i, [])
            case Partner(pos) => Forward([line] + more, 0, i, []) == Found(0, pos)
            case Failed => Forward([line] + more, 0, i, []) == Mismatch
            case Open(s) =>
              && (s == [] ==> Forward([line] + more, 0, i, []) == Mismatch)
              && (s != [] && more == [] ==> Forward([line] + more, 0, i, []) == Unclosed)
  {
    hide ForwardInLine;
  }

  lemma ForwardPairInLine(line: string, i: nat, k: nat, stack: seq<char>)
    requires i < k == |line| - 1 && line[i] == '<' && line[k] == '>' && forall x :: i + 1 <= x < k ==> IsInert(line[x])
    requires ForwardStep(line, i, []) == Go(stack) && (stack == [] || stack == ['<'])
    ensures ForwardInLine(line, i, []) ==
      if stack == [] || line[k - 1] == '-' || EndsWithOperator(line[..k - 1]) then Open(stack) else Partner(k + 1)
  {
    hide EndsWithOperator, IsInert;
    ForwardOverInert(line, i + 1, k, stack);
    assert ForwardInLine(line, i, []) == ForwardInLine(line, k, stack);
  }

  lemma NoOperatorInNothing()
    ensures !EndsWithOperator([])
  {
  }

  lemma InertIsNoAngle(c: char)
    ensures IsInert(c) ==> c != '<' && c != '>'
  {
  }

  /**
   The backward matcher closes a `>` at the `<` before it, unless the `>` is `->`, directly behind an
   `operator`, or begins a `>=` with a space on either side, when it gives up by the start of the line.
   */
  lemma BackwardOnPair(before: seq<string>, pre: string, mid: string, post: string)
    requires AllInert(pre) && AllInert(mid)
    ensures ReverseCloseExpressionResult(before + [Pair(pre, mid) + post], |before|, |pre| + 1 + |mid|) ==
      if EndsIn(mid, '-') || EndsWithOperator(pre + "<" + mid)
         || (mid != [] && IsSpace(mid[|mid| - 1]) && 2 <= |post| && post[0] == '=' && IsSpace(post[1]))
      then (0, -1) else (|before|, |pre|)
  {
    hide EndsWithOperator, IsInert, BackwardInLine;
    PairIs(pre, mid, post);
    var line, i, k := Pair(pre, mid) + post, |pre|, |pre| + 1 + |mid|;
    assert line[k - 1..][0] == line[k - 1] && line[k - 1..][1] == '>' && line[k + 1..] == post;
    assert 2 <= |post| ==> line[k - 1..][2] == post[0] && line[k - 1..][3] == post[1];
    forall x | 0 <= x < i
      ensures IsInert(line[x])
    {
      assert line[x] == pre[x];
    }
    if 0 < i {
      InertIsNoAngle(line[i - 1]);
    }
    BackwardPairInLine(line, i, k);
    LastLineDecides(before, line, k + 1);
  }

  lemma LastLineDecides(before: seq<string>, line: string, i: nat)
    requires i <= |line|
    ensures var result := Backward(before + [line], |before|, i, []);
      match BackwardInLine(line, i, [])
      case Partner(pos) => result == Found(|before|, pos)
      case Failed => result == Mismatch
      case Open(s) => s == [] ==> result == Mismatch
  {
    hide BackwardInLine;
  }

  lemma BackwardPairInLine(line: string, i: nat, k: nat)
    requires i < k < |line| && line[i] == '<' && line[k] == '>' && (0 < i ==> line[i - 1] != '<')
    requires (forall x :: 0 <= x < i ==> IsInert(line[x])) && forall x :: i + 1 <= x < k ==> IsInert(line[x])
    ensures BackwardInLine(line, k + 1, []) == if IgnoredBackward(line, k) then Open([]) else Partner(i)
  {
    hide BackwardInLine, BackwardStep, EndsWithOperator, StartsWithSpacedAtLeast, IsInert;
    BackwardStepsOfPair(line, i, k);
    if IgnoredBackward(line, k) {
      if i + 1 < k {
        BackwardOverInert(line, i + 1, k - 1, []);
      }
      BackwardOverInert(line, 0, i, []);
    } else {
      BackwardOverInert(line, i + 1, k, ['>']);
    }
    AtLineStart(line);
  }

  lemma AtLineStart(line: string)
    ensures BackwardInLine(line, 0, []) == Open([])
  {
  }

  lemma BackwardStepsOfPair(line: string, i: nat, k: nat)
    requires i < k < |line| && line[i] == '<' && line[k] == '>' && (0 < i ==> line[i - 1] != '<')
    ensures BackwardInLine(line, k + 1, []) ==
      if IgnoredBackward(line, k) then BackwardInLine(line, k - 1, []) else BackwardInLine(line, k, ['>'])
    ensures BackwardInLine(line, i + 1, []) == BackwardInLine(line, i, [])
    ensures BackwardInLine(line, i + 1, ['>']) == Partner(i)
  {
    hide EndsWithOperator, StartsWithSpacedAtLeast;
    assert [] + ['>'] == ['>'];
  }

  /** So behind `operator` a `<` is a bracket exactly if that is only the end of a longer name. */
  lemma LessBehindOperator(pre: string, more: seq<string>)
    ensures CloseExpressionResult([pre + "operator<a>"] + more, 0, |pre| + 8) ==
      if pre != [] && IsWord(pre[|pre| - 1]) then (0, |pre| + 11) else (|more| + 1, -1)
  {
    hide EndsWithOperator, ForwardStep, ForwardInLine, Forward;
    var name := pre + "operator";
    assert name + "<" + "a" + ">" == pre + "operator<a>";
    assert (name + "<" + "a")[..|name| + 1] == name + "<";
    OperatorIsAWord(pre, []);
    assert name + [] == name;
    NoOperatorBefore(name + "<");
    ForwardOnPair(name, "a", more);
  }

  /** On any text, of all the `<` the forward matcher turns down those of `<<` and `<=`, and no others. */
  lemma ShiftAndAtMostAreRefused(lines: seq<string>, l: nat, p: nat)
    requires AngleAt(lines, l, p, '<')
    ensures var line := lines[l];
      var refused := p + 1 < |line| && (line[p + 1] == '<' || line[p + 1] == '=');
      (RefusesForward(line, p) <==> refused) && (refused ==> CloseExpressionResult(lines, l, p) == (|lines|, -1))
  {
    var line := lines[l];
    assert line[p..][0] == '<' && (p + 1 < |line| ==> line[p..][1] == line[p + 1]);
  }

  /** Nor does either matcher start at any other character. */
  lemma OthersAreRefused(lines: seq<string>, l: nat, p: nat)
    requires l < |lines| && p < |lines[l]|
    ensures lines[l][p] !in {'(', '[', '{', '<'} ==> CloseExpressionResult(lines, l, p) == (|lines|, -1)
    ensures lines[l][p] !in {')', ']', '}', '>'} ==> ReverseCloseExpressionResult(lines, l, p) == (0, -1)
  {
  }

  /** What the matchers answer: a place in the text on the right side of the start, or a failure. */
  lemma AnswersAre(lines: seq<string>, l: nat, p: nat)
    requires l < |lines| && p < |lines[l]|
    ensures var (l', e) := CloseExpressionResult(lines, l, p);
      (l', e) == (|lines|, -1) || (l' < |lines| && 0 < e <= |lines[l']| && Before(l, p, l', e))
    ensures var (l', s) := ReverseCloseExpressionResult(lines, l, p);
      (l', s) == (0, -1) || (l' <= l && 0 <= s && Before(l', s, l, p + 1))
  {
    hide Forward, Backward;
    ForwardFindsBehind(lines, l, p, []);
    BackwardFindsBefore(lines, l, p + 1, []);
  }

  ////////// No part of the condition can be dropped //////////

  lemma OperatorFree(s: string)
    requires |s| < 8
    ensures !EndsWithOperator(s)
  {
  }

  lemma {:induction false} ForwardOverInert(line: string, i: nat, j: nat, stack: seq<char>)
    requires i <= j <= |line| && forall k :: i <= k < j ==> IsInert(line[k])
    ensures ForwardInLine(line, i, stack) == ForwardInLine(line, j, stack)
    decreases j - i
  {
    if i < j {
      ForwardOverInert(line, i + 1, j, stack);
    }
  }

  lemma {:induction false} BackwardOverInert(line: string, i: nat, j: nat, stack: seq<char>)
    requires i <= j <= |line| && forall k :: i <= k < j ==> IsInert(line[k])
    ensures BackwardInLine(line, i, stack) == BackwardInLine(line, j, stack)
    decreases j - i
  {
    if i < j {
      BackwardOverInert(line, i, j - 1, stack);
    }
  }

  lemma NoOperatorBefore(s: string)
    requires s == [] || (s[|s| - 1] != 'r' && !(s[|s| - 1] == ' ' || '\t' <= s[|s| - 1] <= '\r'))
    ensures !EndsWithOperator(s)
  {
  }

  /** Forward the `>` belongs to the `operator` one character further on; backward it closes the `<`. */
  lemma OperatorGreaterIsNotClear()
    ensures CloseExpressionResult(["<operatorx>"], 0, 0) == (1, -1)
    ensures ReverseCloseExpressionResult(["<operatorx>"], 0, 10) == (0, 0)
  {
    hide ForwardInLine, BackwardInLine;
    var lines := ["<operatorx>"];
    OperatorGreaterForward(lines[0]);
    OperatorGreaterBackward(lines[0]);
    assert Forward(lines, 0, 0, []) == Unclosed;
    assert Backward(lines, 0, 11, []) == Found(0, 0);
  }

  lemma OperatorGreaterForward(line: string)
    requires line == "<operatorx>"
    ensures ForwardInLine(line, 0, []) == Open(['<'])
  {
    hide EndsWithOperator;
    assert line[..9] == ['<'] + "operator";
    OperatorAfter('<', line[..9]);
    assert [] + ['<'] == ['<'];
    ForwardOverInert(line, 1, 10, ['<']);
    assert ForwardInLine(line, 10, ['<']) == Open(['<']);
  }

  lemma OperatorGreaterBackward(line: string)
    requires line == "<operatorx>"
    ensures BackwardInLine(line, 11, []) == Partner(0)
  {
    hide EndsWithOperator;
    assert [] + ['>'] == ['>'];
    NoOperatorBefore(line[..10]);
    assert BackwardStep(line, 10, []) == BackwardStepResult(Go(['>']), 1);
    assert BackwardInLine(line, 1, ['>']) == Partner(0);
    hide BackwardStep;
    BackwardOverInert(line, 1, 10, ['>']);
    assert BackwardInLine(line, 11, []) == BackwardInLine(line, 10, ['>']);
  }

  lemma OperatorAfter(c: char, s: string)
    requires s == [c] + "operator" && c == '<'
    ensures EndsWithOperator(s)
  {
    assert s[1..9] == "operator";
    assert IsOperatorAt(s, 1);
  }

  lemma OperatorAt(s: string, j: nat)
    requires IsOperatorAt(s, j)
    ensures EndsWithOperator(s)
  {
  }

  /** Forward the `<` belongs to the `operator`; backward it closes the `>`. */
  lemma OperatorLessIsNotClear()
    ensures CloseExpressionResult(["operator< >"], 0, 8) == (1, -1)
    ensures ReverseCloseExpressionResult(["operator< >"], 0, 10) == (0, 8)
  {
    hide EndsWithOperator;
    var line := "operator< >";
    assert [] + ['>'] == ['>'];
    assert EndsWithOperator(line[..8]) by {
      OperatorAt(line[..8], 0);
    }
    NoOperatorBefore(line[..9]);
    assert ForwardInLine(line, 10, []) == Open([]);
    assert ForwardInLine(line, 9, []) == Open([]);
    assert ForwardInLine(line, 8, []) == Open([]);
    assert !EndsWithOperator(line[..10]) by {
      NoOperatorBeforeLess(line[..10]);
    }
    assert BackwardInLine(line, 9, ['>']) == Partner(8);
    assert BackwardInLine(line, 10, ['>']) == Partner(8);
    assert BackwardInLine(line, 11, []) == Partner(8);
  }

  lemma NoOperatorBeforeLess(s: string)
    requires 2 <= |s| && s[|s| - 2] == '<'
    ensures !EndsWithOperator(s)
  {
  }

  /** Forward the third `<` in a row pops the first bracket; backward it hides the second and no more. */
  lemma ThreeInARowAreNotClear()
    ensures CloseExpressionResult(["<a<<<>>"], 0, 0) == (1, -1)
    ensures ReverseCloseExpressionResult(["<a<<<>>"], 0, 6) == (0, 0)
  {
    hide ForwardInLine, BackwardInLine;
    var lines := ["<a<<<>>"];
    ThreeInARowForward(lines[0]);
    ThreeInARowBackward(lines[0]);
    assert Forward(lines, 0, 0, []) == Mismatch;
    assert Backward(lines, 0, 7, []) == Found(0, 0);
  }

  lemma ThreeInARowForward(line: string)
    requires line == "<a<<<>>"
    ensures ForwardInLine(line, 0, []) == Failed
  {
    hide EndsWithOperator;
    OperatorFree(line[..2]);
    assert [] + ['<'] == ['<'] && Rest(['<'] + ['<']) == ['<'];
    assert ForwardInLine(line, 4, ['<']) == Failed;
    assert ForwardInLine(line, 2, ['<']) == Failed;
    assert ForwardInLine(line, 1, ['<']) == Failed;
  }

  lemma ThreeInARowBackward(line: string)
    requires line == "<a<<<>>"
    ensures BackwardInLine(line, 7, []) == Partner(0)
  {
    hide EndsWithOperator;
    OperatorFree(line[..5]);
    OperatorFree(line[..6]);
    assert BackwardInLine(line, 1, ['>']) == Partner(0);
    assert BackwardInLine(line, 3, ['>', '>']) == Partner(0);
    assert BackwardInLine(line, 5, ['>', '>']) == Partner(0);
    assert BackwardInLine(line, 6, ['>']) == Partner(0);
  }

  /** From the second `<` of a shift the forward matcher starts with nothing to close. */
  lemma SecondOfShiftFindsAnother()
    ensures CloseExpressionResult(["<< < >"], 0, 1) == (0, 6)
    ensures ReverseCloseExpressionResult(["<< < >"], 0, 5) == (0, 3)
  {
    hide ForwardInLine, BackwardInLine;
    var lines := ["<< < >"];
    SecondOfShiftForward(lines[0]);
    SecondOfShiftBackward(lines[0]);
    assert Forward(lines, 0, 1, []) == Found(0, 6);
    assert Backward(lines, 0, 6, []) == Found(0, 3);
  }

  lemma SecondOfShiftForward(line: string)
    requires line == "<< < >"
    ensures ForwardInLine(line, 1, []) == Partner(6)
  {
    hide EndsWithOperator;
    OperatorFree(line[..3]);
    OperatorFree(line[..4]);
    assert [] + ['<'] == ['<'];
    assert ForwardInLine(line, 4, ['<']) == Partner(6);
    assert ForwardInLine(line, 3, []) == Partner(6);
  }

  lemma SecondOfShiftBackward(line: string)
    requires line == "<< < >"
    ensures BackwardInLine(line, 6, []) == Partner(3)
  {
    hide EndsWithOperator;
    OperatorFree(line[..5]);
    assert [] + ['>'] == ['>'];
    assert BackwardInLine(line, 4, ['>']) == Partner(3);
  }
}
