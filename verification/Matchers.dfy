/**
 The forward and the backward expression matcher. Both also track `<` and `>`, which may be template
 brackets or operators, each by its own rules of thumb.
 */
module Matchers {
  import opened Brackets
  import opened Wrappers

  /** What scanning one line comes to: the partner's place, a failure, or the stack at the end. */
  datatype InLine = Partner(pos: nat) | Failed | Open(stack: seq<char>)

  /** The stack without the pending `c` on top of it. */
  function PopWhile(stack: seq<char>, c: char): (s: seq<char>)
    ensures s <= stack && (s == [] || Top(s) != c)
  {
    if stack != [] && Top(stack) == c then PopWhile(Rest(stack), c) else stack
  }

  ////////// Forward //////////

  /** What the character at `i` does to the stack of pending openers. */
  function ForwardStep(line: string, i: nat, stack: seq<char>): Step
    requires i < |line|
  {
    var c := line[i];
    if IsOpener(c) then Go(stack + [c])
    else if c == '<' then
      if 0 < i && line[i - 1] == '<' then
        if stack == [] || Top(stack) != '<' then Go(stack)
        else if |stack| == 1 then Stop(false)
        else Go(Rest(stack))
      else if 0 < i && EndsWithOperator(line[..i]) then Go(stack)
      else Go(stack + ['<'])
    else if IsCloser(c) then
      var s := PopWhile(stack, '<');
      if s == [] || !Pairs(Top(s), c) then Stop(false)
      else if |s| == 1 then Stop(true)
      else Go(Rest(s))
    else if c == '>' then
      if 0 < i && (line[i - 1] == '-' || EndsWithOperator(line[..i - 1])) then Go(stack)
      else if stack == [] || Top(stack) != '<' then Go(stack)
      else if |stack| == 1 then Stop(true)
      else Go(Rest(stack))
    else if c == ';' then
      var s := PopWhile(stack, '<');
      if s == [] then Stop(false) else Go(s)
    else Go(stack)
  }

  /** The scan of a line from its `i`-th character on. */
  function ForwardInLine(line: string, i: nat, stack: seq<char>): InLine
    requires i <= |line|
    decreases |line| - i
  {
    if i == |line| then Open(stack)
    else
      match ForwardStep(line, i, stack)
      case Go(s) => ForwardInLine(line, i + 1, s)
      case Stop(found) => if found then Partner(i + 1) else Failed
  }

  /** The scan over the lines from the `i`-th character of line `l` on. */
  function Forward(lines: seq<string>, l: nat, i: nat, stack: seq<char>): Outcome
    requires l < |lines| && i <= |lines[l]|
    decreases |lines| - l
  {
    match ForwardInLine(lines[l], i, stack)
    case Partner(pos) => Found(l, pos)
    case Failed => Mismatch
    case Open(s) =>
      if s == [] then Mismatch
      else if l + 1 == |lines| then Unclosed
      else Forward(lines, l + 1, 0, s)
  }

  /** The line in which that scan ends: the partner's line if there is one. */
  function LastForward(lines: seq<string>, l: nat, i: nat, stack: seq<char>): (k: nat)
    requires l < |lines| && i <= |lines[l]|
    ensures l <= k < |lines|
    ensures Forward(lines, l, i, stack).Found? ==> k == Forward(lines, l, i, stack).line
    ensures Forward(lines, l, i, stack).Unclosed? ==> k == |lines| - 1
    decreases |lines| - l
  {
    match ForwardInLine(lines[l], i, stack)
    case Open(s) => if s == [] || l + 1 == |lines| then l else LastForward(lines, l + 1, 0, s)
    case _ => l
  }

  /** It is the first line with which the scan is decided: the text up to any earlier line leaves it open. */
  lemma {:induction false} LastForwardDecides(lines: seq<string>, l: nat, i: nat, stack: seq<char>, m: nat)
    requires l <= m < |lines| && i <= |lines[l]|
    ensures var k := LastForward(lines, l, i, stack);
      && (m < k ==> Forward(lines[..m + 1], l, i, stack) == Unclosed)
      && (Forward(lines, l, i, stack) != Unclosed ==> Forward(lines[..k + 1], l, i, stack) != Unclosed)
    decreases |lines| - l
  {
    hide ForwardInLine;
    match ForwardInLine(lines[l], i, stack)
    case Open(s) =>
      if s != [] && l + 1 < |lines| {
        LastForwardDecides(lines, l + 1, 0, s, if m == l then l + 1 else m);
      }
    case _ =>
  }

  method PopPending(stack: seq<char>, c: char) returns (s: seq<char>)
    ensures s == PopWhile(stack, c)
  {
    s := stack;
    while s != [] && s[|s| - 1] == c
      invariant PopWhile(s, c) == PopWhile(stack, c)
      decreases |s|
    {
      s := s[..|s| - 1];
    }
  }

  /**
   Scans one line from `startpos` on. A partner is reported as the position just behind it, anything
   else as -1, with the stack at the end of the line unless the expression cannot be closed.
   */
  method FindEndOfExpressionInLine(line: string, startpos: nat, stack: seq<char>)
    returns (pos: int, pending: Option<seq<char>>)
    requires startpos <= |line|
    ensures match ForwardInLine(line, startpos, stack)
            case Partner(p) => pos == p && pending == None
            case Failed => pos == -1 && pending == None
            case Open(s) => pos == -1 && pending == Some(s)
  {
    hide EndsWithOperator, PopWhile;
    var s := stack;
    for i := startpos to |line|
      invariant ForwardInLine(line, i, s) == ForwardInLine(line, startpos, stack)
    {
      var c := line[i];
      if IsOpener(c) {
        s := s + [c];
      } else if c == '<' {
        if i > 0 && line[i - 1] == '<' {
          if s != [] && s[|s| - 1] == '<' {
            s := s[..|s| - 1];
            if s == [] {
              return -1, None;
            }
          }
        } else if i > 0 && EndsWithOperator(line[..i]) {
        } else {
          s := s + ['<'];
        }
      } else if IsCloser(c) {
        s := PopPending(s, '<');
        if s == [] {
          return -1, None;
        }
        if Pairs(s[|s| - 1], c) {
          s := s[..|s| - 1];
          if s == [] {
            return i + 1, None;
          }
        } else {
          return -1, None;
        }
      } else if c == '>' {
        if i > 0 && (line[i - 1] == '-' || EndsWithOperator(line[..i - 1])) {
        } else if s != [] && s[|s| - 1] == '<' {
          s := s[..|s| - 1];
          if s == [] {
            return i + 1, None;
          }
        }
      } else if c == ';' {
        s := PopPending(s, '<');
        if s == [] {
          return -1, None;
        }
      }
    }
    return -1, Some(s);
  }

  /** The forward matcher takes the start for what it is not: no opener, or an operator. */
  predicate RefusesForward(line: string, pos: nat)
    requires pos < |line|
  {
    !(IsOpener(line[pos]) || line[pos] == '<') || StartsWithShiftOrAtMost(line[pos..])
  }

  /** The partner of the bracket at `(linenum, pos)`, as the place just behind it, if there is one. */
  function CloseExpressionResult(lines: seq<string>, linenum: nat, pos: nat): (nat, int)
    requires linenum < |lines| && pos < |lines[linenum]|
  {
    if RefusesForward(lines[linenum], pos) then (|lines|, -1)
    else
      match Forward(lines, linenum, pos, [])
      case Found(l, p) => (l, p)
      case _ => (|lines|, -1)
  }

  /** Finds the place just behind the partner of the bracket at `(linenum, pos)`, and the line where it stopped. */
  method CloseExpression(lines: seq<string>, linenum: nat, pos: nat)
    returns (line: string, endLine: nat, endPos: int)
    requires linenum < |lines| && pos < |lines[linenum]|
    ensures (endLine, endPos) == CloseExpressionResult(lines, linenum, pos)
    ensures line == lines[if RefusesForward(lines[linenum], pos) then linenum else LastForward(lines, linenum, pos, [])]
  {
    line := lines[linenum];
    if !(IsOpener(line[pos]) || line[pos] == '<') || StartsWithShiftOrAtMost(line[pos..]) {
      return line, |lines|, -1;
    }
    var current := linenum;
    var pending;
    endPos, pending := FindEndOfExpressionInLine(line, pos, []);
    if endPos > -1 {
      return line, current, endPos;
    }
    while pending.Some? && pending.value != [] && current < |lines| - 1
      invariant current < |lines| && line == lines[current]
      invariant pending.None? || pending.value == [] ==> Forward(lines, linenum, pos, []) == Mismatch
      invariant pending.Some? && pending.value != [] ==>
        Forward(lines, linenum, pos, []) ==
        if current + 1 == |lines| then Unclosed else Forward(lines, current + 1, 0, pending.value)
      invariant LastForward(lines, linenum, pos, []) ==
        if pending.None? || pending.value == [] || current + 1 == |lines| then current
        else LastForward(lines, current + 1, 0, pending.value)
      decreases |lines| - current
    {
      current := current + 1;
      line := lines[current];
      endPos, pending := FindEndOfExpressionInLine(line, 0, pending.value);
      if endPos > -1 {
        return line, current, endPos;
      }
    }
    return line, |lines|, -1;
  }

  ////////// Backward //////////

  /** A backward step also says how many characters it has dealt with: one, or two. */
  datatype BackwardStepResult = BackwardStepResult(step: Step, width: nat)

  /** What the character at `i` does to the stack of pending closers. */
  function BackwardStep(line: string, i: nat, stack: seq<char>): (r: BackwardStepResult)
    requires i < |line|
    ensures 1 <= r.width <= i + 1
  {
    var c := line[i];
    if IsCloser(c) then BackwardStepResult(Go(stack + [c]), 1)
    else if c == '>' then
      if 0 < i && (line[i - 1] == '-' || StartsWithSpacedAtLeast(line[i - 1..]) || EndsWithOperator(line[..i]))
      then BackwardStepResult(Go(stack), 2)
      else BackwardStepResult(Go(stack + ['>']), 1)
    else if c == '<' then
      if 0 < i && line[i - 1] == '<' then BackwardStepResult(Go(stack), 2)
      else if stack == [] || Top(stack) != '>' then BackwardStepResult(Go(stack), 1)
      else if |stack| == 1 then BackwardStepResult(Stop(true), 1)
      else BackwardStepResult(Go(Rest(stack)), 1)
    else if IsOpener(c) then
      var s := PopWhile(stack, '>');
      if s == [] || !Pairs(c, Top(s)) then BackwardStepResult(Stop(false), 1)
      else if |s| == 1 then BackwardStepResult(Stop(true), 1)
      else BackwardStepResult(Go(Rest(s)), 1)
    else if c == ';' then
      var s := PopWhile(stack, '>');
      BackwardStepResult(if s == [] then Stop(false) else Go(s), 1)
    else BackwardStepResult(Go(stack), 1)
  }

  /** The scan of a line backward from the gap before its `i`-th character. */
  function BackwardInLine(line: string, i: nat, stack: seq<char>): InLine
    requires i <= |line|
    decreases i
  {
    if i == 0 then Open(stack)
    else
      var r := BackwardStep(line, i - 1, stack);
      match r.step
      case Go(s) => BackwardInLine(line, i - r.width, s)
      case Stop(found) => if found then Partner(i - 1) else Failed
  }

  function Backward(lines: seq<string>, l: nat, i: nat, stack: seq<char>): Outcome
    requires l < |lines| && i <= |lines[l]|
    decreases l
  {
    match BackwardInLine(lines[l], i, stack)
    case Partner(pos) => Found(l, pos)
    case Failed => Mismatch
    case Open(s) =>
      if s == [] then Mismatch
      else if l == 0 then Unclosed
      else Backward(lines, l - 1, |lines[l - 1]|, s)
  }

  function LastBackward(lines: seq<string>, l: nat, i: nat, stack: seq<char>): (k: nat)
    requires l < |lines| && i <= |lines[l]|
    ensures k <= l
    ensures Backward(lines, l, i, stack).Found? ==> k == Backward(lines, l, i, stack).line
    ensures Backward(lines, l, i, stack).Unclosed? ==> k == 0
    decreases l
  {
    match BackwardInLine(lines[l], i, stack)
    case Open(s) => if s == [] || l == 0 then l else LastBackward(lines, l - 1, |lines[l - 1]|, s)
    case _ => l
  }

  /** Backward it is the last line with which the scan is decided: from any later line on it is left open. */
  lemma {:induction false} LastBackwardDecides(lines: seq<string>, l: nat, i: nat, stack: seq<char>, m: nat)
    requires m <= l < |lines| && i <= |lines[l]|
    ensures var k := LastBackward(lines, l, i, stack);
      && (k < m ==> Backward(lines[m..], l - m, i, stack) == Unclosed)
      && (Backward(lines, l, i, stack) != Unclosed ==> Backward(lines[k..], l - k, i, stack) != Unclosed)
    decreases l
  {
    hide BackwardInLine;
    match BackwardInLine(lines[l], i, stack)
    case Open(s) =>
      if s != [] && 0 < l {
        LastBackwardDecides(lines, l - 1, |lines[l - 1]|, s, if m == l then l - 1 else m);
      }
    case _ =>
  }

  /** Scans one line backward from `endpos` on and reports as its forward counterpart does. */
  method FindStartOfExpressionInLine(line: string, endpos: int, stack: seq<char>)
    returns (pos: int, pending: Option<seq<char>>)
    requires -1 <= endpos < |line|
    ensures match BackwardInLine(line, endpos + 1, stack)
            case Partner(p) => pos == p && pending == None
            case Failed => pos == -1 && pending == None
            case Open(s) => pos == -1 && pending == Some(s)
  {
    hide EndsWithOperator, StartsWithSpacedAtLeast, PopWhile;
    var s := stack;
    var i := endpos;
    while i >= 0
      invariant -1 <= i < |line|
      invariant BackwardInLine(line, i + 1, s) == BackwardInLine(line, endpos + 1, stack)
    {
      var c := line[i];
      if IsCloser(c) {
        s := s + [c];
      } else if c == '>' {
        if i > 0 && (line[i - 1] == '-' || StartsWithSpacedAtLeast(line[i - 1..]) || EndsWithOperator(line[..i])) {
          i := i - 1;
        } else {
          s := s + ['>'];
        }
      } else if c == '<' {
        if i > 0 && line[i - 1] == '<' {
          i := i - 1;
        } else if s != [] && s[|s| - 1] == '>' {
          s := s[..|s| - 1];
          if s == [] {
            return i, None;
          }
        }
      } else if IsOpener(c) {
        s := PopPending(s, '>');
        if s == [] {
          return -1, None;
        }
        if Pairs(c, s[|s| - 1]) {
          s := s[..|s| - 1];
          if s == [] {
            return i, None;
          }
        } else {
          return -1, None;
        }
      } else if c == ';' {
        s := PopPending(s, '>');
        if s == [] {
          return -1, None;
        }
      }
      i := i - 1;
    }
    return -1, Some(s);
  }

  predicate RefusesBackward(c: char) {
    !(IsCloser(c) || c == '>')
  }

  function ReverseCloseExpressionResult(lines: seq<string>, linenum: nat, pos: nat): (nat, int)
    requires linenum < |lines| && pos < |lines[linenum]|
  {
    if RefusesBackward(lines[linenum][pos]) then (0, -1)
    else
      match Backward(lines, linenum, pos + 1, [])
      case Found(l, p) => (l, p)
      case _ => (0, -1)
  }

  /** Finds the partner of the closing bracket at `(linenum, pos)`, and the line where it stopped. */
  method ReverseCloseExpression(lines: seq<string>, linenum: nat, pos: nat)
    returns (line: string, startLine: nat, startPos: int)
    requires linenum < |lines| && pos < |lines[linenum]|
    ensures (startLine, startPos) == ReverseCloseExpressionResult(lines, linenum, pos)
    ensures line == lines[if RefusesBackward(lines[linenum][pos]) then linenum
                          else LastBackward(lines, linenum, pos + 1, [])]
  {
    line := lines[linenum];
    if !(IsCloser(line[pos]) || line[pos] == '>') {
      return line, 0, -1;
    }
    var current := linenum;
    var pending;
    startPos, pending := FindStartOfExpressionInLine(line, pos, []);
    if startPos > -1 {
      return line, current, startPos;
    }
    while pending.Some? && pending.value != [] && current > 0
      invariant current < |lines| && line == lines[current]
      invariant pending.None? || pending.value == [] ==> Backward(lines, linenum, pos + 1, []) == Mismatch
      invariant pending.Some? && pending.value != [] ==>
        Backward(lines, linenum, pos + 1, []) ==
        if current == 0 then Unclosed else Backward(lines, current - 1, |lines[current - 1]|, pending.value)
      invariant LastBackward(lines, linenum, pos + 1, []) ==
        if pending.None? || pending.value == [] || current == 0 then current
        else LastBackward(lines, current - 1, |lines[current - 1]|, pending.value)
      decreases current
    {
      current := current - 1;
      line := lines[current];
      startPos, pending := FindStartOfExpressionInLine(line, |line| - 1, pending.value);
      if startPos > -1 {
        return line, current, startPos;
      }
    }
    return line, 0, -1;
  }

  ////////// Angle brackets are noise to real brackets //////////

  /** The stack with the angle brackets taken out. */
  function Real(stack: seq<char>): seq<char> {
    if stack == [] then []
    else if IsBracket(Top(stack)) then Real(Rest(stack)) + [Top(stack)]
    else Real(Rest(stack))
  }

  /** A stack of real brackets and pending `angle`s with a real bracket at the bottom. */
  ghost predicate Grounded(stack: seq<char>, angle: char) {
    && stack != [] && IsBracket(stack[0])
    && forall i :: 0 <= i < |stack| ==> IsBracket(stack[i]) || stack[i] == angle
  }

  lemma {:induction false} PoppedStackIsGrounded(stack: seq<char>, angle: char)
    requires Grounded(stack, angle) && !IsBracket(angle)
    ensures var s := PopWhile(stack, angle);
      && Grounded(s, angle) && IsBracket(Top(s)) && Real(s) == Real(stack)
      && Real(s) == Real(Rest(s)) + [Top(s)]
      && (|s| == 1 <==> |Real(s)| == 1)
      && (1 < |s| ==> Grounded(Rest(s), angle))
  {
    if Top(stack) == angle {
      PoppedStackIsGrounded(Rest(stack), angle);
    } else if 1 < |stack| {
      GroundedIsNotEmpty(Rest(stack), angle);
    }
  }

  lemma {:induction false} GroundedIsNotEmpty(stack: seq<char>, angle: char)
    requires Grounded(stack, angle)
    ensures Real(stack) != []
  {
    if |stack| > 1 {
      GroundedIsNotEmpty(Rest(stack), angle);
    }
  }

  lemma Pushed(stack: seq<char>, c: char)
    ensures Real(stack + [c]) == if IsBracket(c) then Real(stack) + [c] else Real(stack)
  {
  }

  lemma AnglePopped(stack: seq<char>, angle: char)
    requires Grounded(stack, angle) && !IsBracket(angle) && Top(stack) == angle
    ensures 1 < |stack| && Grounded(Rest(stack), angle) && Real(Rest(stack)) == Real(stack)
  {
  }

  /** A character that is no bracket leaves the real brackets on the stack alone. */
  lemma ForwardNoise(line: string, i: nat, stack: seq<char>)
    requires i < |line| && Grounded(stack, '<') && !IsBracket(line[i])
    ensures var step := ForwardStep(line, i, stack);
      step.Go? && Grounded(step.stack, '<') && Real(step.stack) == Real(stack)
  {
    hide EndsWithOperator, PopWhile, Real;
    Pushed(stack, line[i]);
    if line[i] == ';' {
      PoppedStackIsGrounded(stack, '<');
    } else if Top(stack) == '<' {
      AnglePopped(stack, '<');
    }
  }

  lemma ForwardStepIsPlain(line: string, i: nat, stack: seq<char>)
    requires i < |line| && Grounded(stack, '<')
    ensures match ForwardStep(line, i, stack)
            case Go(s) => Grounded(s, '<') && PlainForwardStep(line[i], Real(stack)) == Go(Real(s))
            case Stop(found) => PlainForwardStep(line[i], Real(stack)) == Stop(found)
  {
    hide EndsWithOperator, PopWhile, Real;
    if IsOpener(line[i]) {
      Pushed(stack, line[i]);
    } else if IsCloser(line[i]) {
      PoppedStackIsGrounded(stack, '<');
    } else {
      ForwardNoise(line, i, stack);
    }
  }

  /** So it does backward, and a second character skipped with it is no bracket either. */
  lemma BackwardNoise(line: string, i: nat, stack: seq<char>)
    requires i < |line| && Grounded(stack, '>') && !IsBracket(line[i])
    ensures var r := BackwardStep(line, i, stack);
      && r.step.Go? && Grounded(r.step.stack, '>') && Real(r.step.stack) == Real(stack)
      && (r.width == 1 || (r.width == 2 && !IsBracket(line[i - 1])))
  {
    hide EndsWithOperator, StartsWithSpacedAtLeast, PopWhile, Real;
    Pushed(stack, line[i]);
    if line[i] == '>' {
      SkippedWithGreater(line, i);
    } else if line[i] == ';' {
      PoppedStackIsGrounded(stack, '>');
    } else if Top(stack) == '>' {
      AnglePopped(stack, '>');
    }
  }

  lemma SkippedWithGreater(line: string, i: nat)
    requires i < |line|
    ensures 0 < i && (line[i - 1] == '-' || StartsWithSpacedAtLeast(line[i - 1..]) || EndsWithOperator(line[..i]))
      ==> !IsBracket(line[i - 1])
  {
  }

  lemma BackwardStepIsPlain(line: string, i: nat, stack: seq<char>)
    requires i < |line| && Grounded(stack, '>')
    ensures match BackwardStep(line, i, stack).step
            case Go(s) => Grounded(s, '>') && PlainBackwardStep(line[i], Real(stack)) == Go(Real(s))
            case Stop(found) => PlainBackwardStep(line[i], Real(stack)) == Stop(found)
    ensures var r := BackwardStep(line, i, stack);
      r.width == 1 || (r.width == 2 && r.step.Go? && !IsBracket(line[i - 1]))
  {
    hide EndsWithOperator, StartsWithSpacedAtLeast, PopWhile, Real;
    if IsCloser(line[i]) {
      Pushed(stack, line[i]);
    } else if IsOpener(line[i]) {
      PoppedStackIsGrounded(stack, '>');
    } else {
      BackwardNoise(line, i, stack);
    }
  }

  lemma {:induction false} ForwardInLineIsPlain(lines: seq<string>, l: nat, i: nat, stack: seq<char>)
    requires l < |lines| && i <= |lines[l]| && Grounded(stack, '<')
    ensures match ForwardInLine(lines[l], i, stack)
            case Partner(pos) => PlainForward(lines, l, i, Real(stack)) == Found(l, pos)
            case Failed => PlainForward(lines, l, i, Real(stack)) == Mismatch
            case Open(s) =>
              && Grounded(s, '<')
              && PlainForward(lines, l, i, Real(stack)) == PlainForward(lines, l, |lines[l]|, Real(s))
    decreases |lines[l]| - i
  {
    if i < |lines[l]| {
      hide ForwardStep, PlainForwardStep, Real;
      ForwardStepIsPlain(lines[l], i, stack);
      match ForwardStep(lines[l], i, stack)
      case Go(s) => ForwardInLineIsPlain(lines, l, i + 1, s);
      case Stop(_) =>
    }
  }

  lemma BackwardStepInLine(lines: seq<string>, l: nat, i: nat, stack: seq<char>)
    requires l < |lines| && 0 < i <= |lines[l]| && Grounded(stack, '>')
    ensures var r := BackwardStep(lines[l], i - 1, stack);
      match r.step
      case Go(s) =>
        && Grounded(s, '>')
        && PlainBackward(lines, l, i, Real(stack)) == PlainBackward(lines, l, i - r.width, Real(s))
      case Stop(found) =>
        PlainBackward(lines, l, i, Real(stack)) == if found then Found(l, i - 1) else Mismatch
  {
    hide BackwardStep, PlainBackwardStep, Real, IsBracket;
    BackwardStepIsPlain(lines[l], i - 1, stack);
    var r := BackwardStep(lines[l], i - 1, stack);
    if r.width == 2 {
      PlainStepOverNoise(lines, l, i - 1, Real(r.step.stack));
    }
  }

  /** The scan of line `l` comes to what plain matching from the same place comes to. */
  ghost predicate BackwardAgrees(result: InLine, plain: Outcome, lines: seq<string>, l: nat)
    requires l < |lines|
  {
    match result
    case Partner(pos) => plain == Found(l, pos)
    case Failed => plain == Mismatch
    case Open(s) => Grounded(s, '>') && plain == PlainBackward(lines, l, 0, Real(s))
  }

  lemma {:induction false} BackwardInLineIsPlain(lines: seq<string>, l: nat, i: nat, stack: seq<char>)
    requires l < |lines| && i <= |lines[l]| && Grounded(stack, '>')
    ensures BackwardAgrees(BackwardInLine(lines[l], i, stack), PlainBackward(lines, l, i, Real(stack)), lines, l)
    decreases i
  {
    hide BackwardStep, Real, Grounded, PlainBackward;
    if 0 < i {
      BackwardStepInLine(lines, l, i, stack);
      var r := BackwardStep(lines[l], i - 1, stack);
      if r.step.Go? {
        hide BackwardAgrees;
        BackwardInLineIsPlain(lines, l, i - r.width, r.step.stack);
      }
    }
  }

  lemma PlainStepOverNoise(lines: seq<string>, l: nat, i: nat, stack: seq<char>)
    requires l < |lines| && 0 < i <= |lines[l]| && !IsBracket(lines[l][i - 1])
    ensures PlainBackward(lines, l, i, stack) == PlainBackward(lines, l, i - 1, stack)
  {
  }

  lemma {:induction false} ForwardIsPlain(lines: seq<string>, l: nat, i: nat, stack: seq<char>)
    requires l < |lines| && i <= |lines[l]| && Grounded(stack, '<')
    ensures Forward(lines, l, i, stack) == PlainForward(lines, l, i, Real(stack))
    decreases |lines| - l
  {
    ForwardInLineIsPlain(lines, l, i, stack);
    match ForwardInLine(lines[l], i, stack)
    case Open(s) =>
      if l + 1 < |lines| {
        ForwardIsPlain(lines, l + 1, 0, s);
      }
    case _ =>
  }

  lemma {:induction false} BackwardIsPlain(lines: seq<string>, l: nat, i: nat, stack: seq<char>)
    requires l < |lines| && i <= |lines[l]| && Grounded(stack, '>')
    ensures Backward(lines, l, i, stack) == PlainBackward(lines, l, i, Real(stack))
    decreases l
  {
    BackwardInLineIsPlain(lines, l, i, stack);
    match BackwardInLine(lines[l], i, stack)
    case Open(s) =>
      if 0 < l {
        BackwardIsPlain(lines, l - 1, |lines[l - 1]|, s);
      }
    case _ =>
  }

  lemma Alone(c: char)
    requires IsBracket(c)
    ensures [] + [c] == [c] && Real([c]) == [c] && Grounded([c], '<') && Grounded([c], '>')
  {
  }

  /**
   Started at a real opener, the forward matcher finds, fails or stays open exactly as plain matching
   of `()[]{}` does, at the same place, whatever stands in between.
   */
  lemma AngleBracketsAreNoise(lines: seq<string>, l: nat, p: nat)
    requires OpenerAt(lines, l, p)
    ensures Forward(lines, l, p, []) == PlainForward(lines, l, p, [])
  {
    var c := lines[l][p];
    Alone(c);
    hide EndsWithOperator, PopWhile, Real;
    ForwardIsPlain(lines, l, p + 1, [c]);
    assert ForwardInLine(lines[l], p, []) == ForwardInLine(lines[l], p + 1, [c]);
  }

  lemma AngleBracketsAreNoiseBackward(lines: seq<string>, l: nat, p: nat)
    requires CloserAt(lines, l, p)
    ensures Backward(lines, l, p + 1, []) == PlainBackward(lines, l, p + 1, [])
  {
    var c := lines[l][p];
    Alone(c);
    hide EndsWithOperator, StartsWithSpacedAtLeast, PopWhile, Real;
    BackwardIsPlain(lines, l, p, [c]);
    assert BackwardInLine(lines[l], p + 1, []) == BackwardInLine(lines[l], p, [c]);
  }

  /** The two matchers pair an opener and a closer with each other or not at all. */
  lemma MatchersUndoEachOther(lines: seq<string>, l: nat, p: nat, l': nat, p': nat)
    requires OpenerAt(lines, l, p) && CloserAt(lines, l', p')
    ensures CloseExpressionResult(lines, l, p) == (l', p' + 1) <==>
            ReverseCloseExpressionResult(lines, l', p') == (l, p)
  {
    AngleBracketsAreNoise(lines, l, p);
    AngleBracketsAreNoiseBackward(lines, l', p');
    PlainMatchingIsSymmetric(lines, l, p, l', p');
  }

  /** What the forward matcher finds for an opener, the backward matcher takes back to the opener. */
  lemma CloseThenReverse(lines: seq<string>, l: nat, p: nat)
    requires OpenerAt(lines, l, p) && CloseExpressionResult(lines, l, p).1 > -1
    ensures var (l', e) := CloseExpressionResult(lines, l, p);
      && l' < |lines| && 0 < e <= |lines[l']|
      && ReverseCloseExpressionResult(lines, l', e - 1) == (l, p)
  {
    var c := lines[l][p];
    assert [] + [c] == [c];
    AngleBracketsAreNoise(lines, l, p);
    BackwardRetracesForward(lines, l, p + 1, [c]);
    var (l', e) := CloseExpressionResult(lines, l, p);
    MatchersUndoEachOther(lines, l, p, l', e - 1);
  }

  /** The results depend on the brackets in the text and their places, and on nothing else in it. */
  lemma OnlyBracketsMatter(lines: seq<string>, other: seq<string>, l: nat, p: nat)
    requires SameBrackets(lines, other) && l < |lines| && p < |lines[l]|
    ensures IsOpener(lines[l][p]) ==> CloseExpressionResult(lines, l, p) == CloseExpressionResult(other, l, p)
    ensures IsCloser(lines[l][p]) ==>
      ReverseCloseExpressionResult(lines, l, p) == ReverseCloseExpressionResult(other, l, p)
  {
    if IsOpener(lines[l][p]) {
      AngleBracketsAreNoise(lines, l, p);
      AngleBracketsAreNoise(other, l, p);
      PlainForwardSeesBracketsOnly(lines, other, l, p, []);
    }
    if IsCloser(lines[l][p]) {
      AngleBracketsAreNoiseBackward(lines, l, p);
      AngleBracketsAreNoiseBackward(other, l, p);
      PlainBackwardSeesBracketsOnly(lines, other, l, p + 1, []);
    }
  }

  lemma {:induction false} PlainForwardOver(lines: seq<string>, l: nat, i: nat, j: nat, stack: seq<char>)
    requires l < |lines| && i <= j <= |lines[l]| && forall k :: i <= k < j ==> !IsBracket(lines[l][k])
    ensures PlainForward(lines, l, i, stack) == PlainForward(lines, l, j, stack)
    decreases j - i
  {
    if i < j {
      PlainForwardOver(lines, l, i + 1, j, stack);
    }
  }

  lemma {:induction false} PlainBackwardOver(lines: seq<string>, l: nat, i: nat, j: nat, stack: seq<char>)
    requires l < |lines| && i <= j <= |lines[l]| && forall k :: i <= k < j ==> !IsBracket(lines[l][k])
    ensures PlainBackward(lines, l, i, stack) == PlainBackward(lines, l, j, stack)
    decreases j - i
  {
    if i < j {
      PlainBackwardOver(lines, l, i, j - 1, stack);
    }
  }

  /** Which brackets belong together: of two with none between them, both matchers pair these and no others. */
  lemma BracketsThatPair(open: char, close: char, pre: string, mid: string, post: string)
    requires (open == '(' || open == '[' || open == '{') && (close == ')' || close == ']' || close == '}')
    requires forall k :: 0 <= k < |mid| ==> mid[k] !in {'(', ')', '[', ']', '{', '}'}
    ensures var lines, p, p' := [pre + [open] + mid + [close] + post], |pre|, |pre| + 1 + |mid|;
      var belong := (open, close) in {('(', ')'), ('[', ']'), ('{', '}')};
      && CloseExpressionResult(lines, 0, p) == (if belong then (0, p' + 1) else (1, -1))
      && ReverseCloseExpressionResult(lines, 0, p') == (if belong then (0, p) else (0, -1))
  {
    var line, p, p' := pre + [open] + mid + [close] + post, |pre|, |pre| + 1 + |mid|;
    forall k | p + 1 <= k < p'
      ensures !IsBracket(line[k])
    {
      assert line[k] == mid[k - p - 1];
    }
    ClosesWhatBelongs(line, p, p');
    OpensWhatBelongs(line, p, p');
  }

  lemma ClosesWhatBelongs(line: string, p: nat, p': nat)
    requires p < p' < |line| && IsOpener(line[p]) && IsCloser(line[p'])
    requires forall k :: p < k < p' ==> !IsBracket(line[k])
    ensures CloseExpressionResult([line], 0, p) == if Pairs(line[p], line[p']) then (0, p' + 1) else (1, -1)
  {
    hide EndsWithOperator, PopWhile, Forward, Pairs;
    var open := line[p];
    assert [] + [open] == [open];
    AngleBracketsAreNoise([line], 0, p);
    PlainForwardOver([line], 0, p + 1, p', [open]);
    assert line[p..][0] == open;
  }

  lemma OpensWhatBelongs(line: string, p: nat, p': nat)
    requires p < p' < |line| && IsOpener(line[p]) && IsCloser(line[p'])
    requires forall k :: p < k < p' ==> !IsBracket(line[k])
    ensures ReverseCloseExpressionResult([line], 0, p') == if Pairs(line[p], line[p']) then (0, p as int) else (0, -1)
  {
    hide EndsWithOperator, StartsWithSpacedAtLeast, PopWhile, Backward, Pairs;
    var close := line[p'];
    assert [] + [close] == [close];
    AngleBracketsAreNoiseBackward([line], 0, p');
    PlainBackwardOver([line], 0, p + 1, p', [close]);
  }

  /** For `<` it is not so: forward `>` closes it, backward the same `>` is taken for part of `>=`. */
  lemma AngleMatchingIsNotSymmetric()
    ensures CloseExpressionResult(["< >= "], 0, 0) == (0, 3)
    ensures ReverseCloseExpressionResult(["< >= "], 0, 2) == (0, -1)
  {
  }
}
