/** Brackets, the plain matching of brackets, and the tests on neighbouring characters. */
module Brackets {
  import opened Characters

  predicate IsOpener(c: char) {
    c == '(' || c == '[' || c == '{'
  }

  predicate IsCloser(c: char) {
    c == ')' || c == ']' || c == '}'
  }

  predicate IsBracket(c: char) {
    IsOpener(c) || IsCloser(c)
  }

  predicate Pairs(open: char, close: char) {
    (open == '(' && close == ')') || (open == '[' && close == ']') || (open == '{' && close == '}')
  }

  function Closing(open: char): char {
    if open == '(' then ')' else if open == '[' then ']' else '}'
  }

  function Opening(close: char): char {
    if close == ')' then '(' else if close == ']' then '[' else '{'
  }

  ////////// Tests on the text around a character //////////

  /** The regular expression `\boperator\s*$`. */
  predicate EndsWithOperator(s: string) {
    exists j :: 0 <= j <= |s| && IsOperatorAt(s, j)
  }

  predicate IsOperatorAt(s: string, j: nat) {
    && j + 8 <= |s| && s[j..j + 8] == "operator"
    && (j == 0 || !IsWord(s[j - 1]))
    && forall k :: j + 8 <= k < |s| ==> IsSpace(s[k])
  }

  /** `s` is `pre`, the word `operator`, and spaces. */
  ghost predicate EndsInOperator(s: string, pre: string, spaces: string) {
    AllSpace(spaces) && s == pre + "operator" + spaces && (pre == [] || !IsWord(pre[|pre| - 1]))
  }

  /** The test finds `operator` at the end of a text where it is a word of its own, and nowhere else. */
  lemma EndsWithOperatorIff(s: string)
    ensures EndsWithOperator(s) <==> exists pre, spaces :: EndsInOperator(s, pre, spaces)
  {
    if pre, spaces :| EndsInOperator(s, pre, spaces) {
      EndIsOperator(s, pre, spaces);
    }
    if j :| 0 <= j <= |s| && IsOperatorAt(s, j) {
      OperatorIsEnd(s, j);
    }
  }

  lemma EndIsOperator(s: string, pre: string, spaces: string)
    requires EndsInOperator(s, pre, spaces)
    ensures IsOperatorAt(s, |pre|)
  {
    assert s[|pre|..|pre| + 8] == "operator";
  }

  lemma OperatorIsEnd(s: string, j: nat)
    requires IsOperatorAt(s, j)
    ensures EndsInOperator(s, s[..j], s[j + 8..])
  {
    assert s == s[..j] + s[j..j + 8] + s[j + 8..];
  }

  /** Whatever stands before it, `operator` counts exactly if the character before is no part of a word. */
  lemma OperatorIsAWord(pre: string, spaces: string)
    requires AllSpace(spaces)
    ensures EndsWithOperator(pre + "operator" + spaces) <==> pre == [] || !IsWord(pre[|pre| - 1])
  {
    var s := pre + "operator" + spaces;
    if pre == [] || !IsWord(pre[|pre| - 1]) {
      assert EndsInOperator(s, pre, spaces);
      EndsWithOperatorIff(s);
    }
    if j :| 0 <= j <= |s| && IsOperatorAt(s, j) {
      assert s[|pre| + 7] == 'r' && s[j + 7] == s[j..j + 8][7];
      SpacesBeginOnce(s, |pre| + 7, j + 7);
    }
  }

  lemma SpacesBeginOnce(s: string, a: nat, b: nat)
    requires a < |s| && !IsSpace(s[a]) && forall k :: a < k < |s| ==> IsSpace(s[k])
    requires b < |s| && !IsSpace(s[b]) && forall k :: b < k < |s| ==> IsSpace(s[k])
    ensures a == b
  {
  }

  /** The regular expression `\s>=\s` at the start of the text. */
  predicate StartsWithSpacedAtLeast(s: string) {
    4 <= |s| && IsSpace(s[0]) && s[1] == '>' && s[2] == '=' && IsSpace(s[3])
  }

  /** The regular expression `<[<=]` at the start of the text. */
  predicate StartsWithShiftOrAtMost(s: string) {
    2 <= |s| && s[0] == '<' && (s[1] == '<' || s[1] == '=')
  }

  ////////// Scanning outcomes //////////

  /** One character of a scan: go on with this stack, or stop, having found the partner or failed. */
  datatype Step = Go(stack: seq<char>) | Stop(found: bool)

  datatype Outcome = Found(line: nat, pos: nat) | Mismatch | Unclosed

  function Top(stack: seq<char>): char
    requires stack != []
  {
    stack[|stack| - 1]
  }

  function Rest(stack: seq<char>): seq<char>
    requires stack != []
  {
    stack[..|stack| - 1]
  }

  ////////// Plain matching: only brackets count //////////

  function PlainForwardStep(c: char, stack: seq<char>): Step {
    if IsOpener(c) then Go(stack + [c])
    else if IsCloser(c) then
      if stack == [] || !Pairs(Top(stack), c) then Stop(false)
      else if |stack| == 1 then Stop(true)
      else Go(Rest(stack))
    else Go(stack)
  }

  function PlainBackwardStep(c: char, stack: seq<char>): Step {
    if IsCloser(c) then Go(stack + [c])
    else if IsOpener(c) then
      if stack == [] || !Pairs(c, Top(stack)) then Stop(false)
      else if |stack| == 1 then Stop(true)
      else Go(Rest(stack))
    else Go(stack)
  }

  /** Matches forward from the gap before the `i`-th character of line `l`. */
  function PlainForward(lines: seq<string>, l: nat, i: nat, stack: seq<char>): Outcome
    requires l < |lines| && i <= |lines[l]|
    decreases |lines| - l, |lines[l]| - i
  {
    if i == |lines[l]| then
      if l + 1 == |lines| then Unclosed else PlainForward(lines, l + 1, 0, stack)
    else
      match PlainForwardStep(lines[l][i], stack)
      case Go(s) => PlainForward(lines, l, i + 1, s)
      case Stop(found) => if found then Found(l, i + 1) else Mismatch
  }

  /** Matches backward from the gap before the `i`-th character of line `l`. */
  function PlainBackward(lines: seq<string>, l: nat, i: nat, stack: seq<char>): Outcome
    requires l < |lines| && i <= |lines[l]|
    decreases l, i
  {
    if i == 0 then
      if l == 0 then Unclosed else PlainBackward(lines, l - 1, |lines[l - 1]|, stack)
    else
      match PlainBackwardStep(lines[l][i - 1], stack)
      case Go(s) => PlainBackward(lines, l, i - 1, s)
      case Stop(found) => if found then Found(l, i - 1) else Mismatch
  }

  /** Two texts of the same shape with the same brackets at the same places. */
  ghost predicate SameBrackets(lines: seq<string>, other: seq<string>) {
    && |lines| == |other|
    && forall l :: 0 <= l < |lines| ==> SameBracketsInLine(lines[l], other[l])
  }

  ghost predicate SameBracketsInLine(line: string, other: string) {
    && |line| == |other|
    && forall i :: 0 <= i < |line| ==> line[i] == other[i] || !(IsBracket(line[i]) || IsBracket(other[i]))
  }

  lemma {:induction false} PlainForwardSeesBracketsOnly(lines: seq<string>, other: seq<string>, l: nat, i: nat,
                                                        stack: seq<char>)
    requires SameBrackets(lines, other) && l < |lines| && i <= |lines[l]|
    ensures PlainForward(lines, l, i, stack) == PlainForward(other, l, i, stack)
    decreases |lines| - l, |lines[l]| - i
  {
    assert SameBracketsInLine(lines[l], other[l]);
    if i == |lines[l]| {
      if l + 1 < |lines| {
        PlainForwardSeesBracketsOnly(lines, other, l + 1, 0, stack);
      }
    } else {
      match PlainForwardStep(lines[l][i], stack)
      case Go(s) => PlainForwardSeesBracketsOnly(lines, other, l, i + 1, s);
      case Stop(_) =>
    }
  }

  lemma {:induction false} PlainBackwardSeesBracketsOnly(lines: seq<string>, other: seq<string>, l: nat, i: nat,
                                                         stack: seq<char>)
    requires SameBrackets(lines, other) && l < |lines| && i <= |lines[l]|
    ensures PlainBackward(lines, l, i, stack) == PlainBackward(other, l, i, stack)
    decreases l, i
  {
    assert SameBracketsInLine(lines[l], other[l]);
    if i == 0 {
      if 0 < l {
        assert SameBracketsInLine(lines[l - 1], other[l - 1]);
        PlainBackwardSeesBracketsOnly(lines, other, l - 1, |lines[l - 1]|, stack);
      }
    } else {
      match PlainBackwardStep(lines[l][i - 1], stack)
      case Go(s) => PlainBackwardSeesBracketsOnly(lines, other, l, i - 1, s);
      case Stop(_) =>
    }
  }

  ////////// The two plain scans undo each other //////////

  ghost predicate AllOpeners(stack: seq<char>) {
    forall i :: 0 <= i < |stack| ==> IsOpener(stack[i])
  }

  ghost predicate AllClosers(stack: seq<char>) {
    forall i :: 0 <= i < |stack| ==> IsCloser(stack[i])
  }

  /** The closers that a stack of openers waits for. */
  function Mirror(stack: seq<char>): (m: seq<char>)
    ensures |m| == |stack|
  {
    seq(|stack|, i requires 0 <= i < |stack| => Closing(stack[i]))
  }

  function MirrorBack(stack: seq<char>): (m: seq<char>)
    ensures |m| == |stack|
  {
    seq(|stack|, i requires 0 <= i < |stack| => Opening(stack[i]))
  }

  /** A backward step over a character takes back the forward step over it. */
  lemma BackwardStepUndoesForwardStep(c: char, stack: seq<char>)
    requires stack != [] && AllOpeners(stack)
    ensures match PlainForwardStep(c, stack)
            case Go(s) => s != [] && AllOpeners(s) && PlainBackwardStep(c, Mirror(s)) == Go(Mirror(stack))
            case Stop(found) => found ==> PlainBackwardStep(c, []) == Go(Mirror(stack))
  {
  }

  lemma ForwardStepUndoesBackwardStep(c: char, stack: seq<char>)
    requires stack != [] && AllClosers(stack)
    ensures match PlainBackwardStep(c, stack)
            case Go(s) => s != [] && AllClosers(s) && PlainForwardStep(c, MirrorBack(s)) == Go(MirrorBack(stack))
            case Stop(found) => found ==> PlainForwardStep(c, []) == Go(MirrorBack(stack))
  {
  }

  /** Scanning back from where a forward scan ended passes the place it came through. */
  lemma {:induction false} BackwardRetracesForward(lines: seq<string>, l: nat, i: nat, stack: seq<char>)
    requires l < |lines| && i <= |lines[l]| && stack != [] && AllOpeners(stack)
    requires PlainForward(lines, l, i, stack).Found?
    ensures var end := PlainForward(lines, l, i, stack);
      && end.line < |lines| && 0 < end.pos <= |lines[end.line]| && IsCloser(lines[end.line][end.pos - 1])
      && PlainBackward(lines, end.line, end.pos, []) == PlainBackward(lines, l, i, Mirror(stack))
    decreases |lines| - l, |lines[l]| - i
  {
    if i == |lines[l]| {
      BackwardRetracesForward(lines, l + 1, 0, stack);
    } else {
      BackwardStepUndoesForwardStep(lines[l][i], stack);
      match PlainForwardStep(lines[l][i], stack)
      case Go(s) => BackwardRetracesForward(lines, l, i + 1, s);
      case Stop(_) =>
    }
  }

  lemma {:induction false} ForwardRetracesBackward(lines: seq<string>, l: nat, i: nat, stack: seq<char>)
    requires l < |lines| && i <= |lines[l]| && stack != [] && AllClosers(stack)
    requires PlainBackward(lines, l, i, stack).Found?
    ensures var start := PlainBackward(lines, l, i, stack);
      && start.line < |lines| && start.pos < |lines[start.line]| && IsOpener(lines[start.line][start.pos])
      && PlainForward(lines, start.line, start.pos, []) == PlainForward(lines, l, i, MirrorBack(stack))
    decreases l, i
  {
    if i == 0 {
      ForwardRetracesBackward(lines, l - 1, |lines[l - 1]|, stack);
    } else {
      ForwardStepUndoesBackwardStep(lines[l][i - 1], stack);
      match PlainBackwardStep(lines[l][i - 1], stack)
      case Go(s) => ForwardRetracesBackward(lines, l, i - 1, s);
      case Stop(_) =>
    }
  }

  predicate OpenerAt(lines: seq<string>, l: nat, p: nat) {
    l < |lines| && p < |lines[l]| && IsOpener(lines[l][p])
  }

  predicate CloserAt(lines: seq<string>, l: nat, p: nat) {
    l < |lines| && p < |lines[l]| && IsCloser(lines[l][p])
  }

  /** Plain matching pairs an opener with a closer in one direction iff it does in the other. */
  lemma PlainMatchingIsSymmetric(lines: seq<string>, l: nat, p: nat, l': nat, p': nat)
    requires OpenerAt(lines, l, p) && CloserAt(lines, l', p')
    ensures PlainForward(lines, l, p, []) == Found(l', p' + 1) <==>
            PlainBackward(lines, l', p' + 1, []) == Found(l, p)
  {
    var open, close := lines[l][p], lines[l'][p'];
    assert [] + [open] == [open] && [] + [close] == [close];
    if PlainForward(lines, l, p, []) == Found(l', p' + 1) {
      BackwardRetracesForward(lines, l, p + 1, [open]);
      assert Mirror([open]) == [Closing(open)];
    }
    if PlainBackward(lines, l', p' + 1, []) == Found(l, p) {
      ForwardRetracesBackward(lines, l', p', [close]);
      assert MirrorBack([close]) == [Opening(close)];
    }
  }
}
