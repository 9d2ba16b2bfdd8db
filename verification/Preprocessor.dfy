/**
 The nesting state across preprocessor conditionals. A line is taken with its place in the file; what
 the rest of the update makes of a line is a parameter, a step on the stack of open blocks.
 */
module Preprocessor {
  import opened Characters

  datatype Line = Line(number: nat, text: string)

  /** Checkpoints of the nesting stack of one open `#if`. */
  datatype PreprocessorInfo<B> = PreprocessorInfo(stackBeforeIf: seq<B>, stackBeforeElse: seq<B>, seenElse: bool)

  datatype State<B> = State(stack: seq<B>, ppStack: seq<PreprocessorInfo<B>>)

  ////////// Recognising directives //////////

  datatype Directive = If | Else | Endif | NoDirective

  function SkipSpace(s: string): string {
    if s != [] && IsSpace(s[0]) then SkipSpace(s[1..]) else s
  }

  /** `s` starts with the word `w`, and the word ends there. */
  predicate StartsWithWord(s: string, w: string) {
    w <= s && (|s| == |w| || !IsWord(s[|w|]))
  }

  /** The directive that a line is, by the regular expressions that tell one. */
  function DirectiveOf(text: string): Directive {
    var s := SkipSpace(text);
    if s == [] || s[0] != '#' then NoDirective
    else
      var word := SkipSpace(s[1..]);
      if StartsWithWord(word, "if") || StartsWithWord(word, "ifdef") || StartsWithWord(word, "ifndef") then If
      else if StartsWithWord(word, "else") || StartsWithWord(word, "elif") then Else
      else if StartsWithWord(word, "endif") then Endif
      else NoDirective
  }

  /** `text` is the directive `word`: `a`, a `#`, `b`, the word, and a tail that does not continue the word. */
  ghost predicate ReadsAs(text: string, a: string, b: string, word: string, tail: string) {
    AllSpace(a) && AllSpace(b) && (tail == [] || !IsWord(tail[0])) && text == a + "#" + b + word + tail
  }

  ghost predicate Reads(text: string, word: string) {
    exists a, b, tail :: ReadsAs(text, a, b, word, tail)
  }

  lemma {:induction false} SkipsSpace(s: string) returns (a: string)
    ensures AllSpace(a) && s == a + SkipSpace(s) && (SkipSpace(s) == [] || !IsSpace(SkipSpace(s)[0]))
  {
    if s != [] && IsSpace(s[0]) {
      a := SkipsSpace(s[1..]);
      a := [s[0]] + a;
    } else {
      a := [];
    }
  }

  lemma {:induction false} SkipsOnlySpace(a: string, s: string)
    requires AllSpace(a) && s != [] && !IsSpace(s[0])
    ensures SkipSpace(a + s) == s
  {
    if a == [] {
      assert a + s == s;
    } else {
      assert (a + s)[1..] == a[1..] + s;
      SkipsOnlySpace(a[1..], s);
    }
  }

  /** The word that skipping finds behind the `#`. */
  predicate FindsWord(text: string, word: string) {
    var s := SkipSpace(text);
    s != [] && s[0] == '#' && StartsWithWord(SkipSpace(s[1..]), word)
  }

  lemma ReadIsFound(text: string, a: string, b: string, word: string, tail: string)
    requires ReadsAs(text, a, b, word, tail) && word != [] && !IsSpace(word[0])
    ensures FindsWord(text, word)
  {
    hide SkipSpace;
    var rest := b + (word + tail);
    assert text == a + ("#" + rest);
    SkipsOnlySpace(a, "#" + rest);
    assert ("#" + rest)[1..] == rest;
    SkipsOnlySpace(b, word + tail);
  }

  lemma FoundIsRead(text: string, word: string)
    requires FindsWord(text, word)
    ensures Reads(text, word)
  {
    hide SkipSpace, AllSpace;
    var s := SkipSpace(text);
    var a := SkipsSpace(text);
    var b := SkipsSpace(s[1..]);
    var found := SkipSpace(s[1..]);
    var tail := found[|word|..];
    assert found == word + tail;
    assert s == "#" + s[1..];
    assert text == a + "#" + b + word + tail;
    assert ReadsAs(text, a, b, word, tail);
  }

  lemma ReadsIff(text: string, word: string)
    requires word != [] && !IsSpace(word[0])
    ensures Reads(text, word) <==> FindsWord(text, word)
  {
    hide ReadsAs, FindsWord;
    if a, b, tail :| ReadsAs(text, a, b, word, tail) {
      ReadIsFound(text, a, b, word, tail);
    }
    if FindsWord(text, word) {
      FoundIsRead(text, word);
    }
  }

  lemma OneWord(s: string, v: string, w: string)
    requires StartsWithWord(s, v) && StartsWithWord(s, w)
    requires (forall i :: 0 <= i < |v| ==> IsWord(v[i])) && forall i :: 0 <= i < |w| ==> IsWord(w[i])
    ensures v == w
  {
  }

  /** A line is the directive that its word says, and no other line is one. */
  lemma DirectiveIsTheWord(text: string)
    ensures DirectiveOf(text).If? <==> Reads(text, "if") || Reads(text, "ifdef") || Reads(text, "ifndef")
    ensures DirectiveOf(text).Else? <==> Reads(text, "else") || Reads(text, "elif")
    ensures DirectiveOf(text).Endif? <==> Reads(text, "endif")
  {
    hide SkipSpace, StartsWithWord, Reads;
    var words := ["if", "ifdef", "ifndef", "else", "elif", "endif"];
    forall w | w in words
      ensures Reads(text, w) <==> FindsWord(text, w)
    {
      ReadsIff(text, w);
    }
    var s := SkipSpace(text);
    if s != [] && s[0] == '#' {
      var behind := SkipSpace(s[1..]);
      forall v, w | v in words && w in words && StartsWithWord(behind, v) && StartsWithWord(behind, w)
        ensures v == w
      {
        OneWord(behind, v, w);
      }
      assert words[0] == "if" && words[1] == "ifdef" && words[2] == "ifndef";
      assert words[3] == "else" && words[4] == "elif" && words[5] == "endif";
    }
  }

  ////////// The update //////////

  /** What a line does to the state before the rest of the update looks at it. */
  function UpdatePreprocessorState<B>(s: State<B>, text: string): State<B> {
    var top := |s.ppStack| - 1;
    match DirectiveOf(text)
    case If => s.(ppStack := s.ppStack + [PreprocessorInfo(s.stack, [], false)])
    case Else =>
      if s.ppStack == [] then s
      else
        var info := s.ppStack[top];
        var seen := if info.seenElse then info else info.(seenElse := true, stackBeforeElse := s.stack);
        State(info.stackBeforeIf, s.ppStack[..top] + [seen])
    case Endif =>
      if s.ppStack == [] then s
      else
        var info := s.ppStack[top];
        State(if info.seenElse then info.stackBeforeElse else s.stack, s.ppStack[..top])
    case NoDirective => s
  }

  function UpdateState<B>(s: State<B>, line: Line, step: (seq<B>, Line) -> seq<B>): State<B> {
    var s' := UpdatePreprocessorState(s, line.text);
    s'.(stack := step(s'.stack, line))
  }

  function UpdateAll<B>(s: State<B>, lines: seq<Line>, step: (seq<B>, Line) -> seq<B>): State<B>
    decreases |lines|
  {
    if lines == [] then s else UpdateAll(UpdateState(s, lines[0], step), lines[1..], step)
  }

  lemma {:induction false} UpdateAllConcat<B>(s: State<B>, a: seq<Line>, b: seq<Line>, step: (seq<B>, Line) -> seq<B>)
    ensures UpdateAll(s, a + b, step) == UpdateAll(UpdateAll(s, a, step), b, step)
    decreases |a|
  {
    if a == [] {
      assert a + b == b;
    } else {
      assert (a + b)[1..] == a[1..] + b;
      UpdateAllConcat(UpdateState(s, a[0], step), a[1..], b, step);
    }
  }

  class NestingState<B> {
    var stack: seq<B>
    var ppStack: seq<PreprocessorInfo<B>>

    constructor ()
      ensures stack == [] && ppStack == []
    {
      stack, ppStack := [], [];
    }

    function Current(): State<B>
      reads this
    {
      State(stack, ppStack)
    }

    method UpdatePreprocessor(text: string)
      modifies this
      ensures Current() == UpdatePreprocessorState(old(Current()), text)
    {
      var top := |ppStack| - 1;
      var directive := DirectiveOf(text);
      if directive == If {
        ppStack := ppStack + [PreprocessorInfo(stack, [], false)];
      } else if directive == Else {
        if ppStack != [] {
          if !ppStack[top].seenElse {
            ppStack := ppStack[..top] + [ppStack[top].(seenElse := true, stackBeforeElse := stack)];
          }
          stack := ppStack[top].stackBeforeIf;
          assert ppStack == ppStack[..top] + [ppStack[top]];
        }
      } else if directive == Endif {
        if ppStack != [] {
          if ppStack[top].seenElse {
            stack := ppStack[top].stackBeforeElse;
          }
          ppStack := ppStack[..top];
        }
      }
    }

    /** Updates the state with the next line; `step` is what the update does besides directives. */
    method Update(line: Line, step: (seq<B>, Line) -> seq<B>)
      modifies this
      ensures Current() == UpdateState(old(Current()), line, step)
    {
      UpdatePreprocessor(line.text);
      stack := step(stack, line);
    }
  }

  /**
   Runs a whole text through the nesting state. Whatever the lines are, the stack is in the end what the
   steps of the active lines make of it, one after the other.
   */
  method Process<B>(state: NestingState<B>, lines: seq<Line>, step: (seq<B>, Line) -> seq<B>)
    modifies state
    ensures state.Current() == UpdateAll(old(state.Current()), lines, step)
    ensures old(state.ppStack) == [] ==>
      && state.stack == Fold(old(state.stack), ActiveLines(PrefixOf(lines)), step)
      && |state.ppStack| == Depth(PrefixOf(lines))
    ensures WellNested(lines, 0) ==>
      && state.ppStack == old(state.ppStack)
      && exists t ::
        && WellFormed(t) && LinesOf(t) == lines
        && state.stack == Fold(old(state.stack), LinesOf(FirstBranches(t)), step)
    ensures (forall line :: line in lines ==> DirectiveOf(line.text).NoDirective?) ==>
      state.ppStack == old(state.ppStack) && state.stack == Fold(old(state.stack), lines, step)
  {
    hide DirectiveOf, UpdateState, WellFormed, FirstBranches, LinesOf, WellNested, Fold, ActiveLines, PrefixOf, Depth;
    WhatProcessingMeans(lines, state.Current(), step);
    for i := 0 to |lines|
      invariant UpdateAll(state.Current(), lines[i..], step) == UpdateAll(old(state.Current()), lines, step)
    {
      assert lines[i..][1..] == lines[i + 1..];
      state.Update(lines[i], step);
    }
  }

  ////////// Well-nested texts //////////

  /** A well-nested text: ordinary lines, and conditionals with any number of further branches. */
  datatype Text =
    | Empty
    | Plain(line: Line, rest: Text)
    | Conditional(ifLine: Line, body: Text, branches: Branches, endifLine: Line, rest: Text)

  datatype Branches = NoBranches | Branch(elseLine: Line, body: Text, more: Branches)

  predicate WellFormed(t: Text) {
    match t
    case Empty => true
    case Plain(line, rest) => DirectiveOf(line.text).NoDirective? && WellFormed(rest)
    case Conditional(ifLine, body, branches, endifLine, rest) =>
      && DirectiveOf(ifLine.text).If? && DirectiveOf(endifLine.text).Endif?
      && WellFormed(body) && WellFormedBranches(branches) && WellFormed(rest)
  }

  predicate WellFormedBranches(bs: Branches) {
    match bs
    case NoBranches => true
    case Branch(elseLine, body, more) =>
      DirectiveOf(elseLine.text).Else? && WellFormed(body) && WellFormedBranches(more)
  }

  function LinesOf(t: Text): seq<Line> {
    match t
    case Empty => []
    case Plain(line, rest) => [line] + LinesOf(rest)
    case Conditional(ifLine, body, branches, endifLine, rest) =>
      [ifLine] + LinesOf(body) + LinesOfBranches(branches) + [endifLine] + LinesOf(rest)
  }

  function LinesOfBranches(bs: Branches): seq<Line> {
    match bs
    case NoBranches => []
    case Branch(elseLine, body, more) => [elseLine] + LinesOf(body) + LinesOfBranches(more)
  }

  /** The text without any `#else` or `#elif` line and the branch behind it. */
  function FirstBranches(t: Text): Text {
    match t
    case Empty => Empty
    case Plain(line, rest) => Plain(line, FirstBranches(rest))
    case Conditional(ifLine, body, _, endifLine, rest) =>
      Conditional(ifLine, FirstBranches(body), NoBranches, endifLine, FirstBranches(rest))
  }

  ////////// The first branch wins //////////

  lemma UpdateOne<B>(s: State<B>, line: Line, step: (seq<B>, Line) -> seq<B>)
    ensures UpdateAll(s, [line], step) == UpdateState(s, line, step)
  {
  }

  /** A well-nested text leaves the open conditionals as they were. */
  lemma {:induction false} PpStackIsRestored<B>(t: Text, s: State<B>, step: (seq<B>, Line) -> seq<B>)
    requires WellFormed(t)
    ensures UpdateAll(s, LinesOf(t), step).ppStack == s.ppStack
    decreases t
  {
    hide DirectiveOf;
    match t
    case Empty =>
    case Plain(line, rest) =>
      UpdateAllConcat(s, [line], LinesOf(rest), step);
      UpdateOne(s, line, step);
      PpStackIsRestored(rest, UpdateState(s, line, step), step);
    case Conditional(ifLine, body, branches, endifLine, rest) =>
      var afterIf := UpdateState(s, ifLine, step);
      var afterBody := UpdateAll(afterIf, LinesOf(body), step);
      ConditionalSteps(s, ifLine, body, branches, endifLine, rest, step);
      PpStackIsRestored(body, afterIf, step);
      BranchesKeepCheckpoint(branches, afterBody, step);
      var afterBranches := UpdateAll(afterBody, LinesOfBranches(branches), step);
      var afterEndif := UpdateState(afterBranches, endifLine, step);
      EndifRestores(afterBody, afterBranches, endifLine, step);
      assert afterEndif.ppStack == s.ppStack;
      PpStackIsRestored(rest, afterEndif, step);
  }

  /** Processing a conditional is processing its parts in turn. */
  lemma ConditionalSteps<B>(s: State<B>, ifLine: Line, body: Text, branches: Branches, endifLine: Line, rest: Text,
                            step: (seq<B>, Line) -> seq<B>)
    ensures
      var afterBody := UpdateAll(UpdateState(s, ifLine, step), LinesOf(body), step);
      var afterEndif := UpdateState(UpdateAll(afterBody, LinesOfBranches(branches), step), endifLine, step);
      UpdateAll(s, LinesOf(Conditional(ifLine, body, branches, endifLine, rest)), step)
      == UpdateAll(afterEndif, LinesOf(rest), step)
  {
    var a, b := [ifLine] + LinesOf(body), LinesOfBranches(branches);
    UpdateOne(s, ifLine, step);
    UpdateAllConcat(s, [ifLine], LinesOf(body), step);
    UpdateAllConcat(s, a, b, step);
    UpdateAllConcat(s, a + b, [endifLine], step);
    UpdateAllConcat(s, a + b + [endifLine], LinesOf(rest), step);
    UpdateOne(UpdateAll(s, a + b, step), endifLine, step);
  }

  /** The stack that an `#endif` restores: the one remembered, or else the present one. */
  function Remembered<B>(s: State<B>): seq<B>
    requires s.ppStack != []
  {
    var info := s.ppStack[|s.ppStack| - 1];
    if info.seenElse then info.stackBeforeElse else s.stack
  }

  /** Whatever the further branches of a conditional hold, its `#endif` restores the same stack. */
  lemma {:induction false} BranchesKeepCheckpoint<B>(bs: Branches, s: State<B>, step: (seq<B>, Line) -> seq<B>)
    requires WellFormedBranches(bs) && s.ppStack != []
    ensures var r := UpdateAll(s, LinesOfBranches(bs), step);
      && |r.ppStack| == |s.ppStack| && r.ppStack[..|r.ppStack| - 1] == s.ppStack[..|s.ppStack| - 1]
      && Remembered(r) == Remembered(s)
      && r.ppStack[|r.ppStack| - 1].stackBeforeIf == s.ppStack[|s.ppStack| - 1].stackBeforeIf
    decreases bs
  {
    match bs
    case NoBranches =>
    case Branch(elseLine, body, more) =>
      hide LinesOf, DirectiveOf;
      var afterElse := UpdateState(s, elseLine, step);
      var afterBody := UpdateAll(afterElse, LinesOf(body), step);
      UpdateOne(s, elseLine, step);
      UpdateAllConcat(s, [elseLine], LinesOf(body), step);
      UpdateAllConcat(s, [elseLine] + LinesOf(body), LinesOfBranches(more), step);
      PpStackIsRestored(body, afterElse, step);
      BranchesKeepCheckpoint(more, afterBody, step);
  }

  /**
   Processing a well-nested text leaves exactly the state that it leaves with every `#else` and
   `#elif` branch deleted, wherever it starts and whatever the rest of the update does.
   */
  lemma {:induction false} FirstBranchWins<B>(t: Text, s: State<B>, step: (seq<B>, Line) -> seq<B>)
    requires WellFormed(t)
    ensures UpdateAll(s, LinesOf(t), step) == UpdateAll(s, LinesOf(FirstBranches(t)), step)
    ensures UpdateAll(s, LinesOf(t), step).ppStack == s.ppStack
    decreases t
  {
    hide DirectiveOf;
    PpStackIsRestored(t, s, step);
    match t
    case Empty =>
    case Plain(line, rest) =>
      UpdateOne(s, line, step);
      UpdateAllConcat(s, [line], LinesOf(rest), step);
      UpdateAllConcat(s, [line], LinesOf(FirstBranches(rest)), step);
      FirstBranchWins(rest, UpdateState(s, line, step), step);
    case Conditional(ifLine, body, branches, endifLine, rest) =>
      var afterIf := UpdateState(s, ifLine, step);
      var afterBody := UpdateAll(afterIf, LinesOf(body), step);
      ConditionalSteps(s, ifLine, body, branches, endifLine, rest, step);
      ConditionalSteps(s, ifLine, FirstBranches(body), NoBranches, endifLine, FirstBranches(rest), step);
      FirstBranchWins(body, afterIf, step);
      BranchesKeepCheckpoint(branches, afterBody, step);
      var afterBranches := UpdateAll(afterBody, LinesOfBranches(branches), step);
      EndifRestores(afterBody, afterBranches, endifLine, step);
      FirstBranchWins(rest, UpdateState(afterBody, endifLine, step), step);
  }

  lemma EndifRestores<B>(s: State<B>, r: State<B>, endifLine: Line, step: (seq<B>, Line) -> seq<B>)
    requires DirectiveOf(endifLine.text).Endif? && s.ppStack != [] && |r.ppStack| == |s.ppStack|
    requires r.ppStack[..|r.ppStack| - 1] == s.ppStack[..|s.ppStack| - 1] && Remembered(r) == Remembered(s)
    ensures UpdateState(r, endifLine, step) == UpdateState(s, endifLine, step)
  {
  }

  ////////// Well-nested sequences of lines //////////

  /** `lines` closes `depth` conditionals that are open before it, and all that it opens itself. */
  predicate WellNested(lines: seq<Line>, depth: nat) {
    if lines == [] then depth == 0
    else
      match DirectiveOf(lines[0].text)
      case If => WellNested(lines[1..], depth + 1)
      case Else => 0 < depth && WellNested(lines[1..], depth)
      case Endif => 0 < depth && WellNested(lines[1..], depth - 1)
      case NoDirective => WellNested(lines[1..], depth)
  }

  predicate StartsWith(lines: seq<Line>, d: Directive) {
    lines != [] && DirectiveOf(lines[0].text) == d
  }

  lemma {:induction false} ParseText(lines: seq<Line>, depth: nat) returns (t: Text, rest: seq<Line>)
    requires WellNested(lines, depth)
    ensures WellFormed(t) && lines == LinesOf(t) + rest && WellNested(rest, depth)
    ensures rest == [] || StartsWith(rest, Else) || StartsWith(rest, Endif)
    decreases |lines|
  {
    hide DirectiveOf;
    if lines == [] || StartsWith(lines, Else) || StartsWith(lines, Endif) {
      return Empty, lines;
    }
    if StartsWith(lines, NoDirective) {
      t, rest := ParseText(lines[1..], depth);
      t := Plain(lines[0], t);
    } else {
      var body, afterBody := ParseText(lines[1..], depth + 1);
      var branches, afterBranches := ParseBranches(afterBody, depth);
      var after;
      after, rest := ParseText(afterBranches[1..], depth);
      t := Conditional(lines[0], body, branches, afterBranches[0], after);
      JoinConditional(lines, body, afterBody, branches, afterBranches, after, rest);
    }
  }

  lemma JoinConditional(lines: seq<Line>, body: Text, afterBody: seq<Line>, branches: Branches,
                        afterBranches: seq<Line>, after: Text, rest: seq<Line>)
    requires lines != [] && lines[1..] == LinesOf(body) + afterBody
    requires afterBody == LinesOfBranches(branches) + afterBranches
    requires afterBranches != [] && afterBranches[1..] == LinesOf(after) + rest
    ensures lines == LinesOf(Conditional(lines[0], body, branches, afterBranches[0], after)) + rest
  {
    hide LinesOfBranches;
    var c := Conditional(lines[0], body, branches, afterBranches[0], after);
    assert LinesOf(c)
      == [lines[0]] + LinesOf(body) + LinesOfBranches(branches) + [afterBranches[0]] + LinesOf(after);
    hide LinesOf;
    Regroup(lines[0], LinesOf(body), LinesOfBranches(branches), afterBranches[0], LinesOf(after), rest);
    assert lines == [lines[0]] + lines[1..] && afterBranches == [afterBranches[0]] + afterBranches[1..];
  }

  lemma {:induction false} ParseBranches(lines: seq<Line>, depth: nat) returns (bs: Branches, rest: seq<Line>)
    requires WellNested(lines, depth + 1) && (lines == [] || StartsWith(lines, Else) || StartsWith(lines, Endif))
    ensures WellFormedBranches(bs) && lines == LinesOfBranches(bs) + rest
    ensures WellNested(rest, depth + 1) && StartsWith(rest, Endif)
    decreases |lines|
  {
    hide DirectiveOf;
    if StartsWith(lines, Endif) {
      return NoBranches, lines;
    }
    var body, afterBody := ParseText(lines[1..], depth + 1);
    var more;
    more, rest := ParseBranches(afterBody, depth);
    bs := Branch(lines[0], body, more);
    assert lines == [lines[0]] + LinesOf(body) + LinesOfBranches(more) + rest;
  }

  /** Every well-nested sequence of lines is a well-nested text. */
  lemma WellNestedIsText(lines: seq<Line>) returns (t: Text)
    requires WellNested(lines, 0)
    ensures WellFormed(t) && LinesOf(t) == lines
  {
    var rest;
    t, rest := ParseText(lines, 0);
    assert rest == [];
  }

  lemma {:induction false} TextIsWellNested(t: Text, rest: seq<Line>, depth: nat)
    requires WellFormed(t)
    ensures WellNested(LinesOf(t) + rest, depth) == WellNested(rest, depth)
    decreases t
  {
    hide DirectiveOf;
    var lines := LinesOf(t) + rest;
    match t
    case Empty =>
      assert lines == rest;
    case Plain(line, more) =>
      assert lines[1..] == LinesOf(more) + rest;
      TextIsWellNested(more, rest, depth);
    case Conditional(ifLine, body, branches, endifLine, more) =>
      var afterBranches := [endifLine] + (LinesOf(more) + rest);
      SplitConditional(ifLine, body, branches, endifLine, more, rest);
      TextIsWellNested(body, LinesOfBranches(branches) + afterBranches, depth + 1);
      BranchesAreWellNested(branches, afterBranches, depth + 1);
      TextIsWellNested(more, rest, depth);
  }

  lemma SplitConditional(ifLine: Line, body: Text, branches: Branches, endifLine: Line, more: Text, rest: seq<Line>)
    ensures var lines := LinesOf(Conditional(ifLine, body, branches, endifLine, more)) + rest;
      var afterBranches := [endifLine] + (LinesOf(more) + rest);
      && lines == [ifLine] + (LinesOf(body) + (LinesOfBranches(branches) + afterBranches))
      && lines[1..] == LinesOf(body) + (LinesOfBranches(branches) + afterBranches)
      && afterBranches[1..] == LinesOf(more) + rest
  {
    Regroup(ifLine, LinesOf(body), LinesOfBranches(branches), endifLine, LinesOf(more), rest);
  }

  lemma Regroup<T>(x: T, a: seq<T>, b: seq<T>, y: T, c: seq<T>, d: seq<T>)
    ensures [x] + a + b + [y] + c + d == [x] + (a + (b + ([y] + (c + d))))
  {
  }

  lemma {:induction false} BranchesAreWellNested(bs: Branches, rest: seq<Line>, depth: nat)
    requires WellFormedBranches(bs) && 0 < depth
    ensures WellNested(LinesOfBranches(bs) + rest, depth) == WellNested(rest, depth)
    decreases bs
  {
    hide DirectiveOf;
    match bs
    case NoBranches =>
      assert LinesOfBranches(bs) + rest == rest;
    case Branch(elseLine, body, more) =>
      assert (LinesOfBranches(bs) + rest)[1..] == LinesOf(body) + (LinesOfBranches(more) + rest);
      TextIsWellNested(body, LinesOfBranches(more) + rest, depth);
      BranchesAreWellNested(more, rest, depth);
  }

  lemma {:induction false} FirstBranchesHaveNoElse(t: Text)
    requires WellFormed(t)
    ensures WellFormed(FirstBranches(t))
    ensures forall line :: line in LinesOf(FirstBranches(t)) ==> line in LinesOf(t) && !DirectiveOf(line.text).Else?
    decreases t
  {
    hide DirectiveOf;
    match t
    case Empty =>
    case Plain(_, rest) =>
      FirstBranchesHaveNoElse(rest);
    case Conditional(_, body, _, _, rest) =>
      FirstBranchesHaveNoElse(body);
      FirstBranchesHaveNoElse(rest);
  }

  /** Lines are well nested exactly when they are the lines of a well-nested text. */
  lemma WellNestedIffText(lines: seq<Line>)
    ensures WellNested(lines, 0) <==> exists t :: WellFormed(t) && LinesOf(t) == lines
  {
    if WellNested(lines, 0) {
      var t := WellNestedIsText(lines);
    }
    if t :| WellFormed(t) && LinesOf(t) == lines {
      TextIsWellNested(t, [], 0);
      assert lines + [] == lines;
    }
  }

  /**
   The whole of it on lines: any well-nested lines leave the nesting stack as their first branches
   alone do, and the open conditionals as they were.
   */
  lemma FirstBranchWinsOnLines<B>(lines: seq<Line>, s: State<B>, step: (seq<B>, Line) -> seq<B>)
    returns (t: Text, kept: seq<Line>)
    requires WellNested(lines, 0)
    ensures WellFormed(t) && LinesOf(t) == lines && LinesOf(FirstBranches(t)) == kept
    ensures forall line :: line in kept ==> line in lines && !DirectiveOf(line.text).Else?
    ensures UpdateAll(s, lines, step) == UpdateAll(s, kept, step)
    ensures UpdateAll(s, lines, step).ppStack == s.ppStack
  {
    t := WellNestedIsText(lines);
    kept := LinesOf(FirstBranches(t));
    FirstBranchWins(t, s, step);
    FirstBranchesHaveNoElse(t);
  }

  ////////// The stack at every line //////////

  /** What the steps of the lines alone make of a stack. */
  function Fold<B>(stack: seq<B>, lines: seq<Line>, step: (seq<B>, Line) -> seq<B>): seq<B>
    decreases |lines|
  {
    if lines == [] then stack else Fold(step(stack, lines[0]), lines[1..], step)
  }

  lemma {:induction false} FoldConcat<B>(stack: seq<B>, a: seq<Line>, b: seq<Line>, step: (seq<B>, Line) -> seq<B>)
    ensures Fold(stack, a + b, step) == Fold(Fold(stack, a, step), b, step)
    decreases |a|
  {
    if a == [] {
      assert a + b == b;
    } else {
      assert (a + b)[1..] == a[1..] + b;
      FoldConcat(step(stack, a[0]), a[1..], b, step);
    }
  }

  /**
   A text read up to some line: complete, or inside the first or a further branch of a conditional, or
   behind an `#else`, `#elif` or `#endif` that has no `#if`.
   */
  datatype Prefix =
    | Complete(text: Text)
    | InFirstBranch(before: Text, ifLine: Line, inside: Prefix)
    | InFurtherBranch(before: Text, ifLine: Line, body: Text, branches: Branches, elseLine: Line, inside: Prefix)
    | BehindStray(before: Text, stray: Line, after: Prefix)

  /** `nested` says that a conditional is open around the prefix, so that there are no strays in it. */
  predicate WellFormedPrefix(p: Prefix, nested: bool) {
    match p
    case Complete(text) => WellFormed(text)
    case InFirstBranch(before, ifLine, inside) =>
      WellFormed(before) && DirectiveOf(ifLine.text).If? && WellFormedPrefix(inside, true)
    case InFurtherBranch(before, ifLine, body, branches, elseLine, inside) =>
      && WellFormed(before) && DirectiveOf(ifLine.text).If? && WellFormed(body) && WellFormedBranches(branches)
      && DirectiveOf(elseLine.text).Else? && WellFormedPrefix(inside, true)
    case BehindStray(before, stray, after) =>
      && !nested && WellFormed(before) && (DirectiveOf(stray.text).Else? || DirectiveOf(stray.text).Endif?)
      && WellFormedPrefix(after, false)
  }

  function LinesOfPrefix(p: Prefix): seq<Line> {
    match p
    case Complete(text) => LinesOf(text)
    case InFirstBranch(before, ifLine, inside) => LinesOf(before) + ([ifLine] + LinesOfPrefix(inside))
    case InFurtherBranch(before, ifLine, body, branches, elseLine, inside) =>
      var branch := [elseLine] + LinesOfPrefix(inside);
      LinesOf(before) + ([ifLine] + (LinesOf(body) + (LinesOfBranches(branches) + branch)))
    case BehindStray(before, stray, after) => LinesOf(before) + ([stray] + LinesOfPrefix(after))
  }

  /** How many conditionals are open. */
  function Depth(p: Prefix): nat {
    match p
    case Complete(_) => 0
    case InFirstBranch(_, _, inside) => Depth(inside) + 1
    case InFurtherBranch(_, _, _, _, _, inside) => Depth(inside) + 1
    case BehindStray(_, _, after) => Depth(after)
  }

  /**
   The lines that count at the end of the prefix: the first branches of what is closed, and of an open
   conditional the branch that the end is in, with the line that begins that branch.
   */
  function ActiveLines(p: Prefix): seq<Line> {
    match p
    case Complete(text) => LinesOf(FirstBranches(text))
    case InFirstBranch(before, ifLine, inside) => LinesOf(FirstBranches(before)) + ([ifLine] + ActiveLines(inside))
    case InFurtherBranch(before, _, _, _, elseLine, inside) =>
      LinesOf(FirstBranches(before)) + ([elseLine] + ActiveLines(inside))
    case BehindStray(before, stray, after) => LinesOf(FirstBranches(before)) + ([stray] + ActiveLines(after))
  }

  ////////// The stack is what the active lines make of it //////////

  /** A well-nested text leaves the stack to the steps of its first branches. */
  lemma {:induction false} TextIsFold<B>(t: Text, s: State<B>, step: (seq<B>, Line) -> seq<B>)
    requires WellFormed(t)
    ensures UpdateAll(s, LinesOf(t), step) == State(Fold(s.stack, LinesOf(FirstBranches(t)), step), s.ppStack)
    decreases t
  {
    hide DirectiveOf;
    PpStackIsRestored(t, s, step);
    match t
    case Empty =>
    case Plain(line, rest) =>
      UpdateOne(s, line, step);
      UpdateAllConcat(s, [line], LinesOf(rest), step);
      TextIsFold(rest, UpdateState(s, line, step), step);
      FoldConcat(s.stack, [line], LinesOf(FirstBranches(rest)), step);
    case Conditional(ifLine, body, branches, endifLine, rest) =>
      var afterIf := UpdateState(s, ifLine, step);
      var afterBody := UpdateAll(afterIf, LinesOf(body), step);
      ConditionalSteps(s, ifLine, body, branches, endifLine, rest, step);
      TextIsFold(body, afterIf, step);
      BranchesKeepCheckpoint(branches, afterBody, step);
      var afterBranches := UpdateAll(afterBody, LinesOfBranches(branches), step);
      EndifRestores(afterBody, afterBranches, endifLine, step);
      TextIsFold(rest, UpdateState(afterBody, endifLine, step), step);
      FoldOfConditional(s.stack, ifLine, LinesOf(FirstBranches(body)), endifLine, LinesOf(FirstBranches(rest)), step);
  }

  lemma FoldOfConditional<B>(stack: seq<B>, ifLine: Line, body: seq<Line>, endifLine: Line, rest: seq<Line>,
                             step: (seq<B>, Line) -> seq<B>)
    ensures Fold(stack, [ifLine] + body + [] + [endifLine] + rest, step)
         == Fold(step(Fold(step(stack, ifLine), body, step), endifLine), rest, step)
  {
    assert [ifLine] + body + [] + [endifLine] + rest == [ifLine] + (body + ([endifLine] + rest));
    FoldConcat(stack, [ifLine], body + ([endifLine] + rest), step);
    FoldConcat(step(stack, ifLine), body, [endifLine] + rest, step);
    FoldConcat(Fold(step(stack, ifLine), body, step), [endifLine], rest, step);
  }

  /** Processing behind a text: the text, then one line, then the rest. */
  lemma StepsBehind<B>(s: State<B>, before: Text, line: Line, rest: seq<Line>, step: (seq<B>, Line) -> seq<B>)
    requires WellFormed(before)
    ensures var s' := State(Fold(s.stack, LinesOf(FirstBranches(before)), step), s.ppStack);
      UpdateAll(s, LinesOf(before) + ([line] + rest), step) == UpdateAll(UpdateState(s', line, step), rest, step)
  {
    TextIsFold(before, s, step);
    UpdateAllConcat(s, LinesOf(before), [line] + rest, step);
    var s' := UpdateAll(s, LinesOf(before), step);
    UpdateAllConcat(s', [line], rest, step);
    UpdateOne(s', line, step);
  }

  lemma FoldBehind<B>(stack: seq<B>, before: seq<Line>, line: Line, rest: seq<Line>, step: (seq<B>, Line) -> seq<B>)
    ensures Fold(stack, before + ([line] + rest), step) == Fold(step(Fold(stack, before, step), line), rest, step)
  {
    FoldConcat(stack, before, [line] + rest, step);
    FoldConcat(Fold(stack, before, step), [line], rest, step);
  }

  /** A further branch starts with the stack from before the `#if`. */
  lemma ElseRestores<B>(s: State<B>, ifLine: Line, body: Text, branches: Branches, elseLine: Line, rest: seq<Line>,
                        step: (seq<B>, Line) -> seq<B>) returns (info: PreprocessorInfo<B>)
    requires WellFormed(body) && WellFormedBranches(branches)
    requires DirectiveOf(ifLine.text).If? && DirectiveOf(elseLine.text).Else?
    ensures var more := LinesOf(body) + (LinesOfBranches(branches) + ([elseLine] + rest));
      UpdateAll(UpdateState(s, ifLine, step), more, step)
      == UpdateAll(State(step(s.stack, elseLine), s.ppStack + [info]), rest, step)
  {
    hide DirectiveOf;
    var afterIf := UpdateState(s, ifLine, step);
    var afterBody := UpdateAll(afterIf, LinesOf(body), step);
    var afterBranches := UpdateAll(afterBody, LinesOfBranches(branches), step);
    UpdateAllConcat(afterIf, LinesOf(body), LinesOfBranches(branches) + ([elseLine] + rest), step);
    UpdateAllConcat(afterBody, LinesOfBranches(branches), [elseLine] + rest, step);
    UpdateAllConcat(afterBranches, [elseLine], rest, step);
    UpdateOne(afterBranches, elseLine, step);
    PpStackIsRestored(body, afterIf, step);
    BranchesKeepCheckpoint(branches, afterBody, step);
    var afterElse := UpdateState(afterBranches, elseLine, step);
    info := afterElse.ppStack[|s.ppStack|];
    assert afterElse.ppStack == s.ppStack + [info];
  }

  /** At any line whatever of any text, the stack is what the steps of the active lines make of it. */
  lemma {:induction false} PrefixIsFold<B>(p: Prefix, nested: bool, s: State<B>, step: (seq<B>, Line) -> seq<B>)
    requires WellFormedPrefix(p, nested) && (nested || s.ppStack == [])
    ensures var r := UpdateAll(s, LinesOfPrefix(p), step);
      && r.stack == Fold(s.stack, ActiveLines(p), step)
      && s.ppStack <= r.ppStack && |r.ppStack| == |s.ppStack| + Depth(p)
    decreases p
  {
    hide DirectiveOf, Fold, UpdateAll, LinesOf, LinesOfBranches, FirstBranches, WellFormed, WellFormedBranches;
    match p
    case Complete(text) =>
      TextIsFold(text, s, step);
    case InFirstBranch(before, ifLine, inside) =>
      StepsBehind(s, before, ifLine, LinesOfPrefix(inside), step);
      FoldBehind(s.stack, LinesOf(FirstBranches(before)), ifLine, ActiveLines(inside), step);
      var s' := State(Fold(s.stack, LinesOf(FirstBranches(before)), step), s.ppStack);
      PrefixIsFold(inside, true, UpdateState(s', ifLine, step), step);
    case InFurtherBranch(before, ifLine, body, branches, elseLine, inside) =>
      var rest := LinesOfPrefix(inside);
      StepsBehind(s, before, ifLine, LinesOf(body) + (LinesOfBranches(branches) + ([elseLine] + rest)), step);
      FoldBehind(s.stack, LinesOf(FirstBranches(before)), elseLine, ActiveLines(inside), step);
      var s' := State(Fold(s.stack, LinesOf(FirstBranches(before)), step), s.ppStack);
      var info := ElseRestores(s', ifLine, body, branches, elseLine, rest, step);
      PrefixIsFold(inside, true, State(step(s'.stack, elseLine), s.ppStack + [info]), step);
    case BehindStray(before, stray, after) =>
      StepsBehind(s, before, stray, LinesOfPrefix(after), step);
      FoldBehind(s.stack, LinesOf(FirstBranches(before)), stray, ActiveLines(after), step);
      var s' := State(Fold(s.stack, LinesOf(FirstBranches(before)), step), s.ppStack);
      PrefixIsFold(after, false, UpdateState(s', stray, step), step);
  }

  /** Wherever a conditional stands, each further branch of it starts from the stack before its `#if`. */
  lemma BranchStartsAfresh<B>(s: State<B>, ifLine: Line, body: Text, branches: Branches, elseLine: Line,
                              step: (seq<B>, Line) -> seq<B>)
    requires WellFormed(body) && WellFormedBranches(branches)
    requires DirectiveOf(ifLine.text).If? && DirectiveOf(elseLine.text).Else?
    ensures UpdateAll(s, [ifLine] + LinesOf(body) + LinesOfBranches(branches) + [elseLine], step).stack
         == step(s.stack, elseLine)
  {
    hide DirectiveOf, WellFormed, WellFormedBranches, LinesOfBranches, UpdateAll, Fold;
    UpToElse(ifLine, body, branches, elseLine);
    var before: Text := Empty;
    StepsBehind(s, before, ifLine, LinesOf(body) + (LinesOfBranches(branches) + ([elseLine] + [])), step);
    NothingBefore(s, step);
    var info := ElseRestores(s, ifLine, body, branches, elseLine, [], step);
    NothingBefore(State(step(s.stack, elseLine), s.ppStack + [info]), step);
  }

  lemma NothingBefore<B>(s: State<B>, step: (seq<B>, Line) -> seq<B>)
    ensures WellFormed(Empty) && LinesOf(Empty) == [] && FirstBranches(Empty) == Empty
    ensures UpdateAll(s, [], step) == s && Fold(s.stack, [], step) == s.stack
  {
  }

  lemma UpToElse(ifLine: Line, body: Text, branches: Branches, elseLine: Line)
    ensures LinesOf(Empty) + ([ifLine] + (LinesOf(body) + (LinesOfBranches(branches) + ([elseLine] + []))))
         == [ifLine] + LinesOf(body) + LinesOfBranches(branches) + [elseLine]
  {
    assert LinesOf(Empty) == [];
    hide LinesOf, LinesOfBranches;
    Regroup(ifLine, LinesOf(body), LinesOfBranches(branches), elseLine, [], []);
  }

  ////////// Any lines are a prefix //////////

  function AppendText(t: Text, u: Text): Text {
    match t
    case Empty => u
    case Plain(line, rest) => Plain(line, AppendText(rest, u))
    case Conditional(ifLine, body, branches, endifLine, rest) =>
      Conditional(ifLine, body, branches, endifLine, AppendText(rest, u))
  }

  function AppendBranch(bs: Branches, elseLine: Line, body: Text): Branches {
    match bs
    case NoBranches => Branch(elseLine, body, NoBranches)
    case Branch(firstElse, first, more) => Branch(firstElse, first, AppendBranch(more, elseLine, body))
  }

  lemma {:induction false} AppendIsWellFormed(t: Text, u: Text)
    requires WellFormed(t) && WellFormed(u)
    ensures WellFormed(AppendText(t, u))
    decreases t
  {
    hide DirectiveOf, WellFormedBranches;
    match t
    case Empty =>
    case Plain(_, rest) => AppendIsWellFormed(rest, u);
    case Conditional(_, _, _, _, rest) => AppendIsWellFormed(rest, u);
  }

  lemma {:induction false} TextAppended(t: Text, u: Text)
    ensures LinesOf(AppendText(t, u)) == LinesOf(t) + LinesOf(u)
    decreases t
  {
    hide LinesOfBranches;
    match t
    case Empty =>
    case Plain(line, rest) =>
      TextAppended(rest, u);
      assert [line] + (LinesOf(rest) + LinesOf(u)) == [line] + LinesOf(rest) + LinesOf(u);
    case Conditional(ifLine, body, branches, endifLine, rest) =>
      TextAppended(rest, u);
      ConditionalAppended(ifLine, body, branches, endifLine, rest, AppendText(rest, u), LinesOf(u));
  }

  lemma ConditionalAppended(ifLine: Line, body: Text, branches: Branches, endifLine: Line, rest: Text, all: Text,
                            more: seq<Line>)
    requires LinesOf(all) == LinesOf(rest) + more
    ensures LinesOf(Conditional(ifLine, body, branches, endifLine, all))
         == LinesOf(Conditional(ifLine, body, branches, endifLine, rest)) + more
  {
    LinesOfConditional(ifLine, body, branches, endifLine, rest);
    LinesOfConditional(ifLine, body, branches, endifLine, all);
    hide LinesOf, LinesOfBranches;
    var first := [ifLine] + LinesOf(body) + LinesOfBranches(branches) + [endifLine];
    assert first + (LinesOf(rest) + more) == first + LinesOf(rest) + more;
  }

  lemma LinesOfConditional(ifLine: Line, body: Text, branches: Branches, endifLine: Line, rest: Text)
    ensures LinesOf(Conditional(ifLine, body, branches, endifLine, rest))
         == [ifLine] + LinesOf(body) + LinesOfBranches(branches) + [endifLine] + LinesOf(rest)
  {
  }

  lemma {:induction false} BranchAppended(bs: Branches, elseLine: Line, body: Text)
    requires WellFormedBranches(bs) && DirectiveOf(elseLine.text).Else? && WellFormed(body)
    ensures var all := AppendBranch(bs, elseLine, body);
      WellFormedBranches(all) && LinesOfBranches(all) == LinesOfBranches(bs) + ([elseLine] + LinesOf(body))
    decreases bs
  {
    hide DirectiveOf, LinesOf, WellFormed;
    match bs
    case NoBranches =>
    case Branch(_, _, more) => BranchAppended(more, elseLine, body);
  }

  /** The prefix with one line more. */
  function Extend(p: Prefix, line: Line): Prefix {
    match p
    case Complete(t) =>
      (match DirectiveOf(line.text)
       case If => InFirstBranch(t, line, Complete(Empty))
       case NoDirective => Complete(AppendText(t, Plain(line, Empty)))
       case _ => BehindStray(t, line, Complete(Empty)))
    case InFirstBranch(before, ifLine, inside) =>
      if inside.Complete? && DirectiveOf(line.text).Else? then
        InFurtherBranch(before, ifLine, inside.text, NoBranches, line, Complete(Empty))
      else if inside.Complete? && DirectiveOf(line.text).Endif? then
        Complete(AppendText(before, Conditional(ifLine, inside.text, NoBranches, line, Empty)))
      else InFirstBranch(before, ifLine, Extend(inside, line))
    case InFurtherBranch(before, ifLine, body, branches, elseLine, inside) =>
      if inside.Complete? && DirectiveOf(line.text).Else? then
        InFurtherBranch(before, ifLine, body, AppendBranch(branches, elseLine, inside.text), line, Complete(Empty))
      else if inside.Complete? && DirectiveOf(line.text).Endif? then
        var all := AppendBranch(branches, elseLine, inside.text);
        Complete(AppendText(before, Conditional(ifLine, body, all, line, Empty)))
      else InFurtherBranch(before, ifLine, body, branches, elseLine, Extend(inside, line))
    case BehindStray(before, stray, after) => BehindStray(before, stray, Extend(after, line))
  }

  lemma CompleteExtended(t: Text, line: Line, nested: bool)
    requires WellFormed(t) && (nested ==> DirectiveOf(line.text).If? || DirectiveOf(line.text).NoDirective?)
    ensures WellFormedPrefix(Extend(Complete(t), line), nested)
    ensures LinesOfPrefix(Extend(Complete(t), line)) == LinesOf(t) + [line]
  {
    hide DirectiveOf;
    if DirectiveOf(line.text).NoDirective? {
      AppendIsWellFormed(t, Plain(line, Empty));
      TextAppended(t, Plain(line, Empty));
    }
  }

  lemma ConditionalClosed(before: Text, ifLine: Line, body: Text, branches: Branches, endifLine: Line)
    requires WellFormed(before) && WellFormed(body) && WellFormedBranches(branches)
    requires DirectiveOf(ifLine.text).If? && DirectiveOf(endifLine.text).Endif?
    ensures var t := AppendText(before, Conditional(ifLine, body, branches, endifLine, Empty));
      WellFormed(t)
      && LinesOf(t) == LinesOf(before) + ([ifLine] + (LinesOf(body) + (LinesOfBranches(branches) + [endifLine])))
  {
    var c := Conditional(ifLine, body, branches, endifLine, Empty);
    assert WellFormed(c) by {
      hide DirectiveOf;
    }
    LinesOfLast(ifLine, body, branches, endifLine);
    hide DirectiveOf, WellFormed, LinesOf, LinesOfBranches;
    AppendIsWellFormed(before, c);
    TextAppended(before, c);
  }

  lemma LinesOfLast(ifLine: Line, body: Text, branches: Branches, endifLine: Line)
    ensures LinesOf(Conditional(ifLine, body, branches, endifLine, Empty))
         == [ifLine] + (LinesOf(body) + (LinesOfBranches(branches) + [endifLine]))
  {
    hide LinesOfBranches;
    assert LinesOf(Conditional(ifLine, body, branches, endifLine, Empty))
        == [ifLine] + LinesOf(body) + LinesOfBranches(branches) + [endifLine] + [];
    hide LinesOf;
    Regroup(ifLine, LinesOf(body), LinesOfBranches(branches), endifLine, [], []);
  }

  lemma {:induction false} Extended(p: Prefix, line: Line, nested: bool)
    requires WellFormedPrefix(p, nested)
    requires nested && p.Complete? ==> DirectiveOf(line.text).If? || DirectiveOf(line.text).NoDirective?
    ensures WellFormedPrefix(Extend(p, line), nested)
    ensures LinesOfPrefix(Extend(p, line)) == LinesOfPrefix(p) + [line]
    decreases p
  {
    hide DirectiveOf, LinesOf, WellFormed, LinesOfBranches, WellFormedBranches, AppendText, AppendBranch;
    match p
    case Complete(t) =>
      CompleteExtended(t, line, nested);
    case InFirstBranch(before, ifLine, inside) =>
      if inside.Complete? && (DirectiveOf(line.text).Else? || DirectiveOf(line.text).Endif?) {
        FirstBranchClosed(before, ifLine, inside.text, line);
      } else {
        Extended(inside, line, true);
      }
    case InFurtherBranch(before, ifLine, body, branches, elseLine, inside) =>
      if inside.Complete? && (DirectiveOf(line.text).Else? || DirectiveOf(line.text).Endif?) {
        ConditionalOrBranch(before, ifLine, body, branches, elseLine, inside.text, line);
      } else {
        Extended(inside, line, true);
      }
    case BehindStray(_, _, after) =>
      Extended(after, line, false);
  }

  lemma FirstBranchClosed(before: Text, ifLine: Line, body: Text, line: Line)
    requires WellFormedPrefix(InFirstBranch(before, ifLine, Complete(body)), true)
    requires DirectiveOf(line.text).Else? || DirectiveOf(line.text).Endif?
    ensures var p := InFirstBranch(before, ifLine, Complete(body));
      WellFormedPrefix(Extend(p, line), true) && LinesOfPrefix(Extend(p, line)) == LinesOfPrefix(p) + [line]
  {
    NothingInside();
    hide DirectiveOf, LinesOf, WellFormed, LinesOfBranches, WellFormedBranches;
    if DirectiveOf(line.text).Endif? {
      ConditionalClosed(before, ifLine, body, NoBranches, line);
    }
  }

  lemma NothingInside()
    ensures WellFormed(Empty) && LinesOf(Empty) == []
    ensures WellFormedBranches(NoBranches) && LinesOfBranches(NoBranches) == []
  {
  }

  lemma ConditionalOrBranch(before: Text, ifLine: Line, body: Text, branches: Branches, elseLine: Line, inside: Text,
                            line: Line)
    requires WellFormedPrefix(InFurtherBranch(before, ifLine, body, branches, elseLine, Complete(inside)), true)
    requires DirectiveOf(line.text).Else? || DirectiveOf(line.text).Endif?
    ensures var p := InFurtherBranch(before, ifLine, body, branches, elseLine, Complete(inside));
      WellFormedPrefix(Extend(p, line), true) && LinesOfPrefix(Extend(p, line)) == LinesOfPrefix(p) + [line]
  {
    hide DirectiveOf, LinesOf, WellFormed, LinesOfBranches, WellFormedBranches, AppendText, AppendBranch;
    NothingInside();
    BranchAppended(branches, elseLine, inside);
    var all := AppendBranch(branches, elseLine, inside);
    var further := LinesOfBranches(branches) + ([elseLine] + LinesOf(inside));
    OneMore(LinesOf(before), ifLine, LinesOf(body), further, line);
    if DirectiveOf(line.text).Endif? {
      ConditionalClosed(before, ifLine, body, all, line);
    } else {
      assert [line] + [] == [line];
    }
  }

  lemma OneMore<T>(a: seq<T>, x: T, b: seq<T>, c: seq<T>, y: T)
    ensures a + ([x] + (b + c)) + [y] == a + ([x] + (b + (c + [y])))
  {
  }

  /** Any lines at all, read as a prefix. */
  function PrefixOf(lines: seq<Line>): (p: Prefix)
    ensures WellFormedPrefix(p, false) && LinesOfPrefix(p) == lines
  {
    if lines == [] then Complete(Empty)
    else
      var p := PrefixOf(lines[..|lines| - 1]);
      Extended(p, lines[|lines| - 1], false);
      Extend(p, lines[|lines| - 1])
  }

  ////////// What processing means //////////

  lemma {:induction false} PlainIsFold<B>(s: State<B>, lines: seq<Line>, step: (seq<B>, Line) -> seq<B>)
    requires forall line :: line in lines ==> DirectiveOf(line.text).NoDirective?
    ensures UpdateAll(s, lines, step) == State(Fold(s.stack, lines, step), s.ppStack)
    decreases |lines|
  {
    hide DirectiveOf;
    if lines != [] {
      PlainIsFold(UpdateState(s, lines[0], step), lines[1..], step);
    }
  }

  lemma WhatProcessingMeans<B>(lines: seq<Line>, s: State<B>, step: (seq<B>, Line) -> seq<B>)
    ensures var r := UpdateAll(s, lines, step);
      && (s.ppStack == [] ==>
            r.stack == Fold(s.stack, ActiveLines(PrefixOf(lines)), step) && |r.ppStack| == Depth(PrefixOf(lines)))
      && (WellNested(lines, 0) ==>
            && r.ppStack == s.ppStack
            && exists t ::
              && WellFormed(t) && LinesOf(t) == lines
              && r.stack == Fold(s.stack, LinesOf(FirstBranches(t)), step))
      && ((forall line :: line in lines ==> DirectiveOf(line.text).NoDirective?) ==>
            r.ppStack == s.ppStack && r.stack == Fold(s.stack, lines, step))
  {
    hide DirectiveOf, UpdateAll, WellFormed, FirstBranches, LinesOf, WellNested, Fold, ActiveLines, Depth;
    if s.ppStack == [] {
      PrefixIsFold(PrefixOf(lines), false, s, step);
    }
    if WellNested(lines, 0) {
      var t := WellNestedIsText(lines);
      TextIsFold(t, s, step);
    }
    if forall line :: line in lines ==> DirectiveOf(line.text).NoDirective? {
      PlainIsFold(s, lines, step);
    }
  }
}
