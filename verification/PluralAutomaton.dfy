/** The shift-reduce automaton on grammar symbols, and the proof that it decides exactly the
    precedence grammar: it accepts a token sequence with derivation `t` if and only if `t` is the
    canonical derivation of that sequence. */
module PluralAutomaton {
  import opened Basics
  import opened PluralGrammar
  import opened PluralTables

  /** What one stack slot stands for. The source keeps only the state and a semantic value;
      the derivation is what that value was built from. */
  datatype Symbol = Term(tok: Token) | Tree(tree: Cst) | StartSym(tree: Cst) | EofSym

  /** The parser stack; `Base` is the initial state 0. */
  datatype Stack = Base | On(below: Stack, state: int, sym: Symbol)

  datatype Config =
    | Running(stack: Stack, rest: seq<Token>)
    | Accepted(tree: Cst)
    | Rejected

  function Sym(t: Token): int {
    match t
    case ErrTok => 1
    case QuestionTok => 3
    case OpTok(op) => Prec(op) + 3
    case NotTok => 10
    case NumTok(_) => 11
    case ColonTok => 12
    case VarTok => 13
    case LParenTok => 14
    case RParenTok => 15
  }

  /** The lookahead symbol; the end of the input reads as 0. */
  function La(rest: seq<Token>): int {
    if rest == [] then 0 else Sym(rest[0])
  }

  function State(st: Stack): int {
    if st.Base? then 0 else st.state
  }

  // ----- the invariant of the stack -----

  /** The weakest level an expression may have in each state entered by `exp`. */
  function MinLevel(s: int): int {
    if 17 <= s <= 22 then s - 15 else if s == 6 then 7 else 0
  }

  /** An expression of this shape is complete when the lookahead is `la`. */
  predicate Stops(t: Cst, la: int) {
    3 <= la <= 9 ==> Level(t) >= 1 && la - 3 <= Level(t)
  }

  /** A slot with state `s` and symbol `y` may lie directly on top of `b`. */
  predicate Follows(b: Stack, s: int, y: Symbol) {
    match y
    case Term(tok) =>
      var k := Sym(tok);
      || (OperandState(State(b)) && k == 10 && s == 1)
      || (OperandState(State(b)) && k == 11 && s == 2)
      || (OperandState(State(b)) && k == 13 && s == 3)
      || (OperandState(State(b)) && k == 14 && s == 4)
      || (b.On? && b.sym.Tree? && ShiftsOp(b.state, k) && s == k + 5 && Stops(b.sym.tree, k))
      || (State(b) == 7 && k == 15 && s == 15)
      || (State(b) == 16 && k == 12 && s == 23)
    case Tree(t) =>
      && OperandState(State(b)) && s == GotoExp(State(b))
      && Canonical(t) && Level(t) >= MinLevel(s)
    case StartSym(t) => b.Base? && s == 25 && Canonical(t)
    case EofSym => State(b) == 25 && s == 26
  }

  predicate ValidStack(st: Stack) {
    st.Base? || (ValidStack(st.below) && Follows(st.below, st.state, st.sym))
  }

  predicate Valid(c: Config) {
    c.Running? ==>
      && ValidStack(c.stack)
      && (c.stack.On? && c.stack.sym.Tree? ==> Stops(c.stack.sym.tree, La(c.rest)))
      && (c.stack.On? && c.stack.sym.EofSym? ==> c.rest == [])
  }

  /** The state of a slot tells what it holds. */
  lemma StateTells(st: Stack)
    requires ValidStack(st)
    ensures 0 <= State(st) <= 26
    ensures State(st) == 0 <==> st.Base?
    ensures st.On? ==>
              && (st.sym.Tree? <==> st.state in {5, 6, 7, 16, 17, 18, 19, 20, 21, 22, 24})
              && (st.sym.StartSym? <==> st.state == 25)
              && (st.sym.EofSym? <==> st.state == 26)
  {
  }

  // ----- one step -----

  predicate TreeOn(st: Stack) { st.On? && st.sym.Tree? }

  /** The right-hand side of a rule lies on top of the stack. */
  predicate Handle(st: Stack, rule: int) {
    match rule
    case 1 => TreeOn(st) && st.below.Base?
    case 2 => TreeOn(st) && st.below.On? && st.below.sym == Term(ColonTok) && TreeOn(st.below.below)
              && st.below.below.below.On? && st.below.below.below.sym == Term(QuestionTok)
              && TreeOn(st.below.below.below.below)
    case 9 => TreeOn(st) && st.below.On? && st.below.sym == Term(NotTok)
    case 10 => st.On? && st.sym == Term(VarTok)
    case 11 => st.On? && st.sym.Term? && st.sym.tok.NumTok?
    case 12 => st.On? && st.sym == Term(RParenTok) && TreeOn(st.below)
               && st.below.below.On? && st.below.below.sym == Term(LParenTok)
    case _ => 3 <= rule <= 8 && TreeOn(st) && st.below.On? && st.below.sym.Term? && st.below.sym.tok.OpTok?
              && Prec(st.below.sym.tok.op) == rule - 2 && TreeOn(st.below.below)
  }

  /** The symbol a reduction pushes. */
  function Reduced(st: Stack, rule: int): Symbol
    requires Handle(st, rule)
  {
    match rule
    case 1 => StartSym(st.sym.tree)
    case 2 => Tree(CCond(st.below.below.below.below.sym.tree, st.below.below.sym.tree, st.sym.tree))
    case 9 => Tree(CNot(st.sym.tree))
    case 10 => Tree(CVar)
    case 11 => Tree(CNum(st.sym.tok.n))
    case 12 => Tree(CParen(st.below.sym.tree))
    case _ => Tree(CBin(st.below.sym.tok.op, st.below.below.sym.tree, st.sym.tree))
  }

  /** The stack below the right-hand side of a rule. */
  function Uncovered(st: Stack, rule: int): Stack
    requires Handle(st, rule)
  {
    match rule
    case 2 => st.below.below.below.below.below
    case 9 => st.below.below
    case 1 | 10 | 11 => st.below
    case _ => st.below.below.below
  }

  function GotoState(rule: int, s: int): int
    requires rule == 1 || OperandState(s)
  {
    if rule == 1 then 25 else GotoExp(s)
  }

  predicate Reduces(st: Stack, rest: seq<Token>, rule: int) {
    && Valid(Running(st, rest))
    && 0 <= State(st) <= 26
    && LrAction(State(st), La(rest)) == Reduce(rule)
  }

  /** Whenever the automaton reduces, the rule's right-hand side is there, an operand state is
      uncovered, and the reduced expression fits that state and ends at the lookahead. */
  lemma HandleOnTop(st: Stack, rest: seq<Token>, rule: int)
    requires Reduces(st, rest, rule)
    ensures 1 <= rule <= 12 && Handle(st, rule)
    ensures
      var b := Uncovered(st, rule);
      && ValidStack(b)
      && (rule == 1 ==> b.Base?)
      && OperandState(State(b))
      && Follows(b, GotoState(rule, State(b)), Reduced(st, rule))
      && (rule != 1 ==> Reduced(st, rule).Tree? && Stops(Reduced(st, rule).tree, La(rest)))
  {
    var s := State(st);
    StateTells(st);
    if 17 <= s <= 22 {
      BinaryOnTop(st, rest, rule);
    } else if s == 24 {
      TernaryOnTop(st, rest, rule);
    } else if s == 15 {
      ParenOnTop(st, rest, rule);
    } else if s == 6 {
      StateTells(st.below);
    } else {
      StateTells(st.below);
    }
  }

  lemma BinaryOnTop(st: Stack, rest: seq<Token>, rule: int)
    requires Reduces(st, rest, rule) && 17 <= State(st) <= 22
    ensures 1 <= rule <= 12 && Handle(st, rule)
    ensures
      var b := Uncovered(st, rule);
      && ValidStack(b) && OperandState(State(b))
      && Follows(b, GotoState(rule, State(b)), Reduced(st, rule))
      && Reduced(st, rule).Tree? && Stops(Reduced(st, rule).tree, La(rest))
  {
    StateTells(st);
    StateTells(st.below);
    StateTells(st.below.below);
  }

  lemma ParenOnTop(st: Stack, rest: seq<Token>, rule: int)
    requires Reduces(st, rest, rule) && State(st) == 15
    ensures rule == 12 && Handle(st, rule)
    ensures
      var b := Uncovered(st, rule);
      && ValidStack(b) && OperandState(State(b))
      && Follows(b, GotoState(rule, State(b)), Reduced(st, rule))
      && Reduced(st, rule).Tree? && Stops(Reduced(st, rule).tree, La(rest))
  {
    StateTells(st);
    StateTells(st.below);
    StateTells(st.below.below);
  }

  lemma TernaryOnTop(st: Stack, rest: seq<Token>, rule: int)
    requires Reduces(st, rest, rule) && State(st) == 24
    ensures rule == 2 && Handle(st, rule)
    ensures
      var b := Uncovered(st, rule);
      && ValidStack(b) && OperandState(State(b))
      && Follows(b, GotoState(rule, State(b)), Reduced(st, rule))
      && Reduced(st, rule).Tree? && Stops(Reduced(st, rule).tree, La(rest))
  {
    StateTells(st);
    StateTells(st.below);
    StateTells(st.below.below);
    StateTells(st.below.below.below);
    StateTells(st.below.below.below.below);
  }

  /** One action of the automaton. */
  function Step(c: Config): Config
    requires c.Running? && Valid(c)
  {
    var st := c.stack;
    StateTells(st);
    match LrAction(State(st), La(c.rest))
    case Shift(s) =>
      if c.rest == [] then Running(On(st, s, EofSym), [])
      else Running(On(st, s, Term(c.rest[0])), c.rest[1..])
    case Reduce(rule) =>
      HandleOnTop(st, c.rest, rule);
      var b := Uncovered(st, rule);
      Running(On(b, GotoState(rule, State(b)), Reduced(st, rule)), c.rest)
    case Accept =>
      StateTells(st.below);
      Accepted(st.below.sym.tree)
    case Error => Rejected
  }

  lemma StepValid(c: Config)
    requires c.Running? && Valid(c)
    ensures Valid(Step(c))
  {
    StateTells(c.stack);
    match LrAction(State(c.stack), La(c.rest))
    case Shift(s) =>
    case Reduce(rule) => HandleOnTop(c.stack, c.rest, rule);
    case Accept =>
    case Error =>
  }

  // ----- the input a configuration stands for -----

  function SymYield(s: Symbol): seq<Token> {
    match s
    case Term(tok) => [tok]
    case Tree(t) => Yield(t)
    case StartSym(t) => Yield(t)
    case EofSym => []
  }

  function StackYield(st: Stack): seq<Token> {
    if st.Base? then [] else StackYield(st.below) + SymYield(st.sym)
  }

  /** Tokens shifted so far, in order, followed by those still to be read. */
  function Input(c: Config): seq<Token> {
    match c
    case Running(st, rest) => StackYield(st) + rest
    case Accepted(t) => Yield(t)
    case Rejected => []
  }

  /** A reduction replaces the right-hand side by its derivation. */
  lemma ReducedYield(st: Stack, rule: int)
    requires Handle(st, rule)
    ensures StackYield(st) == StackYield(Uncovered(st, rule)) + SymYield(Reduced(st, rule))
  {
    var b := StackYield(Uncovered(st, rule));
    if rule == 2 {
      TernaryYield(st);
    } else if rule == 12 {
      assert StackYield(st.below.below) == b + [LParenTok];
      CatAssoc(b, [LParenTok], Yield(st.below.sym.tree));
      CatAssoc(b, [LParenTok] + Yield(st.below.sym.tree), [RParenTok]);
    } else if 3 <= rule <= 8 {
      var l, o := Yield(st.below.below.sym.tree), [st.below.sym.tok];
      assert StackYield(st.below.below) == b + l;
      CatAssoc(b, l, o);
      CatAssoc(b, l + o, Yield(st.sym.tree));
    } else if rule == 9 {
      CatAssoc(b, [NotTok], Yield(st.sym.tree));
    }
  }

  lemma TernaryYield(st: Stack)
    requires Handle(st, 2)
    ensures StackYield(st) == StackYield(Uncovered(st, 2)) + SymYield(Reduced(st, 2))
  {
    var s1, s2 := st.below, st.below.below;
    var s3, s4 := s2.below, s2.below.below;
    var b := StackYield(s4.below);
    var c, x, y := Yield(s4.sym.tree), Yield(s2.sym.tree), Yield(st.sym.tree);
    assert StackYield(s4) == b + c;
    assert StackYield(s3) == b + c + [QuestionTok];
    assert StackYield(s2) == b + c + [QuestionTok] + x;
    assert StackYield(s1) == b + c + [QuestionTok] + x + [ColonTok];
    CatAssoc(b, c, [QuestionTok]);
    CatAssoc(b, c + [QuestionTok], x);
    CatAssoc(b, c + [QuestionTok] + x, [ColonTok]);
    CatAssoc(b, c + [QuestionTok] + x + [ColonTok], y);
  }

  /** The accepting state is entered on one expression and the end of the input. */
  lemma AcceptShape(st: Stack)
    requires ValidStack(st) && State(st) == 26
    ensures st.On? && st.below.On? && st.below.sym.StartSym?
    ensures Canonical(st.below.sym.tree) && StackYield(st) == Yield(st.below.sym.tree)
  {
    StateTells(st);
    StateTells(st.below);
    assert StackYield(st.below.below) == [];
  }

  lemma ShiftInput(st: Stack, rest: seq<Token>, s: int)
    requires rest != []
    ensures Input(Running(On(st, s, Term(rest[0])), rest[1..])) == Input(Running(st, rest))
  {
    CatAssoc(StackYield(st), [rest[0]], rest[1..]);
    assert [rest[0]] + rest[1..] == rest;
  }

  lemma ReduceInput(st: Stack, rest: seq<Token>, rule: int)
    requires Reduces(st, rest, rule)
    ensures Input(Step(Running(st, rest))) == Input(Running(st, rest))
  {
    HandleOnTop(st, rest, rule);
    ReducedYield(st, rule);
  }

  lemma EndShiftInput(st: Stack, s: int)
    ensures Input(Running(On(st, s, EofSym), [])) == Input(Running(st, []))
  {
  }

  lemma AcceptInput(st: Stack, rest: seq<Token>)
    requires Valid(Running(st, rest)) && State(st) == 26
    ensures st.On? && st.below.On? && st.below.sym.StartSym?
    ensures Canonical(st.below.sym.tree) && Yield(st.below.sym.tree) == Input(Running(st, rest))
  {
    AcceptShape(st);
    StateTells(st);
  }

  /** No step loses, adds or reorders a token. */
  lemma StepInput(c: Config)
    requires c.Running? && Valid(c) && !Step(c).Rejected?
    ensures Input(Step(c)) == Input(c)
    ensures Step(c).Accepted? ==> Canonical(Step(c).tree)
  {
    StateTells(c.stack);
    var a := LrAction(State(c.stack), La(c.rest));
    if a.Shift? {
      if c.rest != [] {
        ShiftInput(c.stack, c.rest, a.state);
      } else {
        EndShiftInput(c.stack, a.state);
      }
    } else if a.Reduce? {
      ReduceInput(c.stack, c.rest, a.rule);
    } else {
      AcceptInput(c.stack, c.rest);
    }
  }

  // ----- termination -----

  function Weight(s: Symbol): nat {
    match s
    case Term(tok) => if tok.NumTok? || tok.VarTok? then 3 else 1
    case Tree(_) => 2
    case StartSym(_) => 1
    case EofSym => 0
  }

  function Potential(st: Stack): nat {
    if st.Base? then 0 else Potential(st.below) + Weight(st.sym)
  }

  lemma ReductionIsLighter(st: Stack, rule: int)
    requires Handle(st, rule)
    ensures Potential(st) > Potential(Uncovered(st, rule)) + Weight(Reduced(st, rule))
  {
    if 2 <= rule <= 9 || rule == 12 {
      assert Potential(st.below) == Potential(st.below.below) + Weight(st.below.sym);
      if rule != 9 {
        var s2 := st.below.below;
        assert Potential(s2) == Potential(s2.below) + Weight(s2.sym);
        if rule == 2 {
          assert Potential(s2.below) >= Potential(s2.below.below) >= Potential(s2.below.below.below);
        }
      }
    }
  }

  function EndPhase(st: Stack): nat {
    if State(st) == 26 then 0 else 1
  }

  /** Shifts use up input; reductions lower the potential; the end of the input is shifted once. */
  lemma StepDecreases(c: Config)
    requires c.Running? && Valid(c) && Step(c).Running?
    ensures
      var d := Step(c);
      || |d.rest| < |c.rest|
      || (|d.rest| == |c.rest| && EndPhase(d.stack) < EndPhase(c.stack))
      || (|d.rest| == |c.rest| && EndPhase(d.stack) == EndPhase(c.stack) && Potential(d.stack) < Potential(c.stack))
  {
    var st := c.stack;
    StateTells(st);
    match LrAction(State(st), La(c.rest))
    case Shift(s) =>
    case Reduce(rule) =>
      HandleOnTop(st, c.rest, rule);
      ReductionIsLighter(st, rule);
  }

  /** The whole run. */
  function Run(c: Config): (d: Config)
    requires Valid(c)
    ensures !d.Running?
    decreases if c.Running? then 1 + |c.rest| else 0,
              if c.Running? then EndPhase(c.stack) else 0,
              if c.Running? then Potential(c.stack) else 0
  {
    if c.Running? then
      StepValid(c);
      if Step(c).Running? then StepDecreases(c); Run(Step(c)) else Step(c)
    else c
  }

  /** Parsing a token sequence. */
  function Parse(input: seq<Token>): Config {
    Run(Running(Base, input))
  }

  /** The last configuration of a run before it accepts or rejects. */
  function Last(c: Config): (d: Config)
    requires Valid(c) && c.Running?
    ensures d.Running? && Valid(d) && !Step(d).Running?
    decreases 1 + |c.rest|, EndPhase(c.stack), Potential(c.stack)
  {
    StepValid(c);
    if Step(c).Running? then StepDecreases(c); Last(Step(c)) else c
  }

  /** Soundness: an accepted configuration holds the canonical derivation of exactly the input. */
  lemma {:induction false} RunSound(c: Config)
    requires Valid(c)
    requires Run(c).Accepted?
    requires c.Accepted? ==> Canonical(c.tree)
    ensures Canonical(Run(c).tree) && Yield(Run(c).tree) == Input(c)
    decreases if c.Running? then 1 + |c.rest| else 0,
              if c.Running? then EndPhase(c.stack) else 0,
              if c.Running? then Potential(c.stack) else 0
  {
    if c.Running? {
      StepValid(c);
      StepInput(c);
      if Step(c).Running? {
        StepDecreases(c);
        RunSound(Step(c));
      }
    }
  }

  // ----- completeness: the automaton follows every canonical derivation -----

  lemma ShiftRun(st: Stack, rest: seq<Token>, s: int)
    requires Valid(Running(st, rest)) && rest != [] && 0 <= State(st) <= 26
    requires LrAction(State(st), La(rest)) == Shift(s)
    ensures SameRun(Running(st, rest), Running(On(st, s, Term(rest[0])), rest[1..]))
  {
    StepValid(Running(st, rest));
  }

  lemma ReduceRun(st: Stack, rest: seq<Token>, rule: int)
    requires Reduces(st, rest, rule) && rule != 1
    ensures 1 <= rule <= 12 && Handle(st, rule) && OperandState(State(Uncovered(st, rule)))
    ensures
      var b := Uncovered(st, rule);
      SameRun(Running(st, rest), Running(On(b, GotoExp(State(b)), Reduced(st, rule)), rest))
  {
    HandleOnTop(st, rest, rule);
    StepValid(Running(st, rest));
  }

  /** The stack after an expression has been recognised on `st`. */
  function Pushed(st: Stack, t: Cst): Stack
    requires OperandState(State(st))
  {
    On(st, GotoExp(State(st)), Tree(t))
  }

  /** `t` may be recognised on `st` in front of `rest`. */
  predicate Expected(st: Stack, t: Cst, rest: seq<Token>) {
    && ValidStack(st) && OperandState(State(st))
    && Canonical(t) && Level(t) >= MinLevel(GotoExp(State(st)))
    && Stops(t, La(rest))
  }

  lemma OperandStackValid(st: Stack, rest: seq<Token>)
    requires ValidStack(st) && OperandState(State(st))
    ensures Valid(Running(st, rest))
  {
    StateTells(st);
  }

  /** Two configurations lead to the same end, in the same way. */
  predicate SameRun(c: Config, d: Config) {
    Valid(c) && Valid(d) && c.Running? && d.Running? && Run(c) == Run(d) && Last(c) == Last(d)
  }

  /** From an operand state the automaton turns the yield of a canonical derivation into that
      derivation, whatever lies below and whatever follows. */
  lemma {:induction false} Follow(st: Stack, t: Cst, rest: seq<Token>)
    requires Expected(st, t, rest)
    ensures SameRun(Running(st, Yield(t) + rest), Running(Pushed(st, t), rest))
    decreases t, 1
  {
    match t
    case CNum(n) => FollowLeaf(st, NumTok(n), t, rest);
    case CVar => FollowLeaf(st, VarTok, t, rest);
    case CNot(a) =>
      CatAssoc([NotTok], Yield(a), rest);
      FollowNot(st, a, rest);
    case CParen(x) =>
      CatAssoc([LParenTok] + Yield(x), [RParenTok], rest);
      CatAssoc([LParenTok], Yield(x), [RParenTok] + rest);
      FollowParen(st, x, rest);
    case CBin(op, l, r) =>
      CatAssoc(Yield(l) + [OpTok(op)], Yield(r), rest);
      CatAssoc(Yield(l), [OpTok(op)], Yield(r) + rest);
      FollowBin(st, op, l, r, rest);
    case CCond(c, x, y) =>
      CatAssoc(Yield(c) + [QuestionTok] + Yield(x) + [ColonTok], Yield(y), rest);
      CatAssoc(Yield(c) + [QuestionTok] + Yield(x), [ColonTok], Yield(y) + rest);
      CatAssoc(Yield(c) + [QuestionTok], Yield(x), [ColonTok] + (Yield(y) + rest));
      CatAssoc(Yield(c), [QuestionTok], Yield(x) + ([ColonTok] + (Yield(y) + rest)));
      FollowCond(st, c, x, y, rest);
  }

  lemma FollowLeaf(st: Stack, tok: Token, t: Cst, rest: seq<Token>)
    requires Expected(st, t, rest)
    requires (t == CVar && tok == VarTok) || (t.CNum? && tok == NumTok(t.n))
    ensures SameRun(Running(st, [tok] + rest), Running(Pushed(st, t), rest))
  {
    OperandStackValid(st, [tok] + rest);
    var s := if t == CVar then 3 else 2;
    ShiftRun(st, [tok] + rest, s);
    assert ([tok] + rest)[1..] == rest;
    ReduceRun(On(st, s, Term(tok)), rest, if t == CVar then 10 else 11);
  }

  lemma {:induction false} FollowNot(st: Stack, a: Cst, rest: seq<Token>)
    requires Expected(st, CNot(a), rest)
    ensures SameRun(Running(st, [NotTok] + (Yield(a) + rest)), Running(Pushed(st, CNot(a)), rest))
    decreases CNot(a), 0
  {
    hide Run, Last, Valid;
    var input := [NotTok] + (Yield(a) + rest);
    OperandStackValid(st, input);
    ShiftRun(st, input, 1);
    assert input[1..] == Yield(a) + rest;
    var s1 := On(st, 1, Term(NotTok));
    Follow(s1, a, rest);
    ReduceRun(Pushed(s1, a), rest, 9);
  }

  lemma {:induction false} FollowParen(st: Stack, x: Cst, rest: seq<Token>)
    requires Expected(st, CParen(x), rest)
    ensures SameRun(Running(st, [LParenTok] + (Yield(x) + ([RParenTok] + rest))), Running(Pushed(st, CParen(x)), rest))
    decreases CParen(x), 0
  {
    hide Run, Last, Valid;
    var close := [RParenTok] + rest;
    var input := [LParenTok] + (Yield(x) + close);
    OperandStackValid(st, input);
    ShiftRun(st, input, 4);
    assert input[1..] == Yield(x) + close;
    var s1 := On(st, 4, Term(LParenTok));
    Follow(s1, x, close);
    ShiftRun(Pushed(s1, x), close, 15);
    assert close[1..] == rest;
    ReduceRun(On(Pushed(s1, x), 15, Term(RParenTok)), rest, 12);
  }

  /** What a binary derivation asks of its operands. */
  lemma LeftExpected(st: Stack, op: Operator, l: Cst, r: Cst, rest: seq<Token>)
    requires Expected(st, CBin(op, l, r), rest)
    ensures Expected(st, l, [OpTok(op)] + (Yield(r) + rest))
    ensures ShiftsOp(GotoExp(State(st)), Prec(op) + 3)
    ensures ValidStack(On(Pushed(st, l), Prec(op) + 8, Term(OpTok(op))))
  {
    StateTells(st);
    assert ValidStack(Pushed(st, l));
  }

  lemma RightExpected(st: Stack, op: Operator, l: Cst, r: Cst, rest: seq<Token>)
    requires Expected(st, CBin(op, l, r), rest)
    requires ValidStack(On(Pushed(st, l), Prec(op) + 8, Term(OpTok(op))))
    ensures Expected(On(Pushed(st, l), Prec(op) + 8, Term(OpTok(op))), r, rest)
    ensures LrAction(GotoExp(Prec(op) + 8), La(rest)) == Reduce(Prec(op) + 2)
  {
  }

  lemma BinReduceRun(st: Stack, op: Operator, l: Cst, r: Cst, rest: seq<Token>)
    requires OperandState(State(st))
    requires Valid(Running(Pushed(On(Pushed(st, l), Prec(op) + 8, Term(OpTok(op))), r), rest))
    requires LrAction(GotoExp(Prec(op) + 8), La(rest)) == Reduce(Prec(op) + 2)
    ensures SameRun(Running(Pushed(On(Pushed(st, l), Prec(op) + 8, Term(OpTok(op))), r), rest),
                    Running(Pushed(st, CBin(op, l, r)), rest))
  {
    var s3 := Pushed(On(Pushed(st, l), Prec(op) + 8, Term(OpTok(op))), r);
    ReduceRun(s3, rest, Prec(op) + 2);
  }

  lemma {:induction false} FollowBin(st: Stack, op: Operator, l: Cst, r: Cst, rest: seq<Token>)
    requires Expected(st, CBin(op, l, r), rest)
    ensures SameRun(Running(st, Yield(l) + ([OpTok(op)] + (Yield(r) + rest))), Running(Pushed(st, CBin(op, l, r)), rest))
    decreases CBin(op, l, r), 0
  {
    hide Run, Last, Valid, Canonical;
    var p := Prec(op);
    var after := [OpTok(op)] + (Yield(r) + rest);
    LeftExpected(st, op, l, r, rest);
    RightExpected(st, op, l, r, rest);
    Follow(st, l, after);
    var s1 := Pushed(st, l);
    ShiftRun(s1, after, p + 8);
    assert after[1..] == Yield(r) + rest;
    var s2 := On(s1, p + 8, Term(OpTok(op)));
    Follow(s2, r, rest);
    BinReduceRun(st, op, l, r, rest);
  }

  /** What a conditional derivation asks of its parts. */
  lemma CondExpected(st: Stack, c: Cst, x: Cst, y: Cst, rest: seq<Token>)
    requires Expected(st, CCond(c, x, y), rest)
    ensures
      var after2 := [ColonTok] + (Yield(y) + rest);
      var after1 := [QuestionTok] + (Yield(x) + after2);
      var s2 := On(Pushed(st, c), 8, Term(QuestionTok));
      var s4 := On(Pushed(s2, x), 23, Term(ColonTok));
      && Expected(st, c, after1)
      && LrAction(GotoExp(State(st)), 3) == Shift(8)
      && Expected(s2, x, after2)
      && Expected(s4, y, rest)
      && LrAction(24, La(rest)) == Reduce(2)
  {
    StateTells(st);
    var s1 := Pushed(st, c);
    assert ValidStack(s1);
    var s2 := On(s1, 8, Term(QuestionTok));
    assert ValidStack(s2);
    var s3 := Pushed(s2, x);
    assert ValidStack(s3);
  }

  lemma {:induction false} FollowCond(st: Stack, c: Cst, x: Cst, y: Cst, rest: seq<Token>)
    requires Expected(st, CCond(c, x, y), rest)
    ensures SameRun(Running(st, Yield(c) + ([QuestionTok] + (Yield(x) + ([ColonTok] + (Yield(y) + rest))))),
                    Running(Pushed(st, CCond(c, x, y)), rest))
    decreases CCond(c, x, y), 0
  {
    hide Run, Last, Valid, Canonical;
    var after2 := [ColonTok] + (Yield(y) + rest);
    var after1 := [QuestionTok] + (Yield(x) + after2);
    CondExpected(st, c, x, y, rest);
    Follow(st, c, after1);
    var s1 := Pushed(st, c);
    ShiftRun(s1, after1, 8);
    assert after1[1..] == Yield(x) + after2;
    var s2 := On(s1, 8, Term(QuestionTok));
    Follow(s2, x, after2);
    var s3 := Pushed(s2, x);
    ShiftRun(s3, after2, 23);
    assert after2[1..] == Yield(y) + rest;
    var s4 := On(s3, 23, Term(ColonTok));
    Follow(s4, y, rest);
    ReduceRun(Pushed(s4, y), rest, 2);
  }

  // ----- the main theorems -----

  lemma Finish(t: Cst)
    requires Canonical(t)
    ensures Valid(Running(Pushed(Base, t), []))
    ensures Run(Running(Pushed(Base, t), [])) == Accepted(t)
  {
    var c0 := Running(Pushed(Base, t), []);
    assert ValidStack(Base) && ValidStack(c0.stack);
    HandleOnTop(c0.stack, [], 1);
    var c1 := Running(On(Base, 25, StartSym(t)), []);
    assert Step(c0) == c1;
    StepValid(c0);
    var c2 := Running(On(c1.stack, 26, EofSym), []);
    assert Step(c1) == c2;
    StepValid(c1);
    assert Step(c2) == Accepted(t);
    assert Run(c2) == Accepted(t);
    assert Run(c1) == Run(c2);
  }

  /** The automaton decides the precedence grammar and returns the one derivation. */
  lemma ParseDecides(input: seq<Token>, t: Cst)
    ensures Parse(input) == Accepted(t) <==> Canonical(t) && Yield(t) == input
  {
    var c := Running(Base, input);
    if Parse(input) == Accepted(t) {
      RunSound(c);
      assert [] + input == input;
    }
    if Canonical(t) && Yield(t) == input {
      Follow(Base, t, []);
      assert input + [] == input;
      Finish(t);
    }
  }

  /** The canonical derivation of a token sequence is unique. */
  lemma CanonicalUnique(t: Cst, u: Cst)
    requires Canonical(t) && Canonical(u) && Yield(t) == Yield(u)
    ensures t == u
  {
    ParseDecides(Yield(t), t);
    ParseDecides(Yield(t), u);
  }

  /** A sentence is any sequence the ambiguous grammar derives. */
  ghost predicate Sentence(input: seq<Token>) {
    exists t: Cst :: Yield(t) == input
  }

  /** Rejection is exact: precisely the sequences that no derivation yields are refused. */
  lemma RejectsExactlyNonSentences(input: seq<Token>)
    ensures Parse(input) == Rejected <==> !Sentence(input)
  {
    if Sentence(input) {
      var t: Cst :| Yield(t) == input;
      ParseDecides(input, Normalize(t));
    }
    if Parse(input).Accepted? {
      ParseDecides(input, Parse(input).tree);
    }
  }

  // ----- expressions that end before the input does -----

  /** The token goes on with an expression: `?` or a binary operator. */
  predicate Continues(t: Token) { 3 <= Sym(t) <= 9 }

  /** The first `k` tokens are a sentence, and the next token does not go on with it. */
  ghost predicate EndsEarly(toks: seq<Token>, k: nat) {
    k < |toks| && Sentence(toks[..k]) && !Continues(toks[k])
  }

  lemma EarlyReduction(t: Cst, rest: seq<Token>)
    requires Canonical(t) && rest != [] && !Continues(rest[0])
    ensures
      var c := Running(Pushed(Base, t), rest);
      Valid(c) && Last(c) == Running(On(Base, 25, StartSym(t)), rest)
  {
    var c0 := Running(Pushed(Base, t), rest);
    assert ValidStack(Base) && ValidStack(c0.stack);
    HandleOnTop(c0.stack, rest, 1);
    var c1 := Running(On(Base, 25, StartSym(t)), rest);
    assert Step(c0) == c1;
    StepValid(c0);
    assert Step(c1) == Rejected;
    assert Last(c1) == c1;
  }

  /** Then rule 1 is reduced in front of that token, and nothing can follow. */
  lemma EarlyEnd(toks: seq<Token>, k: nat, t: Cst)
    requires k < |toks| && Canonical(t) && Yield(t) == toks[..k] && !Continues(toks[k])
    ensures Valid(Running(Base, toks)) && Last(Running(Base, toks)) == Running(On(Base, 25, StartSym(t)), toks[k..])
  {
    hide Canonical, Valid, Last, Run, Yield;
    var rest := toks[k..];
    assert toks == Yield(t) + rest;
    EarlyExpected(t, rest);
    Follow(Base, t, rest);
    EarlyReduction(t, rest);
  }

  lemma EarlyExpected(t: Cst, rest: seq<Token>)
    requires Canonical(t) && rest != [] && !Continues(rest[0])
    ensures Expected(Base, t, rest)
  {
  }

  /** So the whole input is no sentence. */
  lemma EarlyIsNoSentence(toks: seq<Token>, k: nat)
    requires EndsEarly(toks, k)
    ensures !Sentence(toks)
  {
    var t: Cst :| Yield(t) == toks[..k];
    EarlyEnd(toks, k, Normalize(t));
    LastTells(Running(Base, toks));
    RejectsExactlyNonSentences(toks);
  }

  lemma {:induction false} LastTells(c: Config)
    requires Valid(c) && c.Running?
    ensures Run(c) == Step(Last(c))
    decreases 1 + |c.rest|, EndPhase(c.stack), Potential(c.stack)
  {
    StepValid(c);
    if Step(c).Running? {
      StepDecreases(c);
      LastTells(Step(c));
    }
  }

  /** This happens at one place at most. */
  lemma EarlyEndUnique(toks: seq<Token>, k: nat, l: nat)
    requires EndsEarly(toks, k) && EndsEarly(toks, l)
    ensures k == l
  {
    var t: Cst :| Yield(t) == toks[..k];
    var u: Cst :| Yield(u) == toks[..l];
    EarlyEnd(toks, k, Normalize(t));
    EarlyEnd(toks, l, Normalize(u));
    assert |toks[k..]| == |toks[l..]|;
  }
}
