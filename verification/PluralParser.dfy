/** The table-driven parser `yyparse` on a C string: its two stacks, its lazily read lookahead and
    its error recovery, proved to decide the plural-expression language and to build the one
    expression the precedences allow. */
module PluralParser {
  import opened Options
  import opened PluralGrammar
  import opened PluralTables
  import opened PluralAutomaton
  import opened PluralLexer
  import opened PluralPrint

  const YYEMPTY := -2

  /** A union slot holds what the grammar symbol needs; slots of plain tokens hold anything. */
  predicate Carries(v: Value, y: Symbol) {
    match y
    case Term(NumTok(n)) => v == NumVal(n)
    case Term(OpTok(op)) => op == Lor || op == Land || v == OpVal(op)
    case Term(_) => true
    case Tree(t) => v == ExpVal(Ast(t))
    case StartSym(t) => v == ExpVal(Ast(t))
    case EofSym => true
  }

  /** The first `n` slots of the state stack and of the value stack, in step, are one parser stack. */
  predicate Stacks(ss: seq<int>, vs: seq<Value>, n: int, st: Stack)
    decreases st
  {
    && 0 < n <= |ss| && n <= |vs|
    && ss[n - 1] == State(st)
    && (st.Base? <==> n == 1)
    && (st.On? ==> Carries(vs[n - 1], st.sym) && Stacks(ss, vs, n - 1, st.below))
  }

  /** Only the first `n` slots matter. */
  lemma {:induction false} StacksFrame(ss: seq<int>, vs: seq<Value>, n: int, st: Stack, ss': seq<int>, vs': seq<Value>)
    requires Stacks(ss, vs, n, st)
    requires n <= |ss'| && n <= |vs'| && ss'[..n] == ss[..n] && vs'[..n] == vs[..n]
    ensures Stacks(ss', vs', n, st)
    decreases st
  {
    assert ss'[n - 1] == ss'[..n][n - 1] == ss[n - 1];
    assert vs'[n - 1] == vs'[..n][n - 1] == vs[n - 1];
    if st.On? {
      assert ss'[..n - 1] == ss'[..n][..n - 1] == ss[..n - 1];
      assert vs'[..n - 1] == vs'[..n][..n - 1] == vs[..n - 1];
      StacksFrame(ss, vs, n - 1, st.below, ss', vs');
    }
  }

  /** The lookahead variables and the scanner position stand for the tokens still to come. */
  predicate Lookahead(yychar: int, yylval: Value, text: string, exp: nat, rest: seq<Token>) {
    && exp <= |text|
    && (if yychar == YYEMPTY then rest == Tokens(text[exp..])
        else if yychar == YYEOF then rest == []
        else rest != [] && yychar == Code(rest[0]) && Carries(yylval, Term(rest[0])) && rest[1..] == Tokens(text[exp..]))
  }

  lemma CodesTranslate(t: Token)
    ensures Code(t) > 0 && Translate(Code(t)) == Sym(t)
  {
  }

  function SliceLength(rule: int): nat
    requires 1 <= rule <= 12
  {
    YyR2[rule]
  }

  lemma RuleLengths(rule: int)
    requires 1 <= rule <= 12
    ensures SliceLength(rule) == if rule == 2 then 5 else if rule == 9 then 2 else if rule in {1, 10, 11} then 1 else 3
  {
  }

  /** The slots a handle occupies, and the stack below it. */
  lemma HandleSlots(ss: seq<int>, vs: seq<Value>, n: int, st: Stack, rule: int)
    requires Stacks(ss, vs, n, st) && 1 <= rule <= 12 && Handle(st, rule)
    ensures SliceLength(rule) < n
    ensures Stacks(ss, vs, n - SliceLength(rule), Uncovered(st, rule))
    ensures rule != 2 && rule < 10 ==> vs[n - 1] == ExpVal(Ast(st.sym.tree))
    ensures 3 <= rule <= 8 ==> vs[n - 3] == ExpVal(Ast(st.below.below.sym.tree)) && Carries(vs[n - 2], st.below.sym)
    ensures rule == 2 ==> vs[n - 5] == ExpVal(Ast(st.below.below.below.below.sym.tree))
                          && vs[n - 3] == ExpVal(Ast(st.below.below.sym.tree)) && vs[n - 1] == ExpVal(Ast(st.sym.tree))
    ensures rule == 12 ==> vs[n - 2] == ExpVal(Ast(st.below.sym.tree))
    ensures rule == 11 ==> vs[n - 1] == NumVal(st.sym.tok.n)
  {
    RuleLengths(rule);
    assert Stacks(ss, vs, n - 1, st.below);
    if 2 <= rule <= 9 || rule == 12 {
      assert Stacks(ss, vs, n - 2, st.below.below);
      if rule != 9 {
        assert Stacks(ss, vs, n - 3, st.below.below.below);
        if rule == 2 {
          assert Stacks(ss, vs, n - 4, st.below.below.below.below);
          assert Stacks(ss, vs, n - 5, st.below.below.below.below.below);
        }
      }
    }
  }

  /** The semantic action of a rule: the new value, computed from the top of the value stack. */
  method Action(rule: int, ss: seq<int>, vs: seq<Value>, ghost st: Stack) returns (yyval: Value)
    requires 1 <= rule <= 12 && |ss| == |vs| && Stacks(ss, vs, |vs|, st) && Handle(st, rule)
    ensures Carries(yyval, Reduced(st, rule))
  {
    HandleSlots(ss, vs, |vs|, st, rule);
    RuleLengths(rule);
    var top := |vs| - 1;
    yyval := vs[top + 1 - YyR2[rule]];
    match rule
    case 2 => yyval := ExpVal(Cond(vs[top - 4].exp, vs[top - 2].exp, vs[top].exp));
    case 3 => yyval := ExpVal(Binary(Lor, vs[top - 2].exp, vs[top].exp));
    case 4 => yyval := ExpVal(Binary(Land, vs[top - 2].exp, vs[top].exp));
    case 5 | 6 | 7 | 8 => yyval := ExpVal(Binary(vs[top - 1].op, vs[top - 2].exp, vs[top].exp));
    case 9 => yyval := ExpVal(Not(vs[top].exp));
    case 10 => yyval := ExpVal(Var);
    case 11 => yyval := ExpVal(Num(vs[top].num));
    case 12 => yyval := vs[top - 1];
    case _ =>
  }

  /** The table lookups of `yybackup` once the lookahead symbol is known. */
  method Consult(yystate: int, yychar1: int) returns (act: Action)
    requires 0 <= yystate <= 26 && 0 <= yychar1 && YyPact(yystate) != YYFLAG
    ensures act == Lookup(yystate, yychar1)
  {
    var yyn := YyPact(yystate) + yychar1;
    if yyn < 0 || yyn > YYLAST || YyCheck(yyn) != yychar1 {
      return DefaultAction(yystate);
    }
    yyn := YyTable(yyn);
    if yyn < 0 {
      act := if yyn == YYFLAG then Error else Reduce(-yyn);
    } else if yyn == 0 {
      act := Error;
    } else if yyn == YYFINAL {
      act := Accept;
    } else {
      act := Shift(yyn);
    }
  }

  /** Label `yybackup`: decides what to do, reading a token only if the state needs one. */
  method Backup(yystate: int, yychar0: int, yylval0: Value, text: string, exp0: nat, ghost rest: seq<Token>)
    returns (act: Action, yychar: int, yylval: Value, exp: nat)
    requires 0 <= yystate <= 26 && Lookahead(yychar0, yylval0, text, exp0, rest)
    ensures act == LrAction(yystate, La(rest))
    ensures Lookahead(yychar, yylval, text, exp, rest)
    ensures act.Shift? || act.Accept? ==> yychar != YYEMPTY
  {
    yychar, yylval, exp := yychar0, yylval0, exp0;
    TablesMatch(yystate, La(rest));
    if YyPact(yystate) == YYFLAG {
      return DefaultAction(yystate), yychar, yylval, exp;
    }
    if yychar == YYEMPTY {
      yychar, yylval, exp := YyLex(text, exp, yylval);
      if rest != [] {
        CodesTranslate(rest[0]);
      }
    }
    var yychar1;
    if yychar <= 0 {
      yychar1 := 0;
      yychar := PluralLexer.YYEOF;
    } else {
      yychar1 := Translate(yychar);
    }
    if rest != [] {
      CodesTranslate(rest[0]);
    }
    assert yychar1 == La(rest);
    act := Consult(yystate, yychar1);
  }

  /** Labels `yyerrlab` to `yyerrhandle`: looks down the stack for a state that shifts the error
      token. There is none, so the recovery always unwinds the whole stack and gives up. */
  method Recover(yyss0: seq<int>, yyvs0: seq<Value>, yyerrstatus: int, ghost st0: Stack) returns (status: int)
    requires |yyss0| == |yyvs0| && Stacks(yyss0, yyvs0, |yyss0|, st0) && ValidStack(st0)
    requires yyerrstatus == 0
    ensures status == 1
  {
    var yyss, yyvs := yyss0, yyvs0;
    ghost var st := st0;
    if yyerrstatus == 3 {
      assert false;
    }
    while true
      invariant |yyss| == |yyvs| && Stacks(yyss, yyvs, |yyss|, st) && ValidStack(st)
      decreases |yyss|
    {
      StateTells(st);
      var yystate := yyss[|yyss| - 1];
      ErrorTokenNeverShifted(yystate);
      var yyn := YyPact(yystate);
      if yyn != YYFLAG {
        yyn := yyn + YYTERROR;
        if 0 <= yyn <= YYLAST && YyCheck(yyn) == YYTERROR {
          assert false;
        }
      }
      if |yyss| == 1 {
        return 1;
      }
      StacksFrame(yyss, yyvs, |yyss| - 1, st.below, yyss[..|yyss| - 1], yyvs[..|yyvs| - 1]);
      yyss, yyvs := yyss[..|yyss| - 1], yyvs[..|yyvs| - 1];
      st := st.below;
    }
  }

  /** What `yyparse` promises: it accepts exactly the sentences, builds the expression of the
      canonical derivation, and otherwise returns 1. A failed parse leaves a result exactly if a
      proper prefix is a sentence and the token after it does not go on with it; that prefix's. */
  ghost predicate ParseResult(toks: seq<Token>, status: int, res: Option<Expr>) {
    && (status == 0 || status == 1)
    && (status == 0 ==> exists t: Cst :: Canonical(t) && Yield(t) == toks && res == Some(Ast(t)))
    && (status == 1 ==> !Sentence(toks))
    && (status == 1 ==> (res.Some? <==> exists k: nat :: EndsEarly(toks, k)))
    && (status == 1 ==> forall k: nat, t: Cst ::
          EndsEarly(toks, k) && Canonical(t) && Yield(t) == toks[..k] ==> res == Some(Ast(t)))
  }

  /** The automaton has come from the start of `toks` to this configuration, and `res` holds what
      rule 1 stored. */
  predicate OnTrack(toks: seq<Token>, st: Stack, rest: seq<Token>, res: Option<Expr>) {
    && Valid(Running(st, rest))
    && Valid(Running(Base, toks)) && Last(Running(st, rest)) == Last(Running(Base, toks))
    && Run(Running(st, rest)) == Parse(toks)
    && Input(Running(st, rest)) == toks
    && (res.Some? <==> State(st) == 25 || State(st) == 26)
    && (State(st) == 25 ==> st.On? && st.sym.StartSym? && res == Some(Ast(st.sym.tree)) && (rest != [] ==> !Continues(rest[0])))
    && (State(st) == 26 ==> st.On? && st.below.On? && st.below.sym.StartSym? && res == Some(Ast(st.below.sym.tree)))
  }

  predicate Smaller(d: Config, c: Config) {
    && d.Running? && c.Running?
    && (|| |d.rest| < |c.rest|
        || (|d.rest| == |c.rest| && EndPhase(d.stack) < EndPhase(c.stack))
        || (|d.rest| == |c.rest| && EndPhase(d.stack) == EndPhase(c.stack) && Potential(d.stack) < Potential(c.stack)))
  }

  lemma StepOnTrack(toks: seq<Token>, st: Stack, rest: seq<Token>, res: Option<Expr>)
    requires OnTrack(toks, st, rest, res) && Step(Running(st, rest)).Running?
    ensures
      var c := Running(st, rest);
      var d := Step(c);
      && Smaller(d, c) && Valid(d) && Run(d) == Parse(toks) && Input(d) == toks
      && Last(d) == Last(Running(Base, toks))
  {
    var c := Running(st, rest);
    StepValid(c);
    StepInput(c);
    StepDecreases(c);
  }

  lemma ShiftOnTrack(toks: seq<Token>, st: Stack, rest: seq<Token>, res: Option<Expr>, s: int)
    requires OnTrack(toks, st, rest, res)
    requires 0 <= State(st) <= 26 && LrAction(State(st), La(rest)) == Shift(s)
    ensures
      var c := Running(st, rest);
      var d := Step(c);
      && Smaller(d, c) && OnTrack(toks, d.stack, d.rest, res)
      && d.rest == (if rest == [] then [] else rest[1..])
      && d.stack == On(st, s, if rest == [] then EofSym else Term(rest[0]))
  {
    StepOnTrack(toks, st, rest, res);
  }

  lemma ReduceOnTrack(toks: seq<Token>, st: Stack, rest: seq<Token>, res: Option<Expr>, rule: int)
    requires OnTrack(toks, st, rest, res) && Reduces(st, rest, rule)
    ensures 1 <= rule <= 12 && Handle(st, rule)
    ensures 0 <= State(Uncovered(st, rule)) <= 26 && (rule == 1 || OperandState(State(Uncovered(st, rule))))
    ensures
      var c := Running(st, rest);
      var d := Step(c);
      var b := Uncovered(st, rule);
      && Smaller(d, c) && d.rest == rest && d.stack == On(b, GotoState(rule, State(b)), Reduced(st, rule))
      && OnTrack(toks, d.stack, rest, if rule == 1 then Some(Ast(st.sym.tree)) else res)
  {
    HandleOnTop(st, rest, rule);
    StateTells(Uncovered(st, rule));
    StepOnTrack(toks, st, rest, res);
  }

  /** Where rule 1 stored a result and the parse then stops, a sentence has ended early. */
  lemma StoredEarly(toks: seq<Token>, st: Stack, rest: seq<Token>, res: Option<Expr>)
    requires OnTrack(toks, st, rest, res) && State(st) == 25 && rest != []
    ensures EndsEarly(toks, |toks| - |rest|)
  {
    StateTells(st.below);
    assert StackYield(st.below) == [];
    var t := st.sym.tree;
    assert toks == Yield(t) + rest;
    assert toks[..|toks| - |rest|] == Yield(t);
    assert Sentence(Yield(t));
  }

  /** Where a sentence ends early, the parse stops with that sentence stored. */
  lemma EarlyStored(toks: seq<Token>, st: Stack, rest: seq<Token>, res: Option<Expr>, k: nat, t: Cst)
    requires OnTrack(toks, st, rest, res) && !Step(Running(st, rest)).Running?
    requires EndsEarly(toks, k) && Canonical(t) && Yield(t) == toks[..k]
    ensures res == Some(Ast(t))
  {
    EarlyEnd(toks, k, t);
    assert Last(Running(st, rest)) == Running(st, rest);
  }

  /** A syntax error: the input is no sentence, and the result is stored exactly as promised. */
  lemma ErrorOnTrack(toks: seq<Token>, st: Stack, rest: seq<Token>, res: Option<Expr>)
    requires 0 <= State(st) <= 26 && LrAction(State(st), La(rest)) == Error
    requires OnTrack(toks, st, rest, res)
    ensures ParseResult(toks, 1, res)
  {
    assert Step(Running(st, rest)) == Rejected;
    RejectsExactlyNonSentences(toks);
    StateTells(st);
    if res.Some? {
      StoredEarly(toks, st, rest, res);
    }
    forall k: nat, t: Cst | EndsEarly(toks, k) && Canonical(t) && Yield(t) == toks[..k]
      ensures res == Some(Ast(t))
    {
      EarlyStored(toks, st, rest, res, k, t);
    }
    if k: nat :| EndsEarly(toks, k) {
      var u: Cst :| Yield(u) == toks[..k];
      EarlyStored(toks, st, rest, res, k, Normalize(u));
    }
  }

  lemma AcceptOnTrack(toks: seq<Token>, st: Stack, rest: seq<Token>, res: Option<Expr>)
    requires 0 <= State(st) <= 26 && LrAction(State(st), La(rest)) == Accept
    requires OnTrack(toks, st, rest, res)
    ensures ParseResult(toks, 0, res)
  {
    hide Last, Run, EndsEarly;
    AcceptInput(st, rest);
  }

  /** Pushing a value and a state on both stacks. */
  lemma PushStacks(ss: seq<int>, vs: seq<Value>, n: int, b: Stack, s: int, v: Value, y: Symbol)
    requires Stacks(ss, vs, n, b) && Carries(v, y)
    ensures n <= |ss| && n <= |vs|
    ensures Stacks(ss[..n] + [s], vs[..n] + [v], n + 1, On(b, s, y))
  {
    var ss', vs' := ss[..n] + [s], vs[..n] + [v];
    assert ss'[..n] == ss[..n] && vs'[..n] == vs[..n];
    StacksFrame(ss, vs, n, b, ss', vs');
  }

  /** Label `yyreduce`: runs the action, pops both stacks and finds the next state. */
  method DoReduce(rule: int, yyss0: seq<int>, yyvs0: seq<Value>, res0: Option<Expr>, ghost st: Stack)
    returns (yyss: seq<int>, yystate: int, yyvs: seq<Value>, res: Option<Expr>)
    requires |yyss0| == |yyvs0| && Stacks(yyss0, yyvs0, |yyvs0|, st)
    requires 1 <= rule <= 12 && Handle(st, rule)
    requires 0 <= State(Uncovered(st, rule)) <= 26 && (rule == 1 || OperandState(State(Uncovered(st, rule))))
    ensures |yyvs| == |yyss| + 1
    ensures yystate == GotoState(rule, State(Uncovered(st, rule)))
    ensures Stacks(yyss + [yystate], yyvs, |yyvs|, On(Uncovered(st, rule), yystate, Reduced(st, rule)))
    ensures res == if rule == 1 then Some(Ast(st.sym.tree)) else res0
  {
    HandleSlots(yyss0, yyvs0, |yyvs0|, st, rule);
    var yyval := Action(rule, yyss0, yyvs0, st);
    res := res0;
    if rule == 1 {
      res := Some(yyvs0[|yyvs0| - 1].exp);
    }
    var n := |yyss0| - YyR2[rule];
    yyvs, yyss := yyvs0[..n] + [yyval], yyss0[..n];
    GotosMatch(rule, yyss[|yyss| - 1]);
    yystate := LookupGoto(rule, yyss[|yyss| - 1]);
    PushStacks(yyss0, yyvs0, n, Uncovered(st, rule), yystate, yyval, Reduced(st, rule));
  }

  /** Shifts the lookahead token: its value is pushed, and it is used up unless it is the end. */
  method DoShift(yychar0: int, yylval: Value, yyss: seq<int>, yyvs0: seq<Value>, s: int, text: string, exp: nat,
                 ghost st: Stack, ghost rest: seq<Token>)
    returns (yychar: int, yyvs: seq<Value>)
    requires |yyss| == |yyvs0| && Stacks(yyss, yyvs0, |yyvs0|, st)
    requires Lookahead(yychar0, yylval, text, exp, rest) && yychar0 != YYEMPTY
    ensures |yyvs| == |yyss| + 1
    ensures Stacks(yyss + [s], yyvs, |yyvs|, On(st, s, if rest == [] then EofSym else Term(rest[0])))
    ensures Lookahead(yychar, yylval, text, exp, if rest == [] then [] else rest[1..])
  {
    yychar := yychar0;
    if yychar != PluralLexer.YYEOF {
      yychar := YYEMPTY;
    }
    yyvs := yyvs0 + [yylval];
    PushStacks(yyss, yyvs0, |yyvs0|, st, s, yylval, if rest == [] then EofSym else Term(rest[0]));
    assert yyss[..|yyss|] == yyss && yyvs0[..|yyvs0|] == yyvs0;
    if rest != [] {
      CodesTranslate(rest[0]);
    }
  }

  method YyParse(text: string, garbage: Value) returns (status: int, res: Option<Expr>)
    ensures ParseResult(Tokens(text), status, res)
  {
    var yystate, yyss, yyvs, yyerrstatus := 0, [], [garbage], 0;
    var yychar, yylval, exp := YYEMPTY, garbage, 0;
    res := None;
    ghost var st, rest := Base, Tokens(text);
    assert text[0..] == text;
    while true
      invariant |yyvs| == |yyss| + 1 && Stacks(yyss + [yystate], yyvs, |yyvs|, st)
      invariant OnTrack(Tokens(text), st, rest, res)
      invariant Lookahead(yychar, yylval, text, exp, rest)
      decreases |rest|, EndPhase(st), Potential(st)
    {
      StateTells(st);
      yyss := yyss + [yystate];
      var act;
      act, yychar, yylval, exp := Backup(yystate, yychar, yylval, text, exp, rest);
      ghost var d := Step(Running(st, rest));
      match act
      case Shift(s) =>
        ShiftOnTrack(Tokens(text), st, rest, res, s);
        yychar, yyvs := DoShift(yychar, yylval, yyss, yyvs, s, text, exp, st, rest);
        yystate := s;
        st, rest := d.stack, d.rest;
      case Reduce(rule) =>
        ReduceOnTrack(Tokens(text), st, rest, res, rule);
        yyss, yystate, yyvs, res := DoReduce(rule, yyss, yyvs, res, st);
        st := d.stack;
      case Accept =>
        AcceptOnTrack(Tokens(text), st, rest, res);
        return 0, res;
      case Error =>
        ErrorOnTrack(Tokens(text), st, rest, res);
        status := Recover(yyss, yyvs, yyerrstatus, st);
        return status, res;
    }
  }

  /** Printing an expression with the fewest parentheses and any spacing, up to the end of the string
      or in front of a semicolon, a line feed or a null character and anything else, then scanning
      and parsing the text, gives the expression back: no other result is allowed. */
  lemma RoundTrip(e: Expr, gaps: seq<string>, end: string, status: int, res: Option<Expr>)
    requires LiteralsFit(e) && Spacing(e, gaps)
    requires end == "" || end[0] == ';' || end[0] == '\n' || end[0] == '\0'
    requires ParseResult(Tokens(Print(e, gaps) + end), status, res)
    ensures status == 0 && res == Some(e)
  {
    var t := MinCst(e);
    ScansPrinted(e, gaps, end);
    MinCstMeans(e);
    assert Sentence(Yield(t));
    var u: Cst :| Canonical(u) && Yield(u) == Yield(t) && res == Some(Ast(u));
    CanonicalUnique(t, u);
  }

  // ----- what the parts of a sentence mean -----

  /** A derivation of a token sequence that means an expression. */
  ghost predicate Means(toks: seq<Token>, e: Expr) {
    exists t: Cst :: Canonical(t) && Yield(t) == toks && Ast(t) == e
  }

  /** A successful parse tells what its tokens mean, and is the only outcome they allow. */
  lemma ParsedMeans(toks: seq<Token>, e: Expr, status: int, res: Option<Expr>)
    ensures ParseResult(toks, 0, Some(e)) <==> Means(toks, e)
    ensures Means(toks, e) && ParseResult(toks, status, res) ==> status == 0 && res == Some(e)
  {
    if t: Cst :| Canonical(t) && Yield(t) == toks && Ast(t) == e {
      assert Sentence(toks);
      if ParseResult(toks, status, res) {
        var u: Cst :| Canonical(u) && Yield(u) == toks && res == Some(Ast(u));
        CanonicalUnique(t, u);
      }
    }
  }

  function InParens(toks: seq<Token>): seq<Token> { [LParenTok] + toks + [RParenTok] }

  lemma OperandsMean(n: nat)
    ensures ParseResult([VarTok], 0, Some(Var)) && ParseResult([NumTok(n)], 0, Some(Num(n)))
  {
    assert Yield(CVar) == [VarTok] && Canonical(CVar) && Ast(CVar) == Var;
    assert Yield(CNum(n)) == [NumTok(n)] && Canonical(CNum(n)) && Ast(CNum(n)) == Num(n);
    ParsedMeans([VarTok], Var, 0, None);
    ParsedMeans([NumTok(n)], Num(n), 0, None);
  }

  lemma Parenthesised(t: Cst)
    requires Canonical(t)
    ensures Canonical(CParen(t)) && Yield(CParen(t)) == InParens(Yield(t)) && Ast(CParen(t)) == Ast(t) && Level(CParen(t)) == 8
  {
  }

  /** Operands in parentheses, joined by an operator, are the operator applied to them in that order. */
  lemma BinaryMeans(a: seq<Token>, op: Operator, b: seq<Token>, x: Expr, y: Expr)
    requires ParseResult(a, 0, Some(x)) && ParseResult(b, 0, Some(y))
    ensures ParseResult(InParens(a) + [OpTok(op)] + InParens(b), 0, Some(Binary(op, x, y)))
  {
    ParsedMeans(a, x, 0, None);
    ParsedMeans(b, y, 0, None);
    var t: Cst :| Canonical(t) && Yield(t) == a && Ast(t) == x;
    var u: Cst :| Canonical(u) && Yield(u) == b && Ast(u) == y;
    Parenthesised(t);
    Parenthesised(u);
    var v := CBin(op, CParen(t), CParen(u));
    assert Prec(op) <= 6;
    assert Canonical(v) && Yield(v) == InParens(a) + [OpTok(op)] + InParens(b) && Ast(v) == Binary(op, x, y);
    ParsedMeans(InParens(a) + [OpTok(op)] + InParens(b), Binary(op, x, y), 0, None);
  }

  lemma UnaryMeans(a: seq<Token>, x: Expr)
    requires ParseResult(a, 0, Some(x))
    ensures ParseResult(InParens(a), 0, Some(x)) && ParseResult([NotTok] + InParens(a), 0, Some(Not(x)))
  {
    ParsedMeans(a, x, 0, None);
    var t: Cst :| Canonical(t) && Yield(t) == a && Ast(t) == x;
    Parenthesised(t);
    var u, v := CParen(t), CNot(CParen(t));
    assert Canonical(u) && Yield(u) == InParens(a) && Ast(u) == x;
    assert Canonical(v) && Yield(v) == [NotTok] + InParens(a) && Ast(v) == Not(x);
    ParsedMeans(InParens(a), x, 0, None);
    ParsedMeans([NotTok] + InParens(a), Not(x), 0, None);
  }

  lemma CondMeans(a: seq<Token>, b: seq<Token>, c: seq<Token>, x: Expr, y: Expr, z: Expr)
    requires ParseResult(a, 0, Some(x)) && ParseResult(b, 0, Some(y)) && ParseResult(c, 0, Some(z))
    ensures ParseResult(InParens(a) + [QuestionTok] + InParens(b) + [ColonTok] + InParens(c), 0, Some(Cond(x, y, z)))
  {
    ParsedMeans(a, x, 0, None);
    ParsedMeans(b, y, 0, None);
    ParsedMeans(c, z, 0, None);
    var t: Cst :| Canonical(t) && Yield(t) == a && Ast(t) == x;
    var u: Cst :| Canonical(u) && Yield(u) == b && Ast(u) == y;
    var v: Cst :| Canonical(v) && Yield(v) == c && Ast(v) == z;
    Parenthesised(t);
    Parenthesised(u);
    Parenthesised(v);
    var w := CCond(CParen(t), CParen(u), CParen(v));
    var toks := InParens(a) + [QuestionTok] + InParens(b) + [ColonTok] + InParens(c);
    assert Canonical(w) && Yield(w) == toks && Ast(w) == Cond(x, y, z);
    ParsedMeans(toks, Cond(x, y, z), 0, None);
  }

  lemma SentencesEndInOperands(toks: seq<Token>)
    ensures Sentence(toks) ==> toks != [] && EndsOperand(toks[|toks| - 1])
  {
    if t: Cst :| Yield(t) == toks {
      YieldNoMerge(t);
    }
  }

  lemma DanglingOperator()
    ensures !Sentence([VarTok, OpTok(Plus), RParenTok])
  {
    var b := [VarTok, OpTok(Plus), RParenTok];
    var c0 := Running(Base, b);
    var c1 := Running(On(Base, 3, Term(VarTok)), b[1..]);
    assert Step(c0) == c1;
    StepValid(c0);
    var c2 := Running(On(Base, 5, Tree(CVar)), b[1..]);
    assert Step(c1) == c2;
    StepValid(c1);
    var c3 := Running(On(c2.stack, 13, Term(OpTok(Plus))), b[1..][1..]);
    assert Step(c2) == c3;
    StepValid(c2);
    assert Step(c3) == Rejected;
    assert Run(c3) == Rejected;
    assert Run(c2) == Run(c3);
    assert Run(c1) == Run(c2);
    RejectsExactlyNonSentences(b);
  }

  lemma LayoutNext(t: Token, toks: seq<Token>, g: string, gaps: seq<string>)
    requires Writable(t) && AllWritable(toks) && |gaps| == |toks| + 1
    ensures Layout([t] + toks, [g] + gaps) == g + Spelling(t) + Layout(toks, gaps)
  {
    assert ([t] + toks)[1..] == toks && ([g] + gaps)[1..] == gaps;
  }

  lemma LayoutNothing(g: string)
    ensures Layout([], [g]) == g
  {
  }

  /** What two texts scan to. */
  lemma TwoOperands()
    ensures Tokens("n n") == [VarTok, VarTok]
  {
    hide Layout, Tokens;
    ScansLayout([VarTok, VarTok], ["", " ", ""]);
    LayoutNext(VarTok, [VarTok], "", [" ", ""]);
    LayoutNext(VarTok, [], " ", [""]);
    LayoutNothing("");
    assert [VarTok] + [] == [VarTok] && [" "] + [""] == [" ", ""];
    assert Layout([VarTok], [" ", ""]) == " n";
    assert [VarTok] + [VarTok] == [VarTok, VarTok] && [""] + [" ", ""] == ["", " ", ""];
    assert Layout([VarTok, VarTok], ["", " ", ""]) == "n n";
  }

  lemma OperatorAndParenthesis()
    ensures Tokens("n + )") == [VarTok, OpTok(Plus), RParenTok]
  {
    hide Layout, Tokens;
    var b, h: seq<string> := [VarTok, OpTok(Plus), RParenTok], ["", " ", " ", ""];
    ScansLayout(b, h);
    LayoutNext(VarTok, b[1..], "", h[1..]);
    LayoutNext(OpTok(Plus), [RParenTok], " ", [" ", ""]);
    LayoutNext(RParenTok, [], " ", [""]);
    LayoutNothing("");
    assert [RParenTok] + [] == [RParenTok] && [" "] + [""] == [" ", ""];
    assert Layout([RParenTok], [" ", ""]) == " )";
    assert b[1..] == [OpTok(Plus)] + [RParenTok] && h[1..] == [" "] + [" ", ""];
    assert Layout(b[1..], h[1..]) == " + )";
    assert [VarTok] + b[1..] == b && [""] + h[1..] == h;
    assert Layout(b, h) == "n + )";
  }

  lemma NothingEndsEarly()
    ensures !Sentence([VarTok, OpTok(Plus), RParenTok]) && forall k: nat :: !EndsEarly([VarTok, OpTok(Plus), RParenTok], k)
  {
    hide Sentence;
    var b := [VarTok, OpTok(Plus), RParenTok];
    DanglingOperator();
    forall k: nat | k < 3
      ensures !EndsEarly(b, k)
    {
      SentencesEndInOperands(b[..k]);
      if k == 1 {
        assert Continues(b[1]);
      }
    }
  }

  /** The two sides of it: `n n` leaves `n` behind, `n + )` nothing. */
  lemma FailedParseExamples(status: int, res: Option<Expr>)
    ensures ParseResult(Tokens("n n"), status, res) ==> status == 1 && res == Some(Var)
    ensures ParseResult(Tokens("n + )"), status, res) ==> status == 1 && res == None
  {
    hide Tokens;
    TwoOperands();
    OperatorAndParenthesis();
    var a := [VarTok, VarTok];
    assert Yield(CVar) == a[..1] && Canonical(CVar) && Sentence(a[..1]);
    assert EndsEarly(a, 1);
    EarlyEnd(a, 1, CVar);
    EarlyIsNoSentence(a, 1);
    NothingEndsEarly();
  }

  lemma TerminatedText()
    ensures Tokens("n != 1;\n") == [VarTok, OpTok(NotEqual), NumTok(1)]
  {
    hide Layout, Tokens;
    var b, h: seq<string> := [VarTok, OpTok(NotEqual), NumTok(1)], ["", " ", " ", ""];
    ScansTerminated(b, h, ';', "\n");
    LayoutNext(VarTok, b[1..], "", h[1..]);
    LayoutNext(OpTok(NotEqual), [NumTok(1)], " ", [" ", ""]);
    LayoutNext(NumTok(1), [], " ", [""]);
    LayoutNothing("");
    assert [NumTok(1)] + [] == [NumTok(1)] && [" "] + [""] == [" ", ""];
    assert Layout([NumTok(1)], [" ", ""]) == " 1";
    assert b[1..] == [OpTok(NotEqual)] + [NumTok(1)] && h[1..] == [" "] + [" ", ""];
    assert Layout(b[1..], h[1..]) == " != 1";
    assert [VarTok] + b[1..] == b && [""] + h[1..] == h;
    assert Layout(b, h) == "n != 1" && "n != 1" + [';'] + "\n" == "n != 1;\n";
  }

  /** A plural rule as it stands in a catalogue. */
  lemma PluralRuleExample(status: int, res: Option<Expr>)
    requires ParseResult(Tokens("n != 1;\n"), status, res)
    ensures status == 0 && res == Some(Binary(NotEqual, Var, Num(1)))
  {
    hide Tokens;
    TerminatedText();
    var t := CBin(NotEqual, CVar, CNum(1));
    assert Canonical(t) && Yield(t) == [VarTok, OpTok(NotEqual), NumTok(1)] && Ast(t) == Binary(NotEqual, Var, Num(1));
    ParsedMeans(Yield(t), Ast(t), status, res);
  }
}
