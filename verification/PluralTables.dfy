/** The packed parser tables and what they say: which action each state takes on each
    grammar symbol, and where a reduction goes. */
module PluralTables {

  const YYFLAG := -32768
  const YYFINAL := 27
  const YYLAST := 53
  const YYNTBASE := 16
  const YYERRCODE := 256
  const YYTERROR := 1

  /** YYTRANSLATE: external token codes to grammar symbols. The source's table holds 2, the
      undefined symbol, everywhere but at the entries listed here; codes above 261 give 18. */
  function Translate(code: nat): int {
    if code > 261 then 18
    else if code == 0 then 0
    else if code == '!' as int then 10
    else if code == '&' as int then 5
    else if code == '(' as int then 14
    else if code == ')' as int then 15
    else if code == ':' as int then 12
    else if code == '?' as int then 3
    else if code == 'n' as int then 13
    else if code == '|' as int then 4
    else if code == 256 then 1
    else if code == 257 then 6
    else if code == 258 then 7
    else if code == 259 then 8
    else if code == 260 then 9
    else if code == 261 then 11
    else 2
  }

  const YyR1: seq<int> := [0, 16, 17, 17, 17, 17, 17, 17, 17, 17, 17, 17, 17]

  const YyR2: seq<int> := [0, 1, 5, 3, 3, 3, 3, 3, 3, 2, 1, 1, 3]

  function YyDefAct(i: int): int
    requires 0 <= i <= YYFINAL
  {
    match i
    case 2 => 11
    case 3 => 10
    case 5 => 1
    case 6 => 9
    case 15 => 12
    case 17 => 3
    case 18 => 4
    case 19 => 5
    case 20 => 6
    case 21 => 7
    case 22 => 8
    case 24 => 2
    case _ => 0
  }

  const YyDefGoto: seq<int> := [25, 5]

  function YyPact(i: int): int
    requires 0 <= i <= YYFINAL
  {
    match i
    case 2 | 3 | 6 | 15 | 22 | 27 => -32768
    case 5 | 24 => 34
    case 7 => 11
    case 16 => 24
    case 17 => 39
    case 18 => 43
    case 19 => 16
    case 20 => 26
    case 21 => -3
    case 25 => 21
    case 26 => 53
    case _ => -9
  }

  const YyPgoto: seq<int> := [-32768, -1]

  function YyTable(i: int): int
    requires 0 <= i <= YYLAST
  {
    match i
    case 0 => 6
    case 1 => 1
    case 2 => 2
    case 3 => 7
    case 4 => 3
    case 5 => 4
    case 7 => 16
    case 8 => 17
    case 9 => 18
    case 10 => 19
    case 11 => 20
    case 12 => 21
    case 13 => 22
    case 14 | 27 | 37 => 8
    case 15 | 28 | 38 => 9
    case 16 | 29 | 39 | 44 => 10
    case 17 | 30 | 40 | 45 | 49 => 11
    case 18 | 23 | 31 | 41 | 46 | 50 => 12
    case 19 | 24 | 32 | 34 | 42 | 47 | 51 => 13
    case 21 => 26
    case 22 => 24
    case 26 => 15
    case 36 => 23
    case 53 => 27
    case _ => 14
  }

  function YyCheck(i: int): int
    requires 0 <= i <= YYLAST
  {
    match i
    case 0 => 1
    case 1 | 9 => 10
    case 2 | 10 => 11
    case 3 | 15 | 28 | 38 => 4
    case 4 | 12 => 13
    case 5 | 13 => 14
    case 7 | 19 | 24 | 32 | 34 | 42 | 47 | 51 => 8
    case 11 | 36 => 12
    case 14 | 27 | 37 => 3
    case 16 | 29 | 39 | 44 => 5
    case 17 | 30 | 40 | 45 | 49 => 6
    case 18 | 23 | 31 | 41 | 46 | 50 => 7
    case 21 | 53 => 0
    case 22 => 23
    case 26 => 15
    case _ => 9
  }

  datatype Action = Shift(state: int) | Reduce(rule: int) | Accept | Error

  // ----- the automaton read off the tables -----

  /** States in which an operand is expected. */
  predicate OperandState(s: int) {
    s == 0 || s == 1 || s == 4 || 8 <= s <= 14 || s == 23
  }

  /** States entered by `exp` in which the symbol of a binary operator or `?` is shifted. */
  predicate ShiftsOp(s: int, sym: int) {
    3 <= sym <= 9 && (s == 5 || s == 7 || s == 16 || s == 24 || (17 <= s <= 22 && sym >= s - 12))
  }

  /** The action of each state on each symbol. */
  function LrAction(s: int, sym: int): Action
    requires 0 <= s <= 26 && 0 <= sym <= 15
  {
    if OperandState(s) then
      if sym == 10 then Shift(1)
      else if sym == 11 then Shift(2)
      else if sym == 13 then Shift(3)
      else if sym == 14 then Shift(4)
      else Error
    else if ShiftsOp(s, sym) then Shift(sym + 5)
    else if s == 2 then Reduce(11)
    else if s == 3 then Reduce(10)
    else if s == 5 then Reduce(1)
    else if s == 6 then Reduce(9)
    else if s == 7 then if sym == 15 then Shift(15) else Error
    else if s == 15 then Reduce(12)
    else if s == 16 then if sym == 12 then Shift(23) else Error
    else if s <= 22 then Reduce(s - 14)
    else if s == 24 then Reduce(2)
    else if s == 25 then if sym == 0 then Shift(26) else Error
    else if sym == 0 then Accept
    else Error
  }

  /** Where `exp` leads from an operand state. */
  function GotoExp(s: int): int
    requires OperandState(s)
  {
    if s == 0 then 5 else if s == 1 then 6 else if s == 4 then 7 else if s == 23 then 24 else s + 8
  }

  /** The default action, taken without or in spite of the lookahead. */
  function DefaultAction(s: int): Action
    requires 0 <= s <= 27
  {
    if YyDefAct(s) == 0 then Error else Reduce(YyDefAct(s))
  }

  /** Unpacking: what the table lookups answer for a state and a lookahead symbol. */
  function Lookup(s: int, sym: int): Action
    requires 0 <= s <= 27 && 0 <= sym
  {
    if YyPact(s) == YYFLAG then DefaultAction(s)
    else
      var i := YyPact(s) + sym;
      if i < 0 || i > YYLAST || YyCheck(i) != sym then DefaultAction(s)
      else if YyTable(i) < 0 then if YyTable(i) == YYFLAG then Error else Reduce(-YyTable(i))
      else if YyTable(i) == 0 then Error
      else if YyTable(i) == YYFINAL then Accept
      else Shift(YyTable(i))
  }

  lemma OperandRowsMatch(s: int, sym: int)
    requires OperandState(s) && 0 <= sym <= 15
    ensures Lookup(s, sym) == LrAction(s, sym)
  {
    assert YyPact(s) == -9 && YyDefAct(s) == 0;
  }

  lemma OpenRowsMatch(s: int, sym: int)
    requires s == 5 || s == 7 || s == 16 || s == 24
    requires 0 <= sym <= 15
    ensures Lookup(s, sym) == LrAction(s, sym)
  {
    if s == 5 {
    } else if s == 7 {
    } else if s == 16 {
    }
  }

  lemma BinaryRowsMatch(s: int, sym: int)
    requires 17 <= s <= 21 && 0 <= sym <= 15
    ensures Lookup(s, sym) == LrAction(s, sym)
  {
    if s == 17 {
    } else if s == 18 {
    } else if s == 19 {
    } else if s == 20 {
    }
  }

  lemma OtherRowsMatch(s: int, sym: int)
    requires s in {2, 3, 6, 15, 22, 25, 26} && 0 <= sym <= 15
    ensures Lookup(s, sym) == LrAction(s, sym)
  {
    if s == 25 {
    } else if s == 26 {
    }
  }

  /** The packed tables encode exactly the automaton. */
  lemma TablesMatch(s: int, sym: int)
    requires 0 <= s <= 26 && 0 <= sym <= 15
    ensures Lookup(s, sym) == LrAction(s, sym)
  {
    if OperandState(s) {
      OperandRowsMatch(s, sym);
    } else if s == 5 || s == 7 || s == 16 || s == 24 {
      OpenRowsMatch(s, sym);
    } else if 17 <= s <= 21 {
      BinaryRowsMatch(s, sym);
    } else {
      OtherRowsMatch(s, sym);
    }
  }

  /** Unpacking: the state entered after reducing by a rule with state `s` uncovered. */
  function LookupGoto(rule: int, s: int): int
    requires 1 <= rule <= 12 && 0 <= s <= 26
  {
    var n := YyR1[rule] - YYNTBASE;
    var i := YyPgoto[n] + s;
    if 0 <= i <= YYLAST && YyCheck(i) == s then YyTable(i) else YyDefGoto[n]
  }

  lemma GotosMatch(rule: int, s: int)
    requires 1 <= rule <= 12 && 0 <= s <= 26
    requires rule == 1 || OperandState(s)
    ensures LookupGoto(rule, s) == if rule == 1 then 25 else GotoExp(s)
  {
    assert YyR1[1] == 16;
    assert rule != 1 ==> YyR1[rule] == 17;
  }

  /** No state shifts the error token. */
  lemma ErrorTokenNeverShifted(s: int)
    requires 0 <= s <= 26
    ensures YyPact(s) == YYFLAG || YyPact(s) + YYTERROR < 0 || YyPact(s) + YYTERROR > YYLAST
            || YyCheck(YyPact(s) + YYTERROR) != YYTERROR
  {
  }
}
