/** The plural-expression language: tokens, expression trees, the grammar's derivation trees
    and the operator precedences. Nothing here mentions the parser's tables. */
module PluralGrammar {
  import opened Basics

  datatype Operator =
    | Lor | Land
    | Equal | NotEqual
    | LessThan | GreaterThan | LessOrEqual | GreaterOrEqual
    | Plus | Minus
    | Mult | Divide | Module

  /** What the scanner hands to the parser. Only numbers and the operators of the four
      value-carrying classes come with a semantic value. */
  datatype Token =
    | NumTok(n: nat) | VarTok | NotTok | OpTok(op: Operator)
    | QuestionTok | ColonTok | LParenTok | RParenTok | ErrTok

  /** The tree the parser builds (struct expression). */
  datatype Expr =
    | Num(n: nat)
    | Var
    | Not(arg: Expr)
    | Binary(op: Operator, left: Expr, right: Expr)
    | Cond(test: Expr, thn: Expr, els: Expr)

  /** A derivation tree of `exp` in the ambiguous grammar of rules 2 to 12. */
  datatype Cst =
    | CNum(n: nat)
    | CVar
    | CNot(arg: Cst)
    | CBin(op: Operator, left: Cst, right: Cst)
    | CCond(test: Cst, thn: Cst, els: Cst)
    | CParen(inner: Cst)

  /** Binding strength of a binary operator, 1 (loosest) to 6. */
  function Prec(op: Operator): nat {
    match op
    case Lor => 1
    case Land => 2
    case Equal | NotEqual => 3
    case LessThan | GreaterThan | LessOrEqual | GreaterOrEqual => 4
    case Plus | Minus => 5
    case Mult | Divide | Module => 6
  }

  /** Binding strength of the outermost production of a derivation tree. */
  function Level(t: Cst): nat {
    match t
    case CCond(_, _, _) => 0
    case CBin(op, _, _) => Prec(op)
    case CNot(_) => 7
    case _ => 8
  }

  /** The token sequence a derivation tree derives. */
  function Yield(t: Cst): seq<Token> {
    match t
    case CNum(n) => [NumTok(n)]
    case CVar => [VarTok]
    case CNot(a) => [NotTok] + Yield(a)
    case CBin(op, l, r) => Yield(l) + [OpTok(op)] + Yield(r)
    case CCond(c, x, y) => Yield(c) + [QuestionTok] + Yield(x) + [ColonTok] + Yield(y)
    case CParen(x) => [LParenTok] + Yield(x) + [RParenTok]
  }

  /** The expression a derivation tree means: parentheses vanish. */
  function Ast(t: Cst): Expr {
    match t
    case CNum(n) => Num(n)
    case CVar => Var
    case CNot(a) => Not(Ast(a))
    case CBin(op, l, r) => Binary(op, Ast(l), Ast(r))
    case CCond(c, x, y) => Cond(Ast(c), Ast(x), Ast(y))
    case CParen(x) => Ast(x)
  }

  /** The derivation obeys the declared precedences: `!` binds tightest, the six binary classes
      associate to the left, `?:` is loosest and associates to the right. */
  predicate Canonical(t: Cst) {
    match t
    case CNum(_) => true
    case CVar => true
    case CNot(a) => Canonical(a) && Level(a) >= 7
    case CBin(op, l, r) => Canonical(l) && Canonical(r) && Level(l) >= Prec(op) && Level(r) > Prec(op)
    case CCond(c, x, y) => Canonical(c) && Canonical(x) && Canonical(y) && Level(c) >= 1
    case CParen(x) => Canonical(x)
  }

  // ----- every derivation has a canonical one with the same yield -----

  lemma CatLeft<T>(a: seq<T>, b: seq<T>, c: seq<T>, d: seq<T>)
    ensures a + (b + c + d) == (a + b) + c + d
  {
  }

  lemma CatRight<T>(a: seq<T>, b: seq<T>, c: seq<T>, d: seq<T>)
    ensures (a + b + c) + d == a + b + (c + d)
  {
  }

  /** Prefixes `!` to a canonical derivation and re-associates. */
  function GraftNot(x: Cst): (t: Cst)
    requires Canonical(x)
    ensures Canonical(t)
    ensures Yield(t) == [NotTok] + Yield(x)
    ensures Level(t) == if Level(x) >= 7 then 7 else Level(x)
    decreases x
  {
    match x
    case CBin(op, l, r) =>
      CatLeft([NotTok], Yield(l), [OpTok(op)], Yield(r));
      CBin(op, GraftNot(l), r)
    case CCond(c, y, z) =>
      CatLeft([NotTok], Yield(c), [QuestionTok], Yield(y));
      CatLeft([NotTok], Yield(c) + [QuestionTok] + Yield(y), [ColonTok], Yield(z));
      CCond(GraftNot(c), y, z)
    case _ => CNot(x)
  }

  /** Joins two canonical derivations with a binary operator and re-associates. */
  function GraftBin(l: Cst, op: Operator, r: Cst): (t: Cst)
    requires Canonical(l) && Canonical(r)
    ensures Canonical(t)
    ensures Yield(t) == Yield(l) + [OpTok(op)] + Yield(r)
    ensures Level(t) == Min(Level(l), Min(Prec(op), Level(r)))
    decreases l, r
  {
    var o := [OpTok(op)];
    if l.CCond? then
      CatLeft(Yield(l.test) + [QuestionTok] + Yield(l.thn) + [ColonTok], Yield(l.els), o, Yield(r));
      CCond(l.test, l.thn, GraftBin(l.els, op, r))
    else if r.CCond? then
      CondYieldRight(Yield(l), o, r);
      CCond(GraftBin(l, op, r.test), r.thn, r.els)
    else if r.CBin? && Level(r) <= Prec(op) && Level(r) <= Level(l) then
      CatRight(Yield(l), o, Yield(r.left), [OpTok(r.op)]);
      CatRight(Yield(l), o, Yield(r.left) + [OpTok(r.op)], Yield(r.right));
      CBin(r.op, GraftBin(l, op, r.left), r.right)
    else if Prec(op) <= Level(l) then
      CBin(op, l, r)
    else
      CatLeft(Yield(l.left) + [OpTok(l.op)], Yield(l.right), o, Yield(r));
      CBin(l.op, l.left, GraftBin(l.right, op, r))
  }

  lemma CondYieldRight(a: seq<Token>, o: seq<Token>, r: Cst)
    requires r.CCond?
    ensures a + o + Yield(r) == a + o + Yield(r.test) + [QuestionTok] + Yield(r.thn) + [ColonTok] + Yield(r.els)
  {
    CatRight(a, o, Yield(r.test), [QuestionTok]);
    CatRight(a, o, Yield(r.test) + [QuestionTok], Yield(r.thn));
    CatRight(a, o, Yield(r.test) + [QuestionTok] + Yield(r.thn), [ColonTok]);
    CatRight(a, o, Yield(r.test) + [QuestionTok] + Yield(r.thn) + [ColonTok], Yield(r.els));
  }

  /** Joins three canonical derivations with `?` and `:` and re-associates. */
  function GraftCond(c: Cst, x: Cst, y: Cst): (t: Cst)
    requires Canonical(c) && Canonical(x) && Canonical(y)
    ensures Canonical(t)
    ensures Yield(t) == Yield(c) + [QuestionTok] + Yield(x) + [ColonTok] + Yield(y)
    ensures Level(t) == 0
    decreases c
  {
    if c.CCond? then
      var pre := Yield(c.test) + [QuestionTok] + Yield(c.thn) + [ColonTok];
      CatRight(pre, Yield(c.els), [QuestionTok], Yield(x));
      CatRight(pre, Yield(c.els), [QuestionTok] + Yield(x), [ColonTok]);
      CatLeft(pre, Yield(c.els), [QuestionTok], Yield(x));
      CatLeft(pre, Yield(c.els) + [QuestionTok] + Yield(x), [ColonTok], Yield(y));
      CCond(c.test, c.thn, GraftCond(c.els, x, y))
    else
      CCond(c, x, y)
  }

  /** The precedence declarations only choose between derivations; they lose no sentence. */
  function Normalize(t: Cst): (u: Cst)
    ensures Canonical(u)
    ensures Yield(u) == Yield(t)
  {
    match t
    case CNum(_) => t
    case CVar => t
    case CNot(a) => GraftNot(Normalize(a))
    case CBin(op, l, r) => GraftBin(Normalize(l), op, Normalize(r))
    case CCond(c, x, y) => GraftCond(Normalize(c), Normalize(x), Normalize(y))
    case CParen(x) => CParen(Normalize(x))
  }

  // ----- printing with the fewest parentheses -----

  function Wrap(t: Cst, needed: nat): (u: Cst)
    requires needed <= 8
    ensures Canonical(t) ==> Canonical(u)
    ensures Ast(u) == Ast(t)
    ensures Level(u) >= needed
  {
    if Level(t) < needed then CParen(t) else t
  }

  /** The derivation printed for an expression: parentheses only where the precedences ask. */
  function MinCst(e: Expr): Cst {
    match e
    case Num(n) => CNum(n)
    case Var => CVar
    case Not(a) => CNot(Wrap(MinCst(a), 7))
    case Binary(op, l, r) => CBin(op, Wrap(MinCst(l), Prec(op)), Wrap(MinCst(r), Prec(op) + 1))
    case Cond(c, x, y) => CCond(Wrap(MinCst(c), 1), MinCst(x), MinCst(y))
  }

  /** The printed derivation obeys the precedences and means the expression. */
  lemma {:induction false} MinCstMeans(e: Expr)
    ensures Canonical(MinCst(e)) && Ast(MinCst(e)) == e
  {
    match e
    case Num(n) =>
    case Var =>
    case Not(a) => MinCstMeans(a);
    case Binary(op, l, r) =>
      MinCstMeans(l);
      MinCstMeans(r);
    case Cond(c, x, y) =>
      MinCstMeans(c);
      MinCstMeans(x);
      MinCstMeans(y);
  }

  function Parens(t: Cst): nat {
    match t
    case CNum(_) => 0
    case CVar => 0
    case CNot(a) => Parens(a)
    case CBin(_, l, r) => Parens(l) + Parens(r)
    case CCond(c, x, y) => Parens(c) + Parens(x) + Parens(y)
    case CParen(x) => 1 + Parens(x)
  }

  /** A canonical derivation has no fewer parentheses than the printed one, also when it is
      used where at least level `needed` is asked for. */
  lemma {:induction false} MinCstIsMinimal(t: Cst, needed: nat)
    requires Canonical(t) && Level(t) >= needed && needed <= 8
    ensures Parens(Wrap(MinCst(Ast(t)), needed)) <= Parens(t)
    decreases t
  {
    match t
    case CNum(_) =>
    case CVar =>
    case CNot(a) => MinCstIsMinimal(a, 7);
    case CBin(op, l, r) =>
      MinCstIsMinimal(l, Prec(op));
      MinCstIsMinimal(r, Prec(op) + 1);
    case CCond(c, x, y) =>
      MinCstIsMinimal(c, 1);
      MinCstIsMinimal(x, 0);
      MinCstIsMinimal(y, 0);
    case CParen(x) => MinCstIsMinimal(x, 0);
  }
}
