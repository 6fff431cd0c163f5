/** Writing token sequences as text, and the proof that the scanner reads them back. */
module PluralPrint {
  import opened PluralGrammar
  import opened PluralLexer

  // ----- spelling -----

  function Digit(d: nat): char
    requires d < 10
  {
    '0' + d as char
  }

  /** Decimal digits of a number, without leading zeros. */
  function Digits(n: nat): string {
    if n < 10 then [Digit(n)] else Digits(n / 10) + [Digit(n % 10)]
  }

  function Spelling(t: Token): string
    requires t != ErrTok
  {
    match t
    case NumTok(n) => Digits(n)
    case VarTok => "n"
    case NotTok => "!"
    case OpTok(op) =>
      (match op
       case Lor => "||"
       case Land => "&&"
       case Equal => "=="
       case NotEqual => "!="
       case LessThan => "<"
       case GreaterThan => ">"
       case LessOrEqual => "<="
       case GreaterOrEqual => ">="
       case Plus => "+"
       case Minus => "-"
       case Mult => "*"
       case Divide => "/"
       case Module => "%")
    case QuestionTok => "?"
    case ColonTok => ":"
    case LParenTok => "("
    case RParenTok => ")"
  }

  predicate Writable(t: Token) {
    t != ErrTok && (t.NumTok? ==> t.n < ULONG_MODULUS)
  }

  predicate AllWritable(toks: seq<Token>) {
    forall i :: 0 <= i < |toks| ==> Writable(toks[i])
  }

  /** Written side by side these two tokens would scan as something else. */
  predicate Merges(a: Token, b: Token) {
    || (a.NumTok? && b.NumTok?)
    || (b == OpTok(Equal) && (a == NotTok || a == OpTok(LessThan) || a == OpTok(GreaterThan)))
  }

  predicate Blanks(s: string) {
    forall i :: 0 <= i < |s| ==> IsBlank(s[i])
  }

  /** Every gap is blank, and gaps are not empty where tokens would merge. */
  predicate WellSpaced(toks: seq<Token>, gaps: seq<string>) {
    && |gaps| == |toks| + 1
    && (forall i :: 0 <= i < |gaps| ==> Blanks(gaps[i]))
    && (forall i :: 0 < i < |toks| && gaps[i] == "" ==> !Merges(toks[i - 1], toks[i]))
  }

  /** The text of a token sequence: a gap before each token and one at the end. */
  function Layout(toks: seq<Token>, gaps: seq<string>): string
    requires |gaps| == |toks| + 1
    requires AllWritable(toks)
  {
    if toks == [] then gaps[0]
    else gaps[0] + Spelling(toks[0]) + Layout(toks[1..], gaps[1..])
  }

  // ----- scanning what was written -----

  lemma {:induction false} SkipsBlanks(g: string, s: string)
    requires Blanks(g) && (s != [] ==> !IsBlank(s[0]))
    ensures SkipBlanks(g + s) == s
  {
    if g == [] {
      assert g + s == s;
    } else {
      assert (g + s)[1..] == g[1..] + s;
      SkipsBlanks(g[1..], s);
    }
  }

  lemma {:induction false} DigitsDenote(n: nat)
    ensures forall i :: 0 <= i < |Digits(n)| ==> IsDigit(Digits(n)[i])
    ensures |Digits(n)| > 0 && Decimal(Digits(n)) == n
  {
    if n < 10 {
      assert Digits(n)[..0] == [];
    } else {
      DigitsDenote(n / 10);
      assert Digits(n)[..|Digits(n)| - 1] == Digits(n / 10);
    }
  }

  lemma {:induction false} DigitRunOf(d: string, s: string)
    requires forall i :: 0 <= i < |d| ==> IsDigit(d[i])
    requires s != [] ==> !IsDigit(s[0])
    ensures DigitRun(d + s) == |d|
  {
    if d == [] {
      assert d + s == s;
    } else {
      assert (d + s)[1..] == d[1..] + s;
      DigitRunOf(d[1..], s);
    }
  }

  /** What may follow a token without a gap. */
  predicate Apart(t: Token, s: string) {
    s != [] ==>
      && (t.NumTok? ==> !IsDigit(s[0]))
      && (t == NotTok || t == OpTok(LessThan) || t == OpTok(GreaterThan) ==> s[0] != '=')
  }

  lemma SymbolOf(t: Token, c: char, tail: string, s: string)
    requires Writable(t) && !t.NumTok? && Apart(t, s)
    requires Spelling(t) == [c] + tail
    ensures ScanSymbol(c, tail + s) == Got(t, s)
    ensures !IsBlank(c) && !IsDigit(c) && c != '\0' && c != ';' && c != '\n'
  {
    if |Spelling(t)| == 1 {
      assert Spelling(t)[0] == c;
      assert tail + s == s;
    } else {
      assert Spelling(t)[0] == c && Spelling(t)[1] == tail[0] && |tail| == 1;
      assert (tail + s)[0] == tail[0] && (tail + s)[1..] == s;
    }
  }

  lemma ScansSymbol(t: Token, s: string)
    requires Writable(t) && !t.NumTok? && Apart(t, s)
    ensures ScanToken(Spelling(t) + s) == Got(t, s)
  {
    hide ScanSymbol, ScanToken, Spelling, Apart;
    FirstCharOf(t);
    var w := Spelling(t);
    SymbolOf(t, w[0], w[1..], s);
    assert w + s == [w[0]] + (w[1..] + s);
    ScanPlain(w[0], w[1..] + s);
  }

  lemma ScanDigits(d: string, s: string)
    requires d != [] && forall i :: 0 <= i < |d| ==> IsDigit(d[i])
    requires s != [] ==> !IsDigit(s[0])
    ensures ScanToken(d + s) == Got(NumTok(Decimal(d) % ULONG_MODULUS), s)
  {
    var w := d + s;
    DigitRunOf(d, s);
    assert w[0] == d[0] && IsDigit(d[0]);
    assert SkipBlanks(w) == w;
    assert w[..|d|] == d;
    assert w[|d|..] == s;
  }

  lemma ScansNumber(n: nat, s: string)
    requires n < ULONG_MODULUS && Apart(NumTok(n), s)
    ensures ScanToken(Digits(n) + s) == Got(NumTok(n), s)
  {
    hide ScanToken, Decimal, Digits, IsDigit;
    DigitsDenote(n);
    ScanDigits(Digits(n), s);
  }

  lemma FirstCharOf(t: Token)
    requires Writable(t)
    ensures |Spelling(t)| > 0
    ensures !IsBlank(Spelling(t)[0])
    ensures IsDigit(Spelling(t)[0]) <==> t.NumTok?
    ensures Spelling(t)[0] == '=' <==> t == OpTok(Equal)
  {
    if t.NumTok? {
      DigitsDenote(t.n);
    }
  }

  lemma ScanAfterBlanks(g: string, w: string)
    requires Blanks(g) && w != [] && !IsBlank(w[0])
    ensures ScanToken(g + w) == ScanToken(w)
  {
    SkipsBlanks(g, w);
    assert SkipBlanks(w) == w;
  }

  lemma ScansSpelling(g: string, t: Token, s: string)
    requires Blanks(g) && Writable(t) && Apart(t, s)
    ensures ScanToken(g + Spelling(t) + s) == Got(t, s)
  {
    var w := Spelling(t) + s;
    FirstCharOf(t);
    assert w[0] == Spelling(t)[0];
    ScanAfterBlanks(g, w);
    assert g + Spelling(t) + s == g + w;
    if t.NumTok? {
      ScansNumber(t.n, s);
    } else {
      ScansSymbol(t, s);
    }
  }

  lemma NextApart(toks: seq<Token>, gaps: seq<string>)
    requires |toks| > 0 && WellSpaced(toks, gaps) && AllWritable(toks)
    ensures Apart(toks[0], Layout(toks[1..], gaps[1..]))
  {
    if gaps[1] != "" {
      assert IsBlank(gaps[1][0]);
      if |toks| > 1 {
        var rest := Spelling(toks[1]) + Layout(toks[1..][1..], gaps[1..][1..]);
        assert Layout(toks[1..], gaps[1..]) == gaps[1] + rest;
        assert (gaps[1] + rest)[0] == gaps[1][0];
      }
    } else if |toks| > 1 {
      assert !Merges(toks[0], toks[1]);
      FirstCharOf(toks[1]);
      assert Layout(toks[1..], gaps[1..])[0] == Spelling(toks[1])[0];
    }
  }

  lemma WellSpacedTail(toks: seq<Token>, gaps: seq<string>)
    requires |toks| > 0 && WellSpaced(toks, gaps)
    ensures |gaps| == |toks| + 1 && Blanks(gaps[0]) && WellSpaced(toks[1..], gaps[1..])
  {
    var ts, gs := toks[1..], gaps[1..];
    forall i | 0 < i < |ts| && gs[i] == ""
      ensures !Merges(ts[i - 1], ts[i])
    {
      assert gaps[i + 1] == "";
      assert !Merges(toks[i], toks[i + 1]);
    }
  }

  /** What ends the input: the end of the string, or one of three characters. */
  predicate EndsInput(end: string) {
    end == "" || end[0] == ';' || end[0] == '\n' || end[0] == '\0'
  }

  lemma ScanEnd(gaps: seq<string>, end: string)
    requires WellSpaced([], gaps) && EndsInput(end)
    ensures |gaps| == 1 && Tokens(gaps[0] + end) == []
  {
    SkipsBlanks(gaps[0], end);
  }

  lemma EndApart(t: Token, toks: seq<Token>, gaps: seq<string>, end: string)
    requires |gaps| == |toks| + 1 && AllWritable(toks) && EndsInput(end) && Apart(t, Layout(toks, gaps))
    ensures Apart(t, Layout(toks, gaps) + end)
  {
    if Layout(toks, gaps) == "" {
      assert Layout(toks, gaps) + end == end;
    } else {
      assert (Layout(toks, gaps) + end)[0] == Layout(toks, gaps)[0];
    }
  }

  /** Any well-spaced text up to the end of the input scans to exactly the tokens it was written from. */
  lemma {:induction false} ScansUpTo(toks: seq<Token>, gaps: seq<string>, end: string)
    requires WellSpaced(toks, gaps) && AllWritable(toks) && EndsInput(end)
    ensures Tokens(Layout(toks, gaps) + end) == toks
    decreases |toks|
  {
    hide ScanToken, Spelling, Apart, WellSpaced;
    if toks == [] {
      ScanEnd(gaps, end);
    } else {
      WellSpacedTail(toks, gaps);
      var rest := Layout(toks[1..], gaps[1..]);
      NextApart(toks, gaps);
      EndApart(toks[0], toks[1..], gaps[1..], end);
      ScansSpelling(gaps[0], toks[0], rest + end);
      assert Layout(toks, gaps) + end == gaps[0] + Spelling(toks[0]) + (rest + end);
      ScansUpTo(toks[1..], gaps[1..], end);
    }
  }

  lemma ScansLayout(toks: seq<Token>, gaps: seq<string>)
    requires WellSpaced(toks, gaps) && AllWritable(toks)
    ensures Tokens(Layout(toks, gaps)) == toks
  {
    ScansUpTo(toks, gaps, "");
    assert Layout(toks, gaps) + "" == Layout(toks, gaps);
  }

  /** A semicolon, a line feed and a null character end the input, whatever follows them. */
  lemma ScansTerminated(toks: seq<Token>, gaps: seq<string>, c: char, tail: string)
    requires WellSpaced(toks, gaps) && AllWritable(toks) && (c == ';' || c == '\n' || c == '\0')
    ensures Tokens(Layout(toks, gaps) + [c] + tail) == toks
  {
    ScansUpTo(toks, gaps, [c] + tail);
    assert Layout(toks, gaps) + ([c] + tail) == Layout(toks, gaps) + [c] + tail;
  }

  // ----- expressions never need blanks -----

  predicate StartsOperand(t: Token) { t.NumTok? || t == VarTok || t == NotTok || t == LParenTok }

  predicate EndsOperand(t: Token) { t.NumTok? || t == VarTok || t == RParenTok }

  predicate NoMerge(s: seq<Token>) {
    forall i :: 0 < i < |s| ==> !Merges(s[i - 1], s[i])
  }

  lemma JoinNoMerge(a: seq<Token>, b: seq<Token>)
    requires NoMerge(a) && NoMerge(b)
    requires |a| > 0 && |b| > 0 ==> !Merges(a[|a| - 1], b[0])
    ensures NoMerge(a + b)
  {
    var s := a + b;
    forall i | 0 < i < |s|
      ensures !Merges(s[i - 1], s[i])
    {
      if i < |a| {
        assert !Merges(a[i - 1], a[i]);
      } else if i > |a| {
        assert !Merges(b[i - |a| - 1], b[i - |a|]);
      }
    }
  }

  /** Tokens that may stand for an operand. */
  predicate Phrase(s: seq<Token>) {
    |s| > 0 && StartsOperand(s[0]) && EndsOperand(s[|s| - 1]) && NoMerge(s)
  }

  /** An infix symbol needs no blanks around it. */
  lemma InfixPhrase(a: seq<Token>, t: Token, b: seq<Token>)
    requires Phrase(a) && Phrase(b) && (t.OpTok? || t == QuestionTok || t == ColonTok)
    ensures Phrase(a + [t] + b)
  {
    JoinNoMerge(a, [t]);
    JoinNoMerge(a + [t], b);
  }

  lemma PrefixPhrase(t: Token, a: seq<Token>)
    requires Phrase(a) && (t == NotTok || t == LParenTok)
    ensures Phrase([t] + a)
  {
    JoinNoMerge([t], a);
  }

  lemma ClosedPhrase(a: seq<Token>)
    requires Phrase(a)
    ensures Phrase(a + [RParenTok])
  {
    JoinNoMerge(a, [RParenTok]);
  }

  /** No derivation puts two tokens side by side that need a blank between them. */
  lemma {:induction false} YieldNoMerge(t: Cst)
    ensures Phrase(Yield(t))
  {
    hide Phrase;
    match t
    case CNum(n) => SinglePhrase(NumTok(n));
    case CVar => SinglePhrase(VarTok);
    case CNot(a) =>
      YieldNoMerge(a);
      PrefixPhrase(NotTok, Yield(a));
    case CParen(x) =>
      YieldNoMerge(x);
      PrefixPhrase(LParenTok, Yield(x));
      ClosedPhrase([LParenTok] + Yield(x));
    case CBin(op, l, r) =>
      YieldNoMerge(l);
      YieldNoMerge(r);
      InfixPhrase(Yield(l), OpTok(op), Yield(r));
    case CCond(c, x, y) =>
      YieldNoMerge(c);
      YieldNoMerge(x);
      YieldNoMerge(y);
      InfixPhrase(Yield(c), QuestionTok, Yield(x));
      InfixPhrase(Yield(c) + [QuestionTok] + Yield(x), ColonTok, Yield(y));
  }

  lemma SinglePhrase(t: Token)
    requires t.NumTok? || t == VarTok
    ensures Phrase([t])
  {
  }

  /** Every literal of an expression fits in an `unsigned long int`. */
  predicate LiteralsFit(e: Expr) {
    match e
    case Num(n) => n < ULONG_MODULUS
    case Var => true
    case Not(a) => LiteralsFit(a)
    case Binary(_, l, r) => LiteralsFit(l) && LiteralsFit(r)
    case Cond(c, x, y) => LiteralsFit(c) && LiteralsFit(x) && LiteralsFit(y)
  }

  lemma {:induction false} YieldWritable(t: Cst)
    requires LiteralsFit(Ast(t))
    ensures AllWritable(Yield(t))
  {
    match t
    case CNum(_) =>
    case CVar =>
    case CNot(a) => YieldWritable(a);
    case CParen(x) => YieldWritable(x);
    case CBin(op, l, r) =>
      YieldWritable(l);
      YieldWritable(r);
    case CCond(c, x, y) =>
      YieldWritable(c);
      YieldWritable(x);
      YieldWritable(y);
  }

  /** Blank strings, one around each token of an expression. */
  predicate Spacing(e: Expr, gaps: seq<string>) {
    |gaps| == |Yield(MinCst(e))| + 1 && forall i :: 0 <= i < |gaps| ==> Blanks(gaps[i])
  }

  /** The text of an expression with the fewest parentheses and any spacing. */
  function Print(e: Expr, gaps: seq<string>): string
    requires LiteralsFit(e) && Spacing(e, gaps)
  {
    MinCstMeans(e);
    YieldWritable(MinCst(e));
    Layout(Yield(MinCst(e)), gaps)
  }

  /** Printed expressions scan to the yield of their derivation, blanks or no blanks, at the end of the
      string or in front of what ends the input. */
  lemma ScansPrinted(e: Expr, gaps: seq<string>, end: string)
    requires LiteralsFit(e) && Spacing(e, gaps) && EndsInput(end)
    ensures Tokens(Print(e, gaps) + end) == Yield(MinCst(e))
  {
    MinCstMeans(e);
    YieldWritable(MinCst(e));
    YieldNoMerge(MinCst(e));
    ScansUpTo(Yield(MinCst(e)), gaps, end);
  }
}
