/** The hand-written scanner, and the proof that it undoes spelling: any spacing that keeps
    tokens apart scans back to the tokens it spells. */
module PluralLexer {
  import opened PluralGrammar

  /** One more than the greatest `unsigned long int`. */
  const ULONG_MODULUS: nat := 0x1_0000_0000

  const YYEOF := 0
  const YYERRCODE := 256
  const EQUOP2 := 257
  const CMPOP2 := 258
  const ADDOP2 := 259
  const MULOP2 := 260
  const NUMBER := 261

  /** The union YYSTYPE; reading a member that was not the last one written is an error. */
  datatype Value = NumVal(num: nat) | OpVal(op: Operator) | ExpVal(exp: Expr)

  // ----- what a string scans to -----

  datatype Scan = Eof | Got(tok: Token, rest: string)

  predicate IsBlank(c: char) { c == ' ' || c == '\t' }

  predicate IsDigit(c: char) { '0' <= c <= '9' }

  function DigitValue(c: char): nat
    requires IsDigit(c)
  {
    c as int - '0' as int
  }

  function SkipBlanks(s: string): (r: string)
    ensures |r| <= |s|
    ensures r != [] ==> !IsBlank(r[0])
  {
    if s != [] && IsBlank(s[0]) then SkipBlanks(s[1..]) else s
  }

  /** Length of the longest prefix of digits. */
  function DigitRun(s: string): (n: nat)
    ensures n <= |s|
    ensures forall i :: 0 <= i < n ==> IsDigit(s[i])
    ensures n < |s| ==> !IsDigit(s[n])
  {
    if s != [] && IsDigit(s[0]) then 1 + DigitRun(s[1..]) else 0
  }

  /** The number a string of digits denotes. */
  function Decimal(s: string): nat
    requires forall i :: 0 <= i < |s| ==> IsDigit(s[i])
  {
    if s == [] then 0 else Decimal(s[..|s| - 1]) * 10 + DigitValue(s[|s| - 1])
  }

  /** A two-character operator `c=`, or else the token of `c` alone. */
  function WithEquals(rest: string, yes: Token, no: Token): Scan {
    if rest != [] && rest[0] == '=' then Got(yes, rest[1..]) else Got(no, rest)
  }

  function ScanSymbol(c: char, rest: string): Scan {
    match c
    case '=' => WithEquals(rest, OpTok(Equal), ErrTok)
    case '!' => WithEquals(rest, OpTok(NotEqual), NotTok)
    case '<' => WithEquals(rest, OpTok(LessOrEqual), OpTok(LessThan))
    case '>' => WithEquals(rest, OpTok(GreaterOrEqual), OpTok(GreaterThan))
    case '&' => if rest != [] && rest[0] == '&' then Got(OpTok(Land), rest[1..]) else Got(ErrTok, rest)
    case '|' => if rest != [] && rest[0] == '|' then Got(OpTok(Lor), rest[1..]) else Got(ErrTok, rest)
    case '*' => Got(OpTok(Mult), rest)
    case '/' => Got(OpTok(Divide), rest)
    case '%' => Got(OpTok(Module), rest)
    case '+' => Got(OpTok(Plus), rest)
    case '-' => Got(OpTok(Minus), rest)
    case 'n' => Got(VarTok, rest)
    case '?' => Got(QuestionTok, rest)
    case ':' => Got(ColonTok, rest)
    case '(' => Got(LParenTok, rest)
    case ')' => Got(RParenTok, rest)
    case _ => Got(ErrTok, rest)
  }

  /** The first token of a string, and what remains. The end of the string, `;` and a line feed
      all end the input. */
  function ScanToken(text: string): (r: Scan)
    ensures r.Got? ==> |r.rest| < |text|
  {
    var s := SkipBlanks(text);
    if s == [] || s[0] == '\0' || s[0] == ';' || s[0] == '\n' then Eof
    else if IsDigit(s[0]) then Got(NumTok(Decimal(s[..DigitRun(s)]) % ULONG_MODULUS), s[DigitRun(s)..])
    else ScanSymbol(s[0], s[1..])
  }

  function Tokens(text: string): seq<Token>
    decreases |text|
  {
    match ScanToken(text)
    case Eof => []
    case Got(t, rest) => [t] + Tokens(rest)
  }

  // ----- the scanner -----

  /** The code `yylex` returns for a token. */
  function Code(t: Token): nat {
    match t
    case NumTok(_) => NUMBER
    case VarTok => 'n' as int
    case NotTok => '!' as int
    case OpTok(Lor) => '|' as int
    case OpTok(Land) => '&' as int
    case OpTok(op) => 254 + Prec(op)
    case QuestionTok => '?' as int
    case ColonTok => ':' as int
    case LParenTok => '(' as int
    case RParenTok => ')' as int
    case ErrTok => YYERRCODE
  }

  /** The semantic value left in `yylval`; tokens without one leave the previous value there. */
  function ValueOf(t: Token, before: Value): Value {
    match t
    case NumTok(n) => NumVal(n)
    case OpTok(Lor) => before
    case OpTok(Land) => before
    case OpTok(op) => OpVal(op)
    case _ => before
  }

  /** Reading a C string with this content; the terminator is at its end. */
  function CharAt(text: string, i: nat): char
    requires i <= |text|
  {
    if i == |text| then '\0' else text[i]
  }

  lemma DigitStep(n: nat, d: nat)
    ensures ((n % ULONG_MODULUS) * 10 % ULONG_MODULUS + d) % ULONG_MODULUS == (n * 10 + d) % ULONG_MODULUS
  {
  }

  /** The digit loop of `yylex`, entered with `start` at the first digit. */
  method LexDigits(text: string, start: nat) returns (n: nat, exp: nat)
    requires start < |text| && IsDigit(text[start])
    ensures start < exp <= |text|
    ensures var s := text[start..]; var k := DigitRun(s);
            n == Decimal(s[..k]) % ULONG_MODULUS && text[exp..] == s[k..]
  {
    ghost var s := text[start..];
    n, exp := DigitValue(text[start]), start + 1;
    assert s[..1][..0] == [];
    while IsDigit(CharAt(text, exp))
      invariant start < exp <= |text|
      invariant exp - start <= DigitRun(s)
      invariant n == Decimal(s[..exp - start]) % ULONG_MODULUS
      decreases |text| - exp
    {
      var k := exp - start;
      assert s[..k + 1][..k] == s[..k];
      assert s[k] == text[exp];
      DigitStep(Decimal(s[..k]), DigitValue(CharAt(text, exp)));
      n := n * 10 % ULONG_MODULUS;
      n := (n + DigitValue(CharAt(text, exp))) % ULONG_MODULUS;
      exp := exp + 1;
    }
    DigitRunIs(s, exp - start);
  }

  lemma DigitRunIs(s: string, k: nat)
    requires k <= DigitRun(s) && (k == |s| || !IsDigit(s[k]))
    ensures k == DigitRun(s)
  {
  }

  /** The cases of `yylex` for operators and punctuation; `start` is just after the character. */
  method LexSymbol(text: string, start: nat, c: char, lval0: Value) returns (result: int, lval: Value, exp: nat)
    requires start <= |text| && !IsDigit(c)
    ensures start <= exp <= |text|
    ensures
      var r := ScanSymbol(c, text[start..]);
      r.Got? && result == Code(r.tok) && lval == ValueOf(r.tok, lval0) && text[exp..] == r.rest
  {
    exp, lval, result := start, lval0, c as int;
    ghost var rest := text[start..];
    var next := CharAt(text, exp);
    assert next != '\0' ==> rest != [] && rest[0] == next && text[exp + 1..] == rest[1..];
    assert rest != [] ==> rest[0] == next;
    match c
    case '=' =>
      if next == '=' {
        exp := exp + 1;
        lval := OpVal(Equal);
        result := EQUOP2;
      } else {
        result := YYERRCODE;
      }
    case '!' =>
      if next == '=' {
        exp := exp + 1;
        lval := OpVal(NotEqual);
        result := EQUOP2;
      }
    case '&' =>
      if next == c {
        exp := exp + 1;
      } else {
        result := YYERRCODE;
      }
    case '|' =>
      if next == c {
        exp := exp + 1;
      } else {
        result := YYERRCODE;
      }
    case '<' =>
      if next == '=' {
        exp := exp + 1;
        lval := OpVal(LessOrEqual);
      } else {
        lval := OpVal(LessThan);
      }
      result := CMPOP2;
    case '>' =>
      if next == '=' {
        exp := exp + 1;
        lval := OpVal(GreaterOrEqual);
      } else {
        lval := OpVal(GreaterThan);
      }
      result := CMPOP2;
    case '*' =>
      lval := OpVal(Mult);
      result := MULOP2;
    case '/' =>
      lval := OpVal(Divide);
      result := MULOP2;
    case '%' =>
      lval := OpVal(Module);
      result := MULOP2;
    case '+' =>
      lval := OpVal(Plus);
      result := ADDOP2;
    case '-' =>
      lval := OpVal(Minus);
      result := ADDOP2;
    case 'n' | '?' | ':' | '(' | ')' =>
    case _ =>
      result := YYERRCODE;
  }

  method YyLex(text: string, start: nat, lval0: Value) returns (result: int, lval: Value, exp: nat)
    requires start <= |text|
    ensures start <= exp <= |text|
    ensures
      match ScanToken(text[start..])
      case Eof => result == YYEOF && lval == lval0
      case Got(t, rest) => result == Code(t) && lval == ValueOf(t, lval0) && text[exp..] == rest
    ensures result == YYEOF <==> ScanToken(text[start..]).Eof?
    ensures result == YYEOF ==>
      && (exp == |text| || text[exp] == ';' || text[exp] == '\n' || text[exp] == '\0')
      && forall k :: start <= k < exp ==> text[k] == ' ' || text[k] == '\t'
  {
    hide ScanSymbol, Decimal, DigitRun;
    exp, lval := start, lval0;
    while true
      invariant start <= exp <= |text|
      invariant SkipBlanks(text[exp..]) == SkipBlanks(text[start..])
      invariant forall k :: start <= k < exp ==> text[k] == ' ' || text[k] == '\t'
      decreases |text| - exp
    {
      if CharAt(text, exp) == '\0' {
        assert text[exp..] == [] || text[exp..][0] == '\0';
        return YYEOF, lval, exp;
      }
      if CharAt(text, exp) != ' ' && CharAt(text, exp) != '\t' {
        break;
      }
      assert text[exp..][1..] == text[exp + 1..];
      exp := exp + 1;
    }
    assert text[exp..] == SkipBlanks(text[start..]);
    var c := text[exp];
    if IsDigit(c) {
      var n;
      n, exp := LexDigits(text, exp);
      return NUMBER, NumVal(n), exp;
    }
    if c == ';' || c == '\n' {
      return YYEOF, lval, exp;
    }
    assert text[exp..][1..] == text[exp + 1..];
    result, lval, exp := LexSymbol(text, exp + 1, c, lval);
  }

  // ----- every character -----

  lemma ScanPlain(c: char, rest: string)
    requires !IsBlank(c) && !IsDigit(c) && c != '\0' && c != ';' && c != '\n'
    ensures ScanToken([c] + rest) == ScanSymbol(c, rest)
  {
    assert ([c] + rest)[1..] == rest;
  }

  /** Blanks and tabs are passed over, and nothing else is; three characters and the end of the string
      end the input. */
  lemma BlanksAndEnds(s: string)
    ensures ScanToken("") == Eof && Tokens("") == []
    ensures ScanToken([' '] + s) == ScanToken(s) && ScanToken(['\t'] + s) == ScanToken(s)
    ensures ScanToken([';'] + s) == Eof && ScanToken(['\n'] + s) == Eof && ScanToken(['\0'] + s) == Eof
  {
    assert ([' '] + s)[1..] == s && (['\t'] + s)[1..] == s;
  }

  /** The characters that are a token by themselves. */
  lemma SingleCharacters(s: string)
    ensures ScanToken(['n'] + s) == Got(VarTok, s)
    ensures ScanToken(['?'] + s) == Got(QuestionTok, s) && ScanToken([':'] + s) == Got(ColonTok, s)
    ensures ScanToken(['('] + s) == Got(LParenTok, s) && ScanToken([')'] + s) == Got(RParenTok, s)
    ensures ScanToken(['+'] + s) == Got(OpTok(Plus), s) && ScanToken(['-'] + s) == Got(OpTok(Minus), s)
    ensures ScanToken(['*'] + s) == Got(OpTok(Mult), s) && ScanToken(['/'] + s) == Got(OpTok(Divide), s)
    ensures ScanToken(['%'] + s) == Got(OpTok(Module), s)
  {
    hide ScanToken;
    ScanPlain('n', s);
    ScanPlain('?', s);
    ScanPlain(':', s);
    ScanPlain('(', s);
    ScanPlain(')', s);
    ScanPlain('+', s);
    ScanPlain('-', s);
    ScanPlain('*', s);
    ScanPlain('/', s);
    ScanPlain('%', s);
  }

  /** The pairs of characters that are a token. */
  lemma PairsOfCharacters(s: string)
    ensures ScanToken(['|', '|'] + s) == Got(OpTok(Lor), s) && ScanToken(['&', '&'] + s) == Got(OpTok(Land), s)
    ensures ScanToken(['=', '='] + s) == Got(OpTok(Equal), s) && ScanToken(['!', '='] + s) == Got(OpTok(NotEqual), s)
    ensures ScanToken(['<', '='] + s) == Got(OpTok(LessOrEqual), s)
    ensures ScanToken(['>', '='] + s) == Got(OpTok(GreaterOrEqual), s)
  {
    hide ScanToken;
    ScanPair('|', '|', s);
    ScanPair('&', '&', s);
    ScanPair('=', '=', s);
    ScanPair('!', '=', s);
    ScanPair('<', '=', s);
    ScanPair('>', '=', s);
  }

  lemma ScanPair(c: char, d: char, s: string)
    requires !IsBlank(c) && !IsDigit(c) && c != '\0' && c != ';' && c != '\n'
    ensures ScanToken([c, d] + s) == ScanSymbol(c, [d] + s) && ([d] + s)[0] == d && ([d] + s)[1..] == s
  {
    assert [c, d] + s == [c] + ([d] + s);
    ScanPlain(c, [d] + s);
  }

  /** The characters of a pair by themselves. */
  lemma LoneCharacters(s: string)
    ensures s == "" || s[0] != '=' ==>
      && ScanToken(['<'] + s) == Got(OpTok(LessThan), s) && ScanToken(['>'] + s) == Got(OpTok(GreaterThan), s)
      && ScanToken(['!'] + s) == Got(NotTok, s) && ScanToken(['='] + s) == Got(ErrTok, s)
    ensures s == "" || s[0] != '&' ==> ScanToken(['&'] + s) == Got(ErrTok, s)
    ensures s == "" || s[0] != '|' ==> ScanToken(['|'] + s) == Got(ErrTok, s)
  {
    hide ScanToken;
    ScanPlain('<', s);
    ScanPlain('>', s);
    ScanPlain('!', s);
    ScanPlain('=', s);
    ScanPlain('&', s);
    ScanPlain('|', s);
  }

  /** Any other character is an error. */
  lemma OtherCharacters(c: char, s: string)
    requires c != ' ' && c != '\t' && c != ';' && c != '\n' && c != '\0' && !('0' <= c <= '9')
    requires c != 'n' && c != '?' && c != ':' && c != '(' && c != ')' && c != '+' && c != '-' && c != '*' && c != '/'
    requires c != '%' && c != '|' && c != '&' && c != '=' && c != '!' && c != '<' && c != '>'
    ensures ScanToken([c] + s) == Got(ErrTok, s)
  {
    ScanPlain(c, s);
  }

  lemma NumberAlone(s: string)
    requires s != "" && forall i :: 0 <= i < |s| ==> IsDigit(s[i])
    ensures ScanToken(s) == Got(NumTok(Decimal(s) % ULONG_MODULUS), "")
  {
    AllDigits(s);
    assert s[..|s|] == s && s[|s|..] == "";
  }

  /** Numbers are decimal, modulo 2^32. */
  lemma OneDigit(c: char)
    requires '0' <= c <= '9'
    ensures ScanToken([c]) == Got(NumTok(c as nat - 48), "")
  {
    NumberAlone([c]);
    assert [c][..0] == "";
    assert Decimal([c]) == DigitValue(c);
  }

  lemma OneMoreDigit(s: string, v: nat, c: char)
    requires s != "" && (forall i :: 0 <= i < |s| ==> '0' <= s[i] <= '9') && ScanToken(s) == Got(NumTok(v), "")
    requires '0' <= c <= '9'
    ensures ScanToken(s + [c]) == Got(NumTok((10 * v + (c as nat - 48)) % 0x1_0000_0000), "")
  {
    hide ScanToken;
    var t := s + [c];
    NumberAlone(s);
    NumberAlone(t);
    assert t[..|t| - 1] == s;
    var n, d := Decimal(s), DigitValue(c);
    assert Decimal(t) == n * 10 + d;
    hide Decimal, DigitValue;
    DigitStep(n, d);
    assert v * 10 + d == n % ULONG_MODULUS * 10 + d;
    WrapsOnce(v * 10, d);
  }

  lemma WrapsOnce(m: nat, d: nat)
    ensures (m % ULONG_MODULUS + d) % ULONG_MODULUS == (m + d) % ULONG_MODULUS
  {
  }

  lemma {:induction false} AllDigits(s: string)
    requires forall i :: 0 <= i < |s| ==> IsDigit(s[i])
    ensures DigitRun(s) == |s|
  {
    if s != "" {
      AllDigits(s[1..]);
    }
  }
}
