/** Option strings that start with `+` or `-`: only the first call of a scan drops that prefix, later
    ones take it for an option letter. When the scan is still that of the string without it. */
module GetoptPrefix {
  import opened GetoptSpec
  import opened Options

  function Prefixed(p: char, syntax: Syntax): Syntax {
    syntax.(optstring := [p] + syntax.optstring)
  }

  // ----- one letter -----

  /** What becomes of an option letter: it is refused; it stands alone; its argument is attached or the
      next element; or its argument is lacking. */
  datatype Use = Refused | Alone | Attached | Following | Lacking

  function UseOf(optstring: CString, c: char, tail: CString, arg: Option<CString>): (u: Use)
    ensures u == Attached ==> tail != ""
    ensures u == Following || u == Lacking ==> tail == "" && (arg.None? <==> u == Lacking)
  {
    var k := IndexOf(optstring, c);
    if k == |optstring| || c == ':' then Refused
    else if At(optstring, k + 1) != ':' then Alone
    else if tail != "" then Attached
    else if At(optstring, k + 2) == ':' then Alone
    else if arg.None? then Lacking
    else Following
  }

  /** A letter is reported alike with and without the prefix: it is used alike, a lacking argument is
      not to be reported by a colon, which the prefix hides, or the letter is refused without the prefix
      and lacks an argument with it, which is reported alike. */
  predicate LetterAgrees(p: char, syntax: Syntax, next: CString, arg: Option<CString>)
    requires next != ""
  {
    var u := UseOf(syntax.optstring, next[0], next[1..], arg);
    var v := UseOf([p] + syntax.optstring, next[0], next[1..], arg);
    if u == Lacking then v == Lacking && At(syntax.optstring, 0) != ':'
    else u == v || (u == Refused && v == Lacking)
  }

  /** Other letters are found where they were. */
  lemma OtherLetter(p: char, s: CString, c: char)
    requires c != p
    ensures IndexOf([p] + s, c) == 1 + IndexOf(s, c)
  {
    assert ([p] + s)[1..] == s;
  }

  lemma PrefixLetter(p: char, s: CString)
    ensures IndexOf([p] + s, p) == 0
  {
  }

  /** What decoding a letter that is used like this returns; `missing` is the code for a lacking
      argument. */
  function ByUse(u: Use, c: char, tail: CString, arg: Option<CString>, missing: int): Decoded {
    var used := if tail == "" then 1 else 0;
    match u
    case Refused => Decoded(Event('?' as int, None, Some(c as int), None, None), tail, used)
    case Alone => Decoded(Event(c as int, None, None, None, None), tail, used)
    case Attached => Decoded(Event(c as int, Some(tail), None, None, None), "", 1)
    case Following => Decoded(Event(c as int, arg, None, None, None), "", 2)
    case Lacking => Decoded(Event(missing, None, Some(c as int), None, None), "", 1)
  }

  lemma ShortByUse(syntax: Syntax, next: CString, arg: Option<CString>)
    requires next != ""
    ensures DecodeShort(syntax, next, arg) == ByUse(UseOf(syntax.optstring, next[0], next[1..], arg), next[0], next[1..], arg, Missing(syntax))
  {
  }

  /** Without its prefix a letter of the string is found one place earlier, with the same colons. */
  lemma OtherUse(p: char, s: CString, c: char, tail: CString, arg: Option<CString>)
    requires c != p
    ensures UseOf([p] + s, c, tail, arg) == UseOf(s, c, tail, arg)
  {
    OtherLetter(p, s, c);
  }

  /** The condition on a letter is exact, and where it fails the events already differ. */
  lemma LetterAgreement(p: char, syntax: Syntax, next: CString, arg: Option<CString>)
    requires next != "" && (p == '+' || p == '-')
    ensures
      var d, e := DecodeShort(syntax, next, arg), DecodeShort(Prefixed(p, syntax), next, arg);
      && (LetterAgrees(p, syntax, next, arg) <==> d == e)
      && (d.event == e.event ==> d == e)
  {
    hide UseOf, DecodeShort;
    ShortByUse(syntax, next, arg);
    ShortByUse(Prefixed(p, syntax), next, arg);
    if next[0] == p {
      PrefixIsKnown(p, syntax.optstring, next[1..], arg);
    } else {
      OtherUse(p, syntax.optstring, next[0], next[1..], arg);
    }
  }

  lemma PrefixIsKnown(p: char, s: CString, tail: CString, arg: Option<CString>)
    requires p != ':'
    ensures UseOf([p] + s, p, tail, arg) != Refused
    ensures UseOf([p] + s, p, tail, arg) == Lacking ==> At(s, 0) == ':'
  {
    PrefixLetter(p, s);
  }

  // ----- one call -----

  /** A long option lacks its argument. */
  predicate LongLacking(syntax: Syntax, i: nat, next: CString, arg: Option<CString>)
    requires syntax.longopts.Some? && i < |syntax.longopts.value|
  {
    NameLength(next) == |next| && syntax.longopts.value[i].hasArg == 1 && arg.None?
  }

  /** One call decodes alike with and without the prefix: the element is taken for the same kind of
      option, its letter agrees, and a lacking argument is not to be reported by a colon. */
  predicate CallAgrees(p: char, syntax: Syntax, e: CString, next: CString, arg: Option<CString>)
    requires next != ""
  {
    if !TriedLong(syntax, e) then LetterAgrees(p, syntax, next, arg)
    else if !TriedLong(Prefixed(p, syntax), e) then false
    else
      match FindLong(syntax.longopts.value, next[..NameLength(next)])
      case Ambiguous => true
      case Found(i) => !(LongLacking(syntax, i, next, arg) && At(syntax.optstring, 0) == ':')
      case NoMatch =>
        if !syntax.longOnly || At(e, 1) == '-' then true
        else if Known(syntax, next[0]) then LetterAgrees(p, syntax, next, arg)
        else next[0] != p
  }

  lemma SameKnown(p: char, syntax: Syntax, c: char)
    ensures Known(Prefixed(p, syntax), c) <==> c == p || Known(syntax, c)
  {
    if c == p {
      PrefixLetter(p, syntax.optstring);
    } else {
      OtherLetter(p, syntax.optstring, c);
    }
  }

  lemma SameTried(p: char, syntax: Syntax, e: CString)
    requires p == '+' || p == '-'
    ensures TriedLong(Prefixed(p, syntax), e) ==> TriedLong(syntax, e)
    ensures !TriedLong(Prefixed(p, syntax), e) && TriedLong(syntax, e) ==> |e| == 2 && e[1] == p == '+' && !Known(syntax, p)
  {
    SameKnown(p, syntax, At(e, 1));
  }

  lemma FoundAgreement(p: char, syntax: Syntax, i: nat, next: CString, arg: Option<CString>)
    requires syntax.longopts.Some? && i < |syntax.longopts.value| && (p == '+' || p == '-')
    ensures
      var n := NameLength(next);
      var d, f := DecodeFound(syntax, i, next, n, arg), DecodeFound(Prefixed(p, syntax), i, next, n, arg);
      && (d == f <==> !(LongLacking(syntax, i, next, arg) && At(syntax.optstring, 0) == ':'))
      && (d.event == f.event ==> d == f)
  {
  }

  /** The element is tried as a long option without the prefix only: then it is the prefix character by
      itself, which is a letter with the prefix. */
  lemma TriedOnce(p: char, syntax: Syntax, e: CString, next: CString, arg: Option<CString>)
    requires TriedLong(syntax, e) && !TriedLong(Prefixed(p, syntax), e) && next == [p] && p == '+'
    requires !Known(syntax, p)
    ensures Decode(syntax, e, next, arg).event != Decode(Prefixed(p, syntax), e, next, arg).event
  {
    hide FindLong, UseOf, DecodeShort, Known, TriedLong;
    ShortByUse(Prefixed(p, syntax), next, arg);
    PrefixIsKnown(p, syntax.optstring, next[1..], arg);
  }

  /** No long option matches, and the prefix character is a letter only with the prefix. */
  lemma PrefixUnmatched(p: char, syntax: Syntax, next: CString, arg: Option<CString>)
    requires next != "" && next[0] == p && (p == '+' || p == '-')
    ensures DecodeShort(Prefixed(p, syntax), next, arg).event != Event('?' as int, None, Some(0), None, None)
  {
    hide UseOf, DecodeShort;
    ShortByUse(Prefixed(p, syntax), next, arg);
    PrefixIsKnown(p, syntax.optstring, next[1..], arg);
  }

  /** The condition on a call is exact, and where it fails the events already differ. */
  lemma CallAgreement(p: char, syntax: Syntax, e: CString, next: CString, arg: Option<CString>)
    requires next != "" && (p == '+' || p == '-')
    requires |e| == 2 ==> next == e[1..]
    ensures
      var d, f := Decode(syntax, e, next, arg), Decode(Prefixed(p, syntax), e, next, arg);
      && (CallAgrees(p, syntax, e, next, arg) <==> d == f)
      && (d.event == f.event ==> d == f)
  {
    hide FindLong, LetterAgrees, Known, TriedLong, DecodeFound, DecodeShort, LongLacking;
    var full := Prefixed(p, syntax);
    SameTried(p, syntax, e);
    SameKnown(p, syntax, next[0]);
    LetterAgreement(p, syntax, next, arg);
    if TriedLong(syntax, e) && !TriedLong(full, e) {
      TriedOnce(p, syntax, e, next, arg);
    } else if TriedLong(syntax, e) {
      match FindLong(syntax.longopts.value, next[..NameLength(next)])
      case Found(i) => FoundAgreement(p, syntax, i, next, arg);
      case NoMatch =>
        if next[0] == p {
          PrefixUnmatched(p, syntax, next, arg);
        }
      case Ambiguous =>
    }
  }

  // ----- whole scans -----

  /** An unread part of an element. */
  predicate PartOf(next: CString, e: CString) {
    |next| < |e| && next == e[|e| - |next|..]
  }

  /** Decoding a letter leaves the letters after it. */
  lemma RestIsTail(syntax: Syntax, e: CString, next: CString, arg: Option<CString>)
    requires next != "" && PartOf(next, e)
    ensures
      var d := Decode(syntax, e, next, arg);
      d.next != "" ==> PartOf(d.next, e)
  {
    var d := Decode(syntax, e, next, arg);
    if d.next != "" {
      assert d.next == next[1..];
    }
  }

  /** No call of the rest of a scan tells the prefix. */
  predicate Undisturbed(p: char, syntax: Syntax, inOrder: bool, args: seq<CString>, next: CString)
    requires next != "" ==> args != []
    decreases |args|, if next == "" then 1 else 0, |next|
  {
    if next == "" then
      if args == [] || args[0] == "--" then true
      else if NonOption(args[0]) then !inOrder || Undisturbed(p, syntax, inOrder, args[1..], "")
      else Undisturbed(p, syntax, inOrder, args, Body(syntax, args[0]))
    else
      var d := Decode(syntax, args[0], next, Second(args));
      CallAgrees(p, syntax, args[0], next, Second(args)) && Undisturbed(p, syntax, inOrder, args[d.used..], d.next)
  }

  /** No call but the first tells the prefix. */
  predicate UndisturbedLater(p: char, syntax: Syntax, inOrder: bool, args: seq<CString>) {
    if args == [] || args[0] == "--" then true
    else if NonOption(args[0]) then !inOrder || Undisturbed(p, syntax, inOrder, args[1..], "")
    else
      var d := Decode(syntax, args[0], Body(syntax, args[0]), Second(args));
      Undisturbed(p, syntax, inOrder, args[d.used..], d.next)
  }

  predicate SameRest(p: char, syntax: Syntax, inOrder: bool, args: seq<CString>, next: CString)
    requires next != "" ==> args != []
  {
    OrderedRest(Prefixed(p, syntax), inOrder, args, next) == OrderedRest(syntax, inOrder, args, next)
  }

  lemma HeadCancels<T>(a: T, b: T, s: seq<T>, t: seq<T>)
    ensures [a] + s == [b] + t <==> a == b && s == t
  {
    assert ([a] + s)[1..] == s && ([b] + t)[1..] == t;
  }

  /** One call in front of two rests. */
  lemma CallInFront(p: char, syntax: Syntax, inOrder: bool, args: seq<CString>, next: CString)
    requires (p == '+' || p == '-') && next != "" && args != [] && PartOf(next, args[0])
    ensures
      var d := Decode(syntax, args[0], next, Second(args));
      && d.used <= |args| && (d.next != "" ==> args[d.used..] != [])
      && (SameRest(p, syntax, inOrder, args, next) <==>
            CallAgrees(p, syntax, args[0], next, Second(args)) && SameRest(p, syntax, inOrder, args[d.used..], d.next))
  {
    hide Decode, CallAgrees, OrderedRest;
    var full := Prefixed(p, syntax);
    var d := Decode(syntax, args[0], next, Second(args));
    var f := Decode(full, args[0], next, Second(args));
    CallAgreement(p, syntax, args[0], next, Second(args));
    DecodeSplitsOrdered(syntax, inOrder, args, next, d);
    DecodeSplitsOrdered(full, inOrder, args, next, f);
    HeadCancels(d.event, f.event, OrderedRest(syntax, inOrder, args[d.used..], d.next).0,
                OrderedRest(full, inOrder, args[f.used..], f.next).0);
  }

  /** Between elements the two scans go on alike. */
  lemma ElementInFront(p: char, syntax: Syntax, inOrder: bool, args: seq<CString>)
    ensures args == [] || args[0] == "--" ==> SameRest(p, syntax, inOrder, args, "")
    ensures args != [] && NonOption(args[0]) && args[0] != "--" ==>
              (SameRest(p, syntax, inOrder, args, "") <==> !inOrder || SameRest(p, syntax, inOrder, args[1..], ""))
    ensures args != [] && !NonOption(args[0]) && args[0] != "--" ==>
              (SameRest(p, syntax, inOrder, args, "") <==> SameRest(p, syntax, inOrder, args, Body(syntax, args[0])))
  {
    hide OrderedFrom;
    if args != [] && NonOption(args[0]) {
      HeadCancels(OperandEvent(args[0]), OperandEvent(args[0]), Ordered(syntax, inOrder, args[1..]).0,
                  Ordered(Prefixed(p, syntax), inOrder, args[1..]).0);
    }
  }

  /** From some point on the two scans are the same exactly if no call tells the prefix. */
  lemma {:induction false} RestAgrees(p: char, syntax: Syntax, inOrder: bool, args: seq<CString>, next: CString)
    requires (p == '+' || p == '-') && (next != "" ==> args != [] && PartOf(next, args[0]))
    ensures SameRest(p, syntax, inOrder, args, next) <==> Undisturbed(p, syntax, inOrder, args, next)
    decreases |args|, if next == "" then 1 else 0, |next|
  {
    hide SameRest, CallAgrees, Decode;
    if next == "" {
      ElementInFront(p, syntax, inOrder, args);
      if args != [] && args[0] != "--" {
        if NonOption(args[0]) {
          RestAgrees(p, syntax, inOrder, args[1..], "");
        } else {
          RestAgrees(p, syntax, inOrder, args, Body(syntax, args[0]));
        }
      }
    } else {
      CallInFront(p, syntax, inOrder, args, next);
      RestIsTail(syntax, args[0], next, Second(args));
      var d := Decode(syntax, args[0], next, Second(args));
      RestAgrees(p, syntax, inOrder, args[d.used..], d.next);
    }
  }

  /** A scan whose later calls see the prefix is the scan of the string without it exactly if no call
      but the first tells the prefix. */
  lemma PrefixedScan(p: char, syntax: Syntax, inOrder: bool, args: seq<CString>)
    requires p == '+' || p == '-'
    ensures FirstThen(syntax, Prefixed(p, syntax), inOrder, args, "") == Ordered(syntax, inOrder, args)
            <==> UndisturbedLater(p, syntax, inOrder, args)
  {
    hide Decode, Ordered, OrderedRest, OrderedFrom, Undisturbed;
    FirstThenSame(syntax, inOrder, args, "");
    OrderedRestAtStart(syntax, inOrder, args);
    if args != [] && args[0] != "--" {
      if NonOption(args[0]) {
        AfterFirst(p, syntax, inOrder, args[1..], "", OperandEvent(args[0]));
        OrderedRestAtStart(syntax, inOrder, args[1..]);
        OrderedRestAtStart(Prefixed(p, syntax), inOrder, args[1..]);
      } else {
        var next := Body(syntax, args[0]);
        var d := Decode(syntax, args[0], next, Second(args));
        RestIsTail(syntax, args[0], next, Second(args));
        DecodeSplitsOrdered(syntax, inOrder, args, next, d);
        AfterFirst(p, syntax, inOrder, args[d.used..], d.next, d.event);
      }
    }
  }

  lemma OrderedRestAtStart(syntax: Syntax, inOrder: bool, args: seq<CString>)
    ensures OrderedRest(syntax, inOrder, args, "") == Ordered(syntax, inOrder, args)
  {
  }

  lemma AfterFirst(p: char, syntax: Syntax, inOrder: bool, args: seq<CString>, next: CString, ev: Event)
    requires (p == '+' || p == '-') && (next != "" ==> args != [] && PartOf(next, args[0]))
    ensures
      var r, t := OrderedRest(syntax, inOrder, args, next), OrderedRest(Prefixed(p, syntax), inOrder, args, next);
      [ev] + r.0 == [ev] + t.0 && r.1 == t.1 <==> Undisturbed(p, syntax, inOrder, args, next)
  {
    hide OrderedRest, Undisturbed;
    RestAgrees(p, syntax, inOrder, args, next);
    HeadCancels(ev, ev, OrderedRest(syntax, inOrder, args, next).0, OrderedRest(Prefixed(p, syntax), inOrder, args, next).0);
  }

  lemma LettersOfExample()
    ensures forall arg {:trigger UseOf(":xa:", 'x', "", arg)} :: UseOf(":xa:", 'x', "", arg) == Alone
    ensures UseOf(":xa:", 'a', "", None) == Lacking && UseOf(":xa:", 'a', "", Some("b")) == Following
    ensures UseOf(['+'] + ":xa:", 'a', "", Some("b")) == Following
  {
    assert ":xa:"[1..] == "xa:" && "xa:"[1..] == "a:";
    assert IndexOf("a:", 'a') == 0 && IndexOf("xa:", 'x') == 0;
    assert IndexOf("xa:", 'a') == 1;
    assert IndexOf(":xa:", 'x') == 1 && IndexOf(":xa:", 'a') == 2;
    OtherUse('+', ":xa:", 'a', "", Some("b"));
  }

  lemma ExampleTail(arg: seq<CString>)
    requires arg == [] || arg == ["b"]
    ensures Undisturbed('+', Syntax(":xa:", None, false), false, ["-a"] + arg, "") <==> arg == ["b"]
  {
    hide UseOf, Ordered, DecodeShort;
    var syntax, args := Syntax(":xa:", None, false), ["-a"] + arg;
    LettersOfExample();
    assert Body(syntax, args[0]) == "a" && "a"[1..] == "";
    ShortByUse(syntax, "a", Second(args));
    if arg == ["b"] {
      assert args[2..] == [] && Undisturbed('+', syntax, false, [], "");
      assert LetterAgrees('+', syntax, "a", Second(args));
      assert Undisturbed('+', syntax, false, args, "a");
    } else {
      assert !LetterAgrees('+', syntax, "a", Second(args));
    }
  }

  /** For instance `-x -a` with "+:xa:": the second call reports the lacking argument by `?` instead
      of `:`. With an argument for -a nothing differs. */
  lemma PrefixExample()
    ensures
      var syntax := Syntax(":xa:", None, false);
      && FirstThen(syntax, Prefixed('+', syntax), false, ["-x", "-a"], "") != Ordered(syntax, false, ["-x", "-a"])
      && FirstThen(syntax, Prefixed('+', syntax), false, ["-x", "-a", "b"], "") == Ordered(syntax, false, ["-x", "-a", "b"])
  {
    ExampleHead([]);
    ExampleHead(["b"]);
    assert ["-x", "-a"] + [] == ["-x", "-a"] && ["-x", "-a"] + ["b"] == ["-x", "-a", "b"];
  }

  lemma ExampleHead(arg: seq<CString>)
    requires arg == [] || arg == ["b"]
    ensures
      var syntax, args := Syntax(":xa:", None, false), ["-x", "-a"] + arg;
      FirstThen(syntax, Prefixed('+', syntax), false, args, "") == Ordered(syntax, false, args) <==> arg == ["b"]
  {
    hide UseOf, Ordered, DecodeShort, Undisturbed, FirstThen;
    var syntax, args := Syntax(":xa:", None, false), ["-x", "-a"] + arg;
    LettersOfExample();
    assert Body(syntax, args[0]) == "x" && "x"[1..] == "";
    ShortByUse(syntax, "x", Second(args));
    assert args[1..] == ["-a"] + arg;
    ExampleTail(arg);
    PrefixedScan('+', syntax, false, args);
  }
}
