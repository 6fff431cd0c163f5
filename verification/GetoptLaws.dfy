/** What an option means to the program that gave it, told by the characters of the argument elements:
    which argument it gets, what is reported and how much of the command line it takes up. */
module GetoptLaws {
  import opened GetoptSpec
  import opened Options

  // ----- parts of an element -----

  lemma IndexIn(a: string, c: char, b: string)
    requires c !in a
    ensures IndexOf(a + [c] + b, c) == |a|
  {
    var s := a + [c] + b;
    assert s[|a|] == c;
    assert forall j :: 0 <= j < |a| ==> s[j] == a[j] && a[j] in a;
  }

  lemma IndexNowhere(a: string, c: char)
    requires c !in a
    ensures IndexOf(a, c) == |a|
  {
  }

  /** A long option may be told by two dashes, or by one if the caller says so and a dash does not
      follow. */
  predicate LongDashes(syntax: Syntax, dashes: string, name: string) {
    && name != "" && '=' !in name
    && (dashes == "--" || (dashes == "-" && syntax.longOnly && name[0] != '-'))
  }

  lemma LongBody(syntax: Syntax, dashes: string, name: string, more: string)
    requires syntax.longopts.Some? && LongDashes(syntax, dashes, name) && (dashes == "--" || |name + more| > 1)
    ensures !NonOption(dashes + name + more) && dashes + name + more != "--" && Body(syntax, dashes + name + more) == name + more
    ensures TriedLong(syntax, dashes + name + more)
  {
    var e := dashes + name + more;
    if dashes == "--" {
      assert e[0] == '-' && e[1] == '-' && e[2..] == name + more;
    } else {
      assert e[0] == '-' && e[1] == name[0] && e[1..] == name + more;
    }
  }

  // ----- long options -----

  /** What a long option without a complaint reports. */
  predicate Reports(ev: Event, p: LongOption, i: nat, optarg: Option<string>) {
    && ev.optarg == optarg && ev.longind == Some(i) && ev.optopt == None
    && ev.code == (if p.flag.Some? then 0 else p.val)
    && ev.store == if p.flag.Some? then Some((p.flag.value, p.val)) else None
  }

  /** A complaint, a question mark or a colon. */
  predicate Complains(ev: Event, code: char, optopt: int) {
    ev.code == code as int && ev.optopt == Some(optopt) && ev.optarg == None && ev.longind == None && ev.store == None
  }

  /** `--name=value` hands over exactly the value, unless the option takes no argument. */
  lemma LongWithValue(syntax: Syntax, dashes: string, name: string, value: string, i: nat, arg: Option<string>)
    requires syntax.longopts.Some? && LongDashes(syntax, dashes, name)
    requires Matches(syntax.longopts.value, name, Found(i))
    ensures !NonOption(dashes + name + "=" + value) && Body(syntax, dashes + name + "=" + value) != ""
    ensures
      var e, p := dashes + name + "=" + value, syntax.longopts.value[i];
      var d := Decode(syntax, e, Body(syntax, e), arg);
      && d.used == 1 && d.next == ""
      && if p.hasArg != 0 then Reports(d.event, p, i, Some(value)) else Complains(d.event, '?', p.val)
  {
    var e, next := dashes + name + "=" + value, name + ['='] + value;
    LongBody(syntax, dashes, name, "=" + value);
    assert dashes + name + ("=" + value) == e && name + ("=" + value) == next;
    IndexIn(name, '=', value);
    assert next[..|name|] == name && next[|name| + 1..] == value;
    FindLongMatches(syntax.longopts.value, name, Found(i));
    hide FindLong, IndexOf, Matches;
  }

  /** `--name` alone takes the next element exactly if the option requires an argument. */
  lemma LongAlone(syntax: Syntax, dashes: string, name: string, i: nat, arg: Option<string>)
    requires syntax.longopts.Some? && LongDashes(syntax, dashes, name) && (dashes == "--" || |name| > 1)
    requires Matches(syntax.longopts.value, name, Found(i))
    ensures !NonOption(dashes + name) && Body(syntax, dashes + name) != ""
    ensures
      var e, p := dashes + name, syntax.longopts.value[i];
      var d := Decode(syntax, e, Body(syntax, e), arg);
      && d.next == ""
      && (p.hasArg != 1 ==> d.used == 1 && Reports(d.event, p, i, None))
      && (p.hasArg == 1 && arg.Some? ==> d.used == 2 && Reports(d.event, p, i, Some(arg.value)))
      && (p.hasArg == 1 && arg == None ==>
            d.used == 1 && Complains(d.event, if [':'] <= syntax.optstring then ':' else '?', p.val))
  {
    LongBody(syntax, dashes, name, "");
    assert dashes + name + "" == dashes + name && name + "" == name;
    IndexNowhere(name, '=');
    assert name[..|name|] == name;
    FindLongMatches(syntax.longopts.value, name, Found(i));
    hide FindLong, IndexOf, Matches;
  }

  /** A name that abbreviates several options, or none, is a complaint; behind one dash an unknown name
      may still be a cluster of letters. */
  lemma LongUnknown(syntax: Syntax, dashes: string, name: string, more: string, arg: Option<string>)
    requires syntax.longopts.Some? && LongDashes(syntax, dashes, name) && (more == "" || more[0] == '=')
    requires dashes == "--" || |name + more| > 1
    requires Matches(syntax.longopts.value, name, Ambiguous)
             || (Matches(syntax.longopts.value, name, NoMatch) && (dashes == "--" || name[0] !in syntax.optstring))
    ensures !NonOption(dashes + name + more) && Body(syntax, dashes + name + more) != ""
    ensures
      var e := dashes + name + more;
      var d := Decode(syntax, e, Body(syntax, e), arg);
      d.used == 1 && d.next == "" && Complains(d.event, '?', 0)
  {
    var e, next := dashes + name + more, name + more;
    LongBody(syntax, dashes, name, more);
    NamePart(name, more);
    assert next[0] == name[0];
    if name[0] !in syntax.optstring {
      IndexNowhere(syntax.optstring, name[0]);
    }
    assert dashes == "--" ==> At(e, 1) == '-';
    if Matches(syntax.longopts.value, name, Ambiguous) {
      FindLongMatches(syntax.longopts.value, name, Ambiguous);
    } else {
      FindLongMatches(syntax.longopts.value, name, NoMatch);
    }
    hide FindLong, IndexOf, Matches;
  }

  // ----- letters -----

  /** An element whose letters are options by themselves. */
  predicate Letters(syntax: Syntax, e: string) {
    |e| >= 2 && e[0] == '-' && (syntax.longopts == None || (!syntax.longOnly && e[1] != '-'))
  }

  /** The letters of an element start behind its dash. */
  lemma LettersBody(syntax: Syntax, e: string)
    requires Letters(syntax, e)
    ensures !NonOption(e) && Body(syntax, e) == e[1..] && !TriedLong(syntax, e)
  {
  }

  /** What a letter reports. */
  predicate ReportsLetter(ev: Event, c: char, optarg: Option<string>) {
    ev.code == c as int && ev.optarg == optarg && ev.optopt == None && ev.longind == None && ev.store == None
  }

  /** A letter that the option string does not know, and a colon, are complaints; the rest of the
      element goes on. */
  lemma UnknownLetter(syntax: Syntax, e: string, c: char, tail: string, arg: Option<string>)
    requires Letters(syntax, e) && (c == ':' || c !in syntax.optstring)
    ensures
      var d := Decode(syntax, e, [c] + tail, arg);
      Complains(d.event, '?', c as int) && d.next == tail && d.used == if tail == "" then 1 else 0
  {
    LettersBody(syntax, e);
    assert ([c] + tail)[1..] == tail;
    if c !in syntax.optstring {
      IndexNowhere(syntax.optstring, c);
    }
    hide IndexOf;
  }

  /** What stands behind the first occurrence of a letter in the option string. */
  predicate Declared(syntax: Syntax, c: char, pre: string, post: string) {
    syntax.optstring == pre + [c] + post && c !in pre && c != ':'
  }

  lemma DeclaredAt(syntax: Syntax, c: char, pre: string, post: string)
    requires Declared(syntax, c, pre, post)
    ensures
      var k := IndexOf(syntax.optstring, c);
      k < |syntax.optstring| && At(syntax.optstring, k + 1) == At(post, 0) && At(syntax.optstring, k + 2) == At(post, 1)
  {
    IndexIn(pre, c, post);
    assert forall j :: 0 <= j < |post| ==> syntax.optstring[|pre| + 1 + j] == post[j];
    hide IndexOf;
  }

  /** A letter without a colon behind it takes no argument; the rest of the element goes on. */
  lemma PlainLetter(syntax: Syntax, e: string, c: char, pre: string, post: string, tail: string, arg: Option<string>)
    requires Letters(syntax, e) && Declared(syntax, c, pre, post) && !([':'] <= post)
    ensures
      var d := Decode(syntax, e, [c] + tail, arg);
      ReportsLetter(d.event, c, None) && d.next == tail && d.used == if tail == "" then 1 else 0
  {
    LettersBody(syntax, e);
    DeclaredAt(syntax, c, pre, post);
    assert ([c] + tail)[1..] == tail;
    hide IndexOf, TriedLong;
  }

  /** A letter with one colon takes the rest of its element, or else the next element; if there is none
      it is a complaint. */
  lemma LetterWithArgument(syntax: Syntax, e: string, c: char, pre: string, post: string, tail: string, arg: Option<string>)
    requires Letters(syntax, e) && Declared(syntax, c, pre, post) && [':'] <= post && !([':', ':'] <= post)
    ensures
      var d := Decode(syntax, e, [c] + tail, arg);
      && d.next == ""
      && (tail != "" ==> ReportsLetter(d.event, c, Some(tail)) && d.used == 1)
      && (tail == "" && arg.Some? ==> ReportsLetter(d.event, c, Some(arg.value)) && d.used == 2)
      && (tail == "" && arg == None ==>
            Complains(d.event, if [':'] <= syntax.optstring then ':' else '?', c as int) && d.used == 1)
  {
    LettersBody(syntax, e);
    DeclaredAt(syntax, c, pre, post);
    assert ([c] + tail)[1..] == tail;
    hide IndexOf, TriedLong;
  }

  /** A letter with two colons takes the rest of its element and never the next one. */
  lemma LetterWithOptionalArgument(syntax: Syntax, e: string, c: char, pre: string, post: string, tail: string, arg: Option<string>)
    requires Letters(syntax, e) && Declared(syntax, c, pre, post) && [':', ':'] <= post
    ensures
      var d := Decode(syntax, e, [c] + tail, arg);
      d.next == "" && d.used == 1 && ReportsLetter(d.event, c, if tail == "" then None else Some(tail))
  {
    LettersBody(syntax, e);
    DeclaredAt(syntax, c, pre, post);
    assert ([c] + tail)[1..] == tail;
    hide IndexOf, TriedLong;
  }

  /** In the mode where one dash may start a long option, a single known letter stays a letter, and so
      does a cluster whose name no long option has but whose first letter is known. */
  lemma LettersInLongOnly(syntax: Syntax, e: string, name: string, more: string, arg: Option<string>)
    requires syntax.longopts.Some? && syntax.longOnly && LongDashes(syntax, "-", name) && (more == "" || more[0] == '=')
    requires e == "-" + name + more && name[0] in syntax.optstring
    requires |e| == 2 || Matches(syntax.longopts.value, name, NoMatch)
    ensures Letters(syntax.(longopts := None), e) && Body(syntax, e) == e[1..] != ""
    ensures Decode(syntax, e, e[1..], arg) == Decode(syntax.(longopts := None), e, e[1..], arg)
  {
    assert e[0] == '-' && e[1] == name[0] && e[1..] == name + more;
    assert Known(syntax, name[0]) by {
      if IndexOf(syntax.optstring, name[0]) == |syntax.optstring| {
        assert false;
      }
    }
    if |e| > 2 {
      NamePart(name, more);
      FindLongMatches(syntax.longopts.value, name, NoMatch);
    }
    hide FindLong, IndexOf, Matches;
  }

  /** The name of a long option ends where its value starts. */
  lemma NamePart(name: string, more: string)
    requires '=' !in name && (more == "" || more[0] == '=')
    ensures IndexOf(name + more, '=') == |name| && (name + more)[..|name|] == name
  {
    if more == "" {
      assert name + more == name;
      IndexNowhere(name, '=');
    } else {
      assert name + more == name + ['='] + more[1..];
      IndexIn(name, '=', more[1..]);
    }
  }

  // ----- whole scans -----

  /** The terminator ends the options of a permuting scan; an element that is short or does not start with
      a dash is an operand; any other gives its options. */
  lemma PermutingByElement(syntax: Syntax, e: string, rest: seq<string>)
    ensures
      var s, r := Permuted(syntax, [e] + rest), Permuted(syntax, rest);
      if e == "--" then s == Scan([], ["--"], rest)
      else if e == "" || e == "-" || e[0] != '-' then s == Scan(r.events, r.options, [e] + r.operands)
      else s.events != [] && s.options != [] && s.options[0] == e
  {
    assert ([e] + rest)[1..] == rest;
    hide Decode;
  }

  /** Without permutation an operand ends the scan, or is reported with code 1. */
  lemma InOrderByElement(syntax: Syntax, e: string, rest: seq<string>)
    ensures
      var s := Ordered(syntax, false, [e] + rest);
      var t, r := Ordered(syntax, true, [e] + rest), Ordered(syntax, true, rest);
      if e == "--" then s == ([], 1) && t == ([], 1)
      else if e == "" || e == "-" || e[0] != '-' then
        s == ([], 0) && t == ([Event(1, Some(e), None, None, None)] + r.0, 1 + r.1)
      else s.0 != [] && s.1 >= 1 && t.0 != [] && t.1 >= 1
  {
    assert ([e] + rest)[1..] == rest;
    hide Decode;
  }

  /** The first option of a scan is the first one of the element in front, which has the element after
      it for an argument. */
  lemma FirstOption(syntax: Syntax, e: string, rest: seq<string>)
    requires |e| >= 2 && e[0] == '-' && e != "--"
    ensures !NonOption(e) && Body(syntax, e) != ""
    ensures
      var d := Decode(syntax, e, Body(syntax, e), if rest == [] then None else Some(rest[0]));
      var r := PermutedRest(syntax, ([e] + rest)[d.used..], d.next);
      Permuted(syntax, [e] + rest) == Scan([d.event] + r.events, ([e] + rest)[..d.used] + r.options, r.operands)
  {
    var args := [e] + rest;
    var d := Decode(syntax, e, Body(syntax, e), if rest == [] then None else Some(rest[0]));
    assert Second(args) == if rest == [] then None else Some(rest[0]);
    DecodeSplits(syntax, args, Body(syntax, e), d);
    hide Decode;
    assert Permuted(syntax, args) == PermutedFrom(syntax, args, Body(syntax, e));
  }

  /** For instance three ways to give an option an argument. */
  lemma ArgumentExample()
    ensures
      var syntax := Syntax("b:", Some([LongOption("boot", 1, None, 'b' as int)]), false);
      var r := Event('b' as int, Some("8"), None, Some(0), None);
      && Decode(syntax, "--boot=8", Body(syntax, "--boot=8"), None) == Decoded(r, "", 1)
      && Decode(syntax, "--boo", Body(syntax, "--boo"), Some("8")) == Decoded(r, "", 2)
      && Decode(syntax, "-b8", Body(syntax, "-b8"), None) == Decoded(r.(longind := None), "", 1)
  {
    hide Decode, Body;
    var syntax := Syntax("b:", Some([LongOption("boot", 1, None, 'b' as int)]), false);
    assert "--" + "boot" + "=" + "8" == "--boot=8" && "--" + "boo" == "--boo";
    LongWithValue(syntax, "--", "boot", "8", 0, None);
    LongAlone(syntax, "--", "boo", 0, Some("8"));
    assert "" + ['b'] + ":" == "b:" && "-b8"[1..] == ['b'] + "8";
    LetterWithArgument(syntax, "-b8", 'b', "", ":", "8", None);
    LettersBody(syntax, "-b8");
  }

  /** An exact name wins over names it abbreviates; an abbreviation must fit one option only. */
  lemma AbbreviationExample()
    ensures
      var syntax := Syntax("", Some([LongOption("ab", 0, None, 1), LongOption("a", 0, None, 2), LongOption("ac", 0, None, 3)]), false);
      && Decode(syntax, "--a", Body(syntax, "--a"), None) == Decoded(Event(2, None, None, Some(1), None), "", 1)
      && Decode(syntax, "--ac", Body(syntax, "--ac"), None) == Decoded(Event(3, None, None, Some(2), None), "", 1)
      && Decode(syntax, "--d", Body(syntax, "--d"), None) == Decoded(Event('?' as int, None, Some(0), None, None), "", 1)
    ensures
      var syntax := Syntax("", Some([LongOption("ab", 0, None, 1), LongOption("ac", 0, None, 3)]), false);
      Decode(syntax, "--a", Body(syntax, "--a"), None) == Decoded(Event('?' as int, None, Some(0), None, None), "", 1)
  {
    hide Decode, Body;
    var syntax := Syntax("", Some([LongOption("ab", 0, None, 1), LongOption("a", 0, None, 2), LongOption("ac", 0, None, 3)]), false);
    assert "--" + "a" == "--a" && "--" + "ac" == "--ac" && "--" + "d" + "" == "--d" && "--" + "a" + "" == "--a";
    LongAlone(syntax, "--", "a", 1, None);
    LongAlone(syntax, "--", "ac", 2, None);
    LongUnknown(syntax, "--", "d", "", None);
    var both := Syntax("", Some([LongOption("ab", 0, None, 1), LongOption("ac", 0, None, 3)]), false);
    assert "a" <= both.longopts.value[0].name && "a" <= both.longopts.value[1].name;
    LongUnknown(both, "--", "a", "", None);
  }
}
