/** What a scan of command-line arguments means: how one option element is decoded, which elements
    are options and which are operands, and when permuting changes nothing but the order. */
module GetoptSpec {
  import opened Basics
  import opened Options

  /** The content of a C string; its terminator is not part of it. */
  type CString = string

  /** struct option; `flag` names the caller's variable, if any. */
  datatype LongOption = LongOption(name: CString, hasArg: int, flag: Option<nat>, val: int)

  datatype Ordering = REQUIRE_ORDER | PERMUTE | RETURN_IN_ORDER

  /** What the caller asks for: option letters, long options (None is a null pointer) and whether a
      single dash may introduce a long option. */
  datatype Syntax = Syntax(optstring: CString, longopts: Option<seq<LongOption>>, longOnly: bool)

  /** What one call hands back besides its position: the code, `optarg`, and what it stored in
      `optopt`, `*longind` and the long option's flag variable, if it stored there. */
  datatype Event = Event(code: int, optarg: Option<CString>, optopt: Option<int>, longind: Option<nat>, store: Option<(nat, int)>)

  /** Decoding one option: the event, the unread rest of the element, how many elements are done. */
  datatype Decoded = Decoded(event: Event, next: CString, used: nat)

  // ----- the parts of an element -----

  function At(s: CString, i: nat): char {
    if i < |s| then s[i] else '\0'
  }

  predicate NonOption(e: CString) { |e| < 2 || e[0] != '-' }

  /** Where the option characters of an element start. */
  function Body(syntax: Syntax, e: CString): (r: CString)
    requires !NonOption(e)
    ensures e != "--" ==> r != ""
  {
    if syntax.longopts.Some? && At(e, 1) == '-' then e[2..] else e[1..]
  }

  /** Position of a letter in the option string, or its length. */
  function IndexOf(s: CString, c: char): (i: nat)
    ensures i <= |s|
    ensures forall j :: 0 <= j < i ==> s[j] != c
    ensures i < |s| ==> s[i] == c
  {
    if s == "" || s[0] == c then 0 else 1 + IndexOf(s[1..], c)
  }

  predicate Known(syntax: Syntax, c: char) { IndexOf(syntax.optstring, c) < |syntax.optstring| }

  /** The `W;` extension is not used. */
  predicate Plain(syntax: Syntax) {
    !Known(syntax, 'W') || At(syntax.optstring, IndexOf(syntax.optstring, 'W') + 1) != ';'
  }

  /** Whether an element is first tried as a long option. */
  predicate TriedLong(syntax: Syntax, e: CString) {
    syntax.longopts.Some? && (At(e, 1) == '-' || (syntax.longOnly && (|e| > 2 || !Known(syntax, At(e, 1)))))
  }

  // ----- long options -----

  /** First long option, from `i` on, called exactly `name`; or the number of options. */
  function ExactFrom(opts: seq<LongOption>, name: CString, i: nat): (k: nat)
    requires i <= |opts|
    ensures i <= k <= |opts|
    ensures forall j :: i <= j < k ==> opts[j].name != name
    ensures k < |opts| ==> opts[k].name == name
    decreases |opts| - i
  {
    if i == |opts| || opts[i].name == name then i else ExactFrom(opts, name, i + 1)
  }

  /** First long option, from `i` on, that `name` abbreviates; or the number of options. */
  function PrefixFrom(opts: seq<LongOption>, name: CString, i: nat): (k: nat)
    requires i <= |opts|
    ensures i <= k <= |opts|
    ensures forall j :: i <= j < k ==> !(name <= opts[j].name)
    ensures k < |opts| ==> name <= opts[k].name
    decreases |opts| - i
  {
    if i == |opts| || name <= opts[i].name then i else PrefixFrom(opts, name, i + 1)
  }

  datatype LongMatch = NoMatch | Ambiguous | Found(index: nat)

  /** An exact name wins; otherwise an abbreviation must fit one option only. */
  function FindLong(opts: seq<LongOption>, name: CString): (m: LongMatch)
    ensures m.Found? ==> m.index < |opts|
  {
    var n := |opts|;
    if ExactFrom(opts, name, 0) < n then Found(ExactFrom(opts, name, 0))
    else
      var p := PrefixFrom(opts, name, 0);
      if p == n then NoMatch
      else if PrefixFrom(opts, name, p + 1) < n then Ambiguous
      else Found(p)
  }

  /** `m` is what a name refers to: the first option called exactly that, or else the only one it
      abbreviates; it is ambiguous if it abbreviates several. */
  predicate Matches(opts: seq<LongOption>, name: CString, m: LongMatch) {
    match m
    case Found(i) =>
      && i < |opts|
      && if opts[i].name == name then forall j :: 0 <= j < i ==> opts[j].name != name
         else name <= opts[i].name && forall j :: 0 <= j < |opts| && j != i ==> !(name <= opts[j].name)
    case Ambiguous =>
      && (forall j :: 0 <= j < |opts| ==> opts[j].name != name)
      && exists j, k :: 0 <= j < k < |opts| && name <= opts[j].name && name <= opts[k].name
    case NoMatch => forall j :: 0 <= j < |opts| ==> !(name <= opts[j].name)
  }

  lemma MatchesOnce(opts: seq<LongOption>, name: CString, m: LongMatch, n: LongMatch)
    requires Matches(opts, name, m) && Matches(opts, name, n)
    ensures m == n
  {
  }

  /** The search finds exactly what the name refers to. */
  lemma FindLongMatches(opts: seq<LongOption>, name: CString, m: LongMatch)
    ensures m == FindLong(opts, name) <==> Matches(opts, name, m)
  {
    FindLongIsMatch(opts, name);
    if Matches(opts, name, m) {
      MatchesOnce(opts, name, m, FindLong(opts, name));
    }
  }

  lemma FindLongIsMatch(opts: seq<LongOption>, name: CString)
    ensures Matches(opts, name, FindLong(opts, name))
  {
    hide ExactFrom, PrefixFrom;
    var n := |opts|;
    var x, p := ExactFrom(opts, name, 0), PrefixFrom(opts, name, 0);
    if x == n && p < n {
      var q := PrefixFrom(opts, name, p + 1);
      assert q < n ==> name <= opts[q].name;
    }
  }

  function Missing(syntax: Syntax): int {
    if At(syntax.optstring, 0) == ':' then ':' as int else '?' as int
  }

  /** A long option that was found, `n` being the length of the name given. */
  function DecodeFound(syntax: Syntax, i: nat, next: CString, n: nat, arg: Option<CString>): Decoded
    requires syntax.longopts.Some? && i < |syntax.longopts.value| && n <= |next|
  {
    var p := syntax.longopts.value[i];
    if n < |next| && p.hasArg == 0 then Decoded(Event('?' as int, None, Some(p.val), None, None), "", 1)
    else if n == |next| && p.hasArg == 1 && arg.None? then
      Decoded(Event(Missing(syntax), None, Some(p.val), None, None), "", 1)
    else
      var value := if n < |next| then Some(next[n + 1..]) else if p.hasArg == 1 then arg else None;
      var used := if n == |next| && p.hasArg == 1 then 2 else 1;
      if p.flag.Some? then Decoded(Event(0, value, None, Some(i), Some((p.flag.value, p.val))), "", used)
      else Decoded(Event(p.val, value, None, Some(i), None), "", used)
  }

  /** One letter of a cluster. */
  function DecodeShort(syntax: Syntax, next: CString, arg: Option<CString>): Decoded
    requires next != ""
  {
    var c, tail := next[0], next[1..];
    var k := IndexOf(syntax.optstring, c);
    var used := if tail == "" then 1 else 0;
    if k == |syntax.optstring| || c == ':' then Decoded(Event('?' as int, None, Some(c as int), None, None), tail, used)
    else if At(syntax.optstring, k + 1) != ':' then Decoded(Event(c as int, None, None, None, None), tail, used)
    else if tail != "" then Decoded(Event(c as int, Some(tail), None, None, None), "", 1)
    else if At(syntax.optstring, k + 2) == ':' then Decoded(Event(c as int, None, None, None, None), "", 1)
    else if arg.None? then Decoded(Event(Missing(syntax), None, Some(c as int), None, None), "", 1)
    else Decoded(Event(c as int, arg, None, None, None), "", 2)
  }

  /** The length of the name part of a long option, before any `=`. */
  function NameLength(next: CString): nat { IndexOf(next, '=') }

  /** One call's worth of an element: `next` is its unread part, `arg` the element after it. */
  function Decode(syntax: Syntax, e: CString, next: CString, arg: Option<CString>): (d: Decoded)
    requires next != ""
    ensures d.used == 0 <==> d.next != ""
    ensures |d.next| < |next|
    ensures d.used <= if arg.Some? then 2 else 1
  {
    if TriedLong(syntax, e) then
      var n := NameLength(next);
      match FindLong(syntax.longopts.value, next[..n])
      case Ambiguous => Decoded(Event('?' as int, None, Some(0), None, None), "", 1)
      case Found(i) => DecodeFound(syntax, i, next, n, arg)
      case NoMatch =>
        if !syntax.longOnly || At(e, 1) == '-' || !Known(syntax, next[0])
        then Decoded(Event('?' as int, None, Some(0), None, None), "", 1)
        else DecodeShort(syntax, next, arg)
    else DecodeShort(syntax, next, arg)
  }

  /** No long option is reported by the value that means the end of the scan. */
  predicate NoMinusOne(syntax: Syntax) {
    syntax.longopts.Some? ==>
      forall i :: 0 <= i < |syntax.longopts.value| ==> syntax.longopts.value[i].val != -1
  }

  lemma DecodeIsNotTheEnd(syntax: Syntax, e: CString, next: CString, arg: Option<CString>)
    requires next != "" && NoMinusOne(syntax)
    ensures Decode(syntax, e, next, arg).event.code != -1
  {
  }

  // ----- whole scans -----

  function Second(args: seq<CString>): Option<CString> {
    if |args| > 1 then Some(args[1]) else None
  }

  /** The events of the rest of an element, and how many elements it takes up. */
  function Cluster(syntax: Syntax, e: CString, next: CString, arg: Option<CString>): (r: (seq<Event>, nat))
    requires next != ""
    ensures 1 <= r.1 <= if arg.Some? then 2 else 1
    ensures |r.0| > 0
    decreases |next|
  {
    var d := Decode(syntax, e, next, arg);
    if d.used > 0 then ([d.event], d.used)
    else
      var r := Cluster(syntax, e, d.next, arg);
      ([d.event] + r.0, r.1)
  }

  /** The outcome of a scan: the events, the option elements with their arguments in order, and the
      operands in order. */
  datatype Scan = Scan(events: seq<Event>, options: seq<CString>, operands: seq<CString>)

  /** Scanning with permutation. */
  function Permuted(syntax: Syntax, args: seq<CString>): Scan
    decreases |args|
  {
    if args == [] then Scan([], [], [])
    else if NonOption(args[0]) then
      var r := Permuted(syntax, args[1..]);
      Scan(r.events, r.options, [args[0]] + r.operands)
    else if args[0] == "--" then Scan([], ["--"], args[1..])
    else PermutedFrom(syntax, args, Body(syntax, args[0]))
  }

  /** The same, with args[0] an option element of which `next` is still unread. */
  function PermutedFrom(syntax: Syntax, args: seq<CString>, next: CString): Scan
    requires args != [] && next != ""
    decreases |args|, 0
  {
    var c := Cluster(syntax, args[0], next, Second(args));
    var r := Permuted(syntax, args[c.1..]);
    Scan(c.0 + r.events, args[..c.1] + r.options, r.operands)
  }

  /** Scanning without permutation: the events and the number of elements passed. It stops at the
      first operand, or, when `inOrder`, hands operands over as arguments of an option with code 1. */
  function Ordered(syntax: Syntax, inOrder: bool, args: seq<CString>): (r: (seq<Event>, nat))
    ensures r.1 <= |args|
    decreases |args|
  {
    if args == [] then ([], 0)
    else if args[0] == "--" then ([], 1)
    else if NonOption(args[0]) then
      if !inOrder then ([], 0)
      else
        var r := Ordered(syntax, inOrder, args[1..]);
        ([OperandEvent(args[0])] + r.0, 1 + r.1)
    else OrderedFrom(syntax, inOrder, args, Body(syntax, args[0]))
  }

  function OperandEvent(e: CString): Event {
    Event(1, Some(e), None, None, None)
  }

  function OrderedFrom(syntax: Syntax, inOrder: bool, args: seq<CString>, next: CString): (r: (seq<Event>, nat))
    requires args != [] && next != ""
    ensures r.1 <= |args|
    decreases |args|, 0
  {
    var c := Cluster(syntax, args[0], next, Second(args));
    var r := Ordered(syntax, inOrder, args[c.1..]);
    (c.0 + r.0, c.1 + r.1)
  }

  /** The rest of a permuting scan; `next` is the unread part of args[0], empty between elements. */
  function PermutedRest(syntax: Syntax, args: seq<CString>, next: CString): Scan
    requires next != "" ==> args != []
  {
    if next != "" then PermutedFrom(syntax, args, next) else Permuted(syntax, args)
  }

  function OrderedRest(syntax: Syntax, inOrder: bool, args: seq<CString>, next: CString): (r: (seq<Event>, nat))
    requires next != "" ==> args != []
    ensures r.1 <= |args|
  {
    if next != "" then OrderedFrom(syntax, inOrder, args, next) else Ordered(syntax, inOrder, args)
  }

  /** The rest of a scan whose next call goes by `syntax` and all later ones by `later`. */
  function FirstThen(syntax: Syntax, later: Syntax, inOrder: bool, args: seq<CString>, next: CString): (r: (seq<Event>, nat))
    requires next != "" ==> args != []
  {
    if next == "" && args == [] then ([], 0)
    else if next == "" && args[0] == "--" then ([], 1)
    else if next == "" && NonOption(args[0]) then
      if !inOrder then ([], 0)
      else
        var r := Ordered(later, inOrder, args[1..]);
        ([OperandEvent(args[0])] + r.0, 1 + r.1)
    else
      var d := Decode(syntax, args[0], if next == "" then Body(syntax, args[0]) else next, Second(args));
      var r := OrderedRest(later, inOrder, args[d.used..], d.next);
      ([d.event] + r.0, d.used + r.1)
  }

  /** An in-order scan between two elements. */
  lemma OrderedBetween(syntax: Syntax, inOrder: bool, args: seq<CString>)
    ensures args == [] ==> Ordered(syntax, inOrder, args) == ([], 0)
    ensures args != [] && args[0] == "--" ==> Ordered(syntax, inOrder, args) == ([], 1)
    ensures args != [] && NonOption(args[0]) && args[0] != "--" ==>
              Ordered(syntax, inOrder, args) ==
                if !inOrder then ([], 0)
                else ([OperandEvent(args[0])] + Ordered(syntax, inOrder, args[1..]).0, 1 + Ordered(syntax, inOrder, args[1..]).1)
    ensures args != [] && !NonOption(args[0]) && args[0] != "--" ==>
              Ordered(syntax, inOrder, args) == OrderedRest(syntax, inOrder, args, Body(syntax, args[0]))
  {
  }

  /** If all calls go by the same syntax, that is the rest of the scan by it. */
  lemma FirstThenSame(syntax: Syntax, inOrder: bool, args: seq<CString>, next: CString)
    requires next != "" ==> args != []
    ensures FirstThen(syntax, syntax, inOrder, args, next) == OrderedRest(syntax, inOrder, args, next)
  {
    hide Decode, OrderedFrom;
    OrderedBetween(syntax, inOrder, args);
    if next != "" || (args != [] && args[0] != "--" && !NonOption(args[0])) {
      var n := if next == "" then Body(syntax, args[0]) else next;
      DecodeSplitsOrdered(syntax, inOrder, args, n, Decode(syntax, args[0], n, Second(args)));
    }
  }

  /** Decoding one option of the element in front splits the rest of the scan into that option's
      event and what is left. */
  lemma DecodeSplits(syntax: Syntax, args: seq<CString>, next: CString, d: Decoded)
    requires args != [] && next != "" && d == Decode(syntax, args[0], next, Second(args))
    ensures d.used <= |args| && (d.next != "" ==> args[d.used..] != [])
    ensures
      var r := PermutedRest(syntax, args[d.used..], d.next);
      PermutedRest(syntax, args, next) == Scan([d.event] + r.events, args[..d.used] + r.options, r.operands)
  {
    if d.used == 0 {
      var c := Cluster(syntax, args[0], d.next, Second(args));
      CatAssoc([d.event], c.0, Permuted(syntax, args[c.1..]).events);
      assert args[..0] == [] && args[0..] == args;
    }
  }

  lemma DecodeSplitsOrdered(syntax: Syntax, inOrder: bool, args: seq<CString>, next: CString, d: Decoded)
    requires args != [] && next != "" && d == Decode(syntax, args[0], next, Second(args))
    ensures d.used <= |args| && (d.next != "" ==> args[d.used..] != [])
    ensures
      var r := OrderedRest(syntax, inOrder, args[d.used..], d.next);
      OrderedRest(syntax, inOrder, args, next) == ([d.event] + r.0, d.used + r.1)
  {
    if d.used == 0 {
      var c := Cluster(syntax, args[0], d.next, Second(args));
      CatAssoc([d.event], c.0, Ordered(syntax, inOrder, args[c.1..]).0);
      assert args[0..] == args;
    }
  }

  predicate AllOperands(s: seq<CString>) {
    forall i :: 0 <= i < |s| ==> NonOption(s[i])
  }

  /** Operands in front only add themselves. */
  lemma {:induction false} LeadingOperands(syntax: Syntax, a: seq<CString>, rest: seq<CString>)
    requires AllOperands(a)
    ensures
      var p, r := Permuted(syntax, a + rest), Permuted(syntax, rest);
      p == Scan(r.events, r.options, a + r.operands)
    decreases |a|
  {
    if a == [] {
      assert a + rest == rest && a + Permuted(syntax, rest).operands == Permuted(syntax, rest).operands;
    } else {
      assert (a + rest)[1..] == a[1..] + rest;
      LeadingOperands(syntax, a[1..], rest);
      assert a == [a[0]] + a[1..];
    }
  }

  // ----- permuting is a stable partition -----

  /** `args` is `a` and `b` interleaved, each in its own order. */
  predicate Interleaves(args: seq<CString>, a: seq<CString>, b: seq<CString>) {
    if args == [] then a == [] && b == []
    else
      || (a != [] && a[0] == args[0] && Interleaves(args[1..], a[1..], b))
      || (b != [] && b[0] == args[0] && Interleaves(args[1..], a, b[1..]))
  }

  lemma {:induction false} AllRight(args: seq<CString>)
    ensures Interleaves(args, [], args)
  {
    if args != [] {
      AllRight(args[1..]);
    }
  }

  lemma {:induction false} PermutedInterleaves(syntax: Syntax, args: seq<CString>)
    ensures Interleaves(args, Permuted(syntax, args).options, Permuted(syntax, args).operands)
    decreases |args|
  {
    if args == [] {
    } else if NonOption(args[0]) {
      PermutedInterleaves(syntax, args[1..]);
      assert ([args[0]] + Permuted(syntax, args[1..]).operands)[1..] == Permuted(syntax, args[1..]).operands;
    } else if args[0] == "--" {
      AllRight(args[1..]);
      assert ["--"][1..] == [];
    } else {
      var used := Cluster(syntax, args[0], Body(syntax, args[0]), Second(args)).1;
      var r := Permuted(syntax, args[used..]);
      PermutedInterleaves(syntax, args[used..]);
      if used == 2 {
        PrependLeft(args[1..], r.options, r.operands);
        assert args[1..][1..] == args[2..];
        assert [args[1]] + r.options == (args[..2] + r.options)[1..];
      }
      PrependLeft(args, if used == 2 then [args[1]] + r.options else r.options, r.operands);
      assert args[..used] + r.options == [args[0]] + (if used == 2 then [args[1]] + r.options else r.options);
    }
  }

  lemma PrependLeft(args: seq<CString>, a: seq<CString>, b: seq<CString>)
    requires args != [] && Interleaves(args[1..], a, b)
    ensures Interleaves(args, [args[0]] + a, b)
  {
    assert ([args[0]] + a)[1..] == a;
  }

  // ----- permuting first and scanning in order -----

  /** The last letter of an element takes the next element as its argument, if there is one. */
  predicate TakesNext(syntax: Syntax, e: CString, next: CString)
    requires next != ""
  {
    Cluster(syntax, e, next, Some("")).1 == 2
  }

  /** An element's letters do not depend on what the next element is, only on whether its last
      option takes it. */
  lemma {:induction false} ClusterArgument(syntax: Syntax, e: CString, next: CString, x: CString, y: CString)
    requires next != ""
    ensures
      var cx := Cluster(syntax, e, next, Some(x));
      var cy := Cluster(syntax, e, next, Some(y));
      && cx.1 == cy.1
      && (cx.1 == 1 ==> cx == cy && Cluster(syntax, e, next, None) == cx)
      && (cx.1 == 2 ==> cx.0 != Cluster(syntax, e, next, None).0)
    decreases |next|
  {
    var dx := Decode(syntax, e, next, Some(x));
    DecodeArgument(syntax, e, next, x, y);
    if dx.used == 0 {
      ClusterArgument(syntax, e, dx.next, x, y);
      var n := Cluster(syntax, e, dx.next, None).0;
      assert ([dx.event] + n)[1..] == n;
      var m := Cluster(syntax, e, dx.next, Some(x)).0;
      assert ([dx.event] + m)[1..] == m;
    }
  }

  predicate ArgumentOnlyIfTaken(dx: Decoded, dy: Decoded, dn: Decoded, x: CString) {
    && (dx.used == dy.used && dx.next == dy.next)
    && (dx.used != 2 ==> dx == dy == dn)
    && (dx.used == 2 ==> dn.used == 1 && dx.event.optarg == Some(x) && dn.event.optarg == None)
  }

  lemma ShortArgument(syntax: Syntax, next: CString, x: CString, y: CString)
    requires next != ""
    ensures ArgumentOnlyIfTaken(DecodeShort(syntax, next, Some(x)), DecodeShort(syntax, next, Some(y)),
                                DecodeShort(syntax, next, None), x)
  {
  }

  lemma DecodeArgument(syntax: Syntax, e: CString, next: CString, x: CString, y: CString)
    requires next != ""
    ensures ArgumentOnlyIfTaken(Decode(syntax, e, next, Some(x)), Decode(syntax, e, next, Some(y)),
                                Decode(syntax, e, next, None), x)
  {
    ShortArgument(syntax, next, x, y);
  }

  /** The scan ends in an option that takes the next element, and there is none. */
  predicate Starved(syntax: Syntax, args: seq<CString>)
    decreases |args|
  {
    if args == [] then false
    else if NonOption(args[0]) then Starved(syntax, args[1..])
    else if args[0] == "--" then false
    else if |args| == 1 then TakesNext(syntax, args[0], Body(syntax, args[0]))
    else Starved(syntax, args[Cluster(syntax, args[0], Body(syntax, args[0]), Second(args)).1..])
  }

  /** Permuting first and then scanning in order gives the same events and stops at the operands. */
  predicate SameAsSorted(syntax: Syntax, args: seq<CString>) {
    var p := Permuted(syntax, args);
    Ordered(syntax, false, p.options + p.operands) == (p.events, |p.options|)
  }

  /** The scan is ended by the special element `--`. */
  predicate Terminated(syntax: Syntax, args: seq<CString>)
    decreases |args|
  {
    if args == [] then false
    else if NonOption(args[0]) then Terminated(syntax, args[1..])
    else if args[0] == "--" then true
    else Terminated(syntax, args[Cluster(syntax, args[0], Body(syntax, args[0]), Second(args)).1..])
  }

  /** Unless `--` ended the scan, what follows the options does not look like one. */
  lemma {:induction false} OperandsStop(syntax: Syntax, args: seq<CString>)
    ensures
      var b := Permuted(syntax, args).operands;
      Terminated(syntax, args) || b == [] || NonOption(b[0])
    decreases |args|
  {
    if args == [] || NonOption(args[0]) || args[0] == "--" {
    } else {
      var used := Cluster(syntax, args[0], Body(syntax, args[0]), Second(args)).1;
      OperandsStop(syntax, args[used..]);
    }
  }

  /** The letters of the first option element read the same in the permuted arguments, unless that
      element is starved and operands follow it there. */
  lemma FirstElementAgrees(syntax: Syntax, args: seq<CString>, s: seq<CString>)
    requires args != [] && !NonOption(args[0]) && args[0] != "--"
    requires s != [] && s[0] == args[0]
    ensures
      var body := Body(syntax, args[0]);
      var c := Cluster(syntax, args[0], body, Second(args));
      var d := Cluster(syntax, args[0], body, Second(s));
      && (c.1 == 2 ==> |args| > 1 && (|s| > 1 && s[1] == args[1] ==> d == c))
      && (c.1 == 1 ==> (d == c || d.1 == 2) && (d.1 == 2 <==> |args| == 1 && |s| > 1 && TakesNext(syntax, args[0], body)))
  {
    var e, body := args[0], Body(syntax, args[0]);
    if |args| > 1 && |s| > 1 {
      ClusterArgument(syntax, e, body, args[1], s[1]);
    } else if |args| > 1 {
      ClusterArgument(syntax, e, body, args[1], "");
    } else if |s| > 1 {
      ClusterArgument(syntax, e, body, s[1], "");
    }
  }

  lemma PrefixCancels<T>(a: seq<T>, b: seq<T>, c: seq<T>)
    ensures a + b == a + c <==> b == c
  {
    assert (a + b)[|a|..] == b && (a + c)[|a|..] == c;
  }

  /** The options of a scan, put in front of `tail`, scan in order to the same events. */
  predicate SortedWith(syntax: Syntax, args: seq<CString>, tail: seq<CString>) {
    var p := Permuted(syntax, args);
    Ordered(syntax, false, p.options + tail) == (p.events, |p.options|)
  }

  lemma ConsOrdered(syntax: Syntax, s: seq<CString>, c: (seq<Event>, nat), rest: seq<CString>)
    requires s != [] && !NonOption(s[0]) && s[0] != "--"
    requires c == Cluster(syntax, s[0], Body(syntax, s[0]), Second(s)) && rest == s[c.1..]
    ensures Ordered(syntax, false, s) == (c.0 + Ordered(syntax, false, rest).0, c.1 + Ordered(syntax, false, rest).1)
  {
    assert Ordered(syntax, false, s) == OrderedFrom(syntax, false, s, Body(syntax, s[0]));
  }

  lemma ConsPermuted(syntax: Syntax, args: seq<CString>, c: (seq<Event>, nat), rest: seq<CString>)
    requires args != [] && !NonOption(args[0]) && args[0] != "--"
    requires c == Cluster(syntax, args[0], Body(syntax, args[0]), Second(args)) && rest == args[c.1..]
    ensures
      var p, r := Permuted(syntax, args), Permuted(syntax, rest);
      p.events == c.0 + r.events && p.options == args[..c.1] + r.options
    ensures Starved(syntax, args) <==> if |args| == 1 then TakesNext(syntax, args[0], Body(syntax, args[0])) else Starved(syntax, rest)
  {
  }

  /** One option element in front of a scan that is known to agree or not to agree. */
  lemma SortedScanOption(syntax: Syntax, args: seq<CString>, tail: seq<CString>, c: (seq<Event>, nat), rest: seq<CString>)
    requires args != [] && !NonOption(args[0]) && args[0] != "--"
    requires c == Cluster(syntax, args[0], Body(syntax, args[0]), Second(args)) && rest == args[c.1..]
    requires SortedWith(syntax, rest, tail) <==> !(Starved(syntax, rest) && tail != [])
    ensures SortedWith(syntax, args, tail) <==> !(Starved(syntax, args) && tail != [])
  {
    var r := Permuted(syntax, rest);
    var p := Permuted(syntax, args);
    ConsPermuted(syntax, args, c, rest);
    CatAssoc(args[..c.1], r.options, tail);
    var s, s' := p.options + tail, r.options + tail;
    assert s[0] == args[0] && s[c.1..] == s';
    assert c.1 == 2 ==> s[1] == args[1];
    FirstElementAgrees(syntax, args, s);
    var d := Cluster(syntax, s[0], Body(syntax, s[0]), Second(s));
    ConsOrdered(syntax, s, d, s[d.1..]);
    if d == c {
      PrefixCancels(c.0, Ordered(syntax, false, s').0, r.events);
      assert |args| == 1 ==> rest == [];
    } else {
      assert d.1 == 2 && |p.options| == 1;
    }
  }

  lemma {:induction false} SortedScanWith(syntax: Syntax, args: seq<CString>, tail: seq<CString>)
    requires Terminated(syntax, args) || tail == [] || NonOption(tail[0])
    ensures SortedWith(syntax, args, tail) <==> !(Starved(syntax, args) && tail != [])
    decreases |args|
  {
    if args == [] {
      assert Permuted(syntax, args).options + tail == tail;
    } else if NonOption(args[0]) {
      SortedScanWith(syntax, args[1..], tail);
    } else if args[0] == "--" {
      assert (["--"] + tail)[0] == "--";
    } else {
      var c := Cluster(syntax, args[0], Body(syntax, args[0]), Second(args));
      SortedScanWith(syntax, args[c.1..], tail);
      SortedScanOption(syntax, args, tail, c, args[c.1..]);
    }
  }

  /** Permuting is exactly as good as sorting first, except that an option starved at the very end
      would, after permuting, find an operand to take. */
  lemma SortedScan(syntax: Syntax, args: seq<CString>)
    ensures SameAsSorted(syntax, args) <==> !(Starved(syntax, args) && Permuted(syntax, args).operands != [])
  {
    OperandsStop(syntax, args);
    SortedScanWith(syntax, args, Permuted(syntax, args).operands);
  }

  /** For instance `prog file -o`, where -o requires an argument. */
  lemma StarvedExample()
    ensures
      var syntax := Syntax("o:", None, false);
      !SameAsSorted(syntax, ["file", "-o"]) && SameAsSorted(syntax, ["-o", "file"]) && SameAsSorted(syntax, ["-o"])
  {
    var syntax := Syntax("o:", None, false);
    SortedScan(syntax, ["file", "-o"]);
    SortedScan(syntax, ["-o", "file"]);
    SortedScan(syntax, ["-o"]);
  }
}
