/** The resumable scanner of `getopt`: its statics as fields, the in-place exchange of argument
    blocks, and the proof that a run of calls performs the scan of module GetoptSpec. */
module Getopt {
  import opened Basics
  import opened GetoptPrefix
  import opened GetoptSpec
  import opened Options

  /** Two disjoint blocks of the same length in each other's place. */
  function Swapped<T>(s: seq<T>, p: nat, q: nat, len: nat): (r: seq<T>)
    requires p + len <= q && q + len <= |s|
    ensures |r| == |s|
  {
    s[..p] + s[q..q + len] + s[p + len..q] + s[p..p + len] + s[q + len..]
  }

  lemma SwappedPointwise<T>(s: seq<T>, t: seq<T>, p: nat, q: nat, len: nat)
    requires p + len <= q && q + len <= |s| == |t|
    requires forall k :: p <= k < p + len ==> t[k] == s[k + (q - p)]
    requires forall k :: q <= k < q + len ==> t[k] == s[k - (q - p)]
    requires forall k :: 0 <= k < |s| && !(p <= k < p + len) && !(q <= k < q + len) ==> t[k] == s[k]
    ensures t == Swapped(s, p, q, len)
  {
  }

  /** The inner loop of `exchange`. */
  method SwapBlocks<T>(argv: array<T>, p: nat, q: nat, len: nat)
    requires p + len <= q && q + len <= argv.Length
    modifies argv
    ensures argv[..] == Swapped(old(argv[..]), p, q, len)
  {
    for i := 0 to len
      invariant forall k :: p <= k < p + i ==> argv[k] == old(argv[k + (q - p)])
      invariant forall k :: q <= k < q + i ==> argv[k] == old(argv[k - (q - p)])
      invariant forall k :: 0 <= k < argv.Length && !(p <= k < p + i) && !(q <= k < q + i) ==> argv[k] == old(argv[k])
    {
      var tem := argv[p + i];
      argv[p + i] := argv[q + i];
      argv[q + i] := tem;
    }
    SwappedPointwise(old(argv[..]), argv[..], p, q, len);
  }

  /** Two adjacent blocks in the other order. */
  function Rotated<T>(s: seq<T>, lo: nat, mid: nat, hi: nat): (r: seq<T>)
    requires lo <= mid <= hi <= |s|
    ensures |r| == |s|
  {
    s[..lo] + s[mid..hi] + s[lo..mid] + s[hi..]
  }

  lemma SplitSlice<T>(s: seq<T>, i: nat, j: nat, k: nat)
    requires i <= j <= k <= |s|
    ensures s[i..j] + s[j..k] == s[i..k]
  {
  }

  lemma SwappedSlices<T>(s: seq<T>, p: nat, q: nat, len: nat)
    requires p + len <= q && q + len <= |s|
    ensures
      var t := Swapped(s, p, q, len);
      && t[..p] == s[..p] && t[p..p + len] == s[q..q + len] && t[p + len..q] == s[p + len..q]
      && t[q..q + len] == s[p..p + len] && t[q + len..] == s[q + len..]
  {
  }

  lemma RegroupRight<T>(a: seq<T>, b: seq<T>, c: seq<T>, d: seq<T>, e: seq<T>)
    ensures a + b + c + (d + e) == a + (b + c) + d + e
  {
  }

  lemma RegroupLeft<T>(a: seq<T>, b: seq<T>, c: seq<T>, d: seq<T>, e: seq<T>)
    ensures (a + b) + c + d + e == a + b + (c + d) + e
  {
  }

  /** Exchanging the shorter block with the far end of the longer one leaves a smaller rotation. */
  lemma RotateShortBottom<T>(s: seq<T>, lo: nat, mid: nat, hi: nat)
    requires lo <= mid <= hi <= |s| && hi - mid >= mid - lo
    ensures Rotated(Swapped(s, lo, hi - (mid - lo), mid - lo), lo, mid, hi - (mid - lo)) == Rotated(s, lo, mid, hi)
  {
    var h := hi - (mid - lo);
    var t := Swapped(s, lo, h, mid - lo);
    SwappedSlices(s, lo, h, mid - lo);
    SplitSlice(s, mid, h, hi);
    SplitTail(t, h, hi);
    RegroupRight(s[..lo], s[mid..h], s[h..hi], s[lo..mid], s[hi..]);
    hide Swapped;
  }

  lemma SplitTail<T>(s: seq<T>, i: nat, j: nat)
    requires i <= j <= |s|
    ensures s[i..] == s[i..j] + s[j..]
  {
  }

  lemma SplitHead<T>(s: seq<T>, i: nat, j: nat)
    requires i <= j <= |s|
    ensures s[..j] == s[..i] + s[i..j]
  {
  }

  lemma RotateShortTop<T>(s: seq<T>, lo: nat, mid: nat, hi: nat)
    requires lo <= mid <= hi <= |s| && hi - mid <= mid - lo
    ensures Rotated(Swapped(s, lo, mid, hi - mid), lo + (hi - mid), mid, hi) == Rotated(s, lo, mid, hi)
  {
    var l := lo + (hi - mid);
    var t := Swapped(s, lo, mid, hi - mid);
    SwappedSlices(s, lo, mid, hi - mid);
    SplitSlice(s, lo, l, mid);
    SplitHead(t, lo, l);
    RegroupLeft(s[..lo], s[mid..hi], s[lo..l], s[l..mid], s[hi..]);
    hide Swapped;
  }

  lemma NothingToRotate<T>(s: seq<T>, lo: nat, mid: nat, hi: nat)
    requires lo <= mid <= hi <= |s| && (lo == mid || mid == hi)
    ensures Rotated(s, lo, mid, hi) == s
  {
    if lo == mid {
      assert s[lo..mid] == [];
    } else {
      assert s[mid..hi] == [];
    }
  }

  /** One round of `exchange` when the bottom block is the shorter one. */
  method ShrinkTop<T>(argv: array<T>, bottom: nat, middle: nat, top: nat) returns (top': nat)
    requires bottom < middle && top <= argv.Length && top - middle > middle - bottom
    modifies argv
    ensures middle <= top' < top
    ensures Rotated(argv[..], bottom, middle, top') == Rotated(old(argv[..]), bottom, middle, top)
  {
    hide Rotated, Swapped;
    ghost var before := argv[..];
    top' := top - (middle - bottom);
    SwapBlocks(argv, bottom, top', middle - bottom);
    ghost var after := argv[..];
    assert after == Swapped(before, bottom, top - (middle - bottom), middle - bottom);
    assert Rotated(after, bottom, middle, top') == Rotated(before, bottom, middle, top) by {
      RotateShortBottom(before, bottom, middle, top);
    }
  }

  /** One round of `exchange` when the top block is the shorter one. */
  method ShrinkBottom<T>(argv: array<T>, bottom: nat, middle: nat, top: nat) returns (bottom': nat)
    requires middle < top <= argv.Length && top - middle <= middle - bottom
    modifies argv
    ensures bottom < bottom' <= middle
    ensures Rotated(argv[..], bottom', middle, top) == Rotated(old(argv[..]), bottom, middle, top)
  {
    hide Rotated, Swapped;
    ghost var before := argv[..];
    bottom' := bottom + (top - middle);
    SwapBlocks(argv, bottom, middle, top - middle);
    ghost var after := argv[..];
    assert after == Swapped(before, bottom, middle, top - middle);
    assert Rotated(after, bottom', middle, top) == Rotated(before, bottom, middle, top) by {
      RotateShortTop(before, bottom, middle, top);
    }
  }

  /** The loop of `exchange`: rotates argv[bottom0..top0) at `middle`. */
  method Rotate<T>(argv: array<T>, bottom0: nat, middle: nat, top0: nat)
    requires bottom0 <= middle <= top0 <= argv.Length
    modifies argv
    ensures argv[..] == Rotated(old(argv[..]), bottom0, middle, top0)
  {
    var bottom: nat, top: nat := bottom0, top0;
    while top > middle && middle > bottom
      invariant bottom <= middle <= top <= argv.Length
      invariant Rotated(argv[..], bottom, middle, top) == Rotated(old(argv[..]), bottom0, middle, top0)
      decreases top - bottom
    {
      if top - middle > middle - bottom {
        top := ShrinkTop(argv, bottom, middle, top);
      } else {
        bottom := ShrinkBottom(argv, bottom, middle, top);
      }
    }
    NothingToRotate(argv[..], bottom, middle, top);
  }

  /** strchr: the position of a character, or the length of the string. */
  method MyIndex(s: CString, c: char) returns (i: nat)
    ensures i == IndexOf(s, c)
  {
    i := 0;
    while i < |s| && s[i] != c
      invariant i <= |s| && IndexOf(s, c) == i + IndexOf(s[i..], c)
    {
      assert s[i..][1..] == s[i + 1..];
      i := i + 1;
    }
  }

  class Scanner {
    // Visible to the caller.
    var optarg: Option<CString>
    var optind: nat
    var optopt: int
    var longind: nat
    var flags: map<nat, int>
    // Between calls. A null `nextchar` and an empty one are never told apart.
    var initialized: bool
    var nextchar: CString
    var ordering: Ordering
    var firstNonopt: nat
    var lastNonopt: nat
    // What has been scanned since `start`: option elements with their arguments, and operands.
    ghost var start: nat
    ghost var options: seq<CString>
    ghost var operands: seq<CString>

    constructor ()
      ensures optind == 1 && !initialized
    {
      optarg, optind, optopt, longind, flags := None, 1, '?' as int, 0, map[];
      initialized, nextchar, ordering, firstNonopt, lastNonopt := false, "", PERMUTE, 0, 0;
      start, options, operands := 0, [], [];
    }

    /** argv[first_nonopt..last_nonopt) and argv[last_nonopt..optind) change places. */
    method Exchange(argv: array<CString>)
      requires firstNonopt <= lastNonopt <= optind <= argv.Length
      modifies argv, this`firstNonopt, this`lastNonopt
      ensures argv[..] == Rotated(old(argv[..]), old(firstNonopt), old(lastNonopt), optind)
      ensures firstNonopt == old(firstNonopt) + (optind - old(lastNonopt)) && lastNonopt == optind
    {
      Rotate(argv, firstNonopt, lastNonopt, optind);
      firstNonopt := firstNonopt + (optind - lastNonopt);
      lastNonopt := optind;
    }

    /** Decides the ordering and forgets earlier scans; returns the option string without its
        ordering prefix. */
    method Initialize(optstring: CString, posixlyCorrect: bool) returns (stripped: CString)
      modifies this
      ensures optind == old(optind) == firstNonopt == lastNonopt == start && nextchar == "" && initialized
      ensures options == [] && operands == []
      ensures optarg == old(optarg) && optopt == old(optopt) && longind == old(longind) && flags == old(flags)
      ensures ordering == OrderingOf(optstring, posixlyCorrect) && stripped == Stripped(optstring)
    {
      firstNonopt, lastNonopt := optind, optind;
      start, options, operands := optind, [], [];
      nextchar := "";
      initialized := true;
      stripped := optstring;
      if At(optstring, 0) == '-' {
        ordering := RETURN_IN_ORDER;
        stripped := optstring[1..];
      } else if At(optstring, 0) == '+' {
        ordering := REQUIRE_ORDER;
        stripped := optstring[1..];
      } else if posixlyCorrect {
        ordering := REQUIRE_ORDER;
      } else {
        ordering := PERMUTE;
      }
    }

    static function OrderingOf(optstring: CString, posixlyCorrect: bool): Ordering {
      if At(optstring, 0) == '-' then RETURN_IN_ORDER
      else if At(optstring, 0) == '+' || posixlyCorrect then REQUIRE_ORDER
      else PERMUTE
    }

    static function Stripped(optstring: CString): CString {
      if At(optstring, 0) == '-' || At(optstring, 0) == '+' then optstring[1..] else optstring
    }

    /** A dash or a plus in front of the option string decides the ordering and is dropped; without them
        the environment decides. */
    static lemma OrderingPrefix(s: string, posixlyCorrect: bool)
      ensures OrderingOf(['-'] + s, posixlyCorrect) == RETURN_IN_ORDER && Stripped(['-'] + s) == s
      ensures OrderingOf(['+'] + s, posixlyCorrect) == REQUIRE_ORDER && Stripped(['+'] + s) == s
      ensures s == "" || (s[0] != '-' && s[0] != '+') ==>
        OrderingOf(s, posixlyCorrect) == (if posixlyCorrect then REQUIRE_ORDER else PERMUTE) && Stripped(s) == s
    {
      assert (['-'] + s)[1..] == s && (['+'] + s)[1..] == s;
    }

    /** The call has produced this event. */
    twostate predicate Produced(ev: Event, code: int)
      reads this
    {
      && code == ev.code && optarg == ev.optarg
      && optopt == (if ev.optopt.Some? then ev.optopt.value else old(optopt))
      && longind == (if ev.longind.Some? then ev.longind.value else old(longind))
      && flags == (if ev.store.Some? then old(flags)[ev.store.value.0 := ev.store.value.1] else old(flags))
    }

    // ----- decoding the current option element -----

    /** Looks a name up in the table of long options; -1 if it is not there. */
    method SearchLong(opts: seq<LongOption>, name: CString) returns (ambig: bool, indfound: int)
      ensures
        match FindLong(opts, name)
        case NoMatch => !ambig && indfound == -1
        case Ambiguous => ambig
        case Found(i) => !ambig && indfound == i
    {
      hide FindLong;
      var exact := false;
      ambig, indfound := false, -1;
      var optionIndex := 0;
      while optionIndex < |opts|
        invariant optionIndex <= |opts| && !exact
        invariant forall j :: 0 <= j < optionIndex ==> opts[j].name != name
        invariant indfound == -1 ==> !ambig && forall j :: 0 <= j < optionIndex ==> !(name <= opts[j].name)
        invariant indfound != -1 ==> 0 <= indfound < optionIndex && name <= opts[indfound].name
        invariant indfound != -1 && !ambig ==> forall j :: 0 <= j < optionIndex && j != indfound ==> !(name <= opts[j].name)
        invariant ambig ==> exists k :: indfound < k < optionIndex && name <= opts[k].name
      {
        var p := opts[optionIndex];
        if name <= p.name {
          if |name| == |p.name| {
            indfound := optionIndex;
            exact := true;
            break;
          } else if indfound == -1 {
            indfound := optionIndex;
          } else {
            ambig := true;
          }
        }
        optionIndex := optionIndex + 1;
      }
      ambig := ambig && !exact;
      FindLongMatches(opts, name, if ambig then Ambiguous else if indfound == -1 then NoMatch else Found(indfound));
    }

    /** A long option was found: takes its argument, stores its value. */
    method DecodeFound(argv: array<CString>, syntax: Syntax, p: LongOption, i: nat, nameend: nat) returns (code: int)
      requires optind < argv.Length && optarg == None && nameend <= |nextchar|
      requires syntax.longopts.Some? && i < |syntax.longopts.value| && p == syntax.longopts.value[i]
      modifies this`optarg, this`optind, this`optopt, this`longind, this`flags, this`nextchar
      ensures
        var d := GetoptSpec.DecodeFound(syntax, i, old(nextchar), nameend, NextArgument(argv, old(optind)));
        Produced(d.event, code) && optind == old(optind) + d.used && nextchar == d.next
    {
      optind := optind + 1;
      if nameend < |nextchar| {
        if p.hasArg != 0 {
          optarg := Some(nextchar[nameend + 1..]);
        } else {
          nextchar := "";
          optopt := p.val;
          return '?' as int;
        }
      } else if p.hasArg == 1 {
        if optind < argv.Length {
          optarg := Some(argv[optind]);
          optind := optind + 1;
        } else {
          nextchar := "";
          optopt := p.val;
          return if At(syntax.optstring, 0) == ':' then ':' as int else '?' as int;
        }
      }
      nextchar := "";
      longind := i;
      if p.flag.Some? {
        flags := flags[p.flag.value := p.val];
        return 0;
      }
      return p.val;
    }

    static function NextArgument(argv: array<CString>, i: nat): Option<CString>
      reads argv
    {
      if i + 1 < argv.Length then Some(argv[i + 1]) else None
    }

    /** One letter of a cluster of short options. */
    method DecodeShort(argv: array<CString>, syntax: Syntax) returns (code: int)
      requires optind < argv.Length && optarg == None && nextchar != "" && Plain(syntax)
      modifies this`optarg, this`optind, this`optopt, this`nextchar
      ensures
        var d := GetoptSpec.DecodeShort(syntax, old(nextchar), NextArgument(argv, old(optind)));
        Produced(d.event, code) && optind == old(optind) + d.used && nextchar == d.next
    {
      var c := nextchar[0];
      nextchar := nextchar[1..];
      var temp := MyIndex(syntax.optstring, c);
      if nextchar == "" {
        optind := optind + 1;
      }
      if temp == |syntax.optstring| || c == ':' {
        optopt := c as int;
        return '?' as int;
      }
      code := c as int;
      if At(syntax.optstring, temp + 1) == ':' {
        if At(syntax.optstring, temp + 2) == ':' {
          if nextchar != "" {
            optarg := Some(nextchar);
            optind := optind + 1;
          } else {
            optarg := None;
          }
          nextchar := "";
        } else {
          if nextchar != "" {
            optarg := Some(nextchar);
            optind := optind + 1;
          } else if optind == argv.Length {
            optopt := c as int;
            code := if At(syntax.optstring, 0) == ':' then ':' as int else '?' as int;
          } else {
            optarg := Some(argv[optind]);
            optind := optind + 1;
          }
          nextchar := "";
        }
      }
    }

    /** Decodes the next option of the element argv[optind]. */
    method DecodeElement(argv: array<CString>, syntax: Syntax) returns (code: int)
      requires optind < argv.Length && optarg == None && nextchar != "" && Plain(syntax)
      modifies this`optarg, this`optind, this`optopt, this`longind, this`flags, this`nextchar
      ensures
        var d := Decode(syntax, argv[old(optind)], old(nextchar), NextArgument(argv, old(optind)));
        Produced(d.event, code) && optind == old(optind) + d.used && nextchar == d.next
    {
      var e := argv[optind];
      if syntax.longopts.Some? {
        var known := MyIndex(syntax.optstring, At(e, 1));
        if At(e, 1) == '-' || (syntax.longOnly && (|e| > 2 || known == |syntax.optstring|)) {
          var nameend := MyIndex(nextchar, '=');
          var ambig, indfound := SearchLong(syntax.longopts.value, nextchar[..nameend]);
          if ambig {
            nextchar := "";
            optind := optind + 1;
            optopt := 0;
            return '?' as int;
          }
          if indfound != -1 {
            code := DecodeFound(argv, syntax, syntax.longopts.value[indfound], indfound, nameend);
            return;
          }
          var short := MyIndex(syntax.optstring, nextchar[0]);
          if !syntax.longOnly || At(e, 1) == '-' || short == |syntax.optstring| {
            nextchar := "";
            optind := optind + 1;
            optopt := 0;
            return '?' as int;
          }
        }
      }
      code := DecodeShort(argv, syntax);
    }

    // ----- one call -----

    /** argv[i] is an element that holds options. */
    static predicate OptionAt(argv: array<CString>, i: nat)
      reads argv
    {
      i < argv.Length && !NonOption(argv[i]) && argv[i] != "--"
    }

    /** Between calls of an unfinished scan: in PERMUTE mode argv[start..optind) holds the options
        seen so far, with the operands seen so far as one block among them. */
    ghost predicate Valid(argv: array<CString>)
      reads this, argv
    {
      && initialized && 1 <= start
      && start <= firstNonopt <= lastNonopt <= optind <= argv.Length
      && (nextchar != "" ==> OptionAt(argv, optind))
      && (ordering == PERMUTE ==>
            && options == argv[start..firstNonopt] + argv[lastNonopt..optind]
            && operands == argv[firstNonopt..lastNonopt])
      && (ordering != PERMUTE ==> firstNonopt == lastNonopt == start)
    }

    /** What the rest of the scan will yield, together with what it has yielded: in PERMUTE mode. */
    ghost function Outlook(argv: array<CString>, syntax: Syntax): Scan
      reads this, argv
      requires Valid(argv)
    {
      var r := PermutedRest(syntax, argv[optind..], nextchar);
      Scan(r.events, options + r.options, operands + r.operands)
    }

    /** The events still to come and the final position: in the other modes. */
    ghost function Prospect(argv: array<CString>, syntax: Syntax): (seq<Event>, nat)
      reads this, argv
      requires Valid(argv)
    {
      var r := OrderedRest(syntax, ordering == RETURN_IN_ORDER, argv[optind..], nextchar);
      (r.0, optind + r.1)
    }

    /** The same when the next call goes by `syntax` and all later ones by `later`. */
    ghost function Plan(argv: array<CString>, syntax: Syntax, later: Syntax): (seq<Event>, nat)
      reads this, argv
      requires Valid(argv)
    {
      var r := FirstThen(syntax, later, ordering == RETURN_IN_ORDER, argv[optind..], nextchar);
      (r.0, optind + r.1)
    }

    /** The exchange at the start of a call: the options seen so far, then the operands. */
    method Gather(argv: array<CString>)
      requires Valid(argv) && ordering == PERMUTE
      modifies argv, this`firstNonopt, this`lastNonopt
      ensures start <= firstNonopt <= optind <= argv.Length
      ensures argv[start..firstNonopt] == options && argv[firstNonopt..optind] == operands
      ensures argv[..start] == old(argv[..start]) && argv[optind..] == old(argv[optind..])
    {
      if firstNonopt != lastNonopt && lastNonopt != optind {
        RotatedSlices(argv[..], start, firstNonopt, lastNonopt, optind);
        Exchange(argv);
      } else if lastNonopt != optind {
        JoinSlices(argv[..], start, firstNonopt, optind);
        firstNonopt := optind;
      }
    }

    /** Advances to the next element that is not an operand. */
    method PassOperands(argv: array<CString>)
      requires optind <= argv.Length
      modifies this`optind
      ensures old(optind) <= optind <= argv.Length
      ensures AllOperands(argv[old(optind)..optind])
      ensures optind == argv.Length || !NonOption(argv[optind])
    {
      while optind < argv.Length && NonOption(argv[optind])
        invariant old(optind) <= optind <= argv.Length
        invariant AllOperands(argv[old(optind)..optind])
      {
        optind := optind + 1;
      }
    }

    /** Runs past operands: the part of a call that only PERMUTE mode has. */
    method SkipOperands(argv: array<CString>) returns (ghost skipped: seq<CString>)
      requires Valid(argv) && nextchar == "" && ordering == PERMUTE
      modifies argv, this`firstNonopt, this`lastNonopt, this`optind, this`operands
      ensures Valid(argv) && lastNonopt == optind
      ensures optind == argv.Length || !NonOption(argv[optind])
      ensures argv[..start] == old(argv[..start])
      ensures old(argv[optind..]) == skipped + argv[optind..] && AllOperands(skipped)
      ensures operands == old(operands) + skipped
    {
      Gather(argv);
      ghost var before := optind;
      PassOperands(argv);
      PassedOver(argv[..], firstNonopt, before, optind);
      skipped := argv[before..optind];
      operands := operands + skipped;
      lastNonopt := optind;
      assert argv[..][before..] == argv[before..];
    }

    /** The special element `--` at argv[optind]: it counts as an option, all that follows as
        operands. Leaves `optind` at argc. */
    method EndOfOptions(argv: array<CString>)
      requires Valid(argv) && nextchar == "" && optind < argv.Length && argv[optind] == "--"
      requires ordering == PERMUTE ==> lastNonopt == optind
      modifies argv, this`firstNonopt, this`lastNonopt, this`optind, this`options, this`operands
      ensures optind == lastNonopt == argv.Length && start <= firstNonopt <= argv.Length
      ensures ordering == PERMUTE ==>
                && options == old(options) + ["--"] && operands == old(operands) + old(argv[optind + 1..])
                && argv[..start] == old(argv[..start])
                && argv[start..firstNonopt] == options && argv[firstNonopt..] == operands
      ensures ordering != PERMUTE ==> argv[..] == old(argv[..]) && firstNonopt == old(optind) + 1
    {
      ghost var rest := argv[optind + 1..];
      options, operands := options + ["--"], operands + rest;
      optind := optind + 1;
      assert argv[optind - 1..optind] == ["--"];
      if firstNonopt != lastNonopt && lastNonopt != optind {
        RotatedSlices(argv[..], start, firstNonopt, lastNonopt, optind);
        Exchange(argv);
        SplitTail(argv[..], firstNonopt, optind);
      } else if firstNonopt == lastNonopt {
        JoinSlices(argv[..], start, firstNonopt, optind);
        firstNonopt := optind;
      }
      lastNonopt := argv.Length;
      optind := argv.Length;
    }

    /** The scan is over: argv holds the options first, then the operands, and `optind` is where
        the operands start. */
    ghost predicate Finished(argv: array<CString>, outlook: Scan)
      reads this, argv
    {
      && outlook == Scan([], options, operands)
      && start + |options| == optind <= argv.Length
      && argv[start..optind] == options && argv[optind..] == operands
    }

    method AdvancePermute(argv: array<CString>, syntax: Syntax) returns (r: Option<int>)
      requires Valid(argv) && nextchar == "" && ordering == PERMUTE
      modifies argv, this`firstNonopt, this`lastNonopt, this`optind, this`options, this`operands, this`nextchar
      ensures argv[..start] == old(argv[..start])
      ensures r == None ==> Valid(argv) && nextchar != "" && Outlook(argv, syntax) == old(Outlook(argv, syntax))
      ensures r.Some? ==> r.value == -1 && nextchar == "" && Finished(argv, old(Outlook(argv, syntax)))
    {
      ghost var outlook := Outlook(argv, syntax);
      ghost var skipped := SkipOperands(argv);
      LeadingOutlook(syntax, options, old(operands), skipped, argv[optind..]);
      assert outlook == Outlook(argv, syntax);
      r := Enter(argv, syntax, outlook);
    }

    /** Looks at argv[optind] after the operands have been skipped. */
    method Enter(argv: array<CString>, syntax: Syntax, ghost outlook: Scan) returns (r: Option<int>)
      requires Valid(argv) && nextchar == "" && ordering == PERMUTE && lastNonopt == optind
      requires optind == argv.Length || !NonOption(argv[optind])
      requires outlook == Outlook(argv, syntax)
      modifies argv, this`firstNonopt, this`lastNonopt, this`optind, this`options, this`operands, this`nextchar
      ensures argv[..start] == old(argv[..start])
      ensures r == None ==> Valid(argv) && nextchar != "" && Outlook(argv, syntax) == outlook
      ensures r.Some? ==> r.value == -1 && nextchar == "" && Finished(argv, outlook)
    {
      if optind != argv.Length && argv[optind] == "--" {
        EndOfOptions(argv);
      }
      if optind == argv.Length {
        if firstNonopt != lastNonopt {
          optind := firstNonopt;
        }
        return Some(-1);
      }
      nextchar := Body(syntax, argv[optind]);
      return None;
    }

    method AdvanceStraight(argv: array<CString>, syntax: Syntax, ghost later: Syntax) returns (r: Option<int>)
      requires Valid(argv) && nextchar == "" && ordering != PERMUTE && optarg == None
      modifies argv, this`firstNonopt, this`lastNonopt, this`optind, this`options, this`operands, this`nextchar, this`optarg
      ensures argv[..] == old(argv[..])
      ensures r == None ==> Valid(argv) && nextchar != "" && optarg == None
      ensures r.Some? ==> nextchar == ""
      ensures r == None ==> Plan(argv, syntax, later) == old(Plan(argv, syntax, later))
      ensures r == Some(-1) ==> old(Plan(argv, syntax, later)) == ([], optind)
      ensures r.Some? && r != Some(-1) ==>
                && r == Some(1) && optarg.Some? && Valid(argv)
                && old(Plan(argv, syntax, later)) == ([OperandEvent(optarg.value)] + Prospect(argv, later).0, Prospect(argv, later).1)
    {
      hide Ordered, OrderedFrom, Decode;
      ghost var rest := argv[optind..];
      if optind != argv.Length && argv[optind] == "--" {
        EndOfOptions(argv);
      }
      if optind == argv.Length {
        if firstNonopt != lastNonopt {
          optind := firstNonopt;
        }
        return Some(-1);
      }
      if NonOption(argv[optind]) {
        if ordering == REQUIRE_ORDER {
          return Some(-1);
        }
        optarg := Some(argv[optind]);
        optind := optind + 1;
        assert argv[optind..] == rest[1..];
        return Some(1);
      }
      nextchar := Body(syntax, argv[optind]);
      return None;
    }

    /** Decodes one option of argv[optind]: its event comes off the front of the rest of the scan. */
    method DecodeNext(argv: array<CString>, syntax: Syntax, ghost later: Syntax, ghost inOrder: bool) returns (code: int, ghost ev: Event)
      requires OptionAt(argv, optind) && nextchar != "" && optarg == None && Plain(syntax)
      modifies this`optarg, this`optind, this`optopt, this`longind, this`flags, this`nextchar
      ensures old(optind) <= optind <= argv.Length && (nextchar != "" ==> optind == old(optind))
      ensures Produced(ev, code) && (NoMinusOne(syntax) ==> code != -1)
      ensures
        var p, r := old(PermutedRest(syntax, argv[optind..], nextchar)), PermutedRest(syntax, argv[optind..], nextchar);
        p == Scan([ev] + r.events, argv[old(optind)..optind] + r.options, r.operands)
      ensures
        var p, r := old(FirstThen(syntax, later, inOrder, argv[optind..], nextchar)), OrderedRest(later, inOrder, argv[optind..], nextchar);
        p == ([ev] + r.0, optind - old(optind) + r.1)
    {
      ghost var from, rest := optind, argv[optind..];
      assert Second(rest) == NextArgument(argv, optind);
      ghost var used, rest', next';
      ev, used, rest', next' := SplitOff(syntax, later, inOrder, rest, nextchar);
      code := DecodeElement(argv, syntax);
      assert rest' == argv[optind..];
    }

    /** The decoding of one option and both ways of going on after it. */
    static lemma SplitOff(syntax: Syntax, later: Syntax, inOrder: bool, rest: seq<CString>, next: CString)
      returns (ev: Event, used: nat, rest': seq<CString>, next': CString)
      requires rest != [] && next != ""
      ensures used <= |rest| && rest' == rest[used..] && (next' != "" ==> rest' != [] && used == 0)
      ensures var d := Decode(syntax, rest[0], next, Second(rest)); ev == d.event && used == d.used && next' == d.next
      ensures NoMinusOne(syntax) ==> ev.code != -1
      ensures
        var r := PermutedRest(syntax, rest', next');
        PermutedRest(syntax, rest, next) == Scan([ev] + r.events, rest[..used] + r.options, r.operands)
      ensures
        var r := OrderedRest(later, inOrder, rest', next');
        FirstThen(syntax, later, inOrder, rest, next) == ([ev] + r.0, used + r.1)
    {
      var d := Decode(syntax, rest[0], next, Second(rest));
      ev, used, rest', next' := d.event, d.used, rest[d.used..], d.next;
      DecodeSplits(syntax, rest, next, d);
      if NoMinusOne(syntax) {
        DecodeIsNotTheEnd(syntax, rest[0], next, Second(rest));
      }
    }

    /** Decodes one option as a step of a permuting scan. */
    method DecodePermuting(argv: array<CString>, syntax: Syntax) returns (code: int, ghost ev: Event)
      requires Valid(argv) && nextchar != "" && optarg == None && Plain(syntax) && ordering == PERMUTE
      modifies this`optarg, this`optind, this`optopt, this`longind, this`flags, this`nextchar, this`options
      ensures Valid(argv) && Produced(ev, code) && (NoMinusOne(syntax) ==> code != -1)
      ensures Precedes(ev, old(Outlook(argv, syntax)), Outlook(argv, syntax))
    {
      hide FirstThen, OrderedRest, PermutedRest, Plain, NoMinusOne;
      ghost var from, p := optind, PermutedRest(syntax, argv[optind..], nextchar);
      code, ev := DecodeNext(argv, syntax, syntax, false);
      ghost var taken := argv[from..optind];
      TakenSlices(argv[..], lastNonopt, from, optind);
      CatAssoc(argv[start..firstNonopt], argv[lastNonopt..from], taken);
      MoveTaken(options, operands, taken, ev, p, PermutedRest(syntax, argv[optind..], nextchar));
      options := options + taken;
    }

    /** Decodes one option as a step of a scan that does not permute. */
    method DecodeInPlace(argv: array<CString>, syntax: Syntax, ghost later: Syntax) returns (code: int, ghost ev: Event)
      requires Valid(argv) && nextchar != "" && optarg == None && Plain(syntax) && ordering != PERMUTE
      modifies this`optarg, this`optind, this`optopt, this`longind, this`flags, this`nextchar
      ensures Valid(argv) && Produced(ev, code) && (NoMinusOne(syntax) ==> code != -1)
      ensures old(Plan(argv, syntax, later)) == ([ev] + Prospect(argv, later).0, Prospect(argv, later).1)
    {
      hide FirstThen, OrderedRest, PermutedRest, Plain, NoMinusOne;
      code, ev := DecodeNext(argv, syntax, later, ordering == RETURN_IN_ORDER);
    }

    /** Only a caller that moved `optind` back would make this take effect. */
    method Clamp()
      requires firstNonopt <= lastNonopt <= optind
      modifies this`firstNonopt, this`lastNonopt
      ensures firstNonopt == old(firstNonopt) && lastNonopt == old(lastNonopt)
    {
      lastNonopt := Min(lastNonopt, optind);
      firstNonopt := Min(firstNonopt, optind);
    }

    /** One call in PERMUTE mode, on a scan that has been started and is not over: hands out the next
        event, or finds that there is none and leaves the arguments permuted. */
    method CallPermuting(argv: array<CString>, syntax: Syntax) returns (code: int, ghost over: bool, ghost ev: Event)
      requires Valid(argv) && Plain(syntax) && ordering == PERMUTE && optarg == None
      modifies argv, this
      ensures start == old(start) <= argv.Length && argv[..start] == old(argv[..start]) && ordering == old(ordering)
      ensures over ==> code == -1 && Finished(argv, old(Outlook(argv, syntax)))
      ensures !over ==> Valid(argv) && !Fresh() && Produced(ev, code) && (NoMinusOne(syntax) ==> code != -1)
                        && Precedes(ev, old(Outlook(argv, syntax)), Outlook(argv, syntax))
    {
      hide PermutedRest, Permuted, Plain, NoMinusOne, Finished, Precedes;
      over, ev := false, Event(-1, None, None, None, None);
      if nextchar == "" {
        Clamp();
        var r := AdvancePermute(argv, syntax);
        if r.Some? {
          return r.value, true, ev;
        }
      }
      code, ev := DecodePermuting(argv, syntax);
    }

    /** One call in the other modes. */
    method CallInPlace(argv: array<CString>, syntax: Syntax, ghost later: Syntax) returns (code: int, ghost over: bool, ghost ev: Event)
      requires Valid(argv) && Plain(syntax) && ordering != PERMUTE && optarg == None
      modifies argv, this
      ensures start == old(start) && argv[..] == old(argv[..]) && ordering == old(ordering)
      ensures over ==> code == -1 && old(Plan(argv, syntax, later)) == ([], optind)
      ensures !over ==> Valid(argv) && !Fresh() && Produced(ev, code) && (NoMinusOne(syntax) ==> code != -1)
                        && old(Plan(argv, syntax, later)) == ([ev] + Prospect(argv, later).0, Prospect(argv, later).1)
    {
      hide FirstThen, OrderedRest, Ordered, Plain, NoMinusOne;
      over, ev := false, Event(-1, None, None, None, None);
      if nextchar == "" {
        Clamp();
        var r := AdvanceStraight(argv, syntax, later);
        if r.Some? {
          over := r.value == -1;
          ev := Event(1, optarg, None, None, None);
          code := r.value;
          return;
        }
      }
      code, ev := DecodeInPlace(argv, syntax, later);
    }

    // ----- starting a scan -----

    /** The next call starts a new scan. */
    predicate Fresh()
      reads this
    {
      optind == 0 || !initialized
    }

    /** A call may be made: a scan is under way, or the position to start from lies in argv. */
    ghost predicate Ready(argv: array<CString>)
      reads this, argv
    {
      if Fresh() then 1 <= argv.Length && optind <= argv.Length else Valid(argv)
    }

    /** Where a new scan starts: `optind`, or after the program name. */
    function From(): nat
      reads this
    {
      if optind == 0 then 1 else optind
    }

    /** Where the scan this call belongs to starts. */
    ghost function Origin(): nat
      reads this
    {
      if Fresh() then From() else start
    }

    method Begin(argv: array<CString>, optstring: CString, posixlyCorrect: bool) returns (stripped: CString)
      requires Fresh() && Ready(argv)
      modifies this
      ensures Valid(argv) && start == optind == old(From()) && nextchar == "" && !Fresh()
      ensures options == [] && operands == [] && ordering == OrderingOf(optstring, posixlyCorrect)
      ensures optarg == old(optarg) && optopt == old(optopt) && longind == old(longind) && flags == old(flags)
      ensures stripped == Stripped(optstring)
    {
      if optind == 0 {
        optind := 1;
      }
      stripped := Initialize(optstring, posixlyCorrect);
      assert argv[start..start] == [];
    }

    /** The ordering of the scan this call belongs to. */
    ghost function Mode(syntax: Syntax, posixlyCorrect: bool): Ordering
      reads this
    {
      if Fresh() then OrderingOf(syntax.optstring, posixlyCorrect) else ordering
    }

    /** Only the first call of a scan drops the prefix of the option string. */
    ghost function Effective(syntax: Syntax): Syntax
      reads this
    {
      if Fresh() then syntax.(optstring := Stripped(syntax.optstring)) else syntax
    }

    /** The whole of a permuting scan as seen before a call. */
    ghost function View(argv: array<CString>, syntax: Syntax): Scan
      reads this, argv
      requires Ready(argv)
    {
      if Fresh() then Permuted(syntax, argv[From()..]) else Outlook(argv, syntax)
    }

    /** The rest of a scan in another mode as seen before a call: if it is the first, that call drops the
        prefix of the option string, and no other does. */
    ghost function ViewInPlace(argv: array<CString>, syntax: Syntax, inOrder: bool): (seq<Event>, nat)
      reads this, argv
      requires Ready(argv)
    {
      if Fresh() then var r := FirstThen(Effective(syntax), syntax, inOrder, argv[From()..], ""); (r.0, From() + r.1)
      else Prospect(argv, syntax)
    }

    /** One call: hands out the next event, or finds that there is none. */
    method GetoptInternal(argv: array<CString>, syntax0: Syntax, posixlyCorrect: bool)
      returns (code: int, ghost over: bool, ghost ev: Event)
      requires Ready(argv) && Plain(Effective(syntax0))
      modifies argv, this
      ensures start == old(Origin()) <= argv.Length && argv[..start] == old(argv[..Origin()])
      ensures ordering == old(Mode(syntax0, posixlyCorrect))
      ensures over ==> code == -1
      ensures !over ==> !Fresh() && Valid(argv) && Produced(ev, code) && (NoMinusOne(syntax0) ==> code != -1)
      ensures ordering == PERMUTE ==>
                && (over ==> Finished(argv, old(View(argv, syntax0))))
                && (!over ==> Precedes(ev, old(View(argv, syntax0)), Outlook(argv, syntax0)))
      ensures ordering != PERMUTE ==>
                && argv[..] == old(argv[..])
                && var p := old(ViewInPlace(argv, syntax0, Mode(syntax0, posixlyCorrect) == RETURN_IN_ORDER));
                   && (over ==> p == ([], optind))
                   && (!over ==> p == ([ev] + Prospect(argv, syntax0).0, Prospect(argv, syntax0).1))
    {
      hide Prospect, Plan, Outlook, View, ViewInPlace, Valid, Finished, Precedes, Plain;
      ghost var plan := ViewInPlace(argv, syntax0, Mode(syntax0, posixlyCorrect) == RETURN_IN_ORDER);
      ghost var view := View(argv, syntax0);
      var syntax := Start(argv, syntax0, posixlyCorrect);
      if ordering == PERMUTE {
        assert view == Outlook(argv, syntax);
        code, over, ev := CallPermuting(argv, syntax);
        assert over ==> Finished(argv, view);
        assert !over ==> Precedes(ev, view, Outlook(argv, syntax));
      } else {
        assert plan == Plan(argv, syntax, syntax0);
        code, over, ev := CallInPlace(argv, syntax, syntax0);
        assert over ==> plan == ([], optind);
        assert !over ==> plan == ([ev] + Prospect(argv, syntax0).0, Prospect(argv, syntax0).1);
      }
    }

    /** Starts a scan if this is its first call; either way what is to come has not changed. */
    method Start(argv: array<CString>, syntax0: Syntax, posixlyCorrect: bool) returns (syntax: Syntax)
      requires Ready(argv)
      modifies this
      ensures Valid(argv) && start == old(Origin()) <= argv.Length && !Fresh()
      ensures optarg == None && optopt == old(optopt) && longind == old(longind) && flags == old(flags)
      ensures ordering == old(Mode(syntax0, posixlyCorrect)) && syntax == old(Effective(syntax0))
      ensures ordering == PERMUTE ==> syntax == syntax0 && Outlook(argv, syntax) == old(View(argv, syntax0))
      ensures ordering != PERMUTE ==>
                Plan(argv, syntax, syntax0) == old(ViewInPlace(argv, syntax0, Mode(syntax0, posixlyCorrect) == RETURN_IN_ORDER))
    {
      hide PermutedFrom, OrderedFrom, FirstThen;
      optarg := None;
      syntax := syntax0;
      if optind == 0 || !initialized {
        var stripped := Begin(argv, syntax.optstring, posixlyCorrect);
        syntax := syntax.(optstring := stripped);
        NothingSeenYet(PermutedRest(syntax, argv[optind..], nextchar));
      } else {
        FirstThenSame(syntax, ordering == RETURN_IN_ORDER, argv[optind..], nextchar);
      }
    }

    // ----- the caller's loop -----

    /** A whole scan in PERMUTE mode: calls until -1 and collects what the calls hand out. The
        arguments end up stably partitioned, the options first, and `optind` at the first operand. */
    method ScanPermuting(argv: array<CString>, syntax: Syntax)
      returns (codes: seq<int>, args: seq<Option<CString>>, ghost events: seq<Event>)
      requires Fresh() && Ready(argv)
      requires Plain(syntax) && NoMinusOne(syntax) && OrderingOf(syntax.optstring, false) == PERMUTE
      modifies argv, this
      ensures
        var from, p := old(From()), Permuted(syntax, old(argv[From()..]));
        && from <= argv.Length && argv[..] == old(argv[..From()]) + p.options + p.operands
        && optind == from + |p.options|
        && events == p.events
        && Reported(codes, args, events)
    {
      codes, args, events := [], [], [];
      ghost var from, whole := From(), View(argv, syntax);
      ghost var view := whole;
      ghost var over := false;
      while true
        invariant !over && Ready(argv) && Mode(syntax, false) == PERMUTE && Effective(syntax) == syntax
        invariant Origin() == from <= argv.Length && argv[..from] == old(argv[..From()])
        invariant Reported(codes, args, events)
        invariant view == View(argv, syntax) && Precede(events, whole, view)
        decreases |view.events|
      {
        ghost var ev;
        var code;
        code, over, ev := GetoptInternal(argv, syntax, false);
        if code == -1 {
          assert events + [] == events;
          ArgumentsFinished(argv[..], start, optind, options, operands);
          assert argv[..][..from] == argv[..from];
          return;
        }
        PrecedeStep(events, ev, whole, view, View(argv, syntax));
        view := View(argv, syntax);
        ReportedStep(codes, args, events, code, optarg, ev);
        codes, args, events := codes + [code], args + [optarg], events + [ev];
      }
    }

    /** A whole scan in REQUIRE_ORDER or RETURN_IN_ORDER mode, whatever chose it: the arguments stay as
        they are. If a prefix of the option string chose it, all calls but the first see that prefix. */
    method ScanInOrder(argv: array<CString>, syntax: Syntax, posixlyCorrect: bool)
      returns (codes: seq<int>, args: seq<Option<CString>>, ghost events: seq<Event>)
      requires Fresh() && Ready(argv)
      requires Plain(syntax) && NoMinusOne(syntax) && OrderingOf(syntax.optstring, posixlyCorrect) != PERMUTE
      modifies argv, this
      ensures argv[..] == old(argv[..])
      ensures
        var from, inOrder := old(From()), OrderingOf(syntax.optstring, posixlyCorrect) == RETURN_IN_ORDER;
        var stripped := syntax.(optstring := Stripped(syntax.optstring));
        var p := FirstThen(stripped, syntax, inOrder, old(argv[From()..]), "");
        (events, optind) == (p.0, from + p.1)
      ensures Reported(codes, args, events)
    {
      hide FirstThen, OrderedRest, Decode;
      codes, args, events := [], [], [];
      StrippedIsPlain(syntax);
      ghost var mode := OrderingOf(syntax.optstring, posixlyCorrect);
      ghost var whole := ViewInPlace(argv, syntax, mode == RETURN_IN_ORDER);
      assert [] + whole.0 == whole.0;
      ghost var view := whole;
      ghost var over := false;
      while true
        invariant !over && Ready(argv) && Mode(syntax, posixlyCorrect) == mode && Plain(Effective(syntax))
        invariant argv[..] == old(argv[..])
        invariant Reported(codes, args, events)
        invariant view == ViewInPlace(argv, syntax, mode == RETURN_IN_ORDER) && whole == (events + view.0, view.1)
        decreases |view.0|
      {
        ghost var ev;
        var code;
        code, over, ev := GetoptInternal(argv, syntax, posixlyCorrect);
        if code == -1 {
          assert events + [] == events;
          return;
        }
        CatAssoc(events, [ev], Prospect(argv, syntax).0);
        view := ViewInPlace(argv, syntax, mode == RETURN_IN_ORDER);
        ReportedStep(codes, args, events, code, optarg, ev);
        codes, args, events := codes + [code], args + [optarg], events + [ev];
      }
    }

    /** Dropping the prefix brings in no `W;`. */
    static lemma StrippedIsPlain(syntax: Syntax)
      requires Plain(syntax)
      ensures Plain(syntax.(optstring := Stripped(syntax.optstring)))
    {
      var s := Stripped(syntax.optstring);
      if s != syntax.optstring {
        assert syntax.optstring == [syntax.optstring[0]] + s;
        OtherLetter(syntax.optstring[0], s, 'W');
      }
    }
  }

  lemma NothingSeenYet(p: Scan)
    ensures Scan(p.events, [] + p.options, [] + p.operands) == p
  {
  }

  lemma ReportedStep(codes: seq<int>, args: seq<Option<CString>>, events: seq<Event>, code: int, arg: Option<CString>, ev: Event)
    requires Reported(codes, args, events) && code == ev.code && arg == ev.optarg
    ensures Reported(codes + [code], args + [arg], events + [ev])
  {
  }

  /** Outlook `a` is these events and then outlook `b`. */
  predicate Precede(events: seq<Event>, a: Scan, b: Scan) {
    a == Scan(events + b.events, b.options, b.operands)
  }

  lemma PrecedeStep(events: seq<Event>, ev: Event, a: Scan, b: Scan, c: Scan)
    requires Precede(events, a, b) && Precedes(ev, b, c)
    ensures Precede(events + [ev], a, c)
  {
    CatAssoc(events, [ev], c.events);
  }

  lemma ArgumentsFinished(s: seq<CString>, start: nat, optind: nat, options: seq<CString>, operands: seq<CString>)
    requires start + |options| == optind <= |s| && s[start..optind] == options && s[optind..] == operands
    ensures s == s[..start] + options + operands
  {
  }

  /** Codes and `optarg` values as the events say. */
  predicate Reported(codes: seq<int>, args: seq<Option<CString>>, events: seq<Event>) {
    && |codes| == |args| == |events|
    && forall i :: 0 <= i < |events| ==> codes[i] == events[i].code && args[i] == events[i].optarg
  }

  /** Outlook `a` is event `ev` and then outlook `b`. */
  predicate Precedes(ev: Event, a: Scan, b: Scan) {
    a == Scan([ev] + b.events, b.options, b.operands)
  }

  /** An element that is done moves from what is to come to what has been seen. */
  lemma MoveTaken(options: seq<CString>, operands: seq<CString>, taken: seq<CString>, ev: Event, p: Scan, r: Scan)
    requires p == Scan([ev] + r.events, taken + r.options, r.operands)
    ensures Precedes(ev, Scan(p.events, options + p.options, operands + p.operands),
                     Scan(r.events, (options + taken) + r.options, operands + r.operands))
  {
    CatAssoc(options, taken, r.options);
  }

  lemma TakenSlices<T>(s: seq<T>, last: nat, from: nat, to: nat)
    requires last <= from <= to <= |s|
    ensures s[last..from] + s[from..to] == s[last..to]
    ensures s[from..][..to - from] == s[from..to] && s[from..][to - from..] == s[to..]
  {
  }

  /** Operands that were skipped move from what is to come to what has been seen. */
  lemma LeadingOutlook(syntax: Syntax, options: seq<CString>, operands: seq<CString>, skipped: seq<CString>, rest: seq<CString>)
    requires AllOperands(skipped)
    ensures
      var p, r := Permuted(syntax, skipped + rest), Permuted(syntax, rest);
      && p.events == r.events && p.options == r.options
      && operands + p.operands == (operands + skipped) + r.operands
  {
    LeadingOperands(syntax, skipped, rest);
  }

  lemma JoinSlices<T>(s: seq<T>, lo: nat, mid: nat, hi: nat)
    requires lo <= mid <= hi <= |s|
    ensures s[lo..mid] + s[mid..hi] == s[lo..hi]
  {
  }

  lemma PassedOver<T>(s: seq<T>, first: nat, from: nat, to: nat)
    requires first <= from <= to <= |s|
    ensures s[from..] == s[from..to] + s[to..] && s[first..from] + s[from..to] == s[first..to]
  {
  }

  /** Where the blocks are after an exchange. */
  lemma RotatedSlices<T>(s: seq<T>, start: nat, lo: nat, mid: nat, hi: nat)
    requires start <= lo <= mid <= hi <= |s|
    ensures
      var t, m := Rotated(s, lo, mid, hi), lo + (hi - mid);
      && t[start..m] == s[start..lo] + s[mid..hi] && t[m..hi] == s[lo..mid]
      && t[..start] == s[..start] && t[hi..] == s[hi..]
  {
  }
}
