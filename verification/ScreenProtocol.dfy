/** The text screen shared by two threads: the emulated machine writes VRAM bytes and palette
    entries, the timeout handler copies changed rows into the RGB buffer. Every access that the
    source does not lock is a step of its own. */
module ScreenProtocol {
  import opened TextPixels

  /** One VRAM row: a byte column for each plane. */
  type Row = seq<seq<Byte>>

  /** Where the timeout handler is. `all` says that this pass redraws every row. */
  datatype Pc =
    | Idle
    | Testing(y: int, all: bool)
    | Clearing(y: int, all: bool)
    | TakingPalette(y: int, all: bool)
    | Fetching(y: int, all: bool, colors: seq<int>, x: int, packs: seq<Byte>)
    | Emitting(y: int, all: bool, colors: seq<int>, x: int, packs: seq<Byte>)

  datatype State = State(
    vram: seq<Row>,
    palette: seq<int>,
    modified: bool,
    marks: seq<bool>,
    unmarked: set<int>,
    rgb: seq<seq<int>>,
    counter: int,
    pc: Pc)

  predicate WellFormed(s: State) {
    && |s.vram| == VRAM_ROWS
    && (forall y :: 0 <= y < VRAM_ROWS ==> |s.vram[y]| == PLANES && forall k :: 0 <= k < PLANES ==> |s.vram[y][k]| == ROW_SIZE)
    && |s.palette| == 16 && |s.marks| == VRAM_ROWS
    && |s.rgb| == HEIGHT && (forall y :: 0 <= y < HEIGHT ==> |s.rgb[y]| == WIDTH)
    && 1 <= s.counter <= SCREEN_CHECK_INTERVAL
    && match s.pc
       case Idle => true
       case Testing(y, _) => 0 <= y <= HEIGHT
       case Clearing(y, _) => 0 <= y < HEIGHT
       case TakingPalette(y, _) => 0 <= y < HEIGHT
       case Fetching(y, _, colors, x, packs) => 0 <= y < HEIGHT && 0 <= x < WIDTH && |packs| < PLANES && |colors| == 16
       case Emitting(y, _, colors, x, packs) => 0 <= y < HEIGHT && 0 <= x < WIDTH && |packs| == PLANES && |colors| == 16
  }

  function Packs(row: Row, x: int): seq<Byte>
    requires |row| == PLANES && forall k :: 0 <= k < PLANES ==> |row[k]| == ROW_SIZE
    requires 0 <= x < 8 * ROW_SIZE
  {
    [row[0][x / 8], row[1][x / 8], row[2][x / 8], row[3][x / 8]]
  }

  /** The colour a pixel of a row should have. */
  function Rendered(row: Row, colors: seq<int>, x: int): int
    requires |row| == PLANES && forall k :: 0 <= k < PLANES ==> |row[k]| == ROW_SIZE
    requires |colors| == 16 && 0 <= x < 8 * ROW_SIZE
  {
    colors[Index(Packs(row, x), x % 8)]
  }

  // ----- steps of the machine -----

  datatype Write =
    | WriteByte(plane: int, y: int, column: int, value: Byte)
    | MarkRow(y: int)
    | WritePalette(i: int, color: int)

  /** VRAM is written first and its row marked afterwards; `unmarked` holds the rows in between. A
      palette entry and its flag change together, under the palette's lock. */
  function Written(s: State, w: Write): State
    requires WellFormed(s)
  {
    match w
    case WriteByte(plane, y, column, value) =>
      if 0 <= plane < PLANES && 0 <= y < VRAM_ROWS && 0 <= column < ROW_SIZE then
        s.(vram := s.vram[y := s.vram[y][plane := s.vram[y][plane][column := value]]], unmarked := s.unmarked + {y})
      else s
    case MarkRow(y) =>
      if 0 <= y < VRAM_ROWS then s.(marks := s.marks[y := true], unmarked := s.unmarked - {y}) else s
    case WritePalette(i, color) =>
      if 0 <= i < 16 && s.palette[i] != color then s.(palette := s.palette[i := color], modified := true) else s
  }

  // ----- steps of the timeout handler -----

  function NextRow(s: State, y: int, all: bool): State {
    s.(pc := Testing(y + 1, all))
  }

  function TimerStep(s: State): State
    requires WellFormed(s)
  {
    match s.pc
    case Idle =>
      if s.counter == 1 then s.(counter := SCREEN_CHECK_INTERVAL, modified := false, pc := Testing(0, s.modified))
      else s.(counter := s.counter - 1, pc := Testing(0, false))
    case Testing(y, all) =>
      if y == HEIGHT then s.(pc := Idle)
      else if s.marks[y] then s.(pc := Clearing(y, all))
      else if all then s.(pc := TakingPalette(y, all))
      else NextRow(s, y, all)
    case Clearing(y, all) => s.(marks := s.marks[y := false], pc := TakingPalette(y, all))
    case TakingPalette(y, all) => s.(pc := Fetching(y, all, s.palette, 0, []))
    case Fetching(y, all, colors, x, packs) =>
      var got := packs + [s.vram[y][|packs|][x / 8]];
      s.(pc := if |got| == PLANES then Emitting(y, all, colors, x, got) else Fetching(y, all, colors, x, got))
    case Emitting(y, all, colors, x, packs) =>
      var t := s.(rgb := s.rgb[y := s.rgb[y][x := colors[Index(packs, x % 8)]]]);
      if x + 1 == WIDTH then NextRow(t, y, all)
      else if (x + 1) % 8 == 0 then t.(pc := Fetching(y, all, colors, x + 1, []))
      else t.(pc := Emitting(y, all, colors, x + 1, packs))
  }

  // ----- runs -----

  datatype Action = Timer | Machine(write: Write)

  function Next(s: State, a: Action): State
    requires WellFormed(s)
  {
    match a
    case Timer => TimerStep(s)
    case Machine(w) => Written(s, w)
  }

  /** Just connected: nothing has been drawn, every row of the screen is marked. */
  predicate Init(s: State) {
    && WellFormed(s) && s.pc == Idle && s.unmarked == {}
    && forall y :: 0 <= y < HEIGHT ==> s.marks[y]
  }

  /** Any interleaving of the two threads. */
  ghost predicate Reachable(s: State, actions: seq<Action>, t: State)
    decreases |actions|
  {
    if actions == [] then s == t
    else WellFormed(s) && Reachable(Next(s, actions[0]), actions[1..], t)
  }

  // ----- the invariant -----

  /** The handler is copying row `y`, or still has to copy it in this pass. */
  predicate InWork(pc: Pc, y: int) {
    match pc
    case Idle => false
    case Testing(y0, all) => all && y0 <= y
    case Clearing(y0, all) => y0 == y || (all && y0 <= y)
    case TakingPalette(y0, all) => y0 == y || (all && y0 <= y)
    case Fetching(y0, all, _, _, _) => y0 == y || (all && y0 <= y)
    case Emitting(y0, all, _, _, _) => y0 == y || (all && y0 <= y)
  }

  predicate Shown(s: State, y: int)
    requires WellFormed(s) && 0 <= y < HEIGHT
  {
    forall x :: 0 <= x < WIDTH ==> s.rgb[y][x] == Rendered(s.vram[y], s.palette, x)
  }

  /** No change to row `y` of VRAM is on its way: it is neither marked nor about to be. */
  predicate Settled(s: State, y: int)
    requires WellFormed(s) && 0 <= y < VRAM_ROWS
  {
    !s.marks[y] && y !in s.unmarked
  }

  /** No update is ever lost. */
  predicate Safe(s: State)
    requires WellFormed(s)
  {
    forall y :: 0 <= y < HEIGHT && Settled(s, y) && !s.modified && !InWork(s.pc, y) ==> Shown(s, y)
  }

  /** The part of the current row already copied, and the bytes already fetched, are up to date. */
  predicate Copying(s: State)
    requires WellFormed(s)
  {
    (s.pc.Fetching? || s.pc.Emitting?) ==>
      var y, x := s.pc.y, s.pc.x;
      && (!s.modified ==> s.pc.colors == s.palette)
      && (Settled(s, y) ==>
            && (forall i :: 0 <= i < x ==> s.rgb[y][i] == Rendered(s.vram[y], s.pc.colors, i))
            && (forall k :: 0 <= k < |s.pc.packs| ==> s.pc.packs[k] == s.vram[y][k][x / 8]))
  }

  predicate Inv(s: State) {
    WellFormed(s) && Safe(s) && Copying(s)
  }

  lemma InitInv(s: State)
    requires Init(s)
    ensures Inv(s)
  {
  }

  lemma MachineKeepsInv(s: State, w: Write)
    requires Inv(s)
    ensures Inv(Written(s, w))
  {
  }

  lemma FetchKeepsInv(s: State)
    requires Inv(s) && s.pc.Fetching?
    ensures Inv(TimerStep(s))
  {
    var t := TimerStep(s);
    var y, x, got := s.pc.y, s.pc.x, t.pc.packs;
    assert Settled(s, y) ==> forall k :: 0 <= k < |got| ==> got[k] == s.vram[y][k][x / 8];
    forall z | 0 <= z < HEIGHT && Settled(t, z) && !t.modified && !InWork(t.pc, z)
      ensures Shown(t, z)
    {
      assert Shown(s, z);
    }
  }

  /** The pixel copied is the one that should be shown. */
  lemma EmittedPixel(s: State)
    requires Inv(s) && s.pc.Emitting? && Settled(s, s.pc.y)
    ensures
      var y, x := s.pc.y, s.pc.x;
      s.pc.colors[Index(s.pc.packs, x % 8)] == Rendered(s.vram[y], s.pc.colors, x)
  {
    assert s.pc.packs == Packs(s.vram[s.pc.y], s.pc.x);
  }

  /** What emitting a pixel changes. */
  lemma EmitChanges(s: State)
    requires WellFormed(s) && s.pc.Emitting?
    ensures
      var t, y, x := TimerStep(s), s.pc.y, s.pc.x;
      && WellFormed(t)
      && t == s.(rgb := t.rgb, pc := t.pc)
      && (forall z :: 0 <= z < HEIGHT && z != y ==> t.rgb[z] == s.rgb[z])
      && (forall i :: 0 <= i < WIDTH && i != x ==> t.rgb[y][i] == s.rgb[y][i])
      && t.rgb[y][x] == s.pc.colors[Index(s.pc.packs, x % 8)]
      && ((t.pc == Testing(y + 1, s.pc.all) && x + 1 == WIDTH)
          || t.pc == Fetching(y, s.pc.all, s.pc.colors, x + 1, [])
          || (t.pc == Emitting(y, s.pc.all, s.pc.colors, x + 1, s.pc.packs) && (x + 1) / 8 == x / 8))
  {
  }

  /** Emitting keeps the copied part of the row up to date. */
  lemma EmittedSoFar(s: State)
    requires Inv(s) && s.pc.Emitting? && Settled(s, s.pc.y)
    ensures WellFormed(TimerStep(s))
    ensures
      var t := TimerStep(s);
      forall i :: 0 <= i <= s.pc.x ==> t.rgb[s.pc.y][i] == Rendered(s.vram[s.pc.y], s.pc.colors, i)
  {
    EmitChanges(s);
    EmittedPixel(s);
  }

  lemma EmitSafe(s: State, z: int)
    requires Inv(s) && s.pc.Emitting? && 0 <= z < HEIGHT
    requires WellFormed(TimerStep(s))
    requires var t := TimerStep(s); Settled(t, z) && !t.modified && !InWork(t.pc, z)
    ensures Shown(TimerStep(s), z)
  {
    EmitChanges(s);
    if z == s.pc.y {
      EmittedSoFar(s);
    } else {
      assert Shown(s, z);
    }
  }

  lemma EmitKeepsInv(s: State)
    requires Inv(s) && s.pc.Emitting?
    ensures Inv(TimerStep(s))
  {
    EmitChanges(s);
    var t := TimerStep(s);
    forall z | 0 <= z < HEIGHT && Settled(t, z) && !t.modified && !InWork(t.pc, z)
      ensures Shown(t, z)
    {
      EmitSafe(s, z);
    }
    if Settled(s, s.pc.y) {
      EmittedSoFar(s);
    }
  }

  lemma TimerKeepsInv(s: State)
    requires Inv(s)
    ensures Inv(TimerStep(s))
  {
    if s.pc.Fetching? {
      FetchKeepsInv(s);
    } else if s.pc.Emitting? {
      EmitKeepsInv(s);
    } else {
      var t := TimerStep(s);
      forall z | 0 <= z < HEIGHT && Settled(t, z) && !t.modified && !InWork(t.pc, z)
        ensures Shown(t, z)
      {
        assert Settled(s, z) && !s.modified && !InWork(s.pc, z);
        assert Shown(s, z);
      }
    }
  }

  /** Whatever the interleaving, the invariant holds at every step. */
  lemma {:induction false} ReachableInv(s: State, actions: seq<Action>, t: State)
    requires Inv(s) && Reachable(s, actions, t)
    ensures Inv(t)
    decreases |actions|
  {
    if actions != [] {
      match actions[0] {
        case Timer => TimerKeepsInv(s);
        case Machine(w) => MachineKeepsInv(s, w);
      }
      ReachableInv(Next(s, actions[0]), actions[1..], t);
    }
  }

  /** No lost update: in every state of every run, a row with no change on its way and not being
      copied shows its VRAM contents in the current palette, unless a palette change is pending. */
  lemma NoLostUpdate(s: State, actions: seq<Action>, t: State, y: int)
    requires Init(s) && Reachable(s, actions, t)
    requires 0 <= y < HEIGHT
    ensures WellFormed(t)
    ensures Settled(t, y) && !t.modified && !InWork(t.pc, y) ==> Shown(t, y)
  {
    InitInv(s);
    ReachableInv(s, actions, t);
  }

  // ----- once the machine is quiet, the screen catches up -----

  /** Steps left in a pass. */
  function PassLeft(pc: Pc): nat {
    match pc
    case Idle => 0
    case Testing(y, _) => if y <= HEIGHT then (HEIGHT - y) * 10000 + 1 else 0
    case Clearing(y, _) => if y < HEIGHT then (HEIGHT - 1 - y) * 10000 + 9999 else 0
    case TakingPalette(y, _) => if y < HEIGHT then (HEIGHT - 1 - y) * 10000 + 9998 else 0
    case Fetching(y, _, _, x, packs) =>
      if y < HEIGHT && x < WIDTH && |packs| <= PLANES then (HEIGHT - 1 - y) * 10000 + 10 + (WIDTH - x) * 8 + (PLANES - |packs|) else 0
    case Emitting(y, _, _, x, _) =>
      if y < HEIGHT && x < WIDTH then (HEIGHT - 1 - y) * 10000 + 10 + (WIDTH - x) * 8 else 0
  }

  lemma PassAdvances(s: State)
    requires WellFormed(s) && s.pc != Idle
    ensures WellFormed(TimerStep(s)) && PassLeft(TimerStep(s).pc) < PassLeft(s.pc)
  {
  }

  /** The handler runs on by itself to the end of its pass. */
  function FinishPass(s: State): (t: State)
    requires WellFormed(s)
    ensures WellFormed(t) && t.pc == Idle
    decreases PassLeft(s.pc)
  {
    if s.pc == Idle then s
    else
      PassAdvances(s);
      FinishPass(TimerStep(s))
  }

  /** One whole timeout. */
  function Timeout(s: State): (t: State)
    requires WellFormed(s) && s.pc == Idle
    ensures WellFormed(t) && t.pc == Idle
  {
    FinishPass(TimerStep(s))
  }

  function Timeouts(s: State, n: nat): (t: State)
    requires WellFormed(s) && s.pc == Idle
    ensures WellFormed(t) && t.pc == Idle
    decreases n
  {
    if n == 0 then s else Timeouts(Timeout(s), n - 1)
  }

  /** Rows the pass has left behind are not marked any more. */
  predicate Behind(pc: Pc, y: int) {
    match pc
    case Idle => true
    case Testing(y0, _) => y < y0
    case Clearing(y0, _) => y < y0
    case TakingPalette(y0, _) => y <= y0
    case Fetching(y0, _, _, _, _) => y <= y0
    case Emitting(y0, _, _, _, _) => y <= y0
  }

  predicate Cleared(s: State)
    requires WellFormed(s)
  {
    forall y :: 0 <= y < HEIGHT && Behind(s.pc, y) ==> !s.marks[y]
  }

  lemma TimerClears(s: State)
    requires WellFormed(s) && s.pc != Idle && Cleared(s)
    ensures WellFormed(TimerStep(s)) && Cleared(TimerStep(s))
  {
    PassAdvances(s);
  }

  /** Within a pass the handler leaves everything but the marks and the RGB buffer alone. */
  lemma TimerFrame(s: State)
    requires WellFormed(s) && s.pc != Idle
    ensures
      var t := TimerStep(s);
      && t.vram == s.vram && t.palette == s.palette
      && t.modified == s.modified && t.unmarked == s.unmarked && t.counter == s.counter
  {
  }

  lemma {:induction false} PassClears(s: State)
    requires Inv(s)
    ensures
      var t := FinishPass(s);
      && Inv(t) && t.vram == s.vram && t.palette == s.palette
      && t.modified == s.modified && t.unmarked == s.unmarked && t.counter == s.counter
      && (Cleared(s) ==> Cleared(t))
    decreases PassLeft(s.pc)
  {
    if s.pc != Idle {
      TimerKeepsInv(s);
      PassAdvances(s);
      TimerFrame(s);
      if Cleared(s) {
        TimerClears(s);
      }
      PassClears(TimerStep(s));
    }
  }

  lemma OneTimeout(s: State)
    requires Inv(s) && s.pc == Idle
    ensures
      var t := Timeout(s);
      && Inv(t) && Cleared(t) && t.vram == s.vram && t.palette == s.palette && t.unmarked == s.unmarked
      && t.counter == (if s.counter == 1 then SCREEN_CHECK_INTERVAL else s.counter - 1)
      && t.modified == (s.modified && s.counter != 1)
  {
    TimerKeepsInv(s);
    PassClears(TimerStep(s));
  }

  // ----- what one undisturbed timeout does -----

  /** The pass has dealt with a pixel. */
  predicate Passed(pc: Pc, y: int, x: int) {
    match pc
    case Idle => true
    case Testing(y0, _) => y < y0
    case Clearing(y0, _) => y < y0
    case TakingPalette(y0, _) => y < y0
    case Fetching(y0, _, _, x0, _) => y < y0 || (y == y0 && x < x0)
    case Emitting(y0, _, _, x0, _) => y < y0 || (y == y0 && x < x0)
  }

  /** Rows that a pass has decided to copy are marked, or all are copied. */
  predicate Justified(s: State, s0: State)
    requires WellFormed(s) && WellFormed(s0)
  {
    match s.pc
    case Idle => true
    case Testing(_, _) => true
    case Clearing(y, all) => s0.marks[y]
    case TakingPalette(y, all) => s0.marks[y] || all
    case Fetching(y, all, colors, x, packs) =>
      && (s0.marks[y] || all) && colors == s0.palette
      && forall k :: 0 <= k < |packs| ==> packs[k] == s0.vram[y][k][x / 8]
    case Emitting(y, all, colors, x, packs) =>
      && (s0.marks[y] || all) && colors == s0.palette
      && forall k :: 0 <= k < |packs| ==> packs[k] == s0.vram[y][k][x / 8]
  }

  /** What an undisturbed pass over `s0` has done when it is in state `s`. */
  predicate PassedOver(s: State, s0: State, all: bool) {
    && WellFormed(s) && WellFormed(s0)
    && (s.pc == Idle || s.pc.all == all)
    && s.vram == s0.vram && s.palette == s0.palette
    && s.modified == s0.modified && s.unmarked == s0.unmarked && s.counter == s0.counter
    && (forall y :: 0 <= y < VRAM_ROWS ==> s.marks[y] == (s0.marks[y] && (y >= HEIGHT || !Behind(s.pc, y))))
    && (forall y, x :: 0 <= y < HEIGHT && 0 <= x < WIDTH ==>
          s.rgb[y][x] == if Passed(s.pc, y, x) && (s0.marks[y] || all) then Rendered(s0.vram[y], s0.palette, x) else s0.rgb[y][x])
    && Justified(s, s0)
  }

  lemma FetchGoesOn(s: State, s0: State, all: bool)
    requires PassedOver(s, s0, all) && s.pc.Fetching?
    ensures PassedOver(TimerStep(s), s0, all)
  {
    hide Rendered;
    PassAdvances(s);
  }

  /** The pixel emitted is the right one, and no other changes. */
  lemma EmittedRight(s: State, s0: State, all: bool)
    requires PassedOver(s, s0, all) && s.pc.Emitting?
    ensures WellFormed(TimerStep(s))
    ensures
      var t := TimerStep(s);
      forall y, x :: 0 <= y < HEIGHT && 0 <= x < WIDTH ==>
        t.rgb[y][x] == if y == s.pc.y && x == s.pc.x then Rendered(s0.vram[y], s0.palette, x) else s.rgb[y][x]
  {
    EmitChanges(s);
    assert s.pc.packs == Packs(s0.vram[s.pc.y], s.pc.x);
    assert s.pc.colors[Index(s.pc.packs, s.pc.x % 8)] == Rendered(s0.vram[s.pc.y], s0.palette, s.pc.x);
    hide TimerStep, Rendered, Packs, Index;
  }

  lemma EmitGoesOn(s: State, s0: State, all: bool)
    requires PassedOver(s, s0, all) && s.pc.Emitting?
    ensures PassedOver(TimerStep(s), s0, all)
  {
    hide TimerStep, Rendered, Packs, Index;
    EmitChanges(s);
    EmittedRight(s, s0, all);
  }

  lemma PassGoesOn(s: State, s0: State, all: bool)
    requires PassedOver(s, s0, all) && s.pc != Idle
    ensures PassedOver(TimerStep(s), s0, all)
  {
    if s.pc.Fetching? {
      FetchGoesOn(s, s0, all);
    } else if s.pc.Emitting? {
      EmitGoesOn(s, s0, all);
    } else {
      hide Rendered;
      PassAdvances(s);
    }
  }

  lemma {:induction false} PassEnds(s: State, s0: State, all: bool)
    requires PassedOver(s, s0, all)
    ensures PassedOver(FinishPass(s), s0, all)
    decreases PassLeft(s.pc)
  {
    if s.pc != Idle {
      PassAdvances(s);
      PassGoesOn(s, s0, all);
      PassEnds(TimerStep(s), s0, all);
    }
  }

  /** A timeout that the machine does not disturb copies the marked rows, or all rows if a due check
      finds the palette changed, and clears the marks of the screen's rows. */
  lemma TimeoutCopies(s: State)
    requires WellFormed(s) && s.pc == Idle
    ensures
      var t, all := Timeout(s), s.counter == 1 && s.modified;
      && t.vram == s.vram && t.palette == s.palette && t.unmarked == s.unmarked
      && t.counter == (if s.counter == 1 then SCREEN_CHECK_INTERVAL else s.counter - 1)
      && t.modified == (s.modified && s.counter != 1)
      && (forall y :: 0 <= y < VRAM_ROWS ==> t.marks[y] == (s.marks[y] && y >= HEIGHT))
      && (forall y, x :: 0 <= y < HEIGHT && 0 <= x < WIDTH ==>
            t.rgb[y][x] == if s.marks[y] || all then Rendered(s.vram[y], s.palette, x) else s.rgb[y][x])
  {
    PassEnds(TimerStep(s), TimerStep(s), s.counter == 1 && s.modified);
  }

  /** The whole screen is right. */
  predicate Current(s: State)
    requires WellFormed(s)
  {
    forall y :: 0 <= y < HEIGHT ==> Shown(s, y)
  }

  /** When the machine stops writing, the screen is right after as many timeouts as the check
      counter says, and it stays so. */
  lemma {:induction false} ScreenSettles(s: State, n: nat)
    requires Inv(s) && s.pc == Idle && s.unmarked == {} && n >= s.counter
    ensures Current(Timeouts(s, n))
    decreases n
  {
    OneTimeout(s);
    var t := Timeout(s);
    if s.counter == 1 {
      StaysCurrent(t, n - 1);
    } else {
      ScreenSettles(t, n - 1);
    }
  }

  lemma {:induction false} StaysCurrent(s: State, n: nat)
    requires Inv(s) && s.pc == Idle && s.unmarked == {} && Cleared(s) && !s.modified
    ensures Current(Timeouts(s, n))
    decreases n
  {
    if n > 0 {
      OneTimeout(s);
      StaysCurrent(Timeout(s), n - 1);
    }
  }

  /** The same from any moment of any run: if the machine writes nothing more, then after the pass
      under way and one full check interval the screen is right. */
  lemma QuietScreenSettles(s: State, actions: seq<Action>, t: State, n: nat)
    requires Init(s) && Reachable(s, actions, t) && t.unmarked == {}
    requires n >= SCREEN_CHECK_INTERVAL
    ensures WellFormed(t) && Current(Timeouts(FinishPass(t), n))
    ensures
      var e := Timeouts(FinishPass(t), n);
      e.vram == t.vram && e.palette == t.palette
  {
    InitInv(s);
    ReachableInv(s, actions, t);
    PassClears(t);
    ScreenSettles(FinishPass(t), n);
    TimeoutsFrame(FinishPass(t), n);
  }

  lemma {:induction false} TimeoutsFrame(s: State, n: nat)
    requires Inv(s) && s.pc == Idle
    ensures Timeouts(s, n).vram == s.vram && Timeouts(s, n).palette == s.palette
    decreases n
  {
    if n > 0 {
      OneTimeout(s);
      TimeoutsFrame(Timeout(s), n - 1);
    }
  }
}
