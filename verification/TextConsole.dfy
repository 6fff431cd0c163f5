/** The text console: a stream of character codes, of which some are halves of double-byte
    characters, drawn on a screen of 96 by 31 cells. */
module TextConsole {

  const COLUMNS := 96
  const ROWS := 31

  // ----- characters -----

  predicate Control(code: nat) { code <= 0x1f || code == 0x7f }

  predicate Lead(code: nat) { 0x80 <= code <= 0x9f || 0xe0 <= code <= 0xff }

  /** What a code is once it is paired with a lead byte before it. */
  datatype Item = Command(code: nat) | First(code: nat) | Character(code: nat)

  /** The item a code makes after the lead byte `saved`, or after none if that is 0. */
  function ItemOf(saved: nat, code: nat): Item {
    if Control(code) then Command(code)
    else
      var full := if saved != 0 && code <= 0xff then saved * 0x100 + code else code;
      if Lead(full) then First(full) else Character(full)
  }

  function SavedAfter(saved: nat, code: nat): nat {
    match ItemOf(saved, code)
    case First(c) => c
    case _ => 0
  }

  function Items(saved: nat, codes: seq<nat>): seq<Item>
    decreases |codes|
  {
    if codes == [] then [] else [ItemOf(saved, codes[0])] + Items(SavedAfter(saved, codes[0]), codes[1..])
  }

  // ----- an endless page -----

  /** A place on a page without a last line. */
  datatype Place = Place(column: nat, line: nat)

  datatype Cell = Cell(at: Place, code: nat)

  function Width(code: nat): nat { if code >= 0x100 then 2 else 1 }

  /** A character goes to the next line if it does not fit on this one; a cursor that has left the
      line on the right stays there. */
  function PlaceFor(p: Place, width: nat): Place {
    if p.column <= COLUMNS < p.column + width then Place(0, p.line + 1) else p
  }

  /** Where the cursor is after an item. */
  function After(p: Place, item: Item): Place {
    match item
    case Command(0x09) => Place(p.column / 8 * 8 + 8, p.line)
    case Command(0x0a) => Place(p.column, p.line + 1)
    case Command(0x0d) => Place(0, p.line)
    case Command(_) => p
    case First(_) => PlaceFor(p, 1)
    case Character(c) => var q := PlaceFor(p, Width(c)); Place(q.column + Width(c), q.line)
  }

  function Drawn(p: Place, item: Item): seq<Cell> {
    match item
    case Character(c) => [Cell(PlaceFor(p, Width(c)), c)]
    case _ => []
  }

  function Layout(p: Place, items: seq<Item>): seq<Cell>
    decreases |items|
  {
    if items == [] then [] else Drawn(p, items[0]) + Layout(After(p, items[0]), items[1..])
  }

  function End(p: Place, items: seq<Item>): Place
    decreases |items|
  {
    if items == [] then p else End(After(p, items[0]), items[1..])
  }

  /** No tab arrives right of the last column. */
  predicate NoTabAtEdge(p: Place, items: seq<Item>)
    decreases |items|
  {
    items == [] || (!(items[0] == Command(0x09) && p.column == COLUMNS) && NoTabAtEdge(After(p, items[0]), items[1..]))
  }

  /** All cells of a page lie in its 96 columns if no tab arrives at its edge. */
  lemma {:induction false} LayoutStaysInColumns(p: Place, items: seq<Item>)
    requires p.column <= COLUMNS && NoTabAtEdge(p, items)
    ensures forall c :: c in Layout(p, items) ==> c.at.column + Width(c.code) <= COLUMNS
    decreases |items|
  {
    if items != [] {
      LayoutStaysInColumns(After(p, items[0]), items[1..]);
    }
  }

  /** The cursor stays within the page's columns exactly if no tab arrives at the edge. */
  lemma {:induction false} EdgeIsLeftByTabs(p: Place, items: seq<Item>)
    requires p.column <= COLUMNS
    ensures NoTabAtEdge(p, items) <==> forall k :: 0 <= k <= |items| ==> End(p, items[..k]).column <= COLUMNS
    decreases |items|
  {
    if items != [] {
      var q := After(p, items[0]);
      assert End(p, items[..1]) == q by {
        assert items[..1][1..] == [];
      }
      if q.column <= COLUMNS {
        EdgeIsLeftByTabs(q, items[1..]);
        forall k | 0 <= k <= |items|
          ensures k > 0 ==> End(p, items[..k]) == End(q, items[1..][..k - 1])
        {
          assert k > 0 ==> items[..k][1..] == items[1..][..k - 1];
        }
        assert forall k :: 0 <= k <= |items[1..]| ==> End(q, items[1..][..k]) == End(p, items[..k + 1]);
      }
    }
  }

  /** For instance a tab right of the last column moves the cursor to column 104. */
  lemma TabExample()
    ensures After(Place(96, 0), Command(0x09)) == Place(104, 0) && !NoTabAtEdge(Place(96, 0), [Command(0x09)])
    ensures Drawn(Place(104, 0), Character(0x41)) == [Cell(Place(104, 0), 0x41)]
  {
  }

  // ----- the page, code by code -----

  /** A tab goes to the next multiple of eight, a line feed down in the same column, a carriage return to the
      start of the line; other control codes do nothing. None draws anything, and each forgets a lead byte. */
  lemma ControlCodes(saved: nat, p: Place, code: nat)
    requires code <= 0x1f || code == 0x7f
    ensures SavedAfter(saved, code) == 0 && Drawn(p, ItemOf(saved, code)) == []
    ensures
      var q := After(p, ItemOf(saved, code));
      if code == 9 then q == Place(p.column - p.column % 8 + 8, p.line)
      else if code == 10 then q == Place(p.column, p.line + 1)
      else if code == 13 then q == Place(0, p.line)
      else q == p
  {
  }

  /** A single-byte character is drawn at the cursor, which moves right by one; from column 96 it goes to the
      next line first. */
  lemma SingleByte(p: Place, code: nat)
    requires 0x20 <= code <= 0x7e || 0xa0 <= code <= 0xdf
    ensures SavedAfter(0, code) == 0
    ensures
      var q := if p.column == 96 then Place(0, p.line + 1) else p;
      Drawn(p, ItemOf(0, code)) == [Cell(q, code)] && After(p, ItemOf(0, code)) == Place(q.column + 1, q.line)
  {
  }

  /** A lead byte is kept and draws nothing; only at column 96 it goes to the next line. */
  lemma LeadByte(p: Place, code: nat)
    requires 0x80 <= code <= 0x9f || 0xe0 <= code <= 0xff
    ensures SavedAfter(0, code) == code && Drawn(p, ItemOf(0, code)) == []
    ensures After(p, ItemOf(0, code)) == if p.column == 96 then Place(0, p.line + 1) else p
  {
  }

  /** A byte behind a lead byte makes a character two columns wide, and so does a code above 255 by itself; in
      the last column or behind it that goes to the next line. */
  lemma DoubleByte(saved: nat, p: Place, code: nat)
    requires (0 < saved <= 0xff && 0x20 <= code <= 0xff && code != 0x7f) || 0x100 <= code
    ensures SavedAfter(saved, code) == 0
    ensures
      var q := if p.column == 95 || p.column == 96 then Place(0, p.line + 1) else p;
      && Drawn(p, ItemOf(saved, code)) == [Cell(q, if code <= 0xff then 256 * saved + code else code)]
      && After(p, ItemOf(saved, code)) == Place(q.column + 2, q.line)
  {
  }

  // ----- the screen -----

  datatype Action = DrawChar(x: nat, y: nat, code: nat) | Scroll

  function Scrolls(trace: seq<Action>): nat {
    if trace == [] then 0 else Scrolls(trace[..|trace| - 1]) + if trace[|trace| - 1] == Scroll then 1 else 0
  }

  /** Where on the page the drawn characters end up: each scroll before a character is drawn moved
      the screen one line down the page. */
  function OnPage(trace: seq<Action>): seq<Cell> {
    if trace == [] then []
    else
      var before := trace[..|trace| - 1];
      match trace[|trace| - 1]
      case DrawChar(x, y, code) => OnPage(before) + [Cell(Place(x, y + Scrolls(before)), code)]
      case Scroll => OnPage(before)
  }

  lemma OnPageStep(trace: seq<Action>, a: Action)
    ensures Scrolls(trace + [a]) == Scrolls(trace) + if a == Scroll then 1 else 0
    ensures OnPage(trace + [a]) == OnPage(trace) +
      match a { case DrawChar(x, y, code) => [Cell(Place(x, y + Scrolls(trace)), code)] case Scroll => [] }
  {
    assert (trace + [a])[..|trace|] == trace;
  }

  predicate OnScreen(a: Action) {
    a.DrawChar? ==> a.x + Width(a.code) <= COLUMNS && a.y < ROWS
  }

  class Console {
    var curx: nat
    var cury: nat
    var savedByte1: nat

    /** What was done to the screen. */
    var trace: seq<Action>

    constructor ()
      ensures curx == cury == savedByte1 == 0 && trace == []
    {
      curx, cury, savedByte1, trace := 0, 0, 0, [];
    }

    predicate Valid()
      reads this
    {
      cury < ROWS && savedByte1 <= 0xff
    }

    /** The cursor on the page. */
    function At(): Place
      reads this
    {
      Place(curx, cury + Scrolls(trace))
    }

    /** A line feed, or the scroll that stands for it on the last line. */
    method NextLine()
      requires cury < ROWS
      modifies this`cury, this`trace
      ensures cury < ROWS && OnPage(trace) == OnPage(old(trace)) && cury + Scrolls(trace) == old(cury) + Scrolls(old(trace)) + 1
      ensures cury >= old(cury) && Scrolls(trace) >= Scrolls(old(trace)) && (Scrolls(trace) > Scrolls(old(trace)) ==> cury == ROWS - 1)
      ensures old(trace) <= trace && forall i :: |old(trace)| <= i < |trace| ==> OnScreen(trace[i])
      ensures if old(cury) == 30 then cury == 30 && trace == old(trace) + [Scroll] else cury == old(cury) + 1 && trace == old(trace)
    {
      cury := cury + 1;
      if cury == ROWS {
        cury := cury - 1;
        OnPageStep(trace, Scroll);
        trace := trace + [Scroll];
      }
    }

    /** Goes to the next line if a character does not fit on this one. */
    method Wrap(code: nat)
      requires cury < ROWS
      modifies this`curx, this`cury, this`trace
      ensures At() == PlaceFor(old(At()), Width(code)) && cury < ROWS
      ensures OnPage(trace) == OnPage(old(trace))
      ensures cury >= old(cury) && Scrolls(trace) >= Scrolls(old(trace)) && (Scrolls(trace) > Scrolls(old(trace)) ==> cury == ROWS - 1)
      ensures old(trace) <= trace && forall i :: |old(trace)| <= i < |trace| ==> OnScreen(trace[i])
    {
      if code >= 0x100 && curx + 1 == COLUMNS {
        curx := curx + 1;
      }
      if curx == COLUMNS {
        curx := 0;
        NextLine();
      }
    }

    method Draw(code: nat)
      requires cury < ROWS
      modifies this`curx, this`trace
      ensures trace == old(trace) + [DrawChar(old(curx), cury, code)]
      ensures old(curx) + Width(code) <= COLUMNS ==> OnScreen(trace[|trace| - 1])
      ensures OnPage(trace) == OnPage(old(trace)) + [Cell(old(At()), code)] && Scrolls(trace) == Scrolls(old(trace))
      ensures curx == old(curx) + Width(code)
    {
      OnPageStep(trace, DrawChar(curx, cury, code));
      trace := trace + [DrawChar(curx, cury, code)];
      curx := curx + 1;
      if code >= 0x100 {
        curx := curx + 1;
      }
    }

    /** One code does to the page what it should, and scrolls only on the last line. Only a tab right
        of the last column leaves the screen. */
    method BPutc(code0: nat)
      requires Valid() && code0 <= 0xffff
      modifies this
      ensures Valid()
      ensures old(curx) <= COLUMNS ==> (curx <= COLUMNS <==> !(code0 == 0x09 && old(curx) == COLUMNS))
      ensures savedByte1 == SavedAfter(old(savedByte1), code0)
      ensures old(trace) <= trace && (old(curx) <= COLUMNS ==> forall i :: |old(trace)| <= i < |trace| ==> OnScreen(trace[i]))
      ensures
        var item := ItemOf(old(savedByte1), code0);
        At() == After(old(At()), item) && OnPage(trace) == OnPage(old(trace)) + Drawn(old(At()), item)
      ensures cury >= old(cury) && Scrolls(trace) >= Scrolls(old(trace)) && (Scrolls(trace) > Scrolls(old(trace)) ==> cury == ROWS - 1)
    {
      hide Scrolls, OnPage, OnScreen;
      var code := code0;
      if code <= 0x1f || code == 0x7f {
        savedByte1 := 0;
        if code == 0x09 {
          curx := (curx + 8) / 8 * 8;
        } else if code == 0x0a {
          NextLine();
        } else if code == 0x0d {
          curx := 0;
        }
      } else {
        if savedByte1 != 0 {
          if code <= 0xff {
            code := code + savedByte1 * 0x100;
          }
          savedByte1 := 0;
        }
        Wrap(code);
        if 0x80 <= code <= 0x9f || 0xe0 <= code <= 0xff {
          savedByte1 := code;
        } else {
          Draw(code);
        }
      }
    }

    /** A string, byte by byte: the page gets its characters in order, the screen is scrolled once for
        each line past its last, and nothing is drawn outside it unless a tab arrives at its edge. */
    method BPrint(str: seq<nat>)
      requires Valid() && forall i :: 0 <= i < |str| ==> str[i] <= 0xff
      modifies this
      ensures Valid()
      ensures
        var items := Items(old(savedByte1), str);
        At() == End(old(At()), items) && OnPage(trace) == OnPage(old(trace)) + Layout(old(At()), items)
      ensures old(curx) <= COLUMNS && NoTabAtEdge(old(At()), Items(old(savedByte1), str)) ==>
        curx <= COLUMNS && old(trace) <= trace && forall i :: |old(trace)| <= i < |trace| ==> OnScreen(trace[i])
      ensures
        var last := old(cury) + At().line - old(At()).line;
        if last < ROWS then cury == last && Scrolls(trace) == Scrolls(old(trace))
        else cury == ROWS - 1 && Scrolls(trace) == Scrolls(old(trace)) + last - (ROWS - 1)
    {
      hide Scrolls, OnPage, OnScreen, SavedAfter, After, Drawn;
      ghost var items := Items(savedByte1, str);
      ghost var start := At();
      ghost var inside := curx <= COLUMNS && NoTabAtEdge(start, items);
      var i := 0;
      assert str[i..] == str;
      assert OnPage(trace) + Layout(start, items) == OnPage(trace) + Layout(At(), Items(savedByte1, str[i..]));
      while i < |str|
        invariant 0 <= i <= |str| && Valid()
        invariant inside ==> curx <= COLUMNS && NoTabAtEdge(At(), Items(savedByte1, str[i..]))
        invariant End(At(), Items(savedByte1, str[i..])) == End(start, items)
        invariant OnPage(trace) + Layout(At(), Items(savedByte1, str[i..])) == OnPage(old(trace)) + Layout(start, items)
        invariant old(trace) <= trace && (inside ==> forall i :: |old(trace)| <= i < |trace| ==> OnScreen(trace[i]))
        invariant cury >= old(cury) && Scrolls(trace) >= Scrolls(old(trace)) && (Scrolls(trace) > Scrolls(old(trace)) ==> cury == ROWS - 1)
      {
        ghost var rest := Items(savedByte1, str[i..]);
        ghost var p, drawn := At(), OnPage(trace);
        assert str[i..][1..] == str[i + 1..];
        BPutc(str[i]);
        i := i + 1;
        assert rest[1..] == Items(savedByte1, str[i..]);
        assert OnPage(trace) + Layout(At(), rest[1..]) == drawn + Layout(p, rest);
      }
      assert str[i..] == [];
    }
  }

  // ----- text -----

  /** A character that some bytes stand for: one byte, or a lead byte and another. */
  predicate Encodable(c: nat) {
    if c <= 0xff then !Control(c) && !Lead(c) else c <= 0xffff && Lead(c / 0x100) && !Control(c % 0x100)
  }

  function Encoded(text: seq<nat>): seq<nat> {
    if text == [] then []
    else (if text[0] <= 0xff then [text[0]] else [text[0] / 0x100, text[0] % 0x100]) + Encoded(text[1..])
  }

  function Characters(items: seq<Item>): seq<nat> {
    if items == [] then []
    else (if items[0].Character? then [items[0].code] else []) + Characters(items[1..])
  }

  /** Reading the bytes of a text gives its characters. */
  lemma {:induction false} EncodedIsRead(text: seq<nat>)
    requires forall c :: c in text ==> Encodable(c)
    ensures Characters(Items(0, Encoded(text))) == text
  {
    if text != [] {
      var c, e := text[0], Encoded(text[1..]);
      EncodedIsRead(text[1..]);
      assert Encodable(c);
      if c <= 0xff {
        assert Encoded(text)[1..] == e;
      } else {
        var b := Encoded(text);
        assert b == [c / 0x100, c % 0x100] + e && b[1..][1..] == e;
        var items := Items(0, b);
        assert items == [First(c / 0x100)] + Items(c / 0x100, b[1..]);
        assert items[1..] == [Character(c)] + Items(0, e);
        assert items[1..][1..] == Items(0, e);
      }
    }
  }
}
