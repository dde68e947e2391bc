/**
 * The boot loader's ANSI/ECMA-48 terminal (boot/term/ansi.c).
 *
 * `ansi_putchar` takes one byte at a time. In the default state it interprets C0 controls and
 * draws printable bytes; ESC starts an escape sequence, ESC [ a control sequence (CSI) whose
 * numeric parameters accumulate until a final byte selects a cursor motion, an erase, a scroll
 * or a graphic rendition (SGR). Drawing, erasing and scrolling are calls to routines outside this
 * file; the model records them, in order, as screen operations.
 */
module AnsiTerm {
  import opened Common

  const BEL: Byte := 0x07
  const BS: Byte := 0x08
  const HT: Byte := 0x09
  const LF: Byte := 0x0A
  const VT: Byte := 0x0B
  const FF: Byte := 0x0C
  const CR: Byte := 0x0D
  const ESC: Byte := 0x1B
  const DEL: Byte := 0x7F

  /** The number of CSI parameters `escape_seq_args` holds. */
  const MAX_ARGS: nat := 8

  /** The eight parameter slots, cleared. */
  const NO_ARGS: seq<nat> := [0, 0, 0, 0, 0, 0, 0, 0]

  /** `enum ansi_escape_state`. */
  datatype EscState = Default | Esc | Ss2 | Ss3 | Dcs | Csi | St | Osc | Sos | Pm | Apc

  /** `handle_esc`: the state the byte after ESC selects. */
  function AfterEsc(ch: Byte): (r: EscState)
    ensures r != Esc
    ensures r == Csi <==> ch == '[' as int
    ensures r == Default <==> ch !in {'N' as int, 'O' as int, 'P' as int, '[' as int, '\\' as int, ']' as int, 'X' as int, '^' as int, '_' as int}
  {
    if ch == 'N' as int then Ss2
    else if ch == 'O' as int then Ss3
    else if ch == 'P' as int then Dcs
    else if ch == '[' as int then Csi
    else if ch == '\\' as int then St
    else if ch == ']' as int then Osc
    else if ch == 'X' as int then Sos
    else if ch == '^' as int then Pm
    else if ch == '_' as int then Apc
    else Default
  }

  /** `char` is signed on i686: bytes from 0x80 are negative. */
  function SignedChar(ch: Byte): (r: int)
    ensures -128 <= r < 128
    ensures r < 0 <==> ch >= 0x80
  {
    if ch < 0x80 then ch else ch - 256
  }

  /** A cursor position, in cells. */
  datatype Cursor = Cursor(x: int, y: int)

  /** The calls made to the drawing routines outside this file. */
  datatype ScreenOp =
    | Draw(ch: Byte, at: Cursor)           // term_putchar at the cursor
    | Erase(x0: int, y0: int, x1: int, y1: int)  // term_erase of an inclusive rectangle
    | Scroll(n: int)                         // term_scroll of the whole screen by n rows

  /** The rendition state that SGR changes. */
  datatype Attrs = Attrs(
    fg: nat, bg: nat, blink: nat,
    bold: bool, dim: bool, italic: bool, underline: bool, strike: bool, overlined: bool, reversed: bool)

  /** One of the six levels of the 6x6x6 colour cube. */
  function Level(j: nat): (r: nat)
    requires j < 6
    ensures r < 256
  {
    if j == 0 then 0 else 0x37 + 0x28 * j
  }

  /** The 16 RGBI colours that open `palette`. */
  function Rgbi(i: nat): (r: nat)
    requires i < 16
    ensures r < 0x100_0000
  {
    match i
      case 0 => 0x000000 case 1 => 0xAA0000 case 2 => 0x00AA00 case 3 => 0xAA5500
      case 4 => 0x0000AA case 5 => 0xAA00AA case 6 => 0x00AAAA case 7 => 0xAAAAAA
      case 8 => 0x555555 case 9 => 0xFF5555 case 10 => 0x55FF55 case 11 => 0xFFFF55
      case 12 => 0x5555FF case 13 => 0xFF55FF case 14 => 0x55FFFF case _ => 0xFFFFFF
  }

  /**
   * Entry i of the 256-entry `palette`: the 16 RGBI colours, then the 6x6x6 cube with blue
   * varying fastest, then 24 greys from 0x080808 in steps of 0x0A0A0A.
   */
  function Palette(i: nat): (r: nat)
    requires i < 256
    ensures r < 0x100_0000
  {
    if i < 16 then Rgbi(i)
    else if i < 232 then
      var k := i - 16;
      Level(k / 36) * 0x10000 + Level(k / 6 % 6) * 0x100 + Level(k % 6)
    else (8 + 10 * (i - 232)) * 0x10101
  }

  /** Spot checks of the formula against the table: the cube's corners and both ends of the grey ramp. */
  lemma PaletteEntries()
    ensures Palette(0) == 0x000000 && Palette(7) == 0xAAAAAA && Palette(15) == 0xFFFFFF
    ensures Palette(16) == 0x000000 && Palette(17) == 0x00005F && Palette(52) == 0x5F0000
    ensures Palette(231) == 0xFFFFFF && Palette(232) == 0x080808 && Palette(255) == 0xEEEEEE
  {
  }

  /** `(r << 16) | (g << 8) | b` with each component first cut to a `uint8_t`. */
  function Pack(r: nat, g: nat, b: nat): (c: nat)
    ensures c < 0x100_0000
    ensures c / 0x10000 == r % 256 && (c / 0x100) % 256 == g % 256 && c % 256 == b % 256
  {
    (r % 256) * 0x10000 + (g % 256) * 0x100 + b % 256
  }

  /** The colour an SGR 38 or 48 sequence selects. */
  datatype Colour = Keep | Set(rgb: nat) | PastPalette(index: nat)

  /** `38;5;n` picks palette entry n, `38;2;r;g;b` packs a colour; too few parameters change nothing. */
  function ExtendedColour(args: seq<nat>, count: nat): (c: Colour)
    requires |args| == MAX_ARGS
    ensures c.Set? ==> c.rgb < 0x100_0000
    ensures c.PastPalette? <==> 3 <= count && args[1] == 5 && args[2] >= 256
  {
    if count < 2 then Keep
    else if args[1] == 5 then
      if count < 3 then Keep
      else if args[2] < 256 then Set(Palette(args[2]))
      else PastPalette(args[2])
    else if args[1] == 2 then
      if count < 5 then Keep else Set(Pack(args[2], args[3], args[4]))
    else Keep
  }

  function Paint(old_: nat, c: Colour): nat
  {
    if c.Set? then c.rgb else old_
  }

  /** The first parameter, or `dflt` when the sequence has none. */
  function Arg0(args: seq<nat>, count: nat, dflt: nat): (r: nat)
    requires |args| == MAX_ARGS
    ensures count == 0 ==> r == dflt
    ensures count > 0 ==> r == args[0]
  {
    if count < 1 then dflt else args[0]
  }

  /** The rendition after SGR 0: default colours, no blink, no emphasis and no reverse video. */
  function Plain(a: Attrs): Attrs
  {
    Attrs(Palette(15), Palette(0), 0, false, false, false, false, false, false, false)
  }

  /**
   * `handle_sgr` for its only parameter that counts, the first: 0 resets, 1-9 switch an effect
   * on, 22-29 off, 30-37/90-97 and 40-47/100-107 pick palette colours, 38/48 extended colours,
   * 39/49 default colours and 53/55 the overline. A palette index from 256 up is ignored.
   */
  function Sgr(a: Attrs, args: seq<nat>, count: nat): (r: Attrs)
    requires |args| == MAX_ARGS
    ensures Arg0(args, count, 0) == 0 ==> r == Plain(a)
    ensures 30 <= Arg0(args, count, 0) <= 37 ==> r == a.(fg := Palette(Arg0(args, count, 0) - 30))
    ensures 40 <= Arg0(args, count, 0) <= 47 ==> r == a.(bg := Palette(Arg0(args, count, 0) - 40))
    ensures r.fg < 0x100_0000 || r.fg == a.fg
    ensures r.bg < 0x100_0000 || r.bg == a.bg
  {
    var option := Arg0(args, count, 0);
    if option == 0 then Plain(a)
    else if option == 1 then a.(bold := true)
    else if option == 2 then a.(dim := true)
    else if option == 3 then a.(italic := true)
    else if option == 4 then a.(underline := true)
    else if option == 5 then a.(blink := 1)
    else if option == 6 then a.(blink := 2)
    else if option == 7 then a.(reversed := true)
    else if option == 8 then a.(blink := 3)
    else if option == 9 then a.(strike := true)
    else if option == 22 then a.(bold := false, dim := false)
    else if option == 23 then a.(italic := false)
    else if option == 24 then a.(underline := false)
    else if option == 25 || option == 28 then a.(blink := 0)
    else if option == 27 then a.(reversed := false)
    else if option == 29 then a.(strike := false)
    else if 30 <= option <= 37 then a.(fg := Palette(option - 30))
    else if option == 38 then a.(fg := Paint(a.fg, ExtendedColour(args, count)))
    else if option == 39 then a.(fg := Palette(7))
    else if 40 <= option <= 47 then a.(bg := Palette(option - 40))
    else if option == 48 then a.(bg := Paint(a.bg, ExtendedColour(args, count)))
    else if option == 49 then a.(bg := Palette(0))
    else if option == 53 then a.(overlined := true)
    else if option == 55 then a.(overlined := false)
    else if 90 <= option <= 97 then a.(fg := Palette(option - 90 + 8))
    else if 100 <= option <= 107 then a.(bg := Palette(option - 100 + 8))
    else a
  }

  /**
   * `handle_sgr` as written: SGR 0 leaves reverse video on, and `38;5;n` / `48;5;n` with n from
   * 256 read past the palette (no defined result).
   */
  function SgrAsWritten(a: Attrs, args: seq<nat>, count: nat): (r: Option<Attrs>)
    requires |args| == MAX_ARGS
  {
    var option := Arg0(args, count, 0);
    if (option == 38 || option == 48) && ExtendedColour(args, count).PastPalette? then None
    else if option == 0 then Some(Plain(a).(reversed := a.reversed))
    else Some(Sgr(a, args, count))
  }

  /** As written, `ESC [ 0 m` after `ESC [ 7 m` keeps the reverse video on. */
  lemma ResetKeepsReverse(a: Attrs, args: seq<nat>)
    requires |args| == MAX_ARGS && a.reversed
    ensures SgrAsWritten(a, args, 0) == Some(Plain(a).(reversed := true))
    ensures !Sgr(a, args, 0).reversed
  {
  }

  /** As written, `ESC [ 38 ; 5 ; 300 m` indexes the 256-entry palette at 300. */
  lemma PaletteOverrun(a: Attrs, args: seq<nat>)
    requires |args| == MAX_ARGS && args[0] == 38 && args[1] == 5 && args[2] == 300
    ensures SgrAsWritten(a, args, 3) == None
    ensures Sgr(a, args, 3) == a
  {
  }

  /** `38;2;r;g;b` sets the foreground to r, g and b packed as bytes. */
  lemma SgrTrueColour(a: Attrs, args: seq<nat>)
    requires |args| == MAX_ARGS && args[0] == 38 && args[1] == 2
    ensures Sgr(a, args, 5).fg == Pack(args[2], args[3], args[4])
    ensures Sgr(a, args, 5) == a.(fg := Pack(args[2], args[3], args[4]))
  {
  }

  /** The cursor motions of the CSI final bytes A-H and f, as written. */
  function MoveAsWritten(final: Byte, c: Cursor, w: int, h: int, args: seq<nat>, count: nat): (r: Cursor)
    requires |args| == MAX_ARGS
    ensures OnScreen(c, w, h) ==> 0 <= r.x && 0 <= r.y
    ensures OnScreen(c, w, h) && 'A' as int <= final <= 'F' as int ==> r.x <= w && r.y <= h
    ensures final == 'B' as int ==> r.x == c.x && r.y <= c.y + Arg0(args, count, 1)
    ensures final == 'C' as int ==> r.y == c.y && r.x <= c.x + Arg0(args, count, 1)
  {
    var n := Arg0(args, count, 1);
    if final == 'A' as int then Cursor(c.x, c.y - Min(n, c.y))
    else if final == 'B' as int then Cursor(c.x, c.y + Min(n, h - c.y))
    else if final == 'C' as int then Cursor(c.x + Min(n, w - c.x), c.y)
    else if final == 'D' as int then Cursor(c.x - Min(n, c.x), c.y)
    else if final == 'E' as int then Cursor(0, c.y + Min(n, h - c.y))
    else if final == 'F' as int then Cursor(0, c.y - Min(n, c.y))
    else if final == 'G' as int then Cursor(Max(n - 1, 0), c.y)
    else Cursor(Max(Arg(args, count, 1) - 1, 0), Max(n - 1, 0))
  }

  function Min(a: int, b: int): int { if a < b then a else b }
  function Max(a: int, b: int): int { if a < b then b else a }

  /** Parameter k (0-based), defaulting to 1 when fewer than k+1 were given. */
  function Arg(args: seq<nat>, count: nat, k: nat): (r: nat)
    requires |args| == MAX_ARGS && k < MAX_ARGS
    ensures count <= k ==> r == 1
  {
    if count < k + 1 then 1 else args[k]
  }

  /** Is the cell on the screen? */
  predicate OnScreen(c: Cursor, w: int, h: int)
  {
    0 <= c.x < w && 0 <= c.y < h
  }

  /** As written, CUD, CUF and CUP can leave the cursor off the screen (here a 80x25 screen). */
  lemma CursorLeavesScreen(args: seq<nat>)
    requires |args| == MAX_ARGS && args[0] == 99 && args[1] == 99
    ensures MoveAsWritten('B' as int, Cursor(0, 24), 80, 25, args, 0) == Cursor(0, 25)
    ensures MoveAsWritten('C' as int, Cursor(79, 0), 80, 25, args, 0) == Cursor(80, 0)
    ensures MoveAsWritten('H' as int, Cursor(0, 0), 80, 25, args, 2) == Cursor(98, 98)
    ensures !OnScreen(Cursor(0, 25), 80, 25) && !OnScreen(Cursor(80, 0), 80, 25)
  {
  }

  /**
   * The cursor motions as the handlers mean them: up and back stop at 0, down and forward at the
   * last row and column, and absolute positions (1-based) are clamped into the screen.
   */
  function Move(final: Byte, c: Cursor, w: int, h: int, args: seq<nat>, count: nat): (r: Cursor)
    requires |args| == MAX_ARGS && OnScreen(c, w, h)
    ensures OnScreen(r, w, h)
    ensures final == 'A' as int ==> r == Cursor(c.x, Max(c.y - Arg0(args, count, 1), 0))
    ensures final == 'B' as int ==> r == Cursor(c.x, Min(c.y + Arg0(args, count, 1), h - 1))
    ensures final == 'C' as int ==> r == Cursor(Min(c.x + Arg0(args, count, 1), w - 1), c.y)
    ensures final == 'D' as int ==> r == Cursor(Max(c.x - Arg0(args, count, 1), 0), c.y)
  {
    var n := Arg0(args, count, 1);
    if final == 'A' as int then Cursor(c.x, c.y - Min(n, c.y))
    else if final == 'B' as int then Cursor(c.x, c.y + Min(n, h - 1 - c.y))
    else if final == 'C' as int then Cursor(c.x + Min(n, w - 1 - c.x), c.y)
    else if final == 'D' as int then Cursor(c.x - Min(n, c.x), c.y)
    else if final == 'E' as int then Cursor(0, c.y + Min(n, h - 1 - c.y))
    else if final == 'F' as int then Cursor(0, c.y - Min(n, c.y))
    else if final == 'G' as int then Cursor(Clamp(n - 1, w), c.y)
    else Cursor(Clamp(Arg(args, count, 1) - 1, w), Clamp(n - 1, h))
  }

  /** 0-based position v limited to 0..limit-1. */
  function Clamp(v: int, limit: int): (r: int)
    requires limit >= 1
    ensures 0 <= r < limit
    ensures 0 <= v < limit ==> r == v
  {
    if v < 0 then 0 else if v >= limit then limit - 1 else v
  }

  /** Inside the screen the two agree; they differ only where the written code leaves it. */
  lemma MoveAgrees(final: Byte, c: Cursor, w: int, h: int, args: seq<nat>, count: nat)
    requires |args| == MAX_ARGS && OnScreen(c, w, h)
    requires OnScreen(MoveAsWritten(final, c, w, h, args, count), w, h)
    ensures Move(final, c, w, h, args, count) == MoveAsWritten(final, c, w, h, args, count)
  {
  }

  /** Is cell (i, j) inside one of the erased rectangles? */
  predicate Erased(ops: seq<ScreenOp>, i: int, j: int)
  {
    exists k :: 0 <= k < |ops| && ops[k].Erase? && ops[k].x0 <= i <= ops[k].x1 && ops[k].y0 <= j <= ops[k].y1
  }

  /** `handle_ed` as written: options 0 and 1 test the wrong coordinate before erasing the other rows. */
  function EdAsWritten(option: nat, c: Cursor, w: int, h: int): seq<ScreenOp>
  {
    if option == 0 then
      [Erase(c.x, c.y, w - 1, c.y)] + (if c.y < h - 1 then [] else [Erase(0, c.y + 1, w - 1, h - 1)])
    else if option == 1 then
      [Erase(0, c.y, c.x, c.y)] + (if c.x > 0 then [] else [Erase(0, 0, w - 1, c.y - 1)])
    else if option == 2 || option == 3 then [Erase(0, 0, w - 1, h - 1)]
    else []
  }

  /** As written, ED 0 on the top row of a 80x25 screen leaves the row below it untouched. */
  lemma EdKeepsRowsBelow()
    ensures !Erased(EdAsWritten(0, Cursor(0, 0), 80, 25), 0, 1)
  {
  }

  /**
   * As written, ED 1 away from the first column of row 3 leaves the rows above untouched: the test
   * meant for the row looks at the column.
   */
  lemma EdKeepsRowsAbove()
    ensures !Erased(EdAsWritten(1, Cursor(5, 3), 80, 25), 0, 0)
  {
  }

  /** ED (erase in display): 0 from the cursor to the end, 1 from the start to the cursor, 2 and 3 everything. */
  function Ed(option: nat, c: Cursor, w: int, h: int): (r: seq<ScreenOp>)
    requires OnScreen(c, w, h)
    ensures forall k :: 0 <= k < |r| ==> r[k].Erase?
  {
    if option == 0 then
      [Erase(c.x, c.y, w - 1, c.y)] + (if c.y >= h - 1 then [] else [Erase(0, c.y + 1, w - 1, h - 1)])
    else if option == 1 then
      [Erase(0, c.y, c.x, c.y)] + (if c.y < 1 then [] else [Erase(0, 0, w - 1, c.y - 1)])
    else if option == 2 || option == 3 then [Erase(0, 0, w - 1, h - 1)]
    else []
  }

  /** The cells ED erases, in reading order relative to the cursor. */
  lemma EdErasesCells(option: nat, c: Cursor, w: int, h: int, i: int, j: int)
    requires OnScreen(c, w, h) && OnScreen(Cursor(i, j), w, h)
    ensures option == 0 ==> (Erased(Ed(option, c, w, h), i, j) <==> j > c.y || (j == c.y && i >= c.x))
    ensures option == 1 ==> (Erased(Ed(option, c, w, h), i, j) <==> j < c.y || (j == c.y && i <= c.x))
    ensures option == 2 || option == 3 ==> Erased(Ed(option, c, w, h), i, j)
    ensures option > 3 ==> !Erased(Ed(option, c, w, h), i, j)
  {
    var r := Ed(option, c, w, h);
    if option == 0 && (j > c.y || (j == c.y && i >= c.x)) {
      if j == c.y { assert r[0].Erase?; } else { assert r[1].Erase?; }
    } else if option == 1 && (j < c.y || (j == c.y && i <= c.x)) {
      if j == c.y { assert r[0].Erase?; } else { assert r[1].Erase?; }
    } else if option == 2 || option == 3 {
      assert r[0].Erase?;
    }
  }

  /** EL (erase in line): 0 from the cursor to the end of the row, 1 from its start to the cursor; others nothing. */
  function El(option: nat, c: Cursor, w: int): seq<ScreenOp>
  {
    if option == 0 then [Erase(c.x, c.y, w - 1, c.y)]
    else if option == 1 then [Erase(0, c.y, c.x, c.y)]
    else []
  }

  /** The cells EL erases: only cells of the cursor's row, on the cursor's side that the option names. */
  lemma ElErasesCells(option: nat, c: Cursor, w: int, h: int, i: int, j: int)
    requires OnScreen(c, w, h) && OnScreen(Cursor(i, j), w, h)
    ensures option == 0 ==> (Erased(El(option, c, w), i, j) <==> j == c.y && i >= c.x)
    ensures option == 1 ==> (Erased(El(option, c, w), i, j) <==> j == c.y && i <= c.x)
    ensures option > 1 ==> !Erased(El(option, c, w), i, j)
  {
    var r := El(option, c, w);
    if option <= 1 && j == c.y && (if option == 0 then i >= c.x else i <= c.x) {
      assert r[0].Erase?;
    }
  }

  /** Everything `ansi_putchar` reads and writes in `struct ansi_state`, as a value. */
  datatype Term = Term(
    cursor: Cursor, width: int, height: int, saved: Cursor,
    esc: EscState, args: seq<nat>, argCount: nat, numberInput: bool,
    attrs: Attrs, cursorVisible: bool, ops: seq<ScreenOp>)

  /**
   * The terminal invariant: a non-empty screen, the cursor and the saved cursor on it, eight
   * parameter slots with at most eight in use, and a number being read only inside a parameter.
   */
  predicate Good(t: Term)
  {
    Sane(t) && (t.numberInput ==> t.argCount >= 1)
  }

  /** The terminal invariant less the cursor: what the written code keeps even once the cursor is off the screen. */
  predicate Framed(t: Term)
  {
    1 <= t.width && 1 <= t.height && OnScreen(t.saved, t.width, t.height) &&
    |t.args| == MAX_ARGS && t.argCount <= MAX_ARGS
  }

  /**
   * A state the written code can start from: framed, with the cursor on the screen, but the
   * number flag left over from whatever the structure held.
   */
  predicate Sane(t: Term)
  {
    Framed(t) && OnScreen(t.cursor, t.width, t.height)
  }

  /** `ansi_init_state` with the escape state, the number flag and reverse video also cleared. */
  function Init(w: int, h: int): (t: Term)
    requires 1 <= w && 1 <= h
    ensures Good(t) && t.esc == Default && t.cursor == Cursor(0, 0) && t.ops == []
  {
    Term(Cursor(0, 0), w, h, Cursor(0, 0), Default, NO_ARGS, 0, false,
      Attrs(0xffffff, 0x000000, 0, false, false, false, false, false, false, false), true, [])
  }

  /**
   * `ansi_init_state` as written: the escape state, the number flag, reverse video and the
   * parameter slots keep whatever the (stack-allocated) structure held before.
   */
  function InitAsWritten(w: int, h: int, leftover: EscState, args: seq<nat>, numberInput: bool, reversed: bool): (t: Term)
    requires 1 <= w && 1 <= h && |args| == MAX_ARGS
    ensures Sane(t) && t.cursor == Cursor(0, 0) && t.ops == []
    ensures !numberInput ==> Good(t)
  {
    Term(Cursor(0, 0), w, h, Cursor(0, 0), leftover, args, 0, numberInput,
      Attrs(0xffffff, 0x000000, 0, false, false, false, false, false, false, reversed), true, [])
  }


  /** A new row below the cursor: down one, scrolling the screen up at the bottom row. */
  function LineFeed(t: Term): (r: Term)
    requires Sane(t)
    ensures Sane(r) && (Good(t) ==> Good(r)) && r.cursor.x == t.cursor.x
    ensures t.cursor.y < t.height - 1 ==> r == t.(cursor := Cursor(t.cursor.x, t.cursor.y + 1))
    ensures t.cursor.y == t.height - 1 ==> r == t.(ops := t.ops + [Scroll(1)])
  {
    if t.cursor.y + 1 < t.height then t.(cursor := Cursor(t.cursor.x, t.cursor.y + 1))
    else t.(ops := t.ops + [Scroll(1)])
  }

  /** A byte in the default state: C0 controls and DEL, or a character to draw. */
  function Control(t: Term, ch: Byte): (r: Term)
    requires Sane(t) && t.esc == Default
    ensures Sane(r) && (Good(t) ==> Good(r))
    ensures SignedChar(ch) >= 0x20 && ch != DEL ==>
      |r.ops| >= |t.ops| + 1 && r.ops[..|t.ops|] == t.ops && r.ops[|t.ops|] == Draw(ch, t.cursor)
  {
    if SignedChar(ch) >= 0x20 && ch != DEL then Print(t, ch) else C0(t, ch)
  }

  /** BEL, BS, HT, LF, VT, FF, CR, ESC and DEL; every other control byte, and every byte from 0x80, is ignored. */
  function C0(t: Term, ch: Byte): (r: Term)
    requires Sane(t) && t.esc == Default
    ensures Sane(r) && (Good(t) ==> Good(r))
  {
    var x, y := t.cursor.x, t.cursor.y;
    if ch == BS then
      if x < 1 then t else t.(cursor := Cursor(x - 1, y))
    else if ch == HT then
      if x + 8 < t.width then t.(cursor := Cursor(x + 8, y)) else CarriageLineFeed(t)
    else if ch == LF then CarriageLineFeed(t)
    else if ch == VT then LineFeed(t)
    else if ch == CR then t.(cursor := Cursor(0, y))
    else if ch == ESC then t.(esc := Esc)
    else if ch == DEL then
      if x < 1 then t else t.(cursor := Cursor(x - 1, y), ops := t.ops + [Erase(x - 1, y, x - 1, y)])
    else t
  }

  /** The start of the next row. */
  function CarriageLineFeed(t: Term): (r: Term)
    requires Sane(t)
    ensures Sane(r) && (Good(t) ==> Good(r)) && r == LineFeed(t).(cursor := Cursor(0, LineFeed(t).cursor.y))
  {
    var n := LineFeed(t);
    n.(cursor := Cursor(0, n.cursor.y))
  }

  /** Draw at the cursor, then advance it, wrapping to the next row after the last column. */
  function Print(t: Term, ch: Byte): (r: Term)
    requires Sane(t)
    ensures Sane(r) && (Good(t) ==> Good(r))
    ensures |r.ops| >= |t.ops| + 1 && r.ops[..|t.ops|] == t.ops && r.ops[|t.ops|] == Draw(ch, t.cursor)
  {
    var drawn := t.(ops := t.ops + [Draw(ch, t.cursor)]);
    if t.cursor.x + 1 < t.width then drawn.(cursor := Cursor(t.cursor.x + 1, t.cursor.y))
    else CarriageLineFeed(drawn)
  }

  /** A digit inside a CSI sequence: a ninth parameter is not started. */
  function Digit(t: Term, d: nat): (r: Term)
    requires Good(t) && d < 10
    ensures Good(r)
    ensures t.numberInput ==> r == t.(args := t.args[t.argCount - 1 := t.args[t.argCount - 1] * 10 + d])
    ensures !t.numberInput && t.argCount < MAX_ARGS ==>
      r == t.(argCount := t.argCount + 1, numberInput := true, args := t.args[t.argCount := t.args[t.argCount] * 10 + d])
  {
    if !t.numberInput && t.argCount >= MAX_ARGS then t
    else
      var count := if t.numberInput then t.argCount else t.argCount + 1;
      t.(argCount := count, numberInput := true, args := t.args[count - 1 := t.args[count - 1] * 10 + d])
  }

  /** As written, the slot a digit goes to: after eight parameters and a ';' it is index 8, past the array. */
  function DigitSlotAsWritten(argCount: nat, numberInput: bool): (slot: int)
    ensures !numberInput && argCount == MAX_ARGS ==> slot == MAX_ARGS
  {
    (if numberInput then argCount else argCount + 1) - 1
  }

  /** The CSI final bytes `handle_csi` acts on. */
  predicate Final(ch: Byte)
  {
    ch in {'A' as int, 'B' as int, 'C' as int, 'D' as int, 'E' as int, 'F' as int, 'G' as int, 'H' as int,
      'f' as int, 'J' as int, 'K' as int, 'S' as int, 'T' as int, 'm' as int, 'n' as int, 's' as int, 'u' as int}
  }

  /** A final byte: the action it selects; the caller returns to the default state. */
  function Act(t: Term, ch: Byte): (r: Term)
    requires Sane(t) && Final(ch)
    ensures Sane(r) && (Good(t) ==> Good(r))
  {
    var n: int := Arg0(t.args, t.argCount, 1);
    if ch == 'J' as int then t.(ops := t.ops + Ed(Arg0(t.args, t.argCount, 0), t.cursor, t.width, t.height))
    else if ch == 'K' as int then t.(ops := t.ops + El(Arg0(t.args, t.argCount, 0), t.cursor, t.width))
    else if ch == 'S' as int then t.(ops := t.ops + [Scroll(n)])
    else if ch == 'T' as int then t.(ops := t.ops + [Scroll(-n)])
    else if ch == 'm' as int then t.(attrs := Sgr(t.attrs, t.args, t.argCount))
    else if ch == 'n' as int then t
    else if ch == 's' as int then t.(saved := t.cursor)
    else if ch == 'u' as int then t.(cursor := t.saved)
    else t.(cursor := Move(ch, t.cursor, t.width, t.height, t.args, t.argCount))
  }

  /** `handle_csi`. */
  function CsiByte(t: Term, ch: Byte): (r: Term)
    requires Good(t) && t.esc == Csi
    ensures Good(r)
    ensures Final(ch) ==> r.esc == Default
    ensures '0' as int <= ch <= '9' as int || ch == ';' as int || ch == ':' as int ==> r.esc == Csi
  {
    if Final(ch) then Act(t, ch).(esc := Default)
    else if '0' as int <= ch <= '9' as int then Digit(t, ch - '0' as int)
    else if ch == ';' as int || ch == ':' as int then t.(numberInput := false)
    else t.(esc := Default)
  }

  /** `ansi_putchar`: one byte through the escape state machine, or the default-state handling. */
  function Feed(t: Term, ch: Byte): (r: Term)
    requires Good(t)
    ensures Good(r)
  {
    if t.esc == Esc then
      t.(args := NO_ARGS, argCount := 0, numberInput := false, esc := AfterEsc(ch))
    else if t.esc == Csi then CsiByte(t, ch)
    else if t.esc != Default then t.(esc := Default)
    else Control(t, ch)
  }

  /** ESC then '[' opens a control sequence with no parameters, whatever came before. */
  lemma EscBracketOpensCsi(t: Term)
    requires Good(t) && t.esc == Default
    ensures var r := Feed(Feed(t, ESC), '[' as int);
      r.esc == Csi && r.argCount == 0 && !r.numberInput && r.args == NO_ARGS && r.cursor == t.cursor
  {
  }

  /** Parameters: a digit extends the current one, ';' or ':' closes it so the next digit opens another. */
  lemma ParametersAccumulate(t: Term, d: nat, e: nat)
    requires Good(t) && t.esc == Csi && !t.numberInput && t.argCount + 1 < MAX_ARGS && d < 10 && e < 10
    ensures var r := Feed(Feed(Feed(t, '0' as int + d), ';' as int), '0' as int + e);
      r.argCount == t.argCount + 2 && r.args[t.argCount] == t.args[t.argCount] * 10 + d &&
      r.args[t.argCount + 1] == t.args[t.argCount + 1] * 10 + e && r.esc == Csi
  {
    var r1 := Feed(t, '0' as int + d);
    assert r1 == Digit(t, d);
    var r2 := Feed(r1, ';' as int);
    assert r2 == r1.(numberInput := false);
    assert Feed(r2, '0' as int + e) == Digit(r2, e);
  }

  /** A printable byte is drawn at the cursor, which moves right, wraps at the last column, and scrolls at the bottom. */
  lemma PrintableAdvances(t: Term, ch: Byte)
    requires Good(t) && t.esc == Default && 0x20 <= ch < DEL
    ensures var r := Feed(t, ch);
      r.ops[..|t.ops|] == t.ops && r.ops[|t.ops|] == Draw(ch, t.cursor) &&
      (t.cursor.x + 1 < t.width ==> r.cursor == Cursor(t.cursor.x + 1, t.cursor.y) && |r.ops| == |t.ops| + 1) &&
      (t.cursor.x + 1 == t.width && t.cursor.y + 1 < t.height ==> r.cursor == Cursor(0, t.cursor.y + 1)) &&
      (t.cursor.x + 1 == t.width && t.cursor.y + 1 == t.height ==>
        r.cursor == Cursor(0, t.cursor.y) && r.ops == t.ops + [Draw(ch, t.cursor), Scroll(1)])
  {
  }

  /** Bytes from 0x80 are negative `char`s and draw nothing. */
  lemma HighBytesIgnored(t: Term, ch: Byte)
    requires Good(t) && t.esc == Default && ch >= 0x80
    ensures Feed(t, ch) == t
  {
  }

  /** Any byte other than the nine introducers ends an escape sequence. */
  lemma EscOtherEnds(t: Term, ch: Byte)
    requires Good(t) && t.esc == Esc
    requires AfterEsc(ch) == Default
    ensures Feed(t, ch).esc == Default && Feed(t, ch).cursor == t.cursor && Feed(t, ch).ops == t.ops
  {
  }

  // ---------------------------------------------------------------------------------------------
  // The terminal as written

  /**
   * A digit inside a CSI sequence as written: a digit after a separator opens the next parameter
   * even past the eighth, and the digit goes to slot `count - 1`; a ninth parameter writes
   * `args[8]`, and a digit with the number flag left over from an uninitialised structure and no
   * parameter writes `args[-1]`, both outside the array.
   */
  function DigitAsWritten(t: Term, d: nat): (r: Option<Term>)
    requires Framed(t) && d < 10
    ensures r.None? <==> DigitSlotAsWritten(t.argCount, t.numberInput) !in {0, 1, 2, 3, 4, 5, 6, 7}
    ensures r.Some? ==> Framed(r.value) && r.value.cursor == t.cursor && r.value.ops == t.ops
  {
    var slot := DigitSlotAsWritten(t.argCount, t.numberInput);
    if slot < 0 || slot >= MAX_ARGS then None
    else Some(t.(argCount := slot + 1, numberInput := true, args := t.args[slot := t.args[slot] * 10 + d]))
  }

  /** A final byte as written: the moves may leave the screen, ED tests the wrong coordinate, SGR as written. */
  function ActAsWritten(t: Term, ch: Byte): (r: Option<Term>)
    requires Sane(t) && Final(ch)
    ensures r.Some? ==> Framed(r.value) && r.value.width == t.width && r.value.height == t.height
    ensures r.None? ==> ch == 'm' as int
  {
    if ch == 'J' as int then Some(t.(ops := t.ops + EdAsWritten(Arg0(t.args, t.argCount, 0), t.cursor, t.width, t.height)))
    else if ch == 'm' as int then
      match SgrAsWritten(t.attrs, t.args, t.argCount)
      case None => None
      case Some(a) => Some(t.(attrs := a))
    else if ch == 'A' as int || ch == 'B' as int || ch == 'C' as int || ch == 'D' as int || ch == 'E' as int ||
            ch == 'F' as int || ch == 'G' as int || ch == 'H' as int || ch == 'f' as int then
      Some(t.(cursor := MoveAsWritten(ch, t.cursor, t.width, t.height, t.args, t.argCount)))
    else Some(Act(t, ch))
  }

  /** `handle_csi` as written. */
  function CsiByteAsWritten(t: Term, ch: Byte): (r: Option<Term>)
    requires Sane(t) && t.esc == Csi
    ensures r.Some? ==> Framed(r.value) && r.value.width == t.width && r.value.height == t.height
  {
    if Final(ch) then
      match ActAsWritten(t, ch)
      case None => None
      case Some(n) => Some(n.(esc := Default))
    else if '0' as int <= ch <= '9' as int then DigitAsWritten(t, ch - '0' as int)
    else if ch == ';' as int || ch == ':' as int then Some(t.(numberInput := false))
    else Some(t.(esc := Default))
  }

  /**
   * `ansi_putchar` as written, from a state with the cursor on the screen: the resulting cursor
   * may be off it; None where a parameter or palette index falls outside its array.
   */
  function FeedAsWritten(t: Term, ch: Byte): (r: Option<Term>)
    requires Sane(t)
    ensures r.Some? ==> Framed(r.value) && r.value.width == t.width && r.value.height == t.height
    ensures r.None? ==> t.esc == Csi
  {
    if t.esc == Esc then
      Some(t.(args := NO_ARGS, argCount := 0, numberInput := false, esc := AfterEsc(ch)))
    else if t.esc == Csi then CsiByteAsWritten(t, ch)
    else if t.esc != Default then Some(t.(esc := Default))
    else Some(Control(t, ch))
  }

  /** Where a run of bytes through the written terminal ends. */
  datatype Outcome =
    | Ran(term: Term)          // every byte taken, the cursor on the screen throughout
    | LeftScreen(term: Term)   // the cursor left the screen; the bytes after that are not followed
    | Undefined                // an array was indexed outside its bounds

  /** `ansi_putchar` byte after byte, as written, until the cursor leaves the screen. */
  function RunAsWritten(t: Term, bytes: seq<Byte>): (o: Outcome)
    requires Sane(t)
    ensures o.Ran? ==> Sane(o.term)
    decreases |bytes|
  {
    if bytes == [] then Ran(t)
    else
      match FeedAsWritten(t, bytes[0])
      case None => Undefined
      case Some(n) => if OnScreen(n.cursor, n.width, n.height) then RunAsWritten(n, bytes[1..]) else LeftScreen(n)
  }

  /** `ansi_putchar` byte after byte as the handlers mean it. */
  function Run(t: Term, bytes: seq<Byte>): (r: Term)
    requires Good(t)
    ensures Good(r)
    decreases |bytes|
  {
    if bytes == [] then t else Run(Feed(t, bytes[0]), bytes[1..])
  }

  /**
   * Away from the defects the written terminal is the intended one: whenever a byte keeps the
   * cursor on the screen and is not an ED 0/1 or an SGR 0 with reverse video on, the two agree;
   * and the written code is undefined only for a ninth parameter or a palette index from 256.
   */
  lemma FeedAgrees(t: Term, ch: Byte)
    requires Good(t)
    requires t.esc == Csi && ch == 'J' as int ==> Arg0(t.args, t.argCount, 0) > 1
    requires t.esc == Csi && ch == 'm' as int && Arg0(t.args, t.argCount, 0) == 0 ==> !t.attrs.reversed
    ensures FeedAsWritten(t, ch).None? <==>
      (t.esc == Csi &&
       ((ch == 'm' as int && SgrAsWritten(t.attrs, t.args, t.argCount).None?) ||
        ('0' as int <= ch <= '9' as int && !t.numberInput && t.argCount == MAX_ARGS)))
    ensures var r := FeedAsWritten(t, ch);
      r.Some? && OnScreen(r.value.cursor, t.width, t.height) ==> r.value == Feed(t, ch)
  {
    if t.esc == Csi && Final(ch) {
      FinalAgrees(t, ch);
    }
  }

  /** FeedAgrees for a final byte of a control sequence. */
  lemma FinalAgrees(t: Term, ch: Byte)
    requires Good(t) && t.esc == Csi && Final(ch)
    requires ch == 'J' as int ==> Arg0(t.args, t.argCount, 0) > 1
    requires ch == 'm' as int && Arg0(t.args, t.argCount, 0) == 0 ==> !t.attrs.reversed
    ensures ActAsWritten(t, ch).None? <==> ch == 'm' as int && SgrAsWritten(t.attrs, t.args, t.argCount).None?
    ensures var r := ActAsWritten(t, ch);
      r.Some? && OnScreen(r.value.cursor, t.width, t.height) ==> r.value == Act(t, ch)
  {
    var r := ActAsWritten(t, ch);
    if ch in {'A' as int, 'B' as int, 'C' as int, 'D' as int, 'E' as int, 'F' as int, 'G' as int, 'H' as int, 'f' as int} {
      if OnScreen(r.value.cursor, t.width, t.height) {
        MoveAgrees(ch, t.cursor, t.width, t.height, t.args, t.argCount);
      }
    }
  }

  /** As written, a leftover CSI state makes the first byte printed, 'A', move the cursor instead of drawing. */
  lemma LeftoverStateSwallows(args: seq<nat>)
    requires |args| == MAX_ARGS
    ensures var o := RunAsWritten(InitAsWritten(80, 25, Csi, args, false, false), ['A' as int]);
      o.Ran? && o.term.ops == []
    ensures Run(Init(80, 25), ['A' as int]).ops == [Draw('A' as int, Cursor(0, 0))]
  {
  }

  /** As written, a leftover number flag makes the first parameter digit write before the parameter array. */
  lemma LeftoverNumberFlagUndefined(args: seq<nat>)
    requires |args| == MAX_ARGS
    ensures RunAsWritten(InitAsWritten(80, 25, Csi, args, true, false), ['1' as int]) == Undefined
  {
  }

  /** The state ESC '[' leads to from the default state: a control sequence with no parameters. */
  function Opened(t: Term): (r: Term)
    requires Good(t)
    ensures Good(r) && r.esc == Csi && r.argCount == 0 && !r.numberInput
  {
    t.(args := NO_ARGS, argCount := 0, numberInput := false, esc := Csi)
  }

  /** ESC '[' opens a control sequence in the written terminal and the intended one alike. */
  lemma OpenRun(t: Term, rest: seq<Byte>)
    requires Good(t) && t.esc == Default
    ensures RunAsWritten(t, [ESC, '[' as int] + rest) == RunAsWritten(Opened(t), rest)
    ensures Run(t, [ESC, '[' as int] + rest) == Run(Opened(t), rest)
  {
    var bytes := [ESC, '[' as int] + rest;
    var t1 := t.(esc := Esc);
    assert FeedAsWritten(t, ESC) == Some(t1) && Feed(t, ESC) == t1;
    assert FeedAsWritten(t1, '[' as int) == Some(Opened(t)) && Feed(t1, '[' as int) == Opened(t);
    assert bytes[0] == ESC && bytes[1..][0] == '[' as int && bytes[1..][1..] == rest;
  }

  /** A parameter digit, where a slot is left for it, goes the same way in both terminals. */
  lemma DigitRun(t: Term, d: nat, rest: seq<Byte>)
    requires Good(t) && t.esc == Csi && d < 10 && (t.numberInput || t.argCount < MAX_ARGS)
    ensures RunAsWritten(t, ['0' as int + d] + rest) == RunAsWritten(Digit(t, d), rest)
    ensures Run(t, ['0' as int + d] + rest) == Run(Digit(t, d), rest)
  {
    var bytes := ['0' as int + d] + rest;
    assert FeedAsWritten(t, '0' as int + d) == Some(Digit(t, d)) && Feed(t, '0' as int + d) == Digit(t, d);
    assert bytes[0] == '0' as int + d && bytes[1..] == rest;
  }

  /** As written, `ESC [ 9 9 B` on the bottom row moves the cursor below the screen; as meant, it stays. */
  lemma CursorDownLeavesScreen(t: Term)
    requires Good(t) && t.esc == Default && t.width == 80 && t.height == 25 && t.cursor == Cursor(0, 24)
    ensures RunAsWritten(t, [ESC, '[' as int, '9' as int, '9' as int, 'B' as int]).LeftScreen?
    ensures Run(t, [ESC, '[' as int, '9' as int, '9' as int, 'B' as int]).cursor == Cursor(0, 24)
  {
    var final := ['B' as int];
    var t2 := Opened(t);
    var t3 := Digit(t2, 9);
    var t4 := Digit(t3, 9);
    assert [ESC, '[' as int, '9' as int, '9' as int, 'B' as int] == [ESC, '[' as int] + (['9' as int] + (['9' as int] + final));
    OpenRun(t, ['9' as int] + (['9' as int] + final));
    DigitRun(t2, 9, ['9' as int] + final);
    DigitRun(t3, 9, final);
    assert t4.argCount == 1 && t4.args[0] == 99 && t4.cursor == Cursor(0, 24);
    CursorDownStep(t4);
  }

  /** The last byte of CursorDownLeavesScreen: 'B' with the parameter 99 on the bottom row. */
  lemma CursorDownStep(t: Term)
    requires Good(t) && t.esc == Csi && t.width == 80 && t.height == 25 && t.cursor == Cursor(0, 24)
    requires t.argCount == 1 && t.args[0] == 99
    ensures RunAsWritten(t, ['B' as int]).LeftScreen?
    ensures Run(t, ['B' as int]).cursor == Cursor(0, 24)
  {
    assert MoveAsWritten('B' as int, t.cursor, 80, 25, t.args, 1) == Cursor(0, 25);
    assert FeedAsWritten(t, 'B' as int).value.cursor == Cursor(0, 25);
    assert Run(t, ['B' as int]) == Run(Feed(t, 'B' as int), []);
  }

  /** `ESC [ 7 m` switches reverse video on, in the written terminal and the intended one alike. */
  lemma ReverseOn(t: Term)
    requires Good(t) && t.esc == Default
    ensures var bytes := [ESC, '[' as int, '7' as int, 'm' as int];
      RunAsWritten(t, bytes) == Ran(Run(t, bytes)) && Run(t, bytes).attrs.reversed && Run(t, bytes).esc == Default
  {
    var final := ['m' as int];
    var t3 := Digit(Opened(t), 7);
    assert [ESC, '[' as int, '7' as int, 'm' as int] == [ESC, '[' as int] + (['7' as int] + final);
    OpenRun(t, ['7' as int] + final);
    DigitRun(Opened(t), 7, final);
    var t4 := Feed(t3, 'm' as int);
    assert FeedAsWritten(t3, 'm' as int) == Some(t4) && t4.attrs.reversed;
    assert RunAsWritten(t3, final) == RunAsWritten(t4, []);
    assert Run(t3, final) == Run(t4, []);
  }

  /** As written, `ESC [ 0 m` leaves reverse video on; as meant, it turns it off. */
  lemma ResetRun(t: Term)
    requires Good(t) && t.esc == Default && t.attrs.reversed
    ensures var bytes := [ESC, '[' as int, '0' as int, 'm' as int];
      RunAsWritten(t, bytes).Ran? && RunAsWritten(t, bytes).term.attrs.reversed && !Run(t, bytes).attrs.reversed
  {
    var final := ['m' as int];
    var t3 := Digit(Opened(t), 0);
    assert [ESC, '[' as int, '0' as int, 'm' as int] == [ESC, '[' as int] + (['0' as int] + final);
    OpenRun(t, ['0' as int] + final);
    DigitRun(Opened(t), 0, final);
    var w4 := FeedAsWritten(t3, 'm' as int).value;
    var t4 := Feed(t3, 'm' as int);
    assert w4.attrs.reversed && !t4.attrs.reversed;
    assert RunAsWritten(t3, final) == RunAsWritten(w4, []);
    assert Run(t3, final) == Run(t4, []);
  }

  /** As written, `ESC [ 7 m` then `ESC [ 0 m` leaves reverse video on; as meant, SGR 0 turns it off. */
  lemma ResetKeepsReverseRun(t: Term)
    requires Good(t) && t.esc == Default
    ensures var bytes := [ESC, '[' as int, '7' as int, 'm' as int, ESC, '[' as int, '0' as int, 'm' as int];
      RunAsWritten(t, bytes).Ran? && RunAsWritten(t, bytes).term.attrs.reversed && !Run(t, bytes).attrs.reversed
  {
    var set7 := [ESC, '[' as int, '7' as int, 'm' as int];
    var reset := [ESC, '[' as int, '0' as int, 'm' as int];
    assert set7 + reset == [ESC, '[' as int, '7' as int, 'm' as int, ESC, '[' as int, '0' as int, 'm' as int];
    ReverseOn(t);
    RunAppends(t, set7, reset);
    RunAsWrittenAppends(t, set7, reset);
    ResetRun(Run(t, set7));
  }

  /** Running two pieces is running the first, then the second from where it ended. */
  lemma {:induction false} RunAppends(t: Term, a: seq<Byte>, b: seq<Byte>)
    requires Good(t)
    ensures Run(t, a + b) == Run(Run(t, a), b)
    decreases |a|
  {
    if a != [] {
      assert (a + b)[0] == a[0] && (a + b)[1..] == a[1..] + b;
      RunAppends(Feed(t, a[0]), a[1..], b);
    } else {
      assert a + b == b;
    }
  }

  /** The same for the written terminal, as long as the first piece runs to its end on the screen. */
  lemma {:induction false} RunAsWrittenAppends(t: Term, a: seq<Byte>, b: seq<Byte>)
    requires Sane(t)
    ensures RunAsWritten(t, a).Ran? ==> RunAsWritten(t, a + b) == RunAsWritten(RunAsWritten(t, a).term, b)
    ensures !RunAsWritten(t, a).Ran? ==> RunAsWritten(t, a + b) == RunAsWritten(t, a)
    decreases |a|
  {
    if a != [] {
      assert (a + b)[0] == a[0] && (a + b)[1..] == a[1..] + b;
      match FeedAsWritten(t, a[0])
      case None =>
      case Some(n) =>
        if OnScreen(n.cursor, n.width, n.height) {
          RunAsWrittenAppends(n, a[1..], b);
        }
    } else {
      assert a + b == b;
    }
  }

  /** `struct ansi_state`, updated in place by `ansi_putchar`. */
  class Terminal {
    var x: int
    var y: int
    const width: int
    const height: int
    var savedX: int
    var savedY: int
    var esc: EscState
    const args: array<nat>
    var argCount: nat
    var numberInput: bool
    var attrs: Attrs
    var cursorVisible: bool
    var ops: seq<ScreenOp>

    function State(): Term
      reads this, args
    {
      Term(Cursor(x, y), width, height, Cursor(savedX, savedY), esc, args[..], argCount, numberInput,
        attrs, cursorVisible, ops)
    }

    predicate Valid()
      reads this, args
    {
      Good(State())
    }

    /** `ansi_init_state`, clearing the fields it leaves unset. */
    constructor (w: int, h: int)
      requires 1 <= w && 1 <= h
      ensures Valid() && State() == Init(w, h) && fresh(args)
    {
      x, y := 0, 0;
      width, height := w, h;
      savedX, savedY := 0, 0;
      esc := Default;
      args := new nat[MAX_ARGS](_ => 0);
      argCount := 0;
      numberInput := false;
      attrs := Attrs(0xffffff, 0x000000, 0, false, false, false, false, false, false, false);
      cursorVisible := true;
      ops := [];
      new;
      assert args[..] == NO_ARGS;
    }

    /** `ansi_putchar`. */
    method PutChar(ch: Byte)
      requires Valid()
      modifies this, args
      ensures Valid() && State() == Feed(old(State()), ch)
    {
      if esc != Default {
        if esc == Esc {
          HandleEsc(ch);
        } else if esc == Csi {
          HandleCsi(ch);
        } else {
          esc := Default;
        }
        return;
      }
      PutDefault(ch);
    }

    /** `handle_esc`: clear the eight parameter slots, then pick the next state. */
    method HandleEsc(ch: Byte)
      requires Valid() && esc == Esc
      modifies this, args
      ensures Valid() && State() == Feed(old(State()), ch)
    {
      var i := 0;
      while i < MAX_ARGS
        invariant 0 <= i <= MAX_ARGS
        modifies args
        invariant forall k :: 0 <= k < i ==> args[k] == 0
      {
        args[i] := 0;
        i := i + 1;
      }
      assert args[..] == NO_ARGS;
      argCount := 0;
      numberInput := false;
      esc := AfterEsc(ch);
    }

    /** `handle_csi`: a final byte acts and ends the sequence, digits and separators build parameters. */
    method HandleCsi(ch: Byte)
      requires Valid() && esc == Csi
      modifies this, args
      ensures Valid() && State() == Feed(old(State()), ch)
    {
      if Final(ch) {
        Perform(ch);
        esc := Default;
      } else if '0' as int <= ch <= '9' as int {
        AddDigit(ch - '0' as int);
      } else if ch == ';' as int || ch == ':' as int {
        numberInput := false;
      } else {
        esc := Default;
      }
    }

    /** The handler a final byte selects (`handle_cuu` ... `handle_scorc`). */
    method Perform(ch: Byte)
      requires Valid() && Final(ch)
      modifies this`x, this`y, this`savedX, this`savedY, this`ops, this`attrs
      ensures State() == Act(old(State()), ch)
    {
      var n: int := Arg0(args[..], argCount, 1);
      if ch == 'J' as int {
        ops := ops + Ed(Arg0(args[..], argCount, 0), Cursor(x, y), width, height);
      } else if ch == 'K' as int {
        ops := ops + El(Arg0(args[..], argCount, 0), Cursor(x, y), width);
      } else if ch == 'S' as int {
        ops := ops + [Scroll(n)];
      } else if ch == 'T' as int {
        ops := ops + [Scroll(-n)];
      } else if ch == 'm' as int {
        attrs := Sgr(attrs, args[..], argCount);
      } else if ch == 's' as int {
        savedX, savedY := x, y;
      } else if ch == 'u' as int {
        x, y := savedX, savedY;
      } else if ch != 'n' as int {
        var c := Move(ch, Cursor(x, y), width, height, args[..], argCount);
        x, y := c.x, c.y;
      }
    }

    /** A parameter digit: extend the current parameter, or open the next one while fewer than eight are open. */
    method AddDigit(d: nat)
      requires Valid() && d < 10
      modifies this`argCount, this`numberInput, args
      ensures State() == Digit(old(State()), d)
    {
      if numberInput || argCount < MAX_ARGS {
        if !numberInput {
          argCount := argCount + 1;
        }
        numberInput := true;
        args[argCount - 1] := args[argCount - 1] * 10 + d;
      }
    }

    /** The default-state half of `ansi_putchar`. */
    method PutDefault(ch: Byte)
      requires Valid() && esc == Default
      modifies this
      ensures Valid() && State() == Feed(old(State()), ch)
    {
      if SignedChar(ch) >= 0x20 && ch != DEL {
        PutPrintable(ch);
      } else {
        PutControl(ch);
      }
    }

    /** `term_putchar` at the cursor, then the cursor one to the right with wrap and scroll. */
    method PutPrintable(ch: Byte)
      requires Valid()
      modifies this`x, this`y, this`ops
      ensures State() == Print(old(State()), ch)
    {
      ops := ops + [Draw(ch, Cursor(x, y))];
      x := x + 1;
      if x >= width {
        x := 0;
        NewLine();
      }
    }

    /** The control characters of the default state. */
    method PutControl(ch: Byte)
      requires Valid() && esc == Default
      modifies this`x, this`y, this`ops, this`esc
      ensures State() == C0(old(State()), ch)
    {
      if ch == BS {
        if x >= 1 {
          x := x - 1;
        }
      } else if ch == HT {
        x := x + 8;
        if x >= width {
          NewLine();
          x := 0;
        }
      } else if ch == LF {
        x := 0;
        NewLine();
      } else if ch == VT {
        NewLine();
      } else if ch == CR {
        x := 0;
      } else if ch == ESC {
        esc := Esc;
      } else if ch == DEL {
        if x >= 1 {
          x := x - 1;
          ops := ops + [Erase(x, y, x, y)];
        }
      }
    }

    /** `cursor_y++`, and at the bottom row back up one with a one-row scroll. */
    method NewLine()
      requires 1 <= height && 0 <= y < height
      modifies this`y, this`ops
      ensures y == if old(y) + 1 < height then old(y) + 1 else height - 1
      ensures ops == if old(y) + 1 < height then old(ops) else old(ops) + [Scroll(1)]
    {
      y := y + 1;
      if y >= height {
        y := height - 1;
        ops := ops + [Scroll(1)];
      }
    }
  }
}
