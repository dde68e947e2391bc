/**
 * The PS/2 keyboard driver of the boot loader (boot/device/hid/ps2_keyboard.c).
 *
 * The interrupt handler appends scan-code bytes to a 64-byte ring buffer; `poll_event` takes one
 * byte off the front and runs it through the scan-code set 1 or set 2 state machine, which may
 * report a key event. The key codes themselves come from tables and a header that are outside
 * this model, so a `Keymap` value carries the four tables and the `KEY_PAUSE` code.
 */
module Ps2Keyboard {
  import opened Common

  /** `sizeof(data->seqbuf)`. */
  const SEQBUF_SIZE: nat := 64

  /** `enum sequence_state`. */
  datatype SeqState =
    | Default
    | Extended
    | Break
    | BreakExtended
    | Pause1 | Pause2 | Pause3 | Pause4 | Pause5 | Pause6 | Pause7
    | CtrlPause1 | CtrlPause2 | CtrlPause3
  {
    /** A state inside the Pause or Ctrl+Pause byte sequence. */
    predicate InPause()
    {
      !(Default? || Extended? || Break? || BreakExtended?)
    }
  }

  /** The make-code tables of both sets (plain and 0xE0-extended) and the `KEY_PAUSE` code. */
  datatype Keymap = Keymap(set1: seq<nat>, set1Ext: seq<nat>, set2: seq<nat>, set2Ext: seq<nat>, pause: nat)

  /** The entry counts the driver declares: 128, 128, 132 and 128. */
  predicate Shaped(m: Keymap)
  {
    |m.set1| == 128 && |m.set1Ext| == 128 && |m.set2| == 132 && |m.set2Ext| == 128
  }

  /** `sizeof` of a `uint16_t` table: two bytes per entry. */
  function SizeOf(table: seq<nat>): (r: nat)
    ensures r == 2 * |table|
  {
    |table| + |table|
  }

  /** A reported key: a code, or whatever lies `index` entries into a table that is shorter. */
  datatype Key = Code(n: nat) | PastTable(index: int)

  /** `table[i]` as C evaluates it. */
  function At(table: seq<nat>, i: int): (r: Key)
    ensures 0 <= i < |table| ==> r == Code(table[i])
    ensures !(0 <= i < |table|) ==> r == PastTable(i)
  {
    if 0 <= i < |table| then Code(table[i]) else PastTable(i)
  }

  /** A key event: the key code and whether `KEY_FLAG_BREAK` is set. */
  datatype Event = Event(key: Key, brk: bool)

  /** What one byte does: the next sequence state and the event reported, if any (return 0). */
  datatype Step = Step(next: SeqState, event: Option<Event>)

  function Press(key: Key, brk: bool): Step
  {
    Step(Default, Some(Event(key, brk)))
  }

  /** Advance to `next` on the expected byte, otherwise back to the default state. */
  function Expect(b: Byte, want: Byte, next: SeqState): Step
  {
    Step(if b == want then next else Default, None)
  }

  /** The bytes set 1 ignores in the default state: LANG2, LANG1 and the self-test failure code. */
  predicate Ignored(b: Byte)
  {
    b == 0xF1 || b == 0xF2 || b == 0xFC
  }

  /** `translate_scancode_set1` as written. */
  function Set1AsWritten(m: Keymap, s: SeqState, b: Byte): (r: Step)
    ensures b == 0xE0 ==> r == Step(Extended, None)
    ensures b == 0xE1 ==> r == Step(Pause1, None)
  {
    if b == 0xE0 then Step(Extended, None)
    else if b == 0xE1 then Step(Pause1, None)
    else match s
      case Default =>
        if Ignored(b) then Step(Default, None)
        else if b < SizeOf(m.set1) then Press(At(m.set1, b), false)
        else if b < 128 + SizeOf(m.set1) then Press(At(m.set1, b - 128), true)
        else Step(Default, None)
      case Extended =>
        if b == 0x46 then Step(CtrlPause1, None)
        else if b < SizeOf(m.set1Ext) then Press(At(m.set1Ext, b), false)
        else if b < 128 + SizeOf(m.set1Ext) then Press(At(m.set1Ext, b - 128), true)
        else Step(Extended, None)
      case Pause1 => Expect(b, 0x1D, Pause2)
      case Pause2 => Expect(b, 0x45, Pause3)
      case Pause3 => Expect(b, 0xE1, Pause4)
      case Pause4 => Expect(b, 0x9D, Pause5)
      case Pause5 => if b == 0xC5 then Press(Code(m.pause), false) else Step(Default, None)
      case CtrlPause1 => Expect(b, 0xE0, CtrlPause2)
      case CtrlPause2 => if b == 0xC6 then Press(Code(m.pause), true) else Step(Default, None)
      case _ => Step(Default, None)
  }

  /** `translate_scancode_set2` as written (the break flag falls through into the make case). */
  function Set2AsWritten(m: Keymap, s: SeqState, b: Byte): (r: Step)
    ensures b == 0xF0 ==> r == Step(if s == Extended then BreakExtended else Break, None)
    ensures b == 0xE0 ==> r == Step(Extended, None)
    ensures b == 0xE1 ==> r == Step(Pause1, None)
  {
    if b == 0xF0 then Step(if s == Extended then BreakExtended else Break, None)
    else if b == 0xE0 then Step(Extended, None)
    else if b == 0xE1 then Step(Pause1, None)
    else match s
      case Default | Break =>
        if Ignored(b) then Step(Default, None)
        else if b < SizeOf(m.set2) then Press(At(m.set2, b), s == Break)
        else Step(Default, None)
      case Extended | BreakExtended =>
        var held := if b == 0x7E then CtrlPause1 else s;
        if b < SizeOf(m.set2Ext) then Press(At(m.set2Ext, b), s == BreakExtended)
        else Step(held, None)
      case Pause1 => Expect(b, 0x14, Pause2)
      case Pause2 => Expect(b, 0x77, Pause3)
      case Pause3 => Expect(b, 0xE1, Pause4)
      case Pause4 => Expect(b, 0xF0, Pause5)
      case Pause5 => Expect(b, 0x14, Pause6)
      case Pause6 => Expect(b, 0xF0, Pause7)
      case Pause7 => if b == 0x77 then Press(Code(m.pause), false) else Step(Default, None)
      case CtrlPause1 => Expect(b, 0xE0, CtrlPause2)
      case CtrlPause2 => Expect(b, 0xF0, CtrlPause3)
      case CtrlPause3 => if b == 0x7E then Press(Code(m.pause), true) else Step(Default, None)
  }

  /**
   * Scan-code set 1 as the driver means it: a byte inside the Pause sequences is matched before
   * it can be read as a prefix, codes from 0x80 are the break codes of the codes 0x80 below, and
   * every table is indexed within its entry count.
   */
  function Set1(m: Keymap, s: SeqState, b: Byte): (r: Step)
    ensures Shaped(m) && r.event.Some? ==> r.event.value.key.Code?
    ensures !s.InPause() && b == 0xE0 ==> r == Step(Extended, None)
    ensures !s.InPause() && b == 0xE1 ==> r == Step(Pause1, None)
    ensures r.event.None? && r.next == Default && s == Default ==> Ignored(b)
  {
    if s.InPause() then PauseStep1(m, s, b)
    else if b == 0xE0 then Step(Extended, None)
    else if b == 0xE1 then Step(Pause1, None)
    else if s == Extended then
      if b == 0x46 then Step(CtrlPause1, None)
      else if b < 128 then Press(At(m.set1Ext, b), false)
      else Press(At(m.set1Ext, b - 128), true)
    else if Ignored(b) then Step(Default, None)
    else if b < 128 then Press(At(m.set1, b), false)
    else Press(At(m.set1, b - 128), true)
  }

  /** Set 1 inside the Pause (E1 1D 45 E1 9D C5) and Ctrl+Pause (E0 46 E0 C6) sequences. */
  function PauseStep1(m: Keymap, s: SeqState, b: Byte): (r: Step)
    ensures r.event.Some? ==> r.event.value == Event(Code(m.pause), s == CtrlPause2)
  {
    match s
      case Pause1 => Expect(b, 0x1D, Pause2)
      case Pause2 => Expect(b, 0x45, Pause3)
      case Pause3 => Expect(b, 0xE1, Pause4)
      case Pause4 => Expect(b, 0x9D, Pause5)
      case Pause5 => if b == 0xC5 then Press(Code(m.pause), false) else Step(Default, None)
      case CtrlPause1 => Expect(b, 0xE0, CtrlPause2)
      case CtrlPause2 => if b == 0xC6 then Press(Code(m.pause), true) else Step(Default, None)
      case _ => Step(Default, None)
  }

  /** Scan-code set 2 as the driver means it, on the same three corrections as `Set1`. */
  function Set2(m: Keymap, s: SeqState, b: Byte): (r: Step)
    ensures Shaped(m) && r.event.Some? ==> r.event.value.key.Code?
    ensures !s.InPause() && b == 0xF0 ==> r == Step(if s == Extended then BreakExtended else Break, None)
    ensures !s.InPause() && b == 0xE0 ==> r == Step(Extended, None)
    ensures !s.InPause() && b == 0xE1 ==> r == Step(Pause1, None)
  {
    if s.InPause() then PauseStep2(m, s, b)
    else if b == 0xF0 then Step(if s == Extended then BreakExtended else Break, None)
    else if b == 0xE0 then Step(Extended, None)
    else if b == 0xE1 then Step(Pause1, None)
    else if s == Extended || s == BreakExtended then
      if s == Extended && b == 0x7E then Step(CtrlPause1, None)
      else if b < 128 then Press(At(m.set2Ext, b), s == BreakExtended)
      else Step(Default, None)
    else if Ignored(b) then Step(Default, None)
    else if b < 132 then Press(At(m.set2, b), s == Break)
    else Step(Default, None)
  }

  /** Set 2 inside the Pause (E1 14 77 E1 F0 14 F0 77) and Ctrl+Pause (E0 7E E0 F0 7E) sequences. */
  function PauseStep2(m: Keymap, s: SeqState, b: Byte): (r: Step)
    ensures r.event.Some? ==> r.event.value == Event(Code(m.pause), s == CtrlPause3)
  {
    match s
      case Pause1 => Expect(b, 0x14, Pause2)
      case Pause2 => Expect(b, 0x77, Pause3)
      case Pause3 => Expect(b, 0xE1, Pause4)
      case Pause4 => Expect(b, 0xF0, Pause5)
      case Pause5 => Expect(b, 0x14, Pause6)
      case Pause6 => Expect(b, 0xF0, Pause7)
      case Pause7 => if b == 0x77 then Press(Code(m.pause), false) else Step(Default, None)
      case CtrlPause1 => Expect(b, 0xE0, CtrlPause2)
      case CtrlPause2 => Expect(b, 0xF0, CtrlPause3)
      case CtrlPause3 => if b == 0x7E then Press(Code(m.pause), true) else Step(Default, None)
      case _ => Step(Default, None)
  }

  /** The state machines a decoder can run. */
  datatype Machine = Set1Written | Set2Written | Set1Intended | Set2Intended

  function Translate(machine: Machine, m: Keymap, s: SeqState, b: Byte): Step
  {
    match machine
      case Set1Written => Set1AsWritten(m, s, b)
      case Set2Written => Set2AsWritten(m, s, b)
      case Set1Intended => Set1(m, s, b)
      case Set2Intended => Set2(m, s, b)
  }

  /** The state after a run of bytes and the events reported along the way, in order. */
  datatype Trace = Trace(state: SeqState, events: seq<Event>)

  function Emitted(e: Option<Event>): (r: seq<Event>)
    ensures |r| <= 1
  {
    if e.Some? then [e.value] else []
  }

  /** Polling byte after byte from `bytes[i]` on: one `Translate` per byte, events collected in arrival order. */
  function Run(machine: Machine, m: Keymap, s: SeqState, bytes: seq<Byte>, i: nat := 0): (r: Trace)
    requires i <= |bytes|
    ensures |r.events| <= |bytes| - i
    decreases |bytes| - i
  {
    if i == |bytes| then Trace(s, [])
    else
      var st := Translate(machine, m, s, bytes[i]);
      var rest := Run(machine, m, st.next, bytes, i + 1);
      Trace(rest.state, Emitted(st.event) + rest.events)
  }

  const PAUSE_SET1: seq<Byte> := [0xE1, 0x1D, 0x45, 0xE1, 0x9D, 0xC5]
  const CTRL_PAUSE_SET1: seq<Byte> := [0xE0, 0x46, 0xE0, 0xC6]
  const PAUSE_SET2: seq<Byte> := [0xE1, 0x14, 0x77, 0xE1, 0xF0, 0x14, 0xF0, 0x77]
  const CTRL_PAUSE_SET2: seq<Byte> := [0xE0, 0x7E, 0xE0, 0xF0, 0x7E]

  /** Set 2: the Pause sequence yields one Pause press and ends in the default state. */
  lemma PauseSet2(m: Keymap)
    ensures Run(Set2Intended, m, Default, PAUSE_SET2) == Trace(Default, [Event(Code(m.pause), false)])
  {
  }

  /** Set 2: the Ctrl+Pause sequence yields one Pause release. */
  lemma CtrlPauseSet2(m: Keymap)
    ensures Run(Set2Intended, m, Default, CTRL_PAUSE_SET2) == Trace(Default, [Event(Code(m.pause), true)])
  {
  }

  /** Set 1: the Pause sequence yields one Pause press. */
  lemma PauseSet1(m: Keymap)
    ensures Run(Set1Intended, m, Default, PAUSE_SET1) == Trace(Default, [Event(Code(m.pause), false)])
  {
  }

  /** Set 1: the Ctrl+Pause sequence yields one Pause release. */
  lemma CtrlPauseSet1(m: Keymap)
    ensures Run(Set1Intended, m, Default, CTRL_PAUSE_SET1) == Trace(Default, [Event(Code(m.pause), true)])
  {
  }

  /** As written, set 2 turns the Pause sequence into two releases: left Ctrl (0x14) and Num Lock (0x77). */
  lemma PauseLostSet2(m: Keymap)
    requires Shaped(m)
    ensures Run(Set2Written, m, Default, PAUSE_SET2) ==
      Trace(Default, [Event(Code(m.set2[0x14]), true), Event(Code(m.set2[0x77]), true)])
  {
  }

  /** As written, set 1 drops out of the Pause sequence at its second 0xE1 and reads past the table. */
  lemma PauseLostSet1(m: Keymap)
    requires Shaped(m)
    ensures Run(Set1Written, m, Default, PAUSE_SET1) == Trace(Default, [Event(PastTable(0xC5), false)])
  {
  }

  /**
   * As written, set 1 drops out of the Ctrl+Pause sequence at its second 0xE0, which is taken
   * as a new prefix, so 0xC6 is read as an extended make code past the table.
   */
  lemma CtrlPauseLostSet1(m: Keymap)
    requires Shaped(m)
    ensures Run(Set1Written, m, Default, CTRL_PAUSE_SET1) == Trace(Default, [Event(PastTable(0xC6), false)])
  {
  }

  /** As written, set 2 leaves the Ctrl+Pause state as soon as it enters it: 0x7E is also looked up. */
  lemma CtrlPauseLostSet2(m: Keymap)
    requires Shaped(m)
    ensures Set2AsWritten(m, Extended, 0x7E) == Press(Code(m.set2Ext[0x7E]), false)
  {
  }

  /** As written, a set-1 break code (here 0x9E, the release of 0x1E) is read as a make code past the table. */
  lemma BreakPastTableSet1(m: Keymap)
    requires Shaped(m)
    ensures Set1AsWritten(m, Default, 0x9E) == Press(PastTable(0x9E), false)
  {
  }

  /** Set 1: a make code below 0x80 and its break code 0x80 higher report the same key, pressed then released. */
  lemma MakeBreakSet1(m: Keymap, b: Byte)
    requires Shaped(m)
    requires b < 128 && !Ignored(b + 128) && b + 128 != 0xE0 && b + 128 != 0xE1
    ensures Run(Set1Intended, m, Default, [b]) == Trace(Default, [Event(Code(m.set1[b]), false)])
    ensures Run(Set1Intended, m, Default, [b + 128]) == Trace(Default, [Event(Code(m.set1[b]), true)])
  {
  }

  /** Set 2: a make code and 0xF0 before it report the same key, pressed then released. */
  lemma MakeBreakSet2(m: Keymap, b: Byte)
    requires Shaped(m)
    requires b < 132 && !Ignored(b) && b != 0xE0 && b != 0xE1 && b != 0xF0
    ensures Run(Set2Intended, m, Default, [b]) == Trace(Default, [Event(Code(m.set2[b]), false)])
    ensures Run(Set2Intended, m, Default, [0xF0, b]) == Trace(Default, [Event(Code(m.set2[b]), true)])
  {
    var y: seq<Byte> := [0xF0, b];
    assert Run(Set2Intended, m, Break, y, 1) == Trace(Default, [Event(Code(m.set2[b]), true)]);
  }

  /** Set 2: an extended make code after 0xE0, and its release after 0xE0 0xF0. */
  lemma ExtendedMakeBreakSet2(m: Keymap, b: Byte)
    requires Shaped(m)
    requires b < 128 && b != 0x7E
    ensures Run(Set2Intended, m, Default, [0xE0, b]) == Trace(Default, [Event(Code(m.set2Ext[b]), false)])
    ensures Run(Set2Intended, m, Default, [0xE0, 0xF0, b]) == Trace(Default, [Event(Code(m.set2Ext[b]), true)])
  {
    var x: seq<Byte>, y: seq<Byte> := [0xE0, b], [0xE0, 0xF0, b];
    assert Run(Set2Intended, m, Extended, x, 1) == Trace(Default, [Event(Code(m.set2Ext[b]), false)]);
    assert Run(Set2Intended, m, BreakExtended, y, 2) == Trace(Default, [Event(Code(m.set2Ext[b]), true)]);
    assert Run(Set2Intended, m, Extended, y, 1) == Trace(Default, [Event(Code(m.set2Ext[b]), true)]);
  }

  /** The byte that moves each Pause state on (set 2); any other byte abandons the sequence. */
  function Awaited2(s: SeqState): (b: Byte)
    requires s.InPause()
  {
    match s
      case Pause1 => 0x14
      case Pause2 => 0x77
      case Pause3 => 0xE1
      case Pause4 => 0xF0
      case Pause5 => 0x14
      case Pause6 => 0xF0
      case Pause7 => 0x77
      case CtrlPause1 => 0xE0
      case CtrlPause2 => 0xF0
      case CtrlPause3 => 0x7E
  }

  /** Set 2: inside a Pause sequence, a byte other than the awaited one resets to the default state and reports nothing. */
  lemma MismatchResetsSet2(m: Keymap, s: SeqState, b: Byte)
    requires s.InPause() && b != Awaited2(s)
    ensures Set2(m, s, b) == Step(Default, None)
  {
  }

  /** Set 2: the awaited byte either moves on within the sequence or completes it with a Pause event. */
  lemma AwaitedAdvancesSet2(m: Keymap, s: SeqState)
    requires s.InPause()
    ensures var r := Set2(m, s, Awaited2(s));
      (r.event.None? && r.next.InPause()) ||
      (r.next == Default && r.event.Some? && r.event.value.key == Code(m.pause))
  {
  }

  /** Entries of the ring buffer between `start` (inclusive) and `end` (exclusive). */
  function Count(start: nat, end: nat): (r: nat)
    requires start < SEQBUF_SIZE && end < SEQBUF_SIZE
    ensures r < SEQBUF_SIZE
    ensures r == 0 <==> start == end
  {
    if start <= end then end - start else end + SEQBUF_SIZE - start
  }

  /** `(i + 1) % sizeof(seqbuf)`. */
  function Next(i: nat): (r: nat)
    requires i < SEQBUF_SIZE
    ensures r < SEQBUF_SIZE && r == (i + 1) % SEQBUF_SIZE
  {
    if i + 1 < SEQBUF_SIZE then i + 1 else 0
  }

  /** The slot `k` places after `start`. */
  function Slot(start: nat, k: nat): (r: nat)
    requires start < SEQBUF_SIZE && k < SEQBUF_SIZE
    ensures r < SEQBUF_SIZE && r == (start + k) % SEQBUF_SIZE
  {
    if start + k < SEQBUF_SIZE then start + k else start + k - SEQBUF_SIZE
  }

  /** The queued bytes, oldest first. */
  function Queued(buf: seq<Byte>, start: nat, end: nat): (r: seq<Byte>)
    requires |buf| == SEQBUF_SIZE && start < SEQBUF_SIZE && end < SEQBUF_SIZE
    ensures |r| == Count(start, end)
    ensures r != [] ==> r[0] == buf[start]
  {
    seq(Count(start, end), k requires 0 <= k < Count(start, end) => buf[Slot(start, k)])
  }

  /** As written, `poll_event` on an empty ring still takes a byte: `start` moves past `end` and 63 stale bytes appear queued. */
  lemma EmptyPollRefills(start: nat)
    requires start < SEQBUF_SIZE
    ensures Count(Next(start), start) == SEQBUF_SIZE - 1
  {
  }

  /** The driver state (`struct ps2_keyboard_data`) without the device handles. */
  class Keyboard {
    var seqbuf: array<Byte>
    var start: nat
    var end: nat
    var state: SeqState
    var scancodeSet: int
    const keymap: Keymap

    predicate Valid()
      reads this
    {
      seqbuf.Length == SEQBUF_SIZE && start < SEQBUF_SIZE && end < SEQBUF_SIZE && Shaped(keymap)
    }

    /** The bytes received and not yet translated. */
    function Pending(): (r: seq<Byte>)
      reads this, seqbuf
      requires Valid()
      ensures |r| < SEQBUF_SIZE
    {
      Queued(seqbuf[..], start, end)
    }

    /** `probe` after a reset: empty ring, default state, set 1 until set 2 is acknowledged. */
    constructor (keymap: Keymap)
      requires Shaped(keymap)
      ensures Valid() && fresh(seqbuf)
      ensures Pending() == [] && state == Default && scancodeSet == 1 && this.keymap == keymap
    {
      seqbuf := new Byte[SEQBUF_SIZE](_ => 0);
      start, end := 0, 0;
      state := Default;
      scancodeSet := 1;
      this.keymap := keymap;
    }

    /** `probe` switches to set 2 when the keyboard acknowledges the request (0xFA). */
    method Acknowledge(reply: Byte)
      requires Valid()
      modifies this
      ensures Valid() && seqbuf == old(seqbuf) && start == old(start) && end == old(end) && state == old(state)
      ensures scancodeSet == if reply == 0xFA then 2 else old(scancodeSet)
    {
      if reply == 0xFA {
        scancodeSet := 2;
      }
    }

    /** `keyboard_isr`: append the byte, or drop it when the ring already holds 63. */
    method Receive(b: Byte)
      requires Valid()
      modifies this, seqbuf
      ensures Valid() && seqbuf == old(seqbuf) && start == old(start) && state == old(state)
      ensures scancodeSet == old(scancodeSet)
      ensures |old(Pending())| == SEQBUF_SIZE - 1 ==> Pending() == old(Pending()) && end == old(end)
      ensures |old(Pending())| < SEQBUF_SIZE - 1 ==> Pending() == old(Pending()) + [b]
    {
      ghost var before := Pending();
      seqbuf[end] := b;
      assert forall k :: 0 <= k < |before| ==> Slot(start, k) != end;
      assert Queued(seqbuf[..], start, end) == before;
      var next := Next(end);
      if next == start {
        return;
      }
      end := next;
      assert Count(start, end) == |before| + 1;
      assert Slot(start, |before|) == old(end);
    }

    /**
     * `poll_event` as the source runs it: with a known scan-code set it takes the byte at `start`
     * and advances `start` whether or not a byte is queued, and runs the source's machine. On an
     * empty ring it translates a stale byte and leaves 63 stale bytes queued.
     */
    method PollEventAsWritten() returns (r: Option<Event>)
      requires Valid()
      modifies this
      ensures Valid() && seqbuf == old(seqbuf) && end == old(end) && scancodeSet == old(scancodeSet)
      ensures scancodeSet != 1 && scancodeSet != 2 ==> r == None && start == old(start) && state == old(state)
      ensures scancodeSet == 1 || scancodeSet == 2 ==>
        start == Next(old(start)) &&
        Step(state, r) == Translate(if scancodeSet == 1 then Set1Written else Set2Written, keymap, old(state), seqbuf[old(start)])
      ensures (scancodeSet == 1 || scancodeSet == 2) && old(Pending()) != [] ==> Pending() == old(Pending())[1..]
      ensures (scancodeSet == 1 || scancodeSet == 2) && old(Pending()) == [] ==> |Pending()| == SEQBUF_SIZE - 1
    {
      if scancodeSet != 1 && scancodeSet != 2 {
        return None;
      }
      ghost var before := Pending();
      var b := seqbuf[start];
      var st := if scancodeSet == 1 then Set1AsWritten(keymap, state, b) else Set2AsWritten(keymap, state, b);
      state := st.next;
      r := st.event;
      start := Next(start);
      if before != [] {
        assert Count(start, end) == |before| - 1;
        assert forall k :: 0 <= k < |before| - 1 ==> Slot(start, k) == Slot(old(start), k + 1);
      } else {
        EmptyPollRefills(old(start));
      }
    }

    /**
     * `poll_event` with the empty-ring check it lacks: nothing happens on an empty ring or an
     * unknown scan-code set; otherwise the oldest byte is consumed and run through the machine.
     */
    method PollEvent() returns (r: Option<Event>)
      requires Valid()
      modifies this
      ensures Valid() && seqbuf == old(seqbuf) && end == old(end) && scancodeSet == old(scancodeSet)
      ensures old(Pending()) == [] || (scancodeSet != 1 && scancodeSet != 2) ==>
        r == None && start == old(start) && state == old(state)
      ensures old(Pending()) != [] && (scancodeSet == 1 || scancodeSet == 2) ==>
        start == Next(old(start)) && Pending() == old(Pending())[1..] &&
        Step(state, r) == Translate(if scancodeSet == 1 then Set1Intended else Set2Intended, keymap, old(state), old(Pending())[0])
    {
      if start == end || (scancodeSet != 1 && scancodeSet != 2) {
        return None;
      }
      ghost var before := Pending();
      var b := seqbuf[start];
      var st := if scancodeSet == 1 then Set1(keymap, state, b) else Set2(keymap, state, b);
      state := st.next;
      r := st.event;
      start := Next(start);
      assert Count(start, end) == |before| - 1;
      assert forall k :: 0 <= k < |before| - 1 ==> Slot(start, k) == Slot(old(start), k + 1);
    }
  }
}
