/**
 * The command-line tokenizer of the boot shell, `shell_parse` (boot/shell/parse.c).
 *
 * One call reads one token of `line` into `buf`: leading blanks are skipped, quote characters
 * switch quoting on and off and are dropped, a backslash starts an escape, and an unquoted blank
 * ends the token.  The result is the position of that blank (or of the end of the line), or NULL
 * when the line holds no token or the token does not fit in `buflen` characters.
 *
 * The C string `line` is a sequence without its NUL; the end of the sequence is the NUL.  The
 * octal and hexadecimal escapes call `strtol`, modelled by `StrToL`.
 */
module ShellParse {
  import opened Common
  import opened Digits
  import StrToL

  /** The characters skipped before a token and ending an unquoted one. */
  predicate Blank(c: char)
  {
    c == ' ' || c == '\t'
  }

  predicate IsQuote(c: char)
  {
    c == '"' || c == '\''
  }

  /** The escapes that stand for the character after the backslash itself. */
  predicate IsLiteralEscape(c: char)
  {
    c == '\\' || c == '\'' || c == '"' || c == '?' || c == ' ' || c == '\t'
  }

  /** `(char)v` for a `long` v: its low eight bits, as a character code. */
  function ByteChar(v: int): (c: char)
    ensures c as int < 256 && (c as int - v) % 256 == 0
  {
    (v % 256) as char
  }

  /** The control character a letter escape stands for: \a \b \e \f \n \r \t \v. */
  function ControlEscape(c: char): (r: Option<char>)
    ensures r.Some? ==> r.value as int < 32 && !IsLiteralEscape(c)
  {
    match c
    case 'a' => Some(7 as char)
    case 'b' => Some(8 as char)
    case 'e' => Some(27 as char)
    case 'f' => Some(12 as char)
    case 'n' => Some(10 as char)
    case 'r' => Some(13 as char)
    case 't' => Some(9 as char)
    case 'v' => Some(11 as char)
    case _ => None
  }

  /** The first position at or after i that is not a blank. */
  function SkipBlanks(line: seq<char>, i: nat): (j: nat)
    requires i <= |line|
    ensures i <= j <= |line|
    ensures forall k :: i <= k < j ==> Blank(line[k])
    ensures j < |line| ==> !Blank(line[j])
    decreases |line| - i
  {
    if i < |line| && Blank(line[i]) then SkipBlanks(line, i + 1) else i
  }

  /**
   * The escape whose backslash is at i: the characters it pushes (none or one) and where reading
   * goes on.  A letter escape pushes its control character and, as written, leaves the letter to be
   * read again; with `corrected` it steps over the letter.  An octal escape reads `strtol` in base 8
   * from the first digit, "\x" reads `strtol` in base 16 after the 'x'; when `strtol` overflows it
   * leaves the end pointer alone.  Any other character after the backslash is read again.
   */
  function EscapeStep(line: seq<char>, i: nat, corrected: bool): (r: (seq<char>, nat))
    requires i < |line| && line[i] == '\\'
    ensures i < r.1 <= |line| && |r.0| <= 1
  {
    if i + 1 == |line| then ([], i + 1)
    else
      var d := line[i + 1];
      if IsLiteralEscape(d) then ([d], i + 2)
      else if ControlEscape(d).Some? then ([ControlEscape(d).value], if corrected then i + 2 else i + 1)
      else if '0' <= d <= '7' then
        var p := StrToL.Spec(line[i + 1..], 8);
        ([ByteChar(p.value)], if p.end.Some? then i + 1 + p.end.value else i + 1)
      else if d == 'x' then
        var p := StrToL.Spec(line[i + 2..], 16);
        ([ByteChar(p.value)], if p.end.Some? then i + 2 + p.end.value else i + 2)
      else ([], i + 1)
  }

  /** One pass of the tokenizer's loop: stop at an unquoted blank, or push and move on. */
  datatype Step = Stop | Go(emit: seq<char>, next: nat, quote: char)

  /**
   * The loop body at position i with quoting state `quote` ('\0' when not quoting): a quote
   * character opens quoting, closes it when it is the one that opened it, and otherwise switches
   * to itself; none is pushed.
   */
  function NextStep(line: seq<char>, i: nat, quote: char, corrected: bool): (r: Step)
    requires i < |line|
    ensures r.Go? ==> i < r.next <= |line| && |r.emit| <= 1
    ensures r.Stop? <==> Blank(line[i]) && quote == '\0'
  {
    var c := line[i];
    if IsQuote(c) then Go([], i + 1, if quote == c then '\0' else c)
    else if c == '\\' then
      var (emit, next) := EscapeStep(line, i, corrected);
      Go(emit, next, quote)
    else if Blank(c) && quote == '\0' then Stop
    else Go([c], i + 1, quote)
  }

  /**
   * Everything the loop pushes from position i on, if the buffer were unbounded, and the position
   * it stops at: the end of the line, or an unquoted blank.
   */
  function Scan(line: seq<char>, i: nat, quote: char, corrected: bool): (r: (seq<char>, nat))
    requires i <= |line|
    ensures i <= r.1 <= |line|
    ensures r.1 == |line| || Blank(line[r.1])
    ensures |r.0| <= r.1 - i
    decreases |line| - i
  {
    if i == |line| then ([], i)
    else
      match NextStep(line, i, quote, corrected)
      case Stop => ([], i)
      case Go(emit, next, q) =>
        var rest := Scan(line, next, q, corrected);
        (emit + rest.0, rest.1)
  }

  /** The result of one call: the returned position (None for NULL) and what lands in `buf`. */
  datatype Outcome = Outcome(next: Option<nat>, written: seq<char>)

  /**
   * `shell_parse` as written.  A token that needs more than `buflen` characters gives NULL after
   * filling the buffer; one that fits is followed by a NUL when a character of room remains.
   */
  function Spec(line: seq<char>, buflen: int): (r: Outcome)
    ensures |r.written| <= if buflen > 0 then buflen else 0
    ensures r.next.Some? ==> r.next.value <= |line|
    ensures r.next.Some? ==> r.next.value == |line| || Blank(line[r.next.value])
    ensures r.next.Some? ==> SkipBlanks(line, 0) < r.next.value
    ensures (forall k :: 0 <= k < |line| ==> Blank(line[k])) ==> r == Outcome(None, [])
  {
    var start := SkipBlanks(line, 0);
    if start == |line| then Outcome(None, [])
    else
      var (token, end) := Scan(line, start, '\0', false);
      Outcome(if Fits(token, buflen) then Some(end) else None, Stored(token, buflen))
  }

  /** The token fits in the `buflen` characters lent (none when `buflen` is not positive). */
  predicate Fits(token: seq<char>, buflen: int)
  {
    |token| <= if buflen > 0 then buflen else 0
  }

  /** What lands in the buffer: as much of the token as fits, and a NUL when room remains after it. */
  function Stored(token: seq<char>, buflen: int): (w: seq<char>)
    ensures |w| <= if buflen > 0 then buflen else 0
    ensures Fits(token, buflen) ==> |token| <= |w| && w[..|token|] == token
    ensures !Fits(token, buflen) ==> |w| == (if buflen > 0 then buflen else 0) && w == token[..|w|]
  {
    if !Fits(token, buflen) then token[..if buflen > 0 then buflen else 0]
    else if |token| < buflen then token + ['\0']
    else token
  }

  /** The escape handling of the loop, after `escape` is set at the backslash at i. */
  method Escape(line: seq<char>, i: nat) returns (emit: seq<char>, next: nat)
    requires i < |line| && line[i] == '\\'
    ensures (emit, next) == EscapeStep(line, i, false)
  {
    next := i + 1;
    emit := [];
    if next == |line| {
      return;
    }
    var d := line[next];
    if IsLiteralEscape(d) {
      emit := [d];
      next := next + 1;
    } else if ControlEscape(d).Some? {
      emit := [ControlEscape(d).value];
    } else if '0' <= d <= '7' {
      var p := StrToL.StrToL(line[next..], 8);
      emit := [ByteChar(p.value)];
      if p.end.Some? {
        next := next + p.end.value;
      }
    } else if d == 'x' {
      next := next + 1;
      var p := StrToL.StrToL(line[next..], 16);
      emit := [ByteChar(p.value)];
      if p.end.Some? {
        next := next + p.end.value;
      }
    }
  }

  /** The `switch` on the current character, with the escape handling that follows it. */
  method Advance(line: seq<char>, i: nat, quote: char) returns (step: Step)
    requires i < |line|
    ensures step == NextStep(line, i, quote, false)
  {
    var c := line[i];
    if c == '"' || c == '\'' {
      return Go([], i + 1, if quote == c then '\0' else c);
    } else if c == '\\' {
      var emit, next := Escape(line, i);
      return Go(emit, next, quote);
    } else if (c == ' ' || c == '\t') && quote == '\0' {
      return Stop;
    }
    return Go([c], i + 1, quote);
  }

  /**
   * `shell_parse`: the token of `line` into `buf`, of which the caller lends `buflen` characters.
   * Each character pushed goes through PUSH_CHAR, which returns NULL when `buflen` has run out;
   * nothing is written past `buflen`.
   */
  method Parse(line: seq<char>, buf: array<char>, buflen: int) returns (r: Option<nat>)
    requires buflen <= buf.Length
    modifies buf
    ensures r == Spec(line, buflen).next
    ensures buf[..|Spec(line, buflen).written|] == Spec(line, buflen).written
    ensures buf[|Spec(line, buflen).written|..] == old(buf[|Spec(line, buflen).written|..])
  {
    var i := 0;
    while i < |line| && (line[i] == ' ' || line[i] == '\t')
      invariant i <= |line| && SkipBlanks(line, i) == SkipBlanks(line, 0)
    {
      i := i + 1;
    }
    if i == |line| {
      return None;
    }
    ghost var (token, end) := Scan(line, i, '\0', false);
    r := CopyToken(line, i, buf, buflen, token, end);
  }

  /**
   * The loop of `shell_parse` from the first character of the token on: the characters it pushes
   * make up `token`, and it leaves at `end`.
   */
  method CopyToken(line: seq<char>, start: nat, buf: array<char>, buflen: int, ghost token: seq<char>,
                   ghost end: nat) returns (r: Option<nat>)
    requires start < |line| && Scan(line, start, '\0', false) == (token, end)
    requires buflen <= buf.Length
    modifies buf
    ensures r == if Fits(token, buflen) then Some(end) else None
    ensures buf[..|Stored(token, buflen)|] == Stored(token, buflen)
    ensures buf[|Stored(token, buflen)|..] == old(buf[|Stored(token, buflen)|..])
  {
    var i := start;
    var quote := '\0';
    var w: nat := 0;
    var room := buflen;
    assert buf[..w] + Scan(line, i, quote, false).0 == token;
    while i < |line|
      invariant start <= i <= |line|
      invariant room == buflen - w && w <= (if buflen > 0 then buflen else 0)
      invariant token == buf[..w] + Scan(line, i, quote, false).0 && end == Scan(line, i, quote, false).1
      invariant buf[w..] == old(buf[w..])
      decreases |line| - i
    {
      ghost var (w0, mid) := (w, buf[..]);
      var stop, full;
      i, quote, w, room, stop, full := PushStep(line, i, quote, buf, w, room, buflen, token, end);
      assert buf[w..] == mid[w0..][w - w0..] && old(buf[w..]) == old(buf[w0..])[w - w0..];
      if full {
        assert Stored(token, buflen) == buf[..w];
        return None;
      }
      if stop {
        break;
      }
    }
    assert Scan(line, i, quote, false) == ([], i);
    assert token == buf[..w];
    Terminate(buf, w, room, buflen, token, old(buf[..]));
    return Some(i);
  }

  /** The NUL that follows a token which fits, when a character of room remains. */
  method Terminate(buf: array<char>, w: nat, room: int, buflen: int, ghost token: seq<char>,
                   ghost orig: seq<char>)
    requires w <= buf.Length && buflen <= buf.Length
    requires room == buflen - w && w <= (if buflen > 0 then buflen else 0) && token == buf[..w]
    requires |orig| == buf.Length && buf[w..] == orig[w..]
    modifies buf
    ensures buf[..|Stored(token, buflen)|] == Stored(token, buflen)
    ensures buf[|Stored(token, buflen)|..] == orig[|Stored(token, buflen)|..]
  {
    if room > 0 {
      assert buf[w + 1..] == buf[w..][1..] && orig[w + 1..] == orig[w..][1..];
      Put(buf, w, '\0');
      assert Stored(token, buflen) == buf[..w + 1];
    } else {
      assert Stored(token, buflen) == buf[..w];
    }
  }

  /**
   * One turn of `shell_parse`'s loop: it stops at an unquoted blank, gives up when a character
   * is to be pushed with no room left, and otherwise pushes what the step emits and moves on.
   */
  method PushStep(line: seq<char>, i: nat, quote: char, buf: array<char>, w: nat, room: int, buflen: int,
                  ghost token: seq<char>, ghost end: nat)
    returns (i': nat, quote': char, w': nat, room': int, stop: bool, full: bool)
    requires i < |line| && buflen <= buf.Length
    requires room == buflen - w && w <= (if buflen > 0 then buflen else 0)
    requires token == buf[..w] + Scan(line, i, quote, false).0 && end == Scan(line, i, quote, false).1
    modifies buf
    ensures w <= w' <= buf.Length && i' <= |line| && buf[w'..] == old(buf[w'..])
    ensures full ==> !Fits(token, buflen) && w' == (if buflen > 0 then buflen else 0) && buf[..w'] == token[..w']
    ensures !full && stop ==> i' == i && w' == w && room' == room && Scan(line, i', quote', false) == ([], i')
    ensures !full ==> room' == buflen - w' && w' <= (if buflen > 0 then buflen else 0)
    ensures !full ==> token == buf[..w'] + Scan(line, i', quote', false).0 && end == Scan(line, i', quote', false).1
    ensures !full && !stop ==> i < i' <= |line|
  {
    i', quote', w', room', stop, full := i, quote, w, room, false, false;
    var step := Advance(line, i, quote);
    if step.Stop? {
      ScanStopped(line, i, quote);
      stop := true;
      return;
    }
    ghost var before := buf[..w];
    var emit := step.emit;
    i', quote' := step.next, step.quote;
    ScanStep(line, i, quote, token, end, before, emit, i', quote');
    if emit != [] {
      if room <= 0 {
        full := true;
        assert buf[..w] == token[..w];
        return;
      }
      Put(buf, w, emit[0]);
      w' := w + 1;
      room' := room - 1;
    }
    assert buf[..w'] == before + emit;
  }

  /** The loop leaves at an unquoted blank with nothing more to push. */
  lemma ScanStopped(line: seq<char>, i: nat, quote: char)
    requires i < |line| && NextStep(line, i, quote, false).Stop?
    ensures Scan(line, i, quote, false) == ([], i)
  {
  }

  /** What the loop has pushed, followed by what the rest of the scan pushes, after one more step. */
  lemma ScanStep(line: seq<char>, i0: nat, q0: char, token: seq<char>, end: nat, before: seq<char>,
                 emit: seq<char>, i: nat, quote: char)
    requires i0 < |line|
    requires token == before + Scan(line, i0, q0, false).0 && end == Scan(line, i0, q0, false).1
    requires NextStep(line, i0, q0, false) == Go(emit, i, quote)
    ensures token == (before + emit) + Scan(line, i, quote, false).0 && end == Scan(line, i, quote, false).1
  {
    var rest := Scan(line, i, quote, false);
    assert Scan(line, i0, q0, false) == (emit + rest.0, rest.1);
    assert before + (emit + rest.0) == (before + emit) + rest.0;
  }

  /** One step of the loop that pushes and moves on. */
  lemma ScanGo(line: seq<char>, i: nat, quote: char, corrected: bool, emit: seq<char>, next: nat, q: char)
    requires i < |line| && NextStep(line, i, quote, corrected) == Go(emit, next, q)
    ensures Scan(line, i, quote, corrected) ==
      (emit + Scan(line, next, q, corrected).0, Scan(line, next, q, corrected).1)
  {
  }

  // ---------------------------------------------------------------------------------------------
  // Quotes

  /** The characters of s without its quote characters. */
  function Unquoted(s: seq<char>): (r: seq<char>)
    ensures forall k :: 0 <= k < |r| ==> !IsQuote(r[k])
    ensures |r| <= |s|
  {
    if s == [] then [] else (if IsQuote(s[0]) then [] else [s[0]]) + Unquoted(s[1..])
  }

  /**
   * Without backslashes, a token is the text it spans with its quote characters dropped, whether
   * they open, close or switch quoting.
   */
  lemma {:induction false} QuotesDropped(line: seq<char>, i: nat, quote: char, corrected: bool)
    requires i <= |line| && forall k :: i <= k < |line| ==> line[k] != '\\'
    ensures var r := Scan(line, i, quote, corrected); r.0 == Unquoted(line[i..r.1])
    decreases |line| - i
  {
    if i < |line| {
      match NextStep(line, i, quote, corrected)
      case Stop =>
      case Go(emit, next, q) =>
        QuotesDropped(line, next, q, corrected);
        var e := Scan(line, next, q, corrected).1;
        assert line[i..e][1..] == line[next..e];
    }
  }

  // ---------------------------------------------------------------------------------------------
  // Escaping a string so that it reads back as one token

  /**
   * The letter that stands for a control character in an escape, for those escaped by letter
   * (tab is escaped as a blank instead).
   */
  function ControlLetter(c: char): (r: Option<char>)
    ensures r.Some? ==> ControlEscape(r.value) == Some(c) && !IsLiteralEscape(r.value)
  {
    if c == 7 as char then Some('a')
    else if c == 8 as char then Some('b')
    else if c == 27 as char then Some('e')
    else if c == 12 as char then Some('f')
    else if c == 10 as char then Some('n')
    else if c == 13 as char then Some('r')
    else if c == 11 as char then Some('v')
    else None
  }

  /**
   * One character written for the tokenizer: a backslash before quotes, backslashes and blanks,
   * and, with `controls`, control characters written as their letter escape.
   */
  function EscapeChar(c: char, controls: bool): (r: seq<char>)
    ensures 0 < |r| <= 2 && !Blank(r[0])
  {
    if IsQuote(c) || c == '\\' || Blank(c) then ['\\', c]
    else if controls && ControlLetter(c).Some? then ['\\', ControlLetter(c).value]
    else [c]
  }

  function Escaped(s: seq<char>, controls: bool): (r: seq<char>)
    ensures |r| >= |s|
  {
    if s == [] then [] else EscapeChar(s[0], controls) + Escaped(s[1..], controls)
  }

  /** The loop stops at the end of the line and at a blank outside quotes. */
  lemma ScanStop(line: seq<char>, i: nat, corrected: bool)
    requires i == |line| || (i < |line| && Blank(line[i]))
    ensures Scan(line, i, '\0', corrected) == ([], i)
  {
  }

  /** The one or two characters w stand in the line at i. */
  predicate WrittenAt(line: seq<char>, i: nat, w: seq<char>)
  {
    0 < |w| <= 2 && i + |w| <= |line| && line[i] == w[0] && (|w| == 2 ==> line[i + 1] == w[1])
  }

  /** The loop reads one escaped character back, outside quotes. */
  lemma EscapeCharStep(line: seq<char>, i: nat, c: char, controls: bool, corrected: bool)
    requires controls ==> corrected
    requires WrittenAt(line, i, EscapeChar(c, controls))
    ensures NextStep(line, i, '\0', corrected) == Go([c], i + |EscapeChar(c, controls)|, '\0')
  {
  }

  /** A slice holding a + b holds a, then b. */
  lemma SliceSplit(line: seq<char>, i: nat, a: seq<char>, b: seq<char>)
    requires i + |a| + |b| <= |line| && line[i..i + |a| + |b|] == a + b
    ensures line[i..i + |a|] == a && line[i + |a|..i + |a| + |b|] == b
  {
    assert line[i..i + |a|] == line[i..i + |a| + |b|][..|a|];
    assert line[i + |a|..i + |a| + |b|] == line[i..i + |a| + |b|][|a|..];
  }

  /** A step that pushes one character, followed by the rest of the scan. */
  lemma ScanCons(line: seq<char>, i: nat, corrected: bool, x: char, j: nat, u: seq<char>, k: nat)
    requires i < |line| && NextStep(line, i, '\0', corrected) == Go([x], j, '\0')
    requires Scan(line, j, '\0', corrected) == (u, k)
    ensures Scan(line, i, '\0', corrected) == ([x] + u, k)
  {
  }

  /** One escaped character, then the rest of the scan. */
  lemma ScanEscapedChar(line: seq<char>, i: nat, c: char, controls: bool, corrected: bool, j: nat, u: seq<char>,
                        k: nat)
    requires controls ==> corrected
    requires WrittenAt(line, i, EscapeChar(c, controls)) && j == i + |EscapeChar(c, controls)|
    requires Scan(line, j, '\0', corrected) == (u, k)
    ensures Scan(line, i, '\0', corrected) == ([c] + u, k)
  {
    EscapeCharStep(line, i, c, controls, corrected);
    ScanCons(line, i, corrected, c, j, u, k);
  }

  /**
   * The line holds, from i on, the escapes of the characters of t one after another, up to `end`,
   * where it ends or has a blank.
   */
  predicate Holds(line: seq<char>, i: nat, t: seq<char>, controls: bool, end: nat)
    decreases t
  {
    if t == [] then i == end && (end == |line| || (end < |line| && Blank(line[end])))
    else
      WrittenAt(line, i, EscapeChar(t[0], controls)) &&
      Holds(line, i + |EscapeChar(t[0], controls)|, t[1..], controls, end)
  }

  /** An escaped string, written at i and followed by the end or by a blank, is held there. */
  lemma {:induction false} EscapedHolds(line: seq<char>, i: nat, t: seq<char>, e: seq<char>, controls: bool)
    requires e == Escaped(t, controls)
    requires i + |e| <= |line| && line[i..i + |e|] == e
    requires i + |e| == |line| || Blank(line[i + |e|])
    ensures Holds(line, i, t, controls, i + |e|)
    decreases t
  {
    if t != [] {
      var head := EscapeChar(t[0], controls);
      var tail := Escaped(t[1..], controls);
      assert e == head + tail;
      SliceSplit(line, i, head, tail);
      assert line[i] == line[i..i + |head|][0];
      if |head| == 2 {
        assert line[i + 1] == line[i..i + |head|][1];
      }
      EscapedHolds(line, i + |head|, t[1..], tail, controls);
    }
  }

  /**
   * Escapes held at i read back as the characters they escape, outside quotes; letter escapes read
   * back only with the corrected escape step.
   */
  lemma {:induction false} HeldScan(line: seq<char>, i: nat, t: seq<char>, controls: bool, corrected: bool, end: nat)
    requires controls ==> corrected
    requires i <= |line| && Holds(line, i, t, controls, end)
    ensures Scan(line, i, '\0', corrected) == (t, end)
    decreases t
  {
    if t == [] {
      ScanStop(line, i, corrected);
    } else {
      var j := i + |EscapeChar(t[0], controls)|;
      var u := t[1..];
      HeldScan(line, j, u, controls, corrected, end);
      ScanEscapedChar(line, i, t[0], controls, corrected, j, u, end);
      assert [t[0]] + u == t;
    }
  }

  /**
   * The round trip: a non-empty escaped string, followed by nothing or by a blank, is parsed into
   * itself and a NUL when it fits, and the returned position is the end of the escaped text.
   */
  lemma EscapedRoundTrip(t: seq<char>, rest: seq<char>, buflen: int)
    requires t != [] && |t| < buflen
    requires rest == [] || Blank(rest[0])
    ensures Spec(Escaped(t, false) + rest, buflen) == Outcome(Some(|Escaped(t, false)|), t + ['\0'])
  {
    var e := Escaped(t, false);
    var line := e + rest;
    assert line[0..|e|] == e;
    EscapedHolds(line, 0, t, e, false);
    HeldScan(line, 0, t, false, false, |e|);
    assert SkipBlanks(line, 0) == 0;
  }

  /**
   * Finding, as written: "\n" pushes a newline and then the letter 'n', because the letter escapes
   * do not step over their letter.  A string holding a newline, escaped by letter, does not read
   * back.
   */
  lemma LetterEscapeRepeats()
    ensures Spec("\\n", 3) == Outcome(Some(2), [10 as char, 'n', '\0'])
    ensures Escaped([10 as char], true) == "\\n"
    ensures Scan("\\n", 0, '\0', false).0 != [10 as char]
  {
    var line := "\\n";
    assert NextStep(line, 0, '\0', false) == Go([10 as char], 1, '\0');
    assert NextStep(line, 1, '\0', false) == Go(['n'], 2, '\0');
    assert Scan(line, 2, '\0', false) == ([], 2);
    ScanGo(line, 1, '\0', false, ['n'], 2, '\0');
    ScanGo(line, 0, '\0', false, [10 as char], 1, '\0');
    assert ['n'] + Scan(line, 2, '\0', false).0 == ['n'];
    assert [10 as char] + ['n'] == [10 as char, 'n'];
  }

  /** Corrected: with the letter stepped over, every string escaped with letters reads back. */
  lemma LetterEscapesRoundTrip(t: seq<char>)
    requires t != []
    ensures Scan(Escaped(t, true), 0, '\0', true) == (t, |Escaped(t, true)|)
  {
    var e := Escaped(t, true);
    assert e[0..|e|] == e;
    EscapedHolds(e, 0, t, e, true);
    HeldScan(e, 0, t, true, true, |e|);
  }

  // ---------------------------------------------------------------------------------------------
  // Numeric escapes

  /** A leading zero does not change the value of a numeral. */
  lemma {:induction false} LeadingZero(t: seq<char>, n: nat, base: nat)
    requires 1 <= n <= |t| && t[0] == '0'
    requires forall j :: 0 <= j < n ==> IsDigitIn(t[j], base)
    ensures Value(t, 0, n, base) == Value(t, 1, n, base)
    decreases n
  {
    if n > 1 {
      LeadingZero(t, n - 1, base);
    }
  }

  /**
   * `strtol` on a run of n digits of base 8 or 16 that is not followed by another digit or by an
   * 'x', and whose value fits in a `long`, reads their value and ends after them.
   */
  lemma StrToLDigits(t: seq<char>, base: nat, n: nat)
    requires base == 8 || base == 16
    requires 1 <= n <= |t| && forall j :: 0 <= j < n ==> IsDigitIn(t[j], base)
    requires n == |t| || (!IsDigitIn(t[n], base) && t[n] != 'x' && t[n] != 'X')
    requires Value(t, 0, n, base) <= LONG_MAX
    ensures StrToL.Spec(t, base).value == Value(t, 0, n, base)
    ensures StrToL.Spec(t, base).end == Some(n)
  {
    assert SkipSpaces(t, 0) == 0;
    assert Sign(t, 0) == (0, false);
    var p := if t[0] == '0' then 1 else 0;
    assert Prefix(t, 0, base) == (p, base);
    assert DigitsEnd(t, p, base) == n;
    if p == 1 {
      LeadingZero(t, n, base);
    }
    WrapAccumExact(t, p, n, base);
  }

  /** The escape step on an octal digit: strtol in base 8 from that digit on. */
  lemma OctalStep(line: seq<char>, i: nat, corrected: bool)
    requires i + 1 < |line| && line[i] == '\\' && '0' <= line[i + 1] <= '7'
    ensures var p := StrToL.Spec(line[i + 1..], 8);
      EscapeStep(line, i, corrected) == ([ByteChar(p.value)], if p.end.Some? then i + 1 + p.end.value else i + 1)
  {
  }

  /** The escape step on 'x': strtol in base 16 from the character after it on. */
  lemma HexStep(line: seq<char>, i: nat, corrected: bool)
    requires i + 1 < |line| && line[i] == '\\' && line[i + 1] == 'x'
    ensures var p := StrToL.Spec(line[i + 2..], 16);
      EscapeStep(line, i, corrected) == ([ByteChar(p.value)], if p.end.Some? then i + 2 + p.end.value else i + 2)
  {
  }

  /** The digits of base 8 are '0' to '7'. */
  lemma OctalDigit(c: char)
    requires IsDigitIn(c, 8)
    ensures '0' <= c <= '7'
  {
  }

  /**
   * An octal escape of n digits that fits in a `long` pushes the low byte of their value and
   * reading goes on after them.
   */
  lemma OctalEscape(line: seq<char>, i: nat, n: nat, corrected: bool)
    requires i < |line| && line[i] == '\\'
    requires 1 <= n <= |line| - (i + 1) && forall j :: i + 1 <= j < i + 1 + n ==> IsDigitIn(line[j], 8)
    requires i + 1 + n == |line| || (!IsDigitIn(line[i + 1 + n], 8) && line[i + 1 + n] != 'x' && line[i + 1 + n] != 'X')
    requires Value(line, i + 1, i + 1 + n, 8) <= LONG_MAX
    ensures EscapeStep(line, i, corrected) == ([ByteChar(Value(line, i + 1, i + 1 + n, 8))], i + 1 + n)
  {
    var t := line[i + 1..];
    ValueSlice(line, i + 1, n, 8);
    StrToLDigits(t, 8, n);
    OctalDigit(line[i + 1]);
    OctalStep(line, i, corrected);
    var v := Value(line, i + 1, i + 1 + n, 8);
    assert StrToL.Spec(t, 8) == Parsed(v, Some(n), StrToL.Spec(t, 8).errno);
  }

  /**
   * A hexadecimal escape "\x" and n digits that fit in a `long` pushes the low byte of their value
   * and reading goes on after them.
   */
  lemma HexEscape(line: seq<char>, i: nat, n: nat, corrected: bool)
    requires i + 1 < |line| && line[i] == '\\' && line[i + 1] == 'x'
    requires 1 <= n <= |line| - (i + 2) && forall j :: i + 2 <= j < i + 2 + n ==> IsDigitIn(line[j], 16)
    requires i + 2 + n == |line| || (!IsDigitIn(line[i + 2 + n], 16) && line[i + 2 + n] != 'x' && line[i + 2 + n] != 'X')
    requires Value(line, i + 2, i + 2 + n, 16) <= LONG_MAX
    ensures EscapeStep(line, i, corrected) == ([ByteChar(Value(line, i + 2, i + 2 + n, 16))], i + 2 + n)
  {
    var t := line[i + 2..];
    ValueSlice(line, i + 2, n, 16);
    StrToLDigits(t, 16, n);
    HexStep(line, i, corrected);
    var v := Value(line, i + 2, i + 2 + n, 16);
    assert StrToL.Spec(t, 16) == Parsed(v, Some(n), StrToL.Spec(t, 16).errno);
  }
}
