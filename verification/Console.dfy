/** The keyboard line editor and the screen it echoes to, as a value and its transitions. */
module Console {
  import opened Bytes

  const BACKSPACE: byte := 8
  const NEWLINE: byte := 10
  const SPACE: byte := 32
  const CAPSLOCK_CODE: byte := 0x3A
  const BUFFER_SIZE: nat := 256
  const DELIVERED: nat := 120
  const WHITE: nat := 0xF

  // ---------------------------------------------------------------- scancodes

  /** The plain scancode table; key releases (codes from 128 on) and unlisted keys map to 0. */
  function Key(code: byte): (c: byte)
    ensures c < 128 && (code >= 128 ==> c == 0)
    ensures (c == NEWLINE <==> code == 0x1C) && (c == BACKSPACE <==> code == 0x0E)
  {
    match code
    case 1 => 27 case 2 => 49 case 3 => 50 case 4 => 51 case 5 => 52 case 6 => 53 case 7 => 54 case 8 => 55
    case 9 => 56 case 10 => 57 case 11 => 48 case 12 => 45 case 13 => 61 case 14 => 8 case 15 => 9 case 16 => 113
    case 17 => 119 case 18 => 101 case 19 => 114 case 20 => 116 case 21 => 121 case 22 => 117 case 23 => 105
    case 24 => 111
    case 25 => 112 case 26 => 91 case 27 => 93 case 28 => 10 case 30 => 97 case 31 => 115 case 32 => 100 case 33 => 102
    case 34 => 103 case 35 => 104 case 36 => 106 case 37 => 107 case 38 => 108 case 39 => 59 case 40 => 39 case 41 => 96
    case 43 => 92 case 44 => 122 case 45 => 120 case 46 => 99 case 47 => 118 case 48 => 98 case 49 => 110 case 50 => 109
    case 51 => 44 case 52 => 46 case 53 => 47 case 55 => 42 case 57 => 32 case 74 => 45 case 78 => 43
    case _ => 0
  }

  function Upper(c: byte): byte { if 97 <= c <= 122 then c - 32 else c }

  /** With caps lock on the letters are in upper case; the two tables differ in nothing else. */
  function Ascii(caps: bool, code: byte): (c: byte)
    ensures c < 128 && (code >= 128 ==> c == 0)
    ensures (c == NEWLINE <==> code == 0x1C) && (c == BACKSPACE <==> code == 0x0E)
  {
    if caps then Upper(Key(code)) else Key(code)
  }

  /** What is printed on the keys: four rows of twelve, the keys with a name, and nothing else. */
  function Printed(code: byte): int
  {
    if 2 <= code < 14 then "1234567890-="[code - 2] as int
    else if 16 <= code < 28 then "qwertyuiop[]"[code - 16] as int
    else if 30 <= code < 42 then "asdfghjkl;'`"[code - 30] as int
    else if 43 <= code < 54 then "\\zxcvbnm,./"[code - 43] as int
    else if code == 1 then 27 else if code == 14 then 8 else if code == 15 then 9 else if code == 28 then 10
    else if code == 55 then '*' as int else if code == 57 then ' ' as int
    else if code == 74 then '-' as int else if code == 78 then '+' as int else 0
  }

  /** The same with caps lock on. */
  function PrintedUpper(code: byte): int
  {
    if 16 <= code < 28 then "QWERTYUIOP[]"[code - 16] as int
    else if 30 <= code < 42 then "ASDFGHJKL;'`"[code - 30] as int
    else if 43 <= code < 54 then "\\ZXCVBNM,./"[code - 43] as int
    else Printed(code)
  }

  lemma DigitRow(code: byte)
    requires 2 <= code < 14
    ensures Key(code) == "1234567890-="[code - 2] as int
  {
  }

  lemma UpperRow(code: byte)
    requires 16 <= code < 28
    ensures Key(code) == "qwertyuiop[]"[code - 16] as int
    ensures Upper(Key(code)) == "QWERTYUIOP[]"[code - 16] as int
  {
  }

  lemma HomeRow(code: byte)
    requires 30 <= code < 42
    ensures Key(code) == "asdfghjkl;'`"[code - 30] as int
    ensures Upper(Key(code)) == "ASDFGHJKL;'`"[code - 30] as int
  {
  }

  lemma LowerRow(code: byte)
    requires 43 <= code < 54
    ensures Key(code) == "\\zxcvbnm,./"[code - 43] as int
    ensures Upper(Key(code)) == "\\ZXCVBNM,./"[code - 43] as int
  {
  }

  lemma OtherKeys(code: byte)
    requires !(2 <= code < 14) && !(16 <= code < 28) && !(30 <= code < 42) && !(43 <= code < 54)
    ensures Ascii(false, code) == Ascii(true, code) == Printed(code)
  {
  }

  /** The two scancode tables are what is printed on the keys. */
  lemma KeyTables(code: byte)
    ensures Ascii(false, code) == Printed(code) && Ascii(true, code) == PrintedUpper(code)
  {
    hide Key;
    if 2 <= code < 14 {
      DigitRow(code);
    } else if 16 <= code < 28 {
      UpperRow(code);
    } else if 30 <= code < 42 {
      HomeRow(code);
    } else if 43 <= code < 54 {
      LowerRow(code);
    } else {
      OtherKeys(code);
    }
  }

  // ---------------------------------------------------------------- state

  /** Cursor position, the column the line was entered at, caps lock, the line buffer, and the text memory. */
  datatype Tty = Tty(row: nat, col: nat, recent: nat, bound: nat, caps: bool, on: bool,
                     buffer: seq<byte>, index: nat, cells: seq<u16>)
  {
    /** Rows and columns reach the screen as 8-bit values, so the highest cell is 255 * 80 + 255. */
    predicate Valid() { |buffer| == BUFFER_SIZE && |cells| == 20656 && index <= BUFFER_SIZE }

    function Text(): seq<byte>
      requires Valid()
    {
      buffer[..index]
    }
  }

  /** A text cell: the character (sign-extended) combined with the attribute byte, cut to 16 bits. */
  function Cell(c: byte, fg: nat, bg: nat): (r: u16)
    ensures r % 0x100 == c
    ensures r / 0x100 == if c < 128 then bg % 16 * 16 + fg % 16 else 0xFF
  {
    if c >= 128 then 0xFF00 + c else c + 0x100 * (bg % 16 * 16 + fg % 16)
  }

  function CellIndex(row: nat, col: nat): (k: nat)
    ensures k < 20656
  {
    row % 0x100 * 80 + col % 0x100
  }

  function Draw(cells: seq<u16>, row: nat, col: nat, c: byte, fg: nat): (r: seq<u16>)
    ensures |r| == |cells|
  {
    if CellIndex(row, col) < |cells| then cells[CellIndex(row, col) := Cell(c, fg, 0)] else cells
  }

  function Activate(t: Tty): Tty { t.(on := true, index := 0, buffer := Zeros(BUFFER_SIZE)) }

  // ---------------------------------------------------------------- one scancode

  /** A key that stores into the line buffer needs room for it. */
  predicate PressFits(t: Tty, code: byte)
  {
    t.on && code != CAPSLOCK_CODE && Ascii(t.caps, code) != 0 && Ascii(t.caps, code) != BACKSPACE
    ==> t.index < BUFFER_SIZE
  }

  function Rubout(t: Tty): Tty
  {
    var u :=
      if t.col > 0 then
        if t.col > t.bound && t.index != 0 then
          t.(col := t.col - 1, cells := Draw(t.cells, t.row, t.col - 1, SPACE, WHITE))
        else t
      else if t.row > 0 then
        t.(row := t.row - 1, col := t.recent, cells := Draw(t.cells, t.row - 1, t.recent, SPACE, WHITE))
      else t;
    u.(index := if t.index > 0 then t.index - 1 else 0)
  }

  function Enter(t: Tty): Tty
    requires t.index < |t.buffer|
  {
    t.(row := t.row + 1, recent := t.col, col := 0, buffer := t.buffer[t.index := 0], index := 0, on := false)
  }

  function Insert(t: Tty, c: byte): Tty
    requires t.index < |t.buffer|
  {
    t.(buffer := t.buffer[t.index := c], index := t.index + 1, col := t.col + 1,
       cells := Draw(Draw(t.cells, t.row, t.col, c, WHITE), t.row, t.col + 1, SPACE, WHITE))
  }

  /** The interrupt handler on one scancode. */
  function Press(t: Tty, code: byte): (u: Tty)
    requires t.Valid() && PressFits(t, code)
    ensures u.Valid()
  {
    if code == CAPSLOCK_CODE then t.(caps := !t.caps)
    else if !t.on then t.(index := 0)
    else
      var c := Ascii(t.caps, code);
      if c == 0 then t
      else if c == BACKSPACE then Rubout(t)
      else if c == NEWLINE then Enter(t)
      else Insert(t, c)
  }

  // ---------------------------------------------------------------- streams

  /** No key of the stream overruns the line buffer. */
  predicate NoOverrun(t: Tty, codes: seq<byte>)
    requires t.Valid()
    decreases |codes|
  {
    codes == [] || (PressFits(t, codes[0]) && NoOverrun(Press(t, codes[0]), codes[1..]))
  }

  function Type(t: Tty, codes: seq<byte>): (u: Tty)
    requires t.Valid() && NoOverrun(t, codes)
    ensures u.Valid()
    decreases |codes|
  {
    if codes == [] then t else Type(Press(t, codes[0]), codes[1..])
  }

  /** Any stream short enough for the buffer is fine. */
  lemma {:induction false} ShortStreamsFit(t: Tty, codes: seq<byte>)
    requires t.Valid() && t.index + |codes| <= BUFFER_SIZE
    ensures NoOverrun(t, codes)
    decreases |codes|
  {
    if codes != [] {
      ShortStreamsFit(Press(t, codes[0]), codes[1..]);
    }
  }

  /** What a stream of scancodes means as edits of a line. */
  datatype Edit = Push(c: byte) | Pop

  function Edits(caps: bool, codes: seq<byte>): seq<Edit>
    decreases |codes|
  {
    if codes == [] then []
    else if codes[0] == CAPSLOCK_CODE then Edits(!caps, codes[1..])
    else
      var c := Ascii(caps, codes[0]);
      (if c == 0 then [] else if c == BACKSPACE then [Pop] else [Push(c)]) + Edits(caps, codes[1..])
  }

  function Apply(line: seq<byte>, e: Edit): seq<byte>
  {
    match e
    case Push(c) => line + [c]
    case Pop => if line == [] then [] else line[..|line| - 1]
  }

  function Fold(line: seq<byte>, edits: seq<Edit>): seq<byte>
    decreases |edits|
  {
    if edits == [] then line else Fold(Apply(line, edits[0]), edits[1..])
  }

  /** The same line read off from the right: a push survives unless a later pop is waiting for it. */
  function Kept(edits: seq<Edit>, pending: nat): seq<byte>
    decreases |edits|
  {
    if edits == [] then []
    else
      var init, last := edits[..|edits| - 1], edits[|edits| - 1];
      if last.Pop? then Kept(init, pending + 1)
      else if pending > 0 then Kept(init, pending - 1)
      else Kept(init, 0) + [last.c]
  }

  lemma {:induction false} FoldLast(line: seq<byte>, edits: seq<Edit>)
    requires edits != []
    ensures Fold(line, edits) == Apply(Fold(line, edits[..|edits| - 1]), edits[|edits| - 1])
    decreases |edits|
  {
    if |edits| > 1 {
      FoldLast(Apply(line, edits[0]), edits[1..]);
      assert edits[1..][..|edits| - 2] == edits[..|edits| - 1][1..];
    }
  }

  /** Pushing and popping from the left keeps exactly the pushes no later pop is waiting for. */
  lemma {:induction false} KeptIsFold(edits: seq<Edit>, pending: nat)
    decreases |edits|
    ensures var line := Fold([], edits);
            Kept(edits, pending) == line[..if pending <= |line| then |line| - pending else 0]
  {
    if edits != [] {
      FoldLast([], edits);
      var init, last := edits[..|edits| - 1], edits[|edits| - 1];
      if last.Pop? {
        KeptIsFold(init, pending + 1);
      } else if pending > 0 {
        KeptIsFold(init, pending - 1);
      } else {
        KeptIsFold(init, 0);
      }
    }
  }

  /** While the line is open, the buffer holds the fold of the edits typed so far. */
  lemma {:induction false} TextFollowsEdits(t: Tty, codes: seq<byte>)
    requires t.Valid() && t.on && NoOverrun(t, codes) && 0x1C !in codes
    ensures Type(t, codes).on && Type(t, codes).Text() == Fold(t.Text(), Edits(t.caps, codes))
    decreases |codes|
  {
    if codes != [] {
      assert codes[0] != 0x1C;
      var u := Press(t, codes[0]);
      TextFollowsEdits(u, codes[1..]);
      PressEdits(t, codes[0]);
      assert Edits(t.caps, codes) == EditsOf(t.caps, codes[0]) + Edits(u.caps, codes[1..]);
      FoldConcat(t.Text(), EditsOf(t.caps, codes[0]), Edits(u.caps, codes[1..]));
    }
  }

  /** The edits one scancode stands for. */
  function EditsOf(caps: bool, code: byte): seq<Edit>
  {
    if code == CAPSLOCK_CODE || Ascii(caps, code) == 0 then []
    else if Ascii(caps, code) == BACKSPACE then [Pop]
    else [Push(Ascii(caps, code))]
  }

  lemma PressEdits(t: Tty, code: byte)
    requires t.Valid() && t.on && PressFits(t, code) && code != 0x1C
    ensures var u := Press(t, code);
            && u.on && u.Text() == Fold(t.Text(), EditsOf(t.caps, code))
            && u.caps == if code == CAPSLOCK_CODE then !t.caps else t.caps
  {
    hide Ascii, Draw;
    var e := EditsOf(t.caps, code);
    if e != [] {
      assert e[1..] == [];
      assert Fold(t.Text(), e) == Apply(t.Text(), e[0]);
    }
  }

  lemma {:induction false} FoldConcat(line: seq<byte>, a: seq<Edit>, b: seq<Edit>)
    ensures Fold(line, a + b) == Fold(Fold(line, a), b)
    decreases |a|
  {
    if a == [] {
      assert a + b == b;
    } else {
      FoldConcat(Apply(line, a[0]), a[1..], b);
      assert (a + b)[0] == a[0] && (a + b)[1..] == a[1..] + b;
    }
  }

  // ---------------------------------------------------------------- input off

  /** Whether a stream leaves caps lock the other way round. */
  predicate Toggles(codes: seq<byte>)
  {
    codes != [] && ((codes[0] == CAPSLOCK_CODE) != Toggles(codes[1..]))
  }

  predicate OnlyCaps(codes: seq<byte>)
  {
    codes == [] || (codes[0] == CAPSLOCK_CODE && OnlyCaps(codes[1..]))
  }

  /** With input off no key reaches the line or the screen; caps lock works, any other key empties the line. */
  lemma {:induction false} InputOff(t: Tty, codes: seq<byte>)
    requires t.Valid() && !t.on
    ensures NoOverrun(t, codes)
    ensures Type(t, codes) == t.(caps := t.caps != Toggles(codes), index := if OnlyCaps(codes) then t.index else 0)
    decreases |codes|
  {
    hide Ascii;
    if codes != [] {
      InputOff(Press(t, codes[0]), codes[1..]);
    }
  }

  // ---------------------------------------------------------------- the delivered line

  /** No key produces a NUL, so the line is a C string. */
  lemma {:induction false} NoNuls(line: seq<byte>, caps: bool, codes: seq<byte>)
    requires 0 !in line
    ensures 0 !in Fold(line, Edits(caps, codes))
    decreases |codes|
  {
    hide Ascii;
    if codes != [] {
      var e, next := EditsOf(caps, codes[0]), if codes[0] == CAPSLOCK_CODE then !caps else caps;
      var rest := Edits(next, codes[1..]);
      assert Edits(caps, codes) == e + rest;
      FoldConcat(line, e, rest);
      if e != [] {
        assert e[1..] == [];
        assert Fold(line, e) == Apply(line, e[0]);
      }
      NoNuls(Fold(line, e), next, codes[1..]);
    }
  }

  /** The greatest length the line has on the way. */
  function Longest(line: seq<byte>, edits: seq<Edit>): (n: nat)
    ensures n >= |line|
    decreases |edits|
  {
    if edits == [] then |line|
    else
      var n := Longest(Apply(line, edits[0]), edits[1..]);
      if n >= |line| then n else |line|
  }

  lemma LongestConcat(line: seq<byte>, a: seq<Edit>, b: seq<Edit>)
    requires |a| <= 1
    ensures Longest(line, a + b) >= Longest(Fold(line, a), b)
  {
    if a == [] {
      assert a + b == b && Fold(line, a) == line;
    } else {
      assert a + b != [] && (a + b)[0] == a[0] && (a + b)[1..] == b && a[1..] == [];
      assert Fold(line, a) == Fold(Apply(line, a[0]), []) == Apply(line, a[0]);
      assert Longest(line, a + b) >= Longest(Apply(line, a[0]), (a + b)[1..]);
    }
  }

  /** Behind the greatest length of the line the buffer is as it was. */
  lemma {:induction false} TailUntouched(t: Tty, codes: seq<byte>, k: nat)
    requires t.Valid() && t.on && NoOverrun(t, codes) && 0x1C !in codes
    requires Longest(t.Text(), Edits(t.caps, codes)) <= k < BUFFER_SIZE
    ensures Type(t, codes).buffer[k] == t.buffer[k]
    decreases |codes|
  {
    hide Ascii, Draw, Fold, Longest;
    if codes != [] {
      assert codes[0] != 0x1C;
      var u := Press(t, codes[0]);
      PressEdits(t, codes[0]);
      assert Edits(t.caps, codes) == EditsOf(t.caps, codes[0]) + Edits(u.caps, codes[1..]);
      LongestConcat(t.Text(), EditsOf(t.caps, codes[0]), Edits(u.caps, codes[1..]));
      TailUntouched(u, codes[1..], k);
    }
  }

  /** The C string at the head of a buffer. */
  function CString(b: seq<byte>): seq<byte> { b[..StrLen(b)] }

  lemma EnterCloses(t: Tty)
    requires t.Valid() && t.on && t.index < BUFFER_SIZE
    ensures PressFits(t, 0x1C) && Press(t, 0x1C) == Enter(t)
  {
  }

  lemma Terminated(b: seq<byte>, line: seq<byte>)
    requires |line| < |b| && b[..|line|] == line && b[|line|] == 0 && 0 !in line
    ensures CString(b) == line
  {
    forall k | 0 <= k < |line| ensures b[k] != 0 {
      assert b[k] == line[k];
    }
    assert StrLen(b) == |line|;
  }

  /**
   * Line editing: whatever is typed after activation (releases, caps lock and backspaces in any order),
   * the C string delivered on Enter is the pushed characters that no later backspace is waiting for, and
   * nothing of an earlier line is delivered behind it.
   */
  lemma LineEditing(t: Tty, codes: seq<byte>)
    requires t.Valid() && NoOverrun(Activate(t), codes) && 0x1C !in codes
    requires |Fold([], Edits(t.caps, codes))| < DELIVERED
    ensures var u := Type(Activate(t), codes);
            && PressFits(u, 0x1C) && !Press(u, 0x1C).on
            && CString(Press(u, 0x1C).buffer[..DELIVERED]) == Fold([], Edits(t.caps, codes))
            && Fold([], Edits(t.caps, codes)) == Kept(Edits(t.caps, codes), 0)
            && forall k :: Longest([], Edits(t.caps, codes)) <= k < DELIVERED ==> Press(u, 0x1C).buffer[k] == 0
  {
    hide Ascii, Draw, Edits, Press, Fold, Longest, Kept, StrLen;
    var a := Activate(t);
    var u := Type(a, codes);
    TextFollowsEdits(a, codes);
    assert a.Text() == [];
    NoNuls([], t.caps, codes);
    KeptIsFold(Edits(t.caps, codes), 0);
    EnterCloses(u);
    var b := u.buffer[u.index := 0][..DELIVERED];
    assert b[..u.index] == u.Text();
    Terminated(b, u.Text());
    forall k | Longest([], Edits(t.caps, codes)) <= k < DELIVERED ensures Press(u, 0x1C).buffer[k] == 0 {
      TailUntouched(a, codes, k);
    }
  }

  // ---------------------------------------------------------------- the echo

  /** A cell, decoded: the character in its low byte, and in the high byte the colour on black. */
  predicate Holds(cell: u16, c: byte, color: nat)
  {
    cell % 0x100 == c && (c < 128 ==> cell / 0x100 == color % 0x10)
  }

  /** Cells of a row from `from` on show `text` in a colour on black. */
  predicate Shows(cells: seq<u16>, row: nat, from: nat, text: seq<byte>, color: nat)
  {
    && row < 0x100 && from + |text| <= 0x100 && |cells| == 20656
    && forall k :: 0 <= k < |text| ==> Holds(cells[row * 80 + from + k], text[k], color)
  }

  /** The screen agrees with the line buffer: the row shows the line, and the cursor is behind its last character. */
  predicate InStep(t: Tty)
  {
    t.Valid() && t.on && t.col == t.bound + t.index < 0x100 && Shows(t.cells, t.row, t.bound, t.Text(), WHITE)
  }

  /** A character key that is not at the right edge of the addressable row. */
  predicate HasRoom(t: Tty, code: byte)
  {
    code != CAPSLOCK_CODE && Ascii(t.caps, code) != 0 && Ascii(t.caps, code) != BACKSPACE ==> t.col + 1 < 0x100
  }

  lemma DrawElsewhere(cells: seq<u16>, row: nat, col: nat, c: byte, fg: nat)
    requires |cells| == 20656 && row < 0x100 && col < 0x100
    ensures Holds(Draw(cells, row, col, c, fg)[row * 80 + col], c, fg)
    ensures forall k :: 0 <= k < |cells| && k != row * 80 + col ==> Draw(cells, row, col, c, fg)[k] == cells[k]
  {
  }

  /** Rows and columns count modulo 256; inside that range a row is 80 cells. */
  lemma CellAddress(row: nat, col: nat)
    ensures row < 0x100 && col < 0x100 ==> CellIndex(row, col) == row * 80 + col
    ensures CellIndex(row + 0x100, col) == CellIndex(row, col) == CellIndex(row, col + 0x100)
  {
  }

  lemma DrawAnywhere(cells: seq<u16>, row: nat, col: nat, c: byte, fg: nat)
    requires |cells| == 20656
    ensures Holds(Draw(cells, row, col, c, fg)[CellIndex(row, col)], c, fg)
    ensures forall k :: 0 <= k < |cells| && k != CellIndex(row, col) ==> Draw(cells, row, col, c, fg)[k] == cells[k]
  {
  }

  /** Backspace in any state: where the cursor goes, the one cell that is blanked, and nothing else. */
  lemma BackspaceAnywhere(t: Tty)
    requires t.Valid() && t.on
    ensures var u, left, up := Press(t, 0x0E), t.col > t.bound && t.index > 0, t.col == 0 && t.row > 0;
            && u == t.(row := u.row, col := u.col, index := u.index, cells := u.cells) && |u.cells| == |t.cells|
            && u.row == (if up then t.row - 1 else t.row)
            && u.col == (if left then t.col - 1 else if up then t.recent else t.col)
            && u.index == (if t.index > 0 then t.index - 1 else 0)
            && (left || up ==> Holds(u.cells[CellIndex(u.row, u.col)], 0x20, 0xF))
            && (forall k :: 0 <= k < |t.cells| && !((left || up) && k == CellIndex(u.row, u.col)) ==>
                  u.cells[k] == t.cells[k])
  {
    hide Key, Upper, Cell, Draw, CellIndex;
    if t.col > t.bound && t.index > 0 {
      DrawAnywhere(t.cells, t.row, t.col - 1, SPACE, WHITE);
    } else if t.col == 0 && t.row > 0 {
      DrawAnywhere(t.cells, t.row - 1, t.recent, SPACE, WHITE);
    }
  }

  /** A character in any state: it is appended to the line and drawn, the next cell is blanked, and nothing else. */
  lemma CharacterAnywhere(t: Tty, code: byte)
    requires t.Valid() && t.on && PressFits(t, code) && code != CAPSLOCK_CODE
    requires Ascii(t.caps, code) !in {0, 8, 10}
    ensures var u, c := Press(t, code), Ascii(t.caps, code);
            && u == t.(col := t.col + 1, buffer := t.buffer[t.index := c], index := t.index + 1, cells := u.cells)
            && |u.cells| == |t.cells|
            && Holds(u.cells[CellIndex(t.row, t.col)], c, 0xF)
            && Holds(u.cells[CellIndex(t.row, t.col + 1)], 0x20, 0xF)
            && (forall k :: 0 <= k < |t.cells| && k != CellIndex(t.row, t.col) && k != CellIndex(t.row, t.col + 1) ==>
                  u.cells[k] == t.cells[k])
  {
    hide Ascii, Cell, Draw;
    var c := Ascii(t.caps, code);
    DrawAnywhere(t.cells, t.row, t.col, c, WHITE);
    DrawAnywhere(Draw(t.cells, t.row, t.col, c, WHITE), t.row, t.col + 1, SPACE, WHITE);
  }

  /** Caps lock changes nothing else, and releases and keys without a character change nothing, in any state. */
  lemma QuietKeys(t: Tty, code: byte)
    requires t.Valid() && t.on && (code == CAPSLOCK_CODE || Ascii(t.caps, code) == 0)
    ensures PressFits(t, code) && Press(t, code) == if code == 0x3A then t.(caps := !t.caps) else t
  {
    hide Ascii;
  }

  /** Enter in any state: the next row, column 0, the column it was pressed at remembered, and the line closed. */
  lemma EnterAnywhere(t: Tty)
    requires t.Valid() && t.on && t.index < BUFFER_SIZE
    ensures PressFits(t, 0x1C)
    ensures var u := Press(t, 0x1C);
            && u.row == t.row + 1 && u.col == 0 && u.recent == t.col && u.bound == t.bound && u.caps == t.caps
            && !u.on && u.index == 0 && u.buffer == t.buffer[t.index := 0] && u.cells == t.cells
  {
    EnterCloses(t);
  }

  /** A backspace on an empty line that starts at column 0 below the top row. */
  predicate ClimbsOut(t: Tty, code: byte)
  {
    code != CAPSLOCK_CODE && Ascii(t.caps, code) == BACKSPACE && t.index == 0 && t.bound == 0 && t.row > 0
  }

  lemma EchoInsert(t: Tty, c: byte)
    requires InStep(t) && t.index < BUFFER_SIZE && t.col + 1 < 0x100
    ensures var u := Insert(t, c);
            && InStep(u) && u.row == t.row && u.bound == t.bound
            && (forall k :: 0 <= k < |t.cells| && !(t.row * 80 + t.bound <= k <= t.row * 80 + t.col + 1) ==>
                  u.cells[k] == t.cells[k])
  {
    hide Cell, Draw;
    var cells := Draw(t.cells, t.row, t.col, c, WHITE);
    DrawElsewhere(t.cells, t.row, t.col, c, WHITE);
    DrawElsewhere(cells, t.row, t.col + 1, SPACE, WHITE);
  }

  /**
   * One key short of Enter keeps screen and buffer in step, on the same row, and only touches cells
   * between the input column and the one after the cursor, with one exception: a backspace on an empty
   * line at column 0 moves into the row above.
   */
  lemma EchoStep(t: Tty, code: byte)
    requires InStep(t) && PressFits(t, code) && code != 0x1C && HasRoom(t, code)
    ensures var u := Press(t, code);
            if ClimbsOut(t, code) then u.row == t.row - 1 && u.col == t.recent && u.on
            else
              && InStep(u) && u.row == t.row && u.bound == t.bound
              && (forall k :: 0 <= k < |t.cells| && !(t.row * 80 + t.bound <= k <= t.row * 80 + t.col + 1) ==>
                    u.cells[k] == t.cells[k])
  {
    hide Ascii, Cell, Draw, Insert;
    var c := Ascii(t.caps, code);
    if code == CAPSLOCK_CODE || c == 0 {
    } else if c == BACKSPACE {
      if t.index > 0 {
        DrawElsewhere(t.cells, t.row, t.col - 1, SPACE, WHITE);
      }
    } else {
      assert Press(t, code) == Insert(t, c);
      EchoInsert(t, c);
    }
  }

  /** No key of the stream reaches the right edge. */
  predicate StaysInRow(t: Tty, codes: seq<byte>)
    requires t.Valid() && NoOverrun(t, codes)
    decreases |codes|
  {
    codes == [] || (HasRoom(t, codes[0]) && StaysInRow(Press(t, codes[0]), codes[1..]))
  }

  /** No pop arrives at an empty line. */
  predicate Guarded(line: seq<byte>, edits: seq<Edit>)
    decreases |edits|
  {
    edits == [] || ((edits[0].Pop? ==> line != []) && Guarded(Apply(line, edits[0]), edits[1..]))
  }

  lemma GuardedConcat(line: seq<byte>, a: seq<Edit>, b: seq<Edit>)
    requires |a| <= 1
    ensures Guarded(line, a + b) <==> Guarded(line, a) && Guarded(Fold(line, a), b)
  {
    if a == [] {
      assert a + b == b;
    } else {
      assert (a + b)[0] == a[0] && (a + b)[1..] == b && a[1..] == [];
      assert Fold(line, a) == Apply(line, a[0]);
    }
  }

  /** Short of Enter the cursor never goes down. */
  lemma {:induction false} RowsFall(t: Tty, codes: seq<byte>)
    requires t.Valid() && t.on && NoOverrun(t, codes) && 0x1C !in codes
    ensures Type(t, codes).row <= t.row
    decreases |codes|
  {
    hide Ascii, Draw;
    if codes != [] {
      assert codes[0] != 0x1C;
      RowsFall(Press(t, codes[0]), codes[1..]);
    }
  }

  /** What keeps a line on its row: it starts at a non-zero column or in the top row, or no pop meets it empty. */
  predicate HoldsRow(t: Tty, codes: seq<byte>)
    requires t.Valid()
  {
    t.bound > 0 || t.row == 0 || Guarded(t.Text(), Edits(t.caps, codes))
  }

  lemma HoldsRowStep(t: Tty, code: byte, rest: seq<byte>)
    requires InStep(t) && PressFits(t, code) && code != 0x1C && HasRoom(t, code)
    ensures ClimbsOut(t, code) ==> !HoldsRow(t, [code] + rest)
    ensures !ClimbsOut(t, code) ==> (HoldsRow(t, [code] + rest) <==> HoldsRow(Press(t, code), rest))
  {
    hide Ascii, Draw, Press, Shows, Fold, Guarded;
    EchoStep(t, code);
    PressEdits(t, code);
    var caps := if code == CAPSLOCK_CODE then !t.caps else t.caps;
    var e, edits := EditsOf(t.caps, code), Edits(caps, rest);
    assert Edits(t.caps, [code] + rest) == e + edits;
    GuardedConcat(t.Text(), e, edits);
    OneEdit(t.Text(), e);
  }

  lemma OneEdit(line: seq<byte>, e: seq<Edit>)
    requires |e| <= 1
    ensures Guarded(line, e) <==> (e == [Pop] ==> line != [])
  {
    if e != [] {
      assert e == [e[0]] && Guarded(Apply(line, e[0]), e[1..]);
    }
  }

  /**
   * Echo over whole streams short of Enter: the cursor is still on its row exactly when the line holds it
   * there, and then the row shows exactly the buffered line and everything before it is untouched.
   */
  lemma {:induction false} EchoRun(t: Tty, codes: seq<byte>)
    requires InStep(t) && NoOverrun(t, codes) && StaysInRow(t, codes) && 0x1C !in codes
    ensures var u := Type(t, codes);
            && (u.row == t.row <==> HoldsRow(t, codes))
            && (HoldsRow(t, codes) ==>
                  && InStep(u) && u.bound == t.bound
                  && Shows(u.cells, t.row, t.bound, Fold(t.Text(), Edits(t.caps, codes)), WHITE)
                  && (forall k :: 0 <= k < t.row * 80 + t.bound && k < |t.cells| ==> u.cells[k] == t.cells[k]))
    decreases |codes|
  {
    hide Edits, Press, Fold, InStep, HasRoom, PressFits, Shows, HoldsRow, ClimbsOut;
    InStepValid(t);
    TextFollowsEdits(t, codes);
    if codes == [] {
      InStepValid(Type(t, codes));
      NothingTyped(t);
    } else {
      assert codes[0] != 0x1C;
      var u := Press(t, codes[0]);
      EchoStep(t, codes[0]);
      HoldsRowStep(t, codes[0], codes[1..]);
      assert [codes[0]] + codes[1..] == codes;
      if ClimbsOut(t, codes[0]) {
        RowsFall(u, codes[1..]);
      } else {
        EchoRun(u, codes[1..]);
        if HoldsRow(t, codes) { InStepValid(Type(u, codes[1..])); }
      }
    }
  }

  lemma NothingTyped(t: Tty)
    requires t.Valid()
    ensures HoldsRow(t, [])
  {
  }

  lemma InStepValid(t: Tty)
    requires InStep(t)
    ensures t.Valid() && t.on && Shows(t.cells, t.row, t.bound, t.Text(), WHITE)
  {
  }

  /**
   * Enter after a stream that kept its row: the line is closed and terminated, the cursor goes to column 0
   * of the next row, the column behind the line is remembered, and the line stays on the screen.
   */
  lemma EnterAfter(t: Tty, codes: seq<byte>)
    requires InStep(t) && NoOverrun(t, codes) && StaysInRow(t, codes) && 0x1C !in codes && HoldsRow(t, codes)
    ensures var u, line := Type(t, codes), Fold(t.Text(), Edits(t.caps, codes));
            && PressFits(u, 0x1C)
            && var v := Press(u, 0x1C);
               && v.row == t.row + 1 && v.col == 0 && v.recent == t.bound + |line| && v.bound == t.bound
               && !v.on && v.index == 0 && v.caps == u.caps && v.cells == u.cells
               && |line| < BUFFER_SIZE && v.buffer == u.buffer[|line| := 0] && v.buffer[..|line|] == line
               && Shows(v.cells, t.row, t.bound, line, WHITE)
  {
    hide Press, Edits, Fold, Shows, HoldsRow, StaysInRow, NoOverrun;
    EchoRun(t, codes);
    TextFollowsEdits(t, codes);
    EnterAnywhere(Type(t, codes));
  }

  // ---------------------------------------------------------------- puts

  /** One character of `puts`, the `i`-th of `n`. */
  function PutChar(t: Tty, c: byte, i: nat, n: nat, color: nat): Tty
  {
    var u := t.(cells := Draw(t.cells, t.row, t.col + i + 1, SPACE, WHITE));
    var v := if c == NEWLINE then u.(row := u.row + 1, col := 0)
             else u.(cells := Draw(u.cells, u.row, u.col + i, c, color),
                     col := if i + 1 == n then u.col + n else u.col);
    v.(bound := v.col)
  }

  /** The first `i` characters of `puts`. */
  function Puts(t: Tty, buf: seq<byte>, i: nat, color: nat): Tty
    requires i <= |buf|
  {
    if i == 0 then t else PutChar(Puts(t, buf, i - 1, color), buf[i - 1], i - 1, |buf|, color)
  }

  /** What one plain character of a prompt starting at column `from` does. */
  lemma PutCharPlain(t: Tty, text: seq<byte>, c: byte, n: nat, color: nat)
    requires t.Valid() && |text| < n && c != NEWLINE && t.row < 0x100 && t.col + n < 0x100
    requires Shows(t.cells, t.row, t.col, text, color)
    ensures var u := PutChar(t, c, |text|, n, color);
            && u == t.(cells := u.cells, col := u.col, bound := u.col)
            && u.col == (if |text| + 1 == n then t.col + n else t.col)
            && Shows(u.cells, t.row, t.col, text + [c], color)
            && forall k :: 0 <= k < t.row * 80 + t.col && k < |t.cells| ==> u.cells[k] == t.cells[k]
  {
    hide Cell, Draw;
    var blanked := Draw(t.cells, t.row, t.col + |text| + 1, SPACE, WHITE);
    DrawElsewhere(t.cells, t.row, t.col + |text| + 1, SPACE, WHITE);
    DrawElsewhere(blanked, t.row, t.col + |text|, c, color);
  }

  lemma {:induction false} PutsPlain(t: Tty, buf: seq<byte>, i: nat, color: nat)
    requires t.Valid() && i <= |buf| && NEWLINE !in buf && t.row < 0x100 && t.col + |buf| < 0x100
    ensures var u := Puts(t, buf, i, color);
            && u == t.(cells := u.cells, col := u.col, bound := if i == 0 then t.bound else u.col)
            && u.col == (if 0 < i == |buf| then t.col + |buf| else t.col)
            && Shows(u.cells, t.row, t.col, buf[..i], color)
            && forall k :: 0 <= k < t.row * 80 + t.col && k < |t.cells| ==> u.cells[k] == t.cells[k]
  {
    hide PutChar, Cell;
    if i > 0 {
      PutsPlain(t, buf, i - 1, color);
      assert buf[i - 1] in buf;
      PutCharPlain(Puts(t, buf, i - 1, color), buf[..i - 1], buf[i - 1], |buf|, color);
      assert buf[..i] == buf[..i - 1] + [buf[i - 1]];
    }
  }

  /**
   * A prompt on one row, then input: the prompt stays visible in front of an echoed, empty line, and
   * whatever was printed before it is untouched.
   */
  lemma PromptThenInput(t: Tty, buf: seq<byte>, color: nat)
    requires t.Valid() && buf != [] && NEWLINE !in buf && t.row < 0x100 && t.col + |buf| < 0x100
    ensures var u := Activate(Puts(t, buf, |buf|, color));
            && InStep(u) && u.row == t.row && u.bound == t.col + |buf| > 0 && u.Text() == []
            && Shows(u.cells, t.row, t.col, buf, color)
            && forall k :: 0 <= k < t.row * 80 + t.col && k < |t.cells| ==> u.cells[k] == t.cells[k]
  {
    hide Cell, Draw, Puts;
    PutsPlain(t, buf, |buf|, color);
    assert buf[..|buf|] == buf;
  }

  // ---------------------------------------------------------------- any prompt

  function Newlines(buf: seq<byte>): nat
  {
    if buf == [] then 0 else Newlines(buf[..|buf| - 1]) + if buf[|buf| - 1] == NEWLINE then 1 else 0
  }

  /** The column a printed text is laid out from: a newline takes it back to 0. */
  function Margin(t: Tty, buf: seq<byte>): nat { if NEWLINE in buf then 0 else t.col }

  /** Where the cursor is after the first `i` characters; the column only moves at a newline and at the end. */
  lemma {:induction false} PutsCursor(t: Tty, buf: seq<byte>, i: nat, color: nat)
    requires t.Valid() && i <= |buf|
    ensures var u := Puts(t, buf, i, color);
            && u.Valid() && u.row == t.row + Newlines(buf[..i]) && (i > 0 ==> u.bound == u.col)
            && u.col == Margin(t, buf[..i]) + if 0 < i == |buf| && buf[i - 1] != NEWLINE then |buf| else 0
  {
    hide Draw;
    if i > 0 {
      PutsCursor(t, buf, i - 1, color);
      assert buf[..i] == buf[..i - 1] + [buf[i - 1]];
    }
  }

  /** Keys short of Enter that fit the buffer and the row. */
  predicate Typable(t: Tty, codes: seq<byte>)
  {
    t.Valid() && NoOverrun(t, codes) && StaysInRow(t, codes) && 0x1C !in codes
  }

  predicate KeepsStep(t: Tty, codes: seq<byte>)
  {
    Typable(t, codes) && InStep(Type(t, codes)) && Type(t, codes).row == t.row
  }

  lemma BackspaceFirst(t: Tty)
    requires InStep(t) && t.index == 0 && t.bound == 0 && t.row > 0
    ensures Typable(t, [0x0E]) && Type(t, [0x0E]).row == t.row - 1
  {
    hide Draw, Shows;
    var codes: seq<byte> := [0x0E];
    assert codes[1..] == [];
    assert Type(t, codes) == Type(Press(t, 0x0E), []);
  }

  /**
   * The echo after any prompt. A prompt on the addressable screen leaves the row in step. If it ends in a
   * newline, a stream of keys keeps it so exactly when no backspace arrives on an empty line, and a single
   * backspace is enough to lose it; otherwise every stream keeps it.
   */
  lemma InputAfterPuts(t: Tty, buf: seq<byte>, color: nat)
    requires t.Valid() && buf != []
    ensures var p, open := Activate(Puts(t, buf, |buf|, color)), buf[|buf| - 1] != NEWLINE;
            && (InStep(p) <==> (open ==> Margin(t, buf) + |buf| < 0x100) && t.row + Newlines(buf) < 0x100)
            && (InStep(p) ==>
                  && (forall codes :: Typable(p, codes) ==>
                        (KeepsStep(p, codes) <==> open || Guarded([], Edits(p.caps, codes))))
                  && (open || (Typable(p, [0x0E]) && Type(p, [0x0E]).row == p.row - 1)))
  {
    hide Cell, Draw, Puts, Type, StaysInRow, NoOverrun, Edits, Guarded, Shows, Newlines;
    PutsCursor(t, buf, |buf|, color);
    NewlineCounts(buf);
    assert buf[..|buf|] == buf;
    var p := Activate(Puts(t, buf, |buf|, color));
    NothingShown(p);
    if InStep(p) {
      assert p.Text() == [];
      forall codes | Typable(p, codes)
        ensures KeepsStep(p, codes) <==> p.bound > 0 || Guarded([], Edits(p.caps, codes))
      {
        EchoRun(p, codes);
      }
      if buf[|buf| - 1] == NEWLINE {
        BackspaceFirst(p);
      }
    }
  }

  lemma {:induction false} NewlineCounts(buf: seq<byte>)
    ensures NEWLINE in buf ==> Newlines(buf) > 0
  {
    if buf != [] && buf[|buf| - 1] != NEWLINE {
      NewlineCounts(buf[..|buf| - 1]);
    }
  }

  /** An empty line is shown wherever its place can be addressed. */
  lemma NothingShown(t: Tty)
    requires t.Valid()
    ensures Shows(t.cells, t.row, t.col, [], WHITE) <==> t.row < 0x100 && t.col <= 0x100
  {
  }

  // ---------------------------------------------------------------- what any text looks like

  /** The cell of the `i`-th character of a printed text; a newline goes on in the next row at column `i` + 1. */
  function Spot(t: Tty, buf: seq<byte>, i: nat): nat
    requires i <= |buf|
  {
    (t.row + Newlines(buf[..i])) * 80 + Margin(t, buf[..i]) + i
  }

  lemma {:induction false} SpotsGrow(t: Tty, buf: seq<byte>, i: nat, j: nat)
    requires i < j <= |buf| && t.col <= 80
    ensures Spot(t, buf, i) < Spot(t, buf, j)
    decreases j
  {
    if i < j - 1 { SpotsGrow(t, buf, i, j - 1); }
    assert buf[..j] == buf[..j - 1] + [buf[j - 1]];
  }

  lemma {:induction false} NewlinesGrow(buf: seq<byte>, i: nat)
    requires i <= |buf|
    ensures Newlines(buf[..i]) <= Newlines(buf)
    decreases |buf| - i
  {
    if i < |buf| {
      NewlinesGrow(buf, i + 1);
      assert buf[..i + 1] == buf[..i] + [buf[i]];
    } else {
      assert buf[..i] == buf;
    }
  }

  lemma PutCharDraws(v: Tty, c: byte, i: nat, n: nat, color: nat)
    requires v.Valid() && v.row < 0x100 && v.col + i + 1 < 0x100
    ensures var u, at := PutChar(v, c, i, n, color), v.row * 80 + v.col + i;
            && |u.cells| == |v.cells| && (c != NEWLINE ==> Holds(u.cells[at], c, color))
            && Holds(u.cells[at + 1], SPACE, WHITE)
            && (forall k :: 0 <= k < |v.cells| && k != at && k != at + 1 ==> u.cells[k] == v.cells[k])
  {
    hide Cell, Draw, Holds;
    var blanked := Draw(v.cells, v.row, v.col + i + 1, SPACE, WHITE);
    DrawElsewhere(v.cells, v.row, v.col + i + 1, SPACE, WHITE);
    DrawElsewhere(blanked, v.row, v.col + i, c, color);
  }

  /** No character after the `j`-th up to the `i`-th touches its cell. */
  predicate Clear(t: Tty, buf: seq<byte>, j: nat, i: nat)
    requires j < i <= |buf|
  {
    forall k :: j < k < i ==> Spot(t, buf, k) != Spot(t, buf, j) && Spot(t, buf, k) + 1 != Spot(t, buf, j)
  }

  /** The cells the first `i` characters touch: their own and the next ones. */
  predicate Touched(t: Tty, buf: seq<byte>, i: nat, cell: nat)
    requires i <= |buf|
  {
    exists j :: 0 <= j < i && (cell == Spot(t, buf, j) || cell == Spot(t, buf, j) + 1)
  }

  lemma ClearStep(t: Tty, buf: seq<byte>, j: nat, i: nat)
    requires j < i - 1 && i <= |buf| && Clear(t, buf, j, i)
    ensures Clear(t, buf, j, i - 1)
    ensures Spot(t, buf, i - 1) != Spot(t, buf, j) && Spot(t, buf, i - 1) + 1 != Spot(t, buf, j)
  {
    hide Spot;
  }

  lemma TouchedStep(t: Tty, buf: seq<byte>, i: nat, cell: nat)
    requires 0 < i <= |buf| && !Touched(t, buf, i, cell)
    ensures !Touched(t, buf, i - 1, cell) && cell != Spot(t, buf, i - 1) && cell != Spot(t, buf, i - 1) + 1
  {
    hide Spot;
  }

  /**
   * `puts` of any text on the addressable screen: every character but the newlines is on the screen, in its
   * colour, unless a later one touches its cell; the cell behind the last one is blank; and no other cell
   * changes.
   */
  lemma {:induction false} PutsShows(t: Tty, buf: seq<byte>, i: nat, color: nat)
    requires t.Valid() && i <= |buf| && t.col + |buf| < 0x100 && t.row + Newlines(buf) < 0x100
    ensures var u := Puts(t, buf, i, color);
            && |u.cells| == |t.cells|
            && (i > 0 ==> Spot(t, buf, i - 1) + 1 < |u.cells| && Holds(u.cells[Spot(t, buf, i - 1) + 1], SPACE, WHITE))
            && (forall j :: 0 <= j < i && buf[j] != NEWLINE && Clear(t, buf, j, i) ==>
                  Spot(t, buf, j) < |u.cells| && Holds(u.cells[Spot(t, buf, j)], buf[j], color))
            && (forall k :: 0 <= k < |t.cells| && !Touched(t, buf, i, k) ==> u.cells[k] == t.cells[k])
  {
    hide Newlines, Holds, Margin, PutChar, Spot, Clear, Touched;
    if i > 0 {
      PutsShows(t, buf, i - 1, color);
      PutsCursor(t, buf, i - 1, color);
      NewlinesGrow(buf, i - 1);
      MarginBound(t, buf[..i - 1]);
      var v := Puts(t, buf, i - 1, color);
      SpotIs(t, buf, i - 1, v);
      PutCharDraws(v, buf[i - 1], i - 1, |buf|, color);
      forall j | 0 <= j < i - 1 && Clear(t, buf, j, i)
        ensures Clear(t, buf, j, i - 1)
        ensures Spot(t, buf, i - 1) != Spot(t, buf, j) && Spot(t, buf, i - 1) + 1 != Spot(t, buf, j)
      {
        ClearStep(t, buf, j, i);
      }
      forall k | 0 <= k < |t.cells| && !Touched(t, buf, i, k) ensures Puts(t, buf, i, color).cells[k] == t.cells[k] {
        TouchedStep(t, buf, i, k);
      }
    }
  }

  /** A text that starts no further right than column 80 never touches a cell twice. */
  lemma NothingHidden(t: Tty, buf: seq<byte>, j: nat)
    requires t.col <= 80 && j < |buf|
    ensures Clear(t, buf, j, |buf|)
  {
    hide Spot;
    forall k | j < k < |buf| ensures Spot(t, buf, j) < Spot(t, buf, k) {
      SpotsGrow(t, buf, j, k);
    }
  }

  /** From column 82 it can: the third character lands on the first one's cell. */
  lemma HidesItself(t: Tty)
    requires t.col == 82
    ensures !Clear(t, [97, NEWLINE, 98], 0, 3)
  {
    var buf: seq<byte> := [97, NEWLINE, 98];
    assert buf[..0] == [] && buf[..1] == [97] && buf[..2] == [97] + [NEWLINE];
    assert ([97] + [NEWLINE])[..1] == [97] && [97][..0] == [];
    assert Newlines([97]) == 0;
    assert Newlines([97] + [NEWLINE]) == 1;
    assert Spot(t, buf, 2) == Spot(t, buf, 0);
  }

  lemma SpotIs(t: Tty, buf: seq<byte>, i: nat, v: Tty)
    requires i < |buf| && v.row == t.row + Newlines(buf[..i]) && v.col == Margin(t, buf[..i])
    ensures Spot(t, buf, i) == v.row * 80 + v.col + i
  {
  }

  lemma MarginBound(t: Tty, buf: seq<byte>)
    ensures Margin(t, buf) <= t.col
  {
  }
}
