/** The keyboard driver and framebuffer as they run: globals and arrays updated in place. */
module Keyboard {
  import opened Bytes
  import opened Console

  class KeyboardDriver {
    var row: nat
    var col: nat
    var colRecent: nat
    var colBound: nat
    var isCapslock: bool
    var inputOn: bool
    const buffer: array<byte>
    var index: nat
    const cells: array<u16>

    ghost predicate Valid()
      reads this
    {
      buffer.Length == BUFFER_SIZE && cells.Length == 20656 && index <= BUFFER_SIZE && buffer as object != cells
    }

    ghost function State(): (t: Tty)
      reads this, buffer, cells
      requires Valid()
      ensures t.Valid()
    {
      Tty(row, col, colRecent, colBound, isCapslock, inputOn, buffer[..], index, cells[..])
    }

    /** Static initial values; the text memory is whatever the machine has there. */
    constructor (memory: array<u16>)
      requires memory.Length == 20656
      ensures Valid() && cells == memory && fresh(buffer)
      ensures row == col == colRecent == colBound == index == 0 && !isCapslock && !inputOn
      ensures buffer[..] == Zeros(BUFFER_SIZE)
    {
      row, col, colRecent, colBound := 0, 0, 0, 0;
      isCapslock, inputOn, index := false, false, 0;
      buffer := new byte[256](_ => 0);
      cells := memory;
    }

    method FramebufferWrite(r: nat, c: nat, ch: byte, fg: nat, bg: nat)
      requires Valid()
      modifies cells
      ensures cells[..] == old(cells[..])[CellIndex(r, c) := Cell(ch, fg, bg)]
    {
      cells[CellIndex(r, c)] := Cell(ch, fg, bg);
    }

    method KeyboardStateActivate()
      requires Valid()
      modifies this`inputOn, this`index, buffer
      ensures Valid() && State() == Activate(old(State()))
    {
      inputOn := true;
      index := 0;
      for i := 0 to BUFFER_SIZE
        invariant inputOn && index == 0 && buffer[..i] == Zeros(i)
      {
        buffer[i] := 0;
      }
      assert buffer[..] == Zeros(BUFFER_SIZE);
    }

    /** Copies the first 120 bytes of the line buffer; the buffer itself is not flushed. */
    method GetKeyboardBuffer(dst: array<byte>)
      requires Valid() && dst.Length >= DELIVERED && dst != buffer
      modifies dst
      ensures dst[..] == buffer[..120] + old(dst[120..])
    {
      for i := 0 to DELIVERED
        invariant dst[..i] == buffer[..i] && dst[i..] == old(dst[i..])
      {
        dst[i] := buffer[i];
      }
    }

    /** The interrupt handler; the data port is read twice and gives the same scancode both times. */
    method KeyboardIsr(scancode: byte)
      requires Valid() && PressFits(State(), scancode)
      modifies this`row, this`col, this`colRecent, this`isCapslock, this`inputOn, this`index, buffer, cells
      ensures Valid() && State() == Press(old(State()), scancode)
    {
      hide Ascii, Cell;
      if scancode == CAPSLOCK_CODE {
        isCapslock := !isCapslock;
        return;
      }
      if !inputOn {
        index := 0;
      } else {
        var ascii := Ascii(isCapslock, scancode);
        if ascii != 0 {
          if ascii == BACKSPACE {
            if col > 0 {
              if col > colBound && index != 0 {
                col := col - 1;
                FramebufferWrite(row, col, SPACE, WHITE, 0);
              }
            } else if col == 0 && row > 0 {
              row := row - 1;
              col := colRecent;
              FramebufferWrite(row, col, SPACE, WHITE, 0);
            }
            if index > 0 {
              index := index - 1;
            }
          } else if ascii == NEWLINE {
            row := row + 1;
            colRecent := col;
            col := 0;
            buffer[index] := 0;
            assert buffer[..] == old(buffer[..])[index := 0];
            index := 0;
            inputOn := false;
          } else {
            buffer[index] := ascii;
            assert buffer[..] == old(buffer[..])[index := ascii];
            index := index + 1;
            FramebufferWrite(row, col, ascii, WHITE, 0);
            col := col + 1;
            FramebufferWrite(row, col, SPACE, WHITE, 0);
          }
        }
      }
    }

    /** The loop body of `puts`. */
    method PutCharacter(c: byte, i: nat, n: nat, color: nat)
      requires Valid() && i < n
      modifies this`row, this`col, this`colBound, cells
      ensures Valid() && State() == PutChar(old(State()), c, i, n, color)
    {
      hide Cell, CellIndex;
      FramebufferWrite(row, col + i + 1, SPACE, WHITE, 0);
      if c == NEWLINE {
        row := row + 1;
        col := 0;
      } else {
        FramebufferWrite(row, col + i, c, color, 0);
        if i == n - 1 {
          col := col + n;
        }
      }
      colBound := col;
    }

    /** `puts`; its 8-bit loop counter reaches every length below 256. */
    method PutString(buf: seq<byte>, color: nat)
      requires Valid() && |buf| < 0x100
      modifies this`row, this`col, this`colBound, cells
      ensures Valid() && State() == Puts(old(State()), buf, |buf|, color)
    {
      hide PutChar;
      for i := 0 to |buf|
        invariant Valid() && State() == Puts(old(State()), buf, i, color)
      {
        PutCharacter(buf[i], i, |buf|, color);
      }
    }
  }
}
