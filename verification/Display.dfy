/** `display/display.c`: the VGA text screen, in place. */
module Display {
  import opened Machine
  import opened CString
  import opened Terminal
  import opened Numerals

  class Vga {
    const vga: array<Cell>
    var cursorX: int
    var cursorY: int
    ghost var term: Screen

    /** The screen is a window on the unbounded terminal, with the cursor at the end of its text. */
    ghost predicate Valid()
      reads this, vga
    {
      && vga.Length == CELLS
      && 0 <= cursorX < WIDTH && 0 <= cursorY < HEIGHT
      && WIDTH * (term.top + cursorY) + cursorX == |term.text|
      && vga[..] == Window(term)
    }

    /** Video memory before the first clear holds anything. */
    constructor (memory: array<Cell>)
      requires memory.Length == CELLS
      ensures vga == memory
    {
      vga := memory;
      cursorX, cursorY := 0, 0;
      term := Screen([], 0);
    }

    method CleanDisplay()
      requires vga.Length == CELLS
      modifies this, vga
      ensures Valid() && term == Screen([], 0)
      ensures cursorX == 0 && cursorY == 0 && forall i :: 0 <= i < 2000 ==> vga[i] == 0x0F20
    {
      for i := 0 to CELLS
        invariant forall k :: 0 <= k < i ==> vga[k] == BLANK
      {
        vga[i] := BLANK;
      }
      cursorX := 0;
      cursorY := 0;
      term := Screen([], 0);
    }

    /** Every row moves up one and a blank row comes in below. */
    method MoveRows()
      requires vga.Length == CELLS
      modifies vga
      ensures vga[..] == old(vga[WIDTH..]) + Blanks(WIDTH)
    {
      ghost var before := vga[..];
      for row := 1 to HEIGHT
        invariant forall k :: 0 <= k < (row - 1) * WIDTH ==> vga[k] == before[k + WIDTH]
        invariant forall k :: (row - 1) * WIDTH <= k < CELLS ==> vga[k] == before[k]
      {
        for col := 0 to WIDTH
          invariant forall k :: 0 <= k < (row - 1) * WIDTH + col ==> vga[k] == before[k + WIDTH]
          invariant forall k :: (row - 1) * WIDTH + col <= k < CELLS ==> vga[k] == before[k]
        {
          vga[(row - 1) * WIDTH + col] := vga[row * WIDTH + col];
        }
      }
      for col := 0 to WIDTH
        invariant forall k :: 0 <= k < CELLS - WIDTH ==> vga[k] == before[k + WIDTH]
        invariant forall k :: CELLS - WIDTH <= k < CELLS - WIDTH + col ==> vga[k] == BLANK
      {
        vga[(HEIGHT - 1) * WIDTH + col] := BLANK;
      }
    }

    /** Scrolling only moves the window down the terminal. */
    method ScrollUp()
      requires vga.Length == CELLS && vga[..] == Window(term) && |term.text| <= WIDTH * term.top + CELLS
      modifies this, vga
      ensures term == old(term).(top := old(term).top + 1) && vga[..] == Window(term)
      ensures cursorY == HEIGHT - 1 && cursorX == if old(cursorX) >= WIDTH then 0 else old(cursorX)
    {
      WindowScroll(term);
      MoveRows();
      term := term.(top := term.top + 1);
      cursorY := HEIGHT - 1;
      if cursorX >= WIDTH { cursorX := 0; }
    }

    /** The window and the cursor follow the terminal. A character from 32 on is at the place where the cursor
        was, or, if drawing it at the bottom right has scrolled the screen, a row further up. */
    method Putc(c: Char)
      requires Valid()
      modifies this, vga
      ensures Valid() && term == Put(old(term), c)
      ensures c >= 32 && term.top == old(term.top) ==> vga[80 * old(cursorY) + old(cursorX)] == 0x0F00 + c
      ensures c >= 32 && term.top != old(term.top) ==> vga[80 * 23 + 79] == 0x0F00 + c
    {
      if c >= 32 { DrawnAt(term, cursorX, cursorY, c); }
      Draw(c);
      if cursorX >= WIDTH {
        cursorX := 0;
        cursorY := cursorY + 1;
      }
      if cursorY >= HEIGHT {
        ScrollUp();
      }
    }

    /** The branches of `kputc` before the wrap and scroll tests: the text changes, the window stays. */
    method Draw(c: Char)
      requires Valid()
      modifies this, vga
      ensures vga[..] == Window(term) && term == Put(old(term), c).(top := old(term).top)
      ensures 0 <= cursorX <= WIDTH && 0 <= cursorY <= HEIGHT && (cursorY == HEIGHT ==> cursorX == 0)
      ensures WIDTH * (term.top + cursorY) + cursorX == |term.text|
    {
      if c == NEWLINE {
        WindowNewRow(term);
        NewRowLength(term.text, term.top + cursorY, cursorX);
        term := term.(text := NewRow(term.text));
        cursorX := 0;
        cursorY := cursorY + 1;
      } else if c == BACKSPACE {
        if cursorX > 0 {
          cursorX := cursorX - 1;
          EraseCell();
        } else if cursorY > 0 {
          cursorY := cursorY - 1;
          cursorX := WIDTH - 1;
          EraseCell();
        }
      } else if c >= SPACE {
        // the source's clamps of the cursor at this point never apply
        if cursorX < 0 || cursorY < 0 || cursorX >= WIDTH { assert false; }
        StoreCell(c);
        cursorX := cursorX + 1;
      }
    }

    /** Blank the cell the cursor has just moved back onto. */
    method EraseCell()
      requires vga.Length == CELLS && vga[..] == Window(term) && Visible(term)
      requires 0 <= cursorX < WIDTH && 0 <= cursorY < HEIGHT
      requires WIDTH * (term.top + cursorY) + cursorX == |term.text| - 1
      modifies this`term, vga
      ensures term == old(term).(text := old(term).text[..|old(term).text| - 1]) && vga[..] == Window(term)
    {
      WindowPop(term);
      term := term.(text := term.text[..|term.text| - 1]);
      vga[cursorY * WIDTH + cursorX] := BLANK;
    }

    /** Draw a character at the cursor. */
    method StoreCell(c: Char)
      requires Valid()
      modifies this`term, vga
      ensures term == old(term).(text := old(term).text + [CellOf(c)]) && vga[..] == Window(term)
    {
      WindowPush(term, CellOf(c));
      term := term.(text := term.text + [CellOf(c)]);
      vga[cursorY * WIDTH + cursorX] := CellOf(c);
    }

    /** Prints a NUL-terminated string. */
    method Print(str: seq<Byte>)
      requires Valid() && 0 in str
      modifies this, vga
      ensures Valid() && term == Type(old(term), Chars(UpToNul(str)))
    {
      UpToNulIsPrefix(str);
      ghost var cs := Chars(UpToNul(str));
      var i := 0;
      while str[i] != 0
        invariant Valid() && i <= |cs| < |str|
        invariant term == Type(old(term), cs[..i])
        decreases |str| - i
      {
        TypeNext(old(term), cs, i);
        Putc(ToChar(str[i]));
        i := i + 1;
      }
      assert cs[..i] == cs;
    }

    /** Prints the first `n` characters of `buf` backwards: `while (--i >= 0) kputc(buf[i])`. */
    method PutBackwards(buf: array<Char>, n: nat)
      requires Valid() && n <= buf.Length && buf as object != vga
      modifies this, vga
      ensures Valid() && term == Type(old(term), Backwards(buf[..n]))
    {
      ghost var s, start := buf[..n], term;
      assert s[..n] == s;
      var i := n;
      while i > 0
        invariant 0 <= i <= n && Valid() && buf[..n] == s
        invariant Type(start, Backwards(s)) == Type(term, Backwards(s[..i]))
      {
        i := i - 1;
        assert buf[i] == s[i];
        TypeBackwards(term, s, i);
        Putc(buf[i]);
      }
    }

    /** The digits of `n`, least significant first, into `buf`. */
    method FillDigits(n: nat, base: nat, buf: array<Char>) returns (i: nat)
      requires IsBase(base) && |Digits(n, base)| <= buf.Length
      modifies buf
      ensures i <= buf.Length && Backwards(buf[..i]) == Digits(n, base)
    {
      var u: nat := n;
      i := 0;
      while u > 0
        invariant i + |Digits(u, base)| <= buf.Length
        invariant Digits(n, base) == Digits(u, base) + Backwards(buf[..i])
        decreases u
      {
        var d, q := Rem(u, base), Quot(u, base);
        DigitsStep(u, base, d, q);
        BackwardsSnoc(buf[..i], DigitChar(d), Digits(q, base));
        ghost var done := buf[..i];
        buf[i] := DigitChar(d);
        assert buf[..i + 1] == done + [DigitChar(d)];
        i := i + 1;
        u := q;
      }
    }

    method PrintNum(num: int)
      requires Valid() && -0x8000_0000 <= num < 0x8000_0000
      modifies this, vga
      ensures Valid() && term == Type(old(term), Signed(num))
    {
      if num == 0 {
        TypeOne(term, DigitChar(0));
        Putc(DigitChar(0));
        return;
      }
      var u := num;
      if num < 0 {
        TypeOne(term, MINUS);
        TypeConcat(term, [MINUS], Digits(-num, 10));
        Putc(MINUS);
        u := -num;
      }
      var buf := new Char[12](_ => 0);
      WordDigits(u);
      var i := FillDigits(u, 10, buf);
      PutBackwards(buf, i);
    }

    method PrintHex(num: nat)
      requires Valid() && num < 0x1_0000_0000
      modifies this, vga
      ensures Valid() && term == Type(old(term), Unsigned(num, 16))
    {
      if num == 0 {
        TypeOne(term, DigitChar(0));
        Putc(DigitChar(0));
        return;
      }
      var buf := new Char[17](_ => 0);
      WordDigits(num);
      var i := FillDigits(num, 16, buf);
      PutBackwards(buf, i);
    }

    method PrintUlong(num: nat)
      requires Valid() && num < 0x1_0000_0000
      modifies this, vga
      ensures Valid() && term == Type(old(term), Unsigned(num, 10))
    {
      if num == 0 {
        TypeOne(term, DigitChar(0));
        Putc(DigitChar(0));
        return;
      }
      var buf := new Char[21](_ => 0);
      WordDigits(num);
      var i := FillDigits(num, 10, buf);
      PutBackwards(buf, i);
    }
  }

  /** Where the window shows a drawn character. */
  lemma DrawnAt(t: Screen, x: int, y: int, c: Char)
    requires 0 <= x < 80 && 0 <= y < 25 && |t.text| == 80 * (t.top + y) + x && c >= 32
    ensures var t' := Put(t, c);
            && (t'.top == t.top ==> Window(t')[80 * y + x] == 0x0F00 + c)
            && (t'.top != t.top ==> Window(t')[80 * 23 + 79] == 0x0F00 + c)
  {
    PutCodes(t, c);
    RowSplit(t.top + y, x);
    if x == 79 { RowSplit(t.top + y + 1, 0); } else { RowSplit(t.top + y, x + 1); }
  }

  /** A byte as a `char`: the signed number with the same low eight bits. */
  function ToChar(b: Byte): (c: Char)
    ensures c % 256 == b
  {
    if b < 128 then b else b - 256
  }

  function Chars(bs: seq<Byte>): (cs: seq<Char>)
    ensures |cs| == |bs|
  {
    seq<Char>(|bs|, i requires 0 <= i < |bs| => ToChar(bs[i]))
  }

  function Backwards(s: seq<Char>): (r: seq<Char>)
    ensures |r| == |s|
  {
    seq<Char>(|s|, i requires 0 <= i < |s| => s[|s| - 1 - i])
  }

  lemma BackwardsSnoc(s: seq<Char>, c: Char, rest: seq<Char>)
    ensures Backwards(s + [c]) == [c] + Backwards(s)
    ensures rest + [c] + Backwards(s) == rest + Backwards(s + [c])
  {
  }

  lemma TypeBackwards(t: Screen, s: seq<Char>, i: nat)
    requires i < |s|
    ensures Type(t, Backwards(s[..i + 1])) == Type(Put(t, s[i]), Backwards(s[..i]))
  {
    assert s[..i + 1] == s[..i] + [s[i]];
    BackwardsSnoc(s[..i], s[i], []);
    assert ([s[i]] + Backwards(s[..i]))[1..] == Backwards(s[..i]);
  }

  lemma TypeNext(t: Screen, cs: seq<Char>, i: nat)
    requires i < |cs|
    ensures Type(t, cs[..i + 1]) == Put(Type(t, cs[..i]), cs[i])
  {
    assert cs[..i + 1] == cs[..i] + [cs[i]];
    TypeConcat(t, cs[..i], [cs[i]]);
    TypeOne(Type(t, cs[..i]), cs[i]);
  }
}
