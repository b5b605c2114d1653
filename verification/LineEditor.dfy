/** `io/kinput.c`: the line editor, and the agreement of its buffer with the echoed screen. */
module LineEditor {
  import opened Machine
  import opened CString
  import opened Terminal
  import opened Display

  const RETURN: Char := 13
  const DELETE: Char := 127
  const KILL: Char := 0x15
  const MAX_COMMAND_LEN: int := 128

  // ----- the line machine

  predicate IsNewline(c: Char) {
    c == NEWLINE || c == RETURN
  }

  predicate IsErase(c: Char) {
    c == BACKSPACE || c == DELETE
  }

  /** A key that goes into the line if there is room. */
  predicate IsInput(c: Char) {
    c != 0 && !IsNewline(c) && !IsErase(c) && c != KILL
  }

  /** The line after a key, with room for `size - 1` characters. */
  function Edit(line: seq<Char>, c: Char, size: nat): seq<Char> {
    if IsNewline(c) || c == KILL then []
    else if IsErase(c) then if line == [] then [] else line[..|line| - 1]
    else if c != 0 && |line| + 1 < size then line + [c]
    else line
  }

  const RUBOUT: seq<Char> := [BACKSPACE, SPACE, BACKSPACE]

  function Rubouts(n: nat): seq<Char> {
    if n == 0 then [] else RUBOUT + Rubouts(n - 1)
  }

  /** What a key sends to the display. */
  function Echo(line: seq<Char>, c: Char, size: nat): seq<Char> {
    if IsNewline(c) then [NEWLINE]
    else if c == KILL then Rubouts(|line|)
    else if IsErase(c) then if line == [] then [] else RUBOUT
    else if c != 0 && |line| + 1 < size then [c]
    else []
  }

  function EditAll(line: seq<Char>, keys: seq<Char>, size: nat): seq<Char>
    decreases keys
  {
    if keys == [] then line else EditAll(Edit(line, keys[0], size), keys[1..], size)
  }

  function EchoAll(t: Screen, line: seq<Char>, keys: seq<Char>, size: nat): Screen
    decreases keys
  {
    if keys == [] then t
    else EchoAll(Type(t, Echo(line, keys[0], size)), Edit(line, keys[0], size), keys[1..], size)
  }

  // ----- the screen agrees with the buffer

  /** The terminal shows what it showed at the prompt, then the line; none of the line scrolled away. */
  predicate Agrees(t: Screen, base: seq<Cell>, line: seq<Char>) {
    Visible(t) && t.text == base + Cells(line) && WIDTH * t.top <= |base|
  }

  /** One erasure takes the last character off the screen, across row boundaries too. */
  lemma RuboutAgrees(t: Screen, base: seq<Cell>, line: seq<Char>)
    requires Agrees(t, base, line) && line != []
    ensures Type(t, RUBOUT) == t.(text := base + Cells(line[..|line| - 1]))
    ensures Agrees(Type(t, RUBOUT), base, line[..|line| - 1])
  {
    var t1 := Put(t, BACKSPACE);
    var t2 := Put(t1, SPACE);
    var short := base + Cells(line[..|line| - 1]);
    assert t1.text == short;
    assert t2.text == short + [CellOf(SPACE)];
    assert Put(t2, BACKSPACE).text == short;
    RuboutSteps(t);
  }

  lemma {:induction false} KillAgrees(t: Screen, base: seq<Cell>, line: seq<Char>)
    requires Agrees(t, base, line)
    ensures Agrees(Type(t, Rubouts(|line|)), base, [])
    decreases |line|
  {
    if line != [] {
      RuboutAgrees(t, base, line);
      KillAgrees(Type(t, RUBOUT), base, line[..|line| - 1]);
      TypeConcat(t, RUBOUT, Rubouts(|line| - 1));
    }
  }

  lemma PushAgreesIff(t: Screen, base: seq<Cell>, line: seq<Char>, c: Char)
    requires Agrees(t, base, line) && |line| < CELLS - WIDTH && IsInput(c)
    ensures Agrees(Type(t, [c]), base, line + [c]) <==> Printable(c)
  {
    TypeOne(t, c);
    PutVisible(t, c);
    assert Cells(line + [c]) == Cells(line) + [CellOf(c)];
    assert base + Cells(line) + [CellOf(c)] == base + (Cells(line) + [CellOf(c)]);
  }

  /** A key keeps screen and buffer in agreement exactly when it is not one that is buffered without being
      drawn (tab, escape and the other control characters). */
  lemma KeyAgreesIff(t: Screen, base: seq<Cell>, line: seq<Char>, c: Char, size: nat)
    requires Agrees(t, base, line) && |line| < size <= CELLS - WIDTH + 1 && c != 10 && c != 13
    ensures Agrees(Type(t, Echo(line, c, size)), base, Edit(line, c, size)) <==>
      c >= 32 || c == 8 || c == 0x15 || c == 0 || |line| + 1 >= size
  {
    if c == KILL {
      KillAgrees(t, base, line);
    } else if IsErase(c) {
      if line != [] { RuboutAgrees(t, base, line); }
    } else if c != 0 && |line| + 1 < size {
      PushAgreesIff(t, base, line, c);
    }
  }

  /** Printable characters, delete (127) among them, backspace, kill and no key at all. */
  predicate EditingKeys(keys: seq<Char>) {
    forall c :: c in keys ==> c >= 32 || c == 8 || c == 0x15 || c == 0
  }

  // ----- the line by the key codes

  lemma {:induction false} EditConcat(line: seq<Char>, a: seq<Char>, b: seq<Char>, size: nat)
    ensures EditAll(line, a + b, size) == EditAll(EditAll(line, a, size), b, size)
    decreases a
  {
    if a == [] {
      assert a + b == b;
    } else {
      assert (a + b)[1..] == a[1..] + b;
      EditConcat(Edit(line, a[0], size), a[1..], b, size);
    }
  }

  lemma EditOne(line: seq<Char>, c: Char, size: nat)
    ensures EditAll(line, [c], size) == Edit(line, c, size)
  {
    assert [c][1..] == [];
  }

  /** Typing: the line is what was typed, cut where one place of the buffer is left for the NUL. */
  lemma {:induction false} TypedLine(line: seq<Char>, typed: seq<Char>, size: nat)
    requires |line| < size && forall c :: c in typed ==> c >= 32 && c != 127
    ensures EditAll(line, typed, size) ==
      if |line + typed| < size then line + typed else (line + typed)[..size - 1]
    decreases typed
  {
    if typed == [] {
      assert line + typed == line;
    } else {
      var c := typed[0];
      assert c in typed && forall k :: k in typed[1..] ==> k in typed;
      TypedLine(Edit(line, c, size), typed[1..], size);
      if |line| + 1 < size {
        assert line + [c] + typed[1..] == line + typed;
      } else {
        assert (line + typed)[..size - 1] == line == (line + typed[1..])[..size - 1];
      }
    }
  }

  /** Wherever there is room, typing a character and backspace (8) or delete (127) after it is as if neither
      had been typed. */
  lemma EraseUndoes(line: seq<Char>, before: seq<Char>, c: Char, k: Char, after: seq<Char>, size: nat)
    requires c >= 32 && c != 127 && (k == 8 || k == 127) && |EditAll(line, before, size)| + 1 < size
    ensures EditAll(line, before + [c, k] + after, size) == EditAll(line, before + after, size)
  {
    var l := EditAll(line, before, size);
    EditConcat(line, before + [c, k], after, size);
    EditConcat(line, before, [c, k], size);
    EditConcat(line, before, after, size);
    EditConcat(l, [c], [k], size);
    assert [c] + [k] == [c, k];
    EditOne(l, c, size);
    EditOne(l + [c], k, size);
  }

  /** Erasing (8, 127) takes the last character if there is one; kill (0x15), newline (10) and return (13) leave
      an empty line; key 0 does nothing. */
  lemma ControlKeys(line: seq<Char>, size: nat)
    ensures EditAll(line, [8], size) == EditAll(line, [127], size) == if line == [] then [] else line[..|line| - 1]
    ensures EditAll(line, [0x15], size) == EditAll(line, [10], size) == EditAll(line, [13], size) == []
    ensures EditAll(line, [0], size) == line
  {
    EditOne(line, 8, size);
    EditOne(line, 127, size);
    EditOne(line, 0x15, size);
    EditOne(line, 10, size);
    EditOne(line, 13, size);
    EditOne(line, 0, size);
  }

  /** After the prompt, for every sequence of printable and editing keys, the terminal shows exactly what
      it showed at the prompt, followed by the line, across row wraps and scrolls. */
  lemma {:induction false} TypingAgrees(t: Screen, base: seq<Cell>, line: seq<Char>, keys: seq<Char>, size: nat)
    requires Agrees(t, base, line) && |line| < size <= CELLS - WIDTH + 1
    requires EditingKeys(keys)
    ensures Agrees(EchoAll(t, line, keys, size), base, EditAll(line, keys, size))
    decreases keys
  {
    if keys != [] {
      assert keys[0] in keys && forall c :: c in keys[1..] ==> c in keys;
      KeyAgreesIff(t, base, line, keys[0], size);
      TypingAgrees(Type(t, Echo(line, keys[0], size)), base, Edit(line, keys[0], size), keys[1..], size);
    }
  }

  /** At the prompt the line is empty, whatever the screen shows. */
  lemma PromptAgrees(t: Screen)
    requires Visible(t)
    ensures Agrees(t, t.text, [])
  {
    assert t.text + Cells([]) == t.text;
  }

  class Editor {
    var idx: nat
    const display: Vga

    constructor (screen: Vga)
      ensures idx == 0 && display == screen
    {
      idx := 0;
      display := screen;
    }

    method Prompt()
      requires display.Valid()
      modifies display, display.vga
      ensures display.Valid() && display.term == Type(old(display.term), [62, 32])
    {
      var prompt: seq<Byte> := [62, 32];
      UpToNulOf(prompt, [0]);
      assert Chars(prompt) == [62, 32];
      display.Print(prompt + [0]);
    }

    /** One key. The line in the buffer changes as the line machine says, the display shows the echo, and on
        a newline the line is delivered NUL-terminated. */
    method Poll(key: Char, buffer: array<Char>, size: nat) returns (done: bool)
      requires display.Valid() && buffer as object != display.vga
      requires idx < size <= buffer.Length
      modifies this, display, display.vga, buffer
      ensures display.Valid() && idx < size
      ensures var line := old(buffer[..idx]);
              && done == (key == 10 || key == 13)
              && buffer[..idx] == Edit(line, key, size)
              && display.term == Type(old(display.term), Echo(line, key, size))
              && (done ==> buffer[..|line| + 1] == line + [0])
    {
      ghost var line := buffer[..idx];
      var c := key;
      if c == 0 { return false; }
      if c == RETURN { c := NEWLINE; }
      if c == NEWLINE {
        TypeOne(display.term, NEWLINE);
        display.Putc(NEWLINE);
        buffer[idx] := 0;
        idx := 0;
        return true;
      }
      if c == BACKSPACE || c == DELETE {
        if idx > 0 {
          idx := idx - 1;
          Rubout();
        }
        return false;
      }
      if c == KILL {
        Kill();
        return false;
      }
      if idx < size - 1 {
        buffer[idx] := c;
        idx := idx + 1;
        TypeOne(display.term, c);
        display.Putc(c);
      }
      return false;
    }

    /** Erase the whole line, character by character. */
    method Kill()
      requires display.Valid()
      modifies this, display, display.vga
      ensures display.Valid() && idx == 0 && display.term == Type(old(display.term), Rubouts(old(idx)))
    {
      ghost var start := display.term;
      while idx > 0
        invariant display.Valid() && idx <= old(idx)
        invariant Type(start, Rubouts(old(idx))) == Type(display.term, Rubouts(idx))
      {
        idx := idx - 1;
        RuboutsStep(display.term, idx);
        Rubout();
      }
    }

    /** Backspace, blank, backspace. */
    method Rubout()
      requires display.Valid()
      modifies display, display.vga
      ensures display.Valid() && display.term == Type(old(display.term), RUBOUT)
    {
      ghost var t := display.term;
      display.Putc(BACKSPACE);
      display.Putc(SPACE);
      display.Putc(BACKSPACE);
      RuboutSteps(t);
    }

    /** The keys of one command, up to its newline: the caller gets the line the machine computes,
        NUL-terminated, and until then the screen agrees with the buffer. */
    method ReadCommand(keys: seq<Char>, buffer: array<Char>) returns (ghost length: nat)
      requires display.Valid() && buffer as object != display.vga && idx == 0
      requires MAX_COMMAND_LEN <= buffer.Length
      requires keys != [] && (keys[|keys| - 1] == 10 || keys[|keys| - 1] == 13)
      requires EditingKeys(keys[..|keys| - 1])
      modifies this, display, display.vga, buffer
      ensures display.Valid() && idx == 0
      ensures var typed := keys[..|keys| - 1];
              var line := EditAll([], typed, MAX_COMMAND_LEN);
              && length == |line| < MAX_COMMAND_LEN && buffer[..length + 1] == line + [0]
              && display.term == Put(EchoAll(old(display.term), [], typed, MAX_COMMAND_LEN), 10)
              && Agrees(EchoAll(old(display.term), [], typed, MAX_COMMAND_LEN), old(display.term).text, line)
    {
      ghost var typed := keys[..|keys| - 1];
      ghost var start := display.term;
      PromptAgrees(start);
      TypingAgrees(start, start.text, [], typed, MAX_COMMAND_LEN);
      var i := 0;
      assert typed[0..] == typed;
      while i < |keys| - 1
        invariant 0 <= i <= |typed| && display.Valid() && idx < MAX_COMMAND_LEN
        invariant EditAll([], typed, MAX_COMMAND_LEN) == EditAll(buffer[..idx], typed[i..], MAX_COMMAND_LEN)
        invariant EchoAll(start, [], typed, MAX_COMMAND_LEN)
                  == EchoAll(display.term, buffer[..idx], typed[i..], MAX_COMMAND_LEN)
      {
        KeyNext(display.term, buffer[..idx], typed, i, MAX_COMMAND_LEN);
        var _ := Poll(keys[i], buffer, MAX_COMMAND_LEN);
        i := i + 1;
      }
      length := idx;
      TypeOne(display.term, NEWLINE);
      var _ := Poll(keys[i], buffer, MAX_COMMAND_LEN);
    }
  }

  /** The line and the screen after the keys from `i` on. */
  lemma KeyNext(t: Screen, line: seq<Char>, keys: seq<Char>, i: nat, size: nat)
    requires i < |keys|
    ensures EditAll(line, keys[i..], size) == EditAll(Edit(line, keys[i], size), keys[i + 1..], size)
    ensures EchoAll(t, line, keys[i..], size)
            == EchoAll(Type(t, Echo(line, keys[i], size)), Edit(line, keys[i], size), keys[i + 1..], size)
  {
    assert keys[i..][1..] == keys[i + 1..];
  }

  lemma RuboutsStep(t: Screen, n: nat)
    ensures Type(t, Rubouts(n + 1)) == Type(Type(t, RUBOUT), Rubouts(n))
  {
    TypeConcat(t, RUBOUT, Rubouts(n));
  }

  lemma RuboutSteps(t: Screen)
    ensures Type(t, RUBOUT) == Put(Put(Put(t, BACKSPACE), SPACE), BACKSPACE)
  {
    assert RUBOUT[1..] == [SPACE, BACKSPACE] && [SPACE, BACKSPACE][1..] == [BACKSPACE];
    TypeOne(Put(Put(t, BACKSPACE), SPACE), BACKSPACE);
  }
}
