/** GetCmd: a line editor over a polled UART that echoes every key. */
module LineEditor {
  import opened Ascii

  /** The serial line: keys still to be read, and everything written so far. */
  class Uart {
    var keys: seq<char>
    var sent: seq<char>

    constructor (keys: seq<char>)
      ensures this.keys == keys && sent == []
    {
      this.keys, sent := keys, [];
    }

    /** One key, or no return at all while no key is pressed. */
    method ReadPolling() returns (pressed: bool, key: char)
      modifies this
      ensures sent == old(sent)
      ensures if old(keys) == [] then !pressed && keys == []
              else pressed && key == old(keys)[0] && keys == old(keys)[1..]
    {
      if keys == [] {
        pressed, key := false, NUL;
      } else {
        pressed, key, keys := true, keys[0], keys[1..];
      }
    }

    method WritePolling(s: seq<char>)
      modifies this
      ensures keys == old(keys) && sent == old(sent) + s
    {
      sent := sent + s;
    }
  }

  predicate IsTerminator(key: char) {
    key == '\r' || key == '\n'
  }

  // ----- the stack editor that GetCmd refines -----

  /** A key pushes itself; backspace pops. */
  function Edit(text: seq<char>, key: char): seq<char> {
    if key != BACKSPACE then text + [key]
    else if text == [] then [] else text[..|text| - 1]
  }

  /** What is written back for a key. */
  function Echo(text: seq<char>, key: char): seq<char> {
    if key != BACKSPACE then [key]
    else [BACKSPACE, ' '] + if text == [] then [BELL] else [BACKSPACE]
  }

  function TextAfter(keys: seq<char>, n: nat): seq<char>
    requires n <= |keys|
  {
    if n == 0 then [] else Edit(TextAfter(keys, n - 1), keys[n - 1])
  }

  function EchoAfter(keys: seq<char>, n: nat): seq<char>
    requires n <= |keys|
  {
    if n == 0 then [] else EchoAfter(keys, n - 1) + Echo(TextAfter(keys, n - 1), keys[n - 1])
  }

  /** With key i in hand the editor stops: the buffer is full, or the key ends the line. */
  predicate StopsAt(keys: seq<char>, bufLen: nat, i: nat)
    requires i < |keys|
  {
    |TextAfter(keys, i)| >= bufLen || IsTerminator(keys[i])
  }

  /** Keys 0 to n - 1 were all taken into the line. */
  ghost predicate Editing(keys: seq<char>, bufLen: nat, n: nat)
    requires n <= |keys|
  {
    forall i :: 0 <= i < n ==> !StopsAt(keys, bufLen, i)
  }

  datatype Outcome = Returned(length: int) | Waiting

  /** After n keys of the line: what the call has done, given the keys it was offered. */
  ghost predicate Finished(keys: seq<char>, bufLen: nat, n: nat, r: Outcome, echo: seq<char>, rest: seq<char>)
    requires n <= |keys|
  {
    && Editing(keys, bufLen, n)
    && if n == |keys| then r == Waiting && echo == EchoAfter(keys, n) && rest == []
       else
         && StopsAt(keys, bufLen, n) && rest == keys[n + 1..]
         && if |TextAfter(keys, n)| >= bufLen then r == Returned(-1) && echo == EchoAfter(keys, n)
            else r == Returned(|TextAfter(keys, n)|) && echo == EchoAfter(keys, n) + [keys[n]]
  }

  /** One key of the line: echo it and edit the buffer. */
  method HandleKey(uart: Uart, buffer: array<char>, iLen: nat, cChar: char) returns (iLen': nat)
    requires iLen < buffer.Length
    modifies uart, buffer
    ensures uart.keys == old(uart.keys) && uart.sent == old(uart.sent) + Echo(old(buffer[..iLen]), cChar)
    ensures iLen' <= buffer.Length && buffer[..iLen'] == Edit(old(buffer[..iLen]), cChar)
  {
    iLen' := iLen;
    if cChar == BACKSPACE {
      uart.WritePolling([cChar]);
      uart.WritePolling([' ']);
      if iLen' != 0 {
        uart.WritePolling([cChar]);
        iLen' := iLen' - 1;
      } else {
        uart.WritePolling([BELL]);
      }
    } else {
      uart.WritePolling([cChar]);
      buffer[iLen'] := cChar;
      iLen' := iLen' + 1;
    }
  }

  lemma KeyTaken(keys: seq<char>, bufLen: nat, n: nat)
    requires n < |keys| && Editing(keys, bufLen, n) && |TextAfter(keys, n)| < bufLen && !IsTerminator(keys[n])
    ensures Editing(keys, bufLen, n + 1)
    ensures TextAfter(keys, n + 1) == Edit(TextAfter(keys, n), keys[n])
    ensures EchoAfter(keys, n + 1) == EchoAfter(keys, n) + Echo(TextAfter(keys, n), keys[n])
  {
  }

  lemma NoKeyYet(keys: seq<char>, bufLen: nat)
    ensures Editing(keys, bufLen, 0) && TextAfter(keys, 0) == [] && EchoAfter(keys, 0) == []
  {
  }

  method GetCmd(uart: Uart, buffer: array<char>) returns (r: Outcome, ghost n: nat)
    modifies uart, buffer
    ensures n <= |old(uart.keys)|
    ensures exists echo :: uart.sent == old(uart.sent) + echo
              && Finished(old(uart.keys), buffer.Length, n, r, echo, uart.keys)
    ensures |TextAfter(old(uart.keys), n)| <= buffer.Length
    ensures buffer[..|TextAfter(old(uart.keys), n)|] == TextAfter(old(uart.keys), n)
    ensures r.Returned? && r.length >= 0 ==> buffer[r.length] == NUL
  {
    hide Editing, TextAfter, EchoAfter, Edit, Echo;
    ghost var keys := uart.keys;
    ghost var sent0 := uart.sent;
    n := 0;
    NoKeyYet(keys, buffer.Length);
    var iLen: nat := 0;
    var pressed, cChar := uart.ReadPolling();
    while pressed
      invariant n <= |keys|
      invariant if pressed then n < |keys| && cChar == keys[n] && uart.keys == keys[n + 1..]
                else n == |keys| && uart.keys == []
      invariant Editing(keys, buffer.Length, n)
      invariant iLen <= buffer.Length && buffer[..iLen] == TextAfter(keys, n)
      invariant uart.sent == sent0 + EchoAfter(keys, n)
      decreases |keys| - n, pressed
    {
      if iLen >= buffer.Length {
        assert Finished(keys, buffer.Length, n, Returned(-1), EchoAfter(keys, n), uart.keys);
        return Returned(-1), n;
      }
      if cChar == '\r' || cChar == '\n' {
        uart.WritePolling([cChar]);
        buffer[iLen] := NUL;
        assert Finished(keys, buffer.Length, n, Returned(iLen), EchoAfter(keys, n) + [cChar], uart.keys);
        return Returned(iLen), n;
      }
      KeyTaken(keys, buffer.Length, n);
      iLen := HandleKey(uart, buffer, iLen, cChar);
      n := n + 1;
      pressed, cChar := uart.ReadPolling();
    }
    assert Finished(keys, buffer.Length, n, Waiting, EchoAfter(keys, n), uart.keys);
    r := Waiting;
  }

  /** The line is given up exactly when its length reaches the buffer size before a terminator. */
  lemma OverflowExactlyWhen(keys: seq<char>, bufLen: nat, n: nat, r: Outcome, echo: seq<char>, rest: seq<char>)
    requires n <= |keys| && Finished(keys, bufLen, n, r, echo, rest)
    ensures r == Returned(-1) <==>
            exists i :: 0 <= i < |keys| && |TextAfter(keys, i)| == bufLen &&
                        forall j :: 0 <= j < i ==> !IsTerminator(keys[j])
  {
    if r == Returned(-1) {
      FirstFull(keys, bufLen, n);
    }
    if i :| 0 <= i < |keys| && |TextAfter(keys, i)| == bufLen && forall j :: 0 <= j < i ==> !IsTerminator(keys[j]) {
      assert StopsAt(keys, bufLen, i);
      assert n <= i;
      assert n < i ==> !IsTerminator(keys[n]);
    }
  }

  /** Carriage return or newline, in the keys of a terminal. */
  ghost predicate LineEnds(keys: seq<char>, i: int) {
    0 <= i < |keys| && (keys[i] == '\r' || keys[i] == '\n')
  }

  /**
   * A line is returned exactly when a carriage return or a newline comes before the buffer is full;
   * the first of them ends it, the keys before it are its text, and the keys behind it stay unread.
   */
  lemma ReturnsExactlyWhen(keys: seq<char>, bufLen: nat, n: nat, r: Outcome, echo: seq<char>, rest: seq<char>, i: nat)
    requires n <= |keys| && Finished(keys, bufLen, n, r, echo, rest)
    requires LineEnds(keys, i) && forall j :: 0 <= j < i ==> !LineEnds(keys, j)
    ensures r == Returned(-1) || (r == Returned(|TextAfter(keys, i)|) && n == i && rest == keys[i + 1..])
    ensures r == Returned(-1) <==> exists j :: 0 <= j <= i && |TextAfter(keys, j)| >= bufLen
  {
    assert StopsAt(keys, bufLen, i);
    if n < i {
      assert !LineEnds(keys, n);
    }
    if r == Returned(-1) {
      assert |TextAfter(keys, n)| >= bufLen;
    } else {
      forall j | 0 <= j <= i ensures |TextAfter(keys, j)| < bufLen {
        assert j < n ==> !StopsAt(keys, bufLen, j);
      }
    }
  }

  /** Without a carriage return or a newline the call waits, or gives up on a full buffer. */
  lemma WaitsForLineEnd(keys: seq<char>, bufLen: nat, n: nat, r: Outcome, echo: seq<char>, rest: seq<char>)
    requires n <= |keys| && Finished(keys, bufLen, n, r, echo, rest)
    requires forall j :: 0 <= j < |keys| ==> !LineEnds(keys, j)
    ensures r == Waiting || r == Returned(-1)
    ensures r == Returned(-1) <==> exists j :: 0 <= j < |keys| && |TextAfter(keys, j)| >= bufLen
  {
    if n < |keys| {
      assert !LineEnds(keys, n);
      assert |TextAfter(keys, n)| >= bufLen;
    } else {
      forall j | 0 <= j < |keys| ensures |TextAfter(keys, j)| < bufLen {
        assert !StopsAt(keys, bufLen, j);
      }
    }
  }

  /** The length grows by at most one key at a time, so a full buffer is exactly full. */
  lemma FirstFull(keys: seq<char>, bufLen: nat, n: nat)
    requires n < |keys| && Editing(keys, bufLen, n) && |TextAfter(keys, n)| >= bufLen
    ensures |TextAfter(keys, n)| == bufLen
    ensures forall j :: 0 <= j < n ==> !IsTerminator(keys[j])
  {
    assert n > 0 ==> !StopsAt(keys, bufLen, n - 1);
    forall j | 0 <= j < n ensures !IsTerminator(keys[j]) {
      assert !StopsAt(keys, bufLen, j);
    }
  }

  // ----- the terminal at the other end -----

  /** One line of unlimited width and the cursor. */
  datatype Screen = Screen(cells: int -> char, col: nat)

  /** Backspace moves left but not past the margin, the bell only rings, a printable key is put at the cursor. */
  function Show(s: Screen, c: char): Screen {
    if c == BACKSPACE then (if s.col == 0 then s else s.(col := s.col - 1))
    else if c == BELL then s
    else Screen(j => if j == s.col then c else s.cells(j), s.col + 1)
  }

  function ShowAll(s: Screen, cs: seq<char>): Screen {
    if cs == [] then s else Show(ShowAll(s, cs[..|cs| - 1]), cs[|cs| - 1])
  }

  lemma {:induction false} ShowConcat(s: Screen, a: seq<char>, b: seq<char>)
    ensures ShowAll(s, a + b) == ShowAll(ShowAll(s, a), b)
  {
    if b == [] {
      assert a + b == a;
    } else {
      ShowConcat(s, a, b[..|b| - 1]);
      assert (a + b)[..|a + b| - 1] == a + b[..|b| - 1];
    }
  }

  /** Backspace or a printable ASCII character. */
  predicate PlainKey(key: char) {
    key == BACKSPACE || ' ' <= key <= '~'
  }

  /** The typed region of the terminal, from column `start` to the cursor, shows the text. */
  ghost predicate Agrees(s: Screen, start: nat, text: seq<char>) {
    s.col == start + |text| && forall k :: 0 <= k < |text| ==> s.cells(start + k) == text[k]
  }

  /** Backspace was pressed on an empty line. */
  ghost predicate Underflow(keys: seq<char>, n: nat)
    requires n <= |keys|
  {
    exists i :: 0 <= i < n && keys[i] == BACKSPACE && TextAfter(keys, i) == []
  }

  lemma ShowEcho(s: Screen, text: seq<char>, key: char)
    requires PlainKey(key)
    ensures ShowAll(s, Echo(text, key)) ==
            if key != BACKSPACE then Show(s, key)
            else Show(Show(Show(s, BACKSPACE), ' '), if text == [] then BELL else BACKSPACE)
  {
    ShowOne(s, key);
    if key == BACKSPACE {
      var c := if text == [] then BELL else BACKSPACE;
      ShowConcat(s, [BACKSPACE, ' '], [c]);
      ShowConcat(s, [BACKSPACE], [' ']);
      ShowOne(s, BACKSPACE);
      ShowOne(Show(s, BACKSPACE), ' ');
      ShowOne(Show(Show(s, BACKSPACE), ' '), c);
      assert [BACKSPACE] + [' '] == [BACKSPACE, ' '];
    }
  }

  lemma ShowOne(s: Screen, c: char)
    ensures ShowAll(s, [c]) == Show(s, c)
  {
  }

  /** One key keeps the agreement, except for a backspace at the left margin. */
  lemma EchoKeepsAgreement(s: Screen, start: nat, text: seq<char>, key: char)
    requires PlainKey(key) && Agrees(s, start, text)
    ensures var s' := ShowAll(s, Echo(text, key));
            if start == 0 && key == BACKSPACE && text == [] then s'.col == 1
            else
              && Agrees(s', start, Edit(text, key))
              && forall j :: j < start ==>
                   s'.cells(j) == if j == start - 1 && key == BACKSPACE && text == [] then ' ' else s.cells(j)
  {
    ShowEcho(s, text, key);
  }

  /** Once the cursor has slipped by one column it stays one column off. */
  lemma SlippedStaysSlipped(s: Screen, text: seq<char>, key: char)
    requires PlainKey(key) && s.col == 1 + |text|
    ensures ShowAll(s, Echo(text, key)).col == 1 + |Edit(text, key)|
  {
    ShowEcho(s, text, key);
  }

  lemma UnderflowStep(keys: seq<char>, n: nat)
    requires 1 <= n <= |keys|
    ensures Underflow(keys, n) <==> Underflow(keys, n - 1) || (keys[n - 1] == BACKSPACE && TextAfter(keys, n - 1) == [])
  {
    hide TextAfter;
  }

  lemma NothingShown(s: Screen, keys: seq<char>)
    ensures ShowAll(s, []) == s && !Underflow(keys, 0)
  {
  }

  lemma {:induction false} EchoTrace(s: Screen, keys: seq<char>, n: nat)
    requires n <= |keys| && forall i :: 0 <= i < n ==> PlainKey(keys[i])
    ensures var s', text := ShowAll(s, EchoAfter(keys, n)), TextAfter(keys, n);
            if s.col == 0 && Underflow(keys, n) then s'.col == 1 + |text|
            else
              && Agrees(s', s.col, text)
              && forall j :: j < s.col ==>
                   s'.cells(j) == if j == s.col - 1 && Underflow(keys, n) then ' ' else s.cells(j)
  {
    hide Show, ShowAll, Echo, PlainKey, Underflow;
    if n == 0 {
      NothingShown(s, keys);
      NoKeyYet(keys, 0);
    } else {
      EchoTrace(s, keys, n - 1);
      var text, key := TextAfter(keys, n - 1), keys[n - 1];
      var prev := ShowAll(s, EchoAfter(keys, n - 1));
      ShowConcat(s, EchoAfter(keys, n - 1), Echo(text, key));
      UnderflowStep(keys, n);
      if s.col == 0 && Underflow(keys, n - 1) {
        SlippedStaysSlipped(prev, text, key);
      } else {
        EchoKeepsAgreement(prev, s.col, text, key);
      }
    }
  }

  /**
   * With printable keys the terminal shows the edited text from the starting column on, with the
   * cursor behind it, exactly when the line did not start at the left margin or backspace was
   * never pressed on an empty line.
   */
  lemma EchoAgreesExactlyWhen(s: Screen, keys: seq<char>, n: nat)
    requires n <= |keys| && forall i :: 0 <= i < n ==> PlainKey(keys[i])
    ensures Agrees(ShowAll(s, EchoAfter(keys, n)), s.col, TextAfter(keys, n)) <==> s.col >= 1 || !Underflow(keys, n)
  {
    EchoTrace(s, keys, n);
  }

  /**
   * What stood left of the starting column, the prompt, survives exactly when backspace was never
   * pressed on an empty line or the prompt ended in a blank anyway.
   */
  lemma PromptSurvivesExactlyWhen(s: Screen, keys: seq<char>, n: nat)
    requires n <= |keys| && s.col >= 1 && forall i :: 0 <= i < n ==> PlainKey(keys[i])
    ensures (forall j :: j < s.col ==> ShowAll(s, EchoAfter(keys, n)).cells(j) == s.cells(j))
            <==> !Underflow(keys, n) || s.cells(s.col - 1) == ' '
  {
    hide Underflow, ShowAll;
    EchoTrace(s, keys, n);
    assert ShowAll(s, EchoAfter(keys, n)).cells(s.col - 1) == if Underflow(keys, n) then ' ' else s.cells(s.col - 1);
  }
}
