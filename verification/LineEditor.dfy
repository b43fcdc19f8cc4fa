/** keyboard_readline: the line that ends up in the caller's buffer, and its echo on the screen. */
module LineEditor {
  import opened Bytes
  import opened ScreenModel
  import ScreenDriver
  // ----- The line -----

  // One key's effect: backspace removes the last character still there, if any.
  function Typed(text: seq<byte>, key: byte): seq<byte> {
    if key != BS then text + [key] else if text == [] then [] else text[..|text| - 1]
  }

  // The line held when the reader stops, how many keys it has taken, and whether it has
  // stopped (it waits for more keys otherwise).
  datatype Line = Line(text: seq<byte>, used: nat, done: bool)

  function Edit(text: seq<byte>, keys: seq<byte>, max: int): Line
    decreases |keys|
  {
    if |text| >= max - 1 then Line(text, 0, true)
    else if keys == [] then Line(text, 0, false)
    else if keys[0] == LF then Line(text, 1, true)
    else
      var rest := Edit(Typed(text, keys[0]), keys[1..], max);
      rest.(used := rest.used + 1)
  }

  // The keys that made the line: those taken, without a closing newline.
  function Body(l: Line, keys: seq<byte>): seq<byte>
    requires l.used <= |keys|
  {
    if l.used > 0 && keys[l.used - 1] == 10 then keys[..l.used - 1] else keys[..l.used]
  }

  function TypeAll(keys: seq<byte>): seq<byte> {
    if keys == [] then [] else Typed(TypeAll(keys[..|keys| - 1]), keys[|keys| - 1])
  }

  // An independent reading of the same keys, from the right: a backspace cancels the
  // nearest uncancelled character before it, and is lost when there is none.
  function Kept(keys: seq<byte>, pending: nat): seq<byte> {
    if keys == [] then []
    else
      var n := |keys| - 1;
      if keys[n] == 8 then Kept(keys[..n], pending + 1)
      else if pending > 0 then Kept(keys[..n], pending - 1)
      else Kept(keys[..n], 0) + [keys[n]]
  }

  lemma {:induction false} KeptIsTyped(keys: seq<byte>, pending: nat)
    ensures Kept(keys, pending) == TypeAll(keys)[..if pending <= |TypeAll(keys)| then |TypeAll(keys)| - pending else 0]
  {
    if keys == [] {
    } else {
      var n := |keys| - 1;
      if keys[n] == BS { KeptIsTyped(keys[..n], pending + 1); }
      else if pending > 0 { KeptIsTyped(keys[..n], pending - 1); }
      else { KeptIsTyped(keys[..n], 0); }
    }
  }

  // None of the first `n` keys ends the line: no newline among them, room before each.
  ghost predicate Runs(before: seq<byte>, keys: seq<byte>, n: nat, max: int)
    requires n <= |keys|
  {
    forall j :: 0 <= j < n ==> keys[j] != LF && |TypeAll(before + keys[..j])| < max - 1
  }

  lemma SplitFirst(before: seq<byte>, keys: seq<byte>, j: nat)
    requires 0 < j <= |keys|
    ensures before + keys[..j] == before + [keys[0]] + keys[1..][..j - 1]
  {
  }

  lemma RunsCons(before: seq<byte>, keys: seq<byte>, n: nat, max: int)
    requires 0 < n <= |keys| && keys[0] != LF && |TypeAll(before)| < max - 1
    requires Runs(before + [keys[0]], keys[1..], n - 1, max)
    ensures Runs(before, keys, n, max)
  {
    forall j | 0 <= j < n ensures keys[j] != LF && |TypeAll(before + keys[..j])| < max - 1 {
      if j == 0 {
        assert before + keys[..0] == before;
      } else {
        assert keys[1..][j - 1] == keys[j] && |TypeAll(before + [keys[0]] + keys[1..][..j - 1])| < max - 1;
        SplitFirst(before, keys, j);
      }
    }
  }

  // `l` is a right outcome for these keys, `before` having been typed already.
  ghost predicate Outcome(before: seq<byte>, keys: seq<byte>, l: Line, max: int) {
    && l.used <= |keys| && |l.text| <= max - 1
    && l.text == TypeAll(before + Body(l, keys))
    && Runs(before, keys, |Body(l, keys)|, max)
    && (if l.done then |l.text| == max - 1 || (l.used > 0 && keys[l.used - 1] == LF) else l.used == |keys|)
  }

  lemma BodyCons(keys: seq<byte>, r: Line)
    requires keys != [] && keys[0] != LF && r.used < |keys|
    ensures Body(r.(used := r.used + 1), keys) == [keys[0]] + Body(r, keys[1..])
  {
  }

  lemma OutcomeCons(before: seq<byte>, keys: seq<byte>, r: Line, max: int)
    requires keys != [] && keys[0] != LF && |TypeAll(before)| < max - 1
    requires Outcome(before + [keys[0]], keys[1..], r, max)
    ensures Outcome(before, keys, r.(used := r.used + 1), max)
  {
    BodyCons(keys, r);
    assert before + ([keys[0]] + Body(r, keys[1..])) == before + [keys[0]] + Body(r, keys[1..]);
    RunsCons(before, keys, |Body(r, keys[1..])| + 1, max);
  }

  lemma OutcomeAtOnce(before: seq<byte>, keys: seq<byte>, max: int)
    requires max >= 1 && |TypeAll(before)| <= max - 1
    requires |TypeAll(before)| == max - 1 || keys == [] || keys[0] == LF
    ensures Outcome(before, keys, Edit(TypeAll(before), keys, max), max)
  {
    assert before + [] == before && keys[..0] == [];
  }

  // Where the editor stops, and with what.
  lemma {:induction false} EditStops(before: seq<byte>, keys: seq<byte>, max: int)
    requires max >= 1 && |TypeAll(before)| <= max - 1
    ensures Outcome(before, keys, Edit(TypeAll(before), keys, max), max)
    decreases |keys|
  {
    if |TypeAll(before)| < max - 1 && keys != [] && keys[0] != LF {
      var more := before + [keys[0]];
      assert more[..|more| - 1] == before;
      EditStops(more, keys[1..], max);
      OutcomeCons(before, keys, Edit(TypeAll(more), keys[1..], max), max);
    } else {
      OutcomeAtOnce(before, keys, max);
    }
  }

  lemma KeptFromStart(keys: seq<byte>)
    ensures [] + keys == keys && Kept(keys, 0) == TypeAll([] + keys)
  {
    KeptIsTyped(keys, 0);
    assert [] + keys == keys;
  }

  // For every stream of keys: the line is what is left after each backspace has cancelled
  // the nearest character before it; it ends at the first newline or at max - 1 held
  // characters, whichever comes first.
  lemma LineIsKept(keys: seq<byte>, max: int)
    requires max >= 1
    ensures var l := Edit([], keys, max);
      && l.used <= |keys| && l.text == Kept(Body(l, keys), 0) && |l.text| <= max - 1
      && (forall j :: 0 <= j < |Body(l, keys)| ==> keys[j] != 10 && |Kept(keys[..j], 0)| < max - 1)
      && (if l.done then |l.text| == max - 1 || (l.used > 0 && keys[l.used - 1] == 10) else l.used == |keys|)
  {
    EditStops([], keys, max);
    var l := Edit([], keys, max);
    KeptFromStart(Body(l, keys));
    forall j | 0 <= j < |Body(l, keys)| ensures keys[j] != LF && |Kept(keys[..j], 0)| < max - 1 {
      KeptFromStart(keys[..j]);
    }
  }
  // ----- The echo -----

  const ERASE: seq<byte> := [BS, BLANK, BS]

  function EchoKey(s: Sheet, text: seq<byte>, key: byte, color: byte): (t: Sheet)
    requires SheetOk(s)
    ensures SheetOk(t)
  {
    if key == BS then (if text == [] then s else Print(s, ERASE, color)) else Put(s, key, color)
  }

  function Echo(s: Sheet, text: seq<byte>, keys: seq<byte>, max: int, color: byte): (t: Sheet)
    requires SheetOk(s)
    ensures SheetOk(t)
    decreases |keys|
  {
    if |text| >= max - 1 || keys == [] then s
    else if keys[0] == LF then Put(s, LF, color)
    else Echo(EchoKey(s, text, keys[0], color), Typed(text, keys[0]), keys[1..], max, color)
  }

  // `used` keys have made `text` and turned the sheet `start` into `now`: what the rest of
  // the keys make of these is what all the keys make of an empty line and `start`.
  ghost predicate Reading(start: Sheet, now: Sheet, text: seq<byte>, keys: seq<byte>, used: nat, max: int, color: byte)
    requires used <= |keys| && SheetOk(start) && SheetOk(now)
  {
    var l := Edit(text, keys[used..], max);
    && Edit([], keys, max) == l.(used := used + l.used)
    && Echo(start, [], keys, max, color) == Echo(now, text, keys[used..], max, color)
  }

  lemma ReadingStarts(start: Sheet, keys: seq<byte>, max: int, color: byte)
    requires SheetOk(start)
    ensures Reading(start, start, [], keys, 0, max, color)
  {
    assert keys[0..] == keys;
  }

  lemma ReadingStep(start: Sheet, now: Sheet, text: seq<byte>, keys: seq<byte>, used: nat, max: int, color: byte)
    requires used < |keys| && keys[used] != LF && |text| < max - 1 && SheetOk(start) && SheetOk(now)
    requires Reading(start, now, text, keys, used, max, color)
    ensures Reading(start, EchoKey(now, text, keys[used], color), Typed(text, keys[used]), keys, used + 1, max, color)
  {
    assert keys[used..][1..] == keys[used + 1..];
  }

  // Full, out of keys, or at a newline: the line is `text`.
  lemma ReadingEnds(start: Sheet, now: Sheet, text: seq<byte>, keys: seq<byte>, used: nat, max: int, color: byte)
    requires used <= |keys| && SheetOk(start) && SheetOk(now)
    requires Reading(start, now, text, keys, used, max, color)
    ensures |text| >= max - 1 ==>
      Edit([], keys, max) == Line(text, used, true) && Echo(start, [], keys, max, color) == now
    ensures |text| < max - 1 && used == |keys| ==>
      Edit([], keys, max) == Line(text, used, false) && Echo(start, [], keys, max, color) == now
    ensures |text| < max - 1 && used < |keys| && keys[used] == LF ==>
      Edit([], keys, max) == Line(text, used + 1, true) && Echo(start, [], keys, max, color) == Put(now, LF, color)
  {
  }

  // One key other than a newline, with `i` characters in the buffer.
  method TakeKey(key: byte, buf: array<byte>, i: int, vga: ScreenDriver.Vga) returns (j: int)
    requires 0 <= i < buf.Length && key != LF && vga.Valid() && vga.buffer != buf
    modifies buf, vga`row, vga`col, vga`sheet, vga.buffer
    ensures 0 <= j <= i + 1 && buf[..j] == Typed(old(buf[..i]), key)
    ensures forall k :: i < k < buf.Length ==> buf[k] == old(buf[k])
    ensures vga.Valid() && vga.sheet == EchoKey(old(vga.sheet), old(buf[..i]), key, vga.color)
  {
    j := i;
    if key == BS {
      if i > 0 {
        j := i - 1;
        vga.Print(ERASE);
      }
    } else {
      buf[i] := key;
      j := i + 1;
      vga.PutChar(key);
    }
  }

  // Stores the terminator after `i` characters.
  method Terminate(buf: array<byte>, i: int)
    requires 0 <= i < buf.Length
    modifies buf
    ensures buf[..] == old(buf[..])[i := 0] && buf[..i] == old(buf[..i])
  {
    buf[i] := 0;
  }

  // A newline is echoed and closes the line.
  method EndAtNewline(buf: array<byte>, i: int, vga: ScreenDriver.Vga)
    requires 0 <= i < buf.Length && vga.Valid() && vga.buffer != buf
    modifies buf, vga`row, vga`col, vga`sheet, vga.buffer
    ensures buf[..] == old(buf[..])[i := 0] && buf[..i] == old(buf[..i])
    ensures vga.Valid() && vga.sheet == Put(old(vga.sheet), LF, vga.color)
  {
    vga.PutChar(LF);
    Terminate(buf, i);
  }

  // keyboard_readline on the stream of keys that keyboard_read returns.  When the stream
  // runs out the reader is left waiting (`done` is false) and no terminator is stored.
  method ReadLine(keys: seq<byte>, buf: array<byte>, max: int, vga: ScreenDriver.Vga) returns (used: nat, done: bool)
    requires 1 <= max <= buf.Length && vga.Valid() && vga.buffer != buf
    modifies buf, vga`row, vga`col, vga`sheet, vga.buffer
    ensures var l := Edit([], keys, max);
      && used == l.used && done == l.done && |l.text| < buf.Length
      && buf[..|l.text|] == l.text && (done ==> buf[|l.text|] == 0)
    ensures forall k :: max <= k < buf.Length ==> buf[k] == old(buf[k])
    ensures vga.Valid() && vga.sheet == Echo(old(vga.sheet), [], keys, max, vga.color)
  {
    var i := 0;
    used := 0;
    ghost var start := vga.sheet;
    ReadingStarts(start, keys, max, vga.color);
    assert buf[..0] == [];
    while i < max - 1
      invariant 0 <= i <= max - 1 && used <= |keys| && vga.Valid()
      invariant forall k :: max <= k < buf.Length ==> buf[k] == old(buf[k])
      invariant Reading(start, vga.sheet, buf[..i], keys, used, max, vga.color)
      decreases |keys| - used
    {
      if used == |keys| || keys[used] == LF {
        ReadingEnds(start, vga.sheet, buf[..i], keys, used, max, vga.color);
        done := used < |keys|;
        if done {
          used := used + 1;
          EndAtNewline(buf, i, vga);
        }
        return;
      }
      ReadingStep(start, vga.sheet, buf[..i], keys, used, max, vga.color);
      i := TakeKey(keys[used], buf, i, vga);
      used := used + 1;
    }
    ReadingEnds(start, vga.sheet, buf[..i], keys, used, max, vga.color);
    Terminate(buf, i);
    done := true;
  }
  // ----- What is on the screen is what is in the buffer -----

  // A tab shows as a blank.
  function Glyph(key: byte): byte { if key == 9 then 0x20 else key }

  // The characters of `text` are on the sheet from position `p` on.
  ghost predicate Reads(s: Sheet, p: nat, text: seq<byte>, color: byte) {
    p + |text| <= |s.rows| * WIDTH && forall k :: 0 <= k < |text| ==> At(s, p + k) == Cell(Glyph(text[k]), color)
  }

  // The line typed so far stands on the sheet from position `p` on, the cursor after it,
  // and its start has not been scrolled out of the window's reach.
  ghost predicate Standing(s: Sheet, p: nat, text: seq<byte>, color: byte) {
    SheetOk(s) && Pos(s) == p + |text| && s.Top() * WIDTH <= p && Reads(s, p, text, color)
  }

  // The keys that can be echoed inside a line; no scancode gives a carriage return.
  predicate InLine(key: byte) { key != LF && key != CR }

  // Moving back one place, unless that leaves the window.
  lemma BackspaceAt(s: Sheet)
    requires SheetOk(s) && Pos(s) > s.Top() * WIDTH
    ensures Pos(Backspace(s)) == Pos(s) - 1 && Backspace(s).rows == s.rows
  {
  }

  // The blank goes where a character stood, so it never pushes the window on.
  lemma EraseNoScroll(s: Sheet, color: byte)
    requires SheetOk(s)
    ensures |Type(Backspace(s), Cell(BLANK, color), color).rows| == |s.rows|
  {
  }

  lemma PrintThree(s: Sheet, color: byte)
    requires SheetOk(s)
    ensures Print(s, ERASE, color) == Backspace(Type(Backspace(s), Cell(BLANK, color), color))
  {
    assert ERASE[1..] == [BLANK, BS] && [BLANK, BS][1..] == [BS] && [BS][1..] == [];
    var a := Put(s, BS, color);
    var b := Put(a, BLANK, color);
    assert Print(b, [BS], color) == Put(b, BS, color);
    assert Print(a, [BLANK, BS], color) == Print(b, [BS], color);
  }

  lemma EraseStands(s: Sheet, p: nat, text: seq<byte>, color: byte)
    requires Standing(s, p, text, color) && text != []
    ensures Standing(Print(s, ERASE, color), p, text[..|text| - 1], color)
  {
    var a := Backspace(s);
    BackspaceAt(s);
    var b := Type(a, Cell(BLANK, color), color);
    TypeAt(a, Cell(BLANK, color), color);
    EraseNoScroll(s, color);
    BackspaceAt(b);
    PrintThree(s, color);
  }

  // An erase takes the cursor back one place, or leaves it at the top left of the window.
  lemma EraseMoves(s: Sheet, color: byte)
    requires SheetOk(s)
    ensures Pos(s) - 1 <= Pos(Print(s, ERASE, color)) <= Pos(s)
  {
    var a := Backspace(s);
    var b := Type(a, Cell(BLANK, color), color);
    TypeAt(a, Cell(BLANK, color), color);
    EraseNoScroll(s, color);
    PrintThree(s, color);
    if Pos(s) > s.Top() * WIDTH {
      BackspaceAt(s);
      BackspaceAt(b);
    }
  }

  // A tab goes to the next multiple of four: a row is twenty times that.
  lemma TabMoves(s: Sheet, color: byte)
    requires SheetOk(s)
    ensures Pos(Put(s, TAB, color)) == Pos(s) + 4 - Pos(s) % 4
    ensures Pos(s) % 4 == 3 ==> Put(s, TAB, color) == Type(s, Cell(BLANK, color), color)
  {
    var n, blank := TabWidth(s), Cell(BLANK, color);
    assert Pos(s) % 4 == s.col % 4;
    TypeManyIsFillRow(s, n, blank, color);
    if n == 1 { assert TypeMany(s, 1, blank, color) == TypeMany(Type(s, blank, color), 0, blank, color); }
  }

  // The echo of `keys` alone, none of them ending the line.
  function EchoAll(s: Sheet, keys: seq<byte>, color: byte): (t: Sheet)
    requires SheetOk(s)
    ensures SheetOk(t)
  {
    if keys == [] then s
    else
      var n := |keys| - 1;
      EchoKey(EchoAll(s, keys[..n], color), TypeAll(keys[..n]), keys[n], color)
  }

  predicate ClosedBy(l: Line, keys: seq<byte>)
    requires l.used <= |keys|
  {
    l.used > 0 && keys[l.used - 1] == 10
  }

  // The echo of what the reader has taken, `before` having been echoed already.
  ghost predicate EchoIs(s: Sheet, before: seq<byte>, keys: seq<byte>, max: int, color: byte)
    requires SheetOk(s)
  {
    var l := Edit(TypeAll(before), keys, max);
    && l.used <= |keys|
    && var u := EchoAll(s, before + Body(l, keys), color);
       Echo(EchoAll(s, before, color), TypeAll(before), keys, max, color) ==
         if ClosedBy(l, keys) then Put(u, LF, color) else u
  }

  lemma OneStep(s: Sheet, text: seq<byte>, keys: seq<byte>, max: int, color: byte)
    requires SheetOk(s) && keys != [] && keys[0] != LF && |text| < max - 1
    ensures var r := Edit(Typed(text, keys[0]), keys[1..], max);
      Edit(text, keys, max) == r.(used := r.used + 1)
    ensures Echo(s, text, keys, max, color) == Echo(EchoKey(s, text, keys[0], color), Typed(text, keys[0]), keys[1..], max, color)
  {
  }

  lemma BodyOfStep(keys: seq<byte>, r: Line, before: seq<byte>)
    requires keys != [] && keys[0] != LF && r.used < |keys|
    ensures var l := r.(used := r.used + 1);
      && before + Body(l, keys) == (before + [keys[0]]) + Body(r, keys[1..])
      && (ClosedBy(l, keys) <==> ClosedBy(r, keys[1..]))
  {
    BodyCons(keys, r);
    assert before + ([keys[0]] + Body(r, keys[1..])) == (before + [keys[0]]) + Body(r, keys[1..]);
  }

  lemma TypeAllSnoc(s: Sheet, before: seq<byte>, key: byte, color: byte)
    requires SheetOk(s)
    ensures TypeAll(before + [key]) == Typed(TypeAll(before), key)
    ensures EchoAll(s, before + [key], color) == EchoKey(EchoAll(s, before, color), TypeAll(before), key, color)
  {
    var more := before + [key];
    assert more[..|more| - 1] == before;
  }

  lemma EchoIsCons(s: Sheet, before: seq<byte>, keys: seq<byte>, max: int, color: byte)
    requires SheetOk(s) && keys != [] && keys[0] != LF && |TypeAll(before)| < max - 1
    requires EchoIs(s, before + [keys[0]], keys[1..], max, color)
    ensures EchoIs(s, before, keys, max, color)
  {
    var more, rest := before + [keys[0]], keys[1..];
    TypeAllSnoc(s, before, keys[0], color);
    OneStep(EchoAll(s, before, color), TypeAll(before), keys, max, color);
    BodyOfStep(keys, Edit(TypeAll(more), rest, max), before);
  }

  lemma {:induction false} EchoOfBody(s: Sheet, before: seq<byte>, keys: seq<byte>, max: int, color: byte)
    requires SheetOk(s)
    ensures EchoIs(s, before, keys, max, color)
    decreases |keys|
  {
    if |TypeAll(before)| >= max - 1 || keys == [] || keys[0] == LF {
      assert before + [] == before && keys[..0] == [];
    } else {
      EchoOfBody(s, before + [keys[0]], keys[1..], max, color);
      EchoIsCons(s, before, keys, max, color);
    }
  }

  // Every tab among `keys` is typed in the last of four columns, `p` being the line's start.
  ghost predicate TabsAtEdge(p: nat, keys: seq<byte>) {
    forall j :: 0 <= j < |keys| && keys[j] == TAB ==> (p + |TypeAll(keys[..j])|) % 4 == 3
  }

  lemma TabsAtEdgeSnoc(p: nat, keys: seq<byte>)
    requires keys != []
    ensures var n := |keys| - 1;
      TabsAtEdge(p, keys) <==>
        TabsAtEdge(p, keys[..n]) && (keys[n] == TAB ==> (p + |TypeAll(keys[..n])|) % 4 == 3)
  {
    var n := |keys| - 1;
    assert forall j :: 0 <= j < n ==> keys[..n][j] == keys[j] && keys[..n][..j] == keys[..j];
  }

  // The line stays shorter than a screen less one row.
  ghost predicate StaysShort(keys: seq<byte>) {
    forall j :: 0 <= j < |keys| ==> |TypeAll(keys[..j])| < (HEIGHT - 1) * WIDTH
  }

  // The cursor is where the line's length says, or past it for good.
  lemma KeyMoves(s: Sheet, text: seq<byte>, key: byte, color: byte)
    requires SheetOk(s) && InLine(key)
    ensures Pos(EchoKey(s, text, key, color)) - |Typed(text, key)| >= Pos(s) - |text|
    ensures key == TAB && Pos(s) % 4 != 3 ==>
      Pos(EchoKey(s, text, key, color)) - |Typed(text, key)| > Pos(s) - |text|
  {
    if key == BS {
      EraseMoves(s, color);
    } else if key == TAB {
      TabMoves(s, color);
    } else {
      TypeAt(s, Cell(key, color), color);
    }
  }

  lemma TypeStands(s: Sheet, p: nat, text: seq<byte>, key: byte, color: byte)
    requires Standing(s, p, text, color) && |text| < (HEIGHT - 1) * WIDTH
    ensures Standing(Type(s, Cell(Glyph(key), color), color), p, text + [key], color)
  {
    TypeAt(s, Cell(Glyph(key), color), color);
  }

  lemma KeyStands(s: Sheet, p: nat, text: seq<byte>, key: byte, color: byte)
    requires Standing(s, p, text, color) && InLine(key) && |text| < (HEIGHT - 1) * WIDTH
    requires key == TAB ==> Pos(s) % 4 == 3
    ensures Standing(EchoKey(s, text, key, color), p, Typed(text, key), color)
  {
    if key == BS {
      if text != [] { EraseStands(s, p, text, color); }
    } else {
      if key == TAB { TabMoves(s, color); }
      TypeStands(s, p, text, key, color);
    }
  }

  // Typed from the right end: with every tab at an edge the line stands on the screen,
  // with any other tab the cursor has run ahead of it.
  lemma {:induction false} EchoStandsOrDrifts(s: Sheet, keys: seq<byte>, color: byte)
    requires SheetOk(s) && StaysShort(keys) && forall j :: 0 <= j < |keys| ==> InLine(keys[j])
    ensures TabsAtEdge(Pos(s), keys) ==> Standing(EchoAll(s, keys, color), Pos(s), TypeAll(keys), color)
    ensures !TabsAtEdge(Pos(s), keys) ==> Pos(EchoAll(s, keys, color)) > Pos(s) + |TypeAll(keys)|
  {
    if keys == [] {
    } else {
      var n := |keys| - 1;
      var before := keys[..n];
      assert forall j :: 0 <= j < n ==> before[..j] == keys[..j];
      EchoStandsOrDrifts(s, before, color);
      TabsAtEdgeSnoc(Pos(s), keys);
      var u, text := EchoAll(s, before, color), TypeAll(before);
      KeyMoves(u, text, keys[n], color);
      if TabsAtEdge(Pos(s), keys) { KeyStands(u, Pos(s), text, keys[n], color); }
    }
  }

  lemma LineFeedKeeps(s: Sheet, color: byte)
    requires SheetOk(s)
    ensures var t := Put(s, LF, color);
      && t.row == s.row + 1 && t.col == 0 && |t.rows| >= |s.rows|
      && forall q: nat :: q < |s.rows| * WIDTH ==> At(t, q) == At(s, q)
  {
  }

  lemma StandingReads(s: Sheet, p: nat, text: seq<byte>, color: byte)
    requires Standing(s, p, text, color)
    ensures Reads(s, p, text, color) && Reads(Put(s, LF, color), p, text, color)
  {
    LineFeedKeeps(s, color);
  }

  // Where the tabs of a line were typed, in terms of the keys alone.
  ghost predicate TabsAligned(p: nat, keys: seq<byte>) {
    forall j :: 0 <= j < |keys| && keys[j] == 9 ==> (p + |Kept(keys[..j], 0)|) % 4 == 3
  }

  lemma TabsAlignedIs(p: nat, keys: seq<byte>)
    ensures TabsAligned(p, keys) <==> TabsAtEdge(p, keys)
  {
    forall j | 0 <= j < |keys| ensures Kept(keys[..j], 0) == TypeAll(keys[..j]) {
      KeptIsTyped(keys[..j], 0);
    }
  }

  lemma RunsAt(keys: seq<byte>, body: seq<byte>, j: nat, max: int)
    requires body <= keys && j < |body| && Runs([], keys, |body|, max)
    ensures body[j] == keys[j] != LF && |TypeAll(body[..j])| < max - 1
  {
    assert [] + keys[..j] == keys[..j] == body[..j];
  }

  lemma ShortLine(keys: seq<byte>, l: Line, max: int)
    requires Outcome([], keys, l, max) && max <= (HEIGHT - 1) * WIDTH + 1
    requires forall k :: 0 <= k < |keys| ==> keys[k] != CR
    ensures l.text == TypeAll(Body(l, keys)) && StaysShort(Body(l, keys))
    ensures forall j :: 0 <= j < |Body(l, keys)| ==> InLine(Body(l, keys)[j])
  {
    var body := Body(l, keys);
    assert [] + body == body;
    assert Runs([], keys, |body|, max);
    forall j | 0 <= j < |body| ensures |TypeAll(body[..j])| < max - 1 && InLine(body[j]) {
      RunsAt(keys, body, j, max);
    }
  }

  // For every cursor, every stream of keys without a carriage return and every line that
  // fits on the screen: the line stands on the screen where it was typed, the cursor
  // right after it, exactly when each tab in it was typed one column short of a multiple
  // of four.  A closing newline is echoed after that: it moves to the next row and changes
  // no character.
  lemma EchoShowsLineIff(s: Sheet, keys: seq<byte>, max: int, color: byte)
    requires SheetOk(s) && 1 <= max <= 1921
    requires forall k :: 0 <= k < |keys| ==> keys[k] != 13
    ensures var l, t := Edit([], keys, max), Echo(s, [], keys, max, color);
      && l.used <= |keys|
      && var u := EchoAll(s, Body(l, keys), color);
         && t == (if ClosedBy(l, keys) then Put(u, 10, color) else u)
         && (Standing(u, Pos(s), l.text, color) <==> TabsAligned(Pos(s), Body(l, keys)))
         && (Pos(u) == Pos(s) + |l.text| <==> TabsAligned(Pos(s), Body(l, keys)))
         && (ClosedBy(l, keys) ==> t.row == u.row + 1 && t.col == 0)
         && (TabsAligned(Pos(s), Body(l, keys)) ==> Reads(t, Pos(s), l.text, color))
  {
    var l := Edit([], keys, max);
    EditStops([], keys, max);
    EchoOfBody(s, [], keys, max, color);
    var body := Body(l, keys);
    assert [] + body == body;
    ShortLine(keys, l, max);
    TabsAlignedIs(Pos(s), body);
    EchoStandsOrDrifts(s, body, color);
    LineFeedKeeps(EchoAll(s, body, color), color);
    if TabsAligned(Pos(s), body) { StandingReads(EchoAll(s, body, color), Pos(s), l.text, color); }
  }

  // The smallest such drift: a tab at the left edge moves the cursor four places and one
  // backspace undoes one, so the line is empty and the cursor is not back.
  lemma TabEchoDrifts()
    ensures var s := ClearSheet(0);
      var (t, l) := (Echo(s, [], [9, 8], 80, 0), Edit([], [9, 8], 80));
      l.text == [] && Pos(t) == 3 != Pos(s)
  {
    var s := ClearSheet(0);
    TypeManyIsFillRow(s, 4, Cell(BLANK, 0), 0);
    var u := Put(s, TAB, 0);
    assert Pos(u) == 4;
    assert [TAB, BS][1..] == [BS] && [BS][1..] == [];
    assert Typed([], TAB) == [TAB] && Typed([TAB], BS) == [];
    assert Edit([TAB], [BS], 80).text == Edit([], [], 80).text == [];
    PrintThree(u, 0);
    assert Echo(u, [TAB], [BS], 80, 0) == EchoKey(u, [TAB], BS, 0);
  }
}
