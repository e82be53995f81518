/** The timing decoder: one tick of the polling loop that classifies key-down
    and key-up durations into dits, dahs, character gaps and word gaps, as a
    pure step function over an immutable decoder state. */
module Decoder {
  import MorseTable
  import Text

  /** The length of one dit in milliseconds at a keying speed of `wpm` words
      per minute (the standard word PARIS is fifty dit units long). */
  function DitMillis(wpm: int): real
    requires wpm > 0
  {
    (60.0 / (50.0 * wpm as real)) * 1000.0
  }

  /** The keying speed the decoder runs at. */
  const Wpm: int := 20

  /** A dit length in whole milliseconds; the decoder compares integer
      millisecond deltas against multiples of it. */
  type Unit = u: int | u > 0 witness 1

  /** The minimum held time of a dah, and the minimum gap after a locked
      symbol that closes a character. */
  function DahAndSpc(unit: Unit): int {
    3 * unit
  }

  /** The minimum gap after a character that closes a word. */
  function Wrd(unit: Unit): int {
    7 * unit
  }

  /** A check of the definitions: at 20 words per minute a dit is exactly
      60 ms, so the thresholds are 180 ms and 420 ms, and for every unit
      they keep the ratio 1 : 3 : 7. `DitMillis` is not used by the step
      function, which takes the unit as a parameter. */
  lemma Thresholds(unit: Unit)
    ensures DitMillis(Wpm) == 60.0
    ensures DahAndSpc(60) == 180 && Wrd(60) == 420
    ensures unit < DahAndSpc(unit) < Wrd(unit)
    ensures 7 * DahAndSpc(unit) == 3 * Wrd(unit)
  {
  }

  /** The phase of the decoder. Each phase carries the text it stands for:
      the glyph of the symbol being keyed, a character gap or a word gap. */
  datatype ProcessingState = Nothing | Dit | Dah | DitLock | DahLock | Char | Word {

    /** Nothing carries no text, each symbol phase one dit or dah, and each
        gap phase a separator that starts with a space. */
    function Value(): (v: string)
      ensures this == Nothing <==> v == ""
      ensures this in {Dit, Dah, DitLock, DahLock} <==> |v| == 1 && MorseTable.IsCode(v)
      ensures this in {Char, Word} <==> |v| >= 1 && v[0] == ' '
    {
      match this
      case Nothing => ""
      case Dit => "."
      case Dah => "-"
      case DitLock => "."
      case DahLock => "-"
      case Char => assert " "[0] == ' '; " "
      case Word => " / "
    }

    /** Releasing the key fixes an unlocked symbol; every other phase stays. */
    function Next(): (r: ProcessingState)
      ensures this == Dit || this == Dah ==> r.Locked() && r.Value() == Value()
      ensures this != Dit && this != Dah ==> r == this
    {
      match this
      case Dit => DitLock
      case Dah => DahLock
      case _ => this
    }

    /** A locked phase holds the glyph of a symbol whose key has already
        been released. */
    function Locked(): (r: bool)
      ensures r <==> |Value()| == 1 && MorseTable.IsCode(Value()) && this != Dit && this != Dah
    {
      this == DitLock || this == DahLock
    }
  }

  /** The decoder's state: its phase, the time of the last phase change, the
      dits, dahs and gaps keyed so far, the decoded text so far, and the
      glyph of the symbol (or gap) currently pending. */
  datatype Decoder = Decoder(
    state: ProcessingState,
    lastChange: int,
    morseBuffer: string,
    charBuffer: string,
    currentChar: string)

  /** The state the loop starts in at time `t0`: it satisfies the
      invariant, and key-up ticks leave it alone until the key first goes
      down. */
  function Init(t0: int): (d: Decoder)
    ensures Inv(d)
    ensures forall unit: Unit, now: int :: Step(unit, d, false, now) == d
  {
    Decoder(Word, t0, "", "", "")
  }

  /** Replaces the pending glyph and appends `piece` to the decoded text. */
  function AddChar(d: Decoder, piece: string, newChar: string): (r: Decoder)
    ensures r.charBuffer == d.charBuffer + piece && r.currentChar == newChar
    ensures r.state == d.state && r.lastChange == d.lastChange && r.morseBuffer == d.morseBuffer
  {
    d.(currentChar := newChar, charBuffer := d.charBuffer + piece)
  }

  /** The character a closed group of dits and dahs decodes to: the last
      space-separated group of the Morse buffer looked up in the inverted
      table, or the empty string when the table does not know it. */
  function DecodeLast(morseBuffer: string): (c: string)
    ensures c == "" || (|c| == 1 && c in MorseTable.MorseCodeMap() &&
      MorseTable.MorseCodeMap()[c] == Text.LastGroup(morseBuffer))
  {
    MorseTable.Lookup(Text.LastGroup(morseBuffer))
  }

  /** One tick of the polling loop with the key down. */
  function Down(unit: Unit, d: Decoder, now: int): (r: Decoder)
    ensures d.morseBuffer <= r.morseBuffer && r.charBuffer == d.charBuffer
  {
    var delta := now - d.lastChange;
    match d.state
    case Word | Char =>
      d.(morseBuffer := d.morseBuffer + d.currentChar, state := Nothing, lastChange := now)
    case Nothing =>
      d.(state := Dit, lastChange := now, currentChar := Dit.Value())
    case Dit =>
      if delta >= DahAndSpc(unit) then d.(state := Dah, lastChange := now, currentChar := Dah.Value())
      else d
    case DitLock | DahLock =>
      d.(morseBuffer := d.morseBuffer + d.currentChar, state := Dit, currentChar := Dit.Value(), lastChange := now)
    case Dah => d
  }

  /** One tick of the polling loop with the key up. */
  function Up(unit: Unit, d: Decoder, now: int): (r: Decoder)
    ensures d.morseBuffer <= r.morseBuffer && d.charBuffer <= r.charBuffer
  {
    var delta := now - d.lastChange;
    match d.state
    case Dit | Dah | DitLock | DahLock =>
      if delta >= DahAndSpc(unit) && d.state.Locked() then
        var flushed := d.(morseBuffer := d.morseBuffer + d.currentChar, state := Char, lastChange := now);
        AddChar(flushed, DecodeLast(flushed.morseBuffer), Char.Value())
      else if !d.state.Locked() then
        d.(lastChange := now, state := d.state.Next())
      else d
    case Char =>
      if delta >= Wrd(unit) then AddChar(d.(state := Word, lastChange := now), Word.Value(), " ")
      else d
    case Nothing | Word => d
  }

  /** One tick of the polling loop, given whether the key is down and the
      current time. The Morse buffer and the decoded text only ever grow. */
  function Step(unit: Unit, d: Decoder, keyDown: bool, now: int): (r: Decoder)
    ensures d.morseBuffer <= r.morseBuffer
    ensures d.charBuffer <= r.charBuffer
  {
    if keyDown then Down(unit, d, now) else Up(unit, d, now)
  }

  /** One sample of the key: whether it is down, and when it was read. */
  datatype Sample = Sample(keyDown: bool, now: int)

  /** The polling loop over a sequence of samples. Over any samples, the
      Morse buffer and the decoded text are only ever appended to. */
  function Run(unit: Unit, d: Decoder, samples: seq<Sample>): (r: Decoder)
    ensures d.morseBuffer <= r.morseBuffer
    ensures d.charBuffer <= r.charBuffer
    decreases |samples|
  {
    if |samples| == 0 then d
    else Run(unit, Step(unit, d, samples[0].keyDown, samples[0].now), samples[1..])
  }

  /** Running over two runs of samples is running over the first, then the
      second. */
  lemma {:induction false} RunAppend(unit: Unit, d: Decoder, a: seq<Sample>, b: seq<Sample>)
    ensures Run(unit, d, a + b) == Run(unit, Run(unit, d, a), b)
    decreases |a|
  {
    if |a| > 0 {
      assert (a + b)[0] == a[0];
      assert (a + b)[1..] == a[1..] + b;
      RunAppend(unit, Step(unit, d, a[0].keyDown, a[0].now), a[1..], b);
    } else {
      assert a + b == b;
    }
  }

  // ---------------------------------------------------------------------
  // The transitions, one lemma per row of the loop's decision table.
  // ---------------------------------------------------------------------

  /** Key down in `Dit` turns the symbol into a dah exactly when it has been
      held for at least the dah threshold (inclusive); otherwise nothing
      changes. */
  lemma DownInDit(unit: Unit, d: Decoder, now: int)
    requires d.state == Dit
    ensures Step(unit, d, true, now).state == Dah <==> now - d.lastChange >= 3 * unit
    ensures now - d.lastChange >= 3 * unit ==>
      Step(unit, d, true, now) == d.(state := Dah, currentChar := "-", lastChange := now)
    ensures now - d.lastChange < 3 * unit ==> Step(unit, d, true, now) == d
  {
  }

  /** Key down in `Nothing` starts a dit. */
  lemma DownInNothing(unit: Unit, d: Decoder, now: int)
    requires d.state == Nothing
    ensures Step(unit, d, true, now) == d.(state := Dit, currentChar := ".", lastChange := now)
  {
  }

  /** Key down in `Dah` changes nothing: a dah stays a dah however long the
      key is held. */
  lemma DownInDah(unit: Unit, d: Decoder, now: int)
    requires d.state == Dah
    ensures Step(unit, d, true, now) == d
  {
  }

  /** Leaving a gap on key down takes two ticks: the first flushes the
      pending glyph into the Morse buffer and enters `Nothing`, the second
      starts a dit. */
  lemma DownAfterGap(unit: Unit, d: Decoder, t1: int, t2: int)
    requires d.state == Word || d.state == Char
    ensures Step(unit, d, true, t1) ==
      d.(state := Nothing, morseBuffer := d.morseBuffer + d.currentChar, lastChange := t1)
    ensures Step(unit, Step(unit, d, true, t1), true, t2) ==
      d.(state := Dit, morseBuffer := d.morseBuffer + d.currentChar, currentChar := ".", lastChange := t2)
  {
  }

  /** Key down after a locked symbol flushes that symbol's glyph into the
      Morse buffer and starts a new dit at once. */
  lemma DownAfterLocked(unit: Unit, d: Decoder, now: int)
    requires d.state.Locked()
    ensures Step(unit, d, true, now) ==
      d.(state := Dit, morseBuffer := d.morseBuffer + d.currentChar, currentChar := ".", lastChange := now)
  {
  }

  /** Key up in an unlocked `Dit` or `Dah` locks it on the first tick,
      whatever the elapsed time, and leaves the buffers alone. */
  lemma UpUnlocked(unit: Unit, d: Decoder, now: int)
    requires d.state == Dit || d.state == Dah
    ensures var r := Step(unit, d, false, now);
      && r.state.Locked()
      && r.state.Value() == d.state.Value()
      && r.lastChange == now
      && r.morseBuffer == d.morseBuffer && r.charBuffer == d.charBuffer && r.currentChar == d.currentChar
  {
  }

  /** Key up in a locked state closes the character exactly when the gap has
      reached the dah threshold: the pending glyph goes to the Morse buffer,
      the phase becomes `Char`, and the last group of the Morse buffer is
      looked up and appended to the decoded text. A shorter gap changes
      nothing. */
  lemma UpLocked(unit: Unit, d: Decoder, now: int)
    requires d.state.Locked()
    ensures var r := Step(unit, d, false, now);
      now - d.lastChange >= 3 * unit ==>
        && r.morseBuffer == d.morseBuffer + d.currentChar
        && r.state == Char
        && r.lastChange == now
        && r.charBuffer == d.charBuffer + MorseTable.Lookup(Text.LastGroup(r.morseBuffer))
        && r.currentChar == " "
    ensures now - d.lastChange < 3 * unit ==> Step(unit, d, false, now) == d
  {
  }

  /** Key up in `Char` closes the word exactly when the gap has reached the
      word threshold: the word marker " / " goes to the decoded text while
      the pending glyph becomes a single space. A shorter gap changes
      nothing. */
  lemma UpInChar(unit: Unit, d: Decoder, now: int)
    requires d.state == Char
    ensures Step(unit, d, false, now).state == Word <==> now - d.lastChange >= 7 * unit
    ensures now - d.lastChange >= 7 * unit ==>
      Step(unit, d, false, now) == d.(state := Word, lastChange := now, charBuffer := d.charBuffer + " / ", currentChar := " ")
    ensures now - d.lastChange < 7 * unit ==> Step(unit, d, false, now) == d
  {
  }

  /** Key up in `Nothing` or `Word` changes nothing. */
  lemma UpIdle(unit: Unit, d: Decoder, now: int)
    requires d.state == Nothing || d.state == Word
    ensures Step(unit, d, false, now) == d
  {
  }

  // ---------------------------------------------------------------------
  // What every reachable state satisfies.
  // ---------------------------------------------------------------------

  /** Text made of dits, dahs and the single-space separator only. */
  predicate MorseText(s: string) {
    forall k :: 0 <= k < |s| ==> s[k] in ".- "
  }

  /** Empty, or ending in the separator: the next glyph starts a new group. */
  predicate AtGroupStart(s: string) {
    s == [] || s[|s| - 1] == ' '
  }

  /** The invariant of the loop: the pending glyph is the one its phase
      stands for, the Morse buffer holds only dits, dahs and separators,
      while a symbol is being keyed the open group of the Morse buffer is a
      string of dits and dahs, and in `Nothing` the buffer is at a group
      start. */
  predicate Inv(d: Decoder) {
    && MorseText(d.morseBuffer)
    && (d.state == Dit || d.state == DitLock ==> d.currentChar == ".")
    && (d.state == Dah || d.state == DahLock ==> d.currentChar == "-")
    && (d.state == Char ==> d.currentChar == " ")
    && (d.state == Word ==> d.currentChar == " " || (d.currentChar == "" && d.morseBuffer == ""))
    && (d.state == Nothing ==> AtGroupStart(d.morseBuffer))
    && (d.state in {Dit, Dah, DitLock, DahLock} ==> MorseTable.IsCode(Text.LastGroup(d.morseBuffer)))
  }

  /** Appending a glyph to Morse text keeps it Morse text. */
  lemma MorseTextAppend(s: string, g: string)
    requires MorseText(s) && MorseText(g)
    ensures MorseText(s + g)
  {
    forall k | 0 <= k < |s + g| ensures (s + g)[k] in ".- " {
      if k < |s| { assert (s + g)[k] == s[k]; } else { assert (s + g)[k] == g[k - |s|]; }
    }
  }

  /** Appending a dit or dah extends the open group by that symbol. */
  lemma LastGroupAppendSymbol(s: string, c: char)
    requires c == '.' || c == '-'
    requires MorseTable.IsCode(Text.LastGroup(s))
    ensures Text.LastGroup(s + [c]) == Text.LastGroup(s) + [c]
    ensures MorseTable.IsCode(Text.LastGroup(s + [c]))
  {
    Text.SplitExtend(s, [c], ' ');
    var g := Text.LastGroup(s) + [c];
    assert forall k :: 0 <= k < |g| ==> g[k] == '.' || g[k] == '-' by {
      forall k | 0 <= k < |g| ensures g[k] == '.' || g[k] == '-' {
        if k < |g| - 1 { assert g[k] == Text.LastGroup(s)[k]; }
      }
    }
  }

  /** Flushing the glyph of a symbol keeps the Morse buffer Morse text and
      its open group a dit/dah string. */
  lemma FlushSymbol(d: Decoder)
    requires Inv(d)
    requires d.state in {Dit, Dah, DitLock, DahLock}
    ensures MorseText(d.morseBuffer + d.currentChar)
    ensures MorseTable.IsCode(Text.LastGroup(d.morseBuffer + d.currentChar))
  {
    var c := d.currentChar[0];
    assert d.currentChar == [c];
    MorseTextAppend(d.morseBuffer, d.currentChar);
    LastGroupAppendSymbol(d.morseBuffer, c);
  }

  /** A key-down tick while a symbol is keyed or locked keeps the
      invariant. */
  lemma SymbolDownInv(unit: Unit, d: Decoder, now: int)
    requires Inv(d)
    requires d.state in {Dit, Dah, DitLock, DahLock}
    ensures Inv(Down(unit, d, now))
  {
    if d.state.Locked() {
      FlushSymbol(d);
    }
  }

  /** A key-up tick while a symbol is keyed or locked keeps the invariant. */
  lemma SymbolUpInv(unit: Unit, d: Decoder, now: int)
    requires Inv(d)
    requires d.state in {Dit, Dah, DitLock, DahLock}
    ensures Inv(Up(unit, d, now))
  {
    if now - d.lastChange >= DahAndSpc(unit) && d.state.Locked() {
      FlushSymbol(d);
    }
  }

  /** A tick in a gap or in `Nothing` keeps the invariant. */
  lemma GapStepInv(unit: Unit, d: Decoder, keyDown: bool, now: int)
    requires Inv(d)
    requires d.state in {Nothing, Char, Word}
    ensures Inv(Step(unit, d, keyDown, now))
  {
    if keyDown && d.state != Nothing {
      MorseTextAppend(d.morseBuffer, d.currentChar);
    } else if keyDown {
      Text.LastGroupAfterSpace(d.morseBuffer, "");
      assert d.morseBuffer + "" == d.morseBuffer;
    }
  }

  /** Every tick keeps the invariant. */
  lemma StepInv(unit: Unit, d: Decoder, keyDown: bool, now: int)
    requires Inv(d)
    ensures Inv(Step(unit, d, keyDown, now))
  {
    if d.state in {Dit, Dah, DitLock, DahLock} {
      if keyDown {
        SymbolDownInv(unit, d, now);
      } else {
        SymbolUpInv(unit, d, now);
      }
    } else {
      GapStepInv(unit, d, keyDown, now);
    }
  }

  /** The loop keeps the invariant over any samples. */
  lemma {:induction false} RunInv(unit: Unit, d: Decoder, samples: seq<Sample>)
    requires Inv(d)
    ensures Inv(Run(unit, d, samples))
    decreases |samples|
  {
    if |samples| > 0 {
      StepInv(unit, d, samples[0].keyDown, samples[0].now);
      RunInv(unit, Step(unit, d, samples[0].keyDown, samples[0].now), samples[1..]);
    }
  }

  /** Every state the loop reaches from its start satisfies the invariant. */
  lemma Reachable(unit: Unit, t0: int, samples: seq<Sample>)
    ensures Inv(Run(unit, Init(t0), samples))
  {
    RunInv(unit, Init(t0), samples);
  }

  /** Each tick appends to the decoded text nothing, the word marker, or the
      lookup of the group it has just closed; in a reachable state that
      group is always a non-empty string of dits and dahs, so the lookup is
      of a real code. */
  lemma StepEmits(unit: Unit, d: Decoder, keyDown: bool, now: int)
    requires Inv(d)
    ensures var r := Step(unit, d, keyDown, now);
      var group := Text.LastGroup(r.morseBuffer);
      || r.charBuffer == d.charBuffer
      || r.charBuffer == d.charBuffer + " / "
      || (&& r.state == Char
          && |group| >= 1
          && MorseTable.IsCode(group)
          && r.charBuffer == d.charBuffer + MorseTable.Lookup(group))
  {
    if !keyDown && d.state.Locked() && now - d.lastChange >= DahAndSpc(unit) {
      var c := d.currentChar[0];
      assert d.currentChar == [c];
      LastGroupAppendSymbol(d.morseBuffer, c);
    }
  }
}
