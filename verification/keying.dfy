/** Keying text into the decoder under the loop's real polling: the loop
    reads the key once per tick, the ticks coming a fixed poll period
    apart, so a key held for a while is seen by a run of consecutive ticks.
    The lemmas state, in poll counts, exactly when a hold reads as a dit or
    a dah and a silence as a symbol gap, a character gap or a word gap, and
    prove the round trip from a text, through its Morse codes and a steady
    hand's timing, back to the decoded text. */
module Keying {
  import MorseTable
  import Text
  import D = Decoder

  /** The time between two ticks of the loop, in milliseconds. */
  type Poll = p: int | p > 0 witness 1

  /** The loop sleeps 10 ms after each tick. */
  const LoopPoll: Poll := 10

  /** `n` consecutive ticks, `p` ms apart from `t`, all seeing the key down
      (or all seeing it up). */
  function Hold(down: bool, n: nat, t: int, p: Poll): (s: seq<D.Sample>)
    ensures |s| == n
    decreases n
  {
    if n == 0 then [] else [D.Sample(down, t)] + Hold(down, n - 1, t + p, p)
  }

  /** One more tick adds one more poll period. */
  lemma MulStep(n: int, p: int)
    ensures n * p == (n - 1) * p + p
  {
  }

  lemma MulAdd(a: int, b: int, p: int)
    ensures a * p + b * p == (a + b) * p
  {
  }

  lemma MulNonneg(n: int, p: int)
    requires n >= 0 && p > 0
    ensures n * p >= 0
    ensures n * p == 0 <==> n == 0
  {
  }

  /** A run starting with one sample is that sample's tick, then the
      rest. */
  lemma RunCons(unit: D.Unit, d: D.Decoder, s: D.Sample, rest: seq<D.Sample>)
    ensures D.Run(unit, d, [s] + rest) == D.Run(unit, D.Step(unit, d, s.keyDown, s.now), rest)
  {
    assert ([s] + rest)[0] == s;
    assert ([s] + rest)[1..] == rest;
  }

  /** Ticks that each leave the decoder as it is leave it as it is
      together. */
  lemma {:induction false} HoldQuiet(unit: D.Unit, d: D.Decoder, down: bool, n: nat, t: int, p: Poll)
    requires forall now :: t <= now <= t + (n - 1) * p ==> D.Step(unit, d, down, now) == d
    ensures D.Run(unit, d, Hold(down, n, t, p)) == d
    decreases n
  {
    if n > 0 {
      MulStep(n - 1, p);
      MulNonneg(n - 1, p);
      RunCons(unit, d, D.Sample(down, t), Hold(down, n - 1, t + p, p));
      HoldQuiet(unit, d, down, n - 1, t + p, p);
    }
  }

  /** The states between two symbols: after a gap, after a locked symbol,
      or in `Nothing`. The next key-down starts a symbol from each. */
  predicate Between(d: D.Decoder) {
    d.state in {D.Nothing, D.DitLock, D.DahLock, D.Char, D.Word}
  }

  /** The ticks a key-down spends leaving a gap before a dit starts: one
      after a character or word gap, none otherwise. */
  function Wait(d: D.Decoder): nat {
    if d.state == D.Char || d.state == D.Word then 1 else 0
  }

  /** The Morse buffer once the pending glyph of a locked symbol or a gap is
      counted in: what it holds when the next symbol starts. */
  function Flushed(d: D.Decoder): string {
    d.morseBuffer + (if d.state.Locked() || d.state == D.Char || d.state == D.Word then d.currentChar else "")
  }

  // ---------------------------------------------------------------------
  // Holds and silences.
  // ---------------------------------------------------------------------

  /** With the key held down in `Dit` for `n` more ticks, the symbol turns
      into a dah exactly when the last of those ticks comes at least three
      units after the dit began; otherwise nothing changes. */
  lemma {:induction false} HeldDit(unit: D.Unit, d: D.Decoder, n: nat, t: int, p: Poll)
    requires d.state == D.Dit
    ensures var r := D.Run(unit, d, Hold(true, n, t, p));
      && (r.state == D.Dah <==> n >= 1 && t + (n - 1) * p >= d.lastChange + 3 * unit)
      && (r.state == D.Dah ==> r == d.(state := D.Dah, currentChar := "-", lastChange := r.lastChange))
      && (r.state != D.Dah ==> r == d)
    decreases n
  {
    if n > 0 {
      RunCons(unit, d, D.Sample(true, t), Hold(true, n - 1, t + p, p));
      MulStep(n - 1, p);
      MulNonneg(n - 1, p);
      D.DownInDit(unit, d, t);
      if t - d.lastChange >= 3 * unit {
        var d1 := D.Step(unit, d, true, t);
        forall now ensures D.Step(unit, d1, true, now) == d1 {
          D.DownInDah(unit, d1, now);
        }
        HoldQuiet(unit, d1, true, n - 1, t + p, p);
      } else {
        HeldDit(unit, d, n - 1, t + p, p);
      }
    }
  }

  /** A symbol keyed from `Nothing` or from a locked symbol and seen down by
      `n` ticks: the first tick starts a dit (flushing a locked glyph into
      the Morse buffer), and the symbol is a dah exactly when the last tick
      comes at least three units after the first. */
  lemma StartSymbol(unit: D.Unit, d: D.Decoder, n: nat, t: int, p: Poll)
    requires d.state == D.Nothing || d.state.Locked()
    requires n >= 1
    ensures var r := D.Run(unit, d, Hold(true, n, t, p));
      && (r.state == D.Dit || r.state == D.Dah)
      && (r.state == D.Dah <==> (n - 1) * p >= 3 * unit)
      && r.currentChar == r.state.Value()
      && r.morseBuffer == Flushed(d) && r.charBuffer == d.charBuffer
  {
    var d1 := D.Step(unit, d, true, t);
    if d.state == D.Nothing {
      D.DownInNothing(unit, d, t);
    } else {
      D.DownAfterLocked(unit, d, t);
    }
    RunCons(unit, d, D.Sample(true, t), Hold(true, n - 1, t + p, p));
    HeldDit(unit, d1, n - 1, t + p, p);
    MulStep(n - 1, p);
    MulNonneg(n - 1, p);
  }

  /** A symbol keyed from any state between symbols and seen down by `n`
      ticks. After a gap the first tick only leaves the gap, so the dit
      starts one poll later and a first symbol needs one tick more than a
      later one to become a dah: it is a dah exactly when the ticks after
      the dit began span three units. */
  lemma SymbolDown(unit: D.Unit, d: D.Decoder, n: nat, t: int, p: Poll)
    requires Between(d)
    requires n >= 1 + Wait(d)
    ensures var r := D.Run(unit, d, Hold(true, n, t, p));
      && (r.state == D.Dit || r.state == D.Dah)
      && (r.state == D.Dah <==> (n - 1 - Wait(d)) * p >= 3 * unit)
      && r.currentChar == r.state.Value()
      && r.morseBuffer == Flushed(d) && r.charBuffer == d.charBuffer
  {
    if Wait(d) == 1 {
      var d0 := D.Step(unit, d, true, t);
      D.DownAfterGap(unit, d, t, t + p);
      RunCons(unit, d, D.Sample(true, t), Hold(true, n - 1, t + p, p));
      StartSymbol(unit, d0, n - 1, t + p, p);
    } else {
      StartSymbol(unit, d, n, t, p);
    }
  }

  /** A press seen by a single tick after a gap is lost: that tick only
      leaves the gap, and key-up ticks in `Nothing` change nothing, so the
      silence that follows leaves the decoder waiting in `Nothing` with the
      gap glyph flushed and no symbol started. */
  lemma ShortPressLost(unit: D.Unit, d: D.Decoder, g: nat, t: int, p: Poll)
    requires d.state == D.Char || d.state == D.Word
    ensures D.Run(unit, d, Hold(true, 1, t, p) + Hold(false, g, t + p, p)) ==
      d.(state := D.Nothing, morseBuffer := d.morseBuffer + d.currentChar, lastChange := t)
  {
    var d1 := D.Step(unit, d, true, t);
    D.DownAfterGap(unit, d, t, t);
    D.RunAppend(unit, d, Hold(true, 1, t, p), Hold(false, g, t + p, p));
    RunCons(unit, d, D.Sample(true, t), Hold(true, 0, t + p, p));
    forall now ensures D.Step(unit, d1, false, now) == d1 {
      D.UpIdle(unit, d1, now);
    }
    HoldQuiet(unit, d1, false, g, t + p, p);
  }

  /** A short silence after a symbol: the first key-up tick locks the
      symbol, and the silence ends before any tick sees three units, so the
      symbol stays locked and pending. */
  lemma SpaceGap(unit: D.Unit, d: D.Decoder, g: nat, t: int, p: Poll)
    requires d.state == D.Dit || d.state == D.Dah
    requires g >= 1 && (g - 1) * p < 3 * unit
    ensures D.Run(unit, d, Hold(false, g, t, p)) == d.(state := d.state.Next(), lastChange := t)
  {
    var d1 := d.(state := d.state.Next(), lastChange := t);
    assert D.Step(unit, d, false, t) == d1;
    RunCons(unit, d, D.Sample(false, t), Hold(false, g - 1, t + p, p));
    MulStep(g - 1, p);
    forall now | t + p <= now <= t + p + (g - 2) * p
      ensures D.Step(unit, d1, false, now) == d1
    {
      D.UpLocked(unit, d1, now);
    }
    HoldQuiet(unit, d1, false, g - 1, t + p, p);
  }

  /** Silence after a locked symbol whose last tick comes at least three
      units, but less than ten, after the lock closes the character once
      and no word. */
  lemma {:induction false} Closing(unit: D.Unit, d: D.Decoder, n: nat, t: int, p: Poll)
    requires d.state.Locked()
    requires n >= 1
    requires d.lastChange + 3 * unit <= t + (n - 1) * p < d.lastChange + 10 * unit
    ensures var r := D.Run(unit, d, Hold(false, n, t, p));
      && r.state == D.Char && r.currentChar == " "
      && r.morseBuffer == d.morseBuffer + d.currentChar
      && r.charBuffer == d.charBuffer + MorseTable.Lookup(Text.LastGroup(r.morseBuffer))
      && r.lastChange <= t + (n - 1) * p
    decreases n
  {
    if t - d.lastChange >= 3 * unit {
      CloseAtFirst(unit, d, n, t, p);
    } else {
      RunCons(unit, d, D.Sample(false, t), Hold(false, n - 1, t + p, p));
      MulStep(n - 1, p);
      MulNonneg(n - 1, p);
      D.UpLocked(unit, d, t);
      Closing(unit, d, n - 1, t + p, p);
    }
  }

  /** The first tick of the silence already sees three units: it closes
      the character, and the later ones, under ten units, leave it. */
  lemma CloseAtFirst(unit: D.Unit, d: D.Decoder, n: nat, t: int, p: Poll)
    requires d.state.Locked()
    requires n >= 1
    requires d.lastChange + 3 * unit <= t
    requires t + (n - 1) * p < d.lastChange + 10 * unit
    ensures var r := D.Run(unit, d, Hold(false, n, t, p));
      && r.state == D.Char && r.currentChar == " "
      && r.morseBuffer == d.morseBuffer + d.currentChar
      && r.charBuffer == d.charBuffer + MorseTable.Lookup(Text.LastGroup(r.morseBuffer))
      && r.lastChange <= t + (n - 1) * p
  {
    RunCons(unit, d, D.Sample(false, t), Hold(false, n - 1, t + p, p));
    MulStep(n - 1, p);
    MulNonneg(n - 1, p);
    D.UpLocked(unit, d, t);
    var d1 := D.Step(unit, d, false, t);
    forall now | t + p <= now <= t + p + (n - 2) * p
      ensures D.Step(unit, d1, false, now) == d1
    {
      D.UpInChar(unit, d1, now);
    }
    HoldQuiet(unit, d1, false, n - 1, t + p, p);
  }

  /** A character gap after a symbol, seen up by `g` ticks whose last comes
      at least three units but less than ten after the first: the symbol is
      locked, then flushed, and the character it ends is looked up. */
  lemma LetterGap(unit: D.Unit, d: D.Decoder, g: nat, t: int, p: Poll)
    requires d.state == D.Dit || d.state == D.Dah
    requires 3 * unit <= (g - 1) * p < 10 * unit
    ensures var r := D.Run(unit, d, Hold(false, g, t, p));
      && r.state == D.Char && r.currentChar == " "
      && r.morseBuffer == d.morseBuffer + d.currentChar
      && r.charBuffer == d.charBuffer + MorseTable.Lookup(Text.LastGroup(r.morseBuffer))
      && r.lastChange <= t + (g - 1) * p
  {
    MulNonneg(g - 1, p);
    D.UpUnlocked(unit, d, t);
    var d1 := D.Step(unit, d, false, t);
    RunCons(unit, d, D.Sample(false, t), Hold(false, g - 1, t + p, p));
    MulStep(g - 1, p);
    Closing(unit, d1, g - 1, t + p, p);
  }

  /** After a symbol, a silence seen by `g` ticks spanning less than ten
      units closes the character exactly when it spans at least three
      units, and never closes a word: a word gap is timed from the tick that
      closed the character. */
  lemma SilenceAfterSymbol(unit: D.Unit, d: D.Decoder, g: nat, t: int, p: Poll)
    requires d.state == D.Dit || d.state == D.Dah
    requires g >= 1 && (g - 1) * p < 10 * unit
    ensures D.Run(unit, d, Hold(false, g, t, p)).state == D.Char <==> (g - 1) * p >= 3 * unit
    ensures D.Run(unit, d, Hold(false, g, t, p)).state != D.Word
  {
    if (g - 1) * p >= 3 * unit {
      LetterGap(unit, d, g, t, p);
    } else {
      SpaceGap(unit, d, g, t, p);
    }
  }

  /** Silence in `Char` closes the word exactly when some tick comes at
      least seven units after the character closed; the word marker is then
      appended once. */
  lemma {:induction false} WordGap(unit: D.Unit, d: D.Decoder, w: nat, t: int, p: Poll)
    requires d.state == D.Char
    requires w >= 1
    ensures var r := D.Run(unit, d, Hold(false, w, t, p));
      && (r.state == D.Word <==> t + (w - 1) * p >= d.lastChange + 7 * unit)
      && (r.state == D.Word ==> r.charBuffer == d.charBuffer + " / ")
      && (r.state != D.Word ==> r == d)
    decreases w
  {
    RunCons(unit, d, D.Sample(false, t), Hold(false, w - 1, t + p, p));
    MulStep(w - 1, p);
    MulNonneg(w - 1, p);
    D.UpInChar(unit, d, t);
    if t - d.lastChange >= 7 * unit {
      var d1 := D.Step(unit, d, false, t);
      forall now ensures D.Step(unit, d1, false, now) == d1 {
        D.UpIdle(unit, d1, now);
      }
      HoldQuiet(unit, d1, false, w - 1, t + p, p);
    } else if w > 1 {
      WordGap(unit, d, w - 1, t + p, p);
    }
  }

  // ---------------------------------------------------------------------
  // Characters and texts keyed by a steady hand.
  // ---------------------------------------------------------------------

  /** The time `n` ticks after `t`. */
  function After(t: int, n: int, p: Poll): int {
    t + n * p
  }

  lemma AfterAdd(t: int, a: int, b: int, p: Poll)
    ensures After(After(t, a, p), b, p) == After(t, a + b, p)
  {
    MulAdd(a, b, p);
  }

  /** A bound on the tick that closed a run of `b` ticks starting `a`
      ticks after `t` is one on the last of the `n == a + b` ticks from
      `t`. */
  lemma TickBound(last: int, t: int, a: int, b: int, n: int, p: Poll)
    requires last + p <= After(After(t, a, p), b, p)
    requires n == a + b
    ensures last + p <= After(t, n, p)
  {
    AfterAdd(t, a, b, p);
  }

  /** A steady hand's timing, in ticks of the loop: how many ticks see the
      key down for a dit and for a dah, and how many see it up between the
      symbols of a character and after a character. */
  datatype Fist = Fist(dit: nat, dah: nat, space: nat, letter: nat)

  /** The timing the decoder reads correctly at poll period `p`.
      - A dit is seen by at least two ticks (the first tick after a gap
        only leaves the gap) and ends before any tick sees three units.
      - A dah spans at least three units even without its first two ticks,
        so it is a dah also as the first symbol of a character.
      - A symbol gap ends before any tick sees three units.
      - A character gap reaches three units but stays under ten, so it
        closes the character and no word. */
  predicate Readable(unit: D.Unit, p: Poll, f: Fist) {
    && f.dit >= 2 && (f.dit - 1) * p < 3 * unit
    && (f.dah - 2) * p >= 3 * unit
    && f.space >= 1 && (f.space - 1) * p < 3 * unit
    && 3 * unit <= (f.letter - 1) * p < 10 * unit
  }

  /** The ticks a symbol is held for. */
  function Held(c: char, f: Fist): nat {
    if c == '.' then f.dit else f.dah
  }

  /** The silence after the first symbol of `code`: a symbol gap, or a
      character gap after the last symbol. */
  function GapAfterFirst(code: string, f: Fist): nat {
    if |code| <= 1 then f.letter else f.space
  }

  /** The ticks of a code keyed from `t`: each symbol held, then the
      silence after it. */
  function CodePolls(code: string, f: Fist, t: int, p: Poll): seq<D.Sample>
    decreases |code|
  {
    if |code| == 0 then []
    else FirstPolls(code, f, t, p) + CodePolls(code[1..], f, RestStart(code, f, t, p), p)
  }

  /** The ticks of the first symbol of a code and of the silence after
      it. */
  function FirstPolls(code: string, f: Fist, t: int, p: Poll): seq<D.Sample>
    requires |code| >= 1
  {
    var h := Held(code[0], f);
    Hold(true, h, t, p) + Hold(false, GapAfterFirst(code, f), After(t, h, p), p)
  }

  /** When the rest of a code starts. */
  function RestStart(code: string, f: Fist, t: int, p: Poll): int
    requires |code| >= 1
  {
    After(t, Held(code[0], f) + GapAfterFirst(code, f), p)
  }

  /** How many ticks a code takes. */
  function CodeTicks(code: string, f: Fist): nat
    decreases |code|
  {
    if |code| == 0 then 0 else Held(code[0], f) + GapAfterFirst(code, f) + CodeTicks(code[1..], f)
  }

  /** `n` down ticks that read as the symbol `c` when the dit starts on the
      first of them. */
  predicate ReadsAs(unit: D.Unit, p: Poll, n: int, c: char) {
    && n >= 1
    && (c == '.' || c == '-')
    && (c == '-' <==> (n - 1) * p >= 3 * unit)
  }

  /** A symbol followed by a symbol gap leaves it locked and pending. */
  lemma SymbolThenSpace(unit: D.Unit, p: Poll, d: D.Decoder, c: char, n: nat, g: nat, t: int, r: D.Decoder)
    requires Between(d)
    requires ReadsAs(unit, p, n - Wait(d), c)
    requires g >= 1 && (g - 1) * p < 3 * unit
    requires r == D.Run(unit, d, Hold(true, n, t, p) + Hold(false, g, After(t, n, p), p))
    ensures r.state.Locked()
    ensures Flushed(r) == Flushed(d) + [c]
    ensures r.charBuffer == d.charBuffer
  {
    var down := Hold(true, n, t, p);
    D.RunAppend(unit, d, down, Hold(false, g, After(t, n, p), p));
    SymbolDown(unit, d, n, t, p);
    SpaceGap(unit, D.Run(unit, d, down), g, After(t, n, p), p);
  }

  /** The last silence tick of a run lies one poll before its end. */
  lemma LastTick(t: int, n: int, g: int, p: Poll)
    ensures After(t, n, p) + (g - 1) * p + p == After(t, n + g, p)
  {
    MulStep(g, p);
    MulAdd(n, g, p);
  }

  /** A symbol followed by a character gap closes the character, by a tick
      of the gap: its group is looked up. */
  lemma SymbolThenLetter(unit: D.Unit, p: Poll, d: D.Decoder, c: char, n: nat, g: nat, t: int, r: D.Decoder)
    requires Between(d)
    requires ReadsAs(unit, p, n - Wait(d), c)
    requires 3 * unit <= (g - 1) * p < 10 * unit
    requires r == D.Run(unit, d, Hold(true, n, t, p) + Hold(false, g, After(t, n, p), p))
    ensures r.state == D.Char
    ensures r.morseBuffer == Flushed(d) + [c]
    ensures r.charBuffer == d.charBuffer + MorseTable.Lookup(Text.LastGroup(Flushed(d) + [c]))
    ensures r.lastChange + p <= After(t, n + g, p)
  {
    var down := Hold(true, n, t, p);
    D.RunAppend(unit, d, down, Hold(false, g, After(t, n, p), p));
    SymbolDown(unit, d, n, t, p);
    LetterGap(unit, D.Run(unit, d, down), g, After(t, n, p), p);
    LastTick(t, n, g, p);
  }

  /** A readable hand's symbols read as themselves, whether or not a tick
      of the hold is spent leaving a gap. */
  lemma HeldReads(unit: D.Unit, p: Poll, f: Fist, c: char, wait: nat)
    requires Readable(unit, p, f)
    requires c == '.' || c == '-'
    requires wait <= 1
    ensures ReadsAs(unit, p, Held(c, f) - wait, c)
  {
    MulStep(f.dit - 1, p);
    MulStep(f.dah - 1, p);
    MulNonneg(f.dah - 2, p);
  }

  /** The ticks of a code run as those of its first symbol and then those
      of the rest. */
  lemma CodeRunSplit(unit: D.Unit, p: Poll, f: Fist, d: D.Decoder, code: string, t: int, d1: D.Decoder)
    requires |code| >= 1
    requires d1 == D.Run(unit, d, FirstPolls(code, f, t, p))
    ensures D.Run(unit, d, CodePolls(code, f, t, p)) == D.Run(unit, d1, CodePolls(code[1..], f, RestStart(code, f, t, p), p))
  {
    D.RunAppend(unit, d, FirstPolls(code, f, t, p), CodePolls(code[1..], f, RestStart(code, f, t, p), p));
  }

  /** A one-symbol code whose hold reads as its symbol and whose silence
      is a character gap closes the character. */
  lemma KeyLast(unit: D.Unit, p: Poll, f: Fist, d: D.Decoder, code: string, t: int, r: D.Decoder)
    requires Between(d)
    requires |code| == 1 && ReadsAs(unit, p, Held(code[0], f) - Wait(d), code[0])
    requires 3 * unit <= (f.letter - 1) * p < 10 * unit
    requires r == D.Run(unit, d, FirstPolls(code, f, t, p))
    ensures r.state == D.Char
    ensures r.morseBuffer == Flushed(d) + code
    ensures r.charBuffer == d.charBuffer + MorseTable.Lookup(Text.LastGroup(Flushed(d) + code))
    ensures r.lastChange + p <= After(t, CodeTicks(code, f), p)
  {
    var c := code[0];
    assert code == [c];
    SymbolThenLetter(unit, p, d, c, Held(c, f), GapAfterFirst(code, f), t, r);
    assert CodeTicks(code[1..], f) == 0;
    TickBound(r.lastChange, t, Held(c, f) + GapAfterFirst(code, f), 0, CodeTicks(code, f), p);
  }

  /** A symbol of a code with more to come, whose hold reads as the symbol
      and whose silence is a symbol gap, leaves it locked and pending. */
  lemma KeyInner(unit: D.Unit, p: Poll, f: Fist, d: D.Decoder, code: string, t: int, d1: D.Decoder)
    requires Between(d)
    requires |code| > 1 && ReadsAs(unit, p, Held(code[0], f) - Wait(d), code[0])
    requires f.space >= 1 && (f.space - 1) * p < 3 * unit
    requires d1 == D.Run(unit, d, FirstPolls(code, f, t, p))
    ensures Between(d1) && Wait(d1) == 0
    ensures Flushed(d1) == Flushed(d) + [code[0]]
    ensures d1.charBuffer == d.charBuffer
  {
    SymbolThenSpace(unit, p, d, code[0], Held(code[0], f), GapAfterFirst(code, f), t, d1);
  }

  /** The ticks of a code keyed from a state between symbols add exactly
      the code to the Morse buffer and close the character with the lookup
      of the last group, by a tick before the code's last. */
  lemma {:induction false} KeyCode(unit: D.Unit, p: Poll, f: Fist, d: D.Decoder, code: string, t: int, r: D.Decoder)
    requires Readable(unit, p, f)
    requires Between(d)
    requires |code| >= 1 && MorseTable.IsCode(code)
    requires r == D.Run(unit, d, CodePolls(code, f, t, p))
    ensures r.state == D.Char
    ensures r.morseBuffer == Flushed(d) + code
    ensures r.charBuffer == d.charBuffer + MorseTable.Lookup(Text.LastGroup(Flushed(d) + code))
    ensures r.lastChange + p <= After(t, CodeTicks(code, f), p)
    decreases |code|
  {
    var d1 := D.Run(unit, d, FirstPolls(code, f, t, p));
    var t1 := RestStart(code, f, t, p);
    CodeRunSplit(unit, p, f, d, code, t, d1);
    HeldReads(unit, p, f, code[0], Wait(d));
    if |code| == 1 {
      assert CodePolls(code[1..], f, t1, p) == [];
      KeyLast(unit, p, f, d, code, t, d1);
    } else {
      KeyInner(unit, p, f, d, code, t, d1);
      assert MorseTable.IsCode(code[1..]) by {
        forall k | 0 <= k < |code[1..]| ensures code[1..][k] == '.' || code[1..][k] == '-' {
          assert code[1..][k] == code[k + 1];
        }
      }
      KeyCode(unit, p, f, d1, code[1..], t1, r);
      Text.AppendFirst(Flushed(d), code);
      TickBound(r.lastChange, t, Held(code[0], f) + GapAfterFirst(code, f), CodeTicks(code[1..], f), CodeTicks(code, f), p);
    }
  }

  /** Keying a character from a gap (`Word` or `Char`) into the decoder
      (reaching `r`) appends to the decoded text the lookup of exactly its
      code and ends in `Char`, the character closed by a tick of its own
      silence. */
  lemma KeyChar(unit: D.Unit, p: Poll, f: Fist, d: D.Decoder, code: string, t: int, r: D.Decoder)
    requires Readable(unit, p, f)
    requires D.Inv(d)
    requires d.state == D.Word || d.state == D.Char
    requires |code| >= 1 && MorseTable.IsCode(code)
    requires r == D.Run(unit, d, CodePolls(code, f, t, p))
    ensures D.Inv(r)
    ensures r.state == D.Char
    ensures r.charBuffer == d.charBuffer + MorseTable.Lookup(code)
    ensures r.lastChange + p <= After(t, CodeTicks(code, f), p)
  {
    D.RunInv(unit, d, CodePolls(code, f, t, p));
    KeyCode(unit, p, f, d, code, t, r);
    assert D.AtGroupStart(Flushed(d));
    assert ' ' !in code;
    Text.LastGroupAfterSpace(Flushed(d), code);
  }

  // ---------------------------------------------------------------------
  // Texts.
  // ---------------------------------------------------------------------

  /** The ticks of a sequence of codes keyed back to back. */
  function TextPolls(codes: seq<string>, f: Fist, t: int, p: Poll): seq<D.Sample>
    decreases |codes|
  {
    if |codes| == 0 then []
    else CodePolls(codes[0], f, t, p) + TextPolls(codes[1..], f, After(t, CodeTicks(codes[0], f), p), p)
  }

  /** How many ticks a sequence of codes takes. */
  function TextTicks(codes: seq<string>, f: Fist): nat
    decreases |codes|
  {
    if |codes| == 0 then 0 else CodeTicks(codes[0], f) + TextTicks(codes[1..], f)
  }

  /** The concatenated lookups of a sequence of codes. */
  function DecodeAll(codes: seq<string>): string
    decreases |codes|
  {
    if |codes| == 0 then "" else MorseTable.Lookup(codes[0]) + DecodeAll(codes[1..])
  }

  predicate AllCodes(codes: seq<string>) {
    forall k :: 0 <= k < |codes| ==> |codes[k]| >= 1 && MorseTable.IsCode(codes[k])
  }

  lemma AllCodesTail(codes: seq<string>)
    requires |codes| >= 1 && AllCodes(codes)
    ensures AllCodes(codes[1..])
  {
    forall k | 0 <= k < |codes[1..]| ensures |codes[1..][k]| >= 1 && MorseTable.IsCode(codes[1..][k]) {
      assert codes[1..][k] == codes[k + 1];
    }
  }

  lemma AllCodesCons(codes: seq<string>)
    requires |codes| >= 1 && |codes[0]| >= 1 && MorseTable.IsCode(codes[0])
    requires AllCodes(codes[1..])
    ensures AllCodes(codes)
  {
    forall k | 0 < k < |codes| ensures |codes[k]| >= 1 && MorseTable.IsCode(codes[k]) {
      assert codes[k] == codes[1..][k - 1];
    }
  }

  lemma TextRunSplit(unit: D.Unit, p: Poll, f: Fist, d: D.Decoder, codes: seq<string>, t: int, d1: D.Decoder)
    requires |codes| >= 1
    requires d1 == D.Run(unit, d, CodePolls(codes[0], f, t, p))
    ensures D.Run(unit, d, TextPolls(codes, f, t, p)) == D.Run(unit, d1, TextPolls(codes[1..], f, After(t, CodeTicks(codes[0], f), p), p))
  {
    D.RunAppend(unit, d, CodePolls(codes[0], f, t, p), TextPolls(codes[1..], f, After(t, CodeTicks(codes[0], f), p), p));
  }

  /** Keying any sequence of codes from a gap (reaching `r`) appends the
      lookups of the codes, in order, and ends in `Char` unless there was
      nothing to key. */
  lemma {:induction false} KeyCodes(unit: D.Unit, p: Poll, f: Fist, d: D.Decoder, codes: seq<string>, t: int, r: D.Decoder)
    requires Readable(unit, p, f)
    requires D.Inv(d)
    requires d.state == D.Word || d.state == D.Char
    requires AllCodes(codes)
    requires r == D.Run(unit, d, TextPolls(codes, f, t, p))
    ensures D.Inv(r)
    ensures r.charBuffer == d.charBuffer + DecodeAll(codes)
    ensures |codes| == 0 ==> r == d
    ensures |codes| > 0 ==> r.state == D.Char && r.lastChange + p <= After(t, TextTicks(codes, f), p)
    decreases |codes|
  {
    if |codes| == 0 {
      assert TextPolls(codes, f, t, p) == [];
      assert d.charBuffer + "" == d.charBuffer;
    } else {
      var t1 := After(t, CodeTicks(codes[0], f), p);
      var d1 := D.Run(unit, d, CodePolls(codes[0], f, t, p));
      TextRunSplit(unit, p, f, d, codes, t, d1);
      KeyChar(unit, p, f, d, codes[0], t, d1);
      AllCodesTail(codes);
      KeyCodes(unit, p, f, d1, codes[1..], t1, r);
      TextStep(p, f, d, codes, t, d1, r);
    }
  }

  /** The first character of a text, then the rest: the decoded texts
      concatenate and the closing ticks line up. */
  lemma TextStep(p: Poll, f: Fist, d: D.Decoder, codes: seq<string>, t: int, d1: D.Decoder, r: D.Decoder)
    requires |codes| >= 1
    requires d1.state == D.Char
    requires d1.charBuffer == d.charBuffer + MorseTable.Lookup(codes[0])
    requires d1.lastChange + p <= After(t, CodeTicks(codes[0], f), p)
    requires r.charBuffer == d1.charBuffer + DecodeAll(codes[1..])
    requires |codes| == 1 ==> r == d1
    requires |codes| > 1 ==> r.state == D.Char && r.lastChange + p <= After(After(t, CodeTicks(codes[0], f), p), TextTicks(codes[1..], f), p)
    ensures r.charBuffer == d.charBuffer + DecodeAll(codes)
    ensures r.state == D.Char && r.lastChange + p <= After(t, TextTicks(codes, f), p)
  {
    Text.Associative(d.charBuffer, MorseTable.Lookup(codes[0]), DecodeAll(codes[1..]));
    if |codes| == 1 {
      assert TextTicks(codes, f) == CodeTicks(codes[0], f);
    } else {
      TickBound(r.lastChange, t, CodeTicks(codes[0], f), TextTicks(codes[1..], f), TextTicks(codes, f), p);
    }
  }

  /** A text of characters the table knows. */
  predicate InTable(text: string) {
    forall k :: 0 <= k < |text| ==> [text[k]] in MorseTable.MorseCodeMap()
  }

  /** The Morse codes of a text of table characters. */
  function Encode(text: string): (codes: seq<string>)
    requires InTable(text)
    ensures |codes| == |text|
    decreases |text|
  {
    if |text| == 0 then []
    else [MorseTable.MorseCodeMap()[[text[0]]]] + Encode(text[1..])
  }

  /** The code of any table character is a non-empty dit/dah string, and it
      looks up to that character. */
  lemma CodeOfChar(c: char)
    requires [c] in MorseTable.MorseCodeMap()
    ensures var code := MorseTable.MorseCodeMap()[[c]];
      |code| >= 1 && MorseTable.IsCode(code) && MorseTable.Lookup(code) == [c]
  {
    MorseTable.EntriesAgreeWithTree();
    MorseTable.LookupKnown();
    var i :| 0 <= i < |MorseTable.Entries| && MorseTable.Entries[i].0 == [c];
    assert MorseTable.AgreesWithTree(MorseTable.Entries[i]);
  }

  /** Encoding a text and decoding the codes gives back the text. */
  lemma {:induction false} DecodeEncode(text: string)
    requires InTable(text)
    ensures AllCodes(Encode(text))
    ensures DecodeAll(Encode(text)) == text
    decreases |text|
  {
    if |text| > 0 {
      var codes := Encode(text);
      EncodeCons(text);
      DecodeEncode(text[1..]);
      AllCodesCons(codes);
      assert text == [text[0]] + text[1..];
    }
  }

  /** The first code of an encoded text is a code of its first character,
      and the rest encode the rest. */
  lemma EncodeCons(text: string)
    requires InTable(text) && |text| > 0
    ensures InTable(text[1..])
    ensures Encode(text)[1..] == Encode(text[1..])
    ensures |Encode(text)[0]| >= 1 && MorseTable.IsCode(Encode(text)[0])
    ensures MorseTable.Lookup(Encode(text)[0]) == [text[0]]
  {
    assert forall k :: 0 <= k < |text[1..]| ==> text[1..][k] == text[k + 1];
    CodeOfChar(text[0]);
  }

  /** A silence of at least seven units, starting a poll or more after
      the tick that closed the last character, closes the word. */
  lemma WordAfterText(unit: D.Unit, p: Poll, keyed: D.Decoder, text: string, start: int, w: nat)
    requires keyed.state == D.Char && keyed.charBuffer == text
    requires keyed.lastChange + p <= start
    requires w >= 1 && w * p >= 7 * unit
    ensures D.Run(unit, keyed, Hold(false, w, start, p)).charBuffer == text + " / "
  {
    MulStep(w, p);
    WordGap(unit, keyed, w, start, p);
  }

  /** The round trip through timing: a readable hand keying a text of table
      characters into a fresh decoder (reaching `keyed`) decodes to exactly
      the text; a following silence of at least seven units then appends
      the word marker. */
  lemma KeyText(unit: D.Unit, p: Poll, f: Fist, t0: int, text: string, w: nat, keyed: D.Decoder)
    requires Readable(unit, p, f)
    requires |text| >= 1
    requires InTable(text)
    requires w >= 1 && w * p >= 7 * unit
    requires keyed == D.Run(unit, D.Init(t0), TextPolls(Encode(text), f, t0, p))
    ensures keyed.state == D.Char && keyed.charBuffer == text
    ensures D.Run(unit, keyed, Hold(false, w, After(t0, TextTicks(Encode(text), f), p), p)).charBuffer == text + " / "
  {
    KeyEncoded(unit, p, f, t0, text, keyed);
    WordAfterText(unit, p, keyed, text, After(t0, TextTicks(Encode(text), f), p), w);
  }

  /** Keying the codes of a text into a fresh decoder decodes the text and
      closes it a poll or more before the text's ticks end. */
  lemma KeyEncoded(unit: D.Unit, p: Poll, f: Fist, t0: int, text: string, keyed: D.Decoder)
    requires Readable(unit, p, f)
    requires |text| >= 1
    requires InTable(text)
    requires keyed == D.Run(unit, D.Init(t0), TextPolls(Encode(text), f, t0, p))
    ensures keyed.state == D.Char && keyed.charBuffer == text
    ensures keyed.lastChange + p <= After(t0, TextTicks(Encode(text), f), p)
  {
    DecodeEncode(text);
    KeyFresh(unit, p, f, t0, Encode(text), text, keyed);
  }

  lemma KeyFresh(unit: D.Unit, p: Poll, f: Fist, t0: int, codes: seq<string>, text: string, keyed: D.Decoder)
    requires Readable(unit, p, f)
    requires |codes| >= 1 && AllCodes(codes) && DecodeAll(codes) == text
    requires keyed == D.Run(unit, D.Init(t0), TextPolls(codes, f, t0, p))
    ensures keyed.state == D.Char && keyed.charBuffer == text
    ensures keyed.lastChange + p <= After(t0, TextTicks(codes, f), p)
  {
    var d := D.Init(t0);
    assert D.Inv(d) && d.state == D.Word && d.charBuffer == "";
    KeyCodes(unit, p, f, d, codes, t0, keyed);
    assert "" + text == text;
  }

  /** A dit/dah string that is no code of the table decodes, through timing,
      to nothing at all: the decoded text is unchanged and no fault occurs. */
  lemma KeyUnknown(unit: D.Unit, p: Poll, f: Fist, d: D.Decoder, code: string, t: int)
    requires Readable(unit, p, f)
    requires D.Inv(d)
    requires d.state == D.Word || d.state == D.Char
    requires |code| >= 1 && MorseTable.IsCode(code)
    requires forall i :: 0 <= i < |MorseTable.Entries| ==> MorseTable.Entries[i].1 != code
    ensures D.Run(unit, d, CodePolls(code, f, t, p)).charBuffer == d.charBuffer
  {
    KeyChar(unit, p, f, d, code, t, D.Run(unit, d, CodePolls(code, f, t, p)));
    MorseTable.LookupUnknown(code);
    assert d.charBuffer + "" == d.charBuffer;
  }

  // ---------------------------------------------------------------------
  // Standard timing at the loop's poll period.
  // ---------------------------------------------------------------------

  /** At twenty words a minute (a 60 ms unit) and the loop's 10 ms poll, a
      hand whose dahs last 200 ms and whose character gaps are seen by 19
      ticks reads correctly; the standard three-unit dah and character gap
      (18 ticks) do not. */
  lemma TwentyWpm()
    ensures Readable(60, LoopPoll, Fist(6, 20, 6, 19))
    ensures !Readable(60, LoopPoll, Fist(6, 18, 6, 18))
  {
  }

  lemma LookupEI()
    ensures MorseTable.Lookup(".") == "E" && MorseTable.Lookup("..") == "I"
  {
    EntriesEI();
    MorseTable.LookupKnown();
    assert MorseTable.Lookup(MorseTable.Entries[4].1) == MorseTable.Entries[4].0;
    assert MorseTable.Lookup(MorseTable.Entries[8].1) == MorseTable.Entries[8].0;
  }

  lemma EntriesEI()
    ensures MorseTable.Entries[4] == ("E", ".") && MorseTable.Entries[8] == ("I", "..")
  {
  }

  /** A standard 180 ms dah keyed from a gap at the loop's poll reads as a
      dit: the character decodes as "E", not "T". */
  lemma StandardDahReadAsDit(t0: int)
    ensures D.Run(60, D.Init(t0), Hold(true, 18, t0, LoopPoll) + Hold(false, 19, t0 + 180, LoopPoll)).charBuffer == "E"
  {
    var f := Fist(18, 20, 6, 19);
    var s := Hold(true, 18, t0, LoopPoll) + Hold(false, 19, t0 + 180, LoopPoll);
    assert CodePolls(".", f, t0, LoopPoll) == s by {
      assert "."[1..] == [];
      assert CodePolls(".", f, t0, LoopPoll) == FirstPolls(".", f, t0, LoopPoll) + CodePolls("."[1..], f, RestStart(".", f, t0, LoopPoll), LoopPoll);
    }
    KeyChar(60, LoopPoll, f, D.Init(t0), ".", t0, D.Run(60, D.Init(t0), s));
    LookupEI();
  }

  /** Two dits separated by a standard 180 ms character gap at the loop's
      poll run together: "EE" keyed this way decodes as "I". */
  lemma StandardGapMerges(t0: int)
    ensures D.Run(60, D.Init(t0), Hold(true, 6, t0, LoopPoll) + Hold(false, 18, t0 + 60, LoopPoll) + Hold(true, 6, t0 + 240, LoopPoll) + Hold(false, 19, t0 + 300, LoopPoll)).charBuffer == "I"
  {
    var f := Fist(6, 20, 18, 19);
    TwoDits(f, t0);
    KeyChar(60, LoopPoll, f, D.Init(t0), "..", t0, D.Run(60, D.Init(t0), CodePolls("..", f, t0, LoopPoll)));
    LookupEI();
  }

  /** The ticks of ".." keyed by the hand of `StandardGapMerges`. */
  lemma TwoDits(f: Fist, t0: int)
    requires f == Fist(6, 20, 18, 19)
    ensures CodePolls("..", f, t0, LoopPoll) == Hold(true, 6, t0, LoopPoll) + Hold(false, 18, t0 + 60, LoopPoll) + Hold(true, 6, t0 + 240, LoopPoll) + Hold(false, 19, t0 + 300, LoopPoll)
  {
    var first := Hold(true, 6, t0, LoopPoll) + Hold(false, 18, t0 + 60, LoopPoll);
    var a := Hold(true, 6, t0 + 240, LoopPoll);
    var b := Hold(false, 19, t0 + 300, LoopPoll);
    assert ".."[1..] == ".";
    assert "."[1..] == [];
    assert CodePolls(".", f, t0 + 240, LoopPoll) == a + b;
    assert CodePolls("..", f, t0, LoopPoll) == first + (a + b);
    assert first + (a + b) == first + a + b;
  }
}
