# morsecomm decoder and tone engine, modelled in Dafny

morsecomm is a desktop Morse-code keyer. The space bar is the key. While it is held down, a local tone plays. A polling loop ticks, sleeps 10 ms, and ticks again. On each tick it classifies how long the key has been held or silent:

- a dit lasts one unit; a dah lasts three;
- a silence of three units after the last symbol ends a character;
- a silence of seven units after the character closed, so ten units after the last symbol, ends a word.

The loop writes the dits, dahs and gaps it sees into a Morse buffer. It decodes each closed character with the inverse of a 36-entry Morse table and appends it to the decoded text. Key events and decoded characters are offered to a relay server. Key events arriving from peers drive a second tone.

This project models that core as pure functions over immutable states and proves properties of them. The modules are:

- `MorseTable` (`morse_table.dfy`) holds the table exactly as listed.
  - It builds the map the way Kotlin's `mapOf`/`associate` do: a left-to-right fold in which a later pair wins.
  - It builds the inverted map the same way.
  - It proves that no key and no code repeats, by checking every code against an independent dichotomic Morse tree.
  - So the inversion is a true inverse in both directions.
- `Text` (`text.dfy`) holds Kotlin's `split` on a one-character separator, its inverse `joinToString`, and `split(" ").lastOrNull()`.
- `Decoder` (`decoder.dfy`) has:
  - the timing constants;
  - the seven-phase `ProcessingState` with `value`, `next()` and `locked()`;
  - the decoder record and `addChar`;
  - one tick of the loop as `Step(unit, d, keyDown, now)`, with one lemma per row of its decision table;
  - an invariant of every reachable state, and append-only buffers.
- `Keying` (`keying.dfy`) feeds the decoder the samples of a real polling loop: ticks a fixed poll period `p` apart, a held key seen by a run of consecutive ticks.
  - It states, in tick counts, exactly when a hold reads as a dit or a dah, and a silence as a symbol, character or word gap.
  - It proves the round trip for a steady hand whose timing is readable at that poll: keying a text from start-up and then a word gap decodes to the text followed by `" / "`.
  - It also shows that the standard three-unit dah and character gap are misread at the loop's 10 ms poll.
- `Tone` (`tone.dfy`) models the tone generator's bookkeeping:
  - the start guard that allows at most one active job;
  - optional arguments that keep their old values when omitted;
  - `stop`;
  - the phase index that wraps at 44100;
  - the packing of each sample into two little-endian bytes.
- `KeyFlag` (`key_flag.dfy`) models the key handlers `down()` and `up()`: the key flag, the local tone they drive, and the key-state messages they send. `down()`'s key-on message is sent by a launched coroutine, so it is pending until a dispatcher event runs it. The module also models the inbound tone that peers' key messages drive.

Five behaviours of the loop are easy to misread. The model states them as the code has them:

- **Locking a dit or dah.** The first key-up tick locks the symbol whatever the elapsed time (Main.kt:208-222). This is what `Decoder.UpUnlocked` states.
- **Key-down after a gap.** The first key-down tick after a character or word gap moves the pending gap glyph into the Morse buffer, enters `NOTHING` and does not clear the glyph. Only the next tick starts the dit, and its timer starts there, one poll after the press (Main.kt:163-178). This is what `Decoder.DownAfterGap` states. `Keying.SymbolDown` derives the consequence: the first symbol of a character needs one tick more than a later one to become a dah.
- **Thresholds equal to the nominal lengths.** The dah threshold is three units, inclusive, and so is the character threshold (Main.kt:27, 181, 208). Ticks 10 ms apart see a key held exactly three units over less than three units, so the loop reads such a dah as a dit and such a gap as a symbol gap. `Keying.TwentyWpm`, `Keying.StandardDahReadAsDit` and `Keying.StandardGapMerges` state this.
- **A word gap is timed from the closed character.** The tick that closes a character resets the timestamp (Main.kt:214). Key-up in `CHAR` compares against that timestamp (Main.kt:226). So a word closes only after seven units from the closing tick, at least ten units after the release of the last symbol. A standard seven-unit word gap closes no word: the next press just starts a new character. `Keying.SilenceAfterSymbol` and `Keying.WordGap` state this.
- **A press seen by one tick after a gap is lost.** That tick only leaves the gap for `NOTHING` (Main.kt:163-171), and key-up in `NOTHING` does nothing (Main.kt:234). No symbol is started. `Keying.ShortPressLost` states this.

## Model

| member | source | states |
|---|---|---|
| `MorseTable.Associate` | src/main/kotlin/Main.kt:41 | The map built from pairs has exactly the pairs' first components as keys. |
| `MorseTable.AssociateDistinct` | src/main/kotlin/Main.kt:30-39 | When no key repeats, no pair is overwritten: every listed pair is in the map. |
| `MorseTable.MorseCodeMap` | src/main/kotlin/Main.kt:30-39 | The character-to-code map holds every listed pair, and its keys are exactly the listed characters. |
| `MorseTable.ReversedMorseCodeMap` | src/main/kotlin/Main.kt:41 | The code-to-character map knows exactly the codes of the table. |
| `MorseTable.EntriesAgreeWithTree` | src/main/kotlin/Main.kt:30-39 | Every entry has a one-character key and a non-empty dit/dah code. Walking that code down the dichotomic Morse tree reaches the key. |
| `MorseTable.KeysDistinct` | src/main/kotlin/Main.kt:30-39 | No two entries of the table share a character. |
| `MorseTable.CodesDistinct` | src/main/kotlin/Main.kt:30-39 | No two entries of the table share a code, so inverting the map loses no entry. |
| `MorseTable.AssociateInverse` | src/main/kotlin/Main.kt:41 | With distinct keys and distinct values, the map of the swapped pairs inverts the map of the pairs, in both directions. |
| `MorseTable.ReversedIsInverse` | src/main/kotlin/Main.kt:30-41 | The code-to-character map sends each character's code back to that character. Every code it knows belongs to the character it gives. |
| `MorseTable.Lookup` | src/main/kotlin/Main.kt:216 | `getOrDefault(code, "")` gives either the empty default or one table character whose code is the looked-up string. |
| `MorseTable.LookupKnown` | src/main/kotlin/Main.kt:216 | Looking up the code of any table character yields that character. |
| `MorseTable.LookupUnknown` | src/main/kotlin/Main.kt:216 | The lookup gives the empty default exactly when the string is no code of the table. |
| `Text.Split` | src/main/kotlin/Main.kt:216 | A split always has at least one piece, so `lastOrNull` is never null. No piece contains the separator. |
| `Text.JoinSplit` | src/main/kotlin/Main.kt:216 | Joining the pieces of a split with the separator gives back the string: nothing is lost. |
| `Text.SplitJoin` | src/main/kotlin/Main.kt:216 | Splitting separator-free pieces that were joined by the separator gives back the pieces. |
| `Text.SplitExtend` | src/main/kotlin/Main.kt:216 | Appending separator-free text extends only the last piece of the split. |
| `Text.LastGroup` | src/main/kotlin/Main.kt:216 | The last piece of the split contains no space: it is one group of dits and dahs. |
| `Text.LastGroupAfterSpace` | src/main/kotlin/Main.kt:210-216 | After a separator, the last group is exactly the text appended since. |
| `Decoder.Thresholds` | src/main/kotlin/Main.kt:25-28 | At 20 WPM a dit is exactly 60 ms, so the dah/character threshold is 180 ms and the word threshold is 420 ms. For any unit the thresholds keep the ratio 1 : 3 : 7. |
| `Decoder.ProcessingState.Value` | src/main/kotlin/Main.kt:81-88 | Only `NOTHING` carries no text. Each symbol phase carries one dit or dah. Each gap phase carries a separator starting with a space. |
| `Decoder.ProcessingState.Next` | src/main/kotlin/Main.kt:90-94 | Releasing the key locks an unlocked dit or dah and keeps its glyph. Every other phase stays as it is. |
| `Decoder.ProcessingState.Locked` | src/main/kotlin/Main.kt:96 | A phase is locked exactly when it holds one dit or dah whose key is no longer down. |
| `Decoder.Init` | src/main/kotlin/Main.kt:142-157 | The start state (word phase, empty buffers) satisfies the decoder invariant, and key-up ticks leave it unchanged until the key first goes down. |
| `Decoder.AddChar` | src/main/kotlin/Main.kt:241-243 | The decoded text gains the given piece at its end and the pending glyph is replaced. The phase, the timestamp and the Morse buffer stay as they were. |
| `Decoder.DecodeLast` | src/main/kotlin/Main.kt:216 | The character decoded from the Morse buffer is either empty or the one table character whose code is the buffer's last group. |
| `Decoder.Down` | src/main/kotlin/Main.kt:161-201 | A key-down tick never shortens the Morse buffer and never touches the decoded text. |
| `Decoder.Up` | src/main/kotlin/Main.kt:202-235 | A key-up tick only appends to the Morse buffer and the decoded text. |
| `Decoder.Step` | src/main/kotlin/Main.kt:158-238 | Each tick leaves the Morse buffer and the decoded text as prefixes of their new values. |
| `Decoder.Run` | src/main/kotlin/Main.kt:158-238 | Over any samples, the Morse buffer and the decoded text are only ever appended to. |
| `Decoder.RunAppend` | src/main/kotlin/Main.kt:158-238 | Polling two runs of samples one after the other is polling their concatenation. |
| `Decoder.DownInDit` | src/main/kotlin/Main.kt:180-187 | A held dit becomes a dah if and only if it has been held at least three units (inclusive). Otherwise the tick changes nothing. |
| `Decoder.DownInNothing` | src/main/kotlin/Main.kt:173-178 | A key-down in the idle phase starts a dit with glyph "." at the current time. |
| `Decoder.DownInDah` | src/main/kotlin/Main.kt:200 | A dah stays a dah however long the key is held. |
| `Decoder.DownAfterGap` | src/main/kotlin/Main.kt:163-178 | Pressing the key after a character or word gap takes two ticks. The first moves the pending gap glyph into the Morse buffer, enters `Nothing` and keeps the glyph; the second starts a dit at its own time. |
| `Decoder.DownAfterLocked` | src/main/kotlin/Main.kt:189-198 | Pressing the key after a locked symbol moves that symbol's glyph into the Morse buffer and starts a new dit. |
| `Decoder.UpUnlocked` | src/main/kotlin/Main.kt:204-222 | Releasing the key during a dit or dah locks that symbol on the first key-up tick, whatever the elapsed time. Its glyph and both buffers are kept. |
| `Decoder.UpLocked` | src/main/kotlin/Main.kt:204-218 | A silence of at least three units after a locked symbol closes the character. The glyph is flushed, the phase becomes `Char`, and the lookup of the last group is appended to the decoded text. A shorter silence changes nothing. |
| `Decoder.UpInChar` | src/main/kotlin/Main.kt:225-232 | After a character, the word closes if and only if the silence reaches seven units. Then " / " is appended to the decoded text, the pending glyph becomes " ", and nothing else changes. |
| `Decoder.UpIdle` | src/main/kotlin/Main.kt:234 | A key-up tick in the idle or word phase changes nothing. |
| `Decoder.StepInv` | src/main/kotlin/Main.kt:158-238 | Every tick preserves the invariant. The pending glyph matches the phase. The Morse buffer holds only dits, dahs and spaces. While a symbol is keyed, the open group is a dit/dah string. |
| `Decoder.RunInv` | src/main/kotlin/Main.kt:158-238 | The polling loop preserves the invariant over any sequence of samples. |
| `Decoder.Reachable` | src/main/kotlin/Main.kt:155-238 | Every state the loop reaches from start-up satisfies the invariant. |
| `Decoder.StepEmits` | src/main/kotlin/Main.kt:208-231 | A tick appends to the decoded text one of three things: nothing, the word marker, or the lookup of the group it just closed. In a reachable state that group is a non-empty dit/dah string. |
| `Keying.HeldDit` | src/main/kotlin/Main.kt:180-187 | Ticks holding the key down in a dit turn it into a dah exactly when one of them comes three units or more after the dit began. The dah then stays; otherwise nothing changes. |
| `Keying.StartSymbol` | src/main/kotlin/Main.kt:173-198 | A hold of n ticks from the idle phase or a locked symbol is a dah exactly when (n-1) polls span three units. The previous glyph is flushed and the decoded text is kept. |
| `Keying.SymbolDown` | src/main/kotlin/Main.kt:163-198 | The same from any state between symbols, except that after a gap the first tick only leaves the gap: the hold is a dah exactly when (n-2) polls span three units. |
| `Keying.ShortPressLost` | src/main/kotlin/Main.kt:163-234 | A press seen by one tick after a character or word gap, then silence, leaves the decoder in `Nothing` with the gap glyph flushed: no symbol is keyed. |
| `Keying.SpaceGap` | src/main/kotlin/Main.kt:204-222 | A silence after a symbol whose ticks span under three units locks the symbol on its first tick and changes nothing after. |
| `Keying.Closing` | src/main/kotlin/Main.kt:204-232 | Silence after a locked symbol, whose last tick comes three to ten units after the lock, closes the character once and no word, by a tick of that silence. |
| `Keying.LetterGap` | src/main/kotlin/Main.kt:204-232 | A silence after a symbol whose ticks span three to ten units locks the symbol, flushes it, and appends the lookup of the character it ends. |
| `Keying.SilenceAfterSymbol` | src/main/kotlin/Main.kt:204-232 | A silence under ten units after a symbol closes the character if and only if its ticks span three units, and never closes a word. |
| `Keying.WordGap` | src/main/kotlin/Main.kt:225-232 | Silence after a character closes the word if and only if a tick comes seven units after the character closed. Then " / " is appended once; otherwise nothing changes. |
| `Keying.SymbolThenSpace` | src/main/kotlin/Main.kt:163-222 | A symbol whose hold reads as it, followed by a symbol gap, is locked and pending with the decoded text unchanged. |
| `Keying.SymbolThenLetter` | src/main/kotlin/Main.kt:163-232 | A symbol whose hold reads as it, followed by a character gap, closes the character: the lookup of its group is appended. |
| `Keying.KeyCode` | src/main/kotlin/Main.kt:163-232 | Keying a whole code with readable timing adds exactly that code to the Morse buffer and closes the character with the lookup of its group. |
| `Keying.KeyChar` | src/main/kotlin/Main.kt:163-232 | Keying one character from a gap with readable timing appends the lookup of exactly its code, ends in `Char` and keeps the invariant. |
| `Keying.KeyCodes` | src/main/kotlin/Main.kt:155-238 | Keying codes back to back with readable timing appends their lookups to the decoded text, in order. |
| `Keying.CodeOfChar` | src/main/kotlin/Main.kt:30-41 | The code of any table character is a non-empty dit/dah string that looks up to that character. |
| `Keying.DecodeEncode` | src/main/kotlin/Main.kt:30-41 | Encoding a text of table characters and looking each code up again gives back the text. |
| `Keying.KeyEncoded` | src/main/kotlin/Main.kt:155-238 | Keying a text of table characters into a fresh decoder with readable timing decodes to exactly that text. |
| `Keying.KeyText` | src/main/kotlin/Main.kt:155-238 | The same, followed by a silence of seven units or more, decodes to the text followed by " / ". |
| `Keying.KeyUnknown` | src/main/kotlin/Main.kt:216 | A dit/dah string that is no code of the table decodes to nothing. The decoded text is unchanged and no fault occurs. |
| `Keying.TwentyWpm` | src/main/kotlin/Main.kt:25-28 | At 20 WPM and a 10 ms poll, 200 ms dahs and 190 ms character gaps are readable. The standard 180 ms dah and gap are not. |
| `Keying.StandardDahReadAsDit` | src/main/kotlin/Main.kt:163-187 | A 180 ms dah keyed after a gap at a 10 ms poll decodes as "E", not "T". |
| `Keying.StandardGapMerges` | src/main/kotlin/Main.kt:189-218 | Two dits separated by a 180 ms gap at a 10 ms poll decode as "I", not "EE". |
| `Tone.Create` | src/main/kotlin/uitls/MorseTone.kt:8-9 | A tone as constructed has no job, so its first start without arguments begins a job at phase 0 at the constructed frequency and volume. |
| `Tone.Start` | src/main/kotlin/uitls/MorseTone.kt:25-31 | A start while a job is active changes nothing, whatever its arguments. Otherwise a job starts at phase 0; a given argument replaces its setting and an omitted one keeps it. |
| `Tone.Stop` | src/main/kotlin/uitls/MorseTone.kt:44-48 | After a stop no job is recorded and the settings are kept. |
| `Tone.StartIdempotent` | src/main/kotlin/uitls/MorseTone.kt:25-31 | Starting twice is starting once: the second start cannot create a second job or change the settings. |
| `Tone.StopSettles` | src/main/kotlin/uitls/MorseTone.kt:44-48 | A second stop changes nothing, and a start after a stop begins a fresh job with the kept settings. |
| `Tone.StartAfterEnded` | src/main/kotlin/uitls/MorseTone.kt:26 | A job that ended on its own does not block the next start, while an active one does. |
| `Tone.NextPhase` | src/main/kotlin/uitls/MorseTone.kt:38-39 | The phase step keeps the index in [0, 44100). It is an increment modulo 44100 and wraps exactly at 44099. |
| `Tone.PhaseAfterIsModulo` | src/main/kotlin/uitls/MorseTone.kt:31-39 | After n samples of a fresh job the phase is n mod 44100, always within [0, 44100). |
| `Tone.Pack` | src/main/kotlin/uitls/MorseTone.kt:35-36 | Each sample is written as exactly two bytes. |
| `Tone.PackBytes` | src/main/kotlin/uitls/MorseTone.kt:35-36 | The first byte holds the low eight bits and the second the next eight. Reading them as signed 16-bit little-endian gives the value reduced to 16 bits. |
| `Tone.PackRoundTrip` | src/main/kotlin/uitls/MorseTone.kt:35-36 | Every value in [-32768, 32767] survives packing and little-endian reading unchanged. |
| `Tone.Generate` | src/main/kotlin/uitls/MorseTone.kt:32-39 | An active job packs the sample and advances the phase. An inactive one produces nothing, and the settings never change. |
| `Tone.GenerateAll` | src/main/kotlin/uitls/MorseTone.kt:32-40 | The generation loop never changes the settings. An active job stays active and writes two bytes per sample; without an active job the loop does not run. |
| `Tone.GeneratePhase` | src/main/kotlin/uitls/MorseTone.kt:31-39 | A job n samples into its run that plays m more ends at the phase of n + m samples. |
| `Tone.GenerateBytes` | src/main/kotlin/uitls/MorseTone.kt:32-37 | An active job writes two bytes per sample, in order: the packing of each value. |
| `Tone.StartPhase` | src/main/kotlin/uitls/MorseTone.kt:30-39 | Starting a stopped generator and playing samples leaves the phase where a fresh job would be after that many samples. |
| `Tone.StartThenGenerate` | src/main/kotlin/uitls/MorseTone.kt:25-39 | Starting a stopped generator and playing n samples leaves an active job at phase n mod 44100. |
| `KeyFlag.Init` | src/main/kotlin/Main.kt:99-104 | At start-up the key is up, the tone is idle and nothing is sent or pending, so the invariant holds. |
| `KeyFlag.Down` | src/main/kotlin/Main.kt:248-257 | With the key up, `down()` starts the tone, sets the flag and launches one key-on message without sending it. With the key down it changes nothing. |
| `KeyFlag.Up` | src/main/kotlin/Main.kt:259-265 | `up()` always clears the flag, leaves the tone without a job and sends one key-off message at once. |
| `KeyFlag.Dispatch` | src/main/kotlin/Main.kt:253-255 | Running a launched coroutine sends its key-on message and touches nothing else. |
| `KeyFlag.Apply` | src/main/kotlin/Main.kt:64-71 | One event (key-down, key-up, a launched coroutine running, the tone failing) only appends messages. It clears the key and sends one key-off exactly when it is a key-up; any other event keeps a down key down and sends only key-on messages. |
| `KeyFlag.ApplyAll` | src/main/kotlin/Main.kt:64-71 | Over a sequence of events, messages are only appended. Without a key-up, a down key stays down and no key-off message is sent. |
| `KeyFlag.DownIdempotent` | src/main/kotlin/Main.kt:248-257 | `down()` is idempotent. A tone that ended on its own while the key is held is not restarted by a repeated key-down. |
| `KeyFlag.UpClears` | src/main/kotlin/Main.kt:259-265 | A repeated `up()` keeps the key and the tone as they are and sends one more key-off message. |
| `KeyFlag.ApplyInv` | src/main/kotlin/Main.kt:248-265 | Every event, the tone's job ending and the dispatch of a launched key-on included, keeps two facts. A tone job exists exactly while the key is down. Key-on messages sent or pending never outnumber key-off messages by more than one while the key is down, or at all while it is up. |
| `KeyFlag.ApplyAllInv` | src/main/kotlin/Main.kt:64-71 | Over any sequence of such events those facts still hold, so the local tone plays only while the key is down. |
| `KeyFlag.RemoteKey` | src/main/kotlin/Main.kt:127-131 | A peer's key-on leaves the inbound tone playing and a key-off leaves it silent; its settings never change. |
| `KeyFlag.RemoteKeyFollows` | src/main/kotlin/Main.kt:127-131 | A repeated key-on neither restarts the inbound tone nor changes it. A key-on after a key-off starts it at phase 0. |
| `KeyFlag.Follow` | src/main/kotlin/Main.kt:127-131 | After a stream of key messages, the inbound tone plays exactly when the last one was a key-on. |
| `KeyFlag.KeyOnOvertaken` | src/main/kotlin/Main.kt:248-265 | A key-down, then a key-up handled before the launched coroutine runs, sends key-off before key-on. The peer's tone keeps playing although the key is up. |
| `KeyFlag.DownInOrder` | src/main/kotlin/Main.kt:248-257 | `down()` with its key-on sent at once leaves nothing pending and appends exactly one key-on message. |
| `KeyFlag.ApplyInOrderKeeps` | src/main/kotlin/Main.kt:248-265 | With the key-on sent at once, every event keeps the order facts: the last message names the key's state and no key-on follows another. |
| `KeyFlag.InOrderAllInv` | src/main/kotlin/Main.kt:248-265 | With the key-on sent at once, over any events the order facts hold and the peer's inbound tone plays exactly while the key is down. |
| `KeyFlag.LocalTone` | src/main/kotlin/Main.kt:103 | The local key's tone plays at 400 Hz and a quarter of full scale, with no job at start-up. |
| `KeyFlag.InboundTone` | src/main/kotlin/Main.kt:104 | The peers' tone plays at 250 Hz and a quarter of full scale, with no job at start-up. |
| `KeyFlag.InitInOrder` | src/main/kotlin/Main.kt:103 | The handlers at start-up, with the local tone as constructed, satisfy the order facts. |
| `KeyFlag.ToneSamplesFit` | src/main/kotlin/Main.kt:103-104 | Both tones play at a quarter of full scale, so every sample their volume allows fits in 16 bits and is packed without loss. |

## Findings

| source | as written | input that shows it | evidently intended | confidence | as-written member | corrected member |
|---|---|---|---|---|---|---|
| src/main/kotlin/Main.kt:248-265 | `down()` emits its key-on message from a launched coroutine; `up()` emits its key-off message directly. | A key-down, then a key-up handled before the coroutine runs: the messages leave as key-off, key-on, and the peer's tone stays on with the key up. | Key-state messages leave in the order of the key events, so the peer's tone follows the key. | not executed | `KeyFlag.KeyOnOvertaken` | `KeyFlag.InOrderAllInv` |

## Left out

- The window, the Compose UI state and the key-event filter: only the space bar's key-down and key-up reach the model, as the booleans of `KeyFlag.Apply` and `Decoder.Step`.
- The WebSocket client, Gson encoding and the `SharedFlow` replay buffer: outbound key-state messages are an abstract outbox of booleans in `KeyFlag`. Decoded characters appear as the growth of the decoded text.
- MorseRelay, the relay server, is not part of this model.
- Coroutines and the system clock: the decoder loop is a fold over explicit samples, each carrying the key state and the time in milliseconds. In `Keying` the ticks come exactly one poll period apart. The time the loop body itself takes, and scheduling jitter, are not modelled.
- `Keying.KeyText`: the round trip is proved for a steady hand, one whose every dit, dah and gap is seen by the same number of ticks, and only for timing that is readable at the poll. Other timings are shown by the three standard-timing examples, not characterised in general.
- Timing precision: the thresholds are integer multiples of a positive integer unit. At 20 WPM the code's Float `dit` is exactly 60.0, and comparing a Long delta with it is then the same as comparing integers. Fractional units at other speeds are not modelled.
- The sine and its floating-point arithmetic: a sample value is an input to `Tone.Generate`, a 32-bit integer.
- The audio device: opening, flushing and blocking writes are not modelled. `Tone.JobEnds` stands for a job that stops because a write failed.
- `Tone.Stop`: cancellation is modelled as immediate. In the code the cancelled coroutine can still finish its current blocking write on the shared two-byte buffer, while a `start()` right after the stop launches a second writer. "At most one job" holds of active jobs only, not of writers.
- `println` logging is not modelled.
- `Decoder.Down`: its contract states only that the buffers are append-only. The per-branch behaviour is stated by the transition lemmas.
- `Decoder.Up`: likewise, its per-branch behaviour is stated by the transition lemmas.
