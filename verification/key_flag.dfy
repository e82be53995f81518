/** The key handlers: the "key is down" flag set by key-down events and
    cleared by key-up events, the local tone they start and stop, and the
    key-state messages they offer to the outbound channel (kept here as an
    abstract outbox of `on` flags). `down()` does not send its key-on
    message itself: it launches a coroutine that sends it later, when the
    dispatcher runs it. */
module KeyFlag {
  import Tone

  /** The handlers' state: the key flag, the local tone, the key-state
      messages sent so far, in order (true for key-on), and the number of
      launched coroutines whose key-on message is not sent yet. */
  datatype Keyer = Keyer(down: bool, tone: Tone.MorseTone, outbox: seq<bool>, launched: nat)

  /** The number of messages of `outbox` that are `on`. */
  function Count(outbox: seq<bool>, on: bool): nat
    decreases |outbox|
  {
    if |outbox| == 0 then 0
    else Count(outbox[..|outbox| - 1], on) + (if outbox[|outbox| - 1] == on then 1 else 0)
  }

  lemma CountSnoc(outbox: seq<bool>, m: bool, on: bool)
    ensures Count(outbox + [m], on) == Count(outbox, on) + (if m == on then 1 else 0)
  {
    assert (outbox + [m])[..|outbox|] == outbox;
  }

  /** What holds whatever order the events come in. A tone job exists
      (active, or ended on its own) exactly while the key is down, so the
      tone never plays with the key up. The key-on messages sent or still
      launched never outnumber the key-off messages sent, plus one while
      the key is down. */
  predicate Inv(k: Keyer) {
    && (k.down <==> k.tone.job != Tone.NoJob)
    && Count(k.outbox, true) + k.launched <= Count(k.outbox, false) + (if k.down then 1 else 0)
  }

  /** The handlers' state at start-up: key up, tone idle, nothing sent or
      launched. */
  function Init(tone: Tone.MorseTone): (k: Keyer)
    requires tone.job == Tone.NoJob
    ensures Inv(k)
  {
    Keyer(false, tone, [], 0)
  }

  /** `down()`: only when the key is not already down, start the tone with
      its current settings, set the flag and launch the sending of a key-on
      message; nothing is sent yet. */
  function Down(k: Keyer): (r: Keyer)
    ensures r.down && r.outbox == k.outbox
    ensures k.down ==> r == k
    ensures !k.down ==> r.tone.job.Active? && r.launched == k.launched + 1
  {
    if !k.down then Keyer(true, Tone.Start(k.tone, Tone.None, Tone.None), k.outbox, k.launched + 1)
    else k
  }

  /** `up()`: always stop the tone, clear the flag and send a key-off
      message at once. */
  function Up(k: Keyer): (r: Keyer)
    ensures !r.down && r.tone.job == Tone.NoJob
    ensures r.outbox == k.outbox + [false] && r.launched == k.launched
  {
    Keyer(false, Tone.Stop(k.tone), k.outbox + [false], k.launched)
  }

  /** The dispatcher runs one launched coroutine, which sends its key-on
      message. */
  function Dispatch(k: Keyer): (r: Keyer)
    ensures k.launched > 0 ==> r.outbox == k.outbox + [true] && r.launched == k.launched - 1
    ensures k.launched == 0 ==> r == k
    ensures r.down == k.down && r.tone == k.tone
  {
    if k.launched > 0 then k.(outbox := k.outbox + [true], launched := k.launched - 1) else k
  }

  /** The events the handlers see: a key-down, a key-up, the dispatcher
      running a launched coroutine, and the tone's job ending on its own
      (its device write failed). */
  datatype Event = KeyDown | KeyUp | Dispatched | ToneFailed

  /** One event: messages are only ever appended, a key-up sends exactly
      one key-off, and only a key-up clears the key flag. */
  function Apply(k: Keyer, e: Event): (r: Keyer)
    ensures k.outbox <= r.outbox
    ensures e == KeyUp <==> !r.down && r.outbox == k.outbox + [false]
    ensures e != KeyUp ==> (k.down ==> r.down) && forall j :: |k.outbox| <= j < |r.outbox| ==> r.outbox[j]
  {
    match e
    case KeyDown => Down(k)
    case KeyUp => Up(k)
    case Dispatched =>
      assert (k.outbox + [true])[|k.outbox|] != (k.outbox + [false])[|k.outbox|];
      Dispatch(k)
    case ToneFailed => k.(tone := Tone.JobEnds(k.tone))
  }

  /** A sequence of events, in order: messages are only ever appended, and
      without a key-up the key stays down once down and no key-off
      message is sent. */
  function ApplyAll(k: Keyer, events: seq<Event>): (r: Keyer)
    ensures k.outbox <= r.outbox
    ensures (forall i :: 0 <= i < |events| ==> events[i] != KeyUp) ==>
      (k.down ==> r.down) && forall j :: |k.outbox| <= j < |r.outbox| ==> r.outbox[j]
    decreases |events|
  {
    if |events| == 0 then k else ApplyAll(Apply(k, events[0]), events[1..])
  }

  /** A repeated key-down is ignored: `down()` is idempotent, so a tone whose
      job ended on its own while the key is held stays silent until the key
      is released and pressed again. */
  lemma DownIdempotent(k: Keyer)
    ensures Down(Down(k)) == Down(k)
    ensures k.down && k.tone.job == Tone.Ended ==> !Down(k).tone.job.Active?
  {
  }

  /** A repeated `up()` keeps the key and the tone as they are, and sends
      one more key-off message. */
  lemma UpClears(k: Keyer)
    ensures Up(Up(k)).down == Up(k).down && Up(Up(k)).tone == Up(k).tone
    ensures Up(Up(k)).outbox == k.outbox + [false, false]
  {
  }

  /** Every event keeps the invariant. */
  lemma ApplyInv(k: Keyer, e: Event)
    requires Inv(k)
    ensures Inv(Apply(k, e))
  {
    CountSnoc(k.outbox, false, true);
    CountSnoc(k.outbox, false, false);
    CountSnoc(k.outbox, true, true);
    CountSnoc(k.outbox, true, false);
  }

  /** Over any events, in any order, the tone plays only while the key is
      down and the key-on messages never outnumber the key-off messages
      (plus one while the key is down). */
  lemma {:induction false} ApplyAllInv(k: Keyer, events: seq<Event>)
    requires Inv(k)
    ensures Inv(ApplyAll(k, events))
    ensures ApplyAll(k, events).tone.job.Active? ==> ApplyAll(k, events).down
    decreases |events|
  {
    if |events| > 0 {
      ApplyInv(k, events[0]);
      ApplyAllInv(Apply(k, events[0]), events[1..]);
    }
  }

  // ---------------------------------------------------------------------
  // The peer's side.
  // ---------------------------------------------------------------------

  /** A key-state message from a peer drives the second (inbound) tone: a
      key-on starts it with its current settings, a key-off stops it. */
  function RemoteKey(inTone: Tone.MorseTone, on: bool): (r: Tone.MorseTone)
    ensures r.job.Active? <==> on
    ensures r.frequency == inTone.frequency && r.volume == inTone.volume
  {
    if on then Tone.Start(inTone, Tone.None, Tone.None) else Tone.Stop(inTone)
  }

  /** Repeated key-on messages neither restart a running inbound tone nor
      change it; a key-on after a key-off restarts it from phase 0. */
  lemma RemoteKeyFollows(inTone: Tone.MorseTone)
    ensures inTone.job.Active? ==> RemoteKey(inTone, true) == inTone
    ensures RemoteKey(RemoteKey(inTone, false), true).job == Tone.Active(0)
  {
  }

  /** The peer's inbound tone once it has received the messages of
      `outbox`, in order: it plays exactly when the last one was a
      key-on. */
  function Follow(inTone: Tone.MorseTone, outbox: seq<bool>): (r: Tone.MorseTone)
    ensures |outbox| == 0 ==> r == inTone
    ensures |outbox| > 0 ==> (r.job.Active? <==> outbox[|outbox| - 1])
    decreases |outbox|
  {
    if |outbox| == 0 then inTone
    else RemoteKey(Follow(inTone, outbox[..|outbox| - 1]), outbox[|outbox| - 1])
  }

  /** The messages can overtake each other: a key-up handled before the
      coroutine launched by the key-down has run sends key-off first and
      key-on last, so the peer's tone keeps playing although the key is
      up. */
  lemma KeyOnOvertaken(tone: Tone.MorseTone, inTone: Tone.MorseTone)
    requires tone.job == Tone.NoJob
    ensures var k := ApplyAll(Init(tone), [KeyDown, KeyUp, Dispatched]);
      && !k.down
      && k.outbox == [false, true]
      && Follow(inTone, k.outbox).job.Active?
  {
    var k0 := Init(tone);
    var k1 := Apply(k0, KeyDown);
    var k2 := Apply(k1, KeyUp);
    var k3 := Apply(k2, Dispatched);
    assert ApplyAll(k0, [KeyDown, KeyUp, Dispatched]) == ApplyAll(k1, [KeyUp, Dispatched]);
    assert ApplyAll(k1, [KeyUp, Dispatched]) == ApplyAll(k2, [Dispatched]);
    assert ApplyAll(k2, [Dispatched]) == ApplyAll(k3, []);
  }

  // ---------------------------------------------------------------------
  // Messages in key order.
  // ---------------------------------------------------------------------

  /** `down()` sending its key-on message before any later event is
      handled, as `up()` sends its key-off message. */
  function DownInOrder(k: Keyer): (r: Keyer)
    ensures k.launched == 0 ==> r.launched == 0
    ensures !k.down && k.launched == 0 ==> r.outbox == k.outbox + [true]
  {
    Dispatch(Down(k))
  }

  /** The handlers with the key-on message sent in order. */
  function ApplyInOrder(k: Keyer, e: Event): Keyer {
    if e == KeyDown then DownInOrder(k) else Apply(k, e)
  }

  function ApplyAllInOrder(k: Keyer, events: seq<Event>): Keyer
    decreases |events|
  {
    if |events| == 0 then k else ApplyAllInOrder(ApplyInOrder(k, events[0]), events[1..])
  }

  /** No two key-on messages in a row: between two of them lies a key-off. */
  predicate NoRepeatedOn(outbox: seq<bool>) {
    forall i :: 0 <= i < |outbox| - 1 ==> outbox[i] ==> !outbox[i + 1]
  }

  /** With messages in key order, nothing is left launched, the last
      message sent names the key's state, and no key-on message follows
      another. */
  predicate InOrder(k: Keyer) {
    && Inv(k)
    && k.launched == 0
    && (|k.outbox| == 0 ==> !k.down)
    && (|k.outbox| > 0 ==> k.outbox[|k.outbox| - 1] == k.down)
    && NoRepeatedOn(k.outbox)
  }

  lemma ApplyInOrderKeeps(k: Keyer, e: Event)
    requires InOrder(k)
    ensures InOrder(ApplyInOrder(k, e))
  {
    var r := ApplyInOrder(k, e);
    if e == KeyDown {
      ApplyInv(k, KeyDown);
      ApplyInv(Down(k), Dispatched);
    } else {
      ApplyInv(k, e);
    }
    forall i | 0 <= i < |r.outbox| - 1 && r.outbox[i]
      ensures !r.outbox[i + 1]
    {
      if i < |k.outbox| - 1 {
        assert r.outbox[i] == k.outbox[i] && r.outbox[i + 1] == k.outbox[i + 1];
      }
    }
  }

  /** With the key-on message sent in order, over any events from start-up,
      the last message names the key's state, no key-on message follows
      another, and the peer's inbound tone plays exactly while the key is
      down. */
  lemma {:induction false} InOrderAllInv(k: Keyer, events: seq<Event>, inTone: Tone.MorseTone)
    requires InOrder(k)
    requires |k.outbox| == 0 ==> !inTone.job.Active?
    ensures InOrder(ApplyAllInOrder(k, events))
    ensures Follow(inTone, ApplyAllInOrder(k, events).outbox).job.Active? <==> ApplyAllInOrder(k, events).down
    decreases |events|
  {
    if |events| > 0 {
      ApplyInOrderKeeps(k, events[0]);
      var k1 := ApplyInOrder(k, events[0]);
      assert |k1.outbox| == 0 ==> k1.outbox == k.outbox;
      InOrderAllInv(k1, events[1..], inTone);
    }
  }

  /** The tone of the local key: 400 Hz at a quarter of full scale. */
  function LocalTone(): (t: Tone.MorseTone)
    ensures t.frequency == 400 && t.volume == 32767.0 / 4.0 && !t.job.Active?
  {
    Tone.Create(400, 32767.0 / 4.0)
  }

  /** The tone of a peer's key: 250 Hz at a quarter of full scale. */
  function InboundTone(): (t: Tone.MorseTone)
    ensures t.frequency == 250 && t.volume == 32767.0 / 4.0 && !t.job.Active?
  {
    Tone.Create(250, 32767.0 / 4.0)
  }

  /** At start-up, with the local tone as constructed, the handlers keep
      messages in key order. */
  lemma InitInOrder()
    ensures InOrder(Init(LocalTone()))
  {
  }

  /** Both tones play at a quarter of full scale, so every sample value a
      sine scaled by their volume can take fits in 16 bits and reaches the
      device unchanged. */
  lemma ToneSamplesFit(value: Tone.Int32)
    requires -LocalTone().volume <= value as real <= LocalTone().volume
    ensures InboundTone().volume == LocalTone().volume
    ensures -32768 <= value < 32768
    ensures Tone.Unpack(Tone.Pack(value)[0], Tone.Pack(value)[1]) == value
  {
    Tone.PackRoundTrip(value);
  }
}
