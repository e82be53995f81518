/** The bookkeeping of the tone generator: the guard that keeps at most one
    generation job alive, the frequency and volume it plays at, the phase
    index of the running job, and the packing of each 16-bit sample into
    two little-endian bytes. The sine computation and the audio device are
    not modelled: a sample value is an input. */
module Tone {

  datatype Option<T> = None | Some(value: T)

  /** The sample rate in Hz; the phase index wraps when it reaches it. */
  const Rate: int := 44100

  /** The generation job: none (never started, or stopped), an active job at
      a phase index, or a job that has ended on its own (its device write
      failed) and is no longer active although it was never stopped. */
  datatype Job = NoJob | Active(phase: int) | Ended

  datatype MorseTone = MorseTone(frequency: int, volume: real, job: Job)

  /** A tone generator as constructed: no job yet, so the first start
      begins a job at phase 0, and without arguments it plays at the
      constructed settings. */
  function Create(frequency: int, volume: real): (r: MorseTone)
    ensures !r.job.Active?
    ensures Start(r, None, None) == MorseTone(frequency, volume, Active(0))
  {
    MorseTone(frequency, volume, NoJob)
  }

  /** `start(newFrequency, newVolume)`: while a job is active, nothing
      happens, whatever the arguments; otherwise each given argument
      replaces the setting, an omitted one keeps it, and a new job starts at
      phase 0. Either way a job is active afterwards. */
  function Start(t: MorseTone, newFrequency: Option<int>, newVolume: Option<real>): (r: MorseTone)
    ensures r.job.Active?
    ensures t.job.Active? ==> r == t
    ensures !t.job.Active? ==> r.job == Active(0)
    ensures !t.job.Active? ==> r.frequency == (if newFrequency.Some? then newFrequency.value else t.frequency)
    ensures !t.job.Active? ==> r.volume == (if newVolume.Some? then newVolume.value else t.volume)
  {
    if t.job.Active? then t
    else
      var frequency := if newFrequency.Some? then newFrequency.value else t.frequency;
      var volume := if newVolume.Some? then newVolume.value else t.volume;
      MorseTone(frequency, volume, Active(0))
  }

  /** `stop()`: cancels the job, if any, and forgets it; the settings are
      kept. */
  function Stop(t: MorseTone): (r: MorseTone)
    ensures r.job == NoJob
    ensures r.frequency == t.frequency && r.volume == t.volume
  {
    t.(job := NoJob)
  }

  /** The job ending on its own, as when a device write fails. */
  function JobEnds(t: MorseTone): MorseTone {
    if t.job.Active? then t.(job := Ended) else t
  }

  /** Starting twice in a row is starting once: the second start cannot
      create a second job or touch the settings. */
  lemma StartIdempotent(t: MorseTone, f: Option<int>, v: Option<real>, f': Option<int>, v': Option<real>)
    ensures Start(Start(t, f, v), f', v') == Start(t, f, v)
  {
  }

  /** A second stop changes nothing, and a start after a stop always
      starts a job at phase 0 with the settings kept or replaced. */
  lemma StopSettles(t: MorseTone, f: Option<int>, v: Option<real>)
    ensures Stop(Stop(t)) == Stop(t)
    ensures Start(Stop(t), f, v).job == Active(0)
    ensures f == None && v == None ==> Start(Stop(t), f, v) == t.(job := Active(0))
  {
  }

  /** A job that ended on its own does not block the next start, unlike an
      active one. */
  lemma StartAfterEnded(t: MorseTone, f: Option<int>, v: Option<real>)
    requires t.job.Active?
    ensures Start(JobEnds(t), f, v).job == Active(0)
    ensures Start(t, f, v) == t
  {
  }

  // ---------------------------------------------------------------------
  // The phase index.
  // ---------------------------------------------------------------------

  /** `i++; if (i >= rate) i = 0`. From inside [0, Rate) the phase stays
      there: it counts up by one and wraps to 0 when it reaches the rate,
      which is counting modulo the rate. */
  function NextPhase(i: int): (j: int)
    ensures 0 <= i < Rate ==> 0 <= j < Rate && j == (i + 1) % Rate
    ensures 0 <= i < Rate ==> (j == 0 <==> i == Rate - 1)
  {
    if i + 1 >= Rate then 0 else i + 1
  }

  /** The phase after `n` samples of a fresh job. */
  function PhaseAfter(n: nat): int
    decreases n
  {
    if n == 0 then 0 else NextPhase(PhaseAfter(n - 1))
  }

  /** After `n` samples the phase is `n` modulo the rate. */
  lemma {:induction false} PhaseAfterIsModulo(n: nat)
    ensures PhaseAfter(n) == n % Rate
    ensures 0 <= PhaseAfter(n) < Rate
    decreases n
  {
    if n > 0 {
      PhaseAfterIsModulo(n - 1);
      assert ((n - 1) % Rate + 1) % Rate == n % Rate;
    }
  }

  // ---------------------------------------------------------------------
  // Sample packing.
  // ---------------------------------------------------------------------

  /** A Kotlin `Int`. */
  type Int32 = x: int | -0x8000_0000 <= x < 0x8000_0000

  /** A Kotlin `Byte`: signed, two's complement. */
  type Byte = b: int | -128 <= b < 128

  /** `x and 0xFF`: the low eight bits of a two's complement integer, which
      is its remainder modulo 256 (Dafny's `%` never returns a negative). */
  function Low8(x: int): int {
    x % 256
  }

  /** `x shr 8`: the arithmetic shift, which is floor division by 256
      (Dafny's `/` by a positive divisor rounds down). */
  function Shr8(x: int): int {
    x / 256
  }

  /** `toByte()` of a value in [0, 256): its bits read as a signed byte. */
  function ToByte(x: int): Byte
    requires 0 <= x < 256
  {
    if x < 128 then x else x - 256
  }

  /** `buf[0]` and `buf[1]` for one sample value. */
  function Pack(value: Int32): (buf: seq<Byte>)
    ensures |buf| == 2
  {
    [ToByte(Low8(value)), ToByte(Low8(Shr8(value)))]
  }

  /** How the sink reads two bytes: a signed 16-bit little-endian value, the
      low byte unsigned and the high byte signed. */
  function Unpack(lo: Byte, hi: Byte): int {
    hi * 256 + Low8(lo)
  }

  /** A value reduced to the signed 16-bit range. */
  function Wrap16(value: int): int {
    (value + 32768) % 65536 - 32768
  }

  /** Reading a packed byte back as unsigned recovers its eight bits. */
  lemma Low8ToByte(x: int)
    requires 0 <= x < 256
    ensures Low8(ToByte(x)) == x
  {
  }

  /** The remainder by 65536 is the unique one: `a == m * 65536 + r` with
      `r` in [0, 65536) makes `r` the remainder. */
  lemma Mod65536Unique(a: int, m: int, r: int)
    requires a == m * 65536 + r && 0 <= r < 65536
    ensures a % 65536 == r
  {
  }

  /** The first byte holds the low eight bits of the value and the second
      the next eight; reading them back as signed 16-bit little-endian gives
      the value reduced to 16 bits. */
  lemma PackBytes(value: Int32)
    ensures Low8(Pack(value)[0]) == value % 256
    ensures Low8(Pack(value)[1]) == (value / 256) % 256
    ensures Unpack(Pack(value)[0], Pack(value)[1]) == Wrap16(value)
    ensures -32768 <= Unpack(Pack(value)[0], Pack(value)[1]) < 32768
  {
    var q, lo := value / 256, value % 256;
    var k, hi := q / 256, q % 256;
    Low8ToByte(lo);
    Low8ToByte(hi);
    var h := ToByte(hi);
    assert Pack(value) == [ToByte(lo), h];
    assert value == q * 256 + lo;
    assert q == k * 256 + hi;
    // The signed high byte differs from the unsigned one by 256 exactly
    // when its sign bit is set, which moves one block of 65536 into `k'`.
    var k' := if hi < 128 then k else k + 1;
    assert q == k' * 256 + h;
    assert value + 32768 == k' * 65536 + (h * 256 + lo + 32768);
    Mod65536Unique(value + 32768, k', h * 256 + lo + 32768);
  }

  /** Every value a 16-bit sample can hold survives the packing unchanged. */
  lemma PackRoundTrip(value: Int32)
    requires -32768 <= value < 32768
    ensures Unpack(Pack(value)[0], Pack(value)[1]) == value
  {
    PackBytes(value);
  }

  /** One iteration of the generation loop: while the job is active, the
      sample is packed for the device and the phase advances; with no active
      job nothing is produced. */
  function Generate(t: MorseTone, value: Int32): (r: (MorseTone, seq<Byte>))
    ensures t.job.Active? ==> r.0.job.Active? && r.0.job.phase == NextPhase(t.job.phase) && r.1 == Pack(value)
    ensures !t.job.Active? ==> r == (t, [])
    ensures r.0.frequency == t.frequency && r.0.volume == t.volume
  {
    if t.job.Active? then (t.(job := Active(NextPhase(t.job.phase))), Pack(value))
    else (t, [])
  }

  /** The generation loop over a run of sample values: the settings never
      change; an active job stays active and writes two bytes per sample;
      without an active job the loop does not run. */
  function GenerateAll(t: MorseTone, values: seq<Int32>): (r: (MorseTone, seq<Byte>))
    ensures r.0.frequency == t.frequency && r.0.volume == t.volume
    ensures t.job.Active? ==> r.0.job.Active? && |r.1| == 2 * |values|
    ensures !t.job.Active? ==> r == (t, [])
    decreases |values|
  {
    if |values| == 0 then (t, [])
    else
      var first := Generate(t, values[0]);
      var rest := GenerateAll(first.0, values[1..]);
      assert !t.job.Active? ==> first.1 + rest.1 == [];
      (rest.0, first.1 + rest.1)
  }

  /** A job `n` samples into its run that produces more samples ends at the
      phase of the total count. */
  lemma {:induction false} GeneratePhase(t: MorseTone, values: seq<Int32>, n: nat)
    requires t.job == Active(PhaseAfter(n))
    ensures GenerateAll(t, values).0.job == Active(PhaseAfter(n + |values|))
    decreases |values|
  {
    if |values| > 0 {
      var t1 := Generate(t, values[0]).0;
      assert t1.job == Active(PhaseAfter(n + 1));
      GeneratePhase(t1, values[1..], n + 1);
      assert n + 1 + |values[1..]| == n + |values|;
    }
  }

  /** An active job writes two bytes per sample, in order: the packing of
      each sample value. */
  lemma {:induction false} GenerateBytes(t: MorseTone, values: seq<Int32>)
    requires t.job.Active?
    ensures |GenerateAll(t, values).1| == 2 * |values|
    ensures forall k :: 0 <= k < |values| ==>
      GenerateAll(t, values).1[2 * k .. 2 * k + 2] == Pack(values[k])
    decreases |values|
  {
    if |values| > 0 {
      var first := Generate(t, values[0]);
      GenerateBytes(first.0, values[1..]);
      var rest := GenerateAll(first.0, values[1..]).1;
      var all := GenerateAll(t, values).1;
      assert all == first.1 + rest;
      forall k | 0 <= k < |values|
        ensures all[2 * k .. 2 * k + 2] == Pack(values[k])
      {
        if k == 0 {
          assert all[0..2] == first.1;
        } else {
          assert all[2 * k .. 2 * k + 2] == rest[2 * (k - 1) .. 2 * (k - 1) + 2];
          assert values[k] == values[1..][k - 1];
        }
      }
    }
  }

  /** Starting a stopped generator and playing samples leaves the phase
      at the number of samples played, counted from 0. */
  lemma StartPhase(t: MorseTone, f: Option<int>, v: Option<real>, values: seq<Int32>)
    requires !t.job.Active?
    ensures GenerateAll(Start(t, f, v), values).0.job == Active(PhaseAfter(|values|))
  {
    var s := Start(t, f, v);
    assert s.job == Active(PhaseAfter(0));
    GeneratePhase(s, values, 0);
  }

  /** Starting a stopped generator and playing `n` samples leaves the phase
      at `n` modulo the rate, always inside [0, Rate). */
  lemma StartThenGenerate(t: MorseTone, f: Option<int>, v: Option<real>, values: seq<Int32>)
    requires !t.job.Active?
    ensures GenerateAll(Start(t, f, v), values).0.job == Active(|values| % Rate)
  {
    StartPhase(t, f, v, values);
    PhaseAfterIsModulo(|values|);
  }
}
