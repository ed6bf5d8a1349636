/** The timers of the MIDI player and the clock that they drive (lib/midi/midiplay.c). */
module MidiClock {
  // ---------------------------------------------------------------- timers as values

  /** A timer: steps of `rate`, with what is left over added up in `acc`. */
  datatype Phase = Phase(rate: nat, acc: nat, remainder: nat, divisor: nat)

  predicate Ok(p: Phase) {
    p.acc < p.divisor && p.remainder < p.divisor
  }

  /** `divisor` steps add up to this. */
  function Numerator(p: Phase): nat {
    p.rate * p.divisor + p.remainder
  }

  function Fresh(numerator: nat, divisor: nat): (p: Phase)
    requires divisor > 0
    ensures Ok(p) && Numerator(p) == numerator
  {
    Phase(numerator / divisor, 0, numerator % divisor, divisor)
  }

  /** One step, as `Timer_Update` takes it. */
  function Stepped(p: Phase): (r: (Phase, nat))
    requires Ok(p)
    ensures Ok(r.0) && Numerator(r.0) == Numerator(p)
    ensures r.0.divisor == p.divisor && r.0.rate == p.rate && r.0.remainder == p.remainder
  {
    if p.acc + p.remainder < p.divisor then (p.(acc := p.acc + p.remainder), p.rate)
    else (p.(acc := p.acc + p.remainder - p.divisor), p.rate + 1)
  }

  /** The timer after `k` steps, and the sum of these steps. */
  function Later(p: Phase, k: nat): (q: Phase)
    requires Ok(p)
    ensures Ok(q) && q.divisor == p.divisor && q.rate == p.rate && q.remainder == p.remainder
  {
    if k == 0 then p else Stepped(Later(p, k - 1)).0
  }

  function Sum(p: Phase, k: nat): nat
    requires Ok(p)
  {
    if k == 0 then 0 else Sum(p, k - 1) + Stepped(Later(p, k - 1)).1
  }

  /** Steps never drift: however many are taken, the error of their sum stays below one, and it
      is what `acc` holds. */
  lemma {:induction false} NoDrift(p: Phase, k: nat)
    requires Ok(p)
    ensures Sum(p, k) * p.divisor + Later(p, k).acc == k * Numerator(p) + p.acc
    decreases k
  {
    hide Stepped, Numerator;
    if k > 0 {
      NoDrift(p, k - 1);
      var q := Later(p, k - 1);
      StepIsExact(q);
      SameNumerator(q, p);
      AddStep(Sum(p, k - 1), Stepped(q).1, p.divisor, q.acc, Stepped(q).0.acc, k, Numerator(p), p.acc);
    }
  }

  lemma StepIsExact(q: Phase)
    requires Ok(q)
    ensures Stepped(q).1 * q.divisor + Stepped(q).0.acc == Numerator(q) + q.acc
  {
    assert (q.rate + 1) * q.divisor == q.rate * q.divisor + q.divisor;
  }

  lemma SameNumerator(q: Phase, p: Phase)
    requires q.rate == p.rate && q.remainder == p.remainder && q.divisor == p.divisor
    ensures Numerator(q) == Numerator(p)
  {
  }

  lemma AddStep(sum: nat, step: nat, d: nat, acc: nat, acc': nat, k: nat, n: nat, acc0: nat)
    requires k > 0 && sum * d + acc == (k - 1) * n + acc0 && step * d + acc' == n + acc
    ensures (sum + step) * d + acc' == k * n + acc0
  {
    assert (sum + step) * d == sum * d + step * d;
    assert k * n == (k - 1) * n + n;
  }

  lemma Bounds(k: int, d: int)
    requires d >= 0
    ensures (k >= 1 ==> k * d >= d) && (k <= -1 ==> k * d <= -d)
  {
  }

  lemma QuotientIs(a: nat, d: nat, q: nat, r: nat)
    requires a == q * d + r && r < d
    ensures a / d == q
  {
    var k: int := a / d - q;
    assert k * d == r - a % d;
    Bounds(k, d);
  }

  /** The sum of `k` steps of a timer just set is the exact ratio, rounded down. */
  lemma SumOfFresh(numerator: nat, divisor: nat, k: nat)
    requires divisor > 0
    ensures Sum(Fresh(numerator, divisor), k) == k * numerator / divisor
  {
    var p := Fresh(numerator, divisor);
    NoDrift(p, k);
    QuotientIs(k * numerator, divisor, Sum(p, k), Later(p, k).acc);
  }

  // ---------------------------------------------------------------- timers

  class Timer {
    var rate: nat
    var acc: nat
    var remainder: nat
    var divisor: nat

    function Value(): Phase
      reads this
    {
      Phase(rate, acc, remainder, divisor)
    }

    /** `Timer_Set`. */
    method Set(numerator: nat, divisor: nat)
      requires divisor > 0
      modifies this
      ensures Value() == Fresh(numerator, divisor)
    {
      acc := 0;
      rate := numerator / divisor;
      assert numerator == rate * divisor + numerator % divisor;
      remainder := numerator - rate * divisor;
      this.divisor := divisor;
    }

    /** `Timer_Update`. */
    method Update() returns (step: nat)
      requires Ok(Value())
      modifies this
      ensures (Value(), step) == Stepped(old(Value()))
    {
      acc := acc + remainder;
      if acc < divisor { return rate; }
      acc := acc - divisor;
      step := rate + 1;
    }
  }

  // ---------------------------------------------------------------- the clock

  /** The ticks there have been after `k` samples: one for each sample whose time the ticks have
      not reached. */
  function Ticks(beat0: Phase, second0: Phase, k: nat): (t: nat)
    requires Ok(beat0) && Ok(second0)
    ensures t <= k
  {
    if k == 0 then 0 else
      var t := Ticks(beat0, second0, k - 1);
      if Sum(beat0, t) < Sum(second0, k) then t + 1 else t
  }

  /** Every step of the ticks is at least any step of the samples. */
  predicate Steady(beat: Phase, second: Phase) {
    beat.rate >= second.rate + (if second.remainder > 0 then 1 else 0)
  }

  /** The clock of the music. Ghost fields name the timers when the music began and the samples
      since then. */
  class Clock {
    const second: Timer
    const beat: Timer
    var playSamples: int
    var musicClock: nat
    var playing: bool
    ghost var second0: Phase
    ghost var beat0: Phase
    ghost var samples: nat

    /** The timers have gone on from where they began, and `playSamples` is how far the time of
        the ticks is ahead of that of the samples. */
    ghost predicate Valid()
      reads this, second, beat
    {
      && second != beat && Ok(second0) && Ok(beat0)
      && second.Value() == Later(second0, samples) && beat.Value() == Later(beat0, musicClock)
      && playSamples == Sum(beat0, musicClock) - Sum(second0, samples)
      && musicClock == Ticks(beat0, second0, samples)
    }

    constructor (second: Timer, beat: Timer)
      ensures this.second == second && this.beat == beat
    {
      this.second, this.beat := second, beat;
    }

    /** The timers as `InitTracks` leaves them; the timer of the samples goes on from any phase. */
    method Begin(beatTempo: nat, beatTicks: nat)
      requires second != beat && Ok(second.Value()) && beatTicks > 0
      modifies this, beat
      ensures Valid() && musicClock == samples == 0
      ensures second0 == second.Value() && beat0 == Fresh(beatTempo, beatTicks) && playing == old(playing)
    {
      musicClock := 0;
      playSamples := 0;
      beat.Set(beatTempo, beatTicks);
      second0, beat0, samples := second.Value(), beat.Value(), 0;
    }

    /** One sample of `Midiplay_Output`, with a tick of the music if it is due. */
    method Sample()
      requires Valid()
      modifies this`playSamples, this`musicClock, this`samples, second, beat
      ensures Valid() && samples == old(samples) + 1 && old(musicClock) <= musicClock <= old(musicClock) + 1
    {
      hide Stepped;
      StepsOf(second0, samples);
      StepsOf(beat0, musicClock);
      var s := second.Update();
      playSamples := playSamples - s;
      samples := samples + 1;
      if playSamples < 0 {
        musicClock := musicClock + 1;
        var b := beat.Update();
        playSamples := playSamples + b;
      }
    }

    lemma IsInStep()
      requires Valid()
      ensures Steady(beat0, second0) ==> InStep(beat0, second0, musicClock, samples)
    {
      hide Later, Sum, InStep, Steady;
      if Steady(beat0, second0) { SteadyIsInStep(beat0, second0, samples); }
    }

    /** `Midiplay_Output` for `length` values, two for each sample. */
    method Output(length: nat)
      requires Valid() && length % 2 == 0
      modifies this`playSamples, this`musicClock, this`samples, second, beat
      ensures Valid() && samples == old(samples) + (if playing then length / 2 else 0)
      ensures !playing ==> musicClock == old(musicClock)
      ensures Steady(beat0, second0) ==> InStep(beat0, second0, musicClock, samples)
    {
      hide Later, Sum, InStep, Steady, Ok, Valid, Ticks;
      var rest := length;
      while rest != 0
        invariant Valid() && rest % 2 == 0 && 0 <= rest <= length
        invariant 2 * (samples - old(samples)) == if playing then length - rest else 0
        invariant !playing ==> musicClock == old(musicClock)
      {
        if playing { Sample(); }
        rest := rest - 2;
      }
      IsInStep();
    }
  }

  /** `ticks` is the least number of ticks whose time reaches that of the samples. */
  ghost predicate InStep(beat0: Phase, second0: Phase, ticks: nat, samples: nat)
    requires Ok(beat0) && Ok(second0)
  {
    && Sum(beat0, ticks) >= Sum(second0, samples)
    && (ticks > 0 ==> Sum(beat0, ticks - 1) < Sum(second0, samples))
  }

  /** Steps of a timer are its rate or one more, and just its rate when nothing is left over. */
  lemma StepsOf(p: Phase, k: nat)
    requires Ok(p)
    ensures var step := Stepped(Later(p, k));
            && Later(p, k + 1) == step.0 && Sum(p, k + 1) == Sum(p, k) + step.1
            && p.rate <= step.1 <= p.rate + (if p.remainder > 0 then 1 else 0)
  {
  }

  /** The clock is exact, not just close: the numbers of ticks that reach the time of the samples
      are just those from its own on. */
  lemma LeastTicks(beat0: Phase, second0: Phase, ticks: nat, samples: nat, t: nat)
    requires Ok(beat0) && Ok(second0) && InStep(beat0, second0, ticks, samples)
    ensures Sum(beat0, t) >= Sum(second0, samples) <==> t >= ticks
  {
    hide Later, Stepped, Ok;
    if t < ticks { SumGrows(beat0, t, ticks - 1); } else { SumGrows(beat0, ticks, t); }
  }

  lemma {:induction false} SumGrows(p: Phase, a: nat, b: nat)
    requires Ok(p) && a <= b
    ensures Sum(p, a) <= Sum(p, b)
    decreases b - a
  {
    if a < b { SumGrows(p, a, b - 1); }
  }

  /** Steady ticks keep up with the samples. */
  lemma {:induction false} SteadyIsInStep(beat0: Phase, second0: Phase, k: nat)
    requires Ok(beat0) && Ok(second0) && Steady(beat0, second0)
    ensures InStep(beat0, second0, Ticks(beat0, second0, k), k)
    decreases k
  {
    hide Later, Stepped;
    if k > 0 {
      SteadyIsInStep(beat0, second0, k - 1);
      StepsOf(second0, k - 1);
      StepsOf(beat0, Ticks(beat0, second0, k - 1));
    }
  }

  /** Without a carry the accumulator adds up what is left over. */
  lemma {:induction false} NoCarry(p: Phase, k: nat)
    requires Ok(p) && forall m: nat :: m < k ==> Stepped(Later(p, m)).1 == p.rate
    ensures Later(p, k).acc == p.acc + k * p.remainder
    decreases k
  {
    if k > 0 {
      NoCarry(p, k - 1);
      assert Stepped(Later(p, k - 1)).1 == p.rate;
      assert k * p.remainder == (k - 1) * p.remainder + p.remainder;
    }
  }

  /** A timer with something left over carries at some step. */
  lemma SomeCarry(p: Phase) returns (m: nat)
    requires Ok(p) && p.remainder > 0
    ensures Stepped(Later(p, m)).1 == p.rate + 1
  {
    if forall m: nat :: m < p.divisor ==> Stepped(Later(p, m)).1 == p.rate {
      NoCarry(p, p.divisor);
      Bounds(p.remainder, p.divisor);
      assert false;
    }
    m :| m < p.divisor && Stepped(Later(p, m)).1 != p.rate;
    StepsOf(p, m);
  }

  /** The clock is exact after any samples, whenever the music begins, if and only if no step of
      the ticks is less than one of the samples: otherwise it falls behind at the first sample,
      if the music begins when the sample timer is about to carry. */
  lemma ExactlyWhenSteady(beat0: Phase, second: Phase)
    requires Ok(beat0) && beat0.acc == 0 && Ok(second)
    ensures Steady(beat0, second) <==>
            forall m: nat, k: nat :: InStep(beat0, Later(second, m), Ticks(beat0, Later(second, m), k), k)
  {
    hide InStep, Stepped, Later, Ticks;
    if Steady(beat0, second) {
      forall m: nat, k: nat
        ensures InStep(beat0, Later(second, m), Ticks(beat0, Later(second, m), k), k)
      {
        SteadyIsInStep(beat0, Later(second, m), k);
      }
    } else {
      var m := 0;
      if second.remainder > 0 { m := SomeCarry(second); }
      FallsBehind(beat0, second, m);
    }
  }

  lemma FallsBehind(beat0: Phase, second: Phase, m: nat)
    requires Ok(beat0) && beat0.acc == 0 && Ok(second) && !Steady(beat0, second)
    requires second.remainder > 0 ==> Stepped(Later(second, m)).1 == second.rate + 1
    ensures !InStep(beat0, Later(second, m), Ticks(beat0, Later(second, m), 1), 1)
  {
    var p, t := Later(second, m), Ticks(beat0, Later(second, m), 1);
    StepsOf(second, m);
    StepsOf(p, 0);
    StepsOf(beat0, 0);
    assert Sum(p, 1) == Stepped(p).1 && Sum(beat0, 1) == beat0.rate;
  }
}
