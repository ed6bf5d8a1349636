/** Which notes sound in the MIDI player, said by the events alone, and that the voices of
    MidiVoices play just these. */
module MidiNotes {
  import opened MidiVoices

  // ---------------------------------------------------------------- what the events say

  /** The pedal of channel `c` after some events; it was `start` before. */
  ghost function Pedal(c: nat, past: seq<Event>, start: bool): bool {
    if past == [] then start else
      var e := past[|past| - 1];
      if e == Reset(c) then false
      else if e.Sustain? && e.c == c then e.on
      else Pedal(c, past[..|past| - 1], start)
  }

  /** The event at `t` asked for the end of note `n` under the pedal, and the note has not been
      played again since. */
  ghost predicate MarkedAt(c: nat, n: int, past: seq<Event>, start: bool, t: nat)
    requires t < |past|
  {
    && (past[t] == NoteOff(c, n) || past[t] == MuteNotes(c)) && Pedal(c, past[..t], start)
    && forall u :: t < u < |past| ==> past[u] != NoteOn(c, n)
  }

  ghost predicate Marked(c: nat, n: int, past: seq<Event>, start: bool) {
    exists t: nat :: t < |past| && MarkedAt(c, n, past, start, t)
  }

  /** When note `n` was begun on channel `c`. */
  ghost function Times(past: seq<Event>, c: nat, n: int): set<nat> {
    set t: nat | t < |past| && past[t] == NoteOn(c, n)
  }

  /** When the notes were begun that wait for the pedal. */
  ghost function MarkedTimes(past: seq<Event>, c: nat, start: bool): set<nat> {
    set t: nat | t < |past| && past[t].NoteOn? && past[t].c == c && Marked(c, past[t].n, past, start)
  }

  function Keep(ts: seq<nat>, gone: set<nat>): (r: seq<nat>)
    ensures forall i :: 0 <= i < |r| ==> r[i] in ts && r[i] !in gone
  {
    if ts == [] then [] else
      var last := |ts| - 1;
      Keep(ts[..last], gone) + (if ts[last] in gone then [] else [ts[last]])
  }

  /** How many there are in the first `n` channels. */
  function Sum(on: seq<seq<nat>>, n: nat): nat
    requires n <= |on|
  {
    if n == 0 then 0 else Sum(on, n - 1) + |on[n - 1]|
  }

  /** The notes that sound after one more event: a note is named by the time at which it was
      begun. It sounds if a voice was left for it, until it is ended with the pedal up, or all
      sound is, or the pedal goes up after it was ended. */
  ghost function Next(on: seq<seq<nat>>, past: seq<Event>, e: Event, start: seq<bool>): (on': seq<seq<nat>>)
    requires |on| == |start| == CHANNELS && e.c < CHANNELS
    ensures |on'| == CHANNELS && forall d :: 0 <= d < CHANNELS && d != e.c ==> on'[d] == on[d]
  {
    var c := e.c;
    match e
    case NoteOn(_, _) => if Sum(on, CHANNELS) < VOICES then on[c := [|past|] + on[c]] else on
    case NoteOff(_, n) => if Pedal(c, past, start[c]) then on else on[c := Keep(on[c], Times(past, c, n))]
    case SoundOff(_) => on[c := []]
    case MuteNotes(_) => if Pedal(c, past, start[c]) then on else on[c := []]
    case Sustain(_, down) => if down then on else on[c := Keep(on[c], MarkedTimes(past, c, start[c]))]
    case Reset(_) => on
  }

  /** The notes that sound after some events, newest first, for each channel. */
  ghost function Sounding(past: seq<Event>, start: seq<bool>): (on: seq<seq<nat>>)
    requires Events(past) && |start| == CHANNELS
    ensures |on| == CHANNELS
  {
    if past == [] then seq(CHANNELS, _ => []) else
      var last := |past| - 1;
      Next(Sounding(past[..last], start), past[..last], past[last], start)
  }

  // ---------------------------------------------------------------- what the voices do

  /** Voice `v` plays the note begun at time `t` on channel `c`, and it is marked exactly when
      the note waits for the pedal. */
  ghost predicate Carries(note: seq<int>, playing: seq<int>, v: nat, t: nat, past: seq<Event>, c: nat, start: bool) {
    && v < |note| == |playing| && t < |past| && past[t] == NoteOn(c, note[v])
    && (playing[v] == NOTE_OFF <==> Marked(c, note[v], past, start))
  }

  /** The voices of a ring play the notes begun at the times `ts`. */
  ghost predicate Voiced(note: seq<int>, playing: seq<int>, ring: seq<nat>, ts: seq<nat>, past: seq<Event>, c: nat,
      start: bool) {
    |ring| == |ts| && forall i :: 0 <= i < |ring| ==> Carries(note, playing, ring[i], ts[i], past, c, start)
  }

  /** Every channel plays the notes that sound, and the other voices are unused. */
  ghost predicate Plays(s: State, past: seq<Event>, start: seq<bool>)
    requires IsState(s) && Events(past) && |start| == CHANNELS
  {
    var on := Sounding(past, start);
    && (forall c: nat :: c < CHANNELS ==> s.sustain[c] == Pedal(c, past, start[c]))
    && (forall c: nat :: c < CHANNELS ==> Voiced(s.note, s.playing, s.rings[c], on[c], past, c, start[c]))
    && |s.rings[UNUSED]| + Sum(on, CHANNELS) == VOICES
  }

  // ---------------------------------------------------------------- one event

  lemma PedalNext(c: nat, past: seq<Event>, e: Event, start: bool)
    ensures Pedal(c, past + [e], start)
            == if e == Reset(c) then false else if e.Sustain? && e.c == c then e.on else Pedal(c, past, start)
  {
    assert (past + [e])[..|past|] == past;
  }

  lemma MarkedNext(c: nat, n: int, past: seq<Event>, e: Event, start: bool)
    ensures Marked(c, n, past + [e], start)
            <==> e != NoteOn(c, n)
                 && (Marked(c, n, past, start)
                     || ((e == NoteOff(c, n) || e == MuteNotes(c)) && Pedal(c, past, start)))
  {
    var past' := past + [e];
    assert past'[..|past|] == past;
    if Marked(c, n, past', start) {
      var t: nat :| t < |past'| && MarkedAt(c, n, past', start, t);
      if t < |past| {
        assert past'[..t] == past[..t] && past'[|past|] != NoteOn(c, n);
        assert forall u :: t < u < |past| ==> past'[u] == past[u];
        assert MarkedAt(c, n, past, start, t);
      }
    }
    if e != NoteOn(c, n) && Marked(c, n, past, start) {
      var t: nat :| t < |past| && MarkedAt(c, n, past, start, t);
      assert past'[..t] == past[..t];
      assert MarkedAt(c, n, past', start, t);
    }
    if (e == NoteOff(c, n) || e == MuteNotes(c)) && Pedal(c, past, start) {
      assert MarkedAt(c, n, past', start, |past|);
    }
  }

  /** Only the channel of the event is concerned. */
  lemma OtherChannel(note: seq<int>, playing: seq<int>, note': seq<int>, playing': seq<int>, ring: seq<nat>,
      ts: seq<nat>, past: seq<Event>, e: Event, c: nat, start: bool)
    requires Voiced(note, playing, ring, ts, past, c, start) && e.c != c
    requires |note'| == |playing'| == |note|
    requires forall i :: 0 <= i < |ring| && ring[i] < |note| ==>
               note'[ring[i]] == note[ring[i]] && playing'[ring[i]] == playing[ring[i]]
    ensures Voiced(note', playing', ring, ts, past + [e], c, start)
  {
    hide Marked;
    forall i | 0 <= i < |ring|
      ensures Carries(note', playing', ring[i], ts[i], past + [e], c, start)
    {
      assert Carries(note, playing, ring[i], ts[i], past, c, start);
      MarkedNext(c, note[ring[i]], past, e, start);
    }
  }

  /** In its own channel an event that releases no voice changes the marks as it changes the
      notes that wait. */
  lemma SameRing(note: seq<int>, playing: seq<int>, playing': seq<int>, ring: seq<nat>, ts: seq<nat>,
      past: seq<Event>, e: Event, c: nat, start: bool)
    requires Voiced(note, playing, ring, ts, past, c, start) && |playing'| == |playing|
    requires forall i :: 0 <= i < |ring| && ring[i] < |note| == |playing| ==>
               playing'[ring[i]]
               == if e == NoteOn(c, note[ring[i]]) then NOTE_PLAY
                  else if (e == NoteOff(c, note[ring[i]]) || e == MuteNotes(c)) && Pedal(c, past, start) then NOTE_OFF
                  else playing[ring[i]]
    ensures Voiced(note, playing', ring, ts, past + [e], c, start)
  {
    hide Marked;
    forall i | 0 <= i < |ring|
      ensures Carries(note, playing', ring[i], ts[i], past + [e], c, start)
    {
      assert Carries(note, playing, ring[i], ts[i], past, c, start);
      MarkedNext(c, note[ring[i]], past, e, start);
    }
  }

  /** Voices and times at the same places. */
  ghost predicate Paired(ring: seq<nat>, ts: seq<nat>, pairs: set<(nat, nat)>) {
    |ring| == |ts| && forall i :: 0 <= i < |ring| ==> (ring[i], ts[i]) in pairs
  }

  /** Two filters that drop the same places leave the same places. */
  lemma {:induction false} KeptTogether(ring: seq<nat>, f: seq<int>, x: int, ts: seq<nat>, gone: set<nat>,
      pairs: set<(nat, nat)>)
    requires Paired(ring, ts, pairs)
    requires forall i :: 0 <= i < |ring| ==> ring[i] < |f| && (f[ring[i]] == x <==> ts[i] in gone)
    ensures Paired(Without(ring, f, x), Keep(ts, gone), pairs)
    ensures |With(ring, f, x)| + |Keep(ts, gone)| == |ts|
    decreases |ring|
  {
    if ring != [] {
      var last := |ring| - 1;
      assert Paired(ring[..last], ts[..last], pairs);
      KeptTogether(ring[..last], f, x, ts[..last], gone, pairs);
    }
  }

  /** The voices released are those of the notes that end. */
  lemma EndedTogether(note: seq<int>, playing: seq<int>, ring: seq<nat>, ts: seq<nat>, past: seq<Event>, e: Event,
      c: nat, start: bool, f: seq<int>, x: int, gone: set<nat>)
    requires Voiced(note, playing, ring, ts, past, c, start)
    requires forall i :: 0 <= i < |ring| ==> ring[i] < |f| && (f[ring[i]] == x <==> ts[i] in gone)
    requires !e.NoteOn? && ((e.NoteOff? || e.MuteNotes?) && e.c == c ==> !Pedal(c, past, start))
    ensures Voiced(note, playing, Without(ring, f, x), Keep(ts, gone), past + [e], c, start)
    ensures |With(ring, f, x)| + |Keep(ts, gone)| == |ts|
  {
    hide Marked, Without, With, Keep;
    var pairs := set k | 0 <= k < |ring| :: (ring[k], ts[k]);
    assert Paired(ring, ts, pairs);
    KeptTogether(ring, f, x, ts, gone, pairs);
    forall i | 0 <= i < |Keep(ts, gone)|
      ensures Carries(note, playing, Without(ring, f, x)[i], Keep(ts, gone)[i], past + [e], c, start)
    {
      assert (Without(ring, f, x)[i], Keep(ts, gone)[i]) in pairs;
      var k :| 0 <= k < |ring| && ring[k] == Without(ring, f, x)[i] && ts[k] == Keep(ts, gone)[i];
      assert Carries(note, playing, ring[k], ts[k], past, c, start);
      MarkedNext(c, note[ring[k]], past, e, start);
    }
  }

  lemma {:induction false} SumUpdate(on: seq<seq<nat>>, n: nat, c: nat, s: seq<nat>)
    requires n <= |on| && c < |on|
    ensures Sum(on[c := s], n) == if c < n then Sum(on, n) - |on[c]| + |s| else Sum(on, n)
    decreases n
  {
    if n > 0 { SumUpdate(on, n - 1, c, s); }
  }

  lemma {:induction false} SumOfNone(on: seq<seq<nat>>, n: nat)
    requires n <= |on| && forall c :: 0 <= c < n ==> on[c] == []
    ensures Sum(on, n) == 0
    decreases n
  {
    if n > 0 { SumOfNone(on, n - 1); }
  }

  /** The notes that sound after one more event. */
  lemma SoundingNext(past: seq<Event>, e: Event, start: seq<bool>)
    requires Events(past) && e.c < CHANNELS && |start| == CHANNELS
    ensures Events(past + [e])
    ensures Sounding(past + [e], start) == Next(Sounding(past, start), past, e, start)
  {
    assert (past + [e])[..|past|] == past;
  }

  /** What an event leaves alone: the rings of other channels, and the fields of their voices. */
  lemma LeftAlone(s: State, owner: seq<nat>, e: Event, d: nat)
    requires IsState(s) && e.c < CHANNELS && Owned(s.rings, owner) && d < CHANNELS && d != e.c
    ensures IsState(After(s, e)) && After(s, e).rings[d] == s.rings[d]
    ensures |After(s, e).note| == |After(s, e).playing| == VOICES
    ensures forall i :: 0 <= i < |s.rings[d]| ==>
              && After(s, e).note[s.rings[d][i]] == s.note[s.rings[d][i]]
              && After(s, e).playing[s.rings[d][i]] == s.playing[s.rings[d][i]]
  {
    StaysState(s, e);
    hide With, Without, IsState;
    assert |s.rings| == CHANNELS + 1 && |s.note| == |s.playing| == VOICES by { Sizes(s); }
    forall i | 0 <= i < |s.rings[d]|
      ensures s.rings[d][i] < VOICES && s.rings[d][i] !in s.rings[e.c]
      ensures s.rings[UNUSED] != [] ==> s.rings[d][i] != s.rings[UNUSED][0]
    {
      assert owner[s.rings[d][i]] == d;
      forall k | 0 <= k < |s.rings[e.c]|
        ensures s.rings[e.c][k] != s.rings[d][i]
      {
        assert owner[s.rings[e.c][k]] == e.c;
      }
    }
  }

  lemma Sizes(s: State)
    requires IsState(s)
    ensures |s.rings| == CHANNELS + 1 && |s.note| == |s.playing| == VOICES && |s.sustain| == CHANNELS
  {
  }

  lemma OtherVoiced(s: State, owner: seq<nat>, past: seq<Event>, start: seq<bool>, e: Event, d: nat)
    requires IsState(s) && Events(past) && |start| == CHANNELS && Plays(s, past, start)
    requires e.c < CHANNELS && Owned(s.rings, owner) && d < CHANNELS && d != e.c
    ensures Events(past + [e]) && IsState(After(s, e))
    ensures Voiced(After(s, e).note, After(s, e).playing, After(s, e).rings[d], Sounding(past + [e], start)[d],
                   past + [e], d, start[d])
  {
    hide After, Sounding, Voiced, Owned, Keep, Times, MarkedTimes;
    LeftAlone(s, owner, e, d);
    SoundingNext(past, e, start);
    Sizes(s);
    assert Voiced(s.note, s.playing, s.rings[d], Sounding(past, start)[d], past, d, start[d]);
    var s' := After(s, e);
    OtherChannel(s.note, s.playing, s'.note, s'.playing, s.rings[d], Sounding(past, start)[d], past, e, d, start[d]);
  }

  lemma PedalsNext(s: State, past: seq<Event>, start: seq<bool>, e: Event, d: nat)
    requires IsState(s) && |start| == CHANNELS && e.c < CHANNELS && d < CHANNELS
    requires s.sustain[d] == Pedal(d, past, start[d])
    ensures IsState(After(s, e)) && After(s, e).sustain[d] == Pedal(d, past + [e], start[d])
  {
    hide With, Without, Set, SetAll, Pedal;
    StaysState(s, e);
    PedalNext(d, past, e, start[d]);
  }

  /** The channel of the event and the unused voices. */
  ghost predicate Served(s: State, past: seq<Event>, start: seq<bool>, e: Event)
    requires IsState(s) && Events(past) && |start| == CHANNELS && e.c < CHANNELS
  {
    && IsState(After(s, e)) && Events(past + [e])
    && Voiced(After(s, e).note, After(s, e).playing, After(s, e).rings[e.c], Sounding(past + [e], start)[e.c],
              past + [e], e.c, start[e.c])
    && |After(s, e).rings[UNUSED]| + Sum(Sounding(past + [e], start), CHANNELS) == VOICES
  }

  /** Voices released for notes that end. */
  lemma ServedEnd(s: State, past: seq<Event>, start: seq<bool>, e: Event, f: seq<int>, x: int, gone: set<nat>)
    requires IsState(s) && Events(past) && |start| == CHANNELS && Plays(s, past, start) && e.c < CHANNELS
    requires |f| == VOICES && IsState(After(s, e)) && Events(past + [e]) && !e.NoteOn?
    requires After(s, e).note == s.note && After(s, e).playing == s.playing
    requires After(s, e).rings == Released(s.rings, e.c, f, x)
    requires Sounding(past + [e], start) == Sounding(past, start)[e.c := Keep(Sounding(past, start)[e.c], gone)]
    requires forall i :: 0 <= i < |s.rings[e.c]| ==>
               (f[s.rings[e.c][i]] == x <==> Sounding(past, start)[e.c][i] in gone)
    requires e.NoteOff? || e.MuteNotes? ==> !Pedal(e.c, past, start[e.c])
    ensures Served(s, past, start, e)
  {
    hide After, Sounding, Voiced, Keep, With, Without;
    var c, on := e.c, Sounding(past, start);
    assert Voiced(s.note, s.playing, s.rings[c], on[c], past, c, start[c]);
    SameLength(s.note, s.playing, s.rings[c], on[c], past, c, start[c]);
    EndedTogether(s.note, s.playing, s.rings[c], on[c], past, e, c, start[c], f, x, gone);
    SumUpdate(on, CHANNELS, c, Keep(on[c], gone));
  }

  lemma SameLength(note: seq<int>, playing: seq<int>, ring: seq<nat>, ts: seq<nat>, past: seq<Event>, c: nat,
      start: bool)
    requires Voiced(note, playing, ring, ts, past, c, start)
    ensures |ring| == |ts|
    ensures forall i :: 0 <= i < |ring| ==> Carries(note, playing, ring[i], ts[i], past, c, start)
  {
  }

  lemma ServedNoteOff(s: State, past: seq<Event>, start: seq<bool>, e: Event)
    requires IsState(s) && Events(past) && |start| == CHANNELS && Plays(s, past, start) && e.c < CHANNELS && e.NoteOff?
    ensures Served(s, past, start, e)
  {
    hide Sounding, Voiced, Keep, With, Without, Marked, Pedal;
    StaysState(s, e);
    SoundingNext(past, e, start);
    var c, on := e.c, Sounding(past, start);
    assert Voiced(s.note, s.playing, s.rings[c], on[c], past, c, start[c]);
    SameLength(s.note, s.playing, s.rings[c], on[c], past, c, start[c]);
    if s.sustain[c] {
      SameRing(s.note, s.playing, After(s, e).playing, s.rings[c], on[c], past, e, c, start[c]);
    } else {
      ServedEnd(s, past, start, e, s.note, e.n, Times(past, c, e.n));
    }
  }

  lemma ServedSustain(s: State, past: seq<Event>, start: seq<bool>, e: Event)
    requires IsState(s) && Events(past) && |start| == CHANNELS && Plays(s, past, start) && e.c < CHANNELS && e.Sustain?
    ensures Served(s, past, start, e)
  {
    hide Sounding, Voiced, Keep, With, Without, Marked, Pedal;
    StaysState(s, e);
    SoundingNext(past, e, start);
    var c, on := e.c, Sounding(past, start);
    assert Voiced(s.note, s.playing, s.rings[c], on[c], past, c, start[c]);
    SameLength(s.note, s.playing, s.rings[c], on[c], past, c, start[c]);
    if e.on {
      SameRing(s.note, s.playing, s.playing, s.rings[c], on[c], past, e, c, start[c]);
    } else {
      ServedEnd(s, past, start, e, s.playing, NOTE_OFF, MarkedTimes(past, c, start[c]));
    }
  }

  lemma ServedReset(s: State, past: seq<Event>, start: seq<bool>, e: Event)
    requires IsState(s) && Events(past) && |start| == CHANNELS && Plays(s, past, start) && e.c < CHANNELS && e.Reset?
    ensures Served(s, past, start, e)
  {
    hide Sounding, Voiced, Keep, With, Without, Marked, Pedal;
    StaysState(s, e);
    SoundingNext(past, e, start);
    var c, on := e.c, Sounding(past, start);
    assert Voiced(s.note, s.playing, s.rings[c], on[c], past, c, start[c]);
    SameRing(s.note, s.playing, s.playing, s.rings[c], on[c], past, e, c, start[c]);
  }

  lemma NoneVoiced(note: seq<int>, playing: seq<int>, past: seq<Event>, c: nat, start: bool)
    ensures Voiced(note, playing, [], [], past, c, start)
  {
  }

  lemma ServedSilence(s: State, past: seq<Event>, start: seq<bool>, e: Event)
    requires IsState(s) && Events(past) && |start| == CHANNELS && Plays(s, past, start) && e.c < CHANNELS
    requires e.SoundOff? || e.MuteNotes?
    ensures Served(s, past, start, e)
  {
    hide Sounding, Voiced, Keep, With, Without, Marked, Pedal;
    StaysState(s, e);
    SoundingNext(past, e, start);
    var c, on := e.c, Sounding(past, start);
    assert Voiced(s.note, s.playing, s.rings[c], on[c], past, c, start[c]);
    SameLength(s.note, s.playing, s.rings[c], on[c], past, c, start[c]);
    if e.MuteNotes? && s.sustain[c] {
      SameRing(s.note, s.playing, After(s, e).playing, s.rings[c], on[c], past, e, c, start[c]);
    } else {
      NoneVoiced(s.note, s.playing, past + [e], c, start[c]);
      SumUpdate(on, CHANNELS, c, []);
    }
  }

  lemma ServedNoteOn(s: State, owner: seq<nat>, past: seq<Event>, start: seq<bool>, e: Event)
    requires IsState(s) && Events(past) && |start| == CHANNELS && Plays(s, past, start) && e.c < CHANNELS && e.NoteOn?
    requires Owned(s.rings, owner)
    ensures Served(s, past, start, e)
  {
    hide Sounding, Voiced, Keep, With, Without, Marked, Pedal;
    StaysState(s, e);
    SoundingNext(past, e, start);
    var c, on, ring := e.c, Sounding(past, start), s.rings[e.c];
    assert Voiced(s.note, s.playing, ring, on[c], past, c, start[c]);
    SameLength(s.note, s.playing, ring, on[c], past, c, start[c]);
    var played := Set(s.playing, ring, s.note, e.n, NOTE_PLAY);
    SameRing(s.note, s.playing, played, ring, on[c], past, e, c, start[c]);
    if s.rings[UNUSED] != [] {
      var v := s.rings[UNUSED][0];
      NewInFront(s.note, played, ring, on[c], past, e, start[c], v, owner, s.rings);
      SumUpdate(on, CHANNELS, c, [|past|] + on[c]);
    }
  }

  lemma NewInFront(note: seq<int>, playing: seq<int>, ring: seq<nat>, ts: seq<nat>, past: seq<Event>, e: Event,
      start: bool, v: nat, owner: seq<nat>, rings: seq<seq<nat>>)
    requires Voiced(note, playing, ring, ts, past + [e], e.c, start) && e.NoteOn?
    requires v < |note| == |playing| && Owned(rings, owner) && e.c < CHANNELS < |rings| && ring == rings[e.c]
    requires rings[UNUSED] != [] && v == rings[UNUSED][0]
    ensures Voiced(note[v := e.n], playing[v := NOTE_PLAY], [v] + ring, [|past|] + ts, past + [e], e.c, start)
  {
    hide Marked;
    MarkedNext(e.c, e.n, past, e, start);
    assert owner[v] == UNUSED;
    forall i | 0 <= i < |ring|
      ensures Carries(note[v := e.n], playing[v := NOTE_PLAY], ring[i], ts[i], past + [e], e.c, start)
    {
      assert owner[ring[i]] == e.c;
      assert Carries(note, playing, ring[i], ts[i], past + [e], e.c, start);
    }
  }

  /** Whatever the event, the voices go on playing the notes that sound. */
  lemma StepPlays(s: State, owner: seq<nat>, past: seq<Event>, start: seq<bool>, e: Event)
    requires IsState(s) && Events(past) && |start| == CHANNELS && Plays(s, past, start) && e.c < CHANNELS
    requires Owned(s.rings, owner)
    ensures Events(past + [e]) && IsState(After(s, e)) && Plays(After(s, e), past + [e], start)
  {
    hide After, Sounding, Voiced, Owned, Pedal;
    match e {
      case NoteOff(_, _) => ServedNoteOff(s, past, start, e);
      case NoteOn(_, _) => ServedNoteOn(s, owner, past, start, e);
      case SoundOff(_) => ServedSilence(s, past, start, e);
      case MuteNotes(_) => ServedSilence(s, past, start, e);
      case Sustain(_, _) => ServedSustain(s, past, start, e);
      case Reset(_) => ServedReset(s, past, start, e);
    }
    forall d: nat | d < CHANNELS
      ensures After(s, e).sustain[d] == Pedal(d, past + [e], start[d])
      ensures Voiced(After(s, e).note, After(s, e).playing, After(s, e).rings[d], Sounding(past + [e], start)[d],
                     past + [e], d, start[d])
    {
      PedalsNext(s, past, start, e, d);
      if d != e.c { OtherVoiced(s, owner, past, start, e, d); }
    }
  }

  // ---------------------------------------------------------------- runs

  /** Nothing sounds at first. */
  lemma NothingPlays(s: State)
    requires IsState(s) && s.rings == seq(CHANNELS, _ => []) + [Count(VOICES)]
    ensures Plays(s, [], s.sustain)
  {
    var on := Sounding([], s.sustain);
    SumOfNone(on, CHANNELS);
    forall c: nat | c < CHANNELS
      ensures Voiced(s.note, s.playing, s.rings[c], on[c], [], c, s.sustain[c])
    {
      assert s.rings[c] == [] && on[c] == [];
    }
  }

  /** With the pedal up a note is ended at once. */
  lemma EndedNotesAreSilent(s: State, past: seq<Event>, start: seq<bool>, c: nat, n: int)
    requires IsState(s) && Events(past) && |start| == CHANNELS && c < CHANNELS && !Pedal(c, past, start[c])
    requires Plays(s, past + [NoteOff(c, n)], start)
    ensures forall v :: v in s.rings[c] ==> s.note[v] != n
  {
    hide Pedal, Keep;
    var e := NoteOff(c, n);
    var on := Sounding(past + [e], start)[c];
    SoundingNext(past, e, start);
    assert on == Keep(Sounding(past, start)[c], Times(past, c, n));
    forall i | 0 <= i < |s.rings[c]|
      ensures s.note[s.rings[c][i]] != n
    {
      assert Carries(s.note, s.playing, s.rings[c][i], on[i], past + [e], c, start[c]);
      assert on[i] in Sounding(past, start)[c] && on[i] !in Times(past, c, n);
    }
  }

  /** Any run from the start: all 24 voices stay in the rings, each in exactly one and once, with
      both directions of the links intact; the unused ones are given out in the order in which
      they became unused; and each channel plays exactly the notes that sound, each by the voice
      that carries its number, marked exactly when it waits for the pedal. */
  method Play(p: Player, events: seq<Event>)
    requires p.Sized() && Events(events)
    modifies p.next, p.prev, p.note, p.playing, p.sustain, p`rings, p`owner
    ensures p.Valid() && IsState(p.Current()) && Plays(p.Current(), events, old(p.sustain[..]))
    ensures |p.rings| == 17 && forall v: nat :: v < 24 ==> IsInRing(p.rings, v)
    ensures var s0 := State(seq(CHANNELS, _ => []) + [Count(VOICES)], old(p.note[..]), old(p.playing[..]),
                            old(p.sustain[..]));
            && IsState(s0) && p.Current() == AfterAll(s0, events)
            && Count(VOICES) + FreedAll(s0, events) == GivenAll(s0, events) + p.rings[UNUSED]
  {
    hide Lives, Complete, After, Given, Freed, IsState, Plays;
    p.Init();
    p.Voices();
    ghost var s0 := p.Current();
    NothingPlays(s0);
    assert events[..0] == [];
    for k := 0 to |events|
      invariant p.Valid() && IsState(p.Current()) && Plays(p.Current(), events[..k], s0.sustain)
      invariant AfterAll(p.Current(), events[k..]) == AfterAll(s0, events)
    {
      assert events[k..][0] == events[k] && events[k..][1..] == events[k + 1..];
      assert events[..k + 1] == events[..k] + [events[k]];
      Owners(p);
      StepPlays(p.Current(), p.owner, events[..k], s0.sustain, events[k]);
      Apply(p, events[k]);
      p.Voices();
    }
    assert events[..|events|] == events;
    QueueOfRun(s0, events);
    AllVoices(p);
  }

  ghost predicate IsInRing(rings: seq<seq<nat>>, v: nat) {
    exists r: nat :: r < |rings| && v in rings[r]
  }

  lemma AllVoices(p: Player)
    requires p.Valid()
    ensures |p.rings| == 17 && forall v: nat :: v < 24 ==> IsInRing(p.rings, v)
  {
    forall v: nat | v < 24
      ensures IsInRing(p.rings, v)
    {
      assert v in p.rings[p.owner[v]];
    }
  }

  lemma Owners(p: Player)
    requires p.Valid()
    ensures Owned(p.Current().rings, p.owner)
  {
  }
}
