/** The voices of the MIDI player (lib/midi/midiplay.c): 24 voices in 17 circular doubly linked
    rings, one for each channel and one for the unused voices. A node is named by a number: the
    voices, then the heads of the channels, then the head of the unused voices. */
module MidiVoices {
  const VOICES := 24
  const CHANNELS := 16
  const UNUSED := 16
  const NODES := 41
  const FLOATING := 17
  const NOTE_OFF := 0
  const NOTE_PLAY := 1

  // ---------------------------------------------------------------- sequences

  ghost predicate Distinct(s: seq<nat>) {
    forall i, k :: 0 <= i < k < |s| ==> s[i] != s[k]
  }

  function Remove(s: seq<nat>, i: nat): seq<nat>
    requires i < |s|
  {
    s[..i] + s[i + 1..]
  }

  /** The voices of `s` for which the field `f` is not `x`, in their order. */
  function Without(s: seq<nat>, f: seq<int>, x: int): seq<nat>
    requires forall i :: 0 <= i < |s| ==> s[i] < |f|
  {
    if s == [] then []
    else Without(s[..|s| - 1], f, x) + (if f[s[|s| - 1]] == x then [] else [s[|s| - 1]])
  }

  /** The voices of `s` for which the field `f` is `x`, in their order. */
  function With(s: seq<nat>, f: seq<int>, x: int): seq<nat>
    requires forall i :: 0 <= i < |s| ==> s[i] < |f|
  {
    if s == [] then []
    else With(s[..|s| - 1], f, x) + (if f[s[|s| - 1]] == x then [s[|s| - 1]] else [])
  }

  // ---------------------------------------------------------------- rings

  function Head(r: nat): nat {
    VOICES + r
  }

  /** The `i`-th node round the ring of head `h` and voices `s`; node 0 and the one after the
      last voice are the head. */
  function Node(h: nat, s: seq<nat>, i: nat): nat {
    if 1 <= i <= |s| then s[i - 1] else h
  }

  /** Both directions of the links go round the head and the voices `s`. */
  ghost predicate Ring(next: seq<nat>, prev: seq<nat>, h: nat, s: seq<nat>) {
    && |next| == |prev| == NODES && h < NODES && (forall i :: 0 <= i < |s| ==> s[i] < NODES)
    && forall i: nat :: i <= |s| ==>
         next[Node(h, s, i)] == Node(h, s, i + 1) && prev[Node(h, s, i + 1)] == Node(h, s, i)
  }

  ghost predicate Rings(next: seq<nat>, prev: seq<nat>, rings: seq<seq<nat>>) {
    |rings| == CHANNELS + 1 && forall r: nat :: r < |rings| ==> Ring(next, prev, Head(r), rings[r])
  }

  /** Every voice in a ring belongs to that ring and is there once. */
  ghost predicate Owned(rings: seq<seq<nat>>, owner: seq<nat>) {
    && |owner| == VOICES
    && (forall r :: 0 <= r < |rings| ==> Distinct(rings[r]))
    && forall r, i :: 0 <= r < |rings| && 0 <= i < |rings[r]| ==> rings[r][i] < VOICES && owner[rings[r][i]] == r
  }

  /** Links outside a ring do not matter to it. */
  lemma RingKept(next: seq<nat>, prev: seq<nat>, next': seq<nat>, prev': seq<nat>, h: nat, s: seq<nat>)
    requires Ring(next, prev, h, s) && |next'| == |prev'| == NODES
    requires forall i: nat :: i <= |s| ==>
               next'[Node(h, s, i)] == next[Node(h, s, i)] && prev'[Node(h, s, i)] == prev[Node(h, s, i)]
    ensures Ring(next', prev', h, s)
  {
    forall i: nat | i <= |s|
      ensures next'[Node(h, s, i)] == Node(h, s, i + 1) && prev'[Node(h, s, i + 1)] == Node(h, s, i)
    {
      if i == |s| { assert Node(h, s, i + 1) == Node(h, s, 0); }
    }
  }

  /** Nodes of different rings differ. */
  lemma NodesApart(rings: seq<seq<nat>>, owner: seq<nat>, r: nat, i: nat, q: nat, k: nat)
    requires Owned(rings, owner) && r < |rings| == CHANNELS + 1 && q < |rings| && r != q
    ensures Node(Head(r), rings[r], i) != Node(Head(q), rings[q], k)
  {
  }

  /** Taking a voice out of its ring. */
  lemma Unlinked(next: seq<nat>, prev: seq<nat>, h: nat, s: seq<nat>, i: nat)
    requires Ring(next, prev, h, s) && Distinct(s) && i < |s| && (forall k :: 0 <= k < |s| ==> s[k] != h)
    ensures next[s[i]] < NODES && prev[s[i]] < NODES
    ensures Ring(next[prev[s[i]] := next[s[i]]], prev[next[s[i]] := prev[s[i]]], h, Remove(s, i))
  {
    var v := s[i];
    assert Node(h, s, i + 1) == v;
    assert next[Node(h, s, i)] == v && next[Node(h, s, i + 1)] == Node(h, s, i + 2);
    var next', prev', s' := next[prev[v] := next[v]], prev[next[v] := prev[v]], Remove(s, i);
    forall k: nat | k <= |s'|
      ensures next'[Node(h, s', k)] == Node(h, s', k + 1) && prev'[Node(h, s', k + 1)] == Node(h, s', k)
    {
      var a, b := if k <= i then k else k + 1, if k < i then k + 1 else k + 2;
      assert Node(h, s', k) == Node(h, s, a) && Node(h, s', k + 1) == Node(h, s, b);
      assert next[Node(h, s, a)] == Node(h, s, a + 1) && prev[Node(h, s, b)] == Node(h, s, b - 1);
      if k == i {
      } else {
        assert Node(h, s, a) != Node(h, s, i) && Node(h, s, b) != Node(h, s, i + 2);
      }
    }
  }

  /** Putting a voice at the end of a ring, as `Voice_Off` does. */
  lemma Appended(next: seq<nat>, prev: seq<nat>, h: nat, s: seq<nat>, v: nat)
    requires Ring(next, prev, h, s) && Distinct(s) && (forall k :: 0 <= k < |s| ==> s[k] != h && s[k] != v)
        && v < NODES && v != h
    ensures prev[h] < NODES
    ensures Ring(next[v := h][prev[h] := v], prev[v := prev[h]][h := v], h, s + [v])
  {
    assert next[Node(h, s, |s|)] == Node(h, s, |s| + 1) && prev[Node(h, s, |s| + 1)] == Node(h, s, |s|);
    var next', prev', s' := next[v := h][prev[h] := v], prev[v := prev[h]][h := v], s + [v];
    forall k: nat | k <= |s'|
      ensures next'[Node(h, s', k)] == Node(h, s', k + 1) && prev'[Node(h, s', k + 1)] == Node(h, s', k)
    {
      if k < |s| {
        assert Node(h, s', k) == Node(h, s, k) && Node(h, s', k + 1) == Node(h, s, k + 1);
        assert next[Node(h, s, k)] == Node(h, s, k + 1) && prev[Node(h, s, k + 1)] == Node(h, s, k);
      } else if k == |s| {
        assert Node(h, s', k) == Node(h, s, k) && Node(h, s', k + 1) == v;
      }
    }
  }

  /** Putting a voice at the front of a ring, as `Event_NoteOn` does. */
  lemma Pushed(next: seq<nat>, prev: seq<nat>, h: nat, s: seq<nat>, v: nat)
    requires Ring(next, prev, h, s) && Distinct(s) && (forall k :: 0 <= k < |s| ==> s[k] != h && s[k] != v)
        && v < NODES && v != h
    ensures next[h] < NODES
    ensures Ring(next[v := next[h]][h := v], prev[next[h] := v][v := h], h, [v] + s)
  {
    assert next[Node(h, s, 0)] == Node(h, s, 1) && prev[Node(h, s, 1)] == Node(h, s, 0);
    var next', prev', s' := next[v := next[h]][h := v], prev[next[h] := v][v := h], [v] + s;
    forall k: nat | k <= |s'|
      ensures next'[Node(h, s', k)] == Node(h, s', k + 1) && prev'[Node(h, s', k + 1)] == Node(h, s', k)
    {
      if k > 1 {
        assert Node(h, s', k) == Node(h, s, k - 1) && Node(h, s', k + 1) == Node(h, s, k);
        assert next[Node(h, s, k - 1)] == Node(h, s, k) && prev[Node(h, s, k)] == Node(h, s, k - 1);
      } else if k == 1 {
        assert Node(h, s', 1) == v && Node(h, s', 2) == Node(h, s, 1);
      }
    }
  }

  // ---------------------------------------------------------------- all rings

  ghost predicate Lives(next: seq<nat>, prev: seq<nat>, rings: seq<seq<nat>>, owner: seq<nat>) {
    Rings(next, prev, rings) && Owned(rings, owner)
  }

  /** A change of one ring that touches only its own nodes and a floating voice. */
  lemma OneRing(next: seq<nat>, prev: seq<nat>, next': seq<nat>, prev': seq<nat>, rings: seq<seq<nat>>,
      owner: seq<nat>, r: nat, s': seq<nat>)
    requires Lives(next, prev, rings, owner) && r <= CHANNELS && Ring(next', prev', Head(r), s')
    requires forall n: nat :: n < NODES && (next'[n] != next[n] || prev'[n] != prev[n]) ==>
               (n < VOICES && owner[n] == FLOATING) || exists i: nat :: n == Node(Head(r), rings[r], i)
    ensures Rings(next', prev', rings[r := s'])
  {
    forall q: nat | q <= CHANNELS && q != r
      ensures Ring(next', prev', Head(q), rings[q])
    {
      forall i: nat | i <= |rings[q]|
        ensures next'[Node(Head(q), rings[q], i)] == next[Node(Head(q), rings[q], i)]
        ensures prev'[Node(Head(q), rings[q], i)] == prev[Node(Head(q), rings[q], i)]
      {
        var n := Node(Head(q), rings[q], i);
        forall k: nat
          ensures n != Node(Head(r), rings[r], k)
        {
          NodesApart(rings, owner, q, i, r, k);
        }
      }
      RingKept(next, prev, next', prev', Head(q), rings[q]);
    }
  }

  lemma AllUnlinked(next: seq<nat>, prev: seq<nat>, rings: seq<seq<nat>>, owner: seq<nat>, r: nat, i: nat)
    requires Lives(next, prev, rings, owner) && r <= CHANNELS && i < |rings[r]|
    ensures var v := rings[r][i];
            && v < VOICES && next[v] < NODES && prev[v] < NODES
            && Lives(next[prev[v] := next[v]], prev[next[v] := prev[v]], rings[r := Remove(rings[r], i)],
               owner[v := FLOATING])
  {
    var v, h, s := rings[r][i], Head(r), rings[r];
    Unlinked(next, prev, h, s, i);
    assert Node(h, s, i + 1) == v;
    assert next[Node(h, s, i + 1)] == Node(h, s, i + 2) && next[Node(h, s, i)] == v
        && prev[Node(h, s, i + 1)] == Node(h, s, i);
    OneRing(next, prev, next[prev[v] := next[v]], prev[next[v] := prev[v]], rings, owner, r, Remove(s, i));
    OwnedWithout(rings, owner, r, i);
  }

  lemma OwnedWithout(rings: seq<seq<nat>>, owner: seq<nat>, r: nat, i: nat)
    requires Owned(rings, owner) && r <= CHANNELS < |rings| && i < |rings[r]|
    ensures Owned(rings[r := Remove(rings[r], i)], owner[rings[r][i] := FLOATING])
  {
  }

  lemma AllAppended(next: seq<nat>, prev: seq<nat>, rings: seq<seq<nat>>, owner: seq<nat>, r: nat, v: nat)
    requires Lives(next, prev, rings, owner) && r <= CHANNELS && v < VOICES && owner[v] == FLOATING
    ensures var h := Head(r);
            && h < NODES && prev[h] < NODES
            && Lives(next[v := h][prev[h] := v], prev[v := prev[h]][h := v], rings[r := rings[r] + [v]], owner[v := r])
  {
    var h, s := Head(r), rings[r];
    Appended(next, prev, h, s, v);
    assert next[Node(h, s, |s|)] == Node(h, s, |s| + 1) && prev[Node(h, s, |s| + 1)] == Node(h, s, |s|);
    assert h == Node(h, s, 0);
    OneRing(next, prev, next[v := h][prev[h] := v], prev[v := prev[h]][h := v], rings, owner, r, s + [v]);
  }

  lemma AllPushed(next: seq<nat>, prev: seq<nat>, rings: seq<seq<nat>>, owner: seq<nat>, r: nat, v: nat)
    requires Lives(next, prev, rings, owner) && r <= CHANNELS && v < VOICES && owner[v] == FLOATING
    ensures var h := Head(r);
            && h < NODES && next[h] < NODES
            && Lives(next[v := next[h]][h := v], prev[next[h] := v][v := h], rings[r := [v] + rings[r]], owner[v := r])
  {
    var h, s := Head(r), rings[r];
    Pushed(next, prev, h, s, v);
    assert next[Node(h, s, 0)] == Node(h, s, 1);
    assert h == Node(h, s, 0);
    OneRing(next, prev, next[v := next[h]][h := v], prev[next[h] := v][v := h], rings, owner, r, [v] + s);
  }

  /** Every voice is in a ring. */
  ghost predicate Complete(rings: seq<seq<nat>>, owner: seq<nat>) {
    forall v: nat :: v < |owner| ==> owner[v] < |rings| && v in rings[owner[v]]
  }

  /** A voice that goes from one ring to the end of another. */
  lemma CompleteMoved(rings: seq<seq<nat>>, owner: seq<nat>, r: nat, i: nat, q: nat)
    requires Owned(rings, owner) && Complete(rings, owner) && |rings| == CHANNELS + 1
    requires r <= CHANNELS && q <= CHANNELS && r != q && i < |rings[r]|
    ensures var v := rings[r][i];
            var out := rings[r := Remove(rings[r], i)];
            && Complete(out[q := out[q] + [v]], owner[v := q]) && Complete(out[q := [v] + out[q]], owner[v := q])
  {
    var v := rings[r][i];
    var out := rings[r := Remove(rings[r], i)];
    forall w: nat | w < VOICES && w != v && owner[w] == r
      ensures w in out[r]
    {
      var k :| 0 <= k < |rings[r]| && rings[r][k] == w;
      assert out[r][if k < i then k else k - 1] == w;
    }
    assert v in out[q] + [v] && v in [v] + out[q];
  }

  // ---------------------------------------------------------------- what the events do

  /** The voices in use and unused, and the fields that decide about them. */
  datatype State = State(rings: seq<seq<nat>>, note: seq<int>, playing: seq<int>, sustain: seq<bool>)

  ghost predicate IsState(s: State) {
    && |s.rings| == CHANNELS + 1 && |s.note| == |s.playing| == VOICES && |s.sustain| == CHANNELS
    && forall r, i :: 0 <= r < |s.rings| && 0 <= i < |s.rings[r]| ==> s.rings[r][i] < VOICES
  }

  datatype Event = NoteOff(c: nat, n: int) | NoteOn(c: nat, n: int) | SoundOff(c: nat) | MuteNotes(c: nat)
                 | Sustain(c: nat, on: bool) | Reset(c: nat)

  /** The field `playing` when it is set to `x` for the voices of `ring` with note `n`. */
  ghost function Set(playing: seq<int>, ring: seq<nat>, note: seq<int>, n: int, x: int): (r: seq<int>)
    requires |note| == |playing|
    ensures |r| == |playing|
  {
    seq(|playing|, v requires 0 <= v < |playing| => if v in ring && note[v] == n then x else playing[v])
  }

  ghost function SetAll(playing: seq<int>, ring: seq<nat>, x: int): (r: seq<int>)
    ensures |r| == |playing|
  {
    seq(|playing|, v requires 0 <= v < |playing| => if v in ring then x else playing[v])
  }

  /** The voices of channel `c` for which `f` is `x` go to the end of the unused ones, in their
      order, and the others stay in theirs. */
  ghost function Released(rings: seq<seq<nat>>, c: nat, f: seq<int>, x: int): (r: seq<seq<nat>>)
    requires |rings| == CHANNELS + 1 && c < CHANNELS && forall i :: 0 <= i < |rings[c]| ==> rings[c][i] < |f|
    ensures |r| == |rings|
  {
    rings[c := Without(rings[c], f, x)][UNUSED := rings[UNUSED] + With(rings[c], f, x)]
  }

  ghost function AllReleased(rings: seq<seq<nat>>, c: nat): (r: seq<seq<nat>>)
    requires |rings| == CHANNELS + 1 && c < CHANNELS
  {
    rings[c := []][UNUSED := rings[UNUSED] + rings[c]]
  }

  ghost function After(s: State, e: Event): (r: State)
    requires IsState(s) && e.c < CHANNELS
  {
    var ring, unused := s.rings[e.c], s.rings[UNUSED];
    match e
    case NoteOff(c, n) =>
      if s.sustain[c] then s.(playing := Set(s.playing, ring, s.note, n, NOTE_OFF))
      else s.(rings := Released(s.rings, c, s.note, n))
    case NoteOn(c, n) =>
      var playing := Set(s.playing, ring, s.note, n, NOTE_PLAY);
      if unused == [] then s.(playing := playing)
      else
        var v := unused[0];
        State(s.rings[c := [v] + ring][UNUSED := unused[1..]], s.note[v := n], playing[v := NOTE_PLAY], s.sustain)
    case SoundOff(c) => s.(rings := AllReleased(s.rings, c))
    case MuteNotes(c) =>
      if s.sustain[c] then s.(playing := SetAll(s.playing, ring, NOTE_OFF)) else s.(rings := AllReleased(s.rings, c))
    case Sustain(c, on) =>
      if on then s.(sustain := s.sustain[c := true])
      else s.(sustain := s.sustain[c := false], rings := Released(s.rings, c, s.playing, NOTE_OFF))
    case Reset(c) => s.(sustain := s.sustain[c := false])
  }

  /** The rings when the first `k` voices of channel `c` have been looked at: those for which
      `f` is `x` have been released, unless all are kept. */
  ghost function RingsAt(rings0: seq<seq<nat>>, c: nat, f: seq<int>, x: int, k: nat, keep: bool): (r: seq<seq<nat>>)
    requires |rings0| == CHANNELS + 1 && c < CHANNELS && k <= |rings0[c]|
    requires forall i :: 0 <= i < |rings0[c]| ==> rings0[c][i] < |f|
    ensures |r| == |rings0|
  {
    var s0 := rings0[c];
    if keep then rings0
    else rings0[c := Without(s0[..k], f, x) + s0[k..]][UNUSED := rings0[UNUSED] + With(s0[..k], f, x)]
  }

  /** How many of them are still in the ring. */
  ghost function PlaceAt(s0: seq<nat>, f: seq<int>, x: int, k: nat, keep: bool): nat
    requires k <= |s0| && forall i :: 0 <= i < |s0| ==> s0[i] < |f|
  {
    if keep then k else |Without(s0[..k], f, x)|
  }

  lemma AtStart(rings0: seq<seq<nat>>, c: nat, f: seq<int>, x: int, keep: bool)
    requires |rings0| == CHANNELS + 1 && c < CHANNELS && forall i :: 0 <= i < |rings0[c]| ==> rings0[c][i] < |f|
    ensures RingsAt(rings0, c, f, x, 0, keep) == rings0 && PlaceAt(rings0[c], f, x, 0, keep) == 0
  {
    var s0 := rings0[c];
    assert Without(s0[..0], f, x) + s0[0..] == s0 && rings0[UNUSED] + With(s0[..0], f, x) == rings0[UNUSED];
    assert rings0[c := s0][UNUSED := rings0[UNUSED]] == rings0;
  }

  lemma AtEnd(rings0: seq<seq<nat>>, c: nat, f: seq<int>, x: int, keep: bool)
    requires |rings0| == CHANNELS + 1 && c < CHANNELS && forall i :: 0 <= i < |rings0[c]| ==> rings0[c][i] < |f|
    ensures RingsAt(rings0, c, f, x, |rings0[c]|, keep) == if keep then rings0 else Released(rings0, c, f, x)
  {
    var s0 := rings0[c];
    assert s0[..|s0|] == s0 && Without(s0, f, x) + [] == Without(s0, f, x);
  }

  lemma PrefixStep(s0: seq<nat>, f: seq<int>, x: int, k: nat)
    requires k < |s0| && forall i :: 0 <= i < |s0| ==> s0[i] < |f|
    ensures Without(s0[..k + 1], f, x) == Without(s0[..k], f, x) + (if f[s0[k]] == x then [] else [s0[k]])
    ensures With(s0[..k + 1], f, x) == With(s0[..k], f, x) + (if f[s0[k]] == x then [s0[k]] else [])
  {
    assert s0[..k + 1][..k] == s0[..k];
  }

  /** One voice looked at. */
  lemma AtStep(rings0: seq<seq<nat>>, c: nat, f: seq<int>, x: int, k: nat, keep: bool)
    requires |rings0| == CHANNELS + 1 && c < CHANNELS && k < |rings0[c]|
    requires forall i :: 0 <= i < |rings0[c]| ==> rings0[c][i] < |f|
    ensures var s0, j := rings0[c], PlaceAt(rings0[c], f, x, k, keep);
            var r, r' := RingsAt(rings0, c, f, x, k, keep), RingsAt(rings0, c, f, x, k + 1, keep);
            var j' := if keep || f[s0[k]] != x then j + 1 else j;
            && j < |r[c]| && r[c][j] == s0[k]
            && r' == (if keep || f[s0[k]] != x then r else r[c := Remove(r[c], j)][UNUSED := r[UNUSED] + [s0[k]]])
            && PlaceAt(s0, f, x, k + 1, keep) == j'
            && (if k + 1 < |s0| then j' < |r'[c]| && r'[c][j'] == s0[k + 1] else j' == |r'[c]|)
  {
    hide Without, With;
    var s0 := rings0[c];
    PrefixStep(s0, f, x, k);
    var kept, gone := Without(s0[..k], f, x), With(s0[..k], f, x);
    assert s0[k..] == [s0[k]] + s0[k + 1..];
    if !keep {
      if f[s0[k]] == x {
        assert Remove(kept + s0[k..], |kept|) == kept + s0[k + 1..] && kept + [] == kept;
        assert rings0[UNUSED] + gone + [s0[k]] == rings0[UNUSED] + (gone + [s0[k]]);
      } else {
        assert kept + s0[k..] == kept + [s0[k]] + s0[k + 1..] && gone + [] == gone;
      }
    }
  }

  lemma SetNothing(p0: seq<int>, f: seq<int>, n: int, x: int)
    requires |p0| == |f|
    ensures Set(p0, [], f, n, x) == p0
  {
  }

  lemma SetStep(p0: seq<int>, s0: seq<nat>, f: seq<int>, n: int, x: int, k: nat)
    requires |p0| == |f| && k < |s0| && forall i :: 0 <= i < |s0| ==> s0[i] < |f|
    ensures Set(p0, s0[..k + 1], f, n, x)
            == if f[s0[k]] == n then Set(p0, s0[..k], f, n, x)[s0[k] := x] else Set(p0, s0[..k], f, n, x)
  {
    assert s0[..k + 1] == s0[..k] + [s0[k]];
  }

  lemma NodeOf(h: nat, s: seq<nat>, i: nat)
    requires i < |s|
    ensures Node(h, s, i + 1) == s[i]
  {
  }

  lemma NodeBefore(h: nat, s: seq<nat>, i: nat)
    requires i < |s|
    ensures Node(h, Remove(s, i), i) == Node(h, s, i)
  {
  }

  lemma NodeOfHead(h: nat, s: seq<nat>)
    ensures Node(h, s, 0) == h
  {
  }

  // ---------------------------------------------------------------- the player

  class Player {
    const next: array<nat>
    const prev: array<nat>
    const note: array<int>
    const playing: array<int>
    const sustain: array<bool>
    ghost var rings: seq<seq<nat>>
    ghost var owner: seq<nat>

    ghost predicate Sized()
      reads this
    {
      && next.Length == prev.Length == NODES && note.Length == playing.Length == VOICES && sustain.Length == CHANNELS
      && next != prev && note != playing
    }

    ghost predicate Valid()
      reads this, next, prev
    {
      Sized() && Lives(next[..], prev[..], rings, owner) && Complete(rings, owner)
    }

    ghost function Current(): (s: State)
      reads this, note, playing, sustain
    {
      State(rings, note[..], playing[..], sustain[..])
    }

    /** `Voice_Off`: from its place in a channel to the end of the unused voices. */
    method VoiceOff(v: nat, ghost r: nat, ghost i: nat)
      requires Valid() && r < CHANNELS && i < |rings[r]| && v == rings[r][i]
      modifies next, prev, this`rings, this`owner
      ensures Valid()
      ensures rings == old(rings)[r := Remove(old(rings)[r], i)][UNUSED := old(rings)[UNUSED] + [v]]
    {
      hide Lives, Complete, Remove;
      ghost var n0, p0 := next[..], prev[..];
      AllUnlinked(n0, p0, rings, owner, r, i);
      Linked(n0, p0, rings, owner, r, i);
      next[prev[v]] := next[v];
      prev[next[v]] := prev[v];
      ghost var n1, p1, rings1, owner1 := next[..], prev[..], rings[r := Remove(rings[r], i)], owner[v := FLOATING];
      assert n1 == n0[p0[v] := n0[v]] && p1 == p0[n0[v] := p0[v]];
      AllAppended(n1, p1, rings1, owner1, UNUSED, v);
      var unused := Head(UNUSED);
      next[v] := unused;
      prev[v] := prev[unused];
      prev[unused] := v;
      next[prev[v]] := v;
      CompleteMoved(rings, owner, r, i, UNUSED);
      ghost var n2: seq<nat>, p2: seq<nat> := n1[v := unused], p1[v := p1[unused]];
      assert next[..] == n2[p1[unused] := v] && prev[..] == p2[unused := v];
      rings := rings1[UNUSED := rings1[UNUSED] + [v]];
      owner := owner1[v := UNUSED];
      assert owner == old(owner)[v := UNUSED];
    }

    lemma Linked(n: seq<nat>, p: seq<nat>, rs: seq<seq<nat>>, ow: seq<nat>, r: nat, i: nat)
      requires Lives(n, p, rs, ow) && r <= CHANNELS && i < |rs[r]|
      ensures |n| == |p| == NODES && rs[r][i] < VOICES && n[rs[r][i]] < NODES && p[rs[r][i]] < NODES
      ensures p[rs[r][i]] != rs[r][i] && Owned(rs, ow) && |rs| == CHANNELS + 1 && |ow| == VOICES
    {
      AllUnlinked(n, p, rs, ow, r, i);
      assert p[Node(Head(r), rs[r], i + 1)] == Node(Head(r), rs[r], i);
    }

    /** Going round a ring. */
    lemma Around(r: nat, k: nat)
      requires Valid() && r <= CHANNELS && k <= |rings[r]|
      ensures var h, s := Head(r), rings[r];
              && h < NODES && Node(h, s, k) < NODES && Node(h, s, k + 1) < NODES
              && next[Node(h, s, k)] == Node(h, s, k + 1) && prev[Node(h, s, k + 1)] == Node(h, s, k)
              && (if k < |s| then Node(h, s, k + 1) == s[k] < VOICES else Node(h, s, k + 1) == h)
    {
      var h, s := Head(r), rings[r];
      assert Ring(next[..], prev[..], h, s);
      assert next[..][Node(h, s, k)] == Node(h, s, k + 1) && prev[..][Node(h, s, k + 1)] == Node(h, s, k);
    }

    lemma Voices()
      requires Valid()
      ensures IsState(Current())
    {
    }

    /** The step of an iteration from node `j`, which a removal may have left in place of `j + 1`. */
    method Onward(v: nat, c: nat, ghost j: nat) returns (v': nat)
      requires Valid() && c < CHANNELS && j <= |rings[c]| && v == Node(Head(c), rings[c], j)
      ensures v' == Node(Head(c), rings[c], j + 1)
      ensures if j < |rings[c]| then v' == rings[c][j] < VOICES else v' == Head(c)
    {
      Around(c, j);
      v' := next[v];
    }

    /** Releases the voice at node `j + 1` and stays at node `j` (`voice = voice->prev` and
        `Voice_Off(voice->next)`). */
    method ReleaseHere(v: nat, c: nat, ghost j: nat) returns (v': nat)
      requires Valid() && c < CHANNELS && j < |rings[c]| && v == rings[c][j]
      modifies next, prev, this`rings, this`owner
      ensures Valid() && v' == Node(Head(c), rings[c], j)
      ensures rings == old(rings)[c := Remove(old(rings)[c], j)][UNUSED := old(rings)[UNUSED] + [v]]
    {
      hide Lives, Complete;
      Around(c, j);
      Voices();
      v' := prev[v];
      NodeBefore(Head(c), rings[c], j);
      VoiceOff(next[v'], c, j);
    }

    /** `Event_NoteOff`. */
    method EventNoteOff(c: nat, n: int)
      requires Valid() && c < CHANNELS
      modifies next, prev, playing, this`rings, this`owner
      ensures Valid() && old(IsState(Current())) && Current() == After(old(Current()), NoteOff(c, n))
    {
      hide Lives, Complete, Without, With, Node, RingsAt, PlaceAt, Set, Remove, Released;
      Voices();
      var head := Head(c);
      ghost var rings0, s0, p0, f, k, keep := rings, rings[c], playing[..], note[..], 0, sustain[c];
      AtStart(rings0, c, f, n, keep);
      SetNothing(p0, f, n, NOTE_OFF);
      assert s0[..0] == [];
      NodeOfHead(head, rings[c]);
      var v := Onward(head, c, 0);
      while v != head
        invariant Valid() && 0 <= k <= |s0|
        invariant rings == RingsAt(rings0, c, f, n, k, keep)
        invariant v == if k < |s0| then s0[k] else head
        invariant playing[..] == if keep then Set(p0, s0[..k], f, n, NOTE_OFF) else p0
        decreases |s0| - k
      {
        ghost var j := PlaceAt(s0, f, n, k, keep);
        AtStep(rings0, c, f, n, k, keep);
        NodeOf(head, rings[c], j);
        SetStep(p0, s0, f, n, NOTE_OFF, k);
        if note[v] == n && !sustain[c] {
          v := ReleaseHere(v, c, j);
        } else {
          if note[v] == n { playing[v] := NOTE_OFF; }
          j := j + 1;
        }
        v := Onward(v, c, j);
        k := k + 1;
      }
      AtEnd(rings0, c, f, n, keep);
      assert s0[..k] == s0;
    }

    /** `Event_Sustain`. When the pedal goes up, the voices whose notes have ended meanwhile are
        released. */
    method EventSustain(c: nat, value: int)
      requires Valid() && c < CHANNELS
      modifies next, prev, sustain, this`rings, this`owner
      ensures Valid() && old(IsState(Current())) && Current() == After(old(Current()), Sustain(c, value >= 64))
    {
      hide Lives, Complete, Without, With, Node, RingsAt, PlaceAt, Set, Remove, Released;
      Voices();
      sustain[c] := value >= 64;
      assert sustain[..] == old(sustain[..])[c := value >= 64];
      if sustain[c] { return; }
      var head := Head(c);
      ghost var rings0, s0, f, k := rings, rings[c], playing[..], 0;
      AtStart(rings0, c, f, NOTE_OFF, false);
      NodeOfHead(head, rings[c]);
      var v := Onward(head, c, 0);
      while v != head
        invariant Valid() && 0 <= k <= |s0|
        invariant rings == RingsAt(rings0, c, f, NOTE_OFF, k, false)
        invariant sustain[..] == old(sustain[..])[c := value >= 64]
        invariant v == if k < |s0| then s0[k] else head
        decreases |s0| - k
      {
        ghost var j := PlaceAt(s0, f, NOTE_OFF, k, false);
        AtStep(rings0, c, f, NOTE_OFF, k, false);
        NodeOf(head, rings[c], j);
        if playing[v] == NOTE_OFF {
          v := ReleaseHere(v, c, j);
        } else {
          j := j + 1;
        }
        v := Onward(v, c, j);
        k := k + 1;
      }
      assert k == |s0| && note[..] == old(note[..]) && playing[..] == f;
      AtEnd(rings0, c, f, NOTE_OFF, false);
    }

    /** Releases all voices of a channel, from the first on (`AllSoundOff`, and `Event_MuteNotes`
        when nothing is sustained). */
    method ReleaseAll(c: nat)
      requires Valid() && c < CHANNELS
      modifies next, prev, this`rings, this`owner
      ensures Valid() && old(IsState(Current())) && rings == AllReleased(old(rings), c)
    {
      hide Lives, Complete, Node;
      Voices();
      var head := Head(c);
      ghost var rings0, s0, k := rings, rings[c], 0;
      AllStart(rings0, c);
      NodeOfHead(head, rings[c]);
      var v := Onward(head, c, 0);
      while v != head
        invariant Valid() && 0 <= k <= |s0|
        invariant rings == rings0[c := s0[k..]][UNUSED := rings0[UNUSED] + s0[..k]]
        invariant v == if k < |s0| then s0[k] else head
        decreases |s0| - k
      {
        assert rings[c][0] == s0[k];
        VoiceOff(v, c, 0);
        AllStep(rings0, c, k);
        k := k + 1;
        NodeOfHead(head, rings[c]);
        v := Onward(head, c, 0);
      }
      assert s0[..k] == s0 && s0[k..] == [];
    }

    method AllSoundOff(c: nat)
      requires Valid() && c < CHANNELS
      modifies next, prev, this`rings, this`owner
      ensures Valid() && old(IsState(Current())) && Current() == After(old(Current()), SoundOff(c))
    {
      ReleaseAll(c);
    }

    /** `Event_MuteNotes`. */
    method EventMuteNotes(c: nat)
      requires Valid() && c < CHANNELS
      modifies next, prev, playing, this`rings, this`owner
      ensures Valid() && old(IsState(Current())) && Current() == After(old(Current()), MuteNotes(c))
    {
      hide Lives, Complete, Node, AllReleased, SetAll;
      Voices();
      if !sustain[c] {
        ReleaseAll(c);
        return;
      }
      var head := Head(c);
      ghost var s0, p0, k := rings[c], playing[..], 0;
      SetAllNothing(p0, NOTE_OFF);
      assert s0[..0] == [];
      NodeOfHead(head, rings[c]);
      var v := Onward(head, c, 0);
      while v != head
        invariant Valid() && 0 <= k <= |s0| && rings == old(rings)
        invariant v == if k < |s0| then s0[k] else head
        invariant playing[..] == SetAll(p0, s0[..k], NOTE_OFF)
        decreases |s0| - k
      {
        SetAllStep(p0, s0, NOTE_OFF, k);
        NodeOf(head, s0, k);
        playing[v] := NOTE_OFF;
        v := Onward(v, c, k + 1);
        k := k + 1;
      }
      assert s0[..k] == s0;
    }

    /** `ResetControllers`: the pedal goes up without releasing any voice. */
    method ResetControllers(c: nat)
      requires Valid() && c < CHANNELS
      modifies sustain
      ensures Valid() && old(IsState(Current())) && Current() == After(old(Current()), Reset(c))
    {
      Voices();
      sustain[c] := false;
    }

    /** `Event_NoteOn`: the voices that play the note already are played again, and the voice
        unused for longest, if there is one, becomes the first of the channel. */
    method EventNoteOn(c: nat, n: int)
      requires Valid() && c < CHANNELS
      modifies next, prev, note, playing, this`rings, this`owner
      ensures Valid() && old(IsState(Current())) && Current() == After(old(Current()), NoteOn(c, n))
      ensures |rings| == |old(rings)| == CHANNELS + 1
      ensures old(rings)[UNUSED] != [] ==>
                var v := old(rings)[UNUSED][0];
                v < VOICES && rings[c] == [v] + old(rings)[c] && note[v] == n && playing[v] == NOTE_PLAY
    {
      hide Lives, Complete, Node, Set;
      Voices();
      PlayAgain(c, n);
      Around(UNUSED, 0);
      NodeOfHead(Head(UNUSED), rings[UNUSED]);
      var v := next[Head(UNUSED)];
      if v == Head(UNUSED) { return; }
      TakeUnused(c, v);
      note[v] := n;
      playing[v] := NOTE_PLAY;
    }

    method PlayAgain(c: nat, n: int)
      requires Valid() && c < CHANNELS
      modifies playing
      ensures Valid() && old(IsState(Current()))
      ensures playing[..] == Set(old(playing[..]), rings[c], note[..], n, NOTE_PLAY)
    {
      hide Lives, Complete, Node, Set;
      Voices();
      var head := Head(c);
      ghost var s0, p0, k := rings[c], playing[..], 0;
      SetNothing(p0, note[..], n, NOTE_PLAY);
      assert s0[..0] == [];
      NodeOfHead(head, rings[c]);
      var v := Onward(head, c, 0);
      while v != head
        invariant Valid() && 0 <= k <= |s0|
        invariant v == if k < |s0| then s0[k] else head
        invariant playing[..] == Set(p0, s0[..k], note[..], n, NOTE_PLAY)
        decreases |s0| - k
      {
        SetStep(p0, s0, note[..], n, NOTE_PLAY, k);
        NodeOf(head, s0, k);
        if note[v] == n { playing[v] := NOTE_PLAY; }
        v := Onward(v, c, k + 1);
        k := k + 1;
      }
      assert s0[..k] == s0;
    }

    /** From the front of the unused voices to the front of a channel. */
    method TakeUnused(c: nat, v: nat)
      requires Valid() && c < CHANNELS && |rings| == CHANNELS + 1 && rings[UNUSED] != [] && v == rings[UNUSED][0]
      modifies next, prev, this`rings, this`owner
      ensures Valid() && |old(rings)[UNUSED]| > 0
      ensures rings == old(rings)[c := [v] + old(rings)[c]][UNUSED := old(rings)[UNUSED][1..]]
    {
      hide Lives, Complete, Remove;
      var unused, head := Head(UNUSED), Head(c);
      ghost var n0, p0 := next[..], prev[..];
      Linked(n0, p0, rings, owner, UNUSED, 0);
      AllUnlinked(n0, p0, rings, owner, UNUSED, 0);
      Around(UNUSED, 0);
      NodeOf(unused, rings[UNUSED], 0);
      NodeOfHead(unused, rings[UNUSED]);
      next[unused] := next[v];
      prev[next[v]] := unused;
      ghost var n1, p1, rings1, owner1 := next[..], prev[..], rings[UNUSED := Remove(rings[UNUSED], 0)],
          owner[v := FLOATING];
      assert n1 == n0[p0[v] := n0[v]] && p1 == p0[n0[v] := p0[v]];
      AllPushed(n1, p1, rings1, owner1, c, v);
      next[v] := next[head];
      prev[next[v]] := v;
      next[head] := v;
      prev[v] := head;
      CompleteMoved(rings, owner, UNUSED, 0, c);
      ghost var n2: seq<nat>, p2: seq<nat> := n1[v := n1[head]], p1[n1[head] := v];
      assert next[..] == n2[head := v] && prev[..] == p2[v := head];
      RemoveFirst(rings[UNUSED]);
      rings := rings1[c := [v] + rings1[c]];
      owner := owner1[v := c];
      assert owner == old(owner)[v := c];
    }

    constructor ()
      ensures Sized() && fresh(next) && fresh(prev) && fresh(note) && fresh(playing) && fresh(sustain)
    {
      next := new nat[NODES](_ => 0);
      prev := new nat[NODES](_ => 0);
      note := new int[VOICES](_ => 0);
      playing := new int[VOICES](_ => 0);
      sustain := new bool[CHANNELS](_ => false);
    }

    /** The first loop of `Midiplay_Init`: all voices are unused. */
    method InitUnused()
      requires Sized()
      modifies next, prev
      ensures Ring(next[..], prev[..], Head(UNUSED), Count(VOICES))
    {
      hide Ring, Node, Count;
      var unused := Head(UNUSED);
      next[unused] := unused;
      prev[unused] := unused;
      NoVoices(next[..], prev[..], unused);
      var v := 0;
      while v < VOICES
        invariant 0 <= v <= VOICES && Ring(next[..], prev[..], unused, Count(v))
      {
        ghost var n0, p0 := next[..], prev[..];
        Appended(n0, p0, unused, Count(v), v);
        CountStep(v);
        next[v] := unused;
        prev[v] := prev[unused];
        prev[unused] := v;
        next[prev[v]] := v;
        ghost var n1: seq<nat>, p1: seq<nat> := n0[v := unused], p0[v := p0[unused]];
        assert next[..] == n1[p0[unused] := v] && prev[..] == p1[unused := v];
        v := v + 1;
      }
    }

    /** The rings of `Midiplay_Init`: all voices are unused, in their order, and no channel has
        any. */
    method Init()
      requires Sized()
      modifies next, prev, this`rings, this`owner
      ensures Valid() && rings == seq(CHANNELS, _ => []) + [Count(VOICES)]
    {
      hide Ring, Node, Count, Owned, Complete;
      var unused := Head(UNUSED);
      InitUnused();
      var c := 0;
      while c < CHANNELS
        invariant 0 <= c <= CHANNELS && Ring(next[..], prev[..], unused, Count(VOICES))
        invariant forall r: nat :: r < c ==> Ring(next[..], prev[..], Head(r), [])
      {
        ghost var n0, p0 := next[..], prev[..];
        next[Head(c)] := Head(c);
        prev[Head(c)] := Head(c);
        NoVoices(next[..], prev[..], Head(c));
        OtherHead(n0, p0, unused, Count(VOICES), Head(c));
        forall r: nat | r < c
          ensures Ring(next[..], prev[..], Head(r), [])
        {
          OtherHead(n0, p0, Head(r), [], Head(c));
        }
        c := c + 1;
      }
      rings := seq(CHANNELS, _ => []) + [Count(VOICES)];
      owner := seq(VOICES, _ => UNUSED);
      AllUnused(owner);
    }
  }

  lemma NoVoices(next: seq<nat>, prev: seq<nat>, h: nat)
    requires |next| == |prev| == NODES && h < NODES && next[h] == h && prev[h] == h
    ensures Ring(next, prev, h, []) && Count(0) == []
  {
  }

  /** The head of one ring does not matter to another. */
  lemma OtherHead(next: seq<nat>, prev: seq<nat>, h: nat, s: seq<nat>, g: nat)
    requires Ring(next, prev, h, s) && VOICES <= g < NODES && g != h && forall i :: 0 <= i < |s| ==> s[i] < VOICES
    ensures |next| == |prev| == NODES && Ring(next[g := g], prev[g := g], h, s)
  {
    RingKept(next, prev, next[g := g], prev[g := g], h, s);
  }

  lemma CountStep(v: nat)
    ensures Count(v + 1) == Count(v) + [v]
  {
  }

  lemma AllUnused(owner: seq<nat>)
    requires |owner| == VOICES && forall v :: 0 <= v < VOICES ==> owner[v] == UNUSED
    ensures Owned(seq(CHANNELS, _ => []) + [Count(VOICES)], owner)
        && Complete(seq(CHANNELS, _ => []) + [Count(VOICES)], owner)
  {
    forall v: nat | v < VOICES
      ensures v in Count(VOICES)
    {
      assert Count(VOICES)[v] == v;
    }
  }

  /** 0, 1, ... */
  function Count(n: nat): (s: seq<nat>)
    ensures |s| == n && forall i :: 0 <= i < n ==> s[i] == i
  {
    if n == 0 then [] else Count(n - 1) + [n - 1]
  }

  // ---------------------------------------------------------------- what holds of every run

  /** The voices that an event takes from the unused ones. */
  ghost function Given(s: State, e: Event): seq<nat>
    requires IsState(s)
  {
    if e.NoteOn? && s.rings[UNUSED] != [] then [s.rings[UNUSED][0]] else []
  }

  /** The voices that an event releases, in order. */
  ghost function Freed(s: State, e: Event): seq<nat>
    requires IsState(s) && e.c < CHANNELS
  {
    match e
    case NoteOff(c, n) => if s.sustain[c] then [] else With(s.rings[c], s.note, n)
    case NoteOn(_, _) => []
    case SoundOff(c) => s.rings[c]
    case MuteNotes(c) => if s.sustain[c] then [] else s.rings[c]
    case Sustain(c, on) => if on then [] else With(s.rings[c], s.playing, NOTE_OFF)
    case Reset(_) => []
  }

  lemma StaysState(s: State, e: Event)
    requires IsState(s) && e.c < CHANNELS
    ensures IsState(After(s, e))
  {
    hide Set, SetAll, With, Without;
    if e.NoteOff? { InnerVoices(s.rings[e.c], s.note, e.n); }
    if e.Sustain? { InnerVoices(s.rings[e.c], s.playing, NOTE_OFF); }
  }

  /** Unused voices wait in a queue: released ones join at its end, the ones given out leave from
      its front. */
  lemma Queue(s: State, e: Event)
    requires IsState(s) && e.c < CHANNELS
    ensures IsState(After(s, e)) && s.rings[UNUSED] + Freed(s, e) == Given(s, e) + After(s, e).rings[UNUSED]
  {
    StaysState(s, e);
    hide Set, SetAll, With, Without, IsState;
    if e.NoteOn? && s.rings[UNUSED] != [] {
      assert s.rings[UNUSED] == [s.rings[UNUSED][0]] + s.rings[UNUSED][1..];
    }
  }

  lemma {:induction false} InnerVoices(s: seq<nat>, f: seq<int>, x: int)
    requires forall i :: 0 <= i < |s| ==> s[i] < |f|
    ensures forall i :: 0 <= i < |With(s, f, x)| ==> With(s, f, x)[i] < |f| && f[With(s, f, x)[i]] == x
    ensures forall i :: 0 <= i < |Without(s, f, x)| ==> Without(s, f, x)[i] < |f| && f[Without(s, f, x)[i]] != x
    decreases |s|
  {
    if s != [] { InnerVoices(s[..|s| - 1], f, x); }
  }

  /** No voice is lost or doubled: those that stay and those that go make up the ring. */
  lemma {:induction false} NothingLost(s: seq<nat>, f: seq<int>, x: int)
    requires forall i :: 0 <= i < |s| ==> s[i] < |f|
    ensures multiset(Without(s, f, x)) + multiset(With(s, f, x)) == multiset(s)
    decreases |s|
  {
    if s != [] {
      var s', v := s[..|s| - 1], s[|s| - 1];
      NothingLost(s', f, x);
      assert s == s' + [v];
      assert multiset(s) == multiset(s') + multiset{v};
      assert Without(s, f, x) == Without(s', f, x) + (if f[v] == x then [] else [v]);
      assert With(s, f, x) == With(s', f, x) + (if f[v] == x then [v] else []);
    }
  }

  /** The voices that stay keep their order. */
  lemma {:induction false} OrderKept(s: seq<nat>, f: seq<int>, x: int, i: nat, k: nat) returns (a: nat, b: nat)
    requires (forall i :: 0 <= i < |s| ==> s[i] < |f|) && i < k < |Without(s, f, x)|
    ensures a < b < |s| && s[a] == Without(s, f, x)[i] && s[b] == Without(s, f, x)[k]
    decreases |s|
  {
    var s' := s[..|s| - 1];
    if k < |Without(s', f, x)| {
      a, b := OrderKept(s', f, x, i, k);
    } else {
      a := Found(s', f, x, i);
      b := |s| - 1;
    }
  }

  lemma {:induction false} Found(s: seq<nat>, f: seq<int>, x: int, i: nat) returns (a: nat)
    requires (forall i :: 0 <= i < |s| ==> s[i] < |f|) && i < |Without(s, f, x)|
    ensures a < |s| && s[a] == Without(s, f, x)[i]
    decreases |s|
  {
    var s' := s[..|s| - 1];
    if i < |Without(s', f, x)| { a := Found(s', f, x, i); } else { a := |s| - 1; }
  }

  ghost predicate Events(events: seq<Event>) {
    forall k :: 0 <= k < |events| ==> events[k].c < CHANNELS
  }

  ghost function AfterAll(s: State, events: seq<Event>): (r: State)
    requires IsState(s) && Events(events)
    ensures IsState(r)
    decreases |events|
  {
    if events == [] then s
    else
      Queue(s, events[0]);
      AfterAll(After(s, events[0]), events[1..])
  }

  ghost function GivenAll(s: State, events: seq<Event>): seq<nat>
    requires IsState(s) && Events(events)
    decreases |events|
  {
    if events == [] then []
    else
      Queue(s, events[0]);
      Given(s, events[0]) + GivenAll(After(s, events[0]), events[1..])
  }

  ghost function FreedAll(s: State, events: seq<Event>): seq<nat>
    requires IsState(s) && Events(events)
    decreases |events|
  {
    if events == [] then []
    else
      Queue(s, events[0]);
      Freed(s, events[0]) + FreedAll(After(s, events[0]), events[1..])
  }

  /** Over any run of events, the voices are given out in the order in which they were unused
      at first and then released. */
  lemma {:induction false} QueueOfRun(s: State, events: seq<Event>)
    requires IsState(s) && Events(events)
    ensures s.rings[UNUSED] + FreedAll(s, events) == GivenAll(s, events) + AfterAll(s, events).rings[UNUSED]
    decreases |events|
  {
    hide After, Given, Freed;
    if events == [] {
      assert s.rings[UNUSED] + [] == [] + s.rings[UNUSED];
    } else {
      var e, rest := events[0], events[1..];
      Queue(s, e);
      var s1 := After(s, e);
      QueueOfRun(s1, rest);
      Chained(s.rings[UNUSED], Freed(s, e), FreedAll(s1, rest), Given(s, e), s1.rings[UNUSED], GivenAll(s1, rest),
          AfterAll(s1, rest).rings[UNUSED]);
    }
  }

  lemma Chained(u0: seq<nat>, f0: seq<nat>, f1: seq<nat>, g0: seq<nat>, u1: seq<nat>, g1: seq<nat>, u2: seq<nat>)
    requires u0 + f0 == g0 + u1 && u1 + f1 == g1 + u2
    ensures u0 + (f0 + f1) == (g0 + g1) + u2
  {
    assert u0 + (f0 + f1) == (u0 + f0) + f1;
    assert (g0 + u1) + f1 == g0 + (u1 + f1);
    assert g0 + (g1 + u2) == (g0 + g1) + u2;
  }

  /** One event of the music. */
  method Apply(p: Player, e: Event)
    requires p.Valid() && e.c < CHANNELS
    modifies p.next, p.prev, p.note, p.playing, p.sustain, p`rings, p`owner
    ensures p.Valid() && old(IsState(p.Current())) && p.Current() == After(old(p.Current()), e)
  {
    p.Voices();
    match e
    case NoteOff(c, n) => p.EventNoteOff(c, n);
    case NoteOn(c, n) => p.EventNoteOn(c, n);
    case SoundOff(c) => p.AllSoundOff(c);
    case MuteNotes(c) => p.EventMuteNotes(c);
    case Sustain(c, on) => p.EventSustain(c, if on then 127 else 0);
    case Reset(c) => p.ResetControllers(c);
  }

  lemma RemoveFirst(s: seq<nat>)
    requires s != []
    ensures Remove(s, 0) == s[1..]
  {
  }

  lemma AllStart(rings0: seq<seq<nat>>, c: nat)
    requires |rings0| == CHANNELS + 1 && c < CHANNELS
    ensures rings0[c := rings0[c][0..]][UNUSED := rings0[UNUSED] + rings0[c][..0]] == rings0
  {
    assert rings0[c][0..] == rings0[c] && rings0[UNUSED] + rings0[c][..0] == rings0[UNUSED];
  }

  lemma AllStep(rings0: seq<seq<nat>>, c: nat, k: nat)
    requires |rings0| == CHANNELS + 1 && c < CHANNELS && k < |rings0[c]|
    ensures var s0 := rings0[c];
            var r := rings0[c := s0[k..]][UNUSED := rings0[UNUSED] + s0[..k]];
            r[c := Remove(r[c], 0)][UNUSED := r[UNUSED] + [s0[k]]]
                == rings0[c := s0[k + 1..]][UNUSED := rings0[UNUSED] + s0[..k + 1]]
  {
    var s0 := rings0[c];
    assert Remove(s0[k..], 0) == s0[k + 1..];
    assert rings0[UNUSED] + s0[..k] + [s0[k]] == rings0[UNUSED] + s0[..k + 1];
  }

  lemma SetAllNothing(p0: seq<int>, x: int)
    ensures SetAll(p0, [], x) == p0
  {
  }

  lemma SetAllStep(p0: seq<int>, s0: seq<nat>, x: int, k: nat)
    requires k < |s0| && s0[k] < |p0|
    ensures SetAll(p0, s0[..k + 1], x) == SetAll(p0, s0[..k], x)[s0[k] := x]
  {
    assert s0[..k + 1] == s0[..k] + [s0[k]];
  }
}
