/** The face actuation data: servo channels, the pulse widths the node writes
    into its shared face-control message, the viseme-to-jaw table, and the
    frame sequences of the blink and of the eye-wander sweep. */
module Face {

  /** The face-control servo channels the node writes. */
  datatype Channel = ChinUpDown | EyesLeftRight | EyesUpDown | LeftEyelidUpDown | RightEyelidUpDown

  /** The pulse-width array of the face-control message: a width for every
      channel (the model starts every channel at 0). */
  type Pulses = m: map<Channel, int>
    | ChinUpDown in m && EyesLeftRight in m && EyesUpDown in m && LeftEyelidUpDown in m && RightEyelidUpDown in m
    witness map[ChinUpDown := 0, EyesLeftRight := 0, EyesUpDown := 0,
                LeftEyelidUpDown := 0, RightEyelidUpDown := 0]

  /** Jaw pulse width for each viseme id the synthesis engine reports. */
  const VisemeToChin: map<int, int> := map[
    0 := 910, 1 := 1100, 2 := 1100, 3 := 1000, 4 := 1000, 5 := 1000,
    6 := 980, 7 := 980, 8 := 980, 9 := 1100, 10 := 1100, 11 := 1100,
    12 := 1000, 13 := 1100, 14 := 1000, 15 := 980, 16 := 980, 17 := 1000,
    18 := 980, 19 := 1000, 20 := 1100, 21 := 910]

  /** The table covers exactly the ids 0 to 21, and every jaw position it
      gives is one of four pulse widths. */
  lemma VisemeTableShape()
    ensures forall id :: id in VisemeToChin <==> 0 <= id <= 21
    ensures forall id :: id in VisemeToChin ==> VisemeToChin[id] in {910, 980, 1000, 1100}
  {
  }

  /** One pass of the viseme consumer loop: a mapped id moves the jaw and
      publishes the message once; any other id is dropped. Returns the new
      pulse widths and the messages published. */
  function ConsumeOne(pulse: Pulses, id: int): (Pulses, seq<Pulses>)
  {
    if id in VisemeToChin then
      var next := pulse[ChinUpDown := VisemeToChin[id]];
      (next, [next])
    else (pulse, [])
  }

  /** The consumer applied to a queue of ids, oldest first. */
  function Consume(pulse: Pulses, ids: seq<int>): (Pulses, seq<Pulses>)
  {
    if ids == [] then (pulse, [])
    else
      var (p, frames) := Consume(pulse, ids[..|ids| - 1]);
      var (q, more) := ConsumeOne(p, ids[|ids| - 1]);
      (q, frames + more)
  }

  /** The ids of a queue that the table maps, in queue order. */
  function Mapped(ids: seq<int>): (m: seq<int>)
    ensures forall k :: 0 <= k < |m| ==> m[k] in VisemeToChin
  {
    if ids == [] then []
    else Mapped(ids[..|ids| - 1]) + (if ids[|ids| - 1] in VisemeToChin then [ids[|ids| - 1]] else [])
  }

  /** The viseme relay in order: draining a queue publishes exactly one
      message per mapped id, in arrival order, each equal to the starting
      message with only the jaw channel set to that id's table entry; the
      final jaw position is the last mapped id's, and nothing moves when no
      id is mapped. */
  lemma {:induction false} ConsumeInOrder(pulse: Pulses, ids: seq<int>)
    ensures var (p, frames) := Consume(pulse, ids); var m := Mapped(ids);
      && |frames| == |m|
      && (forall k :: 0 <= k < |m| ==> frames[k] == pulse[ChinUpDown := VisemeToChin[m[k]]])
      && p == (if m == [] then pulse else pulse[ChinUpDown := VisemeToChin[m[|m| - 1]]])
  {
    if ids != [] {
      var init, id := ids[..|ids| - 1], ids[|ids| - 1];
      ConsumeInOrder(pulse, init);
      var (p, frames) := Consume(pulse, init);
      var m := Mapped(init);
      if id in VisemeToChin {
        var next := pulse[ChinUpDown := VisemeToChin[id]];
        assert p[ChinUpDown := VisemeToChin[id]] == next;
        assert Mapped(ids) == m + [id];
      } else {
        assert Mapped(ids) == m + [];
      }
    }
  }

  /** The channels a viseme never touches keep their pulse widths, in the
      state and in every published message, and the jaw only ever takes one
      of the four table values. */
  lemma ConsumeOnlyMovesJaw(pulse: Pulses, ids: seq<int>)
    ensures var (p, frames) := Consume(pulse, ids);
      && (forall c :: c in pulse && c != ChinUpDown ==> c in p && p[c] == pulse[c])
      && (forall k :: 0 <= k < |frames| ==> frames[k] == pulse[ChinUpDown := frames[k][ChinUpDown]])
      && (forall k :: 0 <= k < |frames| ==> frames[k][ChinUpDown] in {910, 980, 1000, 1100})
  {
    ConsumeInOrder(pulse, ids);
  }

  /** The blink: eyelids closed (905 left, 2088 right), published, then
      opened (1500 both), published; no other channel changes. */
  function BlinkFrames(pulse: Pulses): (frames: seq<Pulses>)
    ensures |frames| == 2
    ensures frames[0][LeftEyelidUpDown] == 905 && frames[0][RightEyelidUpDown] == 2088
    ensures frames[1][LeftEyelidUpDown] == 1500 && frames[1][RightEyelidUpDown] == 1500
    ensures forall i, c :: 0 <= i < 2 && c in pulse && c != LeftEyelidUpDown && c != RightEyelidUpDown ==>
              c in frames[i] && frames[i][c] == pulse[c]
  {
    var closed := pulse[LeftEyelidUpDown := 905][RightEyelidUpDown := 2088];
    [closed, closed[LeftEyelidUpDown := 1500][RightEyelidUpDown := 1500]]
  }

  /** Python's `range(from, to, 10)` or `range(from, to, -10)`, for bounds
      ten apart a whole number of times. */
  function Ramp(from: int, to: int): seq<int>
    requires (to - from) % 10 == 0
    decreases if from < to then to - from else from - to
  {
    if from == to then []
    else if from < to then [from] + Ramp(from + 10, to)
    else [from] + Ramp(from - 10, to)
  }

  /** A ramp takes |to - from| / 10 steps of ten from `from` towards `to`. */
  lemma {:induction false} RampShape(from: int, to: int)
    requires (to - from) % 10 == 0
    ensures var r := Ramp(from, to);
      && |r| == (if from < to then to - from else from - to) / 10
      && forall k :: 0 <= k < |r| ==> r[k] == (if from < to then from + 10 * k else from - 10 * k)
    decreases if from < to then to - from else from - to
  {
    if from < to {
      RampShape(from + 10, to);
    } else if from > to {
      RampShape(from - 10, to);
    }
  }

  /** Eye-azimuth pulse widths: looking ahead, fully left, fully right. */
  const EyeCentre: int := 1500
  const EyeLeft: int := 1200
  const EyeRight: int := 1800

  /** The eye-azimuth values of one wander cycle: left, back to centre,
      right, back to centre. */
  function EyeSweep(centre: int, left: int, right: int): seq<int>
    requires (centre - left) % 10 == 0 && (right - centre) % 10 == 0
  {
    Ramp(centre, left) + Ramp(left, centre) + Ramp(centre, right) + Ramp(right, centre)
  }

  /** The `k`-th azimuth of one wander cycle, phase by phase. */
  function SweepAt(k: int): int
  {
    if k < 30 then 1500 - 10 * k
    else if k < 60 then 1200 + 10 * (k - 30)
    else if k < 90 then 1500 + 10 * (k - 60)
    else 1800 - 10 * (k - 90)
  }

  /** Four 30-value phases laid end to end: left, back, right, back. */
  lemma FourPhases(a: seq<int>, b: seq<int>, c: seq<int>, d: seq<int>)
    requires |a| == 30 && |b| == 30 && |c| == 30 && |d| == 30
    requires forall k :: 0 <= k < 30 ==> a[k] == 1500 - 10 * k
    requires forall k :: 0 <= k < 30 ==> b[k] == 1200 + 10 * k
    requires forall k :: 0 <= k < 30 ==> c[k] == 1500 + 10 * k
    requires forall k :: 0 <= k < 30 ==> d[k] == 1800 - 10 * k
    ensures |a + b + c + d| == 120
    ensures forall k :: 0 <= k < 120 ==> (a + b + c + d)[k] == SweepAt(k)
  {
    var s := a + b + c + d;
    forall k | 0 <= k < 120
      ensures s[k] == SweepAt(k)
    {
      if k < 30 { assert s[k] == a[k]; }
      else if k < 60 { assert s[k] == b[k - 30]; }
      else if k < 90 { assert s[k] == c[k - 60]; }
      else { assert s[k] == d[k - 90]; }
    }
  }

  /** The four ramps laid end to end give the phase-by-phase values. */
  lemma SweepValues()
    ensures |EyeSweep(EyeCentre, EyeLeft, EyeRight)| == 120
    ensures forall k :: 0 <= k < 120 ==> EyeSweep(EyeCentre, EyeLeft, EyeRight)[k] == SweepAt(k)
  {
    var a, b, c, d := Ramp(EyeCentre, EyeLeft), Ramp(EyeLeft, EyeCentre), Ramp(EyeCentre, EyeRight), Ramp(EyeRight, EyeCentre);
    RampShape(EyeCentre, EyeLeft);
    RampShape(EyeLeft, EyeCentre);
    RampShape(EyeCentre, EyeRight);
    RampShape(EyeRight, EyeCentre);
    assert |a| == 30 && |b| == 30 && |c| == 30 && |d| == 30;
    FourPhases(a, b, c, d);
  }

  /** The phase-by-phase values stay within [1200, 1800] and change by ten
      at every step, across phase boundaries too. */
  lemma SweepAtShape()
    ensures forall k :: 0 <= k < 120 ==> 1200 <= SweepAt(k) <= 1800
    ensures forall k :: 0 < k < 120 ==> SweepAt(k) - SweepAt(k - 1) == 10 || SweepAt(k - 1) - SweepAt(k) == 10
  {
  }

  /** Every value lies within [lo, hi]. */
  predicate Within(s: seq<int>, lo: int, hi: int)
  {
    forall k :: 0 <= k < |s| ==> lo <= s[k] <= hi
  }

  /** Consecutive values are exactly ten apart. */
  predicate TenApart(s: seq<int>)
  {
    forall k :: 0 < k < |s| ==> s[k] - s[k - 1] == 10 || s[k - 1] - s[k] == 10
  }

  /** The wander cycle writes 120 values, all within [1200, 1800], starting
      at 1500 and ending at 1510, each ten away from the one before. */
  lemma EyeSweepShape()
    ensures |EyeSweep(EyeCentre, EyeLeft, EyeRight)| == 120
      && EyeSweep(EyeCentre, EyeLeft, EyeRight)[0] == 1500 && EyeSweep(EyeCentre, EyeLeft, EyeRight)[119] == 1510
    ensures Within(EyeSweep(EyeCentre, EyeLeft, EyeRight), 1200, 1800)
    ensures TenApart(EyeSweep(EyeCentre, EyeLeft, EyeRight))
  {
    SweepValues();
    SweepAtShape();
  }

  /** The messages published while a channel is stepped through `values`
      from the message `pulse`. */
  function Frames(pulse: Pulses, c: Channel, values: seq<int>): (frames: seq<Pulses>)
    ensures |frames| == |values|
  {
    seq(|values|, k requires 0 <= k < |values| => pulse[c := values[k]])
  }

  /** A later write to a channel overrides an earlier one. */
  lemma WriteOverrides(pulse: Pulses, c: Channel, x: int, y: int)
    ensures pulse[c := x][c := y] == pulse[c := y]
  {
  }

  /** Stepping a channel through two runs of values publishes the frames
      of the first run and then those of the second. */
  lemma FramesAppend(pulse: Pulses, c: Channel, a: seq<int>, b: seq<int>)
    ensures Frames(pulse, c, a + b) == Frames(pulse, c, a) + Frames(pulse, c, b)
  {
  }

  /** The frames do not depend on the stepped channel's starting value. */
  lemma FramesIgnoreStart(pulse: Pulses, c: Channel, x: int, values: seq<int>)
    ensures Frames(pulse[c := x], c, values) == Frames(pulse, c, values)
  {
    forall k | 0 <= k < |values|
      ensures pulse[c := x][c := values[k]] == pulse[c := values[k]]
    {
    }
  }

  /** A run of frames followed by a run published from a message whose
      stepped channel was left at any value is one run from the start. */
  lemma FramesChain(start: Pulses, c: Channel, a: seq<int>, b: seq<int>, x: int)
    ensures Frames(start, c, a) + Frames(start[c := x], c, b) == Frames(start, c, a + b)
  {
    FramesIgnoreStart(start, c, x, b);
    FramesAppend(start, c, a, b);
  }

  /** Four runs chained the same way, published after earlier messages
      `pre`, are one run from the start. */
  lemma FramesChain4(pre: seq<Pulses>, start: Pulses, ch: Channel, a: seq<int>, b: seq<int>, c: seq<int>, d: seq<int>,
                     x: int, y: int, z: int)
    ensures pre + Frames(start, ch, a) + Frames(start[ch := x], ch, b) + Frames(start[ch := y], ch, c)
      + Frames(start[ch := z], ch, d) == pre + Frames(start, ch, a + b + c + d)
  {
    FramesChain(start, ch, a, b, x);
    FramesChain(start, ch, a + b, c, y);
    FramesChain(start, ch, a + b + c, d, z);
  }

  /** The four phases of a wander cycle, each published from the message
      the previous phase left behind (its last value, ten short of the
      phase's bound), publish the frames of the whole sweep from the
      starting message. */
  lemma SweepPhases(pre: seq<Pulses>, start: Pulses, centre: int, left: int, right: int)
    requires (centre - left) % 10 == 0 && (right - centre) % 10 == 0
    ensures pre + Frames(start, EyesLeftRight, Ramp(centre, left))
      + Frames(start[EyesLeftRight := left + 10], EyesLeftRight, Ramp(left, centre))
      + Frames(start[EyesLeftRight := centre - 10], EyesLeftRight, Ramp(centre, right))
      + Frames(start[EyesLeftRight := right - 10], EyesLeftRight, Ramp(right, centre))
      == pre + Frames(start, EyesLeftRight, EyeSweep(centre, left, right))
  {
    FramesChain4(pre, start, EyesLeftRight, Ramp(centre, left), Ramp(left, centre), Ramp(centre, right), Ramp(right, centre),
      left + 10, centre - 10, right - 10);
  }


  /** Every message holds a width for every channel. */
  lemma HasChannel(p: Pulses, c: Channel)
    ensures c in p
  {
    match c
    case ChinUpDown =>
    case EyesLeftRight =>
    case EyesUpDown =>
    case LeftEyelidUpDown =>
    case RightEyelidUpDown =>
  }

  /** The pulse widths of channel `c` across a list of messages. */
  function Track(fs: seq<Pulses>, c: Channel): seq<int>
  {
    seq(|fs|, k requires 0 <= k < |fs| => (HasChannel(fs[k], c); fs[k][c]))
  }

  /** Every message equals `start` except on channel `c`. */
  predicate OnlyMoves(fs: seq<Pulses>, start: Pulses, c: Channel)
  {
    forall k :: 0 <= k < |fs| ==> (HasChannel(fs[k], c); fs[k] == start[c := fs[k][c]])
  }

  /** Stepping a channel through `values` shows exactly those values on
      that channel and changes nothing else. */
  lemma FramesTrack(start: Pulses, c: Channel, values: seq<int>)
    ensures Track(Frames(start, c, values), c) == values
    ensures OnlyMoves(Frames(start, c, values), start, c)
  {
    var fs := Frames(start, c, values);
    forall k | 0 <= k < |fs|
      ensures fs[k] == start[c := fs[k][c]]
    {
      WriteOverrides(start, c, values[k], values[k]);
    }
  }

  /** A wander cycle publishes 120 messages whose eye azimuths are the
      sweep's values, so they stay within [1200, 1800] and move by exactly
      ten between consecutive messages; the last one is the starting message
      with the azimuth at 1510, and no other channel changes. */
  lemma SweepFramesShape(start: Pulses)
    ensures |Frames(start, EyesLeftRight, EyeSweep(EyeCentre, EyeLeft, EyeRight))| == 120
      && Frames(start, EyesLeftRight, EyeSweep(EyeCentre, EyeLeft, EyeRight))[119] == start[EyesLeftRight := 1510]
    ensures Track(Frames(start, EyesLeftRight, EyeSweep(EyeCentre, EyeLeft, EyeRight)), EyesLeftRight)
      == EyeSweep(EyeCentre, EyeLeft, EyeRight)
    ensures Within(Track(Frames(start, EyesLeftRight, EyeSweep(EyeCentre, EyeLeft, EyeRight)), EyesLeftRight), 1200, 1800)
    ensures TenApart(Track(Frames(start, EyesLeftRight, EyeSweep(EyeCentre, EyeLeft, EyeRight)), EyesLeftRight))
    ensures OnlyMoves(Frames(start, EyesLeftRight, EyeSweep(EyeCentre, EyeLeft, EyeRight)), start, EyesLeftRight)
  {
    var s := EyeSweep(EyeCentre, EyeLeft, EyeRight);
    EyeSweepShape();
    FramesTrack(start, EyesLeftRight, s);
  }


}
