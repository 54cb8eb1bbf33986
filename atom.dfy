/** An atom: a point that walks the rim loop of CubePath one cell at a time,
    forward or backward, at most once per `speed` milliseconds, and that stops
    for good once it has used up its life cycles (one per wrap of the loop). */
module UnoCube {
  import opened CubePath

  newtype byte = x: int | 0 <= x < 256

  /** A snapshot of every field of an atom. */
  datatype AtomState = AtomState(
    currentIndex: int,
    previousIndex: int,
    lifeCycles: int,
    timeToMove: int,   // the clock must pass this deadline before the next step
    speed: int,        // milliseconds between steps
    axis: byte,
    offset: byte)
  {
    /** Both indices point into the path table. */
    predicate Valid() {
      IsIndex(currentIndex) && IsIndex(previousIndex)
    }

    /** The gate both Forward and Backward test before stepping. */
    predicate CanMove(now: nat) {
      lifeCycles > 0 && now > timeToMove
    }

    /** Construction-time values that no step changes. */
    predicate SameTags(other: AtomState) {
      speed == other.speed && axis == other.axis && offset == other.offset
    }
  }

  /** The outcome of one call: whether the atom stepped, and its new state. */
  datatype Step = Step(moved: bool, after: AtomState)

  /** One call of Forward. The source reads the clock twice per call: `now` is
      the reading the gate compares with the deadline, `later` the reading
      taken after the index has moved, from which the next deadline is set. */
  function ForwardStep(s: AtomState, now: nat, later: nat): (r: Step)
    requires s.Valid()
    ensures r.after.Valid() && r.after.SameTags(s)
    ensures r.moved <==> s.CanMove(now)
    ensures !r.moved ==> r.after == s
    ensures r.moved ==> r.after.previousIndex == s.currentIndex
    ensures r.moved ==> r.after.currentIndex == (s.currentIndex + 1) % Length
    ensures r.moved ==> r.after.lifeCycles == if s.currentIndex == Length - 1 then s.lifeCycles - 1 else s.lifeCycles
    ensures r.moved ==> r.after.timeToMove == later + s.speed
  {
    if s.lifeCycles > 0 && now > s.timeToMove then
      var next := s.currentIndex + 1;
      if next > 11 then
        Step(true, s.(previousIndex := s.currentIndex, currentIndex := 0,
                      lifeCycles := s.lifeCycles - 1, timeToMove := later + s.speed))
      else
        Step(true, s.(previousIndex := s.currentIndex, currentIndex := next,
                      timeToMove := later + s.speed))
    else
      Step(false, s)
  }

  /** One call of Backward, with the same two clock readings as ForwardStep. */
  function BackwardStep(s: AtomState, now: nat, later: nat): (r: Step)
    requires s.Valid()
    ensures r.after.Valid() && r.after.SameTags(s)
    ensures r.moved <==> s.CanMove(now)
    ensures !r.moved ==> r.after == s
    ensures r.moved ==> r.after.previousIndex == s.currentIndex
    ensures r.moved ==> r.after.currentIndex == (s.currentIndex + Length - 1) % Length
    ensures r.moved ==> r.after.lifeCycles == if s.currentIndex == 0 then s.lifeCycles - 1 else s.lifeCycles
    ensures r.moved ==> r.after.timeToMove == later + s.speed
  {
    if s.lifeCycles > 0 && now > s.timeToMove then
      var next := s.currentIndex - 1;
      if next < 0 then
        Step(true, s.(previousIndex := s.currentIndex, currentIndex := 11,
                      lifeCycles := s.lifeCycles - 1, timeToMove := later + s.speed))
      else
        Step(true, s.(previousIndex := s.currentIndex, currentIndex := next,
                      timeToMove := later + s.speed))
    else
      Step(false, s)
  }

  /** A call a driving loop makes, with the two clock readings it sees. */
  datatype Call = ForwardCall(now: nat, later: nat) | BackwardCall(now: nat, later: nat)

  function Apply(s: AtomState, c: Call): Step
    requires s.Valid()
  {
    match c
    case ForwardCall(now, later) => ForwardStep(s, now, later)
    case BackwardCall(now, later) => BackwardStep(s, now, later)
  }

  /** The state after a sequence of calls; the index bounds hold throughout. */
  function Run(s: AtomState, calls: seq<Call>): (e: AtomState)
    requires s.Valid()
    ensures e.Valid()
    decreases |calls|
  {
    if calls == [] then s else Run(Apply(s, calls[0]).after, calls[1..])
  }

  /** Every call of the sequence steps (none is refused). */
  predicate AllMoved(s: AtomState, calls: seq<Call>)
    requires s.Valid()
    decreases |calls|
  {
    calls == [] ||
    (Apply(s, calls[0]).moved && AllMoved(Apply(s, calls[0]).after, calls[1..]))
  }

  predicate AllForward(calls: seq<Call>) {
    forall k :: 0 <= k < |calls| ==> calls[k].ForwardCall?
  }

  predicate AllBackward(calls: seq<Call>) {
    forall k :: 0 <= k < |calls| ==> calls[k].BackwardCall?
  }

  /** Axis, offset and speed are fixed at construction. */
  lemma {:induction false} RunKeepsTags(s: AtomState, calls: seq<Call>)
    requires s.Valid()
    ensures Run(s, calls).SameTags(s)
    decreases |calls|
  {
    if calls != [] {
      RunKeepsTags(Apply(s, calls[0]).after, calls[1..]);
    }
  }

  /** The life count never increases, and never drops below zero when it
      starts at zero or more. */
  lemma {:induction false} RunLifeCyclesBounds(s: AtomState, calls: seq<Call>)
    requires s.Valid()
    ensures Run(s, calls).lifeCycles <= s.lifeCycles
    ensures s.lifeCycles >= 0 ==> Run(s, calls).lifeCycles >= 0
    decreases |calls|
  {
    if calls != [] {
      RunLifeCyclesBounds(Apply(s, calls[0]).after, calls[1..]);
    }
  }

  /** An exhausted atom is frozen: every later call is refused and no field
      changes, whatever the calls and clock readings. */
  lemma {:induction false} ExhaustedIsFrozen(s: AtomState, calls: seq<Call>)
    requires s.Valid() && s.lifeCycles <= 0
    ensures Run(s, calls) == s
    ensures forall c :: !Apply(s, c).moved
    decreases |calls|
  {
    if calls != [] {
      ExhaustedIsFrozen(Apply(s, calls[0]).after, calls[1..]);
    }
  }

  /** n successful forward steps advance the index by n around the loop and
      cost one life cycle per wrap past cell 11. */
  lemma {:induction false} ForwardRun(s: AtomState, calls: seq<Call>)
    requires s.Valid() && AllForward(calls) && AllMoved(s, calls)
    ensures Run(s, calls).currentIndex == (s.currentIndex + |calls|) % Length
    ensures Run(s, calls).lifeCycles == s.lifeCycles - (s.currentIndex + |calls|) / Length
    decreases |calls|
  {
    if calls != [] {
      var t := Apply(s, calls[0]).after;
      assert AllForward(calls[1..]) by {
        forall k | 0 <= k < |calls[1..]| ensures calls[1..][k].ForwardCall? {
          assert calls[1..][k] == calls[k + 1];
        }
      }
      ForwardRun(t, calls[1..]);
      var n := |calls|;
      if s.currentIndex == 11 {
        assert t.currentIndex == 0 && t.lifeCycles == s.lifeCycles - 1;
        assert (t.currentIndex + (n - 1)) % Length == (s.currentIndex + n) % Length;
        assert (t.currentIndex + (n - 1)) / Length + 1 == (s.currentIndex + n) / Length;
      } else {
        assert t.currentIndex == s.currentIndex + 1 && t.lifeCycles == s.lifeCycles;
      }
    }
  }

  /** n successful backward steps move the index back by n around the loop
      and cost one life cycle per wrap below cell 0. */
  lemma {:induction false} BackwardRun(s: AtomState, calls: seq<Call>)
    requires s.Valid() && AllBackward(calls) && AllMoved(s, calls)
    ensures Run(s, calls).currentIndex == (s.currentIndex - |calls|) % Length
    ensures Run(s, calls).lifeCycles == s.lifeCycles - (Length - 1 - s.currentIndex + |calls|) / Length
    decreases |calls|
  {
    if calls != [] {
      var t := Apply(s, calls[0]).after;
      assert AllBackward(calls[1..]) by {
        forall k | 0 <= k < |calls[1..]| ensures calls[1..][k].BackwardCall? {
          assert calls[1..][k] == calls[k + 1];
        }
      }
      BackwardRun(t, calls[1..]);
      var n := |calls|;
      if s.currentIndex == 0 {
        assert t.currentIndex == 11 && t.lifeCycles == s.lifeCycles - 1;
        assert (t.currentIndex - (n - 1)) % Length == (s.currentIndex - n) % Length;
        assert (Length - 1 - t.currentIndex + (n - 1)) / Length + 1
            == (Length - 1 - s.currentIndex + n) / Length;
      } else {
        assert t.currentIndex == s.currentIndex - 1 && t.lifeCycles == s.lifeCycles;
      }
    }
  }

  /** Twelve successful forward steps bring the atom back to its cell and
      use up exactly one life cycle. */
  lemma FullLoopForward(s: AtomState, calls: seq<Call>)
    requires s.Valid() && |calls| == Length && AllForward(calls) && AllMoved(s, calls)
    ensures Run(s, calls).currentIndex == s.currentIndex
    ensures Run(s, calls).lifeCycles == s.lifeCycles - 1
  {
    ForwardRun(s, calls);
  }

  /** Twelve successful backward steps do the same in the other direction. */
  lemma FullLoopBackward(s: AtomState, calls: seq<Call>)
    requires s.Valid() && |calls| == Length && AllBackward(calls) && AllMoved(s, calls)
    ensures Run(s, calls).currentIndex == s.currentIndex
    ensures Run(s, calls).lifeCycles == s.lifeCycles - 1
  {
    BackwardRun(s, calls);
  }

  /** A successful Backward undoes a successful Forward's index change, but
      previousIndex keeps the intermediate cell, and a wrap in each direction
      costs two life cycles rather than none. */
  lemma ForwardThenBackward(s: AtomState, fwd: Call, bwd: Call)
    requires s.Valid() && fwd.ForwardCall? && bwd.BackwardCall?
    requires Apply(s, fwd).moved
    requires Apply(Apply(s, fwd).after, bwd).moved
    ensures Apply(Apply(s, fwd).after, bwd).after.currentIndex == s.currentIndex
    ensures Apply(Apply(s, fwd).after, bwd).after.previousIndex == Apply(s, fwd).after.currentIndex
    ensures Apply(Apply(s, fwd).after, bwd).after.lifeCycles
         == if s.currentIndex == Length - 1 then s.lifeCycles - 2 else s.lifeCycles
  {
  }

  /** The state the constructor builds at clock reading `now`: both indices
      on cell 0 and the first step due `speed` ms after `now`. */
  function Initial(axis: byte, offset: byte, speed: int, lifeCycles: int, now: nat): (s: AtomState)
    ensures s.Valid() && Cell(s.currentIndex) == Cell(s.previousIndex) == (0, 0, 3)
  {
    AtomState(0, 0, lifeCycles, now + speed, speed, axis, offset)
  }

  /** An atom built at time 0 (axis 0, offset 0, speed 50, one life cycle),
      driven forward at 51, 102, ..., 612 ms: every call steps, the twelfth
      wraps it back to cell 0 with no life cycles left, and the thirteenth is
      refused. */
  lemma OneLifeCycleScenario()
    ensures var s0 := Initial(0, 0, 50, 1, 0);
            var calls := seq(12, (k: nat) => ForwardCall(51 * (k + 1), 51 * (k + 1)));
            AllMoved(s0, calls) &&
            Run(s0, calls).currentIndex == 0 && Run(s0, calls).lifeCycles == 0 &&
            !ForwardStep(Run(s0, calls), 51 * 13, 51 * 13).moved
  {
    var s0 := Initial(0, 0, 50, 1, 0);
    var calls := seq(12, (k: nat) => ForwardCall(51 * (k + 1), 51 * (k + 1)));
    ScenarioSteps(s0, calls, 0);
    ForwardRun(s0, calls);
  }

  /** From step k of the scenario on, the atom sits on cell k with its
      deadline 50 ms after the previous call, so every remaining call steps. */
  lemma {:induction false} ScenarioSteps(s: AtomState, calls: seq<Call>, k: nat)
    requires k <= 12 && |calls| == 12 - k
    requires forall j :: 0 <= j < |calls| ==> calls[j] == ForwardCall(51 * (k + j + 1), 51 * (k + j + 1))
    requires s == AtomState(k % 12, s.previousIndex, 1, 51 * k + 50, 50, 0, 0) && s.Valid()
    ensures AllForward(calls) && AllMoved(s, calls)
    decreases 12 - k
  {
    if k < 12 {
      var t := Apply(s, calls[0]).after;
      assert t == AtomState((k + 1) % 12, k, if k == 11 then 0 else 1, 51 * (k + 1) + 50, 50, 0, 0);
      if k < 11 {
        ScenarioSteps(t, calls[1..], k + 1);
      } else {
        assert calls[1..] == [];
      }
    }
  }

  /** The atom that a driving loop sees as a live object. */
  class Atom {
    const axis: byte
    const offset: byte
    const speed: int
    var lifeCycles: int
    var previousIndex: int
    var currentIndex: int
    var timeToMove: int

    function State(): AtomState
      reads this
    {
      AtomState(currentIndex, previousIndex, lifeCycles, timeToMove, speed, axis, offset)
    }

    ghost predicate Valid()
      reads this
    {
      State().Valid()
    }

    /** Starts at cell 0 with the first step due `speed` ms after `now`. */
    constructor (alongWhichAxis: byte, offset: byte, speed: int, lifeCycles: int, now: nat)
      ensures Valid()
      ensures State() == Initial(alongWhichAxis, offset, speed, lifeCycles, now)
    {
      this.axis := alongWhichAxis;
      this.offset := offset;
      this.speed := speed;
      this.lifeCycles := lifeCycles;
      this.previousIndex := 0;
      this.currentIndex := 0;
      this.timeToMove := now + speed;
    }

    /** `now` and `later` are the two clock readings the call takes. */
    method Forward(now: nat, later: nat) returns (moved: bool)
      requires Valid()
      modifies this
      ensures Valid()
      ensures moved == ForwardStep(old(State()), now, later).moved
      ensures State() == ForwardStep(old(State()), now, later).after
    {
      if lifeCycles > 0 && now > timeToMove {
        previousIndex := currentIndex;
        currentIndex := currentIndex + 1;
        if currentIndex > 11 {
          currentIndex := 0;
          lifeCycles := lifeCycles - 1;
        }
        timeToMove := later + speed;
        return true;
      } else {
        return false;
      }
    }

    /** As Forward, one cell the other way round the loop. */
    method Backward(now: nat, later: nat) returns (moved: bool)
      requires Valid()
      modifies this
      ensures Valid()
      ensures moved == BackwardStep(old(State()), now, later).moved
      ensures State() == BackwardStep(old(State()), now, later).after
    {
      if lifeCycles > 0 && now > timeToMove {
        previousIndex := currentIndex;
        currentIndex := currentIndex - 1;
        if currentIndex < 0 {
          currentIndex := 11;
          lifeCycles := lifeCycles - 1;
        }
        timeToMove := later + speed;
        return true;
      } else {
        return false;
      }
    }

    /** The cell the atom left on its last step (cell 0 before any step). */
    function GetPreviousPosition(): (p: Position)
      reads this
      requires Valid()
      ensures p == Path[previousIndex] && OnRim(p)
    {
      Cell(previousIndex)
    }

    /** The cell the atom is on. */
    function GetCurrentPosition(): (p: Position)
      reads this
      requires Valid()
      ensures p == Path[currentIndex] && OnRim(p)
    {
      Cell(currentIndex)
    }

    function GetAxis(): (a: byte)
      reads this
      ensures a == State().axis
    {
      axis
    }

    function GetOffset(): (o: byte)
      reads this
      ensures o == State().offset
    {
      offset
    }

    function GetLifeCycles(): (n: int)
      reads this
      ensures n == State().lifeCycles
    {
      lifeCycles
    }
  }
}
