/**
 * The interaction state of the simulator and the commands that change it.
 *
 * The state is the set of live boxes, whether the simulation runs, whether
 * the "no alive squares" message is shown, and the delay between generations,
 * kept here as a whole number of tenths of a second. One pass of the main
 * loop advances a running simulation by one generation, applies the button
 * clicks received since the last pass, and, while the mouse button is held,
 * marks the box under the pointer alive.
 */
module Controls {
  import opened Geometry
  import opened Life

  /** Delay after start-up and after Reset: 0.5 seconds. */
  const DefaultDelay: int := 5
  /** Slower adds a tenth only while the delay is at most 0.9 seconds. */
  const MaxDelay: int := 10
  /** Faster takes a tenth only while the delay is at least 0.1 seconds. */
  const MinDelay: int := 0

  /** The four buttons below the grid. */
  datatype Command = Reset | Start | Slower | Faster

  datatype State = State(alive: set<Cell>, running: bool, error: bool, delay: int)

  /** Work done in one pass of the main loop besides the automatic generation:
      the buttons clicked, in order, and the pointer position if the mouse
      button is held down at the end of the pass. */
  datatype Input = Input(clicks: seq<Command>, held: Option<Pixel>)

  function Min(a: int, b: int): int { if a <= b then a else b }
  function Max(a: int, b: int): int { if a <= b then b else a }

  /** The state the program starts in. */
  function Initial(): (t: State)
    ensures Valid(t)
  {
    State({}, false, false, DefaultDelay)
  }

  /** What the program keeps true of its state: no live box outside the
      field and a delay within the two bounds. */
  predicate Valid(s: State) {
    InsideField(s.alive) && MinDelay <= s.delay <= MaxDelay
  }

  /** Reset: clear the field, stop, hide the message, restore the delay. */
  function ResetGame(s: State): (t: State)
    ensures t == Initial()
  {
    s.(alive := {}, running := false, error := false, delay := DefaultDelay)
  }

  /** Start: with no live box, show the message and leave the mode alone;
      otherwise hide the message and run. */
  function StartGame(s: State): (t: State)
    ensures t.alive == s.alive && t.delay == s.delay
    ensures s.alive == {} ==> t.error && t.running == s.running
    ensures s.alive != {} ==> !t.error && t.running
  {
    var cleared := s.(error := false);
    if cleared.alive == {} then cleared.(error := true) else cleared.(running := true)
  }

  /** Slower: one tenth more, unless the delay is already above 0.9. */
  function SlowDown(s: State): (t: State)
    ensures t.alive == s.alive && t.running == s.running && t.error == s.error
    ensures s.delay <= MaxDelay ==> t.delay == Min(s.delay + 1, MaxDelay)
    ensures s.delay > MaxDelay ==> t == s
  {
    if s.delay <= MaxDelay - 1 then s.(delay := s.delay + 1) else s
  }

  /** Faster: one tenth less, unless the delay is already below 0.1. */
  function SpeedUp(s: State): (t: State)
    ensures t.alive == s.alive && t.running == s.running && t.error == s.error
    ensures s.delay >= MinDelay ==> t.delay == Max(s.delay - 1, MinDelay)
    ensures s.delay < MinDelay ==> t == s
  {
    if s.delay >= MinDelay + 1 then s.(delay := s.delay - 1) else s
  }

  /** The effect of one button click. */
  function Apply(s: State, cmd: Command): (t: State)
    ensures cmd == Reset ==> t == Initial()
    ensures cmd != Reset ==> t.alive == s.alive
  {
    match cmd
    case Reset => ResetGame(s)
    case Start => StartGame(s)
    case Slower => SlowDown(s)
    case Faster => SpeedUp(s)
  }

  /** The effect of the clicks of one pass, in the order they arrived. */
  function ApplyAll(s: State, cmds: seq<Command>): State
    decreases |cmds|
  {
    if cmds == [] then s else ApplyAll(Apply(s, cmds[0]), cmds[1..])
  }

  /** The same button clicked n times. */
  function Presses(s: State, cmd: Command, n: nat): State {
    if n == 0 then s else Apply(Presses(s, cmd, n - 1), cmd)
  }

  /** A running simulation advances its live set by one generation, Step;
      a stopped one waits. */
  function Tick(s: State): (t: State)
    ensures t.running == s.running && t.error == s.error && t.delay == s.delay
    ensures !s.running ==> t == s
  {
    if s.running then s.(alive := Step(s.alive)) else s
  }

  /** With the mouse button held, the box under the pointer, if any, becomes alive. */
  function HoldMouse(s: State, held: Option<Pixel>): (t: State)
    ensures held.None? ==> t == s
    ensures t.running == s.running && t.error == s.error && t.delay == s.delay
  {
    match held
    case None => s
    case Some(p) =>
      match TileOf(p)
      case None => s
      case Some(c) => s.(alive := s.alive + {c})
  }

  /** One pass of the main loop. */
  function Iteration(s: State, input: Input): State {
    HoldMouse(ApplyAll(Tick(s), input.clicks), input.held)
  }

  /** The state after a sequence of passes. */
  function Run(s: State, inputs: seq<Input>): State
    decreases |inputs|
  {
    if inputs == [] then s else Run(Iteration(s, inputs[0]), inputs[1..])
  }

  // ---------------------------------------------------------------------
  // Commands

  /** Start never stops a running simulation. */
  lemma StartKeepsRunning(s: State)
    requires s.running
    ensures StartGame(s).running
  {
  }

  /** Start right after Reset only shows the message. */
  lemma StartAfterReset(s: State)
    ensures StartGame(ResetGame(s)) == Initial().(error := true)
  {
  }

  /** At the upper bound Slower changes nothing, at the lower bound Faster changes nothing. */
  lemma SpeedBoundsAreFixed(s: State)
    ensures s.delay == MaxDelay ==> SlowDown(s) == s
    ensures s.delay == MinDelay ==> SpeedUp(s) == s
  {
  }

  /** Clicking Slower n times adds n tenths up to the bound and touches nothing else. */
  lemma {:induction false} SlowerPresses(s: State, n: nat)
    requires MinDelay <= s.delay <= MaxDelay
    ensures Presses(s, Slower, n) == s.(delay := Min(s.delay + n, MaxDelay))
  {
    if n > 0 {
      SlowerPresses(s, n - 1);
    }
  }

  /** Clicking Faster n times takes n tenths down to the bound and touches nothing else. */
  lemma {:induction false} FasterPresses(s: State, n: nat)
    requires MinDelay <= s.delay <= MaxDelay
    ensures Presses(s, Faster, n) == s.(delay := Max(s.delay - n, MinDelay))
  {
    if n > 0 {
      FasterPresses(s, n - 1);
    }
  }

  /** Every click keeps the state valid. */
  lemma ApplyKeepsValid(s: State, cmd: Command)
    requires Valid(s)
    ensures Valid(Apply(s, cmd))
  {
  }

  /** The clicks of a pass keep the state valid. */
  lemma {:induction false} ApplyAllKeepsValid(s: State, cmds: seq<Command>)
    requires Valid(s)
    ensures Valid(ApplyAll(s, cmds))
    decreases |cmds|
  {
    if cmds != [] {
      ApplyKeepsValid(s, cmds[0]);
      ApplyAllKeepsValid(Apply(s, cmds[0]), cmds[1..]);
    }
  }

  /** Clicks never change the live boxes, except that a Reset among them clears them. */
  lemma {:induction false} ApplyAllAlive(s: State, cmds: seq<Command>)
    ensures ApplyAll(s, cmds).alive == s.alive || ApplyAll(s, cmds).alive == {}
    ensures Reset !in cmds ==> ApplyAll(s, cmds).alive == s.alive
    ensures Reset in cmds ==> ApplyAll(s, cmds).alive == {}
    decreases |cmds|
  {
    if cmds != [] {
      ApplyAllAlive(Apply(s, cmds[0]), cmds[1..]);
      assert cmds == [cmds[0]] + cmds[1..];
    }
  }

  // ---------------------------------------------------------------------
  // The main loop

  /** Holding the mouse never removes a box and only adds a field box, in any mode. */
  lemma HoldMouseOnlyAdds(s: State, held: Option<Pixel>)
    ensures HoldMouse(s, held).alive >= s.alive
    ensures InsideField(HoldMouse(s, held).alive - s.alive)
    ensures |HoldMouse(s, held).alive - s.alive| <= 1
    ensures HoldMouse(s, held) == s.(alive := HoldMouse(s, held).alive)
  {
  }

  /** A pointer outside the grid changes nothing. */
  lemma HoldMouseOutsideGrid(s: State, p: Pixel)
    requires forall c :: InField(c) ==> !Collides(c, p)
    ensures HoldMouse(s, Some(p)) == s
  {
  }

  /** Holding the mouse on any point of box c's square makes c alive. */
  lemma HoldMouseOnBox(s: State, c: Cell, p: Pixel)
    requires InField(c) && Collides(c, p)
    ensures HoldMouse(s, Some(p)).alive == s.alive + {c}
  {
    TileOfComplete(c, p);
  }

  /** Each pass of the main loop keeps the state valid. */
  lemma IterationKeepsValid(s: State, input: Input)
    requires Valid(s)
    ensures Valid(Iteration(s, input))
  {
    if s.running {
      StepInsideField(s.alive);
    }
    ApplyAllKeepsValid(Tick(s), input.clicks);
    HoldMouseOnlyAdds(ApplyAll(Tick(s), input.clicks), input.held);
  }

  /** From start-up, no sequence of passes lets a box escape the field or the
      delay leave its bounds. */
  lemma {:induction false} RunKeepsValid(s: State, inputs: seq<Input>)
    requires Valid(s)
    ensures Valid(Run(s, inputs))
    decreases |inputs|
  {
    if inputs != [] {
      IterationKeepsValid(s, inputs[0]);
      RunKeepsValid(Iteration(s, inputs[0]), inputs[1..]);
    }
  }

  /** The program starts in a valid state. */
  lemma InitialIsValid()
    ensures Valid(Initial()) && !Initial().running && Initial().alive == {}
  {
  }

  // ---------------------------------------------------------------------
  // The loop as the program runs it

  /** Handle the clicks received since the last pass, one after another. */
  method PgEvents(s: State, clicks: seq<Command>) returns (t: State)
    ensures t == ApplyAll(s, clicks)
    ensures Valid(s) ==> Valid(t)
  {
    t := s;
    var i := 0;
    while i < |clicks|
      invariant 0 <= i <= |clicks|
      invariant ApplyAll(t, clicks[i..]) == ApplyAll(s, clicks)
      invariant Valid(s) ==> Valid(t)
    {
      assert clicks[i..][1..] == clicks[i + 1..];
      match clicks[i] {
        case Reset =>
          t := t.(alive := {}, running := false, error := false, delay := DefaultDelay);
        case Start =>
          t := t.(error := false);
          if t.alive == {} {
            t := t.(error := true);
          } else {
            t := t.(running := true);
          }
        case Slower =>
          if t.delay <= MaxDelay - 1 {
            t := t.(delay := t.delay + 1);
          }
        case Faster =>
          if t.delay >= MinDelay + 1 {
            t := t.(delay := t.delay - 1);
          }
      }
      i := i + 1;
    }
  }

  /** One pass of the main loop: a generation if running, the clicks, then the held mouse. */
  method MainIteration(s: State, input: Input) returns (t: State)
    ensures t == Iteration(s, input)
    ensures Valid(s) ==> Valid(t)
  {
    var alive := s.alive;
    if s.running {
      alive := GameOfLife(alive);
    }
    t := PgEvents(s.(alive := alive), input.clicks);
    if input.held.Some? {
      var clickedBox := FindClickedBox(input.held.value);
      if clickedBox.Some? {
        t := t.(alive := t.alive + {clickedBox.value});
      }
    }
    if Valid(s) {
      IterationKeepsValid(s, input);
    }
  }
}
