/**
 * useDebounce (src/lib/hooks.ts) as a single-slot timer state machine.
 *
 * Each render passes the hook a value and a delay. When either differs from
 * the previous render, the effect's cleanup clears the pending timeout and a
 * fresh one is scheduled; when a timeout fires, the debounced value becomes
 * the value it was scheduled with. Time is an integer clock in milliseconds,
 * supplied with every event.
 */
module Debounce {
  import opened Wrappers

  /** The delay used when the caller gives none. */
  const DefaultDelay: int := 500

  /** 2^32: setTimeout converts its delay to a signed 32-bit integer. */
  const TwoTo32: int := 0x1_0000_0000

  /** The delay as a signed 32-bit integer: wrapped modulo 2^32 into [-2^31, 2^31). */
  function ToInt32(delay: int): (d: int)
    ensures -0x8000_0000 <= d < 0x8000_0000
    ensures (d - delay) % TwoTo32 == 0
  {
    var m := delay % TwoTo32;
    if m < 0x8000_0000 then m else m - TwoTo32
  }

  /**
   * How long setTimeout waits: the delay converted to a signed 32-bit
   * integer, with a negative result counting as zero.
   */
  function Wait(delay: int): (w: nat)
    ensures w < 0x8000_0000
    ensures 0 <= delay < 0x8000_0000 ==> w == delay
    ensures 0x8000_0000 <= delay < TwoTo32 ==> w == 0
  {
    var d := ToInt32(delay);
    if d < 0 then 0 else d
  }

  /** A scheduled `setDebouncedValue(value)` that fires at time `due`. */
  datatype Timer<T> = Timer(value: T, due: int)

  /**
   * `input` and `delay` are the arguments of the latest render (the effect's
   * dependencies), `changedAt` the time they last changed, `output` the
   * debounced value, `pending` the timeout that has neither fired nor been cleared.
   */
  datatype State<T> = State(input: T, delay: int, changedAt: int, output: T, pending: Option<Timer<T>>)

  /** A render of the hook with new arguments, or the clock reaching `at`. */
  datatype Event<T> = Render(value: T, delay: int, at: int) | Elapse(at: int)

  /**
   * The single-slot invariant: the pending timeout, if any, carries the latest
   * input and is due one full delay after that input arrived; with no timeout
   * pending the output has caught up with the input.
   */
  predicate Valid<T(==)>(s: State<T>) {
    match s.pending
    case Some(t) => t.value == s.input && t.due == s.changedAt + Wait(s.delay)
    case None => s.output == s.input
  }

  /** First render: `useState(value)`, then the effect schedules a timeout for the same value. */
  function Mount<T>(value: T, delay: int, at: int): (s: State<T>)
    ensures s.input == value && s.delay == delay && s.changedAt == at
    ensures s.output == value
    ensures s.pending == Some(Timer(value, at + Wait(delay)))
    ensures Valid(s)
  {
    State(value, delay, at, value, Some(Timer(value, at + Wait(delay))))
  }

  function Step<T(==)>(s: State<T>, e: Event<T>): (r: State<T>)
    ensures Valid(s) ==> Valid(r)
    // a render with new arguments cancels the pending timeout and schedules one for the new value
    ensures e.Render? && (e.value != s.input || e.delay != s.delay) ==>
      && r.input == e.value && r.delay == e.delay && r.changedAt == e.at
      && r.pending == Some(Timer(e.value, e.at + Wait(e.delay)))
    // a render with the same arguments does not re-run the effect
    ensures e.Render? && e.value == s.input && e.delay == s.delay ==> r == s
    // a render never changes the debounced value by itself
    ensures e.Render? ==> r.output == s.output
    // the clock never changes the hook's arguments or when they last changed
    ensures e.Elapse? ==> r.input == s.input && r.delay == s.delay && r.changedAt == s.changedAt
    // before the pending timeout is due, or with none pending, the clock changes nothing
    ensures e.Elapse? && (s.pending.None? || e.at < s.pending.value.due) ==> r == s
    // the debounced value changes only to the latest input, after it has been stable for the whole delay
    ensures Valid(s) && r.output != s.output ==>
      e.Elapse? && r.output == s.input && e.at >= s.changedAt + Wait(s.delay)
    // once the delay has passed, the latest input is emitted
    ensures Valid(s) && e.Elapse? && e.at >= s.changedAt + Wait(s.delay) ==>
      r.output == s.input && r.pending == None
  {
    match e
    case Render(value, delay, at) =>
      if value == s.input && delay == s.delay then s
      else s.(input := value, delay := delay, changedAt := at, pending := Some(Timer(value, at + Wait(delay))))
    case Elapse(at) =>
      match s.pending
      case Some(t) => if at >= t.due then s.(output := t.value, pending := None) else s
      case None => s
  }

  /** The state after a sequence of events, applied in order. */
  function Run<T(==)>(s: State<T>, events: seq<Event<T>>): State<T>
  {
    if events == [] then s
    else Step(Run(s, events[..|events| - 1]), events[|events| - 1])
  }

  /** The values the hook has been rendered with during `events`. */
  function Inputs<T>(events: seq<Event<T>>): set<T>
  {
    set i | 0 <= i < |events| && events[i].Render? :: events[i].value
  }

  /**
   * Whatever happens, the debounced value and the latest input are values the
   * hook was actually given: the starting ones or ones rendered since.
   */
  lemma {:induction false} RunStaysWithinInputs<T>(s: State<T>, events: seq<Event<T>>)
    requires Valid(s)
    ensures Valid(Run(s, events))
    ensures Run(s, events).output in {s.output, s.input} + Inputs(events)
    ensures Run(s, events).input in {s.input} + Inputs(events)
  {
    if events != [] {
      var n := |events|;
      RunStaysWithinInputs(s, events[..n - 1]);
      assert Inputs(events[..n - 1]) <= Inputs(events) by {
        forall v | v in Inputs(events[..n - 1])
          ensures v in Inputs(events)
        {
          var i :| 0 <= i < n - 1 && events[..n - 1][i].Render? && events[..n - 1][i].value == v;
          assert events[i] == events[..n - 1][i];
        }
      }
      if events[n - 1].Render? {
        assert events[n - 1].value in Inputs(events);
      }
    }
  }

  /** From a fresh mount, the debounced value is the initial value or one the hook was rendered with. */
  lemma OutputIsSomeInput<T>(value: T, delay: int, at: int, events: seq<Event<T>>)
    ensures Run(Mount(value, delay, at), events).output in {value} + Inputs(events)
  {
    RunStaysWithinInputs(Mount(value, delay, at), events);
  }

  /**
   * A delay from 2^31 ms up to 2^32 ms wraps to a negative 32-bit value, so
   * the timeout scheduled for a new input fires at once.
   */
  lemma HugeDelayFiresAtOnce<T>(s: State<T>, value: T, delay: int, at: int)
    requires Valid(s) && value != s.input
    requires 0x8000_0000 <= delay < TwoTo32
    ensures Step(Step(s, Render(value, delay, at)), Elapse(at)).output == value
  {
    assert Wait(delay) == 0;
  }

  /**
   * Typing "a", "ab", "abc" with less than the delay between keystrokes: the
   * intermediate values are never emitted, and "abc" is emitted once the
   * delay has passed after the last keystroke.
   */
  lemma TypingBurstEmitsOnlyLast()
    ensures
      var s0 := Mount("", DefaultDelay, 0);
      var s1 := Step(s0, Render("a", DefaultDelay, 100));
      var s2 := Step(s1, Elapse(550));
      var s3 := Step(s2, Render("ab", DefaultDelay, 560));
      var s4 := Step(s3, Elapse(1000));
      var s5 := Step(s4, Render("abc", DefaultDelay, 1010));
      var s6 := Step(s5, Elapse(1509));
      var s7 := Step(s6, Elapse(1510));
      && s1.output == "" && s2.output == "" && s3.output == "" && s4.output == ""
      && s5.output == "" && s6.output == "" && s7.output == "abc"
  {
  }
}
