/**
  The per-session message allowance of the game connector
  (`consumeMessageAllowance` in src/service/game-connector-websocket-service.ts).
 */
module RateWindow {

  datatype Window = Window(startedAt: int, messages: nat)

  const MAX_MESSAGES_PER_MINUTE := 120
  const RATE_WINDOW_MS := 60_000

  function Tick(window: Window, now: int): Window {
    if now - window.startedAt >= RATE_WINDOW_MS then Window(now, 1)
    else window.(messages := window.messages + 1)
  }

  predicate Allowed(window: Window) {
    window.messages <= MAX_MESSAGES_PER_MINUTE
  }

  predicate Ordered(from: int, times: seq<int>)
    decreases |times|
  {
    times == [] || (from <= times[0] && Ordered(times[0], times[1..]))
  }

  predicate InMinute(start: int, time: int) {
    start <= time < start + RATE_WINDOW_MS
  }

  /** How many frames arriving at `times` pass the allowance in the minute from `start`. */
  function Passed(window: Window, times: seq<int>, start: int): nat
    decreases |times|
  {
    if times == [] then 0
    else
      var next := Tick(window, times[0]);
      (if Allowed(next) && InMinute(start, times[0]) then 1 else 0) + Passed(next, times[1..], start)
  }

  function Remaining(window: Window): nat {
    if Allowed(window) then MAX_MESSAGES_PER_MINUTE - window.messages else 0
  }

  lemma {:induction false} LateFrames(window: Window, times: seq<int>, start: int)
    requires Ordered(start + RATE_WINDOW_MS, times)
    ensures Passed(window, times, start) == 0
    decreases |times|
  {
    if times != [] {
      LateFrames(Tick(window, times[0]), times[1..], start);
    }
  }

  /** From a window opened at or after `start`, only its remaining allowance passes in the minute. */
  lemma {:induction false} OneWindow(window: Window, times: seq<int>, start: int)
    requires start <= window.startedAt && Ordered(window.startedAt, times)
    ensures Passed(window, times, start) <= Remaining(window)
    decreases |times|
  {
    if times != [] {
      if times[0] - window.startedAt < RATE_WINDOW_MS {
        OneWindow(Tick(window, times[0]), times[1..], start);
      } else {
        LateFrames(Tick(window, times[0]), times[1..], start);
      }
    }
  }

  /** Once the minute has begun, at most one more window follows the current one in it. */
  lemma {:induction false} TwoWindows(window: Window, times: seq<int>, start: int)
    requires window.startedAt <= start && Ordered(start, times)
    ensures Passed(window, times, start) <= Remaining(window) + MAX_MESSAGES_PER_MINUTE
    decreases |times|
  {
    if times != [] {
      var next := Tick(window, times[0]);
      if times[0] - window.startedAt < RATE_WINDOW_MS {
        TwoWindows(next, times[1..], start);
      } else {
        OneWindow(next, times[1..], start);
      }
    }
  }

  /** Any half-open minute lets at most 240 frames of one session pass, whatever came before. */
  lemma {:induction false} AtMostTwoAllowances(window: Window, times: seq<int>, start: int)
    requires Ordered(window.startedAt, times)
    ensures Passed(window, times, start) <= 240
    decreases |times|
  {
    if times != [] {
      if start <= window.startedAt {
        OneWindow(window, times, start);
      } else if start <= times[0] {
        TwoWindows(window, times, start);
      } else {
        AtMostTwoAllowances(Tick(window, times[0]), times[1..], start);
      }
    }
  }

  function Burst(count: nat, time: int): seq<int> {
    if count == 0 then [] else [time] + Burst(count - 1, time)
  }

  lemma {:induction false} BurstPasses(window: Window, count: nat, time: int, rest: seq<int>, start: int)
    requires 0 <= time - window.startedAt < RATE_WINDOW_MS && InMinute(start, time)
    requires window.messages + count <= MAX_MESSAGES_PER_MINUTE && Ordered(time, rest)
    ensures Ordered(time, Burst(count, time) + rest)
    ensures Passed(window, Burst(count, time) + rest, start)
      == count + Passed(window.(messages := window.messages + count), rest, start)
    decreases count
  {
    var times := Burst(count, time) + rest;
    if count == 0 {
      assert times == rest;
    } else {
      assert times[1..] == Burst(count - 1, time) + rest;
      BurstPasses(Tick(window, time), count - 1, time, rest, start);
    }
  }

  /** The bound is reached: a whole allowance at the end of one window, another when the next opens. */
  lemma TwoAllowancesAreReached()
    ensures exists times ::
      Ordered(0, times) && Passed(Window(0, 0), times, 59_999) == 240
  {
    var start := RATE_WINDOW_MS - 1;
    var later := Burst(MAX_MESSAGES_PER_MINUTE - 1, RATE_WINDOW_MS);
    assert later + [] == later;
    BurstPasses(Window(RATE_WINDOW_MS, 1), MAX_MESSAGES_PER_MINUTE - 1, RATE_WINDOW_MS, [], start);
    var second := [RATE_WINDOW_MS] + later;
    assert second[1..] == later;
    BurstPasses(Window(0, 0), MAX_MESSAGES_PER_MINUTE, start, second, start);
    var times := Burst(MAX_MESSAGES_PER_MINUTE, start) + second;
    assert times[0] == start;
    assert Ordered(0, times);
  }
}
