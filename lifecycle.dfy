/** The lifecycle shared by every managed server (class `Base`): deploy,
    start with a doubling back-off, stop with a fixed pause. The executor,
    the sleeps and the warnings are recorded as events on a trace; the
    liveness check (`_alive`) is an oracle whose future answers are a
    sequence that each probe consumes. */
module Lifecycle {
  import opened Text

  datatype Warning = AlreadyRunning | StillNotAlive | AlreadyStopped

  datatype Event =
    | Probe(alive: bool)                 // one call of `_alive()` and its answer
    | Command(cmd: string)               // a control or deploy command handed to the executor;
                                         // the PING behind a probe is recorded as the Probe
    | Sleep(ms: nat)                     // a pause of the given length while starting
    | Pause                              // the executor's default pause while stopping
    | Warn(warning: Warning)
    | WriteFile(file: string, content: string)
    | WriteControlScript(file: string)   // rendered from its template, then made executable

  /** The position of the first `x` in `xs`. */
  function FirstIndex<T(==)>(xs: seq<T>, x: T): (k: nat)
    requires x in xs
    ensures k < |xs| && xs[k] == x
    ensures forall j :: 0 <= j < k ==> xs[j] != x
  {
    if xs[0] == x then 0 else 1 + FirstIndex(xs[1..], x)
  }

  /** The first `x` is at the front exactly when `xs` starts with `x`. */
  lemma FirstIndexZero<T>(xs: seq<T>, x: T)
    requires x in xs
    ensures FirstIndex(xs, x) == 0 <==> xs[0] == x
  {
  }

  /** The items `pick` selects from a trace, in order. */
  function Select<T>(events: seq<Event>, pick: Event -> Option<T>): seq<T>
  {
    if events == [] then []
    else
      var last := events[|events| - 1];
      Select(events[..|events| - 1], pick) + (if pick(last).Some? then [pick(last).value] else [])
  }

  lemma {:induction false} SelectAppend<T>(a: seq<Event>, b: seq<Event>, pick: Event -> Option<T>)
    ensures Select(a + b, pick) == Select(a, pick) + Select(b, pick)
    decreases |b|
  {
    if b != [] {
      var init := b[..|b| - 1];
      assert (a + b)[..|a + b| - 1] == a + init;
      var last := b[|b| - 1];
      assert (a + b)[|a + b| - 1] == last;
      var tail := if pick(last).Some? then [pick(last).value] else [];
      assert Select(a + b, pick) == Select(a + init, pick) + tail;
      assert Select(b, pick) == Select(init, pick) + tail;
      SelectAppend(a, init, pick);
    } else {
      assert a + b == a;
    }
  }

  lemma {:induction false} SelectNone<T>(events: seq<Event>, pick: Event -> Option<T>)
    requires forall i :: 0 <= i < |events| ==> pick(events[i]).None?
    ensures Select(events, pick) == []
  {
    if events != [] {
      SelectNone(events[..|events| - 1], pick);
    }
  }

  function CommandOf(e: Event): Option<string>
  {
    if e.Command? then Some(e.cmd) else None
  }

  function SleepOf(e: Event): Option<nat>
  {
    if e.Sleep? then Some(e.ms) else None
  }

  function WarningOf(e: Event): Option<Warning>
  {
    if e.Warn? then Some(e.warning) else None
  }

  // ---------------------------------------------------------------------
  // Back-off of `start`: the pause starts at 0.1 s and doubles while it is
  // below 5 s; once it is not, it is set to 5 s and a warning is logged.
  // Milliseconds here: doubling 0.1 is exact in binary floating point, so
  // every comparison the source makes comes out the same.

  const InitialIntervalMs: nat := 100
  const MaxIntervalMs: nat := 5000

  /** The update of `sleeptime` after one unsuccessful probe. */
  function NextInterval(ms: nat): nat
  {
    if ms < MaxIntervalMs then ms * 2 else MaxIntervalMs
  }

  /** The pause slept in round `i` (from 0) of the polling loop. */
  function Interval(i: nat): nat
  {
    if i == 0 then InitialIntervalMs else NextInterval(Interval(i - 1))
  }

  function Pow2(k: nat): nat
  {
    if k == 0 then 1 else 2 * Pow2(k - 1)
  }

  /** The schedule is 100, 200, 400, 800, 1600, 3200, 6400 ms and then 5000 ms
      for ever: the cap is tested before it is applied, so one pause of
      6400 ms happens first. */
  lemma {:induction false} IntervalClosedForm(i: nat)
    ensures Interval(i) == if i <= 6 then InitialIntervalMs * Pow2(i) else MaxIntervalMs
  {
    if i > 0 {
      IntervalClosedForm(i - 1);
      if i <= 6 {
        assert Pow2(i - 1) <= 32 by {
          if i - 1 == 5 {} else if i - 1 == 4 {} else if i - 1 == 3 {} else if i - 1 == 2 {}
        }
      }
    }
  }

  /** Only the seventh pause exceeds five seconds. */
  lemma OnlySeventhIntervalExceedsCap(i: nat)
    ensures Interval(i) > MaxIntervalMs <==> i == 6
    ensures Interval(i) >= MaxIntervalMs <==> i >= 6
  {
    IntervalClosedForm(i);
    if i <= 6 {
      assert Pow2(i) <= 32 || i == 6 by {
        if i == 5 {} else if i == 4 {} else if i == 3 {} else if i == 2 {} else if i == 1 {}
      }
    }
  }

  /** One unsuccessful round of the start loop: the probe, the pause, and
      the warning when the pause was already at least the cap. */
  function StartRound(i: nat): seq<Event>
  {
    [Probe(false)] + Backoff(i)
  }

  /** The pause after the `i`-th unsuccessful probe of the start loop, and
      the warning when the pause was already at least the cap. */
  function Backoff(i: nat): seq<Event>
  {
    [Sleep(Interval(i))] + (if Interval(i) < MaxIntervalMs then [] else [Warn(StillNotAlive)])
  }

  function StartRounds(n: nat): seq<Event>
  {
    if n == 0 then [] else StartRounds(n - 1) + StartRound(n - 1)
  }

  /** What `start` does when the first positive answer of the liveness check
      is its `k`-th one (from 0): nothing but a warning when the process is
      already alive, otherwise the start command and `k - 1` unsuccessful
      rounds before the successful probe. */
  function StartEvents(startCmd: string, k: nat): seq<Event>
  {
    if k == 0 then [Probe(true), Warn(AlreadyRunning)]
    else [Probe(false), Command(startCmd)] + StartRounds(k - 1) + [Probe(true)]
  }

  function StopRounds(n: nat): seq<Event>
  {
    if n == 0 then [] else StopRounds(n - 1) + [Probe(true), Pause]
  }

  /** What `stop` does when the first negative answer of the liveness check
      is its `k`-th one. */
  function StopEvents(stopCmd: string, k: nat): seq<Event>
  {
    if k == 0 then [Probe(false), Warn(AlreadyStopped)]
    else [Probe(true), Command(stopCmd)] + StopRounds(k - 1) + [Probe(false)]
  }

  /** What `deploy` does: create the directories, run the type-specific
      pre-deploy step, write the control script. */
  function DeployEvents(mkdirCmd: string, preDeploy: seq<Event>, controlScript: string): seq<Event>
  {
    [Command(mkdirCmd)] + preDeploy + [WriteControlScript(controlScript)]
  }

  /** A single event is selected exactly when it is of the kind asked for. */
  lemma {:induction false} SelectSingle<T>(e: Event, pick: Event -> Option<T>)
    ensures Select([e], pick) == if pick(e).Some? then [pick(e).value] else []
  {
    assert [e][..0] == [];
  }

  /** The events of one unsuccessful round of `start`, one at a time. */
  lemma StartRoundSplit<T>(i: nat, pick: Event -> Option<T>)
    ensures Select(StartRound(i), pick) ==
      Select([Probe(false)], pick) + Select([Sleep(Interval(i))], pick)
      + (if Interval(i) < MaxIntervalMs then [] else Select([Warn(StillNotAlive)], pick))
  {
    var tail: seq<Event> := if Interval(i) < MaxIntervalMs then [] else [Warn(StillNotAlive)];
    assert StartRound(i) == [Probe(false)] + [Sleep(Interval(i))] + tail;
    SelectAppend([Probe(false)] + [Sleep(Interval(i))], tail, pick);
    SelectAppend([Probe(false)], [Sleep(Interval(i))], pick);
    if tail == [] {
      SelectNone(tail, pick);
    }
  }

  /** One unsuccessful round of `start` sleeps once, for the round's interval. */
  lemma StartRoundSleep(i: nat)
    ensures Select(StartRound(i), SleepOf) == [Interval(i)]
  {
    StartRoundSplit(i, SleepOf);
    SelectSingle(Probe(false), SleepOf);
    SelectSingle(Sleep(Interval(i)), SleepOf);
    SelectSingle(Warn(StillNotAlive), SleepOf);
  }

  /** One unsuccessful round of `start` warns exactly when its interval had
      reached the cap. */
  lemma StartRoundWarning(i: nat)
    ensures Select(StartRound(i), WarningOf) == if Interval(i) < MaxIntervalMs then [] else [StillNotAlive]
  {
    StartRoundSplit(i, WarningOf);
    SelectSingle(Probe(false), WarningOf);
    SelectSingle(Sleep(Interval(i)), WarningOf);
    SelectSingle(Warn(StillNotAlive), WarningOf);
  }

  /** One unsuccessful round of `start` issues no command. */
  lemma StartRoundNoCommand(i: nat)
    ensures Select(StartRound(i), CommandOf) == []
  {
    StartRoundSplit(i, CommandOf);
    SelectSingle(Probe(false), CommandOf);
    SelectSingle(Sleep(Interval(i)), CommandOf);
    SelectSingle(Warn(StillNotAlive), CommandOf);
  }

  /** The pauses of the first `n` unsuccessful rounds follow the schedule. */
  lemma {:induction false} StartRoundsSleeps(n: nat)
    ensures |Select(StartRounds(n), SleepOf)| == n
    ensures forall i :: 0 <= i < n ==> Select(StartRounds(n), SleepOf)[i] == Interval(i)
  {
    if n > 0 {
      StartRoundsSleeps(n - 1);
      SelectAppend(StartRounds(n - 1), StartRound(n - 1), SleepOf);
      StartRoundSleep(n - 1);
      var before := Select(StartRounds(n - 1), SleepOf);
      assert Select(StartRounds(n), SleepOf) == before + [Interval(n - 1)];
    }
  }

  /** The "still not alive" warning comes from the seventh unsuccessful round
      on, once per round, and is the only warning of the loop. */
  lemma {:induction false} StartRoundsWarnings(n: nat)
    ensures |Select(StartRounds(n), WarningOf)| == if n <= 6 then 0 else n - 6
    ensures forall w :: w in Select(StartRounds(n), WarningOf) ==> w == StillNotAlive
  {
    if n > 0 {
      StartRoundsWarnings(n - 1);
      OnlySeventhIntervalExceedsCap(n - 1);
      SelectAppend(StartRounds(n - 1), StartRound(n - 1), WarningOf);
      StartRoundWarning(n - 1);
    }
  }

  /** The only warning of the start loop is "still not alive". */
  lemma {:induction false} StartRoundsWarnStillNotAlive(n: nat)
    ensures forall e :: e in StartRounds(n) && e.Warn? ==> e.warning == StillNotAlive
  {
    if n > 0 {
      StartRoundsWarnStillNotAlive(n - 1);
      assert forall e :: e in StartRound(n - 1) && e.Warn? ==> e.warning == StillNotAlive;
    }
  }

  lemma {:induction false} StartRoundsIssueNoCommand(n: nat)
    ensures Select(StartRounds(n), CommandOf) == []
  {
    if n > 0 {
      StartRoundsIssueNoCommand(n - 1);
      SelectAppend(StartRounds(n - 1), StartRound(n - 1), CommandOf);
      StartRoundNoCommand(n - 1);
    }
  }

  lemma {:induction false} StopRoundsIssueNoCommand(n: nat)
    ensures Select(StopRounds(n), CommandOf) == []
  {
    if n > 0 {
      StopRoundsIssueNoCommand(n - 1);
      SelectAppend(StopRounds(n - 1), [Probe(true), Pause], CommandOf);
      assert [Probe(true), Pause][..1] == [Probe(true)];
    }
  }

  /** A guarded run that goes ahead issues its one command: a probe, the
      command, rounds that issue none, and a final probe. */
  lemma GuardedCommand(first: bool, cmd: string, rounds: seq<Event>, last: bool)
    requires Select(rounds, CommandOf) == []
    ensures Select([Probe(first), Command(cmd)] + rounds + [Probe(last)], CommandOf) == [cmd]
  {
    var head := [Probe(first), Command(cmd)];
    assert head == [Probe(first)] + [Command(cmd)];
    SelectAppend([Probe(first)], [Command(cmd)], CommandOf);
    SelectSingle(Probe(first), CommandOf);
    SelectSingle(Command(cmd), CommandOf);
    SelectAppend(head, rounds, CommandOf);
    SelectAppend(head + rounds, [Probe(last)], CommandOf);
    SelectSingle(Probe(last), CommandOf);
  }

  /** A run that finds the process already in the wanted state issues no
      command. */
  lemma WarnOnlyIssuesNoCommand(answer: bool, w: Warning)
    ensures Select([Probe(answer), Warn(w)], CommandOf) == []
  {
    SelectNone([Probe(answer), Warn(w)], CommandOf);
  }

  /** `start` is guarded: when the process is already alive it issues no
      command and only warns; otherwise it issues exactly one start command
      and ends on a successful probe. */
  lemma StartIssuesAtMostOneCommand(startCmd: string, k: nat)
    ensures Select(StartEvents(startCmd, k), CommandOf) == if k == 0 then [] else [startCmd]
    ensures k > 0 ==> StartEvents(startCmd, k)[|StartEvents(startCmd, k)| - 1] == Probe(true)
  {
    if k == 0 {
      WarnOnlyIssuesNoCommand(true, AlreadyRunning);
    } else {
      StartRoundsIssueNoCommand(k - 1);
      GuardedCommand(false, startCmd, StartRounds(k - 1), true);
    }
  }

  /** The "already running" warning is given exactly when the first probe
      finds the process alive. */
  lemma StartWarnsOnlyWhenRunning(startCmd: string, k: nat)
    ensures Warn(AlreadyRunning) in StartEvents(startCmd, k) <==> k == 0
  {
    if k > 0 {
      StartRoundsWarnStillNotAlive(k - 1);
    }
  }

  /** `stop` is guarded: when the process is already down it issues no
      command and only warns; otherwise it issues exactly one stop command
      and ends on a probe that finds the process down. */
  lemma StopIssuesAtMostOneCommand(stopCmd: string, k: nat)
    ensures Select(StopEvents(stopCmd, k), CommandOf) == if k == 0 then [] else [stopCmd]
    ensures k > 0 ==> StopEvents(stopCmd, k)[|StopEvents(stopCmd, k)| - 1] == Probe(false)
  {
    if k == 0 {
      WarnOnlyIssuesNoCommand(false, AlreadyStopped);
    } else {
      StopRoundsIssueNoCommand(k - 1);
      GuardedCommand(true, stopCmd, StopRounds(k - 1), false);
    }
  }

  /** The "already stopped" warning is given exactly when the first probe
      finds the process down. */
  lemma StopWarnsOnlyWhenDown(stopCmd: string, k: nat)
    ensures Warn(AlreadyStopped) in StopEvents(stopCmd, k) <==> k == 0
  {
    if k > 0 {
      StopRoundsWithoutWarning(k - 1);
    }
  }

  lemma {:induction false} StopRoundsWithoutWarning(n: nat)
    ensures forall e :: e in StopRounds(n) ==> !e.Warn?
  {
    if n > 0 {
      StopRoundsWithoutWarning(n - 1);
    }
  }

  /** Consuming the answer at `i`, no later than the first `x`: the rest
      follows it, and it is an `x` only if it is the first one. */
  lemma Advance<T>(xs: seq<T>, x: T, i: nat)
    requires x in xs && i <= FirstIndex(xs, x)
    ensures i < |xs| && xs[i..][0] == xs[i] && xs[i..][1..] == xs[i + 1..]
    ensures xs[i] == x <==> i == FirstIndex(xs, x)
  {
  }

  /** Re-brackets a trace grown by one round, so that the loop invariant of
      the polling methods sees the grown part as one sequence. */
  lemma AppendRound(prefix: seq<Event>, rounds: seq<Event>, round: seq<Event>)
    ensures prefix + rounds + round == prefix + (rounds + round)
  {
  }

  /** Re-brackets the events of a guarded start or stop after the events
      recorded before it, as the method postconditions state them. */
  lemma GuardedRun(before: seq<Event>, probe: Event, cmd: Event, rounds: seq<Event>, last: Event)
    ensures before + [probe] + [cmd] + rounds + [last] == before + ([probe, cmd] + rounds + [last])
  {
    assert [probe] + [cmd] == [probe, cmd];
  }

  /** Re-brackets the three phases of `reconfig` after the earlier trace. */
  lemma AppendThree(before: seq<Event>, a: seq<Event>, b: seq<Event>, c: seq<Event>)
    ensures before + a + b + c == before + (a + b + c)
  {
  }

  /** The command `deploy` runs to create the server's directories. */
  function MkdirCommand(path: string): string
  {
    "mkdir -p " + path + "/bin && mkdir -p " + path + "/conf && mkdir -p " + path
    + "/log && mkdir -p " + path + "/data "
  }

  /** Where `deploy` writes the control script: `path/name_control`. */
  function ControlScriptPath(path: string, name: string): string
  {
    path + "/" + name + "_control"
  }

  /** The call of the control script that `start` and `stop` issue. */
  function ControlCommand(path: string, name: string, action: string): string
  {
    "cd " + path + " && ./" + name + "_control " + action
  }

  /** A managed server: its identity and, standing in for the outside world,
      what it has done so far and what the liveness check will answer next. */
  class Process {
    const name: string
    const host: string
    const port: nat
    const path: string
    /** The commands and the control script path rendered from the above:
        `startCommand` and `stopCommand` call the control script; the server's
        own command line is the `startCmd` of the node or proxy. */
    const mkdirCommand: string
    const controlScript: string
    const startCommand: string
    const stopCommand: string
    /** Everything observable the controller has done, oldest first. */
    var trace: seq<Event>
    /** The answers the liveness check will give, in the order it is asked. */
    var liveness: seq<bool>

    constructor (name: string, host: string, port: nat, path: string, liveness: seq<bool>)
      ensures this.name == name && this.host == host && this.port == port && this.path == path
      ensures this.liveness == liveness && trace == []
      ensures mkdirCommand == MkdirCommand(path)
      ensures controlScript == ControlScriptPath(path, name)
      ensures startCommand == ControlCommand(path, name, "start")
      ensures stopCommand == ControlCommand(path, name, "stop")
    {
      this.name := name;
      this.host := host;
      this.port := port;
      this.path := path;
      this.liveness := liveness;
      trace := [];
      mkdirCommand := MkdirCommand(path);
      controlScript := ControlScriptPath(path, name);
      startCommand := ControlCommand(path, name, "start");
      stopCommand := ControlCommand(path, name, "stop");
    }

    /** `_alive()`: consult the liveness check once. */
    method Alive() returns (alive: bool)
      requires liveness != []
      modifies this
      ensures alive == old(liveness)[0] && liveness == old(liveness)[1..]
      ensures trace == old(trace) + [Probe(alive)]
    {
      alive := liveness[0];
      liveness := liveness[1..];
      trace := trace + [Probe(alive)];
    }

    /** `_run(cmd)`: hand a command to the executor. */
    method Run(cmd: string)
      modifies this
      ensures trace == old(trace) + [Command(cmd)] && liveness == old(liveness)
    {
      trace := trace + [Command(cmd)];
    }

    /** `deploy()`: `preDeploy` is what the server type's `_pre_deploy` does. */
    method Deploy(preDeploy: seq<Event>)
      modifies this
      ensures trace == old(trace) + DeployEvents(mkdirCommand, preDeploy, controlScript)
      ensures liveness == old(liveness)
    {
      Run(mkdirCommand);
      trace := trace + preDeploy;
      trace := trace + [WriteControlScript(controlScript)];
    }

    /** The pause between two probes of `start`, which doubles the next
        pause until it reaches the cap and warns once it has. */
    method WaitBeforeRetry(sleepMs: nat, ghost i: nat) returns (next: nat)
      requires sleepMs == Interval(i)
      modifies this
      ensures next == Interval(i + 1)
      ensures trace == old(trace) + Backoff(i) && liveness == old(liveness)
    {
      trace := trace + [Sleep(sleepMs)];
      if sleepMs < MaxIntervalMs {
        next := sleepMs * 2;
      } else {
        next := MaxIntervalMs;
        trace := trace + [Warn(StillNotAlive)];
      }
    }

    /** The polling loop of `start`: probe until the process is alive,
        pausing between probes with the backoff. */
    method AwaitAlive()
      requires true in liveness
      modifies this
      ensures liveness == old(liveness)[FirstIndex(old(liveness), true) + 1..]
      ensures trace == old(trace) + StartRounds(FirstIndex(old(liveness), true)) + [Probe(true)]
    {
      ghost var answers := liveness;
      ghost var k := FirstIndex(answers, true);
      var sleepMs := InitialIntervalMs;
      ghost var rounds: nat := 0;
      FirstIndexZero(answers, true);
      var alive := Alive();
      while !alive
        invariant rounds <= k
        invariant alive <==> rounds == k
        invariant liveness == answers[rounds + 1..]
        invariant sleepMs == Interval(rounds)
        invariant trace == old(trace) + StartRounds(rounds) + [Probe(alive)]
        decreases |liveness|
      {
        ghost var done := old(trace) + StartRounds(rounds);
        sleepMs := WaitBeforeRetry(sleepMs, rounds);
        AppendRound(done, [Probe(false)], Backoff(rounds));
        AppendRound(old(trace), StartRounds(rounds), StartRound(rounds));
        Advance(answers, true, rounds + 1);
        rounds := rounds + 1;
        alive := Alive();
      }
    }

    /** `start()`. It returns only once the liveness check has said yes, so
        the check must say yes at some point. */
    method Start()
      requires true in liveness
      modifies this
      ensures liveness == old(liveness)[FirstIndex(old(liveness), true) + 1..]
      ensures trace == old(trace) + StartEvents(startCommand, FirstIndex(old(liveness), true))
    {
      ghost var answers := liveness;
      var alive := Alive();
      if alive {
        trace := trace + [Warn(AlreadyRunning)];
        return;
      }
      Run(startCommand);
      ghost var rest := liveness;
      assert rest == answers[1..];
      ghost var j := FirstIndex(rest, true);
      assert FirstIndex(answers, true) == j + 1;
      AwaitAlive();
      assert rest[j + 1..] == answers[j + 2..];
      GuardedRun(old(trace), Probe(false), Command(startCommand), StartRounds(j), Probe(true));
    }

    /** `lets_sleep()`: the executor's default pause between two probes of
        `stop`. */
    method PauseBeforeRetry()
      modifies this
      ensures trace == old(trace) + [Pause] && liveness == old(liveness)
    {
      trace := trace + [Pause];
    }

    /** The polling loop of `stop`: probe until the process is down, with
        the default pause between probes. */
    method AwaitDown()
      requires false in liveness
      modifies this
      ensures liveness == old(liveness)[FirstIndex(old(liveness), false) + 1..]
      ensures trace == old(trace) + StopRounds(FirstIndex(old(liveness), false)) + [Probe(false)]
    {
      ghost var answers := liveness;
      ghost var k := FirstIndex(answers, false);
      ghost var rounds: nat := 0;
      FirstIndexZero(answers, false);
      var alive := Alive();
      while alive
        invariant rounds <= k
        invariant !alive <==> rounds == k
        invariant liveness == answers[rounds + 1..]
        invariant trace == old(trace) + StopRounds(rounds) + [Probe(alive)]
        decreases |liveness|
      {
        alive := RetryDown(answers, old(trace), rounds);
        rounds := rounds + 1;
      }
    }

    /** One more turn of the polling loop of `stop`, after a probe that
        still found the process alive: pause, then probe again. */
    method RetryDown(ghost answers: seq<bool>, ghost before: seq<Event>, ghost rounds: nat)
      returns (alive: bool)
      requires false in answers && rounds < FirstIndex(answers, false)
      requires liveness == answers[rounds + 1..]
      requires trace == before + StopRounds(rounds) + [Probe(true)]
      modifies this
      ensures alive <==> rounds + 1 < FirstIndex(answers, false)
      ensures liveness == answers[rounds + 2..]
      ensures trace == before + StopRounds(rounds + 1) + [Probe(alive)]
    {
      ghost var done := before + StopRounds(rounds);
      PauseBeforeRetry();
      AppendRound(done, [Probe(true)], [Pause]);
      AppendRound(before, StopRounds(rounds), [Probe(true), Pause]);
      Advance(answers, false, rounds + 1);
      alive := Alive();
    }

    /** `stop()`. It returns only once the liveness check has said no, so
        the check must say no at some point. */
    method Stop()
      requires false in liveness
      modifies this
      ensures liveness == old(liveness)[FirstIndex(old(liveness), false) + 1..]
      ensures trace == old(trace) + StopEvents(stopCommand, FirstIndex(old(liveness), false))
    {
      ghost var answers := liveness;
      var alive := Alive();
      if !alive {
        trace := trace + [Warn(AlreadyStopped)];
        return;
      }
      Run(stopCommand);
      ghost var rest := liveness;
      assert rest == answers[1..];
      ghost var j := FirstIndex(rest, false);
      assert FirstIndex(answers, false) == j + 1;
      AwaitDown();
      assert rest[j + 1..] == answers[j + 2..];
      GuardedRun(old(trace), Probe(true), Command(stopCommand), StopRounds(j), Probe(false));
    }
  }
}
