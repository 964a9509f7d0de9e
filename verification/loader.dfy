/** The single-flight live-editor script loader (`loadLiveEditorScript`,
    src/utils.ts) as an event-driven state machine. The module-level promise
    is the `phase`; script injection, removal and the retry timer are recorded
    in `log` instead of touching a DOM. Events are the loader's own calls and
    the browser's `onload`, `onerror` and timer callbacks. */
module Loader {

  /** What the loader did to the page: append the script for an attempt,
      remove a failed attempt's script, or arm the retry timer. */
  datatype Action = Inject(attempt: nat) | Remove(attempt: nat) | ScheduleRetry(delay: int)

  /** `Idle`: no promise yet. `Loading(a)`: attempt `a`'s script is in the
      page. `Waiting(a)`: attempt `a` failed and the retry timer is armed.
      `Resolved(b)`: the promise settled with `b`. */
  datatype Phase = Idle | Loading(attempt: nat) | Waiting(attempt: nat) | Resolved(loaded: bool)

  /** The loader's state; `retries` and `delay` are those of the first call. */
  datatype Loader = Loader(phase: Phase, retries: int, delay: int, log: seq<Action>)

  datatype Event =
    | Load(retries: int, delay: int, hasWindow: bool)  // a call of loadLiveEditorScript
    | ScriptLoaded                                     // onload of the current script
    | ScriptFailed                                     // onerror of the current script
    | TimerFired                                       // the retry timeout elapsed

  const Initial := Loader(Idle, 0, 0, [])

  /** A call: the first one starts attempt 1 (or settles `false` at once when
      there is no window); every later call returns the same promise and does
      nothing, whatever its arguments. */
  function LoadLiveEditorScript(l: Loader, retries: int, delay: int, hasWindow: bool): (r: Loader)
    ensures l.phase != Idle ==> r == l
    ensures l.phase == Idle && !hasWindow ==> r.phase == Resolved(false) && r.log == l.log
    ensures l.phase == Idle && hasWindow ==>
      r.phase == Loading(1) && r.log == l.log + [Inject(1)] && r.retries == retries && r.delay == delay
  {
    if l.phase != Idle then l
    else if !hasWindow then Loader(Resolved(false), retries, delay, l.log)
    else Loader(Loading(1), retries, delay, l.log + [Inject(1)])
  }

  /** One event. `onload` settles `true`; `onerror` removes the script, then
      arms the fixed-delay timer while `attempt < retries` and settles `false`
      otherwise; the timer injects the next attempt. A settled loader never
      changes again. */
  function Step(l: Loader, e: Event): (r: Loader)
    ensures l.phase.Resolved? ==> r == l
    ensures e.Load? ==> r == LoadLiveEditorScript(l, e.retries, e.delay, e.hasWindow)
    ensures !e.Load? ==> r.retries == l.retries && r.delay == l.delay && |l.log| <= |r.log| && r.log[..|l.log|] == l.log
    ensures e == ScriptLoaded && l.phase.Loading? ==> r.phase == Resolved(true) && r.log == l.log
    ensures e == ScriptFailed && l.phase.Loading? ==>
      var a := l.phase.attempt;
      && |r.log| > |l.log| && r.log[|l.log|] == Remove(a)
      && (a < l.retries ==> r.phase == Waiting(a) && r.log == l.log + [Remove(a), ScheduleRetry(l.delay)])
      && (a >= l.retries ==> r.phase == Resolved(false) && r.log == l.log + [Remove(a)])
    ensures e == TimerFired && l.phase.Waiting? ==>
      r.phase == Loading(l.phase.attempt + 1) && r.log == l.log + [Inject(l.phase.attempt + 1)]
  {
    match e
    case Load(retries, delay, hasWindow) => LoadLiveEditorScript(l, retries, delay, hasWindow)
    case ScriptLoaded =>
      if l.phase.Loading? then l.(phase := Resolved(true)) else l
    case ScriptFailed =>
      if l.phase.Loading? then
        var a := l.phase.attempt;
        if a < l.retries then
          l.(phase := Waiting(a), log := l.log + [Remove(a), ScheduleRetry(l.delay)])
        else
          l.(phase := Resolved(false), log := l.log + [Remove(a)])
      else l
    case TimerFired =>
      if l.phase.Waiting? then
        var a := l.phase.attempt + 1;
        l.(phase := Loading(a), log := l.log + [Inject(a)])
      else l
  }

  /** The state after a sequence of events. */
  function Run(l: Loader, es: seq<Event>): Loader
    decreases |es|
  {
    if |es| == 0 then l else Run(Step(l, es[0]), es[1..])
  }

  /** The number of attempts the loader makes: one, or `retries` if larger. */
  function MaxAttempts(retries: int): nat {
    if retries < 1 then 1 else retries
  }

  /** The log of `n` failed attempts: each injection followed by its removal,
      consecutive attempts separated by the fixed delay. */
  function Failed(n: nat, delay: int): seq<Action>
    decreases n, 1
  {
    if n == 0 then [] else Before(n, delay) + [Inject(n), Remove(n)]
  }

  /** The log just before attempt `a` is injected. */
  function Before(a: nat, delay: int): seq<Action>
    decreases a, 0
  {
    if a <= 1 then [] else Failed(a - 1, delay) + [ScheduleRetry(delay)]
  }

  /** What the log can be in each phase. */
  predicate Inv(l: Loader) {
    match l.phase
    case Idle => l.log == []
    case Loading(a) => 1 <= a <= MaxAttempts(l.retries) && l.log == Before(a, l.delay) + [Inject(a)]
    case Waiting(a) => 1 <= a < l.retries && l.log == Failed(a, l.delay) + [ScheduleRetry(l.delay)]
    case Resolved(loaded) =>
      if loaded then
        exists a | 1 <= a <= MaxAttempts(l.retries) :: l.log == Before(a, l.delay) + [Inject(a)]
      else
        l.log == [] || l.log == Failed(MaxAttempts(l.retries), l.delay)
  }

  /** Every event keeps the invariant. */
  lemma StepKeepsInv(l: Loader, e: Event)
    requires Inv(l)
    ensures Inv(Step(l, e))
  {
    var r := Step(l, e);
    match l.phase
    case Loading(a) =>
      if e == ScriptLoaded {
        assert r.log == Before(a, l.delay) + [Inject(a)];
      } else if e == ScriptFailed {
        assert l.log + [Remove(a)] == Failed(a, l.delay);
        if a < l.retries {
          assert r.log == Failed(a, l.delay) + [ScheduleRetry(l.delay)];
        } else {
          assert a == MaxAttempts(l.retries);
        }
      }
    case Waiting(a) =>
      if e == TimerFired {
        assert r.log == Before(a + 1, l.delay) + [Inject(a + 1)];
      }
    case Idle =>
    case Resolved(_) =>
  }

  /** Every state reachable from the initial one satisfies the invariant. */
  lemma {:induction false} RunKeepsInv(l: Loader, es: seq<Event>)
    requires Inv(l)
    ensures Inv(Run(l, es))
    decreases |es|
  {
    if |es| > 0 {
      StepKeepsInv(l, es[0]);
      RunKeepsInv(Step(l, es[0]), es[1..]);
    }
  }

  /** Counts the injections of a log, one action at a time. */
  function CountInjections(log: seq<Action>): nat
    decreases |log|
  {
    if |log| == 0 then 0
    else CountInjections(log[..|log| - 1]) + (if log[|log| - 1].Inject? then 1 else 0)
  }

  lemma {:induction false} CountAppend(a: seq<Action>, b: seq<Action>)
    ensures CountInjections(a + b) == CountInjections(a) + CountInjections(b)
    decreases |b|
  {
    if |b| > 0 {
      var ab := a + b;
      CountAppend(a, b[..|b| - 1]);
      assert ab[..|ab| - 1] == a + b[..|b| - 1];
      assert ab[|ab| - 1] == b[|b| - 1];
    } else {
      assert a + b == a;
    }
  }

  lemma {:induction false} CountFailed(n: nat, delay: int)
    ensures CountInjections(Failed(n, delay)) == n
    ensures n >= 1 ==> CountInjections(Before(n, delay)) == n - 1
    decreases n
  {
    if n >= 1 {
      if n > 1 {
        CountFailed(n - 1, delay);
        CountAppend(Failed(n - 1, delay), [ScheduleRetry(delay)]);
      }
      CountAppend(Before(n, delay), [Inject(n), Remove(n)]);
      assert CountInjections([Inject(n), Remove(n)]) == 1 by {
        assert [Inject(n), Remove(n)][..1] == [Inject(n)];
        assert [Inject(n)][..0] == [];
      }
    }
  }

  /** However the events interleave, at most `max(1, retries)` scripts are
      ever injected, with `retries` from the first call. */
  lemma InjectionsBounded(es: seq<Event>)
    ensures var l := Run(Initial, es);
      CountInjections(l.log) <= MaxAttempts(l.retries)
  {
    var l := Run(Initial, es);
    RunKeepsInv(Initial, es);
    match l.phase
    case Idle =>
    case Loading(a) =>
      CountFailed(a, l.delay);
      CountAppend(Before(a, l.delay), [Inject(a)]);
      assert [Inject(a)][..0] == [];
    case Waiting(a) =>
      CountFailed(a, l.delay);
      CountAppend(Failed(a, l.delay), [ScheduleRetry(l.delay)]);
      assert [ScheduleRetry(l.delay)][..0] == [];
    case Resolved(loaded) =>
      if loaded {
        var a :| 1 <= a <= MaxAttempts(l.retries) && l.log == Before(a, l.delay) + [Inject(a)];
        CountFailed(a, l.delay);
        CountAppend(Before(a, l.delay), [Inject(a)]);
        assert [Inject(a)][..0] == [];
      } else if l.log != [] {
        CountFailed(MaxAttempts(l.retries), l.delay);
      }
  }

  /** A `false` outcome after a started load means every one of the
      `max(1, retries)` attempts was injected and then removed, with the fixed
      delay between consecutive attempts. */
  lemma FailureExhaustsAttempts(es: seq<Event>)
    requires Run(Initial, es).phase == Resolved(false) && Run(Initial, es).log != []
    ensures var l := Run(Initial, es);
      l.log == Failed(MaxAttempts(l.retries), l.delay)
  {
    RunKeepsInv(Initial, es);
  }

  /** Once settled, no later call or event changes anything: every caller
      sees the first outcome. */
  lemma {:induction false} SettledIsFinal(l: Loader, es: seq<Event>)
    requires l.phase.Resolved?
    ensures Run(l, es) == l
    decreases |es|
  {
    if |es| > 0 {
      SettledIsFinal(Step(l, es[0]), es[1..]);
    }
  }

  /** Once the first call is made, later calls change nothing: their
      arguments are ignored. */
  lemma {:induction false} LaterCallsIgnored(l: Loader, es: seq<Event>)
    requires l.phase != Idle
    requires forall i | 0 <= i < |es| :: es[i].Load?
    ensures Run(l, es) == l
    decreases |es|
  {
    if |es| > 0 {
      LaterCallsIgnored(Step(l, es[0]), es[1..]);
    }
  }

  /** Two attempts, both failing: false after exactly two injections, each
      removed, with one 3000 ms wait between them. */
  lemma TwoFailuresExample()
    ensures Run(Initial, [Load(2, 3000, true), ScriptFailed, TimerFired, ScriptFailed])
      == Loader(Resolved(false), 2, 3000,
                [Inject(1), Remove(1), ScheduleRetry(3000), Inject(2), Remove(2)])
  {
    var es := [Load(2, 3000, true), ScriptFailed, TimerFired, ScriptFailed];
    assert es[1..][1..][1..][1..] == [];
  }
}
