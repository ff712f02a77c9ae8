/** Rate-limited logging: repeated errors collapse into window summaries, successes into periodic counts. */
module RateLimit {
  import opened Options

  datatype Level = Debug | Info | Warning | Error

  /** What was written to the underlying logger, and for which key. */
  datatype Line =
    | First(key: string, msg: string, level: Level)
    | Summary(key: string, msg: string, seconds: int, count: nat, level: Level)
    | Periodic(key: string, template: string, count: nat, level: Level)

  datatype ErrState = ErrState(count: nat, firstTs: real, lastMsg: string, level: Level)

  datatype InfoState = InfoState(successes: nat, lastFlush: real, level: Option<Level>)

  /** `order` is the insertion order of the keys of `infos`. */
  datatype State = State(errs: map<string, ErrState>, infos: map<string, InfoState>, order: seq<string>, out: seq<Line>)

  datatype Op =
    | Fail(now: real, key: string, msg: string, window: int, level: Level)
    | Succeed(now: real, key: string)
    | Emit(now: real, key: string, template: string, interval: int, force: bool, level: Level)

  const FLUSH_TEMPLATE := "Periodic summary: succeeded {count} times"

  /** Conversion of a float to an integer drops the fraction. */
  function Truncated(x: real): (n: int)
    ensures if x >= 0.0 then n as real <= x < (n + 1) as real else (n - 1) as real < x <= n as real
  {
    if x >= 0.0 then x.Floor else -((-x).Floor)
  }

  function FailStep(s: State, now: real, key: string, msg: string, window: int, level: Level): State {
    if key !in s.errs then
      s.(errs := s.errs[key := ErrState(1, now, msg, level)], out := s.out + [First(key, msg, level)])
    else
      var e := s.errs[key];
      if now - e.firstTs >= window as real then
        s.(errs := s.errs[key := ErrState(1, now, msg, e.level)],
           out := s.out + [Summary(key, msg, Truncated(now - e.firstTs), e.count + 1, e.level)])
      else s.(errs := s.errs[key := e.(count := e.count + 1, lastMsg := msg)])
  }

  function SucceedStep(s: State, now: real, key: string): State {
    if key !in s.infos then s.(infos := s.infos[key := InfoState(1, now, None)], order := s.order + [key])
    else s.(infos := s.infos[key := s.infos[key].(successes := s.infos[key].successes + 1)])
  }

  /** The level is the first one given for the key. */
  function Sticky(i: InfoState, level: Level): Level {
    if i.level.Some? then i.level.value else level
  }

  function EmitStep(s: State, now: real, key: string, template: string, interval: int, force: bool, level: Level)
    : State
  {
    if key !in s.infos then s.(infos := s.infos[key := InfoState(0, now, Some(level))], order := s.order + [key])
    else
      var i := s.infos[key];
      var l := Sticky(i, level);
      if !force && now - i.lastFlush < interval as real then s.(infos := s.infos[key := i.(level := Some(l))])
      else
        s.(infos := s.infos[key := InfoState(0, now, Some(l))],
           out := if i.successes > 0 then s.out + [Periodic(key, template, i.successes, l)] else s.out)
  }

  function Step(s: State, op: Op): State {
    match op
    case Fail(now, key, msg, window, level) => FailStep(s, now, key, msg, window, level)
    case Succeed(now, key) => SucceedStep(s, now, key)
    case Emit(now, key, template, interval, force, level) => EmitStep(s, now, key, template, interval, force, level)
  }

  function Then(s: State, ops: seq<Op>): State {
    if ops == [] then s else Step(Then(s, ops[..|ops| - 1]), ops[|ops| - 1])
  }

  const EMPTY := State(map[], map[], [], [])

  function Run(ops: seq<Op>): State {
    Then(EMPTY, ops)
  }

  // ---------------------------------------------------------------- the logger

  class RateLimitedLogger {
    var errs: map<string, ErrState>
    var infos: map<string, InfoState>
    var order: seq<string>
    var out: seq<Line>

    function View(): State
      reads this
    {
      State(errs, infos, order, out)
    }

    constructor ()
      ensures View() == EMPTY
    {
      errs, infos, order, out := map[], map[], [], [];
    }

    method ErrorWindow(now: real, key: string, msg: string, window: int, level: Level)
      modifies this
      ensures View() == Step(old(View()), Fail(now, key, msg, window, level))
    {
      if key !in errs {
        errs := errs[key := ErrState(1, now, msg, level)];
        out := out + [First(key, msg, level)];
        return;
      }
      var state := errs[key];
      state := state.(count := state.count + 1, lastMsg := msg);
      errs := errs[key := state];
      if now - state.firstTs >= window as real {
        out := out + [Summary(key, msg, Truncated(now - state.firstTs), state.count, state.level)];
        errs := errs[key := ErrState(1, now, msg, state.level)];
      }
    }

    method RecordSuccess(now: real, key: string)
      modifies this
      ensures View() == Step(old(View()), Succeed(now, key))
    {
      if key !in infos {
        infos := infos[key := InfoState(1, now, None)];
        order := order + [key];
        return;
      }
      infos := infos[key := infos[key].(successes := infos[key].successes + 1)];
    }

    method EmitPeriodic(now: real, key: string, template: string, interval: int, force: bool, level: Level)
      modifies this
      ensures View() == Step(old(View()), Emit(now, key, template, interval, force, level))
    {
      if key !in infos {
        infos := infos[key := InfoState(0, now, Some(level))];
        order := order + [key];
        return;
      }
      var state := infos[key];
      if state.level.None? {
        state := state.(level := Some(level));
        infos := infos[key := state];
      }
      var elapsed, count := now - state.lastFlush, state.successes;
      if !force && elapsed < interval as real {
        return;
      }
      if count > 0 {
        out := out + [Periodic(key, template, count, state.level.value)];
      }
      assert infos[key := InfoState(0, now, state.level)] == old(infos)[key := InfoState(0, now, state.level)];
      infos := infos[key := state.(successes := 0, lastFlush := now)];
    }

    /** `clock` gives the time of each emission. */
    method FlushAll(clock: seq<real>)
      requires |clock| == |order|
      modifies this
      ensures View() == Then(old(View()), FlushOps(old(order), clock))
    {
      var keys := order;
      ghost var before, ops := View(), FlushOps(keys, clock);
      var i := 0;
      assert ops[..0] == [];
      while i < |keys|
        invariant 0 <= i <= |keys|
        invariant View() == Then(before, ops[..i])
      {
        EmitPeriodic(clock[i], keys[i], FLUSH_TEMPLATE, 60, true, Info);
        assert ops[..i + 1][..i] == ops[..i];
        i := i + 1;
      }
      assert ops[..i] == ops;
    }
  }

  function FlushOps(keys: seq<string>, clock: seq<real>): seq<Op>
    requires |clock| == |keys|
  {
    seq(|keys|, i requires 0 <= i < |keys| => Emit(clock[i], keys[i], FLUSH_TEMPLATE, 60, true, Info))
  }

  // ---------------------------------------------------------------- accounts

  function Events(ops: seq<Op>, key: string): nat {
    if ops == [] then 0
    else
      var last := ops[|ops| - 1];
      Events(ops[..|ops| - 1], key) + if last.Fail? && last.key == key then 1 else 0
  }

  function Successes(ops: seq<Op>, key: string): nat {
    if ops == [] then 0
    else
      var last := ops[|ops| - 1];
      Successes(ops[..|ops| - 1], key) + if last.Succeed? && last.key == key then 1 else 0
  }

  /** Successes reported so far. */
  function Reported(out: seq<Line>, key: string): nat {
    if out == [] then 0
    else
      var last := out[|out| - 1];
      Reported(out[..|out| - 1], key) + if last.Periodic? && last.key == key then last.count else 0
  }

  /** Occurrences claimed by the summaries so far. */
  function Claimed(out: seq<Line>, key: string): nat {
    if out == [] then 0
    else
      var last := out[|out| - 1];
      Claimed(out[..|out| - 1], key) + if last.Summary? && last.key == key then last.count else 0
  }

  function Summaries(out: seq<Line>, key: string): nat {
    if out == [] then 0
    else
      var last := out[|out| - 1];
      Summaries(out[..|out| - 1], key) + if last.Summary? && last.key == key then 1 else 0
  }

  function Firsts(out: seq<Line>, key: string): nat {
    if out == [] then 0
    else
      var last := out[|out| - 1];
      Firsts(out[..|out| - 1], key) + if last.First? && last.key == key then 1 else 0
  }

  function Periodics(out: seq<Line>, key: string): nat {
    if out == [] then 0
    else
      var last := out[|out| - 1];
      Periodics(out[..|out| - 1], key) + if last.Periodic? && last.key == key then 1 else 0
  }

  function Open(s: State, key: string): nat {
    if key in s.errs then s.errs[key].count else 0
  }

  function Pending(s: State, key: string): nat {
    if key in s.infos then s.infos[key].successes else 0
  }

  /** A step writes at most one line, after everything written before. */
  lemma StepOutput(s: State, op: Op)
    ensures var t := Step(s, op);
            || t.out == s.out
            || (|t.out| == |s.out| + 1 && t.out[..|s.out|] == s.out && t.out[|s.out|].key == op.key)
  {
  }

  /** Over every run and for every key, what was reported and what is pending add up to the successes recorded. */
  lemma {:induction false} SuccessesConserved(ops: seq<Op>, key: string)
    ensures Reported(Run(ops).out, key) + Pending(Run(ops), key) == Successes(ops, key)
  {
    if ops != [] {
      var before, op := ops[..|ops| - 1], ops[|ops| - 1];
      SuccessesConserved(before, key);
      StepOutput(Run(before), op);
    }
  }

  /**
    Over every run and for every key: the first occurrence is written at once and once only, and the summaries' counts
    plus the open count are the events plus one per summary, as each summary's last event also opens the next window.
   */
  lemma {:induction false} ErrorsConserved(ops: seq<Op>, key: string)
    ensures Claimed(Run(ops).out, key) + Open(Run(ops), key) == Events(ops, key) + Summaries(Run(ops).out, key)
    ensures Firsts(Run(ops).out, key) == if Events(ops, key) > 0 then 1 else 0
    ensures key in Run(ops).errs <==> Events(ops, key) > 0
    ensures key in Run(ops).errs ==> Run(ops).errs[key].count >= 1
  {
    if ops != [] {
      var before, op := ops[..|ops| - 1], ops[|ops| - 1];
      ErrorsConserved(before, key);
      StepOutput(Run(before), op);
    }
  }

  // ---------------------------------------------------------------- which events are written, and how

  /** The level of the key's first error event, if it has one. */
  function ErrorLevel(ops: seq<Op>, key: string, otherwise: Level): Level {
    if ops == [] then otherwise
    else
      var last := ops[|ops| - 1];
      ErrorLevel(ops[..|ops| - 1], key, if last.Fail? && last.key == key then last.level else otherwise)
  }

  /** The level of the key's first emission, if it has one. */
  function PeriodicLevel(ops: seq<Op>, key: string, otherwise: Level): Level {
    if ops == [] then otherwise
    else
      var last := ops[|ops| - 1];
      PeriodicLevel(ops[..|ops| - 1], key, if last.Emit? && last.key == key then last.level else otherwise)
  }

  /** An error event of the key that wrote a line. */
  ghost predicate Writes(ops: seq<Op>, key: string, i: nat) {
    i < |ops| && ops[i].Fail? && ops[i].key == key && Run(ops[..i + 1]).out != Run(ops[..i]).out
  }

  /** The key's latest error line was written by event `i`. */
  ghost predicate LastLine(ops: seq<Op>, key: string, i: nat) {
    Writes(ops, key, i) && forall j :: i < j < |ops| ==> !Writes(ops, key, j)
  }

  lemma WritesBefore(ops: seq<Op>, n: nat, key: string, i: nat)
    requires i < n <= |ops|
    ensures Writes(ops[..n], key, i) == Writes(ops, key, i)
  {
    assert ops[..n][..i + 1] == ops[..i + 1] && ops[..n][..i] == ops[..i];
  }

  /** What an event means for the key's record: it opens one, closes its window, or is added to it. */
  lemma EventStep(s: State, op: Op, key: string)
    ensures var t := Step(s, op);
            if !(op.Fail? && op.key == key) then key in t.errs <==> key in s.errs
            else
              && key in t.errs && t.errs[key].lastMsg == op.msg
              && if key !in s.errs then t.errs[key] == ErrState(1, op.now, op.msg, op.level) && t.out != s.out
                 else
                   && t.errs[key].level == s.errs[key].level
                   && if t.out != s.out then t.errs[key].count == 1 && t.errs[key].firstTs == op.now
                      else t.errs[key].count == s.errs[key].count + 1 && t.errs[key].firstTs == s.errs[key].firstTs
    ensures key in s.errs && !(op.Fail? && op.key == key) ==> Step(s, op).errs[key] == s.errs[key]
  {
  }

  /** The record tells what happened from event `i` on. */
  ghost predicate RecordFrom(e: ErrState, ops: seq<Op>, key: string, i: nat) {
    i < |ops| && e.firstTs == ops[i].now && e.count == Events(ops[i..], key)
  }

  /** The record of a key is that of its latest error line. */
  lemma {:induction false} RecordSinceLine(ops: seq<Op>, key: string) returns (i: nat)
    requires Events(ops, key) > 0
    ensures LastLine(ops, key, i) && key in Run(ops).errs && RecordFrom(Run(ops).errs[key], ops, key, i)
  {
    hide Step;
    var n := |ops| - 1;
    var before, op := ops[..n], ops[n];
    assert ops[..n + 1] == ops;
    EventStep(Run(before), op, key);
    if Events(before, key) == 0 {
      NoRecord(before, key);
      i := n;
      OneEvent(op, key);
      assert ops[n..] == [op];
    } else {
      i := RecordSinceLine(before, key);
      if Writes(ops, key, n) {
        i := n;
        OneEvent(op, key);
        assert ops[n..] == [op];
      } else {
        StillLast(ops, key, i);
        assert ops[i..][..|ops[i..]| - 1] == before[i..] && ops[i..][|ops[i..]| - 1] == op;
      }
    }
  }

  lemma {:induction false} RecordLevel(ops: seq<Op>, key: string, level: Level)
    requires Events(ops, key) > 0
    ensures key in Run(ops).errs && Run(ops).errs[key].level == ErrorLevel(ops, key, level)
  {
    hide Step;
    var before, op := ops[..|ops| - 1], ops[|ops| - 1];
    EventStep(Run(before), op, key);
    if Events(before, key) == 0 {
      NoRecord(before, key);
    } else {
      RecordLevel(before, key, if op.Fail? && op.key == key then op.level else level);
    }
  }

  lemma OneEvent(op: Op, key: string)
    ensures Events([op], key) == if op.Fail? && op.key == key then 1 else 0
  {
    assert [op][..0] == [];
  }

  lemma StillLast(ops: seq<Op>, key: string, i: nat)
    requires ops != [] && LastLine(ops[..|ops| - 1], key, i) && !Writes(ops, key, |ops| - 1)
    ensures LastLine(ops, key, i)
  {
    var n := |ops| - 1;
    forall j | i <= j < n ensures Writes(ops[..n], key, j) == Writes(ops, key, j) {
      WritesBefore(ops, n, key, j);
    }
  }

  lemma {:induction false} NoRecord(ops: seq<Op>, key: string)
    requires Events(ops, key) == 0
    ensures key !in Run(ops).errs && forall level :: ErrorLevel(ops, key, level) == level
  {
    if ops != [] {
      NoRecord(ops[..|ops| - 1], key);
    }
  }

  /** The line for an error event when the key's latest one was written by event `i`: a summary, or nothing yet. */
  function LineAfter(ops: seq<Op>, i: nat, op: Op): seq<Line>
    requires i < |ops| && op.Fail?
  {
    if op.now - ops[i].now < op.window as real then []
    else [Summary(op.key, op.msg, Truncated(op.now - ops[i].now), Events(ops[i..], op.key) + 1,
                  ErrorLevel(ops, op.key, op.level))]
  }

  /**
    In every run, an error event is silent exactly when the key's latest error line is less than a window old.  The
    first event is written as it is; a later line tells the events since that line, that one and itself included, the
    whole seconds since, and bears the level of the key's first event.
   */
  lemma ErrorLineExactly(ops: seq<Op>, op: Op)
    requires op.Fail?
    ensures Events(ops, op.key) == 0 ==> Run(ops + [op]).out == Run(ops).out + [First(op.key, op.msg, op.level)]
    ensures Events(ops, op.key) > 0 ==>
              exists i: nat :: LastLine(ops, op.key, i) && Run(ops + [op]).out == Run(ops).out + LineAfter(ops, i, op)
  {
    assert (ops + [op])[..|ops|] == ops;
    assert Run(ops + [op]) == Step(Run(ops), op);
    if Events(ops, op.key) == 0 {
      NoRecord(ops, op.key);
    } else {
      var i := RecordSinceLine(ops, op.key);
      RecordLevel(ops, op.key, op.level);
      LineFromRecord(Run(ops), ops, i, op);
    }
  }

  lemma LineFromRecord(s: State, ops: seq<Op>, i: nat, op: Op)
    requires op.Fail? && op.key in s.errs && RecordFrom(s.errs[op.key], ops, op.key, i)
    requires s.errs[op.key].level == ErrorLevel(ops, op.key, op.level)
    ensures Step(s, op).out == s.out + LineAfter(ops, i, op)
  {
  }

  /** When the key's current interval began: its first success or emission, or its latest emission that was due. */
  function Since(ops: seq<Op>, key: string): Option<real> {
    if ops == [] then None
    else
      var began, last := Since(ops[..|ops| - 1], key), ops[|ops| - 1];
      if last.key != key || last.Fail? then began
      else if began.None? then Some(last.now)
      else if last.Emit? && (last.force || last.now - began.value >= last.interval as real) then Some(last.now)
      else began
  }

  /** What a step means for the key's interval and level. */
  lemma InfoStep(s: State, op: Op, key: string)
    ensures var t := Step(s, op);
            if op.key != key || op.Fail? then
              (key in t.infos <==> key in s.infos) && (key in s.infos ==> t.infos[key] == s.infos[key])
            else
              && key in t.infos
              && (key !in s.infos ==> t.infos[key].lastFlush == op.now)
              && (key in s.infos ==>
                    t.infos[key].lastFlush ==
                    (if op.Emit? && (op.force || op.now - s.infos[key].lastFlush >= op.interval as real) then op.now
                     else s.infos[key].lastFlush))
              && t.infos[key].level ==
                 (if key in s.infos && s.infos[key].level.Some? then s.infos[key].level
                  else if op.Emit? then Some(op.level) else None)
  {
  }

  lemma {:induction false} IntervalRecord(ops: seq<Op>, key: string)
    ensures key in Run(ops).infos <==> Since(ops, key).Some?
    ensures key in Run(ops).infos ==>
              && Run(ops).infos[key].lastFlush == Since(ops, key).value
              && forall level :: Sticky(Run(ops).infos[key], level) == PeriodicLevel(ops, key, level)
    ensures key !in Run(ops).infos ==> forall level :: PeriodicLevel(ops, key, level) == level
  {
    if ops != [] {
      hide Step;
      IntervalRecord(ops[..|ops| - 1], key);
      InfoStep(Run(ops[..|ops| - 1]), ops[|ops| - 1], key);
    }
  }

  /**
    In every run, an emission writes a line exactly when it is forced or a whole interval has passed, and there are
    successes not reported yet: the line tells how many, at the level of the key's first emission.
   */
  lemma PeriodicLineExactly(ops: seq<Op>, op: Op)
    requires op.Emit?
    ensures var began, unreported := Since(ops, op.key), Successes(ops, op.key) - Reported(Run(ops).out, op.key);
            Run(ops + [op]).out == Run(ops).out +
              if began.Some? && (op.force || op.now - began.value >= op.interval as real) && unreported > 0
              then [Periodic(op.key, op.template, unreported, PeriodicLevel(ops, op.key, op.level))] else []
  {
    assert (ops + [op])[..|ops|] == ops;
    SuccessesConserved(ops, op.key);
    IntervalRecord(ops, op.key);
  }

  // ---------------------------------------------------------------- rates

  ghost predicate ClockForward(ops: seq<Op>) {
    forall i, j :: 0 <= i <= j < |ops| ==> ops[i].now <= ops[j].now
  }

  ghost predicate FixedWindow(ops: seq<Op>, key: string, w: int) {
    forall i :: 0 <= i < |ops| && ops[i].Fail? && ops[i].key == key ==> ops[i].window == w
  }

  ghost predicate FixedInterval(ops: seq<Op>, key: string, w: int) {
    forall i :: 0 <= i < |ops| && ops[i].Emit? && ops[i].key == key ==> ops[i].interval == w && !ops[i].force
  }

  /** No use of the key before `t0`, which is at or before the end of the run. */
  ghost predicate UsedSince(ops: seq<Op>, key: string, t0: real) {
    && (forall i :: 0 <= i < |ops| && ops[i].key == key ==> t0 <= ops[i].now)
    && ops != [] && t0 <= ops[|ops| - 1].now
  }

  lemma OneMore(n: nat, w: real)
    ensures (n + 1) as real * w == n as real * w + w
  {
    assert (n + 1) as real == n as real + 1.0;
  }

  lemma NotNegative(x: real, y: real)
    requires x >= 0.0 && y >= 0.0
    ensures x * y >= 0.0
  {
  }

  lemma AtMostOneMore(n: nat, n': nat, w: real)
    requires n' <= n + 1 && w >= 0.0
    ensures n' as real * w <= n as real * w + w
  {
    OneMore(n, w);
    var d := (n + 1 - n') as real;
    NotNegative(d, w);
    assert (n + 1) as real == n' as real + d;
    assert (n' as real + d) * w == n' as real * w + d * w;
  }

  /** What one step does to a key's window: nothing, or it closes the window, or it opens the first one. */
  lemma WindowStep(s: State, op: Op, key: string)
    ensures var t := Step(s, op);
            && (key in s.errs && !(op.Fail? && op.key == key) ==>
                  && key in t.errs && t.errs[key].firstTs == s.errs[key].firstTs
                  && Summaries(t.out, key) == Summaries(s.out, key))
            && (key in s.errs && op.Fail? && op.key == key ==>
                  && key in t.errs
                  && if op.now - s.errs[key].firstTs >= op.window as real
                     then t.errs[key].firstTs == op.now && Summaries(t.out, key) == Summaries(s.out, key) + 1
                     else t.errs[key].firstTs == s.errs[key].firstTs && Summaries(t.out, key) == Summaries(s.out, key))
            && (key !in s.errs ==> Summaries(t.out, key) == Summaries(s.out, key))
            && (key !in s.errs && key in t.errs ==> t.errs[key].firstTs == op.now && op.Fail? && op.key == key)
  {
    StepOutput(s, op);
  }

  lemma IntervalStep(s: State, op: Op, key: string)
    ensures var t := Step(s, op);
            && (key in s.infos && !(op.Emit? && op.key == key) ==>
                  && key in t.infos && t.infos[key].lastFlush == s.infos[key].lastFlush
                  && Periodics(t.out, key) == Periodics(s.out, key))
            && (key in s.infos && op.Emit? && op.key == key ==>
                  && key in t.infos
                  && if op.force || op.now - s.infos[key].lastFlush >= op.interval as real
                     then t.infos[key].lastFlush == op.now && Periodics(t.out, key) ==
                          Periodics(s.out, key) + if s.infos[key].successes > 0 then 1 else 0
                     else t.infos[key].lastFlush == s.infos[key].lastFlush
                          && Periodics(t.out, key) == Periodics(s.out, key))
            && (key !in s.infos ==> Periodics(t.out, key) == Periodics(s.out, key))
            && (key !in s.infos && key in t.infos ==> t.infos[key].lastFlush == op.now)
  {
    StepOutput(s, op);
  }

  lemma UsedBefore(ops: seq<Op>, key: string, t0: real)
    requires ClockForward(ops) && UsedSince(ops, key, t0)
    requires key in Run(ops[..|ops| - 1]).errs || key in Run(ops[..|ops| - 1]).infos
    ensures UsedSince(ops[..|ops| - 1], key, t0) && ops[|ops| - 2].now <= ops[|ops| - 1].now
  {
    var before := ops[..|ops| - 1];
    var i := SomeUse(before, key);
    assert before[i] == ops[i] && before[i].now <= before[|before| - 1].now;
  }

  lemma {:induction false} SomeUse(ops: seq<Op>, key: string) returns (i: nat)
    requires key in Run(ops).errs || key in Run(ops).infos
    ensures i < |ops| && ops[i].key == key
  {
    var n := |ops| - 1;
    if ops[n].key == key {
      i := n;
    } else {
      i := SomeUse(ops[..n], key);
    }
  }

  /** The windows that were closed fit between the first event and the opening of the current one. */
  lemma {:induction false} WindowsFit(ops: seq<Op>, key: string, w: int, t0: real)
    requires ClockForward(ops) && FixedWindow(ops, key, w) && UsedSince(ops, key, t0) && key in Run(ops).errs
    ensures var e := Run(ops).errs[key];
            && t0 <= e.firstTs <= ops[|ops| - 1].now
            && Summaries(Run(ops).out, key) as real * (w as real) <= e.firstTs - t0
  {
    hide Step, Summaries;
    var before, op := ops[..|ops| - 1], ops[|ops| - 1];
    WindowStep(Run(before), op, key);
    if key in Run(before).errs {
      UsedBefore(ops, key, t0);
      WindowsFit(before, key, w, t0);
      OneMore(Summaries(Run(before).out, key), w as real);
    } else {
      SomethingFirst(before, key);
    }
  }

  lemma {:induction false} SomethingFirst(ops: seq<Op>, key: string)
    requires key !in Run(ops).errs
    ensures Summaries(Run(ops).out, key) == 0
  {
    if ops != [] {
      SomethingFirst(ops[..|ops| - 1], key);
      StepOutput(Run(ops[..|ops| - 1]), ops[|ops| - 1]);
    }
  }

  /** At most one error line, plus one per window of the time since the key's first use. */
  lemma ErrorRate(ops: seq<Op>, key: string, w: int, t0: real)
    requires ClockForward(ops) && FixedWindow(ops, key, w) && w > 0 && UsedSince(ops, key, t0)
    ensures var lines := Firsts(Run(ops).out, key) + Summaries(Run(ops).out, key);
            lines as real <= 1.0 + (ops[|ops| - 1].now - t0) / (w as real)
  {
    hide Run, Firsts, Summaries, Events;
    ErrorsConserved(ops, key);
    if key in Run(ops).errs {
      WindowsFit(ops, key, w, t0);
    } else {
      SomethingFirst(ops, key);
    }
    RateBound(Firsts(Run(ops).out, key), Summaries(Run(ops).out, key), w as real, ops[|ops| - 1].now - t0);
  }

  lemma RateBound(firsts: nat, summaries: nat, w: real, elapsed: real)
    requires firsts <= 1 && w > 0.0 && summaries as real * w <= elapsed
    ensures (firsts + summaries) as real <= 1.0 + elapsed / w
  {
    Quotient(summaries as real, w, elapsed);
    assert (firsts + summaries) as real == firsts as real + summaries as real;
  }

  lemma Quotient(n: real, w: real, elapsed: real)
    requires w > 0.0 && n * w <= elapsed
    ensures n <= elapsed / w
  {
    var q := elapsed / w;
    assert (q - n) * w >= 0.0;
  }

  /** The same for periodic lines that are not forced; the first interval counts from the key's first use. */
  lemma {:induction false} IntervalsFit(ops: seq<Op>, key: string, w: int, t0: real)
    requires ClockForward(ops) && FixedInterval(ops, key, w) && UsedSince(ops, key, t0)
    requires w >= 0 && key in Run(ops).infos
    ensures var i := Run(ops).infos[key];
            && t0 <= i.lastFlush <= ops[|ops| - 1].now
            && Periodics(Run(ops).out, key) as real * (w as real) <= i.lastFlush - t0
  {
    hide Step, Periodics;
    var before, op := ops[..|ops| - 1], ops[|ops| - 1];
    IntervalStep(Run(before), op, key);
    if key in Run(before).infos {
      UsedBefore(ops, key, t0);
      IntervalsFit(before, key, w, t0);
      AtMostOneMore(Periodics(Run(before).out, key), Periodics(Run(ops).out, key), w as real);
    } else {
      NothingPeriodic(before, key);
    }
  }

  lemma {:induction false} NothingPeriodic(ops: seq<Op>, key: string)
    requires key !in Run(ops).infos
    ensures Periodics(Run(ops).out, key) == 0
  {
    if ops != [] {
      NothingPeriodic(ops[..|ops| - 1], key);
      StepOutput(Run(ops[..|ops| - 1]), ops[|ops| - 1]);
    }
  }

  /** At most one unforced periodic line per interval of elapsed time. */
  lemma PeriodicRate(ops: seq<Op>, key: string, w: int, t0: real)
    requires ClockForward(ops) && FixedInterval(ops, key, w) && w > 0 && UsedSince(ops, key, t0)
    ensures Periodics(Run(ops).out, key) as real <= (ops[|ops| - 1].now - t0) / (w as real)
  {
    if key in Run(ops).infos {
      IntervalsFit(ops, key, w, t0);
    } else {
      NothingPeriodic(ops, key);
    }
    Quotient(Periodics(Run(ops).out, key) as real, w as real, ops[|ops| - 1].now - t0);
  }

  // ---------------------------------------------------------------- shutdown

  lemma {:induction false} OrderIsKeys(ops: seq<Op>)
    ensures forall k :: k in Run(ops).order <==> k in Run(ops).infos
  {
    if ops != [] {
      OrderIsKeys(ops[..|ops| - 1]);
    }
  }

  lemma FlushOne(s: State, now: real, key: string)
    requires key in s.infos
    ensures var t := Step(s, Emit(now, key, FLUSH_TEMPLATE, 60, true, Info));
            && t.infos.Keys == s.infos.Keys && Pending(t, key) == 0
            && forall k :: k != key ==> Pending(t, k) == Pending(s, k)
  {
  }

  lemma FlushLast(s: State, keys: seq<string>, clock: seq<real>, n: nat)
    requires |clock| == |keys| && 0 < n <= |keys|
    ensures Then(s, FlushOps(keys, clock)[..n]) ==
            Step(Then(s, FlushOps(keys, clock)[..n - 1]),
                 Emit(clock[n - 1], keys[n - 1], FLUSH_TEMPLATE, 60, true, Info))
  {
    var ops := FlushOps(keys, clock);
    assert ops[..n][..n - 1] == ops[..n - 1] && ops[..n][n - 1] == ops[n - 1];
  }

  lemma {:induction false} FlushKeeps(s: State, keys: seq<string>, clock: seq<real>, n: nat)
    requires |clock| == |keys| && n <= |keys| && forall k :: k in keys ==> k in s.infos
    ensures var t := Then(s, FlushOps(keys, clock)[..n]);
            && t.infos.Keys == s.infos.Keys
            && (forall k :: k in s.infos && Pending(s, k) == 0 ==> Pending(t, k) == 0)
            && (forall i :: 0 <= i < n ==> Pending(t, keys[i]) == 0)
  {
    if n > 0 {
      var before := Then(s, FlushOps(keys, clock)[..n - 1]);
      FlushKeeps(s, keys, clock, n - 1);
      FlushLast(s, keys, clock, n);
      assert keys[n - 1] in keys;
      hide FlushOps, Step, Then, Pending;
      FlushOne(before, clock[n - 1], keys[n - 1]);
      forall i | 0 <= i < n ensures Pending(Then(s, FlushOps(keys, clock)[..n]), keys[i]) == 0 {
        assert i == n - 1 || Pending(before, keys[i]) == 0;
      }
    }
  }

  lemma {:induction false} ThenAfter(s: State, a: seq<Op>, b: seq<Op>)
    ensures Then(Then(s, a), b) == Then(s, a + b)
  {
    if b == [] {
      assert a + b == a;
    } else {
      ThenAfter(s, a, b[..|b| - 1]);
      assert (a + b)[..|a + b| - 1] == a + b[..|b| - 1];
    }
  }

  lemma {:induction false} FlushRecordsNothing(keys: seq<string>, clock: seq<real>, ops: seq<Op>, n: nat, key: string)
    requires |clock| == |keys| && n <= |keys|
    ensures Successes(ops + FlushOps(keys, clock)[..n], key) == Successes(ops, key)
  {
    var all := ops + FlushOps(keys, clock)[..n];
    if n == 0 {
      assert all == ops;
    } else {
      FlushRecordsNothing(keys, clock, ops, n - 1, key);
      assert all[..|all| - 1] == ops + FlushOps(keys, clock)[..n - 1];
    }
  }

  /** After a final flush every success has been reported. */
  lemma FlushReportsAll(ops: seq<Op>, clock: seq<real>, key: string)
    requires |clock| == |Run(ops).order|
    ensures Reported(Then(Run(ops), FlushOps(Run(ops).order, clock)).out, key) == Successes(ops, key)
  {
    var keys := Run(ops).order;
    var flush := FlushOps(keys, clock);
    OrderIsKeys(ops);
    FlushKeeps(Run(ops), keys, clock, |keys|);
    FlushRecordsNothing(keys, clock, ops, |keys|, key);
    assert flush[..|keys|] == flush;
    ThenAfter(EMPTY, ops, flush);
    SuccessesConserved(ops + flush, key);
  }
}
