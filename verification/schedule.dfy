/** The order in which `computeNTF` touches the engine's buffers, abstracted to version
    counters. Every mode's local factor carries the number of times it has been written;
    every derived buffer records the versions it was computed from. An event that reads
    a buffer computed from an older factor than the current one is a stale read, and the
    run stops there. The values themselves are modelled in `DistAuntf`. */
module Schedule {
  import opened Results

  /** The versions a derived buffer was computed from: for which mode, and the version
      of every mode's input at that moment. `Nothing` until it is first computed. */
  datatype Snapshot = Nothing | Taken(mode: nat, inputs: seq<int>)

  /** `factor[i]`: how often mode i's local factor has been written since construction.
      `gram[i]` / `gathered[i]`: the factor version mode i's global Gram and gathered
      factor were computed from, −1 for the constructor's placeholder (zeros and a
      random fill). `mttkrp` and `combined` are the last `distmttkrp` output and the
      last `gram_hadamard` result. */
  datatype State = State(factor: seq<nat>, gram: seq<int>, gathered: seq<int>,
                         mttkrp: Snapshot, combined: Snapshot)

  datatype Event =
    | UpdateGram(m: nat)   // update_global_gram(m)
    | Gather(m: nat)       // gather_ncp_factor(m)
    | Mttkrp(m: nat)       // distmttkrp(m)
    | Combine(m: nat)      // gram_hadamard(m)
    | LocalUpdate(m: nat)  // the solver's update of mode m, then normalisation
    | ErrorCheck           // computeError

  datatype Fault = NoSuchMode(at: Event) | StaleRead(at: Event)

  predicate WellFormed(s: State) {
    |s.gram| == |s.factor| && |s.gathered| == |s.factor|
  }

  /** The state right after construction: no factor written yet, no Gram and no
      gathered factor computed from one. */
  function Initial(n: nat): (s: State)
    ensures WellFormed(s) && |s.factor| == n
    ensures forall i :: 0 <= i < n ==> s.factor[i] == 0 && s.gram[i] < s.factor[i] && s.gathered[i] < s.factor[i]
  {
    State(seq(n, _ => 0), seq(n, _ => -1), seq(n, _ => -1), Nothing, Nothing)
  }

  /** Every mode but `except` has `versions` equal to its current factor version. */
  predicate Current(versions: seq<int>, factor: seq<nat>, except: int) {
    |versions| == |factor| && forall i :: 0 <= i < |factor| && i != except ==> versions[i] == factor[i]
  }

  /** The snapshot was taken for mode m from the current versions of every other mode. */
  predicate Fresh(snap: Snapshot, m: nat, factor: seq<nat>) {
    snap.Taken? && snap.mode == m && Current(snap.inputs, factor, m)
  }

  /** Everything `ev` reads is up to date. The MTTKRP of mode m reads the gathered
      factors of the other modes; `gram_hadamard(m)` reads their Grams; the solver reads
      both of mode m's results; the error estimate reads the combined Gram and the MTTKRP
      of the last mode together with that mode's own Gram. */
  predicate Ready(s: State, ev: Event)
    requires WellFormed(s)
  {
    match ev
    case UpdateGram(_) => true
    case Gather(_) => true
    case Mttkrp(m) => Current(s.gathered, s.factor, m)
    case Combine(m) => Current(s.gram, s.factor, m)
    case LocalUpdate(m) => Fresh(s.mttkrp, m, s.factor) && Fresh(s.combined, m, s.factor)
    case ErrorCheck =>
      var last := |s.factor| - 1;
      last >= 0 && Fresh(s.mttkrp, last, s.factor) && Fresh(s.combined, last, s.factor)
      && s.gram[last] == s.factor[last]
  }

  predicate InRange(ev: Event, n: nat) {
    !ev.ErrorCheck? ==> ev.m < n
  }

  /** One event. It fails on a mode that does not exist and on a stale read. */
  function Step(s: State, ev: Event): (r: Result<State, Fault>)
    requires WellFormed(s)
    ensures !InRange(ev, |s.factor|) ==> r == Err(NoSuchMode(ev))
    ensures InRange(ev, |s.factor|) ==> (r.Ok? <==> Ready(s, ev))
    ensures r.Ok? ==> WellFormed(r.value) && |r.value.factor| == |s.factor|
  {
    if !InRange(ev, |s.factor|) then Err(NoSuchMode(ev))
    else if !Ready(s, ev) then Err(StaleRead(ev))
    else Ok(Apply(s, ev))
  }

  /** What a successful step changes: only the local update advances a factor version;
      updating a Gram or gathering a factor brings that mode up to date; the MTTKRP and
      the Gram product record fresh inputs. */
  lemma StepEffects(s: State, ev: Event)
    requires WellFormed(s) && Step(s, ev).Ok?
    ensures var t := Step(s, ev).value;
            forall i :: 0 <= i < |s.factor| ==> t.factor[i] == s.factor[i] + (if ev == LocalUpdate(i) then 1 else 0)
    ensures var t := Step(s, ev).value;
            ev.UpdateGram? ==> (Current(t.gram, t.factor, -1) <==> Current(s.gram, s.factor, ev.m))
    ensures var t := Step(s, ev).value;
            ev.Gather? ==> (Current(t.gathered, t.factor, -1) <==> Current(s.gathered, s.factor, ev.m))
    ensures var t := Step(s, ev).value;
            ev.Mttkrp? ==> Fresh(t.mttkrp, ev.m, t.factor)
    ensures var t := Step(s, ev).value;
            ev.Combine? ==> Fresh(t.combined, ev.m, t.factor)
  {
  }

  /** What an event writes, once it is allowed to run. */
  function Apply(s: State, ev: Event): State
    requires WellFormed(s) && InRange(ev, |s.factor|)
  {
    match ev
    case UpdateGram(m) => s.(gram := s.gram[m := s.factor[m]])
    case Gather(m) => s.(gathered := s.gathered[m := s.factor[m]])
    case Mttkrp(m) => s.(mttkrp := Taken(m, s.gathered))
    case Combine(m) => s.(combined := Taken(m, s.gram))
    case LocalUpdate(m) => s.(factor := s.factor[m := s.factor[m] + 1])
    case ErrorCheck => s
  }

  /** The events in order, stopping at the first fault. */
  function Run(s: State, trace: seq<Event>): (r: Result<State, Fault>)
    requires WellFormed(s)
    ensures r.Ok? ==> WellFormed(r.value) && |r.value.factor| == |s.factor|
  {
    if |trace| == 0 then Ok(s)
    else
      var before :- Run(s, trace[..|trace| - 1]);
      Step(before, trace[|trace| - 1])
  }

  lemma RunSnoc(s: State, trace: seq<Event>, ev: Event)
    requires WellFormed(s)
    ensures Run(s, trace + [ev]) == if Run(s, trace).Ok? then Step(Run(s, trace).value, ev) else Run(s, trace)
  {
    assert (trace + [ev])[..|trace|] == trace;
  }

  /** A fault stays a fault whatever follows. */
  lemma {:induction false} RunPrefixFails(s: State, trace: seq<Event>, more: seq<Event>)
    requires WellFormed(s) && Run(s, trace).Err?
    ensures Run(s, trace + more) == Run(s, trace)
    decreases |more|
  {
    if |more| > 0 {
      var front := more[..|more| - 1];
      RunPrefixFails(s, trace, front);
      assert trace + more == (trace + front) + [more[|more| - 1]];
      RunSnoc(s, trace + front, more[|more| - 1]);
    } else {
      assert trace + more == trace;
    }
  }

  /** Lines 383-385: before the first iteration, the Gram and gathered factor of every
      mode except mode 0 are computed from the constructor's factors. */
  function Prewarm(n: nat): (t: seq<Event>)
    ensures |t| == 2 * (if n == 0 then 0 else n - 1)
  {
    if n <= 1 then [] else Prewarm(n - 1) + [UpdateGram(n - 1), Gather(n - 1)]
  }

  /** One mode's turn in an iteration, lines 405-437. */
  function Turn(m: nat): (t: seq<Event>)
    ensures |t| == 5 && t[0] == Mttkrp(m) && t[2] == LocalUpdate(m)
  {
    [Mttkrp(m), Combine(m), LocalUpdate(m), UpdateGram(m), Gather(m)]
  }

  /** The prewarm succeeds and leaves every mode but mode 0 up to date; mode 0's Gram and
      gathered factor are still the constructor's placeholders. */
  lemma PrewarmState(n: nat)
    requires n >= 1
    ensures Run(Initial(n), Prewarm(n)).Ok?
    ensures var s := Run(Initial(n), Prewarm(n)).value;
            s.factor == Initial(n).factor && s.mttkrp == Nothing && s.combined == Nothing
            && Current(s.gram, s.factor, 0) && Current(s.gathered, s.factor, 0)
            && s.gram[0] == -1 && s.gathered[0] == -1
  {
    PrewarmPrefix(n, n);
  }

  /** The state after prewarming modes 1 .. j − 1 of n: no factor written, no snapshot
      taken, and exactly those modes' Grams and gathered factors computed from version 0. */
  predicate PrewarmedTo(s: State, n: nat, j: nat) {
    && WellFormed(s) && s.factor == Initial(n).factor && s.mttkrp == Nothing && s.combined == Nothing
    && (forall i :: 0 <= i < n ==> s.gram[i] == (if 1 <= i < j then 0 else -1))
    && (forall i :: 0 <= i < n ==> s.gathered[i] == (if 1 <= i < j then 0 else -1))
  }

  /** Running the prewarm of fewer modes on more modes touches only the modes it names. */
  lemma {:induction false} PrewarmPrefix(j: nat, n: nat)
    requires 1 <= j <= n
    ensures Run(Initial(n), Prewarm(j)).Ok?
    ensures PrewarmedTo(Run(Initial(n), Prewarm(j)).value, n, j)
  {
    if j > 1 {
      PrewarmPrefix(j - 1, n);
      var s0 := Initial(n);
      var t := Prewarm(j - 1);
      var s := Run(s0, t).value;
      RunSnocOk(s0, t, s, UpdateGram(j - 1));
      var s1 := Apply(s, UpdateGram(j - 1));
      RunSnocOk(s0, t + [UpdateGram(j - 1)], s1, Gather(j - 1));
      PrewarmStep(s, n, j);
      assert Prewarm(j) == t + [UpdateGram(j - 1)] + [Gather(j - 1)];
    } else {
      assert Prewarm(j) == [];
    }
  }

  /** Updating and gathering mode j − 1 extends the prewarmed modes by one. */
  lemma PrewarmStep(s: State, n: nat, j: nat)
    requires 1 < j <= n && PrewarmedTo(s, n, j - 1)
    ensures PrewarmedTo(Apply(Apply(s, UpdateGram(j - 1)), Gather(j - 1)), n, j)
  {
  }

  /** Appending an event that may run extends a successful run by its effect. */
  lemma RunSnocOk(s0: State, trace: seq<Event>, s: State, ev: Event)
    requires WellFormed(s0) && Run(s0, trace) == Ok(s)
    requires InRange(ev, |s.factor|) && Ready(s, ev)
    ensures Run(s0, trace + [ev]) == Ok(Apply(s, ev))
  {
    RunSnoc(s0, trace, ev);
  }

  /** Mode 0 needs no prewarm: its first MTTKRP and Gram product read only the other
      modes, which the prewarm brought up to date. */
  lemma ModeZeroNeedsNoPrewarm(n: nat)
    requires n >= 1
    ensures Run(Initial(n), Prewarm(n) + [Mttkrp(0), Combine(0), LocalUpdate(0)]).Ok?
  {
    var s0, t := Initial(n), Prewarm(n);
    PrewarmState(n);
    var p := Run(s0, t).value;
    RunSnocOk(s0, t, p, Mttkrp(0));
    var p1 := Apply(p, Mttkrp(0));
    RunSnocOk(s0, t + [Mttkrp(0)], p1, Combine(0));
    var p2 := Apply(p1, Combine(0));
    RunSnocOk(s0, t + [Mttkrp(0)] + [Combine(0)], p2, LocalUpdate(0));
    assert t + [Mttkrp(0)] + [Combine(0)] + [LocalUpdate(0)] == t + [Mttkrp(0), Combine(0), LocalUpdate(0)];
  }

  /** Without the prewarm, mode 0's first MTTKRP reads mode 1's random gathered factor. */
  lemma NoPrewarmIsStale(n: nat)
    requires n >= 2
    ensures Run(Initial(n), [Mttkrp(0)]) == Err(StaleRead(Mttkrp(0)))
  {
    var s0 := Initial(n);
    RunSnoc(s0, [], Mttkrp(0));
    assert [] + [Mttkrp(0)] == [Mttkrp(0)];
    assert s0.gathered[1] != s0.factor[1];
  }

  /** Dropping `gather_ncp_factor(0)` from mode 0's turn makes mode 1's MTTKRP stale. */
  lemma SkippedGatherIsStale(n: nat)
    requires n >= 2
    ensures Run(Initial(n), Prewarm(n) + [Mttkrp(0), Combine(0), LocalUpdate(0), UpdateGram(0), Mttkrp(1)])
            == Err(StaleRead(Mttkrp(1)))
  {
    var s0, t := Initial(n), Prewarm(n);
    PrewarmState(n);
    var p := Run(s0, t).value;
    RunSnocOk(s0, t, p, Mttkrp(0));
    var p1 := Apply(p, Mttkrp(0));
    RunSnocOk(s0, t + [Mttkrp(0)], p1, Combine(0));
    var p2 := Apply(p1, Combine(0));
    RunSnocOk(s0, t + [Mttkrp(0)] + [Combine(0)], p2, LocalUpdate(0));
    var p3 := Apply(p2, LocalUpdate(0));
    RunSnocOk(s0, t + [Mttkrp(0)] + [Combine(0)] + [LocalUpdate(0)], p3, UpdateGram(0));
    var p4 := Apply(p3, UpdateGram(0));
    var t4 := t + [Mttkrp(0)] + [Combine(0)] + [LocalUpdate(0)] + [UpdateGram(0)];
    assert p4.gathered[0] == -1 && p4.factor[0] == 1;
    RunSnoc(s0, t4, Mttkrp(1));
    assert t4 + [Mttkrp(1)] == t + [Mttkrp(0), Combine(0), LocalUpdate(0), UpdateGram(0), Mttkrp(1)];
  }

  /** Appends one event that is known to succeed. */
  method Emit(s0: State, trace: seq<Event>, s: State, ev: Event) returns (trace': seq<Event>, s': State)
    requires WellFormed(s0) && Run(s0, trace) == Ok(s)
    requires InRange(ev, |s.factor|) && Ready(s, ev)
    ensures trace' == trace + [ev] && Run(s0, trace') == Ok(s')
    ensures s' == Apply(s, ev)
  {
    RunSnoc(s0, trace, ev);
    trace' := trace + [ev];
    s' := Apply(s, ev);
  }

  /** Plays mode c's turn: its MTTKRP and Gram product read up-to-date inputs, the solver
      writes a new factor version, and the mode's Gram and gathered factor catch up. */
  method PlayTurn(s0: State, trace: seq<Event>, s: State, c: nat) returns (trace': seq<Event>, s': State)
    requires WellFormed(s0) && Run(s0, trace) == Ok(s) && WellFormed(s) && c < |s.factor|
    requires Current(s.gathered, s.factor, c) && Current(s.gram, s.factor, c)
    ensures trace' == trace + Turn(c) && Run(s0, trace') == Ok(s') && WellFormed(s')
    ensures s'.factor == s.factor[c := s.factor[c] + 1]
    ensures Current(s'.gram, s'.factor, -1) && Current(s'.gathered, s'.factor, -1)
    ensures Fresh(s'.mttkrp, c, s'.factor) && Fresh(s'.combined, c, s'.factor)
  {
    trace', s' := Solve(s0, trace, s, c);
    trace', s' := Emit(s0, trace', s', UpdateGram(c));
    trace', s' := Emit(s0, trace', s', Gather(c));
    assert trace + [Mttkrp(c), Combine(c), LocalUpdate(c)] + [UpdateGram(c)] + [Gather(c)] == trace + Turn(c);
  }

  /** The first half of mode c's turn, up to the solver's update: the MTTKRP and the
      Gram product read up-to-date inputs, and only mode c's factor version moves. */
  method Solve(s0: State, trace: seq<Event>, s: State, c: nat) returns (trace': seq<Event>, s': State)
    requires WellFormed(s0) && Run(s0, trace) == Ok(s) && WellFormed(s) && c < |s.factor|
    requires Current(s.gathered, s.factor, c) && Current(s.gram, s.factor, c)
    ensures trace' == trace + [Mttkrp(c), Combine(c), LocalUpdate(c)] && Run(s0, trace') == Ok(s') && WellFormed(s')
    ensures s'.factor == s.factor[c := s.factor[c] + 1] && s'.gram == s.gram && s'.gathered == s.gathered
    ensures Fresh(s'.mttkrp, c, s'.factor) && Fresh(s'.combined, c, s'.factor)
  {
    trace', s' := Emit(s0, trace, s, Mttkrp(c));
    trace', s' := Emit(s0, trace', s', Combine(c));
    trace', s' := Emit(s0, trace', s', LocalUpdate(c));
  }

  /** The turns of modes 0 .. c − 1, in order. */
  function Turns(c: nat): (t: seq<Event>)
    ensures |t| == 5 * c
  {
    if c == 0 then [] else Turns(c - 1) + Turn(c - 1)
  }

  /** One iteration of lines 403-442: every mode's turn in order, then the error
      estimate when it is switched on. */
  function IterationTrace(n: nat, withError: bool): (t: seq<Event>)
    ensures |t| == 5 * n + (if withError then 1 else 0)
  {
    Turns(n) + (if withError then [ErrorCheck] else [])
  }

  /** The events `computeNTF()` issues: the prewarm, then `iters` iterations. */
  function NtfTrace(n: nat, iters: nat, withError: bool): (t: seq<Event>)
  {
    if iters == 0 then Prewarm(n) else NtfTrace(n, iters - 1, withError) + IterationTrace(n, withError)
  }

  /** Modes below c are at version v + 1, the rest at v. */
  predicate Advanced(factor: seq<nat>, c: nat, v: nat) {
    forall l :: 0 <= l < |factor| ==> factor[l] == if l < c then v + 1 else v
  }

  lemma AdvanceOne(factor: seq<nat>, c: nat, v: nat)
    requires Advanced(factor, c, v) && c < |factor|
    ensures Advanced(factor[c := factor[c] + 1], c + 1, v)
  {
  }

  /** Once every mode has advanced, they are all at the next version. */
  lemma AdvancedAll(factor: seq<nat>, v: nat)
    requires Advanced(factor, |factor|, v)
    ensures Advanced(factor, 0, v + 1)
  {
  }

  /** Up to date except at `except` is up to date except at c, when c is `except` or
      there is no exception. */
  lemma CurrentExcept(versions: seq<int>, factor: seq<nat>, except: int, c: nat)
    requires Current(versions, factor, except) && (except == -1 || except == c)
    ensures Current(versions, factor, c)
  {
  }

  lemma TurnsSnoc(trace: seq<Event>, c: nat)
    ensures trace + Turns(c) + Turn(c) == trace + Turns(c + 1)
  {
    assert Turns(c + 1) == Turns(c) + Turn(c);
  }

  /** After the turns of modes 0 .. c − 1 of n, starting from `trace` at factor version
      v: the run so far succeeds, the modes played are one version further, every Gram
      and gathered factor is up to date, and mode c − 1's results are fresh. */
  predicate TurnsDone(s0: State, trace: seq<Event>, trace': seq<Event>, s': State, c: nat, v: nat, n: nat) {
    && WellFormed(s0) && 1 <= c <= n
    && trace' == trace + Turns(c)
    && Run(s0, trace') == Ok(s') && WellFormed(s') && |s'.factor| == n
    && Advanced(s'.factor, c, v)
    && Current(s'.gram, s'.factor, -1) && Current(s'.gathered, s'.factor, -1)
    && Fresh(s'.mttkrp, c - 1, s'.factor) && Fresh(s'.combined, c - 1, s'.factor)
  }

  /** Plays mode c's turn after modes 0 .. c − 1. */
  method NextTurn(s0: State, trace: seq<Event>, t: seq<Event>, s: State, c: nat, v: nat, n: nat)
    returns (t': seq<Event>, s': State)
    requires TurnsDone(s0, trace, t, s, c, v, n) && c < n
    ensures TurnsDone(s0, trace, t', s', c + 1, v, n)
  {
    AdvanceOne(s.factor, c, v);
    CurrentExcept(s.gram, s.factor, -1, c);
    CurrentExcept(s.gathered, s.factor, -1, c);
    t', s' := PlayTurn(s0, t, s, c);
    TurnsSnoc(trace, c);
  }

  /** Plays every mode's turn in order. It needs every mode but mode 0 up to date and
      leaves every mode up to date, one factor version further, with the last mode's
      MTTKRP and Gram product still fresh. */
  method PlayTurns(s0: State, trace: seq<Event>, s: State, v: nat) returns (trace': seq<Event>, s': State)
    requires WellFormed(s0) && Run(s0, trace) == Ok(s) && WellFormed(s) && |s.factor| >= 1
    requires Advanced(s.factor, 0, v)
    requires Current(s.gram, s.factor, 0) && Current(s.gathered, s.factor, 0)
    ensures trace' == trace + Turns(|s.factor|)
    ensures Run(s0, trace') == Ok(s') && WellFormed(s') && |s'.factor| == |s.factor|
    ensures Advanced(s'.factor, 0, v + 1)
    ensures Current(s'.gram, s'.factor, -1) && Current(s'.gathered, s'.factor, -1)
    ensures Fresh(s'.mttkrp, |s.factor| - 1, s'.factor) && Fresh(s'.combined, |s.factor| - 1, s'.factor)
  {
    var n := |s.factor|;
    AdvanceOne(s.factor, 0, v);
    trace', s' := PlayTurn(s0, trace, s, 0);
    TurnsSnoc(trace, 0);
    var c := 1;
    while c < n
      invariant TurnsDone(s0, trace, trace', s', c, v, n)
    {
      trace', s' := NextTurn(s0, trace, trace', s', c, v, n);
      c := c + 1;
    }
    AdvancedAll(s'.factor, v);
  }

  /** Plays one iteration: the turns, then the error estimate when it is switched on. */
  method Iteration(s0: State, trace: seq<Event>, s: State, v: nat, withError: bool) returns (trace': seq<Event>, s': State)
    requires WellFormed(s0) && Run(s0, trace) == Ok(s) && WellFormed(s) && |s.factor| >= 1
    requires Advanced(s.factor, 0, v)
    requires Current(s.gram, s.factor, 0) && Current(s.gathered, s.factor, 0)
    ensures trace' == trace + IterationTrace(|s.factor|, withError)
    ensures Run(s0, trace') == Ok(s') && WellFormed(s') && |s'.factor| == |s.factor|
    ensures Advanced(s'.factor, 0, v + 1)
    ensures Current(s'.gram, s'.factor, -1) && Current(s'.gathered, s'.factor, -1)
  {
    trace', s' := PlayTurns(s0, trace, s, v);
    if withError {
      trace', s' := Emit(s0, trace', s', ErrorCheck);
    }
    assert trace' == trace + IterationTrace(|s.factor|, withError);
  }

  /** `computeNTF()` with `iters` iterations over `n` modes issues exactly `NtfTrace`, and
      no event of it reads a stale buffer. At the end every factor has been written once
      per iteration and, after at least one iteration, every Gram and gathered factor is
      up to date. */
  method ComputeNtf(n: nat, iters: nat, withError: bool) returns (trace: seq<Event>, s: State)
    requires n >= 1
    ensures trace == NtfTrace(n, iters, withError) && Run(Initial(n), trace) == Ok(s)
    ensures |s.factor| == n && forall i :: 0 <= i < n ==> s.factor[i] == iters
    ensures iters > 0 ==> Current(s.gram, s.factor, -1) && Current(s.gathered, s.factor, -1)
  {
    var s0 := Initial(n);
    PrewarmState(n);
    trace := Prewarm(n);
    s := Run(s0, trace).value;
    var it := 0;
    while it < iters
      invariant 0 <= it <= iters
      invariant trace == NtfTrace(n, it, withError)
      invariant Run(s0, trace) == Ok(s) && WellFormed(s) && |s.factor| == n
      invariant Advanced(s.factor, 0, it)
      invariant Current(s.gram, s.factor, if it == 0 then 0 else -1)
      invariant Current(s.gathered, s.factor, if it == 0 then 0 else -1)
    {
      trace, s := Iteration(s0, trace, s, it, withError);
      it := it + 1;
    }
  }
}
