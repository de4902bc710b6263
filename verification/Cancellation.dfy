/**
 Cooperative cancellation as interleaved steps. Critical sections under the mutex and the atomic exchange are
 single steps; a callback runs outside the lock, in a step of its own. Registrations (calls of `on_cancel`)
 and calls of `cancel` are numbered by the caller.
 */
module Cancellation {
  import opened Common

  /** Where a registered callback is. */
  datatype Place = InTable | Immediate | Taken | Done | Dropped

  /** One call of `on_cancel`: `id` is what its registration handle holds, zero when there is nothing to erase. */
  datatype Registration = Registration(id: nat, place: Place, returned: bool, runs: nat)

  datatype Cancel = Swapping | Running(local: set<nat>) | Finished

  datatype State = State(
    cancelled: bool, table: map<nat, nat>, nextId: nat,
    registrations: map<nat, Registration>, cancels: map<nat, Cancel>, winner: Option<nat>)

  const START := State(false, map[], 1, map[], map[], None)

  datatype Step =
    | Register(r: nat)
    | InvokeNow(r: nat)
    | OnCancelReturns(r: nat)
    | Reset(r: nat)
    | CancelStarts(c: nat)
    | Swap(c: nat)
    | RunCallback(c: nat, r: nat)
    | CancelReturns(c: nat)

  predicate Enabled(s: State, step: Step) {
    match step
    case Register(r) => r !in s.registrations
    case InvokeNow(r) => r in s.registrations && s.registrations[r].place.Immediate?
    case OnCancelReturns(r) =>
      r in s.registrations && !s.registrations[r].returned && !s.registrations[r].place.Immediate?
    case Reset(r) => r in s.registrations && s.registrations[r].returned
    case CancelStarts(c) => c !in s.cancels
    case Swap(c) => c in s.cancels && s.cancels[c].Swapping?
    case RunCallback(c, r) => c in s.cancels && s.cancels[c].Running? && r in s.cancels[c].local && r in s.registrations
    case CancelReturns(c) => c in s.cancels && s.cancels[c] == Running({})
  }

  function Put(s: State, r: nat, reg: Registration): State { s.(registrations := s.registrations[r := reg]) }

  function Ran(reg: Registration): Registration { reg.(place := Done, runs := reg.runs + 1) }

  /** `Reset` erases by the handle's id alone; whether that dropped the callback shows in the table. */
  function Apply(s: State, step: Step): State
    requires Enabled(s, step)
  {
    match step
    case Register(r) =>
      if s.cancelled then Put(s, r, Registration(0, Immediate, false, 0))
      else Put(s.(table := s.table[s.nextId := r], nextId := s.nextId + 1), r,
          Registration(s.nextId, InTable, false, 0))
    case InvokeNow(r) => Put(s, r, Ran(s.registrations[r]))
    case OnCancelReturns(r) => Put(s, r, s.registrations[r].(returned := true))
    case Reset(r) =>
      var reg := s.registrations[r];
      if reg.id == 0 then s
      else Put(s.(table := s.table - {reg.id}), r,
               reg.(id := 0, place := if reg.id in s.table then Dropped else reg.place))
    case CancelStarts(c) =>
      if s.cancelled then s.(cancels := s.cancels[c := Finished])
      else s.(cancelled := true, cancels := s.cancels[c := Swapping], winner := Some(c))
    case Swap(c) =>
      s.(table := map[],
         cancels := s.cancels[c := Running(s.table.Values)],
         registrations := map r | r in s.registrations ::
           if r in s.table.Values then s.registrations[r].(place := Taken) else s.registrations[r])
    case RunCallback(c, r) =>
      Put(s.(cancels := s.cancels[c := Running(s.cancels[c].local - {r})]), r, Ran(s.registrations[r]))
    case CancelReturns(c) => s.(cancels := s.cancels[c := Finished])
  }

  // ---------------------------------------------------------------- the invariant

  /** The table and the places of registrations describe the same thing, and no stale handle names a live entry. */
  ghost predicate TableAgrees(s: State) {
    && 0 < s.nextId
    && (forall id :: id in s.table ==>
          0 < id < s.nextId && s.table[id] in s.registrations && s.registrations[s.table[id]].id == id)
    && (forall r :: r in s.registrations ==>
          && s.registrations[r].id < s.nextId
          && (s.registrations[r].place.InTable? <==> s.registrations[r].id in s.table)
          && (s.registrations[r].id in s.table ==> s.table[s.registrations[r].id] == r))
  }

  /** A callback has run exactly when it is done, and an immediate one runs before `on_cancel` returns. */
  ghost predicate RunsOnce(s: State) {
    forall r :: r in s.registrations ==>
      && s.registrations[r].runs == (if s.registrations[r].place.Done? then 1 else 0)
      && (s.registrations[r].returned ==> !s.registrations[r].place.Immediate?)
  }

  predicate Swapped(s: State) {
    s.winner.Some? && s.winner.value in s.cancels && !s.cancels[s.winner.value].Swapping?
  }

  predicate Over(s: State) {
    s.winner.Some? && s.winner.value in s.cancels && s.cancels[s.winner.value].Finished?
  }

  function Local(s: State): set<nat> {
    if s.winner.Some? && s.winner.value in s.cancels && s.cancels[s.winner.value].Running?
    then s.cancels[s.winner.value].local else {}
  }

  /** Only the first cancel does anything. */
  ghost predicate WinnerAgrees(s: State) {
    && (s.cancelled <==> s.winner.Some?)
    && (s.winner.Some? ==> s.winner.value in s.cancels)
    && (forall c :: c in s.cancels && s.winner != Some(c) ==> s.cancels[c].Finished?)
    && (Swapped(s) ==> s.table == map[])
    && (!s.cancelled ==>
          forall r :: r in s.registrations ==>
            s.registrations[r].place.InTable? || s.registrations[r].place.Dropped?)
  }

  /** Callbacks it took are in its local map, and nowhere else. */
  ghost predicate LocalAgrees(s: State) {
    && (forall r :: r in s.registrations && s.registrations[r].place.Taken? ==> r in Local(s))
    && (forall r :: r in Local(s) ==> r in s.registrations && s.registrations[r].place.Taken?)
  }

  ghost predicate Inv(s: State) {
    TableAgrees(s) && RunsOnce(s) && WinnerAgrees(s) && LocalAgrees(s)
  }

  lemma SwapKeeps(s: State, c: nat)
    requires Inv(s) && Enabled(s, Swap(c))
    ensures Inv(Apply(s, Swap(c)))
  {
    var next := Apply(s, Swap(c));
    assert s.winner == Some(c) && Local(next) == s.table.Values;
    forall r | r in s.table.Values ensures r in s.registrations && s.registrations[r].place.InTable? {
      var id :| id in s.table && s.table[id] == r;
    }
    forall r | r in s.registrations && s.registrations[r].place.InTable? ensures r in s.table.Values {
      assert s.registrations[r].id in s.table;
    }
  }

  lemma RegisterKeepsTable(s: State, r: nat)
    requires TableAgrees(s) && Enabled(s, Register(r))
    ensures TableAgrees(Apply(s, Register(r)))
  {
    var next := Apply(s, Register(r));
    forall q | q in next.registrations
      ensures var reg := next.registrations[q];
              && reg.id < next.nextId && (reg.place.InTable? <==> reg.id in next.table)
              && (reg.id in next.table ==> next.table[reg.id] == q)
    {
      if q != r { assert next.registrations[q] == s.registrations[q]; }
    }
  }

  lemma RegisterKeeps(s: State, r: nat)
    requires Inv(s) && Enabled(s, Register(r))
    ensures Inv(Apply(s, Register(r)))
  {
    RegisterKeepsTable(s, r);
    hide TableAgrees;
  }

  lemma ResetKeeps(s: State, r: nat)
    requires Inv(s) && Enabled(s, Reset(r))
    ensures Inv(Apply(s, Reset(r)))
  {
  }

  lemma CancelKeeps(s: State, step: Step)
    requires Inv(s) && Enabled(s, step) && (step.CancelStarts? || step.CancelReturns?)
    ensures Inv(Apply(s, step))
  {
  }

  lemma CallbackKeeps(s: State, step: Step)
    requires Inv(s) && Enabled(s, step) && (step.InvokeNow? || step.OnCancelReturns?)
    ensures Inv(Apply(s, step))
  {
  }

  lemma RunCallbackKeeps(s: State, step: Step)
    requires Inv(s) && Enabled(s, step) && step.RunCallback?
    ensures Inv(Apply(s, step))
  {
    assert s.winner == Some(step.c);
  }

  /** Every step keeps the table, the places, the handles and the local map of the first cancel in agreement. */
  lemma ApplyKeeps(s: State, step: Step)
    requires Inv(s) && Enabled(s, step)
    ensures Inv(Apply(s, step))
  {
    hide Inv, Apply;
    match step
    case Register(r) => RegisterKeeps(s, r);
    case InvokeNow(_) => CallbackKeeps(s, step);
    case OnCancelReturns(_) => CallbackKeeps(s, step);
    case RunCallback(_, _) => RunCallbackKeeps(s, step);
    case Reset(r) => ResetKeeps(s, r);
    case CancelStarts(_) => CancelKeeps(s, step);
    case CancelReturns(_) => CancelKeeps(s, step);
    case Swap(c) => SwapKeeps(s, c);
  }

  // ---------------------------------------------------------------- every interleaving

  /** The state after the steps, when each was possible in its turn. */
  function Run(steps: seq<Step>): Option<State> {
    if steps == [] then Some(START) else
      var before := Run(steps[..|steps| - 1]);
      var step := steps[|steps| - 1];
      if before.Some? && Enabled(before.value, step) then Some(Apply(before.value, step)) else None
  }

  lemma {:induction false} RunKeeps(steps: seq<Step>)
    requires Run(steps).Some?
    ensures Inv(Run(steps).value)
  {
    hide Apply, Enabled;
    if steps != [] {
      hide Inv;
      RunKeeps(steps[..|steps| - 1]);
      ApplyKeeps(Run(steps[..|steps| - 1]).value, steps[|steps| - 1]);
    }
  }

  // ---- what a run says, read off the steps alone

  /** How often the callback of `r` was called in a run. */
  function Calls(steps: seq<Step>, r: nat): nat {
    if steps == [] then 0 else
      var step := steps[|steps| - 1];
      Calls(steps[..|steps| - 1], r) + if step == InvokeNow(r) || (step.RunCallback? && step.r == r) then 1 else 0
  }

  ghost predicate Started(steps: seq<Step>) { exists k :: 0 <= k < |steps| && steps[k].CancelStarts? }

  ghost predicate SwapDone(steps: seq<Step>) { exists k :: 0 <= k < |steps| && steps[k].Swap? }

  ghost predicate FirstReturned(steps: seq<Step>) { exists k :: 0 <= k < |steps| && steps[k].CancelReturns? }

  /** `r` was registered before any `cancel` set the flag. */
  ghost predicate Early(steps: seq<Step>, r: nat) {
    exists k :: 0 <= k < |steps| && steps[k] == Register(r) && !Started(steps[..k])
  }

  /** `r` was reset before the swap. */
  ghost predicate ResetEarly(steps: seq<Step>, r: nat) {
    exists k :: 0 <= k < |steps| && steps[k] == Reset(r) && !SwapDone(steps[..k])
  }

  lemma Snoc(steps: seq<Step>, r: nat)
    requires steps != []
    ensures var before, step := steps[..|steps| - 1], steps[|steps| - 1];
            && (Started(steps) <==> Started(before) || step.CancelStarts?)
            && (SwapDone(steps) <==> SwapDone(before) || step.Swap?)
            && (FirstReturned(steps) <==> FirstReturned(before) || step.CancelReturns?)
  {
    var before, step := steps[..|steps| - 1], steps[|steps| - 1];
    assert steps == before + [step];
    assert Started(steps) <==> Started(before) || step.CancelStarts? by {
      if Started(before) { var k :| 0 <= k < |before| && before[k].CancelStarts?; assert steps[k].CancelStarts?; }
    }
    assert SwapDone(steps) <==> SwapDone(before) || step.Swap? by {
      if SwapDone(before) { var k :| 0 <= k < |before| && before[k].Swap?; assert steps[k].Swap?; }
    }
    assert FirstReturned(steps) <==> FirstReturned(before) || step.CancelReturns? by {
      if FirstReturned(before) {
        var k :| 0 <= k < |before| && before[k].CancelReturns?;
        assert steps[k].CancelReturns?;
      }
    }
  }

  lemma SnocEarly(steps: seq<Step>, r: nat)
    requires steps != []
    ensures var before, step := steps[..|steps| - 1], steps[|steps| - 1];
            && (Early(steps, r) <==> Early(before, r) || (step == Register(r) && !Started(before)))
            && (ResetEarly(steps, r) <==> ResetEarly(before, r) || (step == Reset(r) && !SwapDone(before)))
  {
    hide Started, SwapDone;
    var before, step := steps[..|steps| - 1], steps[|steps| - 1];
    assert forall k :: 0 <= k <= |before| ==> before[..k] == steps[..k];
    assert forall k :: 0 <= k < |before| ==> before[k] == steps[k];
  }

  /** What the steps of a run say about `r`. */
  datatype Story = Story(started: bool, swapped: bool, over: bool, registered: bool, early: bool, dropped: bool,
                         returned: bool, calls: nat)

  ghost function Read(steps: seq<Step>, r: nat): Story {
    Story(Started(steps), SwapDone(steps), FirstReturned(steps), Register(r) in steps, Early(steps, r),
          ResetEarly(steps, r), OnCancelReturns(r) in steps, Calls(steps, r))
  }

  function ReadNext(t: Story, step: Step, r: nat): Story {
    Story(t.started || step.CancelStarts?, t.swapped || step.Swap?, t.over || step.CancelReturns?,
          t.registered || step == Register(r), t.early || (step == Register(r) && !t.started),
          t.dropped || (step == Reset(r) && !t.swapped), t.returned || step == OnCancelReturns(r),
          t.calls + if step == InvokeNow(r) || (step.RunCallback? && step.r == r) then 1 else 0)
  }

  lemma ReadSnoc(steps: seq<Step>, r: nat)
    requires steps != []
    ensures Read(steps, r) == ReadNext(Read(steps[..|steps| - 1], r), steps[|steps| - 1], r)
  {
    Snoc(steps, r);
    SnocEarly(steps, r);
    hide Started, SwapDone, FirstReturned, Early, ResetEarly;
    assert steps == steps[..|steps| - 1] + [steps[|steps| - 1]];
  }

  /** A state and a story about `r` agree: on the first cancel, and on the registration. */
  ghost predicate TellsCancel(s: State, t: Story) {
    s.cancelled == t.started && Swapped(s) == t.swapped && Over(s) == t.over
  }

  ghost predicate TellsRegistration(s: State, t: Story, r: nat) {
    if r !in s.registrations then t == Story(t.started, t.swapped, t.over, false, false, false, false, 0)
    else
      var reg := s.registrations[r];
      && t.registered && t.calls == reg.runs && t.returned == reg.returned
      && (reg.place.InTable? || reg.place.Dropped? ==> t.early)
      && (t.early && !t.swapped ==> reg.place.InTable? || reg.place.Dropped?)
      && (reg.place.Dropped? <==> t.early && t.dropped)
  }

  ghost predicate Tells(s: State, t: Story, r: nat) {
    TellsCancel(s, t) && TellsRegistration(s, t, r)
  }

  lemma StepTellsCancel(s: State, step: Step, t: Story, r: nat)
    requires Inv(s) && Enabled(s, step) && TellsCancel(s, t)
    ensures TellsCancel(Apply(s, step), ReadNext(t, step, r))
  {
    hide TableAgrees, RunsOnce, LocalAgrees;
  }

  lemma SwapTells(s: State, c: nat, t: Story, r: nat)
    requires Inv(s) && Enabled(s, Swap(c)) && Tells(s, t, r)
    ensures TellsRegistration(Apply(s, Swap(c)), ReadNext(t, Swap(c), r), r)
  {
    hide RunsOnce, LocalAgrees;
    if r in s.registrations && s.registrations[r].place.InTable? {
      assert s.table[s.registrations[r].id] in s.table.Values;
    }
  }

  lemma StepTells(s: State, step: Step, t: Story, r: nat)
    requires Inv(s) && Enabled(s, step) && Tells(s, t, r)
    ensures Tells(Apply(s, step), ReadNext(t, step, r), r)
  {
    StepTellsCancel(s, step, t, r);
    if step.Swap? {
      SwapTells(s, step.c, t, r);
    } else if step == Reset(r) {
      hide RunsOnce, LocalAgrees;
    } else if step.RunCallback? && step.r == r {
      hide TableAgrees, RunsOnce;
    } else {
      hide TableAgrees, LocalAgrees, RunsOnce, Swapped, Over, TellsCancel;
    }
  }

  lemma {:induction false} RunTells(steps: seq<Step>, r: nat)
    requires Run(steps).Some?
    ensures Tells(Run(steps).value, Read(steps, r), r)
  {
    if steps != [] {
      hide Tells, Read, Inv, Apply, Enabled, ReadNext;
      var before := steps[..|steps| - 1];
      RunKeeps(before);
      RunTells(before, r);
      ReadSnoc(steps, r);
      StepTells(Run(before).value, steps[|steps| - 1], Read(before, r), r);
    }
  }

  /** Each callback runs at most once in every interleaving. */
  lemma AtMostOnce(steps: seq<Step>, r: nat)
    requires Run(steps).Some?
    ensures Calls(steps, r) <= 1
  {
    RunKeeps(steps);
    RunTells(steps, r);
  }

  /**
   Once `on_cancel` and the first `cancel` have returned, a callback has run exactly once, unless it was registered
   before any cancel and reset before the swap, and then it has not run at all.
   */
  lemma ExactlyOnce(steps: seq<Step>, r: nat)
    requires Run(steps).Some? && OnCancelReturns(r) in steps && FirstReturned(steps)
    ensures Calls(steps, r) == if Early(steps, r) && ResetEarly(steps, r) then 0 else 1
  {
    hide Started, SwapDone, FirstReturned, Early, ResetEarly, Calls, Run;
    RunKeeps(steps);
    RunTells(steps, r);
  }

  /** A dropped callback never runs afterwards, whatever else happens. */
  lemma ResetIsFinal(steps: seq<Step>, r: nat)
    requires Run(steps).Some? && Early(steps, r) && ResetEarly(steps, r)
    ensures Calls(steps, r) == 0
  {
    hide Started, SwapDone, FirstReturned, Early, ResetEarly, Calls, Run;
    RunKeeps(steps);
    RunTells(steps, r);
  }
}
