/** The `change` handler of src/app.ts: each emitted display becomes one task on a promise
    chain, so tasks run one after another in arrival order; a task retargets the capture input
    and, when that worked, runs the transition; a failing task is caught and the chain goes on. */
module App {
  import opened Base
  import opened Text
  import opened Obs
  import opened ActiveDisplay
  import opened WindowCapture

  /** `s && s.trim() !== ''`: present and not blank. */
  predicate Usable(s: Option<string>) {
    s.Some? && !Blank(s.value)
  }

  /** The value the capture input is asked to show: the name when usable, else the id when
      usable, else the index. The chosen string is used untrimmed. */
  function ChooseDisplayValue(d: DisplayInfo): (r: DisplayValue)
    ensures r.StrValue? ==> !Blank(r.s) && (Some(r.s) == d.name || Some(r.s) == d.id)
    ensures r.NumValue? <==> !Usable(d.name) && !Usable(d.id)
    ensures r.NumValue? ==> r.n == d.index
    ensures Usable(d.name) ==> r == StrValue(d.name.value)
  {
    if Usable(d.name) then StrValue(d.name.value)
    else if Usable(d.id) then StrValue(d.id.value)
    else NumValue(d.index)
  }

  /** Every display the registry yields is targeted by its output name. */
  lemma RegistryChoosesName(listing: ListingResult, d: DisplayInfo)
    requires d in ListedDisplays(listing)
    ensures d.name.Some? && ChooseDisplayValue(d) == StrValue(d.name.value)
  {
    ListedNamesNotBlank(listing);
  }

  /** Blank names and ids are skipped, and index 0 is chosen as the last resort. */
  lemma ChooseIndexWhenBlank()
    ensures ChooseDisplayValue(DisplayInfo(0, 0, 0, 1920, 1080, true, Some(" "), Some(""))) == NumValue(0)
  {
    SpacesAreBlank(" ");
    SpacesAreBlank("");
  }

  /** Without a name the id is chosen. */
  lemma ChooseIdWithoutName()
    ensures ChooseDisplayValue(DisplayInfo(1, 0, 0, 1920, 1080, false, None, Some("DP-2"))) == StrValue("DP-2")
  {
    NonSpaceNotBlank("DP-2", 0);
  }

  /** The name is used untrimmed. */
  lemma ChooseNameUntrimmed()
    ensures ChooseDisplayValue(DisplayInfo(1, 0, 0, 1920, 1080, false, Some(" HDMI-1"), None)) == StrValue(" HDMI-1")
  {
    NonSpaceNotBlank(" HDMI-1", 1);
  }

  /** Whether each request of one task gets through. */
  datatype Links = Links(read: bool, write: bool, transition: bool)

  /** One `change` notification, with what the network does to its requests. */
  datatype Change = Change(display: DisplayInfo, links: Links)

  /** The body of one queued task: the update, then the transition only when the update did not
      throw. */
  function RunTask(st: ObsState, inputName: string, c: Change): (ObsState, Outcome) {
    var (st1, updated) := Update(st, inputName, ChooseDisplayValue(c.display), Some(c.display.index),
                                 c.links.read, c.links.write);
    if updated.Err? then (st1, updated)
    else
      var (st2, ok) := ServeTransition(st1, c.links.transition);
      (st2, if ok then Ok else Err(RequestFailed(Transition)))
  }

  /** The task queued for each change. */
  function Task(inputName: string): (ObsState, Change) -> (ObsState, Outcome) {
    (st, c) => RunTask(st, inputName, c)
  }

  /** The chain after the given changes: each task starts from the state the previous one left,
      and every task's outcome is recorded. */
  function RunQueue(st: ObsState, inputName: string, changes: seq<Change>): (ObsState, seq<Outcome>) {
    Chain(st, changes, Task(inputName))
  }

  /** The requests one task issues: the settings read first; the transition exactly when the
      update succeeded, and then last. */
  lemma TaskRequests(st: ObsState, inputName: string, c: Change)
    ensures var after := RunTask(st, inputName, c).0;
      var added := after.requests[|st.requests|..];
      var updated := Update(st, inputName, ChooseDisplayValue(c.display), Some(c.display.index), c.links.read, c.links.write);
      && st.requests < after.requests
      && added[0] == GetInputSettings(inputName)
      && (Transition in added <==> updated.1 == Ok)
      && (Transition in added ==> added[|added| - 1] == Transition)
      && (forall i :: 0 < i < |added| ==> !added[i].GetInputSettings?)
  {
    var dv := ChooseDisplayValue(c.display);
    var di := Some(c.display.index);
    UpdateRequests(st, inputName, dv, di, c.links.read, c.links.write);
    var updated := Update(st, inputName, dv, di, c.links.read, c.links.write);
    var mid := updated.0.requests[|st.requests|..];
    assert updated.0.requests == st.requests + mid;
    var tail: seq<Request> := if updated.1 == Ok then [Transition] else [];
    assert RunTask(st, inputName, c).0.requests == updated.0.requests + tail;
    TaskShape(st.requests, mid, tail, inputName);
  }

  lemma TaskShape(before: seq<Request>, mid: seq<Request>, tail: seq<Request>, inputName: string)
    requires mid != [] && mid[0] == GetInputSettings(inputName)
    requires forall i :: 0 < i < |mid| ==> mid[i].SetInputSettings?
    requires tail == [] || tail == [Transition]
    ensures var after := (before + mid) + tail;
      var added := after[|before|..];
      && before < after
      && added[0] == GetInputSettings(inputName)
      && (Transition in added <==> tail != [])
      && (Transition in added ==> added[|added| - 1] == Transition)
      && (forall i :: 0 < i < |added| ==> !added[i].GetInputSettings?)
  {
    var after := (before + mid) + tail;
    assert after[|before|..] == mid + tail;
    assert Transition !in mid;
  }

  /** Every task issues exactly one settings read, so a run of the chain issues one per change. */
  function CountReads(reqs: seq<Request>): nat {
    if reqs == [] then 0
    else CountReads(reqs[..|reqs| - 1]) + if reqs[|reqs| - 1].GetInputSettings? then 1 else 0
  }

  lemma {:induction false} CountReadsAppend(a: seq<Request>, b: seq<Request>)
    ensures CountReads(a + b) == CountReads(a) + CountReads(b)
    decreases |b|
  {
    if b != [] {
      var b' := b[..|b| - 1];
      CountReadsAppend(a, b');
      assert (a + b)[..|a + b| - 1] == a + b';
      assert (a + b)[|a + b| - 1] == b[|b| - 1];
    } else {
      assert a + b == a;
    }
  }

  lemma {:induction false} CountReadsOne(reqs: seq<Request>)
    requires reqs != [] && reqs[0].GetInputSettings?
    requires forall i :: 0 < i < |reqs| ==> !reqs[i].GetInputSettings?
    ensures CountReads(reqs) == 1
  {
    if |reqs| > 1 {
      CountReadsOne(reqs[..|reqs| - 1]);
    } else {
      assert reqs[..0] == [];
    }
  }

  /** A log extended by one read followed by no other read counts one read more. */
  lemma ReadsAddOne(before: seq<Request>, after: seq<Request>)
    requires before < after && after[|before|].GetInputSettings?
    requires forall i :: |before| < i < |after| ==> !after[i].GetInputSettings?
    ensures CountReads(after) == CountReads(before) + 1
  {
    var added := after[|before|..];
    assert after == before + added;
    CountReadsAppend(before, added);
    CountReadsOne(added);
  }

  lemma TaskReadsOnce(st: ObsState, inputName: string, c: Change)
    ensures var after := RunTask(st, inputName, c).0;
      st.requests <= after.requests && CountReads(after.requests) == CountReads(st.requests) + 1
  {
    var after := RunTask(st, inputName, c).0.requests;
    TaskRequests(st, inputName, c);
    assert forall i :: |st.requests| < i < |after| ==> after[i] == after[|st.requests|..][i - |st.requests|];
    ReadsAddOne(st.requests, after);
  }

  /** No change is dropped: every task runs, and the chain records one outcome per change. */
  lemma {:induction false} QueueRunsEveryTask(st: ObsState, inputName: string, changes: seq<Change>)
    ensures var (after, outcomes) := RunQueue(st, inputName, changes);
      |outcomes| == |changes| && st.requests <= after.requests
      && CountReads(after.requests) == CountReads(st.requests) + |changes|
  {
    if changes != [] {
      var prefix := changes[..|changes| - 1];
      QueueRunsEveryTask(st, inputName, prefix);
      TaskReadsOnce(RunQueue(st, inputName, prefix).0, inputName, changes[|changes| - 1]);
    }
  }

  /** Failure isolation: task k runs on exactly the state the tasks before it left, whatever
      their outcomes, and its outcome is recorded in position k. */
  lemma QueueOutcomeAt(st: ObsState, inputName: string, changes: seq<Change>, k: nat)
    requires k < |changes|
    ensures var outcomes := RunQueue(st, inputName, changes).1;
      k < |outcomes| && outcomes[k] == RunTask(RunQueue(st, inputName, changes[..k]).0, inputName, changes[k]).1
  {
    ChainAt(st, changes, Task(inputName), k);
  }

  /** Serialization: running the changes `a` and then `b` is running `a + b`; the chain neither
      reorders nor interleaves tasks. */
  lemma QueueSplit(st: ObsState, inputName: string, a: seq<Change>, b: seq<Change>)
    ensures var (mid, first) := RunQueue(st, inputName, a);
      var (after, second) := RunQueue(mid, inputName, b);
      RunQueue(st, inputName, a + b) == (after, first + second)
  {
    ChainSplit(st, a, b, Task(inputName));
  }

  /** One task rewrites at most the display field of the capture input. */
  lemma TaskTouchesOnlyTarget(st: ObsState, inputName: string, c: Change)
    ensures var after := RunTask(st, inputName, c).0;
      && after.inputs.Keys == st.inputs.Keys
      && (forall n :: n in st.inputs && n != inputName ==> after.inputs[n] == st.inputs[n])
      && (inputName in st.inputs ==> Keys(after.inputs[inputName]) == Keys(st.inputs[inputName]))
  {
    var dv := ChooseDisplayValue(c.display);
    var di := Some(c.display.index);
    var updated := Update(st, inputName, dv, di, c.links.read, c.links.write);
    UpdateSucceeds(st, inputName, dv, di, c.links.read, c.links.write);
    if updated.1 == Ok {
      UpdateWritesOneField(st, inputName, dv, di, c.links.read, c.links.write);
    } else {
      UpdateUnchangedOnFailure(st, inputName, dv, di, c.links.read, c.links.write);
    }
  }

  /** The chain only ever rewrites display fields of the one capture input: every other input,
      and the set of fields of that input, stay as they were. */
  lemma {:induction false} QueueTouchesOnlyTarget(st: ObsState, inputName: string, changes: seq<Change>)
    ensures var after := RunQueue(st, inputName, changes).0;
      && after.inputs.Keys == st.inputs.Keys
      && (forall n :: n in st.inputs && n != inputName ==> after.inputs[n] == st.inputs[n])
      && (inputName in st.inputs ==> Keys(after.inputs[inputName]) == Keys(st.inputs[inputName]))
  {
    if changes != [] {
      var prefix := changes[..|changes| - 1];
      QueueTouchesOnlyTarget(st, inputName, prefix);
      TaskTouchesOnlyTarget(RunQueue(st, inputName, prefix).0, inputName, changes[|changes| - 1]);
    }
  }

  /** One task of the chain. */
  method HandleChange(obs: ObsConnection, inputName: string, c: Change) returns (outcome: Outcome)
    modifies obs
    ensures (obs.State(), outcome) == RunTask(old(obs.State()), inputName, c)
  {
    var displayValue := ChooseDisplayValue(c.display);
    outcome := UpdateWindowCapture(obs, inputName, displayValue, Some(c.display.index), c.links.read, c.links.write);
    if outcome.Ok? {
      var ok := obs.RunTransition(c.links.transition);
      if !ok {
        outcome := Err(RequestFailed(Transition));
      }
    }
  }

  /** The `queue` chain over a sequence of change notifications: each task starts after the
      previous one has settled, and a failed task is recorded and does not stop the chain. */
  method ProcessChanges(obs: ObsConnection, inputName: string, changes: seq<Change>) returns (outcomes: seq<Outcome>)
    modifies obs
    ensures (obs.State(), outcomes) == RunQueue(old(obs.State()), inputName, changes)
  {
    outcomes := [];
    for i := 0 to |changes|
      invariant (obs.State(), outcomes) == RunQueue(old(obs.State()), inputName, changes[..i])
    {
      ChainStep(old(obs.State()), changes, Task(inputName), i);
      var outcome := HandleChange(obs, inputName, changes[i]);
      outcomes := outcomes + [outcome];
    }
    assert changes[..|changes|] == changes;
  }
}
