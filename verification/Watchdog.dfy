/** The file watcher's debounce: events, one re-armed timer, and callbacks that may overlap.
    The two critical sections are a class; their interleavings are a step relation. */
module Watchdog {
  import opened Wrappers

  const MAX_CHANGED_FILES := 10

  function FirstTen(paths: seq<string>): seq<string> {
    if |paths| <= MAX_CHANGED_FILES then paths else paths[..MAX_CHANGED_FILES]
  }

  /** Everything in flight. A callback is named by its timer; once it has its batch it also knows the
      number of that batch. The last four fields are history. */
  datatype State = State(
    changedFiles: seq<string>,
    armed: Option<nat>,              // the running timer
    fired: set<nat>,                 // callbacks still waiting for the lock
    taken: map<nat, nat>,            // callbacks with a batch that have not started to index
    indexing: map<nat, nat>,         // callbacks inside Index
    covered: nat,                    // events that had arrived when the last Index began
    reported: seq<nat>,              // batches written to the ledger
    failed: seq<nat>,                // batches whose Index returned an error
    arrivals: seq<string>,           // all events so far
    cuts: seq<nat>,                  // how many events had arrived when each batch was taken
    batches: seq<seq<string>>,
    begun: map<nat, nat>)            // how many events had arrived when the Index of each batch began

  datatype Step =
    | Event(path: string)
    | Fire
    | Take(id: nat)
    | Begin(id: nat)
    | Report(id: nat)
    | Fail(id: nat)

  const INITIAL := State([], None, {}, map[], map[], 0, [], [], [], [], [], map[])

  predicate Enabled(s: State, step: Step) {
    match step
    case Event(_) => true
    case Fire => s.armed.Some?
    case Take(id) => id in s.fired
    case Begin(id) => id in s.taken
    case Report(id) => id in s.indexing
    case Fail(id) => id in s.indexing
  }

  function Next(s: State, step: Step): State
    requires Enabled(s, step)
  {
    match step
    case Event(path) =>
      // stopping an expired timer does nothing, so only `armed` is replaced
      s.(changedFiles := if |s.changedFiles| < MAX_CHANGED_FILES then s.changedFiles + [path] else s.changedFiles,
         armed := Some(|s.arrivals|),
         arrivals := s.arrivals + [path])
    case Fire =>
      s.(armed := None, fired := s.fired + {s.armed.value})
    case Take(id) =>
      s.(changedFiles := [], fired := s.fired - {id}, taken := s.taken[id := |s.batches|],
         cuts := s.cuts + [|s.arrivals|], batches := s.batches + [s.changedFiles])
    case Begin(id) =>
      s.(taken := s.taken - {id}, indexing := s.indexing[id := s.taken[id]], covered := |s.arrivals|,
         begun := s.begun[s.taken[id] := |s.arrivals|])
    case Report(id) =>
      s.(indexing := s.indexing - {id}, reported := s.reported + [s.indexing[id]])
    case Fail(id) =>
      s.(indexing := s.indexing - {id}, failed := s.failed + [s.indexing[id]])
  }

  /** The states of a run, each step enabled. */
  ghost predicate IsRun(run: seq<State>, steps: seq<Step>) {
    && |run| == |steps| + 1 && run[0] == INITIAL
    && forall i :: 0 <= i < |steps| ==> Enabled(run[i], steps[i]) && run[i + 1] == Next(run[i], steps[i])
  }

  // ----- The object behind the states -----

  /** The fields the mutex protects. Timers are numbered; `timer` is the one last created, running or not. */
  class Watchdog {
    var timer: Option<nat>
    var changedFiles: seq<string>
    var created: nat

    /** The object as it is in state s: only the two critical sections change it. */
    ghost predicate Shows(s: State)
      reads this
    {
      && changedFiles == s.changedFiles && created == |s.arrivals|
      && timer == (if created == 0 then None else Some(created - 1))
      && (s.armed.Some? ==> s.armed == timer)
    }

    constructor ()
      ensures Shows(INITIAL)
    {
      timer, changedFiles, created := None, [], 0;
    }

    /** Remembers the path up to the cap, stops the timer if there is one and starts another: the step of an
        event. If a timer is running, it is the one that is stopped. */
    method TriggerReindex(changedPath: string, ghost s: State) returns (stopped: Option<nat>)
      requires Shows(s)
      modifies this
      ensures Shows(Next(s, Event(changedPath)))
      ensures s.armed.Some? ==> stopped == s.armed
    {
      if |changedFiles| < MAX_CHANGED_FILES {
        changedFiles := changedFiles + [changedPath];
      }
      stopped := timer;
      timer, created := Some(created), created + 1;
    }

    /** The locked part of the timer callback: the step of taking a batch. */
    method TakeBatch(ghost id: nat, ghost s: State) returns (files: seq<string>)
      requires Shows(s) && Enabled(s, Take(id))
      modifies this`changedFiles
      ensures Shows(Next(s, Take(id)))
      ensures Next(s, Take(id)).batches == s.batches + [files]
    {
      files := changedFiles;
      changedFiles := [];
    }
  }

  /** Along any run the object shows every state, and the batches of the run are those it handed out. */
  method Drive(steps: seq<Step>, ghost run: seq<State>) returns (w: Watchdog, batches: seq<seq<string>>)
    requires IsRun(run, steps)
    ensures fresh(w) && w.Shows(run[|steps|]) && batches == run[|steps|].batches
  {
    w := new Watchdog();
    batches := [];
    for i := 0 to |steps|
      invariant fresh(w) && w.Shows(run[i]) && batches == run[i].batches
    {
      assert run[i + 1] == Next(run[i], steps[i]);
      match steps[i] {
        case Event(path) => var _ := w.TriggerReindex(path, run[i]);
        case Take(id) =>
          var files := w.TakeBatch(id, run[i]);
          batches := batches + [files];
        case _ =>
      }
    }
  }

  // ----- Safety: no event goes unindexed -----

  /** Someone is still going to index. */
  predicate WorkPending(s: State) {
    s.armed.Some? || s.fired != {} || s.taken.Keys != {}
  }

  ghost predicate Covered(s: State) {
    s.covered <= |s.arrivals| && (s.covered < |s.arrivals| ==> WorkPending(s))
  }

  lemma {:induction false} AlwaysCovered(run: seq<State>, steps: seq<Step>, n: nat)
    requires IsRun(run, steps) && n < |run|
    ensures Covered(run[n])
  {
    if n > 0 {
      AlwaysCovered(run, steps, n - 1);
      var s, s', step := run[n - 1], run[n], steps[n - 1];
      assert s' == Next(s, step);
      match step {
        case Take(id) => assert id in s'.taken.Keys;
        case Fire => assert s.armed.value in s'.fired;
        case Report(id) =>
        case Fail(id) =>
        case Begin(id) =>
        case Event(path) =>
      }
    }
  }

  /** When no timer is armed and no callback has yet to begin indexing, the last Index began after the
      last event: what it read includes every change reported so far. */
  lemma QuietMeansIndexed(run: seq<State>, steps: seq<Step>, n: nat)
    requires IsRun(run, steps) && n < |run| && !WorkPending(run[n])
    ensures run[n].covered == |run[n].arrivals|
  {
    AlwaysCovered(run, steps, n);
  }

  // ----- What the batches are -----

  function Start(s: State, k: nat): nat
    requires k <= |s.cuts|
  {
    if k == 0 then 0 else s.cuts[k - 1]
  }

  /** The events that arrived between batch k - 1 and batch k; after the last batch for k = |cuts|. */
  function Between(s: State, k: nat): seq<string>
    requires CutsAscend(s) && k <= |s.cuts|
  {
    s.arrivals[Start(s, k)..if k < |s.cuts| then s.cuts[k] else |s.arrivals|]
  }

  ghost predicate CutsAscend(s: State) {
    && (forall k :: 0 <= k < |s.cuts| ==> s.cuts[k] <= |s.arrivals|)
    && (forall k :: 0 <= k < |s.cuts| - 1 ==> s.cuts[k] <= s.cuts[k + 1])
  }

  /** The batches are the first ten arrivals of consecutive, disjoint stretches of the events. */
  ghost predicate BatchesAreRuns(s: State) {
    && CutsAscend(s) && |s.batches| == |s.cuts|
    && (forall k :: 0 <= k < |s.cuts| ==> s.batches[k] == FirstTen(Between(s, k)))
    && s.changedFiles == FirstTen(Between(s, |s.cuts|))
  }

  lemma RunsStep(s: State, step: Step)
    requires BatchesAreRuns(s) && Enabled(s, step)
    ensures BatchesAreRuns(Next(s, step))
  {
    match step {
      case Event(path) => RunsEvent(s, path);
      case Take(id) => RunsTake(s, id);
      case _ => RunsSame(s, Next(s, step));
    }
  }

  lemma RunsSame(s: State, s': State)
    requires BatchesAreRuns(s)
    requires s'.arrivals == s.arrivals && s'.cuts == s.cuts && s'.batches == s.batches && s'.changedFiles == s.changedFiles
    ensures BatchesAreRuns(s')
  {
    forall k | 0 <= k <= |s.cuts| ensures Between(s', k) == Between(s, k) {}
  }

  lemma RunsEvent(s: State, path: string)
    requires BatchesAreRuns(s)
    ensures BatchesAreRuns(Next(s, Event(path)))
  {
    var s' := Next(s, Event(path));
    forall k | 0 <= k < |s.cuts| ensures Between(s', k) == Between(s, k) {}
    assert Between(s', |s.cuts|) == Between(s, |s.cuts|) + [path];
  }

  /** s' is s with one more cut, behind the last arrival. */
  ghost predicate CutOff(s: State, s': State) {
    && s'.arrivals == s.arrivals && s'.cuts == s.cuts + [|s.arrivals|]
    && s'.batches == s.batches + [s.changedFiles] && s'.changedFiles == []
  }

  lemma RunsTake(s: State, id: nat)
    requires BatchesAreRuns(s) && id in s.fired
    ensures BatchesAreRuns(Next(s, Take(id)))
  {
    RunsCut(s, Next(s, Take(id)));
  }

  lemma RunsCut(s: State, s': State)
    requires BatchesAreRuns(s) && CutOff(s, s')
    ensures BatchesAreRuns(s')
  {
    CutsStillAscend(s, s');
    forall k | 0 <= k < |s'.cuts| ensures s'.batches[k] == FirstTen(Between(s', k)) {
      BetweenKept(s, s', k);
    }
    assert Between(s', |s'.cuts|) == [];
  }

  lemma CutsStillAscend(s: State, s': State)
    requires CutsAscend(s) && CutOff(s, s')
    ensures CutsAscend(s')
  {
  }

  lemma BetweenKept(s: State, s': State, k: nat)
    requires CutsAscend(s) && CutsAscend(s') && k <= |s.cuts| && CutOff(s, s')
    ensures Between(s', k) == Between(s, k)
  {
    assert k > 0 ==> s'.cuts[k - 1] == s.cuts[k - 1];
    assert k < |s.cuts| ==> s'.cuts[k] == s.cuts[k];
  }

  lemma {:induction false} AlwaysRuns(run: seq<State>, steps: seq<Step>, n: nat)
    requires IsRun(run, steps) && n < |run|
    ensures BatchesAreRuns(run[n])
  {
    if n > 0 {
      AlwaysRuns(run, steps, n - 1);
      assert run[n] == Next(run[n - 1], steps[n - 1]);
      RunsStep(run[n - 1], steps[n - 1]);
    }
  }

  function Flatten(batches: seq<seq<string>>): seq<string> {
    if batches == [] then [] else Flatten(batches[..|batches| - 1]) + batches[|batches| - 1]
  }

  ghost predicate NoLongRun(s: State)
    requires CutsAscend(s)
  {
    forall j :: 0 <= j <= |s.cuts| ==> |Between(s, j)| <= MAX_CHANGED_FILES
  }

  lemma {:induction false} FlattenRuns(s: State, k: nat)
    requires BatchesAreRuns(s) && k <= |s.cuts|
    requires NoLongRun(s)
    ensures Start(s, k) <= |s.arrivals| && Flatten(s.batches[..k]) == s.arrivals[..Start(s, k)]
  {
    if k > 0 {
      FlattenRuns(s, k - 1);
      assert s.batches[..k][..k - 1] == s.batches[..k - 1];
      assert s.batches[k - 1] == Between(s, k - 1);
    }
  }

  /** A stretch that outgrows the cap makes the batches shorter than the events. */
  lemma {:induction false} FlattenShort(s: State, k: nat)
    requires BatchesAreRuns(s) && k <= |s.cuts|
    ensures |Flatten(s.batches[..k])| <= Start(s, k)
    ensures (exists j :: 0 <= j < k && |Between(s, j)| > MAX_CHANGED_FILES) ==> |Flatten(s.batches[..k])| < Start(s, k)
  {
    if k > 0 {
      FlattenShort(s, k - 1);
      assert s.batches[..k][..k - 1] == s.batches[..k - 1];
      assert s.batches[k - 1] == FirstTen(Between(s, k - 1));
    }
  }

  lemma RunsShort(s: State)
    requires BatchesAreRuns(s) && !NoLongRun(s)
    ensures |Flatten(s.batches) + s.changedFiles| < |s.arrivals|
  {
    var n := |s.cuts|;
    FlattenShort(s, n);
    assert s.batches[..n] == s.batches;
    assert |Between(s, n)| == |s.arrivals| - Start(s, n);
    var j :| 0 <= j <= n && |Between(s, j)| > MAX_CHANGED_FILES;
  }

  lemma PendingIsTheRest(s: State)
    requires BatchesAreRuns(s) && NoLongRun(s)
    ensures Start(s, |s.cuts|) <= |s.arrivals| && s.changedFiles == s.arrivals[Start(s, |s.cuts|)..]
  {
    assert |Between(s, |s.cuts|)| <= MAX_CHANGED_FILES;
  }

  lemma TakenIsTheRest(s: State)
    requires BatchesAreRuns(s) && NoLongRun(s)
    ensures Start(s, |s.cuts|) <= |s.arrivals| && Flatten(s.batches) == s.arrivals[..Start(s, |s.cuts|)]
  {
    FlattenRuns(s, |s.cuts|);
    assert s.batches[..|s.cuts|] == s.batches;
  }

  lemma SplitAt<T>(s: seq<T>, k: nat)
    requires k <= |s|
    ensures s[..k] + s[k..] == s
  {
  }

  lemma RunsJoin(s: State)
    requires BatchesAreRuns(s) && NoLongRun(s)
    ensures Flatten(s.batches) + s.changedFiles == s.arrivals
  {
    TakenIsTheRest(s);
    PendingIsTheRest(s);
    SplitAt(s.arrivals, Start(s, |s.cuts|));
  }

  /** The batches and the paths not yet taken are exactly the events, in order, if and only if no
      stretch of events outgrew the cap. */
  lemma NoPathLostIff(run: seq<State>, steps: seq<Step>, n: nat)
    requires IsRun(run, steps) && n < |run|
    ensures CutsAscend(run[n])
    ensures Flatten(run[n].batches) + run[n].changedFiles == run[n].arrivals <==> NoLongRun(run[n])
  {
    AlwaysRuns(run, steps, n);
    if NoLongRun(run[n]) {
      RunsJoin(run[n]);
    } else {
      RunsShort(run[n]);
    }
  }

  // ----- Every batch has one owner -----

  function Done(s: State): seq<nat> {
    s.reported + s.failed
  }

  /** A timer is in at most one place ... */
  ghost predicate TimersApart(s: State) {
    && (s.armed.Some? ==>
          && s.armed.value < |s.arrivals| && s.armed.value !in s.fired
          && s.armed.value !in s.taken && s.armed.value !in s.indexing)
    && (forall id :: id in s.fired ==> id < |s.arrivals| && id !in s.taken && id !in s.indexing)
    && (forall id :: id in s.taken ==> id < |s.arrivals| && id !in s.indexing)
    && (forall id :: id in s.indexing ==> id < |s.arrivals|)
  }

  /** ... and so is a batch number. */
  ghost predicate BatchesApart(s: State) {
    && (forall a, b :: a in s.taken && b in s.taken && s.taken[a] == s.taken[b] ==> a == b)
    && (forall a, b :: a in s.indexing && b in s.indexing && s.indexing[a] == s.indexing[b] ==> a == b)
    && (forall a, b :: a in s.taken && b in s.indexing ==> s.taken[a] != s.indexing[b])
    && (forall a :: a in s.taken ==> s.taken[a] < |s.batches| && s.taken[a] !in Done(s))
    && (forall a :: a in s.indexing ==> s.indexing[a] < |s.batches| && s.indexing[a] !in Done(s))
    && (forall k :: k in Done(s) ==> k < |s.batches|)
  }

  ghost predicate OneOwner(s: State) {
    TimersApart(s) && BatchesApart(s)
  }

  predicate NoRepeats(s: seq<nat>) {
    forall i, j :: 0 <= i < j < |s| ==> s[i] != s[j]
  }

  ghost predicate Accounted(s: State) {
    forall k :: 0 <= k < |s.batches| ==> k in Done(s) || k in s.taken.Values || k in s.indexing.Values
  }

  lemma TimersStep(s: State, step: Step)
    requires TimersApart(s) && Enabled(s, step)
    ensures TimersApart(Next(s, step))
  {
  }

  lemma BatchesStep(s: State, step: Step)
    requires BatchesApart(s) && Enabled(s, step)
    ensures BatchesApart(Next(s, step))
  {
    var s' := Next(s, step);
    match step {
      case Event(path) => assert Done(s') == Done(s);
      case Fire => assert Done(s') == Done(s);
      case Take(id) => assert Done(s') == Done(s) && |s.batches| !in Done(s);
      case Begin(id) => assert Done(s') == Done(s);
      case Report(id) => FinishStep(s, s', id);
      case Fail(id) => FinishStep(s, s', id);
    }
  }

  lemma FinishStep(s: State, s': State, id: nat)
    requires BatchesApart(s) && id in s.indexing
    requires s'.batches == s.batches && s'.taken == s.taken && s'.indexing == s.indexing - {id}
    requires || (s'.reported == s.reported + [s.indexing[id]] && s'.failed == s.failed)
             || (s'.reported == s.reported && s'.failed == s.failed + [s.indexing[id]])
    ensures BatchesApart(s')
  {
    DoneGrows(s, s', s.indexing[id]);
  }

  lemma DoneGrows(s: State, s': State, x: nat)
    requires || (s'.reported == s.reported + [x] && s'.failed == s.failed)
             || (s'.reported == s.reported && s'.failed == s.failed + [x])
    ensures forall k :: k in Done(s') <==> k in Done(s) || k == x
  {
  }

  lemma RepeatStep(s: State, step: Step)
    requires OneOwner(s) && Enabled(s, step)
    requires NoRepeats(s.reported) && NoRepeats(s.failed) && forall k :: k in s.reported ==> k !in s.failed
    ensures var s' := Next(s, step); NoRepeats(s'.reported) && NoRepeats(s'.failed) && forall k :: k in s'.reported ==> k !in s'.failed
  {
    match step {
      case Report(id) => assert s.indexing[id] !in Done(s);
      case Fail(id) => assert s.indexing[id] !in Done(s);
      case _ =>
    }
  }

  lemma AccountStep(s: State, step: Step)
    requires Accounted(s) && OneOwner(s) && Enabled(s, step)
    ensures Accounted(Next(s, step))
  {
    forall k | 0 <= k < |Next(s, step).batches|
      ensures k in Done(Next(s, step)) || k in Next(s, step).taken.Values || k in Next(s, step).indexing.Values
    {
      AccountOne(s, step, k);
    }
  }

  lemma AccountOne(s: State, step: Step, k: nat)
    requires Accounted(s) && OneOwner(s) && Enabled(s, step) && k < |Next(s, step).batches|
    ensures var s' := Next(s, step); k in Done(s') || k in s'.taken.Values || k in s'.indexing.Values
  {
    if k == |s.batches| {
      assert Next(s, step).taken[step.id] == k;
    } else if k in s.taken.Values {
      var id :| id in s.taken && s.taken[id] == k;
      AccountTaken(s, step, id);
    } else if k in s.indexing.Values {
      var id :| id in s.indexing && s.indexing[id] == k;
      AccountIndexing(s, step, id);
    }
  }

  lemma AccountTaken(s: State, step: Step, id: nat)
    requires TimersApart(s) && Enabled(s, step) && id in s.taken
    ensures var s' := Next(s, step); s.taken[id] in s'.taken.Values || s.taken[id] in s'.indexing.Values
  {
    var s' := Next(s, step);
    assert if step == Begin(id) then s'.indexing[id] == s.taken[id] else s'.taken[id] == s.taken[id];
  }

  lemma AccountIndexing(s: State, step: Step, id: nat)
    requires TimersApart(s) && Enabled(s, step) && id in s.indexing
    ensures var s' := Next(s, step); s.indexing[id] in Done(s') || s.indexing[id] in s'.indexing.Values
  {
    var s' := Next(s, step);
    assert step == Report(id) || step == Fail(id) || s'.indexing[id] == s.indexing[id];
  }

  lemma {:induction false} AlwaysOwned(run: seq<State>, steps: seq<Step>, n: nat)
    requires IsRun(run, steps) && n < |run|
    ensures OneOwner(run[n]) && Accounted(run[n])
    ensures NoRepeats(run[n].reported) && NoRepeats(run[n].failed) && forall k :: k in run[n].reported ==> k !in run[n].failed
  {
    if n > 0 {
      AlwaysOwned(run, steps, n - 1);
      assert run[n] == Next(run[n - 1], steps[n - 1]);
      TimersStep(run[n - 1], steps[n - 1]);
      BatchesStep(run[n - 1], steps[n - 1]);
      RepeatStep(run[n - 1], steps[n - 1]);
      AccountStep(run[n - 1], steps[n - 1]);
    }
  }

  /** Once everything has come to rest, each batch was either written to the ledger exactly once or
      lost to an indexing error exactly once. */
  lemma EveryBatchOnce(run: seq<State>, steps: seq<Step>, n: nat, k: nat)
    requires IsRun(run, steps) && n < |run| && run[n].taken.Keys == {} && run[n].indexing.Keys == {}
    ensures k < |run[n].batches| <==> k in run[n].reported || k in run[n].failed
    ensures NoRepeats(run[n].reported) && NoRepeats(run[n].failed) && !(k in run[n].reported && k in run[n].failed)
  {
    AlwaysOwned(run, steps, n);
    assert k in Done(run[n]) <==> k in run[n].reported || k in run[n].failed;
  }

  // ----- Which Index covers the last event -----

  /** The Index of a batch is under way or over once it has begun, and one of them is the last that began. */
  ghost predicate BegunAre(s: State) {
    && (forall k :: k in s.begun ==> k in Done(s) || k in s.indexing.Values)
    && (s.covered > 0 ==> exists k :: k in s.begun && s.begun[k] == s.covered)
  }

  lemma BegunStep(s: State, step: Step)
    requires BegunAre(s) && TimersApart(s) && Enabled(s, step)
    ensures BegunAre(Next(s, step))
  {
    var s' := Next(s, step);
    forall k | k in s'.begun ensures k in Done(s') || k in s'.indexing.Values {
      if step.Begin? && k == s.taken[step.id] {
        assert s'.indexing[step.id] == k;
      } else if k in s.indexing.Values {
        var id :| id in s.indexing && s.indexing[id] == k;
        AccountIndexing(s, step, id);
      }
    }
    if step.Begin? {
      assert s'.begun[s.taken[step.id]] == s'.covered;
    }
  }

  lemma {:induction false} AlwaysBegun(run: seq<State>, steps: seq<Step>, n: nat)
    requires IsRun(run, steps) && n < |run|
    ensures BegunAre(run[n])
  {
    if n > 0 {
      AlwaysBegun(run, steps, n - 1);
      AlwaysOwned(run, steps, n - 1);
      assert run[n] == Next(run[n - 1], steps[n - 1]);
      BegunStep(run[n - 1], steps[n - 1]);
    }
  }

  /** The Index of batch k began after the last event. */
  predicate Covers(s: State, k: nat) {
    k in s.begun && s.begun[k] == |s.arrivals|
  }

  /** At rest some Index began after the last event, but it may have failed, and nothing tries again: the last
      event is in a reported Index exactly when not every Index that began after it failed. */
  lemma RestIsReportedIff(run: seq<State>, steps: seq<Step>, n: nat)
    requires IsRun(run, steps) && n < |run| && !WorkPending(run[n]) && run[n].indexing.Keys == {}
    requires run[n].arrivals != []
    ensures exists k :: Covers(run[n], k)
    ensures (exists k :: Covers(run[n], k) && k in run[n].reported)
      <==> !(forall k :: Covers(run[n], k) ==> k in run[n].failed)
  {
    var s := run[n];
    QuietMeansIndexed(run, steps, n);
    AlwaysBegun(run, steps, n);
    AlwaysOwned(run, steps, n);
    assert s.covered > 0;
    var k :| k in s.begun && s.begun[k] == s.covered;
    assert Covers(s, k);
    forall j | Covers(s, j) ensures j in s.reported || j in s.failed {
      assert j in Done(s);
    }
  }

  // ----- Two runs that lose something -----

  function After(steps: seq<Step>): Option<State> {
    if steps == [] then Some(INITIAL)
    else
      var before := After(steps[..|steps| - 1]);
      if before.Some? && Enabled(before.value, steps[|steps| - 1]) then Some(Next(before.value, steps[|steps| - 1]))
      else None
  }

  /** Steps that can be taken make a run. */
  lemma {:induction false} RunOf(steps: seq<Step>) returns (run: seq<State>)
    requires After(steps).Some?
    ensures IsRun(run, steps) && run[|steps|] == After(steps).value
  {
    if steps == [] {
      run := [INITIAL];
    } else {
      var init := steps[..|steps| - 1];
      var before := RunOf(init);
      run := before + [After(steps).value];
      forall i | 0 <= i < |steps| ensures Enabled(run[i], steps[i]) && run[i + 1] == Next(run[i], steps[i]) {
        if i < |init| {
          assert init[i] == steps[i] && before[i + 1] == Next(before[i], init[i]);
        }
      }
    }
  }

  function Events(n: nat): seq<Step> {
    if n == 0 then [] else Events(n - 1) + [Event("f")]
  }

  lemma {:induction false} AfterEvents(n: nat)
    ensures After(Events(n)).Some?
    ensures var s := After(Events(n)).value;
      |s.arrivals| == n && |s.changedFiles| == (if n <= MAX_CHANGED_FILES then n else MAX_CHANGED_FILES) && s.batches == []
  {
    if n > 0 {
      AfterEvents(n - 1);
      assert Events(n)[..|Events(n)| - 1] == Events(n - 1);
    }
  }

  /** Eleven events in a row, and only ten paths are kept. */
  lemma ElevenEvents() returns (run: seq<State>)
    ensures IsRun(run, Events(11)) && |Events(11)| < |run|
    ensures var s := run[|Events(11)|]; |s.arrivals| == 11 && |Flatten(s.batches) + s.changedFiles| == 10
  {
    AfterEvents(11);
    run := RunOf(Events(11));
  }

  const LAST_FAILS := [Event("f"), Fire, Take(0), Begin(0), Fail(0)]

  /** One event whose Index fails: all is quiet, and no Index was reported. */
  lemma FailedIsNotRetried() returns (run: seq<State>)
    ensures IsRun(run, LAST_FAILS) && |LAST_FAILS| < |run|
    ensures var s := run[|LAST_FAILS|];
      !WorkPending(s) && s.indexing.Keys == {} && |s.arrivals| == 1 && s.reported == [] && s.failed == [0]
  {
    var a := Next(INITIAL, Event("f"));
    var b := Next(a, Fire);
    var c := Next(b, Take(0));
    var d := Next(c, Begin(0));
    var e := Next(d, Fail(0));
    run := [INITIAL, a, b, c, d, e];
    assert e.taken.Keys == {} && e.indexing.Keys == {} && e.fired == {};
  }
}
