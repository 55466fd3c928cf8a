/** The session cache shared by all request threads: a read-locked look-up, a write-locked second
    look, and a close of everything. Any number of threads, one lock, one map. */
module SessionCache {
  import opened Wrappers

  type Thread = nat
  type SessionId = nat   // sessions are numbered as they are created

  /** Where a thread is inside GetOrCreateRepoSession or CloseAllSessions. */
  datatype Pc =
    | Idle
    | Called(key: string)                            // before the read lock
    | Reading(key: string)                           // holds the read lock
    | Looked(key: string, hit: Option<SessionId>)    // has read the map, still holds the read lock
    | Missed(key: string)                            // before the write lock
    | Rechecking(key: string)                        // holds the write lock
    | Creating(key: string)                          // holds the write lock, the key was still missing
    | Made(key: string, id: SessionId)               // holds the write lock, the session is not in the map yet
    | Leaving(key: string, id: SessionId)            // about to return this session
    | Closing                                        // holds the write lock, is closing everything

  datatype State = State(
    sessions: map<string, SessionId>,
    writer: Option<Thread>,
    readers: set<Thread>,
    pcs: map<Thread, Pc>,
    created: seq<string>,                  // the key each session was created for
    closed: seq<SessionId>,                // in order of closing
    held: map<Thread, set<SessionId>>)     // what the map held for the thread's key since its call began

  const INITIAL := State(map[], None, {}, map[], [], [], map[])

  function PcOf(s: State, t: Thread): Pc {
    if t in s.pcs then s.pcs[t] else Idle
  }

  function HeldBy(s: State, t: Thread): set<SessionId> {
    if t in s.held then s.held[t] else {}
  }

  function Found(m: map<string, SessionId>, key: string): Option<SessionId> {
    if key in m then Some(m[key]) else None
  }

  function AsSet(o: Option<SessionId>): set<SessionId> {
    match o case Some(id) => {id} case None => {}
  }

  datatype Step =
    | Call(t: Thread, key: string)
    | RLock(t: Thread)
    | Read(t: Thread)
    | RUnlock(t: Thread)
    | Lock(t: Thread)
    | Recheck(t: Thread)
    | Create(t: Thread)
    | CreateFails(t: Thread)
    | Insert(t: Thread)
    | Return(t: Thread)
    | CloseLock(t: Thread)
    | CloseOne(t: Thread, path: string)
    | CloseDone(t: Thread)

  predicate Enabled(s: State, step: Step) {
    var pc := PcOf(s, step.t);
    match step
    case Call(_, _) => pc.Idle?
    case RLock(_) => pc.Called? && s.writer == None
    case Read(_) => pc.Reading?
    case RUnlock(_) => pc.Looked?
    case Lock(_) => pc.Missed? && s.writer == None && s.readers == {}
    case Recheck(_) => pc.Rechecking?
    case Create(_) => pc.Creating?
    case CreateFails(_) => pc.Creating?
    case Insert(_) => pc.Made?
    case Return(_) => pc.Leaving?
    case CloseLock(_) => pc.Idle? && s.writer == None && s.readers == {}
    case CloseOne(_, path) => pc.Closing? && path in s.sessions
    case CloseDone(_) => pc.Closing? && s.sessions.Keys == {}
  }

  /** Thread t moves to pc. */
  function Move(s: State, t: Thread, pc: Pc): State {
    s.(pcs := s.pcs[t := pc])
  }

  function Next(s: State, step: Step): State
    requires Enabled(s, step)
  {
    var t, pc := step.t, PcOf(s, step.t);
    match step
    case Call(_, key) => Move(s, t, Called(key)).(held := s.held[t := AsSet(Found(s.sessions, key))])
    case RLock(_) => Move(s, t, Reading(pc.key)).(readers := s.readers + {t})
    case Read(_) => Move(s, t, Looked(pc.key, Found(s.sessions, pc.key)))
    case RUnlock(_) =>
      (match pc.hit
       case Some(id) => Move(s, t, Leaving(pc.key, id))
       case None => Move(s, t, Missed(pc.key))).(readers := s.readers - {t})
    case Lock(_) => Move(s, t, Rechecking(pc.key)).(writer := Some(t))
    case Recheck(_) =>
      (match Found(s.sessions, pc.key)
       case Some(id) => Move(s, t, Leaving(pc.key, id)).(writer := None)
       case None => Move(s, t, Creating(pc.key)))
    case Create(_) => Move(s, t, Made(pc.key, |s.created|)).(created := s.created + [pc.key])
    case CreateFails(_) => Move(s, t, Idle).(writer := None)
    case Insert(_) =>
      Move(s, t, Leaving(pc.key, pc.id)).(writer := None, sessions := s.sessions[pc.key := pc.id],
                                          held := map u | u in s.held ::
                                            if CallKey(s, u) == Some(pc.key) then s.held[u] + {pc.id} else s.held[u])
    case Return(_) => Move(s, t, Idle)
    case CloseLock(_) => Move(s, t, Closing).(writer := Some(t))
    case CloseOne(_, path) => s.(closed := s.closed + [s.sessions[path]], sessions := s.sessions - {path})
    case CloseDone(_) => Move(s, t, Idle).(writer := None)
  }

  /** The key a thread's current call is about. */
  function CallKey(s: State, t: Thread): Option<string> {
    var pc := PcOf(s, t);
    if pc.Idle? || pc.Closing? then None else Some(pc.key)
  }

  ghost predicate IsRun(run: seq<State>, steps: seq<Step>) {
    && |run| == |steps| + 1 && run[0] == INITIAL
    && forall i :: 0 <= i < |steps| ==> Enabled(run[i], steps[i]) && run[i + 1] == Next(run[i], steps[i])
  }

  // ----- The invariant -----

  predicate WritePc(pc: Pc) {
    pc.Rechecking? || pc.Creating? || pc.Made? || pc.Closing?
  }

  predicate ReadPc(pc: Pc) {
    pc.Reading? || pc.Looked?
  }

  /** At most one thread is inside the write lock, and then none is inside the read lock. */
  ghost predicate Exclusive(s: State) {
    && (forall t: Thread :: WritePc(PcOf(s, t)) <==> s.writer == Some(t))
    && (forall t: Thread :: ReadPc(PcOf(s, t)) <==> t in s.readers)
    && (s.writer.Some? ==> s.readers == {})
  }

  /** A session the map holds was created for that key and never closed. */
  ghost predicate MapIsOpen(s: State) {
    && (forall k :: k in s.sessions ==>
          s.sessions[k] < |s.created| && s.created[s.sessions[k]] == k && s.sessions[k] !in s.closed)
    && (forall i :: 0 <= i < |s.closed| ==> s.closed[i] < |s.created|)
    && (forall i, j :: 0 <= i < j < |s.closed| ==> s.closed[i] != s.closed[j])
  }

  /** A thread that has found the key missing under the write lock is right, and its new session is open. */
  ghost predicate WriterIsRight(s: State) {
    forall t: Thread :: RightFor(s, t)
  }

  ghost predicate RightFor(s: State, t: Thread) {
    && (PcOf(s, t).Creating? ==> PcOf(s, t).key !in s.sessions)
    && (PcOf(s, t).Made? ==> PcOf(s, t).key !in s.sessions && PcOf(s, t).id < |s.created| && PcOf(s, t).id !in s.closed
                             && s.created[PcOf(s, t).id] == PcOf(s, t).key)
  }

  /** Every session is closed, in the map, or in the hands of the thread that made it. */
  ghost predicate NoneLeaks(s: State) {
    forall id: SessionId :: id < |s.created| ==>
      || id in s.closed || Found(s.sessions, s.created[id]) == Some(id)
      || (s.writer.Some? && PcOf(s, s.writer.value) == Made(s.created[id], id))
  }

  /** What a thread has found or will return was in the map during its call. */
  ghost predicate HeldDuringCall(s: State) {
    forall t: Thread :: HeldFor(s, t)
  }

  ghost predicate HeldFor(s: State, t: Thread) {
    && (CallKey(s, t).Some? ==> t in s.held && AsSet(Found(s.sessions, CallKey(s, t).value)) <= s.held[t])
    && (PcOf(s, t).Looked? ==> AsSet(PcOf(s, t).hit) <= HeldBy(s, t))
    && (PcOf(s, t).Leaving? ==> PcOf(s, t).id in HeldBy(s, t))
  }

  lemma ExclusiveStep(s: State, step: Step)
    requires Exclusive(s) && Enabled(s, step)
    ensures Exclusive(Next(s, step))
  {
  }

  lemma MapStep(s: State, step: Step)
    requires MapIsOpen(s) && WriterIsRight(s) && Enabled(s, step)
    ensures MapIsOpen(Next(s, step))
  {
    assert RightFor(s, step.t);
  }

  lemma OthersAreRight(s: State, step: Step, u: Thread)
    requires Exclusive(s) && RightFor(s, u) && Enabled(s, step) && u != step.t
    ensures RightFor(Next(s, step), u)
  {
    var s' := Next(s, step);
    assert PcOf(s', u) == PcOf(s, u);
    if PcOf(s, u).Creating? || PcOf(s, u).Made? {
      assert WritePc(PcOf(s, u)) && s.writer == Some(u);
      assert !WritePc(PcOf(s, step.t));
      assert s'.sessions == s.sessions && s'.closed == s.closed && s'.created == s.created;
    }
  }

  lemma OwnIsRight(s: State, step: Step)
    requires MapIsOpen(s) && RightFor(s, step.t) && Enabled(s, step)
    ensures RightFor(Next(s, step), step.t)
  {
  }

  lemma WriterStep(s: State, step: Step)
    requires Exclusive(s) && MapIsOpen(s) && WriterIsRight(s) && Enabled(s, step)
    ensures WriterIsRight(Next(s, step))
  {
    forall u: Thread ensures RightFor(Next(s, step), u) {
      if u == step.t {
        OwnIsRight(s, step);
      } else {
        OthersAreRight(s, step, u);
      }
    }
  }

  lemma LeakStep(s: State, step: Step)
    requires Exclusive(s) && MapIsOpen(s) && WriterIsRight(s) && NoneLeaks(s) && Enabled(s, step)
    ensures NoneLeaks(Next(s, step))
  {
    var s', t := Next(s, step), step.t;
    assert WritePc(PcOf(s, t)) ==> s.writer == Some(t);
    assert RightFor(s, t);
    forall id: SessionId | id < |s'.created|
      ensures || id in s'.closed || Found(s'.sessions, s'.created[id]) == Some(id)
              || (s'.writer.Some? && PcOf(s', s'.writer.value) == Made(s'.created[id], id))
    {
      if id < |s.created| {
        assert s'.created[id] == s.created[id];
        assert || id in s.closed || Found(s.sessions, s.created[id]) == Some(id)
               || (s.writer.Some? && PcOf(s, s.writer.value) == Made(s.created[id], id));
      }
    }
  }

  lemma HeldStep(s: State, step: Step)
    requires HeldDuringCall(s) && Enabled(s, step)
    ensures HeldDuringCall(Next(s, step))
  {
    forall u: Thread ensures HeldFor(Next(s, step), u) {
      assert HeldFor(s, u);
      if u == step.t {
        OwnIsHeld(s, step);
      } else {
        OthersAreHeld(s, step, u);
      }
    }
  }

  lemma OwnIsHeld(s: State, step: Step)
    requires HeldFor(s, step.t) && Enabled(s, step)
    ensures HeldFor(Next(s, step), step.t)
  {
  }

  lemma OthersAreHeld(s: State, step: Step, u: Thread)
    requires HeldFor(s, u) && Enabled(s, step) && u != step.t
    ensures HeldFor(Next(s, step), u)
  {
    assert PcOf(Next(s, step), u) == PcOf(s, u);
  }

  lemma {:induction false} Always(run: seq<State>, steps: seq<Step>, n: nat)
    requires IsRun(run, steps) && n < |run|
    ensures Exclusive(run[n]) && MapIsOpen(run[n]) && WriterIsRight(run[n]) && NoneLeaks(run[n])
    ensures HeldDuringCall(run[n])
  {
    if n > 0 {
      var s, step := run[n - 1], steps[n - 1];
      Always(run, steps, n - 1);
      assert run[n] == Next(s, step);
      ExclusiveStep(s, step);
      MapStep(s, step);
      WriterStep(s, step);
      LeakStep(s, step);
      HeldStep(s, step);
    }
  }

  /** The sessions created for a key and not closed yet. */
  function OpenFor(s: State, key: string): set<SessionId> {
    set id: SessionId | 0 <= id < |s.created| && s.created[id] == key && id !in s.closed
  }

  /** Whenever the write lock is free, the map holds exactly the open session of a key: created minus
      closed is one for a key in the map and zero for any other. */
  lemma MapHoldsTheOpenSession(run: seq<State>, steps: seq<Step>, n: nat, key: string)
    requires IsRun(run, steps) && n < |run| && run[n].writer == None
    ensures OpenFor(run[n], key) == AsSet(Found(run[n].sessions, key))
  {
    Always(run, steps, n);
  }

  /** Even inside the write lock a key has at most one open session. */
  lemma NeverTwoOpen(run: seq<State>, steps: seq<Step>, n: nat, key: string)
    requires IsRun(run, steps) && n < |run|
    ensures |OpenFor(run[n], key)| <= 1
  {
    var s := run[n];
    Always(run, steps, n);
    if s.writer.Some? && PcOf(s, s.writer.value).Made? && PcOf(s, s.writer.value).key == key {
      assert RightFor(s, s.writer.value);
      assert OpenFor(s, key) <= {PcOf(s, s.writer.value).id};
      AtMostOne(OpenFor(s, key), PcOf(s, s.writer.value).id);
    } else {
      assert OpenFor(s, key) <= AsSet(Found(s.sessions, key));
      if key in s.sessions { AtMostOne(OpenFor(s, key), s.sessions[key]); }
    }
  }

  lemma AtMostOne<T>(s: set<T>, x: T)
    requires s <= {x}
    ensures |s| <= 1
  {
    assert s == {} || s == {x};
  }

  /** No session is closed twice. */
  lemma NeverClosedTwice(run: seq<State>, steps: seq<Step>, n: nat)
    requires IsRun(run, steps) && n < |run|
    ensures forall i, j :: 0 <= i < j < |run[n].closed| ==> run[n].closed[i] != run[n].closed[j]
  {
    Always(run, steps, n);
  }

  /** When closing ends, every session ever created is closed. */
  lemma CloseEndsThemAll(run: seq<State>, steps: seq<Step>, n: nat)
    requires IsRun(run, steps) && n < |steps| && steps[n].CloseDone?
    ensures forall id: SessionId :: id < |run[n].created| <==> id in run[n].closed
  {
    var s := run[n];
    Always(run, steps, n);
    assert Enabled(s, steps[n]);
    assert WritePc(PcOf(s, steps[n].t));
    forall id: SessionId | id < |s.created| ensures id in s.closed {
      assert s.created[id] !in s.sessions;
    }
  }

  /** No run gets stuck: while some thread is inside a call, some thread inside one can go on. */
  lemma NeverStuck(run: seq<State>, steps: seq<Step>, n: nat, t: Thread) returns (step: Step)
    requires IsRun(run, steps) && n < |run| && !PcOf(run[n], t).Idle?
    ensures Enabled(run[n], step) && !PcOf(run[n], step.t).Idle?
  {
    var s := run[n];
    Always(run, steps, n);
    if s.writer.Some? {
      step := GoesOn(s, s.writer.value);
    } else if r :| r in s.readers {
      step := GoesOn(s, r);
    } else {
      step := GoesOn(s, t);
    }
  }

  lemma GoesOn(s: State, t: Thread) returns (step: Step)
    requires !PcOf(s, t).Idle?
    requires PcOf(s, t).Called? ==> s.writer == None
    requires PcOf(s, t).Missed? ==> s.writer == None && s.readers == {}
    ensures Enabled(s, step) && step.t == t
  {
    match PcOf(s, t) {
      case Called(_) => step := RLock(t);
      case Reading(_) => step := Read(t);
      case Looked(_, _) => step := RUnlock(t);
      case Missed(_) => step := Lock(t);
      case Rechecking(_) => step := Recheck(t);
      case Creating(_) => step := Create(t);
      case Made(_, _) => step := Insert(t);
      case Leaving(_, _) => step := Return(t);
      case Closing =>
        if path :| path in s.sessions {
          step := CloseOne(t, path);
        } else {
          step := CloseDone(t);
        }
    }
  }

  // ----- One thread alone -----

  /** The state after the steps from the k-th on; None if one of them cannot be taken. */
  function After(s: State, steps: seq<Step>, k: nat): Option<State>
    requires k <= |steps|
    decreases |steps| - k
  {
    if k == |steps| then Some(s)
    else if Enabled(s, steps[k]) then After(Next(s, steps[k]), steps, k + 1)
    else None
  }

  /** Nobody holds the lock and t is in no call. */
  ghost predicate Quiet(s: State, t: Thread) {
    s.writer == None && s.readers == {} && PcOf(s, t).Idle?
  }

  /** A call that finds its session takes the read lock alone, and returns what the map holds. */
  lemma AloneFinds(s: State, t: Thread, key: string)
    requires Quiet(s, t) && key in s.sessions
    ensures var r := After(s, [Call(t, key), RLock(t), Read(t), RUnlock(t)], 0);
      && r.Some? && PcOf(r.value, t) == Leaving(key, s.sessions[key])
      && r.value.sessions == s.sessions && r.value.created == s.created && r.value.closed == s.closed
      && r.value.writer == None && r.value.readers == {}
  {
    var steps := [Call(t, key), RLock(t), Read(t), RUnlock(t)];
    var a := Next(s, steps[0]);
    var b := Next(a, steps[1]);
    var c := Next(b, steps[2]);
    var d := Next(c, steps[3]);
    assert After(d, steps, 4) == Some(d);
    assert After(c, steps, 3) == Some(d);
    assert After(b, steps, 2) == Some(d);
  }

  /** A call that misses goes on to make a session, puts it into the map, and returns it. */
  lemma AloneCreates(s: State, t: Thread, key: string)
    requires Quiet(s, t) && key !in s.sessions
    ensures var r := After(s, [Call(t, key), RLock(t), Read(t), RUnlock(t), Lock(t), Recheck(t), Create(t), Insert(t)], 0);
      && r.Some? && PcOf(r.value, t) == Leaving(key, |s.created|)
      && r.value.sessions == s.sessions[key := |s.created|] && r.value.created == s.created + [key]
      && r.value.closed == s.closed && r.value.writer == None && r.value.readers == {}
  {
    var steps := [Call(t, key), RLock(t), Read(t), RUnlock(t), Lock(t), Recheck(t), Create(t), Insert(t)];
    var a := Next(s, steps[0]);
    var b := Next(a, steps[1]);
    var c := Next(b, steps[2]);
    var d := Next(c, steps[3]);
    assert PcOf(d, t) == Missed(key);
    AloneInserts(d, t, key, steps);
    assert After(c, steps, 3) == After(d, steps, 4);
    assert After(b, steps, 2) == After(d, steps, 4);
  }

  lemma AloneInserts(s: State, t: Thread, key: string, steps: seq<Step>)
    requires s.writer == None && s.readers == {} && PcOf(s, t) == Missed(key) && key !in s.sessions
    requires |steps| == 8 && steps[4..] == [Lock(t), Recheck(t), Create(t), Insert(t)]
    ensures var r := After(s, steps, 4);
      && r.Some? && PcOf(r.value, t) == Leaving(key, |s.created|)
      && r.value.sessions == s.sessions[key := |s.created|] && r.value.created == s.created + [key]
      && r.value.closed == s.closed && r.value.writer == None && r.value.readers == {}
  {
    assert steps[4] == steps[4..][0] && steps[5] == steps[4..][1] && steps[6] == steps[4..][2] && steps[7] == steps[4..][3];
    var a := Next(s, steps[4]);
    var b := Next(a, steps[5]);
    var c := Next(b, steps[6]);
    var d := Next(c, steps[7]);
    assert After(d, steps, 8) == Some(d);
    assert After(c, steps, 7) == Some(d);
    assert After(b, steps, 6) == Some(d);
  }

  /** A call that missed, while another thread made the session in between, makes none and returns that one. */
  lemma LatecomerFinds(s: State, t: Thread, key: string)
    requires s.writer == None && s.readers == {} && PcOf(s, t) == Missed(key) && key in s.sessions
    ensures After(s, [Lock(t), Recheck(t)], 0) == Some(Move(s, t, Leaving(key, s.sessions[key])))
  {
    var steps := [Lock(t), Recheck(t)];
    var a := Next(s, steps[0]);
    var b := Next(a, steps[1]);
    assert b.pcs == s.pcs[t := Leaving(key, s.sessions[key])];
    assert After(b, steps, 2) == Some(b);
  }

  /** When a session cannot be made, the call ends and leaves nothing behind. */
  lemma FailureLeavesNothing(s: State, t: Thread, key: string)
    requires s.writer == None && s.readers == {} && PcOf(s, t) == Missed(key) && key !in s.sessions
    ensures After(s, [Lock(t), Recheck(t), CreateFails(t)], 0) == Some(Move(s, t, Idle))
  {
    var steps := [Lock(t), Recheck(t), CreateFails(t)];
    var a := Next(s, steps[0]);
    var b := Next(a, steps[1]);
    var c := Next(b, steps[2]);
    assert c.pcs == s.pcs[t := Idle];
    assert After(c, steps, 3) == Some(c);
    assert After(b, steps, 2) == Some(c);
  }

  lemma {:induction false} AfterShift(s: State, step: Step, steps: seq<Step>, k: nat)
    requires k <= |steps|
    ensures After(s, [step] + steps, k + 1) == After(s, steps, k)
    decreases |steps| - k
  {
    if k < |steps| && Enabled(s, steps[k]) {
      AfterShift(Next(s, steps[k]), step, steps, k + 1);
    }
  }

  lemma StepFirst(s: State, step: Step, steps: seq<Step>)
    requires Enabled(s, step)
    ensures After(s, [step] + steps, 0) == After(Next(s, step), steps, 0)
  {
    AfterShift(Next(s, step), step, steps, 0);
  }

  /** Everything the map of s held is closed, and nothing else happened. */
  ghost predicate AllClosed(s: State, t: Thread, r: Option<State>) {
    && r.Some? && r.value.sessions == map[] && PcOf(r.value, t).Idle? && r.value.writer == None
    && r.value.created == s.created && s.closed <= r.value.closed && |r.value.closed| == |s.closed| + |s.sessions|
    && forall key :: key in s.sessions ==> s.sessions[key] in r.value.closed
  }

  lemma {:induction false} ClosesTheRest(s: State, t: Thread) returns (steps: seq<Step>)
    requires PcOf(s, t).Closing?
    ensures AllClosed(s, t, After(s, steps, 0))
    decreases |s.sessions|
  {
    if s.sessions.Keys == {} {
      steps := [CloseDone(t)];
      assert s.sessions == map[];
      assert After(Next(s, CloseDone(t)), steps, 1) == Some(Next(s, CloseDone(t)));
    } else {
      var path :| path in s.sessions;
      var one := CloseOne(t, path);
      assert s.sessions.Keys == (s.sessions - {path}).Keys + {path};
      var rest := ClosesTheRest(Next(s, one), t);
      steps := [one] + rest;
      StepFirst(s, one, rest);
      var closed := After(s, steps, 0).value.closed;
      assert s.sessions[path] == Next(s, one).closed[|s.closed|] == closed[|s.closed|];
      assert forall key :: key in s.sessions && key != path ==> Next(s, one).sessions[key] == s.sessions[key];
    }
  }

  /** A thread that closes everything, alone, ends with an empty map and every session in it closed. */
  lemma AloneCloses(s: State, t: Thread) returns (steps: seq<Step>)
    requires Quiet(s, t)
    ensures AllClosed(s, t, After(s, [CloseLock(t)] + steps, 0))
  {
    steps := ClosesTheRest(Next(s, CloseLock(t)), t);
    StepFirst(s, CloseLock(t), steps);
  }

  /** The number of steps taken before thread t's latest call began. */
  function CallStart(steps: seq<Step>, n: nat, t: Thread): nat
    requires n <= |steps|
  {
    if n == 0 then 0
    else if steps[n - 1].Call? && steps[n - 1].t == t then n
    else CallStart(steps, n - 1, t)
  }

  /** `held` is a record of real instants: each session in it was in the map at one of them. */
  lemma {:induction false} HeldAtSomeInstant(run: seq<State>, steps: seq<Step>, n: nat, t: Thread, id: SessionId)
    returns (m: nat)
    requires IsRun(run, steps) && n < |run| && CallKey(run[n], t).Some? && id in HeldBy(run[n], t)
    ensures CallStart(steps, n, t) <= m <= n && Found(run[m].sessions, CallKey(run[n], t).value) == Some(id)
    decreases n
  {
    var s, s', step := run[n - 1], run[n], steps[n - 1];
    assert s' == Next(s, step);
    if Found(s'.sessions, CallKey(s', t).value) == Some(id) {
      m := n;
      CallStartBound(steps, n, t);
    } else {
      assert CallKey(s, t) == CallKey(s', t) && id in HeldBy(s, t);
      m := HeldAtSomeInstant(run, steps, n - 1, t, id);
    }
  }

  lemma {:induction false} CallStartBound(steps: seq<Step>, n: nat, t: Thread)
    requires n <= |steps|
    ensures CallStart(steps, n, t) <= n
  {
    if n > 0 && !(steps[n - 1].Call? && steps[n - 1].t == t) { CallStartBound(steps, n - 1, t); }
  }

  /** A call that returns a session returns one that the map held for its key at some instant between
      the start and the end of the call. */
  lemma ReturnsHeldSession(run: seq<State>, steps: seq<Step>, n: nat) returns (m: nat)
    requires IsRun(run, steps) && n < |steps| && steps[n].Return?
    ensures var t := steps[n].t;
            CallStart(steps, n, t) <= m <= n && PcOf(run[n], t).Leaving? &&
            Found(run[m].sessions, PcOf(run[n], t).key) == Some(PcOf(run[n], t).id)
    // m lies within the call that returns: the call is about the same key, and none of t's begins after m
    ensures var t := steps[n].t;
            (exists c :: BeginsAt(steps, c, t) && c < m && steps[c].key == PcOf(run[n], t).key)
            && forall i :: m <= i < n ==> !BeginsAt(steps, i, t)
  {
    Always(run, steps, n);
    assert Enabled(run[n], steps[n]);
    var t := steps[n].t;
    assert HeldFor(run[n], t);
    m := HeldAtSomeInstant(run, steps, n, t, PcOf(run[n], t).id);
    CallStartMeaning(run, steps, n, t);
  }

  /** A call of thread t begins with step i. */
  predicate BeginsAt(steps: seq<Step>, i: int, t: Thread) {
    0 <= i < |steps| && steps[i].Call? && steps[i].t == t
  }

  /** The latest call of a thread inside a call began with the step before CallStart, and is about that key. */
  lemma {:induction false} CallStartMeaning(run: seq<State>, steps: seq<Step>, n: nat, t: Thread)
    requires IsRun(run, steps) && n < |run| && CallKey(run[n], t).Some?
    ensures var c := CallStart(steps, n, t);
      && 0 < c <= n && BeginsAt(steps, c - 1, t) && CallKey(run[n], t) == Some(steps[c - 1].key)
      && forall i :: c <= i < n ==> !BeginsAt(steps, i, t)
  {
    var s, step := run[n - 1], steps[n - 1];
    assert run[n] == Next(s, step);
    if !BeginsAt(steps, n - 1, t) {
      assert CallKey(s, t) == CallKey(run[n], t);
      CallStartMeaning(run, steps, n - 1, t);
    }
  }
}
