/** The session ledger: an append-only file of events, and the slice of it made of the last sessions. */
module Ledger {
  import opened Wrappers

  datatype Kind = Session | Watch | Other(name: string)
  datatype Action = Start | Different(name: string)

  /** An event; `rest` stands for the fields no decision depends on. */
  datatype Event = Event(ts: int, kind: Kind, action: Action, rest: string)

  const MAX_SESSIONS := 5
  const IDLE_THRESHOLD := 1_800_000_000_000   // thirty minutes, in nanoseconds

  predicate IsMarker(e: Event) {
    e.kind.Session? && e.action.Start?
  }

  predicate IsWatch(e: Event) {
    e.kind.Watch?
  }

  // ----- Which events the last n sessions are -----

  /** A non-empty session begins at i: no marker, and nothing or a marker in front of it. */
  predicate Starts(events: seq<Event>, i: int) {
    0 <= i < |events| && !IsMarker(events[i]) && (i == 0 || IsMarker(events[i - 1]))
  }

  /** The number of non-empty sessions that begin after position i. */
  function Later(events: seq<Event>, i: nat): nat
    decreases |events| - i
  {
    if i >= |events| then 0 else Later(events, i + 1) + if Starts(events, i + 1) then 1 else 0
  }

  function Limit(n: int): int {
    if n > MAX_SESSIONS then MAX_SESSIONS else n
  }

  predicate Wanted(events: seq<Event>, n: int, i: nat)
    requires i < |events|
  {
    !IsMarker(events[i]) && !IsWatch(events[i]) && Later(events, i) < Limit(n)
  }

  /** The wanted events from position i on, newest first. */
  function NewestFirst(events: seq<Event>, n: int, i: nat): seq<Event>
    requires i <= |events|
    decreases |events| - i
  {
    if i == |events| then [] else NewestFirst(events, n, i + 1) + if Wanted(events, n, i) then [events[i]] else []
  }

  // ----- The sessions of a ledger as intervals -----

  type Interval = (nat, nat)

  /** No session begins strictly between positions i and j. */
  ghost predicate OnlyMarkers(events: seq<Event>, i: nat, j: nat) {
    forall k :: i <= k < j && k < |events| ==> IsMarker(events[k])
  }

  /** `s` is the list of all non-empty sessions that end at or before `upto`. */
  ghost predicate AreSessions(events: seq<Event>, s: seq<Interval>, upto: nat) {
    && upto <= |events|
    && (forall k :: 0 <= k < |s| ==> s[k].0 < s[k].1 <= upto && Starts(events, s[k].0))
    && (forall k, i :: 0 <= k < |s| && s[k].0 <= i < s[k].1 ==> !IsMarker(events[i]))
    && (forall k :: 0 <= k < |s| - 1 ==> s[k].1 < s[k + 1].0 && OnlyMarkers(events, s[k].1, s[k + 1].0))
    && (s != [] ==> OnlyMarkers(events, 0, s[0].0) && OnlyMarkers(events, s[|s| - 1].1, upto))
    && (s == [] ==> OnlyMarkers(events, 0, upto))
  }

  /** The end of the gap behind session k. */
  function GapEnd(events: seq<Event>, s: seq<Interval>, k: nat): nat
    requires k < |s|
  {
    if k + 1 < |s| then s[k + 1].0 else |events|
  }

  lemma {:induction false} LaterWithoutStart(events: seq<Event>, i: nat, j: nat)
    requires i <= j && forall k :: i < k <= j ==> !Starts(events, k)
    ensures Later(events, i) == Later(events, j)
    decreases j - i
  {
    if i < j {
      LaterWithoutStart(events, i + 1, j);
      if i >= |events| { assert Later(events, j) == 0; }
    }
  }

  /** Behind any position of session k there are exactly the sessions after the k-th. */
  lemma {:induction false} LaterInSession(events: seq<Event>, s: seq<Interval>, k: nat, i: nat)
    requires AreSessions(events, s, |events|) && k < |s| && s[k].0 <= i < GapEnd(events, s, k)
    ensures Later(events, i) == |s| - 1 - k
    decreases |s| - k
  {
    var e := GapEnd(events, s, k);
    assert forall j :: s[k].0 < j < e ==> !Starts(events, j) by {
      forall j | s[k].0 < j < e ensures !Starts(events, j) {
        if j < s[k].1 {
          assert !IsMarker(events[j - 1]);
        } else if j == s[k].1 {
          assert OnlyMarkers(events, s[k].1, e);
        } else {
          assert OnlyMarkers(events, s[k].1, e);
        }
      }
    }
    LaterWithoutStart(events, i, e - 1);
    if k + 1 < |s| {
      LaterInSession(events, s, k + 1, e);
      assert Starts(events, e);
    }
  }

  lemma {:induction false} SkipMarkers(events: seq<Event>, n: int, i: nat, j: nat)
    requires i <= j <= |events| && OnlyMarkers(events, i, j)
    ensures NewestFirst(events, n, i) == NewestFirst(events, n, j)
    decreases j - i
  {
    if i < j {
      SkipMarkers(events, n, i + 1, j);
    }
  }

  lemma {:induction false} LaterDescends(events: seq<Event>, i: nat, j: nat)
    requires i <= j
    ensures Later(events, j) <= Later(events, i)
    decreases j - i
  {
    if i < j {
      LaterDescends(events, i + 1, j);
      if i >= |events| { assert Later(events, j) == 0; }
    }
  }

  /** Nothing before a position with too many later sessions is wanted. */
  lemma {:induction false} SkipOldSessions(events: seq<Event>, n: int, i: nat, j: nat)
    requires i <= j <= |events| && (i < j ==> Later(events, j - 1) >= Limit(n))
    ensures NewestFirst(events, n, i) == NewestFirst(events, n, j)
    decreases j - i
  {
    if i < j {
      LaterDescends(events, i, j - 1);
      SkipOldSessions(events, n, i + 1, j);
    }
  }

  // ----- The computation -----

  /** The positions of the first n events that are markers. */
  function Markers(events: seq<Event>, n: nat): seq<nat>
    requires n <= |events|
  {
    if n == 0 then [] else Markers(events, n - 1) + if IsMarker(events[n - 1]) then [n - 1] else []
  }

  ghost predicate NoMarker(events: seq<Event>, i: nat, j: nat) {
    forall k :: i <= k < j && k < |events| ==> !IsMarker(events[k])
  }

  /** Marker k is a marker, and there is none between it and the next one. */
  lemma {:induction false} MarkersMeaning(events: seq<Event>, n: nat, k: nat)
    requires n <= |events| && k < |Markers(events, n)|
    ensures var b := Markers(events, n);
            && b[k] < n && IsMarker(events[b[k]])
            && (k == 0 ==> NoMarker(events, 0, b[0]))
            && (k + 1 < |b| ==> b[k] < b[k + 1] && NoMarker(events, b[k] + 1, b[k + 1]))
            && (k + 1 == |b| ==> NoMarker(events, b[k] + 1, n))
  {
    var before := Markers(events, n - 1);
    if k < |before| {
      MarkersMeaning(events, n - 1, k);
    } else {
      NewMarker(events, n - 1);
    }
  }

  lemma {:induction false} NewMarker(events: seq<Event>, n: nat)
    requires n <= |events|
    ensures var b := Markers(events, n);
            if b == [] then NoMarker(events, 0, n) else b[|b| - 1] < n && NoMarker(events, b[|b| - 1] + 1, n)
  {
    if n > 0 {
      NewMarker(events, n - 1);
    }
  }

  method Boundaries(events: seq<Event>) returns (b: seq<nat>)
    ensures b == Markers(events, |events|)
  {
    b := [];
    for i := 0 to |events|
      invariant b == Markers(events, i)
    {
      if events[i].kind.Session? && events[i].action.Start? {
        b := b + [i];
      }
    }
  }

  /** One more session between the marker at `at` and position `end`, unless it is empty. */
  function WithSession(s: seq<Interval>, at: nat, end: nat): seq<Interval> {
    if at + 1 < end then s + [(at + 1, end)] else s
  }

  lemma GapGrows(events: seq<Event>, s: seq<Interval>, at: nat)
    requires at < |events| && AreSessions(events, s, at) && IsMarker(events[at])
    ensures AreSessions(events, s, at + 1)
  {
  }

  lemma SessionFits(events: seq<Event>, s: seq<Interval>, at: nat, end: nat)
    requires at + 1 < end <= |events| && IsMarker(events[at]) && NoMarker(events, at + 1, end)
    requires AreSessions(events, s, at)
    ensures AreSessions(events, s + [(at + 1, end)], end)
  {
    GapGrows(events, s, at);
    var s' := s + [(at + 1, end)];
    assert Starts(events, at + 1);
    assert forall k :: 0 <= k < |s'| ==> s'[k] == if k < |s| then s[k] else (at + 1, end);
    assert OnlyMarkers(events, end, end);
  }

  lemma NextSession(events: seq<Event>, s: seq<Interval>, at: nat, end: nat)
    requires at < end <= |events| && IsMarker(events[at]) && NoMarker(events, at + 1, end)
    requires AreSessions(events, s, at)
    ensures AreSessions(events, WithSession(s, at, end), end)
  {
    if at + 1 < end {
      SessionFits(events, s, at, end);
    } else {
      GapGrows(events, s, at);
    }
  }

  lemma FirstSession(events: seq<Event>, end: nat)
    requires end <= |events| && NoMarker(events, 0, end)
    ensures AreSessions(events, if end > 0 then [(0, end)] else [], end)
  {
  }

  function EndOf(events: seq<Event>, b: seq<nat>, i: nat): nat
    requires i < |b|
  {
    if i + 1 < |b| then b[i + 1] else |events|
  }

  /** The intervals in front of marker i. */
  function SessionsBefore(events: seq<Event>, b: seq<nat>, i: nat): seq<Interval>
    requires b != [] && i <= |b|
  {
    if i == 0 then (if b[0] > 0 then [(0, b[0])] else [])
    else WithSession(SessionsBefore(events, b, i - 1), b[i - 1], EndOf(events, b, i - 1))
  }

  lemma BehindMarker(events: seq<Event>, b: seq<nat>, i: nat)
    requires b == Markers(events, |events|) && i < |b|
    ensures var end := EndOf(events, b, i);
            b[i] < end <= |events| && IsMarker(events[b[i]]) && NoMarker(events, b[i] + 1, end)
  {
    MarkersMeaning(events, |events|, i);
    if i + 1 < |b| {
      MarkersMeaning(events, |events|, i + 1);
    }
  }

  lemma {:induction false} SessionsBeforeMeaning(events: seq<Event>, b: seq<nat>, i: nat)
    requires b == Markers(events, |events|) && b != [] && i <= |b|
    ensures AreSessions(events, SessionsBefore(events, b, i), if i < |b| then b[i] else |events|)
  {
    if i == 0 {
      MarkersMeaning(events, |events|, 0);
      FirstSession(events, b[0]);
    } else {
      BehindMarker(events, b, i - 1);
      SessionsBeforeMeaning(events, b, i - 1);
      NextSession(events, SessionsBefore(events, b, i - 1), b[i - 1], EndOf(events, b, i - 1));
    }
  }

  /** The interval loop over the markers. */
  method Intervals(events: seq<Event>, b: seq<nat>) returns (s: seq<Interval>)
    requires b != []
    ensures s == SessionsBefore(events, b, |b|)
  {
    s := [];
    if b[0] > 0 {
      s := [(0, b[0])];
    }
    for i := 0 to |b|
      invariant s == SessionsBefore(events, b, i)
    {
      var end := |events|;
      if i + 1 < |b| {
        end := b[i + 1];
      }
      var start := b[i] + 1;
      if start < end {
        s := s + [(start, end)];
      }
    }
  }

  method Sessions(events: seq<Event>) returns (s: seq<Interval>)
    requires events != []
    ensures AreSessions(events, s, |events|)
  {
    var b := Boundaries(events);
    if b == [] {
      NewMarker(events, |events|);
      FirstSession(events, |events|);
      s := [(0, |events|)];
    } else {
      s := Intervals(events, b);
      SessionsBeforeMeaning(events, b, |b|);
    }
  }

  /** Inside one of the last n sessions, an event is wanted unless it is a watch event. */
  lemma WantedInSession(events: seq<Event>, s: seq<Interval>, n: int, k: nat, i: nat)
    requires AreSessions(events, s, |events|) && k < |s| && s[k].0 <= i < s[k].1
    ensures Wanted(events, n, i) <==> !IsWatch(events[i]) && |s| - 1 - k < Limit(n)
  {
    LaterInSession(events, s, k, i);
  }

  /** Adding one session to what was collected behind it. */
  method AddNewestFirst(events: seq<Event>, ghost all: seq<Interval>, ghost k: nat, s: Interval, ghost n: int,
                        behind: seq<Event>) returns (out: seq<Event>)
    requires AreSessions(events, all, |events|) && k < |all| && s == all[k] && |all| - 1 - k < Limit(n)
    requires behind == NewestFirst(events, n, s.1)
    ensures out == NewestFirst(events, n, s.0)
  {
    out := behind;
    var i := s.1;
    while i > s.0
      invariant s.0 <= i <= s.1
      invariant out == NewestFirst(events, n, i)
    {
      i := i - 1;
      WantedInSession(events, all, n, k, i);
      if !events[i].kind.Watch? {
        out := out + [events[i]];
      }
    }
  }

  lemma GapIsMarkers(events: seq<Event>, all: seq<Interval>, n: int, k: nat)
    requires AreSessions(events, all, |events|) && k < |all|
    ensures all[k].1 <= GapEnd(events, all, k) <= |events|
    ensures NewestFirst(events, n, all[k].1) == NewestFirst(events, n, GapEnd(events, all, k))
  {
    assert OnlyMarkers(events, all[k].1, GapEnd(events, all, k));
    SkipMarkers(events, n, all[k].1, GapEnd(events, all, k));
  }

  /** The newest sessions, flattened newest event first. */
  method Flatten(events: seq<Event>, ghost all: seq<Interval>, last: seq<Interval>, ghost n: int) returns (out: seq<Event>)
    requires AreSessions(events, all, |events|) && n > 0
    requires last == if |all| > Limit(n) then all[|all| - Limit(n)..] else all
    ensures out == NewestFirst(events, n, if last == [] then |events| else last[0].0)
  {
    out := [];
    var si := |last|;
    while si > 0
      invariant 0 <= si <= |last|
      invariant out == NewestFirst(events, n, if si == |last| then |events| else last[si].0)
    {
      si := si - 1;
      ghost var k := |all| - |last| + si;
      GapIsMarkers(events, all, n, k);
      out := AddNewestFirst(events, all, k, last[si], n, out);
    }
  }

  method LastNSessions(events: seq<Event>, n: int) returns (out: seq<Event>)
    ensures out == NewestFirst(events, n, 0)
  {
    if n <= 0 || events == [] {
      SkipOldSessions(events, n, 0, |events|);
      return [];
    }
    var limit := n;
    if limit > MAX_SESSIONS {
      limit := MAX_SESSIONS;
    }
    var all := Sessions(events);
    var last := all;
    if |last| > limit {
      last := last[|last| - limit..];
    }
    out := Flatten(events, all, last, n);
    SkipTheRest(events, all, n);
  }

  const STARTED := Event(0, Session, Start, "")
  const ENDED := Event(1, Session, Different("end"), "")
  const NOTED := Event(2, Other("fact"), Start, "")
  const WATCHED := Event(3, Watch, Start, "")

  const TWO_SESSIONS := [NOTED, STARTED, ENDED, WATCHED, NOTED]

  lemma LaterInTwo()
    ensures Later(TWO_SESSIONS, 1) == 1 && Later(TWO_SESSIONS, 0) == 1
    ensures forall i :: 2 <= i <= 5 ==> Later(TWO_SESSIONS, i) == 0
  {
    var e := TWO_SESSIONS;
    assert Later(e, 5) == 0;
    assert Later(e, 4) == 0 && Later(e, 3) == 0;
    assert !Starts(e, 3) && Starts(e, 2) && !Starts(e, 1);
    assert Later(e, 2) == 0;
    assert Later(e, 1) == 1;
  }

  lemma LastOfTwo(n: int)
    requires 1 <= n <= 2
    ensures NewestFirst(TWO_SESSIONS, n, 0) == [NOTED, ENDED] + if n == 1 then [] else [NOTED]
  {
    LaterInTwo();
    var e := TWO_SESSIONS;
    assert !Wanted(e, n, 3) && !Wanted(e, n, 1) && Wanted(e, n, 4) && Wanted(e, n, 2);
    assert NewestFirst(e, n, 5) == [];
    assert NewestFirst(e, n, 4) == [NOTED];
    assert NewestFirst(e, n, 3) == [NOTED];
    assert NewestFirst(e, n, 2) == [NOTED, ENDED];
    assert NewestFirst(e, n, 1) == [NOTED, ENDED];
  }

  /** Only an event that is both of kind session and the start of one divides sessions, and only watch events are left
      out besides. */
  method TwoSessions() returns (one: seq<Event>, two: seq<Event>)
    ensures one == [NOTED, ENDED] && two == [NOTED, ENDED, NOTED]
  {
    LastOfTwo(1);
    LastOfTwo(2);
    one := LastNSessions(TWO_SESSIONS, 1);
    two := LastNSessions(TWO_SESSIONS, 2);
  }

  /** Before the oldest of the last n sessions nothing is wanted. */
  lemma SkipTheRest(events: seq<Event>, all: seq<Interval>, n: int)
    requires AreSessions(events, all, |events|) && n > 0
    ensures var first := if |all| > Limit(n) then |all| - Limit(n) else 0;
            NewestFirst(events, n, 0) == NewestFirst(events, n, if all == [] then |events| else all[first].0)
  {
    if all == [] {
      SkipMarkers(events, n, 0, |events|);
    } else if |all| > Limit(n) {
      var first := |all| - Limit(n);
      assert all[first - 1].1 < all[first - 1 + 1].0;
      LaterInSession(events, all, first - 1, all[first].0 - 1);
      SkipOldSessions(events, n, 0, all[first].0);
    } else {
      SkipMarkers(events, n, 0, all[0].0);
    }
  }

  // ----- More sessions only add older events -----

  lemma {:induction false} SameUntil(events: seq<Event>, n: int, i: nat)
    requires i <= |events| && (i < |events| ==> Later(events, i) < Limit(n))
    ensures NewestFirst(events, n, i) == NewestFirst(events, n + 1, i)
    decreases |events| - i
  {
    if i < |events| {
      LaterDescends(events, i, i + 1);
      SameUntil(events, n, i + 1);
    }
  }

  /** The result for n sessions is a prefix of the result for n + 1. */
  lemma {:induction false} MoreSessionsExtend(events: seq<Event>, n: int, i: nat)
    requires i <= |events|
    ensures NewestFirst(events, n, i) <= NewestFirst(events, n + 1, i)
    decreases |events| - i
  {
    if i < |events| {
      if Later(events, i) < Limit(n) {
        SameUntil(events, n, i);
      } else {
        MoreSessionsExtend(events, n, i + 1);
      }
    }
  }

  /** And never more than five sessions are in it. */
  lemma {:induction false} FiveAreMost(events: seq<Event>, n: int, i: nat)
    requires i <= |events| && n >= 5
    ensures NewestFirst(events, n, i) == NewestFirst(events, 5, i)
    decreases |events| - i
  {
    if i < |events| {
      FiveAreMost(events, n, i + 1);
    }
  }

  /** An event is in the result exactly if it is wanted. */
  lemma {:induction false} NewestFirstMembers(events: seq<Event>, n: int, i: nat, e: Event)
    requires i <= |events|
    ensures e in NewestFirst(events, n, i) <==> exists k :: i <= k < |events| && events[k] == e && Wanted(events, n, k)
    decreases |events| - i
  {
    if i < |events| {
      NewestFirstMembers(events, n, i + 1, e);
    }
  }

  // ----- The latest stretch of activity -----

  function Reversed(events: seq<Event>): seq<Event> {
    seq(|events|, i requires 0 <= i < |events| => events[|events| - 1 - i])
  }

  /** The latest session as the code cuts it: everything from `cut` on lies within the threshold of the latest
      event, and the event in front of `cut` does not. */
  predicate IdleCut(events: seq<Event>, cut: nat)
    requires cut < |events|
  {
    && (forall i :: cut <= i < |events| ==> events[|events| - 1].ts - events[i].ts <= IDLE_THRESHOLD)
    && (cut > 0 ==> events[|events| - 1].ts - events[cut - 1].ts > IDLE_THRESHOLD)
  }

  /** The latest session as it is documented: no gap between neighbouring events from `from` on exceeds the
      threshold, and the one in front of `from` does. */
  predicate GapCut(events: seq<Event>, from: nat)
    requires from < |events|
  {
    && (forall i :: from < i < |events| ==> events[i].ts - events[i - 1].ts <= IDLE_THRESHOLD)
    && (from > 0 ==> events[from].ts - events[from - 1].ts > IDLE_THRESHOLD)
  }

  predicate Chronological(events: seq<Event>) {
    forall i :: 0 < i < |events| ==> events[i - 1].ts <= events[i].ts
  }

  /** Where the documented session begins, looking back from event i. */
  function GapStart(events: seq<Event>, i: nat): (from: nat)
    requires i < |events|
    ensures from <= i
  {
    if i == 0 || events[i].ts - events[i - 1].ts > IDLE_THRESHOLD then i else GapStart(events, i - 1)
  }

  /** There is one such place, and only one. */
  lemma {:induction false} GapStartMeaning(events: seq<Event>, i: nat, from: nat)
    requires i < |events| && forall j :: i < j < |events| ==> events[j].ts - events[j - 1].ts <= IDLE_THRESHOLD
    requires from <= i
    ensures GapCut(events, from) <==> from == GapStart(events, i)
  {
    if i > 0 && events[i].ts - events[i - 1].ts <= IDLE_THRESHOLD {
      if from < i {
        GapStartMeaning(events, i - 1, from);
      }
    }
  }

  lemma {:induction false} LaterIsLater(events: seq<Event>, i: nat, j: nat)
    requires Chronological(events) && i <= j < |events|
    ensures events[i].ts <= events[j].ts
  {
    if i < j {
      LaterIsLater(events, i, j - 1);
    }
  }

  /** The code never keeps more than the documented session, and it keeps all of it exactly when the session as
      a whole, not just each of its gaps, is within the threshold. */
  lemma CutIsGapIff(events: seq<Event>, cut: nat)
    requires Chronological(events) && cut < |events| && IdleCut(events, cut)
    ensures var from := GapStart(events, |events| - 1);
      && GapCut(events, from) && from <= cut
      && (cut == from <==> events[|events| - 1].ts - events[from].ts <= IDLE_THRESHOLD)
  {
    var from := GapStart(events, |events| - 1);
    GapStartMeaning(events, |events| - 1, from);
    if cut < from {
      LaterIsLater(events, from, |events| - 1);
    } else if from < cut {
      LaterIsLater(events, from, cut - 1);
    }
  }

  lemma IdleCutUnique(events: seq<Event>, cut: nat, other: nat)
    requires cut < |events| && other < |events| && IdleCut(events, cut) && IdleCut(events, other)
    ensures cut == other
  {
  }

  lemma SessionIsGapSessionIff(events: seq<Event>, cut: nat)
    requires Chronological(events) && cut < |events| && IdleCut(events, cut)
    ensures var from := GapStart(events, |events| - 1);
      && GapCut(events, from)
      && (Reversed(events[cut..]) == Reversed(events[from..])
          <==> events[|events| - 1].ts - events[from].ts <= IDLE_THRESHOLD)
  {
    CutIsGapIff(events, cut);
    var from := GapStart(events, |events| - 1);
    assert |Reversed(events[cut..])| == |events| - cut && |Reversed(events[from..])| == |events| - from;
  }

  /** The loop of latestSession. */
  method Cutoff(events: seq<Event>) returns (cut: nat)
    requires |events| > 0
    ensures cut < |events| && IdleCut(events, cut)
  {
    var latest := events[|events| - 1].ts;
    cut := 0;
    var i := |events| - 2;
    while i >= 0
      invariant -1 <= i <= |events| - 2
      invariant cut == 0
      invariant forall j :: i < j < |events| - 1 ==> latest - events[j].ts <= IDLE_THRESHOLD
    {
      if latest - events[i].ts > IDLE_THRESHOLD {
        cut := i + 1;
        break;
      }
      i := i - 1;
    }
  }

  /** Events are kept back to the first one, from the end, that lies more than the threshold before the
      latest event. */
  method LatestSession(events: seq<Event>) returns (out: seq<Event>)
    ensures |out| <= |events| && out == Reversed(events[|events| - |out|..])
    ensures 0 < |events| ==> 0 < |out| && IdleCut(events, |events| - |out|)
    ensures 0 < |events| && Chronological(events) ==>
      var from := GapStart(events, |events| - 1);
      && GapCut(events, from)
      && (out == Reversed(events[from..]) <==> events[|events| - 1].ts - events[from].ts <= IDLE_THRESHOLD)
  {
    if |events| == 0 {
      return [];
    }
    var cut := Cutoff(events);
    out := Reversed(events[cut..]);
    if Chronological(events) {
      SessionIsGapSessionIff(events, cut);
    }
  }

  const MINUTE := 60_000_000_000

  function Minute(n: int): Event {
    Event(n * MINUTE, Other("fact"), Different("add"), "")
  }

  const THREE := [Minute(0), Minute(20), Minute(40)]

  lemma ThreeCuts()
    ensures Chronological(THREE) && GapStart(THREE, 2) == 0 && IdleCut(THREE, 1)
  {
    assert THREE[0].ts == 0 && THREE[1].ts == 1_200_000_000_000 && THREE[2].ts == 2_400_000_000_000;
    assert GapStart(THREE, 1) == 0;
  }

  /** Three events twenty minutes apart: one session by its gaps, and the code leaves the first event out. */
  method ThreeEvents() returns (out: seq<Event>)
    ensures Chronological(THREE) && GapStart(THREE, 2) == 0 && out == [Minute(40), Minute(20)]
  {
    ThreeCuts();
    out := LatestSession(THREE);
    IdleCutUnique(THREE, |THREE| - |out|, 1);
  }

  // ----- The file -----

  /** json.Marshal and json.Unmarshal of one event. */
  datatype Codec = Codec(encode: Event -> string, decode: string -> Option<Event>)

  const BOM := "\U{EF}\U{BB}\U{BF}"

  ghost predicate Lawful(c: Codec) {
    forall e :: c.decode(c.encode(e)) == Some(e) && c.encode(e) != "" && '\n' !in c.encode(e) && !(BOM <= c.encode(e))
  }

  function TrimBom(line: string): string {
    if BOM <= line then line[|BOM|..] else line
  }

  predicate Ended(data: string) {
    data == "" || data[|data| - 1] == '\n'
  }

  /** The lines of a file; a newline at the end begins no further line. */
  function SplitFrom(data: string, start: nat, i: nat): seq<string>
    requires start <= i <= |data|
    decreases |data| - i
  {
    if i == |data| then (if start < |data| then [data[start..]] else [])
    else if data[i] == '\n' then [data[start..i]] + SplitFrom(data, i + 1, i + 1)
    else SplitFrom(data, start, i + 1)
  }

  method SplitLines(data: string) returns (lines: seq<string>)
    ensures lines == SplitFrom(data, 0, 0)
  {
    lines := [];
    var start := 0;
    for i := 0 to |data|
      invariant start <= i
      invariant lines + SplitFrom(data, start, i) == SplitFrom(data, 0, 0)
    {
      if data[i] == '\n' {
        lines := lines + [data[start..i]];
        start := i + 1;
      }
    }
    if start < |data| {
      lines := lines + [data[start..]];
    }
  }

  /** The lines one below the other, each with a newline behind it. */
  function Stacked(lines: seq<string>): string {
    if lines == [] then "" else lines[0] + "\n" + Stacked(lines[1..])
  }

  function WithNewline(data: string): string {
    if Ended(data) then data else data + "\n"
  }

  lemma StackedLine(line: string, rest: seq<string>, below: string)
    requires Stacked(rest) == WithNewline(below)
    ensures Stacked([line] + rest) == WithNewline(line + "\n" + below)
  {
    assert ([line] + rest)[1..] == rest;
    var whole := line + "\n" + below;
    assert Ended(whole) <==> Ended(below);
    assert line + "\n" + (below + "\n") == whole + "\n";
  }

  lemma {:induction false} SplitHasNoNewline(data: string, start: nat, i: nat)
    requires start <= i <= |data| && forall k :: start <= k < i ==> data[k] != '\n'
    ensures forall l :: l in SplitFrom(data, start, i) ==> '\n' !in l
    decreases |data| - i
  {
    if i < |data| {
      SplitHasNoNewline(data, if data[i] == '\n' then i + 1 else start, i + 1);
    }
  }

  lemma {:induction false} StackedSplit(data: string, start: nat, i: nat)
    requires start <= i <= |data| && forall k :: start <= k < i ==> data[k] != '\n'
    ensures Stacked(SplitFrom(data, start, i)) == WithNewline(data[start..])
    decreases |data| - i
  {
    if i == |data| {
      LastLine(data, start);
    } else if data[i] == '\n' {
      StackedSplit(data, i + 1, i + 1);
      StackedLine(data[start..i], SplitFrom(data, i + 1, i + 1), data[i + 1..]);
      CutAt(data, start, i);
    } else {
      StackedSplit(data, start, i + 1);
    }
  }

  lemma CutAt(data: string, start: nat, i: nat)
    requires start <= i < |data| && data[i] == '\n'
    ensures data[start..] == data[start..i] + "\n" + data[i + 1..]
  {
  }

  lemma LastLine(data: string, start: nat)
    requires start <= |data| && forall k :: start <= k < |data| ==> data[k] != '\n'
    ensures Stacked(SplitFrom(data, start, |data|)) == WithNewline(data[start..])
  {
    var line := data[start..];
    if line != "" {
      assert SplitFrom(data, start, |data|) == [line] + [];
      assert line[|line| - 1] == data[|data| - 1];
      assert WithNewline("") == "";
      StackedLine(line, [], "");
      assert line + "\n" + "" == line + "\n";
    }
  }

  /** The lines of a file hold no newline, and one below the other they are the file. */
  lemma LinesAreTheFile(data: string)
    ensures forall l :: l in SplitFrom(data, 0, 0) ==> '\n' !in l
    ensures Stacked(SplitFrom(data, 0, 0)) == WithNewline(data)
  {
    SplitHasNoNewline(data, 0, 0);
    StackedSplit(data, 0, 0);
    assert data[0..] == data;
  }

  /** The events of the lines, leaving out empty and malformed ones. */
  function Decoded(c: Codec, lines: seq<string>): seq<Event> {
    if lines == [] then []
    else
      var before := Decoded(c, lines[..|lines| - 1]);
      var line := TrimBom(lines[|lines| - 1]);
      if line == "" then before
      else match c.decode(line) case Some(e) => before + [e] case None => before
  }

  lemma {:induction false} DecodedJoin(c: Codec, a: seq<string>, b: seq<string>)
    ensures Decoded(c, a + b) == Decoded(c, a) + Decoded(c, b)
  {
    if b == [] {
      assert a + b == a;
    } else {
      assert (a + b)[..|a + b| - 1] == a + b[..|b| - 1];
      DecodedJoin(c, a, b[..|b| - 1]);
    }
  }

  /** What one line contributes: nothing if it is empty or malformed, and a byte order mark makes no difference. */
  lemma LineMeaning(c: Codec, line: string)
    requires !(BOM <= line)
    ensures Decoded(c, [line]) == if line != "" && c.decode(line).Some? then [c.decode(line).value] else []
    ensures Decoded(c, [BOM + line]) == Decoded(c, [line])
  {
    assert (BOM + line)[|BOM|..] == line;
    assert [line][..0] == [] && [BOM + line][..0] == [];
  }

  lemma SameInside(c: Codec, above: seq<string>, a: seq<string>, b: seq<string>, below: seq<string>)
    requires Decoded(c, a) == Decoded(c, b)
    ensures Decoded(c, above + (a + below)) == Decoded(c, above + (b + below))
  {
    DecodedJoin(c, a, below);
    DecodedJoin(c, b, below);
    DecodedJoin(c, above, a + below);
    DecodedJoin(c, above, b + below);
  }

  /** So empty lines and byte order marks anywhere in the file are passed over. */
  lemma PassedOver(c: Codec, above: seq<string>, line: string, below: seq<string>)
    requires !(BOM <= line)
    ensures Decoded(c, above + ([BOM + line] + below)) == Decoded(c, above + ([line] + below))
    ensures Decoded(c, above + ([""] + below)) == Decoded(c, above + below)
  {
    LineMeaning(c, line);
    SameInside(c, above, [BOM + line], [line], below);
    LineMeaning(c, "");
    SameInside(c, above, [""], [], below);
    assert [] + below == below;
  }

  method ReadAll(c: Codec, file: Option<string>) returns (events: seq<Event>)
    ensures events == match file case None => [] case Some(data) => Decoded(c, SplitFrom(data, 0, 0))
  {
    events := [];
    if file.None? {
      return;
    }
    var lines := SplitLines(file.value);
    for i := 0 to |lines|
      invariant events == Decoded(c, lines[..i])
    {
      assert lines[..i + 1][..i] == lines[..i];
      var line := TrimBom(lines[i]);
      if |line| == 0 {
        continue;
      }
      match c.decode(line) {
        case Some(e) => events := events + [e];
        case None =>
      }
    }
    assert lines[..|lines|] == lines;
  }

  /** What Append leaves behind. */
  function Appended(c: Codec, data: string, e: Event): string {
    data + (c.encode(e) + "\n")
  }

  lemma {:induction false} SplitLast(data: string, line: string, start: nat, i: nat)
    requires start <= i <= |data| && '\n' !in line
    requires i == |data| ==> start == i
    requires i < |data| ==> data[|data| - 1] == '\n'
    ensures SplitFrom(data + (line + "\n"), start, i) == SplitFrom(data, start, i) + [line]
    decreases |data| - i
  {
    var whole := data + (line + "\n");
    if i == |data| {
      SplitLine(whole, |data|, |data|);
      assert whole[|data|..|whole| - 1] == line;
    } else {
      assert whole[i] == data[i] && whole[start..i] == data[start..i];
      SplitLast(data, line, if data[i] == '\n' then i + 1 else start, i + 1);
    }
  }

  lemma {:induction false} SplitLine(data: string, start: nat, i: nat)
    requires start <= i < |data| && data[|data| - 1] == '\n'
    requires forall j :: i <= j < |data| - 1 ==> data[j] != '\n'
    ensures SplitFrom(data, start, i) == [data[start..|data| - 1]]
    decreases |data| - i
  {
    if i < |data| - 1 {
      SplitLine(data, start, i + 1);
    }
  }

  /** Reading after an append gives what was there, and the new event behind it. */
  lemma ReadAfterAppend(c: Codec, data: string, e: Event)
    requires Lawful(c) && Ended(data)
    ensures Ended(Appended(c, data, e))
    ensures Decoded(c, SplitFrom(Appended(c, data, e), 0, 0)) == Decoded(c, SplitFrom(data, 0, 0)) + [e]
  {
    var before, line := SplitFrom(data, 0, 0), c.encode(e);
    SplitLast(data, line, 0, 0);
    assert (before + [line])[..|before|] == before;
  }

  function Written(c: Codec, events: seq<Event>): string {
    if events == [] then "" else Appended(c, Written(c, events[..|events| - 1]), events[|events| - 1])
  }

  /** A ledger that was only ever appended to reads back as the events appended, in order. */
  lemma {:induction false} ReadAllWritten(c: Codec, events: seq<Event>)
    requires Lawful(c)
    ensures Ended(Written(c, events)) && Decoded(c, SplitFrom(Written(c, events), 0, 0)) == events
  {
    if events != [] {
      ReadAllWritten(c, events[..|events| - 1]);
      ReadAfterAppend(c, Written(c, events[..|events| - 1]), events[|events| - 1]);
    }
  }
}
