/** What the list refined by the cache holds after any sequence of operations. */
module CacheHistory {
  import opened Wrappers
  import opened Cache
  import opened Sets

  datatype Op = Put(slot: Slot) | Get(hash: KeyHash) | Invalidate(repoHash: string) | Reopen(requested: int)

  /** What there is after a run: the list in memory, the rows that are on disk only, both most recent first. */
  datatype Stored = Stored(memory: Lru, beyond: Lru, capacity: nat)

  function Rows(s: Stored): Lru {
    s.memory + s.beyond
  }

  function Step(s: Stored, op: Op): Stored
    requires s.capacity > 0
  {
    match op
    case Put(slot) => Stored(LruPut(s.memory, s.capacity, slot), Without(s.beyond, slot.hash), s.capacity)
    case Get(k) => s.(memory := LruGet(s.memory, k))
    case Invalidate(h) => s.(memory := OutsideRepo(s.memory, h), beyond := OutsideRepo(s.beyond, h))
    case Reopen(requested) =>
      var n := Least(Room(requested), |Rows(s)|);
      Stored(Rows(s)[..n], Rows(s)[n..], Room(requested))
  }

  function Replay(ops: seq<Op>, capacity: nat): (s: Stored)
    requires capacity > 0
    ensures s.capacity > 0
  {
    if ops == [] then Stored([], [], capacity) else Step(Replay(ops[..|ops| - 1], capacity), ops[|ops| - 1])
  }

  predicate Mentions(op: Op, k: KeyHash) {
    match op
    case Put(slot) => slot.hash == k
    case Get(hash) => hash == k
    case _ => false
  }

  /** The position of the last Put or Get of k. */
  function LastMention(ops: seq<Op>, k: KeyHash): int {
    if ops == [] then -1
    else if Mentions(ops[|ops| - 1], k) then |ops| - 1
    else LastMention(ops[..|ops| - 1], k)
  }

  function LastPut(ops: seq<Op>, k: KeyHash): Option<Slot> {
    if ops == [] then None
    else match ops[|ops| - 1]
      case Put(slot) => if slot.hash == k then Some(slot) else LastPut(ops[..|ops| - 1], k)
      case _ => LastPut(ops[..|ops| - 1], k)
  }

  /** The operation brings k to the front: a Put of it, or a Get that finds it in memory. */
  predicate Touches(s: Stored, op: Op, k: KeyHash) {
    Mentions(op, k) && (op.Get? ==> Find(s.memory, k).Some?)
  }

  function LastTouch(ops: seq<Op>, capacity: nat, k: KeyHash): int
    requires capacity > 0
  {
    if ops == [] then -1
    else if Touches(Replay(ops[..|ops| - 1], capacity), ops[|ops| - 1], k) then |ops| - 1
    else LastTouch(ops[..|ops| - 1], capacity, k)
  }

  /** When each key was touched last. */
  function Rank(ops: seq<Op>, capacity: nat): KeyHash -> int
    requires capacity > 0
  {
    k => LastTouch(ops, capacity, k)
  }

  /** Most recently touched first. */
  ghost predicate Ranked(s: Lru, rank: KeyHash -> int) {
    s != [] ==> Ranked(s[1..], rank) && forall x :: x in s[1..] ==> rank(x.hash) < rank(s[0].hash)
  }

  lemma {:induction false} TouchBound(ops: seq<Op>, capacity: nat, k: KeyHash)
    requires capacity > 0
    ensures LastTouch(ops, capacity, k) <= LastMention(ops, k) < |ops|
  {
    if ops != [] { TouchBound(ops[..|ops| - 1], capacity, k); }
  }

  lemma {:induction false} WithoutMembers(s: Lru, k: KeyHash)
    ensures |Without(s, k)| <= |s|
    ensures forall x :: x in Without(s, k) <==> x in s && x.hash != k
  {
    if s != [] { WithoutMembers(s[1..], k); }
  }

  lemma {:induction false} WithoutFound(s: Lru, k: KeyHash)
    requires Find(s, k).Some?
    ensures |Without(s, k)| < |s|
  {
    WithoutMembers(s[1..], k);
    if s[0].hash != k { WithoutFound(s[1..], k); }
  }

  lemma {:induction false} OutsideMembers(s: Lru, h: string)
    ensures |OutsideRepo(s, h)| <= |s|
    ensures forall x :: x in OutsideRepo(s, h) <==> x in s && x.repoHash != h
  {
    if s != [] { OutsideMembers(s[1..], h); }
  }

  lemma {:induction false} WithoutSplit(a: Lru, b: Lru, k: KeyHash)
    ensures Without(a + b, k) == Without(a, k) + Without(b, k)
  {
    if a == [] {
      assert a + b == b;
    } else {
      assert (a + b)[1..] == a[1..] + b;
      WithoutSplit(a[1..], b, k);
    }
  }

  lemma {:induction false} WithoutNothing(s: Lru, k: KeyHash)
    requires forall x :: x in s ==> x.hash != k
    ensures Without(s, k) == s
  {
    if s != [] { WithoutNothing(s[1..], k); }
  }

  lemma {:induction false} OutsideSplit(a: Lru, b: Lru, h: string)
    ensures OutsideRepo(a + b, h) == OutsideRepo(a, h) + OutsideRepo(b, h)
  {
    if a == [] {
      assert a + b == b;
    } else {
      assert (a + b)[1..] == a[1..] + b;
      OutsideSplit(a[1..], b, h);
    }
  }

  lemma {:induction false} WithoutRanked(s: Lru, rank: KeyHash -> int, k: KeyHash)
    requires Ranked(s, rank)
    ensures Ranked(Without(s, k), rank)
  {
    if s != [] {
      WithoutRanked(s[1..], rank, k);
      WithoutMembers(s[1..], k);
      assert ([s[0]] + Without(s[1..], k))[1..] == Without(s[1..], k);
    }
  }

  lemma {:induction false} OutsideRanked(s: Lru, rank: KeyHash -> int, h: string)
    requires Ranked(s, rank)
    ensures Ranked(OutsideRepo(s, h), rank)
  {
    if s != [] {
      OutsideRanked(s[1..], rank, h);
      OutsideMembers(s[1..], h);
      assert ([s[0]] + OutsideRepo(s[1..], h))[1..] == OutsideRepo(s[1..], h);
    }
  }

  lemma {:induction false} PrefixRanked(s: Lru, rank: KeyHash -> int, n: nat)
    requires Ranked(s, rank) && n <= |s|
    ensures Ranked(s[..n], rank)
  {
    if n > 0 {
      PrefixRanked(s[1..], rank, n - 1);
      assert s[..n][1..] == s[1..][..n - 1];
    }
  }

  lemma {:induction false} DropOneRanked(a: Lru, x: Slot, b: Lru, rank: KeyHash -> int)
    requires Ranked(a + [x] + b, rank)
    ensures Ranked(a + b, rank)
  {
    var s := a + [x] + b;
    if a == [] {
      assert s[1..] == b && a + b == b;
    } else {
      assert s[1..] == a[1..] + [x] + b && (a + b)[1..] == a[1..] + b;
      DropOneRanked(a[1..], x, b, rank);
      assert forall y :: y in a[1..] + b ==> y in s[1..];
    }
  }

  /** No key has two slots. */
  lemma {:induction false} RankedApart(a: Lru, b: Lru, rank: KeyHash -> int, x: Slot, y: Slot)
    requires Ranked(a + b, rank) && x in a && y in b
    ensures x.hash != y.hash
  {
    assert (a + b)[1..] == a[1..] + b;
    if x == a[0] {
      assert y in (a + b)[1..];
    } else {
      RankedApart(a[1..], b, rank, x, y);
    }
  }

  lemma {:induction false} SameRanks(s: Lru, rank: KeyHash -> int, other: KeyHash -> int)
    requires Ranked(s, rank) && forall x :: x in s ==> other(x.hash) == rank(x.hash)
    ensures Ranked(s, other)
  {
    if s != [] { SameRanks(s[1..], rank, other); }
  }

  lemma RankedAhead(slot: Slot, s: Lru, rank: KeyHash -> int)
    requires Ranked(s, rank) && forall x :: x in s ==> rank(x.hash) < rank(slot.hash)
    ensures Ranked([slot] + s, rank)
  {
    assert ([slot] + s)[1..] == s;
  }

  lemma RankNext(ops: seq<Op>, capacity: nat, op: Op, k: KeyHash)
    requires capacity > 0
    ensures Rank(ops + [op], capacity)(k)
      == if Touches(Replay(ops, capacity), op, k) then |ops| else Rank(ops, capacity)(k)
    ensures Rank(ops, capacity)(k) < |ops|
  {
    assert (ops + [op])[..|ops|] == ops;
    TouchBound(ops, capacity, k);
  }

  /** An operation that touches none of the slots changes no rank among them. */
  lemma RankedStep(s: Lru, ops: seq<Op>, capacity: nat, op: Op)
    requires capacity > 0 && Ranked(s, Rank(ops, capacity))
    requires forall x :: x in s ==> !Touches(Replay(ops, capacity), op, x.hash)
    ensures Ranked(s, Rank(ops + [op], capacity))
  {
    forall x | x in s ensures Rank(ops + [op], capacity)(x.hash) == Rank(ops, capacity)(x.hash) {
      RankNext(ops, capacity, op, x.hash);
    }
    SameRanks(s, Rank(ops, capacity), Rank(ops + [op], capacity));
  }

  lemma RankedPush(s: Lru, ops: seq<Op>, capacity: nat, slot: Slot, op: Op)
    requires capacity > 0 && Ranked(s, Rank(ops, capacity)) && Touches(Replay(ops, capacity), op, slot.hash)
    requires forall x :: x in s ==> !Touches(Replay(ops, capacity), op, x.hash)
    ensures Ranked([slot] + s, Rank(ops + [op], capacity))
  {
    RankedStep(s, ops, capacity, op);
    RankNext(ops, capacity, op, slot.hash);
    forall x | x in s ensures Rank(ops + [op], capacity)(x.hash) < Rank(ops + [op], capacity)(slot.hash) {
      RankNext(ops, capacity, op, x.hash);
    }
    RankedAhead(slot, s, Rank(ops + [op], capacity));
  }

  ghost predicate Latest(s: Lru, ops: seq<Op>) {
    forall x :: x in s ==> LastPut(ops, x.hash) == Some(x)
  }

  lemma LatestStep(s: Lru, ops: seq<Op>, op: Op)
    requires Latest(s, ops) && forall x :: x in s ==> op.Put? ==> op.slot.hash != x.hash
    ensures Latest(s, ops + [op])
  {
    assert (ops + [op])[..|ops|] == ops;
  }

  ghost predicate Shaped(s: Stored, ops: seq<Op>, capacity: nat)
    requires capacity > 0
  {
    |s.memory| <= s.capacity && Ranked(Rows(s), Rank(ops, capacity)) && Latest(Rows(s), ops)
  }

  /** In memory and on disk the rows are in order of last use, the list is never longer than the capacity, and
      every slot holds what was last put under its key. */
  lemma {:induction false} ReplayShape(ops: seq<Op>, capacity: nat)
    requires capacity > 0
    ensures Shaped(Replay(ops, capacity), ops, capacity)
  {
    if ops != [] {
      var prefix, op := ops[..|ops| - 1], ops[|ops| - 1];
      assert ops == prefix + [op];
      ReplayShape(prefix, capacity);
      match op {
        case Put(slot) => PutShape(prefix, capacity, slot);
        case Get(k) => GetShape(prefix, capacity, k);
        case Invalidate(h) => InvalidateShape(prefix, capacity, h);
        case Reopen(requested) => ReopenShape(prefix, capacity, requested);
      }
    }
  }

  lemma KeptMembers(memory: Lru, capacity: nat, k: KeyHash)
    requires 0 < capacity && |memory| <= capacity
    ensures |LruKept(memory, capacity, k)| < capacity
    ensures forall x :: x in LruKept(memory, capacity, k) ==> x in memory && x.hash != k
  {
    WithoutMembers(memory, k);
    if Find(memory, k).Some? {
      WithoutFound(memory, k);
    }
  }

  lemma KeptRanked(memory: Lru, beyond: Lru, capacity: nat, k: KeyHash, rank: KeyHash -> int)
    requires 0 < capacity && |memory| <= capacity && Ranked(memory + beyond, rank)
    ensures Ranked(LruKept(memory, capacity, k) + Without(beyond, k), rank)
  {
    WithoutSplit(memory, beyond, k);
    WithoutRanked(memory + beyond, rank, k);
    if Find(memory, k).None? {
      WithoutNothing(memory, k);
      if |memory| == capacity {
        LastOfAll(memory, Without(beyond, k), rank);
      }
    }
  }

  lemma LastOfAll(memory: Lru, beyond: Lru, rank: KeyHash -> int)
    requires memory != [] && Ranked(memory + beyond, rank)
    ensures Ranked(memory[..|memory| - 1] + beyond, rank)
  {
    var n := |memory| - 1;
    assert memory == memory[..n] + [memory[n]];
    DropOneRanked(memory[..n], memory[n], beyond, rank);
  }

  /** The rows a Put leaves in place. */
  function Behind(s: Stored, k: KeyHash): Lru
    requires s.capacity > 0
  {
    LruKept(s.memory, s.capacity, k) + Without(s.beyond, k)
  }

  lemma PutRows(s: Stored, slot: Slot)
    requires s.capacity > 0 && |s.memory| <= s.capacity
    ensures var t := Step(s, Put(slot)); Rows(t) == [slot] + Behind(s, slot.hash) && |t.memory| <= t.capacity
    ensures forall x :: x in Behind(s, slot.hash) ==> x in Rows(s) && x.hash != slot.hash
  {
    KeptMembers(s.memory, s.capacity, slot.hash);
    WithoutMembers(s.beyond, slot.hash);
  }

  lemma PutShape(prefix: seq<Op>, capacity: nat, slot: Slot)
    requires capacity > 0 && Shaped(Replay(prefix, capacity), prefix, capacity)
    ensures Shaped(Step(Replay(prefix, capacity), Put(slot)), prefix + [Put(slot)], capacity)
  {
    var s := Replay(prefix, capacity);
    var kept := Behind(s, slot.hash);
    PutRows(s, slot);
    assert Ranked([slot] + kept, Rank(prefix + [Put(slot)], capacity)) by {
      KeptRanked(s.memory, s.beyond, s.capacity, slot.hash, Rank(prefix, capacity));
      RankedPush(kept, prefix, capacity, slot, Put(slot));
    }
    assert Latest([slot] + kept, prefix + [Put(slot)]) by {
      LatestStep(kept, prefix, Put(slot));
      LatestAhead(slot, kept, prefix);
    }
  }

  lemma LatestAhead(slot: Slot, s: Lru, ops: seq<Op>)
    requires Latest(s, ops + [Put(slot)])
    ensures Latest([slot] + s, ops + [Put(slot)])
  {
  }

  lemma GetShape(prefix: seq<Op>, capacity: nat, k: KeyHash)
    requires capacity > 0 && Shaped(Replay(prefix, capacity), prefix, capacity)
    ensures Shaped(Step(Replay(prefix, capacity), Get(k)), prefix + [Get(k)], capacity)
  {
    var s := Replay(prefix, capacity);
    var found := Find(s.memory, k);
    LatestStep(Rows(s), prefix, Get(k));
    if found.Some? {
      WithoutFound(s.memory, k);
      WithoutMembers(s.memory, k);
      forall y | y in s.beyond ensures y.hash != k {
        RankedApart(s.memory, s.beyond, Rank(prefix, capacity), found.value, y);
      }
      WithoutNothing(s.beyond, k);
      WithoutSplit(s.memory, s.beyond, k);
      WithoutRanked(Rows(s), Rank(prefix, capacity), k);
      RankedPush(Without(s.memory, k) + s.beyond, prefix, capacity, found.value, Get(k));
      assert [found.value] + Without(s.memory, k) + s.beyond == [found.value] + (Without(s.memory, k) + s.beyond);
    } else {
      RankedStep(Rows(s), prefix, capacity, Get(k));
    }
  }

  lemma InvalidateShape(prefix: seq<Op>, capacity: nat, h: string)
    requires capacity > 0 && Shaped(Replay(prefix, capacity), prefix, capacity)
    ensures Shaped(Step(Replay(prefix, capacity), Invalidate(h)), prefix + [Invalidate(h)], capacity)
  {
    var s := Replay(prefix, capacity);
    LatestStep(Rows(s), prefix, Invalidate(h));
    OutsideMembers(s.memory, h);
    OutsideMembers(s.beyond, h);
    OutsideSplit(s.memory, s.beyond, h);
    OutsideRanked(Rows(s), Rank(prefix, capacity), h);
    RankedStep(OutsideRepo(Rows(s), h), prefix, capacity, Invalidate(h));
  }

  lemma ReopenedRows(s: Stored, requested: int)
    requires s.capacity > 0
    ensures var t := Step(s, Reopen(requested));
      && Rows(t) == Rows(s) && |t.memory| <= t.capacity
      && (Room(requested) <= |s.memory| ==> t.memory == s.memory[..Room(requested)])
      && (|s.memory| <= Room(requested) ==> s.memory <= t.memory)
      && (s.beyond == [] && |s.memory| <= Room(requested) ==> t == s.(capacity := Room(requested)))
  {
  }

  lemma ReopenShape(prefix: seq<Op>, capacity: nat, requested: int)
    requires capacity > 0 && Shaped(Replay(prefix, capacity), prefix, capacity)
    ensures Shaped(Step(Replay(prefix, capacity), Reopen(requested)), prefix + [Reopen(requested)], capacity)
  {
    var s := Replay(prefix, capacity);
    LatestStep(Rows(s), prefix, Reopen(requested));
    RankedStep(Rows(s), prefix, capacity, Reopen(requested));
    ReopenedRows(s, requested);
  }

  // ----- Closing and opening again -----

  lemma ReplayNext(ops: seq<Op>, capacity: nat, op: Op)
    requires capacity > 0
    ensures Replay(ops + [op], capacity) == Step(Replay(ops, capacity), op)
  {
    assert (ops + [op])[..|ops|] == ops;
  }

  /** The capacity last opened with. */
  function Capacity(ops: seq<Op>, capacity: nat): nat {
    if ops == [] then capacity
    else match ops[|ops| - 1]
      case Reopen(requested) => Room(requested)
      case _ => Capacity(ops[..|ops| - 1], capacity)
  }

  lemma {:induction false} CapacityIs(ops: seq<Op>, capacity: nat)
    requires capacity > 0
    ensures Replay(ops, capacity).capacity == Capacity(ops, capacity)
  {
    if ops != [] { CapacityIs(ops[..|ops| - 1], capacity); }
  }

  predicate NeverShrinks(ops: seq<Op>, capacity: nat) {
    ops != [] ==>
      && NeverShrinks(ops[..|ops| - 1], capacity)
      && (ops[|ops| - 1].Reopen? ==> Capacity(ops[..|ops| - 1], capacity) <= Room(ops[|ops| - 1].requested))
  }

  /** Unless the cache is reopened with less room, every row of the table is in memory: what was evicted from the
      list is gone from the table as well. */
  lemma {:induction false} NothingBeyond(ops: seq<Op>, capacity: nat)
    requires capacity > 0 && NeverShrinks(ops, capacity)
    ensures Replay(ops, capacity).beyond == []
  {
    if ops != [] {
      NothingBeyond(ops[..|ops| - 1], capacity);
      ReplayShape(ops[..|ops| - 1], capacity);
      CapacityIs(ops[..|ops| - 1], capacity);
    }
  }

  /** In particular when it is never reopened, or always with the same room. */
  lemma {:induction false} SameRoomNeverShrinks(ops: seq<Op>, capacity: nat)
    requires forall op :: op in ops && op.Reopen? ==> Room(op.requested) == capacity
    ensures NeverShrinks(ops, capacity) && Capacity(ops, capacity) == capacity
  {
    if ops != [] {
      assert ops[|ops| - 1] in ops;
      SameRoomNeverShrinks(ops[..|ops| - 1], capacity);
    }
  }

  function WithoutReopens(ops: seq<Op>): seq<Op> {
    if ops == [] then []
    else
      var before := WithoutReopens(ops[..|ops| - 1]);
      if ops[|ops| - 1].Reopen? then before else before + [ops[|ops| - 1]]
  }

  /** What is left of a run without its restarts are its other calls. */
  lemma {:induction false} WithoutReopensMembers(ops: seq<Op>, op: Op)
    ensures op in WithoutReopens(ops) <==> op in ops && !op.Reopen?
  {
    if ops != [] {
      WithoutReopensMembers(ops[..|ops| - 1], op);
      assert ops == ops[..|ops| - 1] + [ops[|ops| - 1]];
    }
  }

  /** With nothing on disk beyond the list, reopening with the same room changes nothing. */
  lemma ReopenSame(s: Stored, requested: int)
    requires s.capacity > 0 && s.beyond == [] && |s.memory| <= s.capacity && Room(requested) == s.capacity
    ensures Step(s, Reopen(requested)) == s
  {
    assert Rows(s) == s.memory;
  }

  lemma NothingOutside(s: Stored, op: Op)
    requires s.capacity > 0 && s.beyond == [] && !op.Reopen?
    ensures Step(s, op).beyond == [] && Step(s, op).capacity == s.capacity
  {
  }

  /** A run is not changed by any restarts with the same capacity in it. */
  lemma {:induction false} RestartsChangeNothing(ops: seq<Op>, capacity: nat)
    requires capacity > 0 && forall op :: op in ops && op.Reopen? ==> Room(op.requested) == capacity
    ensures Replay(ops, capacity) == Replay(WithoutReopens(ops), capacity)
    ensures Replay(ops, capacity).beyond == [] && Replay(ops, capacity).capacity == capacity
  {
    if ops != [] {
      var prefix, op := ops[..|ops| - 1], ops[|ops| - 1];
      RestartsChangeNothing(prefix, capacity);
      assert op in ops;
      if op.Reopen? {
        ReplayShape(prefix, capacity);
        ReopenSame(Replay(prefix, capacity), op.requested);
      } else {
        NothingOutside(Replay(prefix, capacity), op);
        ReplayNext(WithoutReopens(prefix), capacity, op);
      }
    }
  }

  // ----- When an entry is kept -----

  /** The keys in front of k in a list. */
  function Ahead(s: Lru, k: KeyHash): set<KeyHash> {
    if s == [] || s[0].hash == k then {} else {s[0].hash} + Ahead(s[1..], k)
  }

  lemma {:induction false} AheadMembers(s: Lru, k: KeyHash, j: KeyHash)
    requires j in Ahead(s, k)
    ensures Find(s, j).Some?
  {
    if s[0].hash != j {
      AheadMembers(s[1..], k, j);
    }
  }

  lemma HeadNotAhead(s: Lru, rank: KeyHash -> int, k: KeyHash)
    requires Ranked(s, rank) && s != []
    ensures s[0].hash !in Ahead(s[1..], k)
  {
    if s[0].hash in Ahead(s[1..], k) {
      AheadMembers(s[1..], k, s[0].hash);
    }
  }

  /** There are as many as k has slots in front of it. */
  lemma {:induction false} AheadIsPlace(s: Lru, rank: KeyHash -> int, k: KeyHash)
    requires Ranked(s, rank)
    ensures if Find(s, k).Some? then |Ahead(s, k)| < |s| && s[|Ahead(s, k)|].hash == k else |Ahead(s, k)| == |s|
  {
    if s != [] && s[0].hash != k {
      AheadIsPlace(s[1..], rank, k);
      HeadNotAhead(s, rank, k);
    }
  }

  lemma {:induction false} AheadWithout(s: Lru, j: KeyHash, k: KeyHash)
    requires j != k
    ensures Ahead(Without(s, j), k) == Ahead(s, k) - {j} && Find(Without(s, j), k) == Find(s, k)
  {
    if s != [] {
      AheadWithout(s[1..], j, k);
      if s[0].hash != j {
        assert Without(s, j)[1..] == Without(s[1..], j);
      }
    }
  }

  lemma {:induction false} AheadOutside(s: Lru, h: string, gone: KeyHash -> bool, k: KeyHash)
    requires forall x :: x in s ==> (gone(x.hash) <==> x.repoHash == h)
    ensures Find(OutsideRepo(s, h), k).Some? <==> Find(s, k).Some? && !gone(k)
    ensures Find(s, k).Some? && !gone(k) ==> Ahead(OutsideRepo(s, h), k) == set j | j in Ahead(s, k) && !gone(j)
  {
    if s != [] {
      assert s[0] in s;
      AheadOutside(s[1..], h, gone, k);
      if s[0].repoHash != h {
        assert OutsideRepo(s, h)[1..] == OutsideRepo(s[1..], h);
      } else if s[0].hash == k {
        OutsideMembers(s, h);
      }
    }
  }

  lemma {:induction false} AheadAppend(a: Lru, b: Lru, k: KeyHash)
    ensures Find(a, k).Some? ==> Find(a + b, k) == Find(a, k) && Ahead(a + b, k) == Ahead(a, k)
    ensures Find(a, k).None? ==> Ahead(a, k) <= Ahead(a + b, k)
  {
    if a != [] {
      assert (a + b)[1..] == a[1..] + b;
      AheadAppend(a[1..], b, k);
    }
  }

  lemma AheadPrefix(s: Lru, rank: KeyHash -> int, n: nat, k: KeyHash)
    requires Ranked(s, rank) && n <= |s|
    ensures Find(s[..n], k).Some? <==> Find(s, k).Some? && |Ahead(s, k)| < n
    ensures Find(s[..n], k).Some? ==> Ahead(s[..n], k) == Ahead(s, k)
  {
    assert s[..n] + s[n..] == s;
    AheadAppend(s[..n], s[n..], k);
    PrefixRanked(s, rank, n);
    AheadIsPlace(s[..n], rank, k);
    if Find(s[..n], k).None? {
      SubsetSize(Ahead(s[..n], k), Ahead(s, k));
    }
  }

  lemma AheadPush(slot: Slot, s: Lru, k: KeyHash)
    requires slot.hash != k
    ensures Ahead([slot] + s, k) == {slot.hash} + Ahead(s, k) && Find([slot] + s, k) == Find(s, k)
  {
    assert ([slot] + s)[1..] == s;
  }

  lemma AheadPutListed(m: Lru, rank: KeyHash -> int, j: KeyHash, k: KeyHash)
    requires Ranked(m, rank) && Find(m, k).Some? && Find(m, j).Some? && j != k
    ensures Find(Without(m, j), k).Some? && Ahead(Without(m, j), k) == Ahead(m, k) - {j}
    ensures |Ahead(m, k) + {j}| < |m|
  {
    AheadWithout(m, j, k);
    WithoutRanked(m, rank, j);
    WithoutFound(m, j);
    AheadIsPlace(Without(m, j), rank, k);
    assert Ahead(m, k) + {j} == (Ahead(m, k) - {j}) + {j};
  }

  lemma AheadPutNew(m: Lru, rank: KeyHash -> int, capacity: nat, j: KeyHash, k: KeyHash)
    requires 0 < capacity && |m| <= capacity && Ranked(m, rank) && Find(m, k).Some? && Find(m, j).None?
    ensures var kept := LruKept(m, capacity, j);
      && (Find(kept, k).Some? <==> |Ahead(m, k) + {j}| < capacity)
      && (Find(kept, k).Some? ==> Ahead(kept, k) == Ahead(m, k))
  {
    AheadIsPlace(m, rank, k);
    if j in Ahead(m, k) {
      AheadMembers(m, k, j);
    }
    assert |Ahead(m, k) + {j}| == |Ahead(m, k)| + 1;
    if |m| == capacity {
      AheadPrefix(m, rank, capacity - 1, k);
    }
  }

  /** After a Put of another key, k is there exactly if there is still room behind what is in front of it. */
  lemma AheadPut(m: Lru, rank: KeyHash -> int, capacity: nat, slot: Slot, k: KeyHash)
    requires 0 < capacity && |m| <= capacity && Ranked(m, rank) && Find(m, k).Some? && slot.hash != k
    ensures Find(LruPut(m, capacity, slot), k).Some? <==> |Ahead(m, k) + {slot.hash}| < capacity
    ensures Find(LruPut(m, capacity, slot), k).Some? ==> Ahead(LruPut(m, capacity, slot), k) == Ahead(m, k) + {slot.hash}
  {
    AheadPush(slot, LruKept(m, capacity, slot.hash), k);
    if Find(m, slot.hash).Some? {
      AheadPutListed(m, rank, slot.hash, k);
    } else {
      AheadPutNew(m, rank, capacity, slot.hash, k);
    }
  }

  lemma AheadGet(m: Lru, hash: KeyHash, k: KeyHash)
    requires Find(m, k).Some?
    ensures Find(LruGet(m, hash), k).Some?
    ensures Ahead(LruGet(m, hash), k)
      == if hash == k then {} else if Find(m, hash).Some? then Ahead(m, k) + {hash} else Ahead(m, k)
  {
    if Find(m, hash).Some? && hash != k {
      AheadWithout(m, hash, k);
      AheadPush(Find(m, hash).value, Without(m, hash), k);
    }
  }

  /** Whether the entry put last under j belongs to this repository. */
  predicate InRepo(ops: seq<Op>, h: string, j: KeyHash) {
    LastPut(ops, j).Some? && LastPut(ops, j).value.repoHash == h
  }

  /** The keys touched after the last touch of k whose repository was not invalidated since. */
  function Front(ops: seq<Op>, capacity: nat, k: KeyHash): set<KeyHash>
    requires capacity > 0
  {
    if ops == [] then {}
    else
      var prefix, op := ops[..|ops| - 1], ops[|ops| - 1];
      if Touches(Replay(prefix, capacity), op, k) then {}
      else
        var before := Front(prefix, capacity, k);
        match op
        case Put(slot) => before + {slot.hash}
        case Get(hash) => if Find(Replay(prefix, capacity).memory, hash).Some? then before + {hash} else before
        case Invalidate(h) => set j | j in before && !InRepo(prefix, h, j)
        case Reopen(_) => before
  }

  /** k was put, and has been in memory at every time since. */
  predicate Kept(ops: seq<Op>, capacity: nat, k: KeyHash)
    requires capacity > 0
  {
    ops != [] &&
    ((ops[|ops| - 1].Put? && ops[|ops| - 1].slot.hash == k)
     || (Kept(ops[..|ops| - 1], capacity, k) && Find(Replay(ops, capacity).memory, k).Some?))
  }

  /** k was put, its repository was not invalidated since, and at every time since there was room for it behind the
      keys touched after it. */
  predicate HasRoom(ops: seq<Op>, capacity: nat, k: KeyHash)
    requires capacity > 0
  {
    ops != [] &&
    match ops[|ops| - 1]
    case Put(slot) =>
      slot.hash == k || (HasRoom(ops[..|ops| - 1], capacity, k) && |Front(ops, capacity, k)| < Capacity(ops, capacity))
    case Invalidate(h) => HasRoom(ops[..|ops| - 1], capacity, k) && !InRepo(ops, h, k)
    case _ => HasRoom(ops[..|ops| - 1], capacity, k) && |Front(ops, capacity, k)| < Capacity(ops, capacity)
  }

  /** What the step of one operation does to an entry that is in memory. */
  lemma StepKeepsIff(prefix: seq<Op>, capacity: nat, op: Op, k: KeyHash)
    requires capacity > 0 && !(op.Put? && op.slot.hash == k)
    requires var m := Replay(prefix, capacity).memory; Find(m, k).Some? && Ahead(m, k) == Front(prefix, capacity, k)
    ensures var ops, after := prefix + [op], Replay(prefix + [op], capacity).memory;
      && (Find(after, k).Some?
          <==> if op.Invalidate? then !InRepo(ops, op.repoHash, k) else |Front(ops, capacity, k)| < Capacity(ops, capacity))
      && (Find(after, k).Some? ==> Ahead(after, k) == Front(ops, capacity, k))
  {
    var s, rank := Replay(prefix, capacity), Rank(prefix, capacity);
    ReplayNext(prefix, capacity, op);
    ReplayShape(prefix, capacity);
    CapacityIs(prefix, capacity);
    assert (prefix + [op])[..|prefix|] == prefix;
    assert s.memory == Rows(s)[..|s.memory|];
    PrefixRanked(Rows(s), rank, |s.memory|);
    match op {
      case Put(slot) => AheadPut(s.memory, rank, s.capacity, slot, k);
      case Get(hash) => GetKeepsRoom(prefix, capacity, hash, k);
      case Invalidate(h) =>
        assert forall x :: x in s.memory ==> x in Rows(s);
        AheadOutside(s.memory, h, j => InRepo(prefix, h, j), k);
      case Reopen(requested) =>
        AheadPrefix(Rows(s), rank, |s.memory|, k);
        AheadPrefix(Rows(s), rank, |Step(s, op).memory|, k);
        AheadIsPlace(Rows(s), rank, k);
    }
  }

  lemma GetKeepsRoom(prefix: seq<Op>, capacity: nat, hash: KeyHash, k: KeyHash)
    requires capacity > 0
    requires var m := Replay(prefix, capacity).memory; Find(m, k).Some? && Ahead(m, k) == Front(prefix, capacity, k)
    ensures var ops, after := prefix + [Get(hash)], Replay(prefix + [Get(hash)], capacity);
      && Find(after.memory, k).Some? && Ahead(after.memory, k) == Front(ops, capacity, k)
      && |Front(ops, capacity, k)| < after.capacity
  {
    var ops := prefix + [Get(hash)];
    assert ops[..|prefix|] == prefix;
    AheadGet(Replay(prefix, capacity).memory, hash, k);
    ReplayNext(prefix, capacity, Get(hash));
    ReplayShape(ops, capacity);
    var after := Replay(ops, capacity);
    assert after.memory == Rows(after)[..|after.memory|];
    PrefixRanked(Rows(after), Rank(ops, capacity), |after.memory|);
    AheadIsPlace(after.memory, Rank(ops, capacity), k);
  }

  /** An entry is kept exactly as long as there is room for it behind the keys touched after it, whatever is got, put,
      invalidated and reopened; and those are the keys in front of it. */
  lemma {:induction false} KeptIff(ops: seq<Op>, capacity: nat, k: KeyHash)
    requires capacity > 0
    ensures Kept(ops, capacity, k) <==> HasRoom(ops, capacity, k)
    ensures Kept(ops, capacity, k) ==>
      var m := Replay(ops, capacity).memory; Find(m, k).Some? && Ahead(m, k) == Front(ops, capacity, k)
  {
    if ops != [] {
      var prefix, op := ops[..|ops| - 1], ops[|ops| - 1];
      assert ops == prefix + [op];
      KeptIff(prefix, capacity, k);
      if !(op.Put? && op.slot.hash == k) && Kept(prefix, capacity, k) {
        StepKeepsIff(prefix, capacity, op, k);
      }
    }
  }

  /** What was not in memory comes into it only by a Put of it, as long as nothing is on disk only. */
  lemma OnlyPutBrings(s: Stored, op: Op, k: KeyHash)
    requires s.capacity > 0 && s.beyond == [] && Find(s.memory, k).None? && !(op.Put? && op.slot.hash == k)
    ensures Find(Step(s, op).memory, k).None?
  {
    match op {
      case Put(slot) => WithoutMembers(s.memory, slot.hash);
      case Get(hash) => WithoutMembers(s.memory, hash);
      case Invalidate(h) => OutsideMembers(s.memory, h);
      case Reopen(requested) => assert Rows(s) == s.memory;
    }
  }

  /** Unless the cache is reopened with less room, a Get finds k exactly if there was always room for it. */
  lemma {:induction false} FoundIff(ops: seq<Op>, capacity: nat, k: KeyHash)
    requires capacity > 0 && NeverShrinks(ops, capacity)
    ensures Find(Replay(ops, capacity).memory, k).Some? <==> HasRoom(ops, capacity, k)
  {
    KeptIff(ops, capacity, k);
    if ops != [] {
      var prefix, op := ops[..|ops| - 1], ops[|ops| - 1];
      FoundIff(prefix, capacity, k);
      KeptIff(prefix, capacity, k);
      NothingBeyond(prefix, capacity);
      if Find(Replay(prefix, capacity).memory, k).None? && !(op.Put? && op.slot.hash == k) {
        OnlyPutBrings(Replay(prefix, capacity), op, k);
      }
    }
  }

  // ----- A condition on the operations alone -----

  /** The keys mentioned after the last mention of k. */
  function Since(ops: seq<Op>, k: KeyHash): set<KeyHash> {
    if ops == [] || Mentions(ops[|ops| - 1], k) then {}
    else
      var before := Since(ops[..|ops| - 1], k);
      match ops[|ops| - 1]
      case Put(slot) => before + {slot.hash}
      case Get(hash) => before + {hash}
      case _ => before
  }

  /** k was put, its repository was not invalidated since, and at no time since then had as many other keys been
      mentioned after the last mention of k as there was room for, restarts included. */
  predicate InUse(ops: seq<Op>, capacity: nat, k: KeyHash) {
    ops != [] &&
    match ops[|ops| - 1]
    case Put(slot) =>
      slot.hash == k || (InUse(ops[..|ops| - 1], capacity, k) && |Since(ops, k)| < Capacity(ops, capacity))
    case Invalidate(h) =>
      InUse(ops[..|ops| - 1], capacity, k) && LastPut(ops, k) != None && LastPut(ops, k).value.repoHash != h
    case _ => InUse(ops[..|ops| - 1], capacity, k) && |Since(ops, k)| < Capacity(ops, capacity)
  }

  /** An entry in use is never evicted, and no restart leaves it behind. */
  lemma {:induction false} InUseIsKept(ops: seq<Op>, capacity: nat, k: KeyHash)
    requires capacity > 0 && InUse(ops, capacity, k)
    ensures HasRoom(ops, capacity, k) && Front(ops, capacity, k) <= Since(ops, k)
    ensures Find(Replay(ops, capacity).memory, k).Some?
    ensures LastTouch(ops, capacity, k) == LastMention(ops, k)
  {
    var prefix, op := ops[..|ops| - 1], ops[|ops| - 1];
    KeptIff(ops, capacity, k);
    if !(op.Put? && op.slot.hash == k) {
      InUseIsKept(prefix, capacity, k);
      assert Front(ops, capacity, k) <= Since(ops, k);
      SubsetSize(Front(ops, capacity, k), Since(ops, k));
    }
  }

  /** Every entry is in use when it has just been put. */
  lemma JustPutIsKept(ops: seq<Op>, capacity: nat, slot: Slot)
    requires capacity > 0
    ensures InUse(ops + [Put(slot)], capacity, slot.hash)
    ensures Find(Replay(ops + [Put(slot)], capacity).memory, slot.hash).Some?
  {
    InUseIsKept(ops + [Put(slot)], capacity, slot.hash);
  }

  // ----- The cache itself, over a sequence of calls -----

  datatype Call =
    | PutCall(key: CacheKey, entry: CacheEntry)
    | GetCall(key: CacheKey)
    | InvalidateCall(repoHash: string)
    | ReopenCall(requested: int)

  function OpOf(call: Call): Op {
    match call
    case PutCall(key, entry) => Put(Slot(Render(key), key.repoHash, entry))
    case GetCall(key) => Get(Render(key))
    case InvalidateCall(repoHash) => Invalidate(repoHash)
    case ReopenCall(requested) => Reopen(requested)
  }

  function OpsOf(calls: seq<Call>): (ops: seq<Op>)
    ensures |ops| == |calls|
  {
    seq(|calls|, i requires 0 <= i < |calls| => OpOf(calls[i]))
  }

  /** List, map and table hold this, and no row besides. */
  ghost predicate Holds(c: Cache, s: Stored)
    reads c
  {
    c.Valid() && c.Contents() == s.memory && c.Beyond() == s.beyond && c.maxSize == s.capacity
  }

  /** A Get finds what is in the list, and that was put last under its key. */
  ghost predicate Answered(ops: seq<Op>, capacity: nat, call: Call, answer: Option<CacheEntry>)
    requires capacity > 0
  {
    call.GetCall? ==>
      var slot, last := Find(Replay(ops, capacity).memory, Render(call.key)), LastPut(ops, Render(call.key));
      && (answer.Some? <==> slot.Some?)
      && (answer.Some? ==> last.Some? && answer.value == slot.value.entry == last.value.entry)
  }

  lemma FoundIsLatest(ops: seq<Op>, capacity: nat, k: KeyHash)
    requires capacity > 0
    ensures var found := Find(Replay(ops, capacity).memory, k); found.Some? ==> LastPut(ops, k) == found
  {
    ReplayShape(ops, capacity);
    var found := Find(Replay(ops, capacity).memory, k);
    assert found.Some? ==> found.value in Rows(Replay(ops, capacity));
  }

  method Perform(c: Cache, call: Call, ghost ops: seq<Op>, ghost capacity: nat)
    returns (r: Cache, answer: Option<CacheEntry>)
    requires capacity > 0 && Holds(c, Replay(ops, capacity))
    modifies c
    ensures r == c || fresh(r)
    ensures Holds(r, Replay(ops + [OpOf(call)], capacity)) && Answered(ops, capacity, call, answer)
  {
    ReplayNext(ops, capacity, OpOf(call));
    r, answer := c, None;
    match call {
      case PutCall(key, entry) => c.Put(key, entry);
      case GetCall(key) =>
        FoundIsLatest(ops, capacity, Render(key));
        answer := c.Get(key);
      case InvalidateCall(repoHash) => c.Invalidate(repoHash);
      case ReopenCall(requested) =>
        r := PerformReopen(c, requested, Replay(ops, capacity));
    }
  }

  method PerformReopen(c: Cache, requested: int, ghost s: Stored) returns (r: Cache)
    requires s.capacity > 0 && Holds(c, s)
    ensures fresh(r) && Holds(r, Step(s, Reopen(requested)))
  {
    r := Restart(c, requested);
    SamePrefix(r.Contents(), r.Beyond(), Rows(s));
  }

  lemma SamePrefix(a: Lru, b: Lru, whole: Lru)
    requires a + b == whole
    ensures |a| <= |whole| && a == whole[..|a|] && b == whole[|a|..]
  {
  }

  ghost predicate AllAnswered(calls: seq<Call>, capacity: nat, answers: seq<Option<CacheEntry>>)
    requires capacity > 0
  {
    && |answers| <= |calls|
    && forall i :: 0 <= i < |answers| ==> Answered(OpsOf(calls[..i]), capacity, calls[i], answers[i])
  }

  lemma PushHolds<T>(holds: (int, T) -> bool, s: seq<T>, x: T)
    requires (forall i :: 0 <= i < |s| ==> holds(i, s[i])) && holds(|s|, x)
    ensures forall i :: 0 <= i < |s + [x]| ==> holds(i, (s + [x])[i])
  {
  }

  lemma AnsweredNext(calls: seq<Call>, capacity: nat, answers: seq<Option<CacheEntry>>, answer: Option<CacheEntry>)
    requires capacity > 0 && |answers| < |calls| && AllAnswered(calls, capacity, answers)
    requires Answered(OpsOf(calls[..|answers|]), capacity, calls[|answers|], answer)
    ensures AllAnswered(calls, capacity, answers + [answer])
  {
    PushHolds((i: int, a: Option<CacheEntry>) => 0 <= i < |calls| && Answered(OpsOf(calls[..i]), capacity, calls[i], a),
              answers, answer);
  }

  lemma OpsOfNext(calls: seq<Call>, i: nat)
    requires i < |calls|
    ensures OpsOf(calls[..i + 1]) == OpsOf(calls[..i]) + [OpOf(calls[i])]
  {
  }

  method OpenEmpty(requested: int) returns (c: Cache)
    ensures fresh(c) && Holds(c, Replay([], Room(requested)))
  {
    c := new Cache(map[], 0, requested);
  }

  /** From an empty table, after any calls and any restarts, the cache holds what the plain list holds, and each
      Get finds what was put last. */
  method PerformAll(calls: seq<Call>, requested: int) returns (c: Cache, answers: seq<Option<CacheEntry>>)
    ensures fresh(c) && Holds(c, Replay(OpsOf(calls), Room(requested)))
    ensures |answers| == |calls|
    ensures AllAnswered(calls, Room(requested), answers)
  {
    c := OpenEmpty(requested);
    answers := [];
    ghost var ops: seq<Op> := [];
    for i := 0 to |calls|
      invariant fresh(c) && Holds(c, Replay(ops, Room(requested))) && ops == OpsOf(calls[..i])
      invariant |answers| == i && AllAnswered(calls, Room(requested), answers)
    {
      var answer;
      c, answer := Perform(c, calls[i], ops, Room(requested));
      OpsOfNext(calls, i);
      AnsweredNext(calls, Room(requested), answers, answer);
      ops := ops + [OpOf(calls[i])];
      answers := answers + [answer];
    }
    assert calls[..|calls|] == calls;
  }
}
