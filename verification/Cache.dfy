/** The write-through LRU cache: a map, a recency list and a table that must rebuild the list. */
module Cache {
  import opened Numbers
  import opened Wrappers

  datatype CacheKey = CacheKey(repoHash: string, query: string, retriever: string, contextLevel: string, tokenBudget: int)

  datatype CacheEntry = CacheEntry(results: string, context: string, tokens: int, createdAt: int)

  /** SHA-256 of the rendered key is taken to be injective, so a key hash is the rendered key. */
  type KeyHash = string

  /** A row of cache_entries: the repository of the key it was last stored under, the entry, and when
      it was last touched. */
  datatype Row = Row(repoHash: string, entry: CacheEntry, lastAccessed: nat)

  type Table = map<KeyHash, Row>

  // ----- Recency order of the table -----

  /** Row k was touched after every other row of the table. */
  ghost predicate IsNewest(t: Table, k: KeyHash) {
    k in t && forall j :: j in t && j != k ==> t[j].lastAccessed < t[k].lastAccessed
  }

  /** `order` is the first |order| rows of the table, most recently touched first. */
  ghost predicate NewestPrefix(order: seq<KeyHash>, t: Table): (b: bool)
    ensures b ==> forall i :: 0 <= i < |order| ==> order[i] in t
  {
    order == [] || (IsNewest(t, order[0]) && NewestPrefix(order[1..], t - {order[0]}))
  }

  ghost predicate DistinctTimes(t: Table) {
    forall a, b {:trigger t[a].lastAccessed, t[b].lastAccessed} ::
      a in t && b in t && a != b ==> t[a].lastAccessed != t[b].lastAccessed
  }

  /** SELECT key_hash ... ORDER BY last_accessed DESC LIMIT max. */
  method SelectNewest(t: Table, max: nat) returns (order: seq<KeyHash>)
    requires DistinctTimes(t)
    ensures NewestPrefix(order, t)
    ensures |order| == if |t| <= max then |t| else max
    decreases max
  {
    if max == 0 || |t| == 0 {
      return [];
    }
    var k := Newest(t);
    var rest := SelectNewest(t - {k}, max - 1);
    assert ([k] + rest)[1..] == rest;
    return [k] + rest;
  }

  method Newest(t: Table) returns (k: KeyHash)
    requires DistinctTimes(t) && |t| > 0
    ensures IsNewest(t, k)
  {
    assert t.Keys != {};
    k :| k in t.Keys;
    var rest := t.Keys - {k};
    while rest != {}
      invariant rest <= t.Keys && k in t && k !in rest
      invariant forall j :: j in t && j !in rest && j != k ==> t[j].lastAccessed < t[k].lastAccessed
    {
      var j :| j in rest;
      rest := rest - {j};
      if t[j].lastAccessed > t[k].lastAccessed {
        k := j;
      }
    }
  }

  /** There is only one newest prefix of a given length: any two agree as far as the shorter goes. */
  lemma {:induction false} NewestPrefixUnique(a: seq<KeyHash>, b: seq<KeyHash>, t: Table)
    requires NewestPrefix(a, t) && NewestPrefix(b, t) && |a| <= |b|
    ensures a == b[..|a|]
  {
    if a != [] {
      assert a[0] == b[0];
      NewestPrefixUnique(a[1..], b[1..], t - {a[0]});
      assert b[1..][..|a| - 1] == b[1..|a|];
      assert b[..|a|] == [b[0]] + b[1..|a|];
    }
  }

  // ----- The sequence the cache refines -----

  /** One cached result: its key hash, the repository it belongs to, its entry. */
  datatype Slot = Slot(hash: KeyHash, repoHash: string, entry: CacheEntry)

  /** A plain least-recently-used list, most recent first. */
  type Lru = seq<Slot>

  function Without(s: Lru, k: KeyHash): Lru {
    if s == [] then []
    else if s[0].hash == k then Without(s[1..], k)
    else [s[0]] + Without(s[1..], k)
  }

  function OutsideRepo(s: Lru, repoHash: string): Lru {
    if s == [] then []
    else if s[0].repoHash == repoHash then OutsideRepo(s[1..], repoHash)
    else [s[0]] + OutsideRepo(s[1..], repoHash)
  }

  function Find(s: Lru, k: KeyHash): (r: Option<Slot>)
    ensures r.Some? ==> r.value in s && r.value.hash == k
    ensures r.None? ==> forall x :: x in s ==> x.hash != k
  {
    if s == [] then None else if s[0].hash == k then Some(s[0]) else Find(s[1..], k)
  }

  function LruGet(s: Lru, k: KeyHash): Lru {
    match Find(s, k)
    case Some(slot) => [slot] + Without(s, k)
    case None => s
  }

  /** What a Put under k leaves of the list to stand behind it. */
  function LruKept(s: Lru, capacity: nat, k: KeyHash): Lru
    requires capacity > 0
  {
    if Find(s, k).Some? then Without(s, k)
    else if |s| < capacity then s
    else s[..capacity - 1]
  }

  function LruPut(s: Lru, capacity: nat, slot: Slot): Lru
    requires capacity > 0
  {
    [slot] + LruKept(s, capacity, slot.hash)
  }

  /** The capacity a cache is opened with. */
  function Room(requested: int): (n: nat)
    ensures n > 0
  {
    if requested <= 0 then 100 else requested
  }

  function Least(a: nat, b: nat): nat {
    if a <= b then a else b
  }

  // ----- Keys -----

  /** The string that is hashed: "%s|%s|%s|%s|%d". */
  function Render(key: CacheKey): KeyHash {
    key.repoHash + "|" + key.query + "|" + key.retriever + "|" + key.contextLevel + "|" + Itoa(key.tokenBudget)
  }

  // ----- The cache -----

  function Slots(order: seq<KeyHash>, t: Table): Lru
    requires forall i :: 0 <= i < |order| ==> order[i] in t
  {
    seq(|order|, i requires 0 <= i < |order| => Slot(order[i], t[order[i]].repoHash, t[order[i]].entry))
  }

  /** The list after the elements with the given keys were removed from it. */
  function Drop(order: seq<KeyHash>, keys: set<KeyHash>): (r: seq<KeyHash>)
    ensures forall k :: k in r <==> k in order && k !in keys
    ensures |r| <= |order|
  {
    if order == [] then []
    else if order[0] in keys then Drop(order[1..], keys)
    else [order[0]] + Drop(order[1..], keys)
  }

  lemma {:induction false} DropShortens(order: seq<KeyHash>, k: KeyHash)
    requires k in order
    ensures |Drop(order, {k})| < |order|
  {
    if order[0] != k {
      DropShortens(order[1..], k);
    }
  }

  lemma {:induction false} DropNothing(order: seq<KeyHash>, keys: set<KeyHash>)
    requires forall k :: k in order ==> k !in keys
    ensures Drop(order, keys) == order
  {
    if order != [] {
      DropNothing(order[1..], keys);
    }
  }

  lemma {:induction false} DropTwice(order: seq<KeyHash>, a: set<KeyHash>, b: set<KeyHash>)
    ensures Drop(Drop(order, a), b) == Drop(order, a + b)
  {
    if order != [] {
      DropTwice(order[1..], a, b);
      if order[0] !in a {
        var d := [order[0]] + Drop(order[1..], a);
        assert d[0] == order[0] && d[1..] == Drop(order[1..], a);
        assert Drop(d, b) == if order[0] in b then Drop(d[1..], b) else [order[0]] + Drop(d[1..], b);
      }
    }
  }

  lemma {:induction false} DropKeySlots(order: seq<KeyHash>, k: KeyHash, t: Table)
    requires forall i :: 0 <= i < |order| ==> order[i] in t
    ensures forall i :: 0 <= i < |Drop(order, {k})| ==> Drop(order, {k})[i] in t
    ensures Slots(Drop(order, {k}), t) == Without(Slots(order, t), k)
  {
    if order != [] {
      DropKeySlots(order[1..], k, t);
      SlotsCons(order, t);
      if order[0] != k {
        SlotsCons([order[0]] + Drop(order[1..], {k}), t);
      }
    }
  }

  lemma {:induction false} DropRepoSlots(order: seq<KeyHash>, keys: set<KeyHash>, t: Table, repoHash: string)
    requires forall i :: 0 <= i < |order| ==> order[i] in t
    requires forall i :: 0 <= i < |order| ==> (order[i] in keys <==> t[order[i]].repoHash == repoHash)
    ensures forall i :: 0 <= i < |Drop(order, keys)| ==> Drop(order, keys)[i] in t
    ensures Slots(Drop(order, keys), t) == OutsideRepo(Slots(order, t), repoHash)
  {
    if order != [] {
      DropRepoSlots(order[1..], keys, t, repoHash);
      SlotsCons(order, t);
      if order[0] !in keys {
        SlotsCons([order[0]] + Drop(order[1..], keys), t);
      }
    }
  }

  lemma SlotsCons(order: seq<KeyHash>, t: Table)
    requires order != [] && forall i :: 0 <= i < |order| ==> order[i] in t
    ensures Slots(order, t) == [Slot(order[0], t[order[0]].repoHash, t[order[0]].entry)] + Slots(order[1..], t)
  {
  }

  lemma SlotsFind(order: seq<KeyHash>, t: Table, k: KeyHash)
    requires forall i :: 0 <= i < |order| ==> order[i] in t
    ensures Find(Slots(order, t), k) == if k in order then Some(Slot(k, t[k].repoHash, t[k].entry)) else None
  {
    var s := Slots(order, t);
    if k in order {
      var i :| 0 <= i < |order| && order[i] == k;
      assert s[i] in s;
    }
  }

  /** Dropping rows from the table and their keys from the list keeps the list a newest prefix. */
  lemma {:induction false} DropKeepsPrefix(order: seq<KeyHash>, t: Table, keys: set<KeyHash>)
    requires NewestPrefix(order, t)
    ensures NewestPrefix(Drop(order, keys), t - keys)
  {
    if order != [] {
      var k, rest := order[0], order[1..];
      DropKeepsPrefix(rest, t - {k}, keys);
      if k in keys {
        assert (t - {k}) - keys == t - keys;
      } else {
        assert (t - {k}) - keys == (t - keys) - {k};
        assert ([k] + Drop(rest, keys))[1..] == Drop(rest, keys);
      }
    }
  }

  lemma PushKeepsPrefix(order: seq<KeyHash>, t: Table, k: KeyHash, row: Row)
    requires NewestPrefix(order, t) && k !in order
    requires forall j :: j in t ==> t[j].lastAccessed < row.lastAccessed
    ensures NewestPrefix([k] + order, t[k := row])
  {
    DropKeepsPrefix(order, t, {k});
    DropNothing(order, {k});
    assert t[k := row] - {k} == t - {k};
    assert ([k] + order)[1..] == order;
  }

  lemma SameSlots(order: seq<KeyHash>, t: Table, t': Table)
    requires forall i :: 0 <= i < |order| ==> order[i] in t && order[i] in t'
    requires forall i :: 0 <= i < |order| ==>
               t[order[i]].entry == t'[order[i]].entry && t[order[i]].repoHash == t'[order[i]].repoHash
    ensures Slots(order, t) == Slots(order, t')
  {
  }

  lemma {:induction false} DropSame(order: seq<KeyHash>, a: set<KeyHash>, b: set<KeyHash>)
    requires forall k :: k in order ==> (k in a <==> k in b)
    ensures Drop(order, a) == Drop(order, b)
  {
    if order != [] {
      assert order[0] in order;
      DropSame(order[1..], a, b);
    }
  }

  lemma {:induction false} DropSplit(a: seq<KeyHash>, b: seq<KeyHash>, keys: set<KeyHash>)
    ensures Drop(a + b, keys) == Drop(a, keys) + Drop(b, keys)
  {
    if a == [] {
      assert a + b == b;
    } else {
      assert (a + b)[1..] == a[1..] + b;
      DropSplit(a[1..], b, keys);
    }
  }

  /** The rows behind a newest prefix. */
  lemma TheRest(lru: seq<KeyHash>, t: Table) returns (beyond: seq<KeyHash>)
    requires NewestPrefix(lru, t) && DistinctTimes(t) && |lru| <= |t|
    ensures NewestPrefix(lru + beyond, t) && forall k :: k in t <==> k in lru || k in beyond
  {
    var order := WholeOrder(t);
    WholePrefixSize(order, t);
    NewestPrefixUnique(lru, order, t);
    beyond := order[|lru|..];
    assert order == lru + beyond;
    assert forall i :: 0 <= i < |order| ==> order[i] in t;
  }

  /** No row stands in a newest prefix twice. */
  lemma {:induction false} PrefixApart(a: seq<KeyHash>, b: seq<KeyHash>, t: Table, k: KeyHash)
    requires NewestPrefix(a + b, t) && k in a
    ensures k !in b
  {
    var rest := a[1..] + b;
    assert (a + b)[1..] == rest;
    if k == a[0] {
      assert forall i :: 0 <= i < |rest| ==> rest[i] in t - {k};
      assert forall j :: j in b ==> j in rest;
    } else {
      PrefixApart(a[1..], b, t - {a[0]}, k);
    }
  }

  /** A newest prefix that leaves no row out is as long as the table is large. */
  lemma {:induction false} WholePrefixSize(order: seq<KeyHash>, t: Table)
    requires NewestPrefix(order, t) && forall k :: k in t ==> k in order
    ensures |order| == |t|
  {
    if order == [] {
      assert t == map[];
    } else {
      var k := order[0];
      assert forall j :: j in t - {k} ==> j in order[1..];
      WholePrefixSize(order[1..], t - {k});
      assert t.Keys == (t - {k}).Keys + {k};
    }
  }

  lemma {:induction false} NewestExists(t: Table) returns (k: KeyHash)
    requires DistinctTimes(t) && t.Keys != {}
    ensures IsNewest(t, k)
    decreases |t|
  {
    k :| k in t.Keys;
    var rest := t - {k};
    if rest.Keys != {} {
      assert |rest| < |t| by { assert t.Keys == rest.Keys + {k}; }
      var j := NewestExists(rest);
      assert t[j].lastAccessed != t[k].lastAccessed;
      assert forall i :: i in t && i != k ==> i in rest && rest[i] == t[i];
      if t[j].lastAccessed > t[k].lastAccessed {
        k := j;
      }
    } else {
      assert forall i :: i in t && i != k ==> i in rest.Keys;
    }
  }

  /** All rows of a table, most recently touched first. */
  lemma {:induction false} WholeOrder(t: Table) returns (order: seq<KeyHash>)
    requires DistinctTimes(t)
    ensures NewestPrefix(order, t) && forall k :: k in t ==> k in order
    decreases |t|
  {
    if t.Keys == {} {
      order := [];
    } else {
      var k := NewestExists(t);
      assert |t - {k}| < |t| by { assert t.Keys == (t - {k}).Keys + {k}; }
      var rest := WholeOrder(t - {k});
      order := [k] + rest;
      assert order[1..] == rest;
    }
  }

  /** The map holds the rows of the listed keys. */
  ghost predicate Loaded(entries: map<KeyHash, CacheEntry>, lru: seq<KeyHash>, table: Table) {
    && (forall k :: k in entries <==> k in lru)
    && (forall k :: k in entries ==> k in table && entries[k] == table[k].entry)
  }

  lemma LoadOne(entries: map<KeyHash, CacheEntry>, lru: seq<KeyHash>, t: Table, k: KeyHash)
    requires Loaded(entries, lru, t) && k in t
    ensures Loaded(entries[k := t[k].entry], lru + [k], t)
  {
  }

  /** Memory and disk agree: the list is the newest part of the table, `beyond` is the rest of it, newest
      first, and there is no row besides. */
  ghost predicate Consistent(lru: seq<KeyHash>, beyond: seq<KeyHash>, entries: map<KeyHash, CacheEntry>, table: Table,
                             clock: nat)
  {
    NewestPrefix(lru + beyond, table) && Covered(lru, beyond, entries, table) && Timed(table, clock)
  }

  ghost predicate Covered(lru: seq<KeyHash>, beyond: seq<KeyHash>, entries: map<KeyHash, CacheEntry>, table: Table) {
    Loaded(entries, lru, table) && forall k :: k in table <==> k in lru || k in beyond
  }

  ghost predicate Timed(table: Table, clock: nat) {
    DistinctTimes(table) && forall k :: k in table ==> table[k].lastAccessed < clock
  }

  lemma TouchPrefix(lru: seq<KeyHash>, t: Table, k: KeyHash, row: Row)
    requires NewestPrefix(lru, t) && forall j :: j in t ==> t[j].lastAccessed < row.lastAccessed
    ensures NewestPrefix([k] + Drop(lru, {k}), t[k := row])
  {
    DropKeepsPrefix(lru, t, {k});
    PushKeepsPrefix(Drop(lru, {k}), t - {k}, k, row);
    assert (t - {k})[k := row] == t[k := row];
  }

  lemma TouchSlots(lru: seq<KeyHash>, t: Table, k: KeyHash, row: Row)
    requires forall i :: 0 <= i < |lru| ==> lru[i] in t
    ensures forall i :: 0 <= i < |Drop(lru, {k})| ==> Drop(lru, {k})[i] in t
    ensures Slots([k] + Drop(lru, {k}), t[k := row]) == [Slot(k, row.repoHash, row.entry)] + Without(Slots(lru, t), k)
  {
    var rest := Drop(lru, {k});
    DropKeySlots(lru, k, t);
    forall i | 0 <= i < |rest| ensures rest[i] != k { assert rest[i] in rest; }
    SameSlots(rest, t, t[k := row]);
    SlotsCons([k] + rest, t[k := row]);
  }

  lemma ConsSplit(k: KeyHash, a: seq<KeyHash>, b: seq<KeyHash>)
    ensures [k] + (a + b) == [k] + a + b
  {
  }

  lemma TouchWhole(lru: seq<KeyHash>, beyond: seq<KeyHash>, t: Table, k: KeyHash, row: Row)
    requires NewestPrefix(lru + beyond, t) && forall j :: j in t ==> t[j].lastAccessed < row.lastAccessed
    ensures NewestPrefix([k] + Drop(lru, {k}) + Drop(beyond, {k}), t[k := row])
  {
    ConsSplit(k, Drop(lru, {k}), Drop(beyond, {k}));
    DropSplit(lru, beyond, {k});
    TouchPrefix(lru + beyond, t, k, row);
  }

  lemma TouchCovered(lru: seq<KeyHash>, beyond: seq<KeyHash>, entries: map<KeyHash, CacheEntry>, t: Table,
                     k: KeyHash, row: Row)
    requires Covered(lru, beyond, entries, t)
    ensures Covered([k] + Drop(lru, {k}), Drop(beyond, {k}), entries[k := row.entry], t[k := row])
  {
  }

  lemma TouchTimed(t: Table, clock: nat, k: KeyHash, row: Row)
    requires Timed(t, clock) && row.lastAccessed == clock
    ensures Timed(t[k := row], clock + 1)
  {
  }

  /** A key goes to the front of the list, wherever it was, and its row gets a new time stamp. */
  lemma Touch(lru: seq<KeyHash>, beyond: seq<KeyHash>, entries: map<KeyHash, CacheEntry>, t: Table, clock: nat,
              k: KeyHash, row: Row)
    requires Consistent(lru, beyond, entries, t, clock) && row.lastAccessed == clock
    ensures Consistent([k] + Drop(lru, {k}), Drop(beyond, {k}), entries[k := row.entry], t[k := row], clock + 1)
  {
    TouchWhole(lru, beyond, t, k, row);
    TouchCovered(lru, beyond, entries, t, k, row);
    TouchTimed(t, clock, k, row);
  }

  lemma TouchBeyond(beyond: seq<KeyHash>, t: Table, k: KeyHash, row: Row)
    requires forall i :: 0 <= i < |beyond| ==> beyond[i] in t
    ensures forall i :: 0 <= i < |Drop(beyond, {k})| ==> Drop(beyond, {k})[i] in t
    ensures Slots(Drop(beyond, {k}), t[k := row]) == Without(Slots(beyond, t), k)
  {
    DropKeySlots(beyond, k, t);
    forall i | 0 <= i < |Drop(beyond, {k})| ensures Drop(beyond, {k})[i] != k {
      assert Drop(beyond, {k})[i] in Drop(beyond, {k});
    }
    SameSlots(Drop(beyond, {k}), t, t[k := row]);
  }

  /** What is in the list has no second row on disk. */
  lemma ListedOnce(lru: seq<KeyHash>, beyond: seq<KeyHash>, t: Table, k: KeyHash)
    requires NewestPrefix(lru + beyond, t) && k in lru
    ensures Drop(beyond, {k}) == beyond && |Drop(lru, {k})| < |lru|
  {
    PrefixApart(lru, beyond, t, k);
    DropNothing(beyond, {k});
    DropShortens(lru, k);
  }

  lemma TouchListed(lru: seq<KeyHash>, beyond: seq<KeyHash>, entries: map<KeyHash, CacheEntry>, t: Table, clock: nat,
                    k: KeyHash)
    requires Consistent(lru, beyond, entries, t, clock) && k in lru
    ensures Consistent([k] + Drop(lru, {k}), beyond, entries, t[k := t[k].(lastAccessed := clock)], clock + 1)
    ensures |Drop(lru, {k})| < |lru|
  {
    var row := t[k].(lastAccessed := clock);
    Touch(lru, beyond, entries, t, clock, k, row);
    ListedOnce(lru, beyond, t, k);
    assert entries[k := row.entry] == entries;
  }

  lemma TouchListedSlots(lru: seq<KeyHash>, beyond: seq<KeyHash>, t: Table, k: KeyHash, clock: nat)
    requires k in lru && (forall i :: 0 <= i < |lru| ==> lru[i] in t) && forall i :: 0 <= i < |beyond| ==> beyond[i] in t
    ensures var t' := t[k := t[k].(lastAccessed := clock)];
      && t'.Keys == t.Keys && (forall i :: 0 <= i < |Drop(lru, {k})| ==> Drop(lru, {k})[i] in t')
      && Slots([k] + Drop(lru, {k}), t') == LruGet(Slots(lru, t), k) && Slots(beyond, t') == Slots(beyond, t)
  {
    var row := t[k].(lastAccessed := clock);
    SlotsFind(lru, t, k);
    TouchSlots(lru, t, k, row);
    SameSlots(beyond, t, t[k := row]);
    assert t[k := row].Keys == t.Keys;
  }

  lemma NotListed(lru: seq<KeyHash>, t: Table, k: KeyHash)
    requires k !in lru && forall i :: 0 <= i < |lru| ==> lru[i] in t
    ensures Drop(lru, {k}) == lru && Without(Slots(lru, t), k) == Slots(lru, t)
  {
    DropNothing(lru, {k});
    DropKeySlots(lru, k, t);
  }

  lemma EvictWhole(rest: seq<KeyHash>, last: KeyHash, beyond: seq<KeyHash>, t: Table)
    requires NewestPrefix(rest + [last] + beyond, t)
    ensures NewestPrefix(rest + beyond, t - {last}) && last !in rest && last !in beyond
  {
    PrefixApart(rest + [last], beyond, t, last);
    assert rest + [last] + beyond == rest + ([last] + beyond);
    if last in rest {
      PrefixApart(rest, [last] + beyond, t, last);
    }
    DropKeepsPrefix(rest + [last] + beyond, t, {last});
    DropSplit(rest, [last] + beyond, {last});
    DropNothing(rest, {last});
    DropNothing(beyond, {last});
    assert ([last] + beyond)[1..] == beyond;
  }

  /** Evicting the key at the back of the list: its row goes with it. */
  lemma EvictLast(lru: seq<KeyHash>, beyond: seq<KeyHash>, entries: map<KeyHash, CacheEntry>, t: Table, clock: nat)
    requires Consistent(lru, beyond, entries, t, clock) && lru != []
    ensures var last, rest := lru[|lru| - 1], lru[..|lru| - 1];
      && Consistent(rest, beyond, entries - {last}, t - {last}, clock)
      && Slots(rest, t - {last}) == Slots(lru, t)[..|lru| - 1]
      && Slots(beyond, t - {last}) == Slots(beyond, t)
  {
    var last, rest := lru[|lru| - 1], lru[..|lru| - 1];
    assert lru == rest + [last];
    EvictWhole(rest, last, beyond, t);
    SameSlots(rest, t, t - {last});
    SameSlots(beyond, t, t - {last});
  }

  function OtherRows(t: Table, repoHash: string): Table {
    map k | k in t && t[k].repoHash != repoHash :: t[k]
  }

  function RepoKeys(t: Table, repoHash: string): set<KeyHash> {
    set k | k in t && t[k].repoHash == repoHash
  }

  lemma OtherRowsRemain(t: Table, repoHash: string)
    ensures t - RepoKeys(t, repoHash) == OtherRows(t, repoHash)
  {
  }

  lemma DropRepoConsistent(lru: seq<KeyHash>, beyond: seq<KeyHash>, entries: map<KeyHash, CacheEntry>, t: Table,
                           clock: nat, keys: set<KeyHash>)
    requires Consistent(lru, beyond, entries, t, clock)
    ensures Consistent(Drop(lru, keys), Drop(beyond, keys), entries - keys, t - keys, clock)
  {
    DropKeepsPrefix(lru + beyond, t, keys);
    DropSplit(lru, beyond, keys);
  }

  lemma DropRepoKept(order: seq<KeyHash>, t: Table, keys: set<KeyHash>, repoHash: string)
    requires forall i :: 0 <= i < |order| ==> order[i] in t
    requires keys == RepoKeys(t, repoHash)
    ensures forall i :: 0 <= i < |Drop(order, keys)| ==> Drop(order, keys)[i] in t - keys
    ensures Slots(Drop(order, keys), t - keys) == OutsideRepo(Slots(order, t), repoHash)
  {
    DropRepoSlots(order, keys, t, repoHash);
    forall i | 0 <= i < |Drop(order, keys)| ensures Drop(order, keys)[i] !in keys {
      assert Drop(order, keys)[i] in Drop(order, keys);
    }
    SameSlots(Drop(order, keys), t, t - keys);
  }

  /** Dropping the keys of one repository. */
  lemma DropRepo(lru: seq<KeyHash>, beyond: seq<KeyHash>, entries: map<KeyHash, CacheEntry>, t: Table, clock: nat,
                 keys: set<KeyHash>, repoHash: string)
    requires Consistent(lru, beyond, entries, t, clock)
    requires keys == RepoKeys(t, repoHash)
    ensures t - keys == OtherRows(t, repoHash)
    ensures Consistent(Drop(lru, keys), Drop(beyond, keys), entries - keys, t - keys, clock)
    ensures Slots(Drop(lru, keys), t - keys) == OutsideRepo(Slots(lru, t), repoHash)
    ensures Slots(Drop(beyond, keys), t - keys) == OutsideRepo(Slots(beyond, t), repoHash)
  {
    OtherRowsRemain(t, repoHash);
    DropRepoConsistent(lru, beyond, entries, t, clock, keys);
    DropRepoKept(lru, t, keys, repoHash);
    DropRepoKept(beyond, t, keys, repoHash);
  }

  lemma SlotsSplit(a: seq<KeyHash>, b: seq<KeyHash>, t: Table)
    requires forall i :: 0 <= i < |a + b| ==> (a + b)[i] in t
    ensures forall i :: 0 <= i < |a| ==> a[i] in t
    ensures forall i :: 0 <= i < |b| ==> b[i] in t
    ensures Slots(a + b, t) == Slots(a, t) + Slots(b, t)
  {
    forall i | 0 <= i < |a| ensures a[i] in t { assert (a + b)[i] == a[i]; }
    forall i | 0 <= i < |b| ensures b[i] in t { assert (a + b)[|a| + i] == b[i]; }
  }

  lemma EvictedAreGone(was: seq<KeyHash>, lru: seq<KeyHash>, beyond: seq<KeyHash>, before: Table, after: Table)
    requires forall k :: k in before <==> k in was || k in beyond
    requires forall k :: k in after <==> k in lru || k in beyond
    requires NewestPrefix(was + beyond, before) && |lru| <= |was| && lru == was[..|lru|]
    ensures forall k :: k in after <==> k in before && (k in was ==> k in lru)
  {
    forall k | k in was ensures k !in beyond { PrefixApart(was, beyond, before, k); }
  }

  lemma ForgetOne(lru: seq<KeyHash>, entries: map<KeyHash, CacheEntry>, gone: set<KeyHash>, k: KeyHash)
    ensures Drop(Drop(lru, gone), {k}) == Drop(lru, gone + {k})
    ensures (entries - gone) - {k} == entries - (gone + {k})
  {
    DropTwice(lru, gone, {k});
  }

  lemma ForgetAll(lru: seq<KeyHash>, entries: map<KeyHash, CacheEntry>, gone: set<KeyHash>, keys: set<KeyHash>)
    requires gone <= keys && forall k :: k in entries && k in keys ==> k in gone
    requires forall k :: k in entries <==> k in lru
    ensures Drop(lru, gone) == Drop(lru, keys) && entries - gone == entries - keys
  {
    DropSame(lru, gone, keys);
  }

  class Cache {
    const maxSize: nat
    var entries: map<KeyHash, CacheEntry>
    var lru: seq<KeyHash>             // most recently used first
    ghost var beyond: seq<KeyHash>    // the rows on disk that were not loaded, most recently used first
    var table: Table                  // the rows on disk
    var clock: nat                    // later than every time stamp in the table
    var hits: nat
    var misses: nat

    ghost predicate Valid()
      reads this
    {
      0 < maxSize && |lru| <= maxSize && Consistent(lru, beyond, entries, table, clock)
    }

    /** The refined list: every slot is in memory and, with the same entry, on disk. */
    ghost function Contents(): Lru
      reads this
      requires Valid()
    {
      Slots(lru, table)
    }

    /** What is on disk only, because the cache was opened with less room than there were rows. */
    ghost function Beyond(): Lru
      reads this
      requires Valid()
    {
      Slots(beyond, table)
    }

    /** NewCache: opens the table left on disk and loads its newest rows. */
    constructor (t: Table, now: nat, requested: int)
      requires DistinctTimes(t) && forall k :: k in t ==> t[k].lastAccessed < now
      ensures Valid() && table == t && clock == now
      ensures maxSize == Room(requested)
      ensures |lru| == Least(maxSize, |t|) && (t == map[] ==> Contents() == Beyond() == [])
      ensures hits == misses == 0
    {
      maxSize := if requested <= 0 then 100 else requested;
      table, clock, hits, misses := t, now, 0, 0;
      entries, lru, beyond := map[], [], [];
      new;
      LoadFromDB();
      beyond := TheRest(lru, table);
    }

    method LoadFromDB()
      requires DistinctTimes(table) && lru == [] && entries == map[]
      modifies this`lru, this`entries
      ensures NewestPrefix(lru, table) && |lru| == if |table| <= maxSize then |table| else maxSize
      ensures Loaded(entries, lru, table)
    {
      var newest := SelectNewest(table, maxSize);
      Load(newest);
    }

    /** The row loop of `LoadFromDB`. */
    method Load(rows: seq<KeyHash>)
      requires lru == [] && entries == map[] && forall i :: 0 <= i < |rows| ==> rows[i] in table
      modifies this`lru, this`entries
      ensures lru == rows && Loaded(entries, lru, table)
    {
      for i := 0 to |rows|
        invariant lru == rows[..i] && Loaded(entries, lru, table)
      {
        LoadOne(entries, lru, table, rows[i]);
        lru := lru + [rows[i]];
        entries := entries[rows[i] := table[rows[i]].entry];
      }
    }

    method Get(key: CacheKey) returns (found: Option<CacheEntry>)
      requires Valid()
      modifies this
      ensures Valid()
      ensures Contents() == LruGet(old(Contents()), Render(key))
      ensures Beyond() == old(Beyond())
      ensures found == match Find(old(Contents()), Render(key)) case Some(slot) => Some(slot.entry) case None => None
      ensures table.Keys == old(table.Keys)
      ensures if found.Some? then hits == old(hits) + 1 && misses == old(misses)
              else hits == old(hits) && misses == old(misses) + 1
    {
      var k := Render(key);
      SlotsFind(lru, table, k);
      if k in entries {
        MoveToFront(k);
        hits := hits + 1;
        found := Some(entries[k]);
      } else {
        misses := misses + 1;
        found := None;
      }
    }

    /** The hit: the list element goes to the front, the row gets the current time. */
    method MoveToFront(k: KeyHash)
      requires Valid() && k in entries
      modifies this`lru, this`table, this`clock
      ensures Valid() && table.Keys == old(table.Keys)
      ensures Contents() == LruGet(old(Contents()), k) && Beyond() == old(Beyond())
    {
      var row := table[k].(lastAccessed := clock);
      TouchListed(lru, beyond, entries, table, clock, k);
      TouchListedSlots(lru, beyond, table, k, clock);
      lru := [k] + Drop(lru, {k});
      table, clock := table[k := row], clock + 1;
    }

    /** persistEntry: INSERT OR REPLACE with the current time. */
    method PersistEntry(k: KeyHash, key: CacheKey, entry: CacheEntry)
      modifies this`table, this`clock
      ensures table == old(table)[k := Row(key.repoHash, entry, old(clock))] && clock == old(clock) + 1
      ensures old(forall j :: j in table ==> table[j].lastAccessed < clock) ==> IsNewest(table, k)
    {
      table := table[k := Row(key.repoHash, entry, clock)];
      clock := clock + 1;
    }

    method EvictOne()
      requires Valid() && lru != []
      modifies this`lru, this`entries, this`table
      ensures Valid() && lru == old(lru)[..old(|lru|) - 1]
      ensures Contents() == old(Contents())[..old(|lru|) - 1] && Beyond() == old(Beyond())
      ensures table == old(table) - {old(lru)[old(|lru|) - 1]}
    {
      EvictLast(lru, beyond, entries, table, clock);
      var last := lru[|lru| - 1];
      lru, entries, table := lru[..|lru| - 1], entries - {last}, table - {last};
    }

    /** The eviction loop of `Put`: what leaves the list leaves the table. */
    method Evict()
      requires Valid()
      modifies this`lru, this`entries, this`table
      ensures Valid() && |lru| < maxSize
      ensures Contents() == if old(|lru|) < maxSize then old(Contents()) else old(Contents())[..maxSize - 1]
      ensures Beyond() == old(Beyond())
      ensures lru == old(lru)[..|lru|]
      ensures forall k :: k in table <==> k in old(table) && (k in old(lru) ==> k in lru)
    {
      while |lru| >= maxSize
        invariant Valid()
        invariant |lru| == old(|lru|) || (|lru| == maxSize - 1 && old(|lru|) == maxSize)
        invariant lru == old(lru)[..|lru|]
        invariant Contents() == old(Contents())[..|lru|] && Beyond() == old(Beyond())
      {
        EvictOne();
      }
      EvictedAreGone(old(lru), lru, beyond, old(table), table);
    }

    /** Stores an entry, evicting the least recently used one first if the cache is full. */
    method Put(key: CacheKey, entry: CacheEntry)
      requires Valid()
      modifies this
      ensures Valid()
      ensures Contents() == LruPut(old(Contents()), maxSize, Slot(Render(key), key.repoHash, entry))
      ensures Beyond() == Without(old(Beyond()), Render(key))
      ensures hits == old(hits) && misses == old(misses)
    {
      var k := Render(key);
      MakeRoom(k);
      PushFront(k, key, entry);
    }

    /** Unless the key is in memory already, the eviction loop runs first. */
    method MakeRoom(k: KeyHash)
      requires Valid()
      modifies this`lru, this`entries, this`table
      ensures Valid() && |Drop(lru, {k})| < maxSize
      ensures Without(Contents(), k) == LruKept(old(Contents()), maxSize, k) && Beyond() == old(Beyond())
    {
      SlotsFind(lru, table, k);
      if k in entries {
        ListedOnce(lru, beyond, table, k);
      } else {
        Evict();
        NotListed(lru, table, k);
      }
    }

    /** The element goes to the front of the list, new or moved, and is persisted. */
    method PushFront(k: KeyHash, key: CacheKey, entry: CacheEntry)
      requires Valid() && |Drop(lru, {k})| < maxSize
      modifies this`lru, this`beyond, this`entries, this`table, this`clock
      ensures Valid()
      ensures Contents() == [Slot(k, key.repoHash, entry)] + Without(old(Contents()), k)
      ensures Beyond() == Without(old(Beyond()), k)
    {
      ghost var row := Row(key.repoHash, entry, clock);
      Touch(lru, beyond, entries, table, clock, k, row);
      TouchSlots(lru, table, k, row);
      TouchBeyond(beyond, table, k, row);
      lru, beyond := [k] + Drop(lru, {k}), Drop(beyond, {k});
      entries := entries[k := entry];
      PersistEntry(k, key, entry);
    }

    /** The loop of `Invalidate` over the in-memory entries. */
    method Forget(keys: set<KeyHash>)
      requires forall k :: k in entries <==> k in lru
      modifies this`lru, this`entries
      ensures lru == Drop(old(lru), keys) && entries == old(entries) - keys
    {
      var pending := entries.Keys;
      DropNothing(lru, {});
      ghost var gone: set<KeyHash> := {};
      while pending != {}
        invariant pending <= old(entries).Keys
        invariant gone <= keys
        invariant forall k :: k in old(entries) && k in keys ==> k in gone || k in pending
        invariant lru == Drop(old(lru), gone)
        invariant entries == old(entries) - gone
      {
        var k :| k in pending;
        pending := pending - {k};
        if k in keys {
          ForgetOne(old(lru), old(entries), gone, k);
          lru := Drop(lru, {k});
          entries := entries - {k};
          gone := gone + {k};
        }
      }
      ForgetAll(old(lru), old(entries), gone, keys);
    }

    /** Removes every entry of one repository from memory and from disk. */
    method Invalidate(repoHash: string)
      requires Valid()
      modifies this`lru, this`beyond, this`entries, this`table
      ensures Valid()
      ensures Contents() == OutsideRepo(old(Contents()), repoHash)
      ensures Beyond() == OutsideRepo(old(Beyond()), repoHash)
      ensures table == OtherRows(old(table), repoHash)
    {
      var repoKeys := RepoKeys(table, repoHash);
      Forget(repoKeys);
      DropRepo(old(lru), beyond, old(entries), table, clock, repoKeys, repoHash);
      table, beyond := table - repoKeys, Drop(beyond, repoKeys);
    }
  }

  /** Closing the cache and opening it again, possibly with another capacity: the rows are the same in the same
      order, and as many of the newest as there is room for are in the list. */
  method Restart(c: Cache, requested: int) returns (r: Cache)
    requires c.Valid()
    ensures fresh(r) && r.Valid() && r.table == c.table
    ensures r.maxSize == Room(requested)
    ensures r.Contents() + r.Beyond() == c.Contents() + c.Beyond()
    ensures |r.Contents()| == Least(r.maxSize, |c.Contents() + c.Beyond()|)
    ensures r.maxSize <= |c.Contents()| ==> r.Contents() == c.Contents()[..r.maxSize]
    ensures |c.Contents()| <= r.maxSize ==> c.Contents() <= r.Contents()
    ensures |c.Contents()| <= r.maxSize && c.Beyond() == [] ==> r.Contents() == c.Contents() && r.Beyond() == []
  {
    r := new Cache(c.table, c.clock, requested);
    WholePrefixSize(c.lru + c.beyond, c.table);
    WholePrefixSize(r.lru + r.beyond, c.table);
    NewestPrefixUnique(r.lru + r.beyond, c.lru + c.beyond, c.table);
    SlotsSplit(r.lru, r.beyond, c.table);
    SlotsSplit(c.lru, c.beyond, c.table);
    SamePartsOfWhole(r.Contents(), r.Beyond(), c.Contents(), c.Beyond());
  }

  lemma SamePartsOfWhole(a: Lru, b: Lru, c: Lru, d: Lru)
    requires a + b == c + d
    ensures |a| <= |c| ==> a == c[..|a|]
    ensures |c| <= |a| ==> c <= a
    ensures |a| == |c| ==> a == c && b == d
  {
    assert |a| <= |c| ==> a == (a + b)[..|a|] == (c + d)[..|a|];
    assert |c| <= |a| ==> c == (c + d)[..|c|] == (a + b)[..|c|];
    assert |a| == |c| ==> b == (a + b)[|a|..] && d == (c + d)[|c|..];
  }

  // ----- Rendered keys -----

  lemma NoBarInNumber(n: int)
    ensures '|' !in Itoa(n)
  {
    DigitsValue(if n < 0 then -n else n);
  }

  /** Text up to the first bar determines both sides of it ... */
  lemma SplitAtFirstBar(a: string, x: string, b: string, y: string)
    requires '|' !in a && '|' !in b && a + "|" + x == b + "|" + y
    ensures a == b && x == y
  {
    var s := a + "|" + x;
    assert s[|a|] == '|' && s[|b|] == '|';
    assert forall i :: 0 <= i < |a| ==> s[i] == a[i];
    assert forall i :: 0 <= i < |b| ==> s[i] == b[i];
    assert s[..|a|] == a && s[..|b|] == b && s[|a| + 1..] == x && s[|b| + 1..] == y;
  }

  /** ... and so does text after the last one. */
  lemma SplitAtLastBar(x: string, a: string, y: string, b: string)
    requires '|' !in a && '|' !in b && x + "|" + a == y + "|" + b
    ensures a == b && x == y
  {
    var s := x + "|" + a;
    assert s[|x|] == '|' && s[|y|] == '|';
    assert forall i :: |x| < i < |s| ==> s[i] == a[i - |x| - 1];
    assert forall i :: |y| < i < |s| ==> s[i] == b[i - |y| - 1];
    assert s[..|x|] == x && s[..|y|] == y && s[|x| + 1..] == a && s[|y| + 1..] == b;
  }

  /** Two keys share a cache line only if they are equal, provided only the query may hold a bar. */
  lemma RenderInjective(k: CacheKey, l: CacheKey)
    requires '|' !in k.repoHash && '|' !in k.retriever && '|' !in k.contextLevel
    requires '|' !in l.repoHash && '|' !in l.retriever && '|' !in l.contextLevel
    requires Render(k) == Render(l)
    ensures k == l
  {
    NoBarInNumber(k.tokenBudget);
    NoBarInNumber(l.tokenBudget);
    var k3, l3 := k.repoHash + "|" + k.query + "|" + k.retriever, l.repoHash + "|" + l.query + "|" + l.retriever;
    SplitAtLastBar(k3 + "|" + k.contextLevel, Itoa(k.tokenBudget), l3 + "|" + l.contextLevel, Itoa(l.tokenBudget));
    ItoaInjective(k.tokenBudget, l.tokenBudget);
    SplitAtLastBar(k3, k.contextLevel, l3, l.contextLevel);
    SplitAtLastBar(k.repoHash + "|" + k.query, k.retriever, l.repoHash + "|" + l.query, l.retriever);
    SplitAtFirstBar(k.repoHash, k.query, l.repoHash, l.query);
  }

  // ----- Keys that share a cache line -----

  predicate HasBar(k: CacheKey) {
    '|' in k.repoHash || '|' in k.query || '|' in k.retriever || '|' in k.contextLevel
  }

  function Bars(s: string): nat {
    if s == "" then 0 else (if s[0] == '|' then 1 else 0) + Bars(s[1..])
  }

  lemma {:induction false} BarsAppend(a: string, b: string)
    ensures Bars(a + b) == Bars(a) + Bars(b)
  {
    if a == "" {
      assert a + b == b;
    } else {
      assert (a + b)[1..] == a[1..] + b;
      BarsAppend(a[1..], b);
    }
  }

  lemma {:induction false} NoBars(s: string)
    ensures Bars(s) == 0 <==> '|' !in s
  {
    if s != "" {
      NoBars(s[1..]);
    }
  }

  lemma BarsJoined(a: string, b: string)
    ensures Bars(a + "|" + b) == Bars(a) + 1 + Bars(b)
  {
    BarsAppend(a + "|", b);
    BarsAppend(a, "|");
    assert "|"[1..] == "";
  }

  lemma BarsRendered(k: CacheKey)
    ensures Bars(Render(k)) == 4 + Bars(k.repoHash) + Bars(k.query) + Bars(k.retriever) + Bars(k.contextLevel)
  {
    NoBarInNumber(k.tokenBudget);
    NoBars(Itoa(k.tokenBudget));
    var k2 := k.repoHash + "|" + k.query;
    BarsJoined(k.repoHash, k.query);
    BarsJoined(k2, k.retriever);
    BarsJoined(k2 + "|" + k.retriever, k.contextLevel);
    BarsJoined(k2 + "|" + k.retriever + "|" + k.contextLevel, Itoa(k.tokenBudget));
  }

  /** A key without a bar has its line to itself. */
  lemma NoBarNoCollision(k: CacheKey, l: CacheKey)
    requires !HasBar(k) && Render(k) == Render(l)
    ensures k == l
  {
    BarsRendered(k);
    BarsRendered(l);
    NoBars(k.repoHash);
    NoBars(k.query);
    NoBars(k.retriever);
    NoBars(k.contextLevel);
    NoBars(l.repoHash);
    NoBars(l.retriever);
    NoBars(l.contextLevel);
    RenderInjective(k, l);
  }

  lemma SplitAtBar(s: string) returns (a: string, b: string)
    requires '|' in s
    ensures s == a + "|" + b
  {
    var i :| 0 <= i < |s| && s[i] == '|';
    a, b := s[..i], s[i + 1..];
  }

  /** The bar can stand on either side of a field boundary. */
  lemma Regroup(p: string, a: string, b: string)
    ensures p + "|" + (a + "|" + b) == (p + "|" + a) + "|" + b
  {
  }

  /** A key with a bar shares its line with another key: the field boundary moves to the bar. */
  lemma BarCollides(k: CacheKey) returns (l: CacheKey)
    requires HasBar(k)
    ensures l != k && Render(l) == Render(k)
  {
    if '|' in k.repoHash {
      var a, b := SplitAtBar(k.repoHash);
      l := k.(repoHash := a, query := b + "|" + k.query);
      Regroup(a, b, k.query);
      assert |l.repoHash| < |k.repoHash|;
    } else if '|' in k.query {
      var a, b := SplitAtBar(k.query);
      l := k.(repoHash := k.repoHash + "|" + a, query := b);
      Regroup(k.repoHash, a, b);
      assert |l.query| < |k.query|;
    } else if '|' in k.retriever {
      var a, b := SplitAtBar(k.retriever);
      l := k.(query := k.query + "|" + a, retriever := b);
      Regroup(k.repoHash, k.query, a);
      Regroup(k.repoHash + "|" + k.query, a, b);
      assert |l.retriever| < |k.retriever|;
    } else {
      var a, b := SplitAtBar(k.contextLevel);
      l := k.(retriever := k.retriever + "|" + a, contextLevel := b);
      Regroup(k.repoHash + "|" + k.query, k.retriever, a);
      Regroup(k.repoHash + "|" + k.query + "|" + k.retriever, a, b);
      assert |l.contextLevel| < |k.contextLevel|;
    }
  }

  /** A key shares its cache line with another one exactly when one of its texts holds a bar. */
  lemma RenderCollidesIff(k: CacheKey)
    ensures (exists l :: l != k && Render(l) == Render(k)) <==> HasBar(k)
  {
    if HasBar(k) {
      var l := BarCollides(k);
    }
    if l :| l != k && Render(l) == Render(k) && !HasBar(k) {
      NoBarNoCollision(k, l);
    }
  }
}
