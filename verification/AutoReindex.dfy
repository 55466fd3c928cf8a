/** What the file watcher does with a batch: an index run, and the result cache cleared if the run reports work. */
module AutoReindex {
  import opened Wrappers
  import opened Disk
  import opened SymbolDb
  import opened Indexer
  import opened IndexHistory
  import opened Cache
  import opened CacheHistory
  import opened Sets

  /** The run re-parses a file or sweeps one. */
  predicate HasWork(files: map<Path, Hash>, disk: Tree) {
    Unchanged(disk, files) != Seen(disk) || Missing(files, disk) != {}
  }

  /** A row swept before, of a file that is still gone. */
  ghost predicate OldTombstone(files: map<Path, Hash>, disk: Tree) {
    exists p :: p in files && files[p] == Cleared && p !in Seen(disk)
  }

  lemma WorkIsCounted(files: map<Path, Hash>, disk: Tree)
    ensures HasWork(files, disk) <==> |Seen(disk)| - |Unchanged(disk, files)| > 0 || |Missing(files, disk)| > 0
  {
    SubsetSize(Unchanged(disk, files), Seen(disk));
    if |Seen(disk)| == |Unchanged(disk, files)| {
      SameSet(Unchanged(disk, files), Seen(disk));
    }
  }

  /** Without work the tables stay as they are. */
  lemma NoWorkIsIdle(t: Tables, cfg: IndexConfig, parse: Parser, disk: Tree)
    requires !HasWork(t.files, disk)
    ensures RunOf(t, t, cfg, parse, disk)
  {
    forall f ensures View(t, f) == FileStep(View(t, f), cfg, parse, f, Source(disk, f)) {
      assert f in Seen(disk) <==> f in Unchanged(disk, t.files);
      assert f !in Missing(t.files, disk);
    }
  }

  /** A run that leaves the tables as they are has work exactly when there is an old tombstone. */
  lemma IdleHasWorkIff(t: Tables, cfg: IndexConfig, parse: Parser, disk: Tree)
    requires RunOf(t, t, cfg, parse, disk)
    ensures HasWork(t.files, disk) <==> OldTombstone(t.files, disk)
  {
    forall f
      ensures f in Seen(disk) ==> f in Unchanged(disk, t.files)
      ensures f in Missing(t.files, disk) ==> t.files[f] == Cleared
    {
      assert View(t, f) == FileStep(View(t, f), cfg, parse, f, Source(disk, f));
    }
    assert Unchanged(disk, t.files) == Seen(disk);
    if OldTombstone(t.files, disk) {
      var p :| p in t.files && t.files[p] == Cleared && p !in Seen(disk);
      assert p in Missing(t.files, disk);
    }
  }

  /** The callback after it has taken its batch. An index that changed is never left with old results in the cache;
      but when nothing changed, the cache is cleared all the same exactly when there is an old tombstone. */
  method Reindex(indexer: SharedIndexer, disk: Tree, walk: seq<Path>, cache: Cache, repoHash: string)
    returns (result: IndexResult, cleared: bool)
    requires Walks(walk, disk) && WellKeyed(indexer.db.symbols) && cache.Valid()
    modifies indexer.db, cache
    ensures WellKeyed(indexer.db.symbols) && indexer.db.files == FilesAfterRun(old(indexer.db.files), disk) && cache.Valid()
    ensures cleared <==> HasWork(old(indexer.db.files), disk)
    ensures !cleared ==> indexer.db.Content() == old(indexer.db.Content())
    ensures indexer.db.Content() == old(indexer.db.Content()) ==> (cleared <==> OldTombstone(old(indexer.db.files), disk))
    ensures cache.Contents() == if cleared then OutsideRepo(old(cache.Contents()), repoHash) else old(cache.Contents())
  {
    ghost var before := indexer.db.Content();
    result := indexer.Index(disk, walk);
    WorkIsCounted(before.files, disk);
    cleared := false;
    if result.changed > 0 || result.deleted > 0 {
      cache.Invalidate(repoHash);
      cleared := true;
    } else {
      NoWorkIsIdle(before, indexer.config, indexer.parse, disk);
    }
    if indexer.db.Content() == before {
      IdleHasWorkIff(before, indexer.config, indexer.parse, disk);
    }
  }

  lemma KeptIsWithout(s: Lru, capacity: nat, k: KeyHash)
    requires capacity > 0
    ensures forall x :: x in LruKept(s, capacity, k) ==> x.hash != k
  {
    WithoutMembers(s, k);
    assert forall x :: x in LruKept(s, capacity, k) ==> x in s;
  }

  lemma JustPutIsOutside(s: Lru, capacity: nat, slot: Slot)
    requires capacity > 0
    ensures Find(OutsideRepo(LruPut(s, capacity, slot), slot.repoHash), slot.hash) == None
  {
    var kept := LruKept(s, capacity, slot.hash);
    KeptIsWithout(s, capacity, slot.hash);
    OutsideMembers(kept, slot.repoHash);
    assert ([slot] + kept)[1..] == kept;
    assert OutsideRepo([slot] + kept, slot.repoHash) == OutsideRepo(kept, slot.repoHash);
  }

  /** With one old tombstone the watcher forgets whatever was learned about the repository since the last re-index,
      and since the tombstone stays, so does every re-index after it, until the file is back. */
  method LearnAndReindex(indexer: SharedIndexer, disk: Tree, walk: seq<Path>, cache: Cache, key: CacheKey, entry: CacheEntry)
    returns (result: IndexResult)
    requires Walks(walk, disk) && WellKeyed(indexer.db.symbols) && cache.Valid()
    requires OldTombstone(indexer.db.files, disk)
    modifies indexer.db, cache
    ensures WellKeyed(indexer.db.symbols) && cache.Valid()
    ensures OldTombstone(indexer.db.files, disk) && Find(cache.Contents(), Render(key)) == None
  {
    JustPutIsOutside(cache.Contents(), cache.maxSize, Slot(Render(key), key.repoHash, entry));
    cache.Put(key, entry);
    ghost var p :| p in indexer.db.files && indexer.db.files[p] == Cleared && p !in Seen(disk);
    assert p in Missing(indexer.db.files, disk);
    var cleared;
    result, cleared := Reindex(indexer, disk, walk, cache, key.repoHash);
    assert p in indexer.db.files && indexer.db.files[p] == Cleared;
  }
}
