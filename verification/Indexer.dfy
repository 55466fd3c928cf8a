/** The incremental indexer: skip what is unchanged, re-parse what is new or changed,
    sweep what is gone. */
module Indexer {
  import opened Wrappers
  import opened CallEdges
  import opened Disk
  import opened SymbolDb
  import opened Sets

  datatype IndexConfig = IndexConfig(parseSymbols: bool, parseReferences: bool, parseCalls: bool)

  datatype IndexResult = IndexResult(changed: nat, skipped: nat, deleted: nat, total: nat)

  /** What the three parse stages find in one file. */
  datatype Parsed = Parsed(symbols: seq<Symbol>, refs: seq<Reference>, calls: seq<CallEdge>)

  type Parser = (Path, string) -> Parsed

  /** The files a run looks at. */
  function Seen(disk: Tree): set<Path> {
    set p | p in disk && Source(disk, p).Some?
  }

  /** The files a run skips because the stored hash is that of the content on disk. */
  function Unchanged(disk: Tree, files: map<Path, Hash>): set<Path> {
    set p | p in disk && Source(disk, p).Some? && p in files && files[p] == Digest(disk[p])
  }

  /** The tracked files a run does not see: it sweeps and counts every one of them. */
  function Missing(files: map<Path, Hash>, disk: Tree): set<Path> {
    files.Keys - Seen(disk)
  }

  /** Those of them that were still there when a run last looked. */
  function Disappeared(files: map<Path, Hash>, disk: Tree): set<Path> {
    set p | p in files && p !in Seen(disk) && files[p] != Cleared
  }

  /** The number of files swept is the number that disappeared exactly when each file swept before is back. */
  lemma DeletedIsDisappearedIff(files: map<Path, Hash>, disk: Tree)
    ensures Disappeared(files, disk) <= Missing(files, disk)
    ensures |Missing(files, disk)| == |Disappeared(files, disk)|
      <==> forall p :: p in files && files[p] == Cleared ==> p in Seen(disk)
  {
    var gone, missing := Disappeared(files, disk), Missing(files, disk);
    assert forall p :: p in missing - gone <==> p in files && p !in Seen(disk) && files[p] == Cleared;
    if |missing| == |gone| {
      SameSet(gone, missing);
    }
    if forall p :: p in files && files[p] == Cleared ==> p in Seen(disk) {
      assert gone == missing;
    }
  }

  // ----- What a run means for a single file -----

  function ParsedSymbols(parse: Parser, f: Path, content: string): SymbolTable {
    Upsert(map[], Stamp(f, parse(f, content).symbols))
  }

  function Reparsed(v: FileView, cfg: IndexConfig, parse: Parser, f: Path, content: string): FileView {
    var p := parse(f, content);
    FileView(Some(Digest(content)),
             if cfg.parseSymbols then ParsedSymbols(parse, f, content) else v.symbols,
             if cfg.parseReferences && p.refs != [] then p.refs else v.refs,
             if cfg.parseCalls && p.calls != [] then p.calls else v.calls)
  }

  /** The effect of one run on file f, whose readable content is `source`. */
  function FileStep(v: FileView, cfg: IndexConfig, parse: Parser, f: Path, source: Option<string>): FileView {
    match source
    case Some(content) => if v.hash == Some(Digest(content)) then v else Reparsed(v, cfg, parse, f, content)
    case None => if v.hash.Some? then FileView(Some(Cleared), map[], [], []) else v
  }

  // ----- One table update at a time -----

  function Visited(t: Tables, cfg: IndexConfig, parse: Parser, f: Path, content: string): Tables {
    var p := parse(f, content);
    Tables(if cfg.parseSymbols then Upsert(DropSymbols(t.symbols, f), Stamp(f, p.symbols)) else t.symbols,
           t.files[f := Digest(content)],
           if cfg.parseReferences && p.refs != [] then DropRows(t.refs, f) + Stamp(f, p.refs) else t.refs,
           if cfg.parseCalls && p.calls != [] then DropRows(t.calls, f) + Stamp(f, p.calls) else t.calls)
  }

  lemma VisitedRows<T>(rows: seq<Filed<T>>, f: Path, xs: seq<T>, g: Path)
    ensures RowsOf(DropRows(rows, f) + Stamp(f, xs), g) == if g == f then xs else RowsOf(rows, g)
  {
    RowsOfAppend(DropRows(rows, f), f, xs, g);
    RowsOfDrop(rows, f, g);
  }

  lemma VisitedSymbols(m: SymbolTable, f: Path, xs: seq<Symbol>, g: Path)
    requires WellKeyed(m)
    ensures WellKeyed(Upsert(DropSymbols(m, f), Stamp(f, xs)))
    ensures SymbolsOf(Upsert(DropSymbols(m, f), Stamp(f, xs)), g)
         == if g == f then Upsert(map[], Stamp(f, xs)) else SymbolsOf(m, g)
  {
    var dropped := DropSymbols(m, f);
    assert SymbolsOf(dropped, g) == if g == f then map[] else SymbolsOf(m, g);
    UpsertView(dropped, f, Stamp(f, xs), g);
  }

  lemma VisitedView(t: Tables, cfg: IndexConfig, parse: Parser, f: Path, content: string, g: Path)
    requires WellKeyed(t.symbols)
    ensures WellKeyed(Visited(t, cfg, parse, f, content).symbols)
    ensures View(Visited(t, cfg, parse, f, content), g)
         == if g == f then Reparsed(View(t, f), cfg, parse, f, content) else View(t, g)
  {
    var p := parse(f, content);
    VisitedSymbols(t.symbols, f, p.symbols, g);
    VisitedRows(t.refs, f, p.refs, g);
    VisitedRows(t.calls, f, p.calls, g);
  }

  function Swept(t: Tables, f: Path): Tables {
    Tables(DropSymbols(t.symbols, f), t.files[f := Cleared], DropRows(t.refs, f), DropRows(t.calls, f))
  }

  lemma SweptView(t: Tables, f: Path, g: Path)
    requires WellKeyed(t.symbols)
    ensures WellKeyed(Swept(t, f).symbols)
    ensures View(Swept(t, f), g) == if g == f then FileView(Some(Cleared), map[], [], []) else View(t, g)
  {
    assert SymbolsOf(DropSymbols(t.symbols, f), g) == if g == f then map[] else SymbolsOf(t.symbols, g);
    RowsOfDrop(t.refs, f, g);
    RowsOfDrop(t.calls, f, g);
  }

  // ----- The walk and the sweep as folds over those updates -----

  datatype Outcome = Ignored | Skipped | Changed

  /** What the walk does with one path, given the hashes stored before the run. */
  function Decide(existing: map<Path, Hash>, disk: Tree, f: Path): Outcome {
    match Source(disk, f)
    case None => Ignored
    case Some(content) => if f in existing && existing[f] == Digest(content) then Skipped else Changed
  }

  function VisitStep(t: Tables, existing: map<Path, Hash>, cfg: IndexConfig, parse: Parser, disk: Tree, f: Path): Tables {
    if Decide(existing, disk, f).Changed? then Visited(t, cfg, parse, f, disk[f]) else t
  }

  function WalkTables(t: Tables, cfg: IndexConfig, parse: Parser, disk: Tree, walk: seq<Path>): Tables {
    if walk == [] then t
    else VisitStep(WalkTables(t, cfg, parse, disk, walk[..|walk| - 1]), t.files, cfg, parse, disk, walk[|walk| - 1])
  }

  function SeenAmong(disk: Tree, walk: seq<Path>): set<Path> {
    if walk == [] then {}
    else
      var rest := SeenAmong(disk, walk[..|walk| - 1]);
      if Source(disk, walk[|walk| - 1]).Some? then rest + {walk[|walk| - 1]} else rest
  }

  function SkippedAmong(existing: map<Path, Hash>, disk: Tree, walk: seq<Path>): set<Path> {
    if walk == [] then {}
    else
      var rest := SkippedAmong(existing, disk, walk[..|walk| - 1]);
      if Decide(existing, disk, walk[|walk| - 1]).Skipped? then rest + {walk[|walk| - 1]} else rest
  }

  function Tally(existing: map<Path, Hash>, disk: Tree, walk: seq<Path>): IndexResult {
    if walk == [] then IndexResult(0, 0, 0, 0)
    else
      var rest := Tally(existing, disk, walk[..|walk| - 1]);
      match Decide(existing, disk, walk[|walk| - 1])
      case Ignored => rest
      case Skipped => rest.(total := rest.total + 1, skipped := rest.skipped + 1)
      case Changed => rest.(total := rest.total + 1, changed := rest.changed + 1)
  }

  lemma {:induction false} AmongMeaning(existing: map<Path, Hash>, disk: Tree, walk: seq<Path>, p: Path)
    ensures p in SeenAmong(disk, walk) <==> p in walk && Source(disk, p).Some?
    ensures p in SkippedAmong(existing, disk, walk) <==> p in walk && Decide(existing, disk, p).Skipped?
  {
    if walk != [] {
      AmongMeaning(existing, disk, walk[..|walk| - 1], p);
      assert walk == walk[..|walk| - 1] + [walk[|walk| - 1]];
    }
  }

  /** Counting along a walk counts sets of files. */
  lemma {:induction false} TallyAmong(existing: map<Path, Hash>, disk: Tree, walk: seq<Path>)
    requires forall i, j :: 0 <= i < j < |walk| ==> walk[i] != walk[j]
    ensures var r := Tally(existing, disk, walk);
            r.total == |SeenAmong(disk, walk)| && r.skipped == |SkippedAmong(existing, disk, walk)| &&
            r.changed == r.total - r.skipped && r.deleted == 0
  {
    if walk != [] {
      var rest, f := walk[..|walk| - 1], walk[|walk| - 1];
      assert f !in rest;
      TallyAmong(existing, disk, rest);
      AmongMeaning(existing, disk, rest, f);
    }
  }

  lemma TallyMeaning(existing: map<Path, Hash>, disk: Tree, walk: seq<Path>)
    requires Walks(walk, disk)
    ensures SeenAmong(disk, walk) == Seen(disk)
    ensures var r := Tally(existing, disk, walk);
            r.total == |Seen(disk)| && r.skipped == |Unchanged(disk, existing)| &&
            r.changed == r.total - r.skipped && r.deleted == 0
  {
    TallyAmong(existing, disk, walk);
    forall p { AmongMeaning(existing, disk, walk, p); }
    assert SeenAmong(disk, walk) == Seen(disk);
    assert SkippedAmong(existing, disk, walk) == Unchanged(disk, existing);
  }

  lemma WalkOneMore(t: Tables, cfg: IndexConfig, parse: Parser, disk: Tree, walk: seq<Path>, i: nat)
    requires i < |walk|
    ensures var f := walk[i];
      && WalkTables(t, cfg, parse, disk, walk[..i + 1])
         == VisitStep(WalkTables(t, cfg, parse, disk, walk[..i]), t.files, cfg, parse, disk, f)
      && SeenAmong(disk, walk[..i + 1]) == SeenAmong(disk, walk[..i]) + (if Source(disk, f).Some? then {f} else {})
      && var rest, r := Tally(t.files, disk, walk[..i]), Tally(t.files, disk, walk[..i + 1]);
         match Decide(t.files, disk, f)
         case Ignored => r == rest
         case Skipped => r == rest.(total := rest.total + 1, skipped := rest.skipped + 1)
         case Changed => r == rest.(total := rest.total + 1, changed := rest.changed + 1)
  {
    assert walk[..i + 1][..i] == walk[..i];
  }

  lemma {:induction false} WalkTablesView(t: Tables, cfg: IndexConfig, parse: Parser, disk: Tree, walk: seq<Path>, g: Path)
    requires WellKeyed(t.symbols)
    requires forall i, j :: 0 <= i < j < |walk| ==> walk[i] != walk[j]
    ensures WellKeyed(WalkTables(t, cfg, parse, disk, walk).symbols)
    ensures View(WalkTables(t, cfg, parse, disk, walk), g)
         == if g in walk && Source(disk, g).Some? then FileStep(View(t, g), cfg, parse, g, Source(disk, g)) else View(t, g)
  {
    if walk != [] {
      var f, rest := walk[|walk| - 1], walk[..|walk| - 1];
      var before := WalkTables(t, cfg, parse, disk, rest);
      WalkTablesView(t, cfg, parse, disk, rest, g);
      assert walk == rest + [f];
      if Source(disk, f).Some? {
        VisitedView(before, cfg, parse, f, disk[f], g);
      }
    }
  }

  function SweepTables(t: Tables, gone: seq<Path>): Tables {
    if gone == [] then t else Swept(SweepTables(t, gone[..|gone| - 1]), gone[|gone| - 1])
  }

  lemma SweepOneMore(t: Tables, gone: seq<Path>, f: Path)
    ensures SweepTables(t, gone + [f]) == Swept(SweepTables(t, gone), f)
  {
    assert (gone + [f])[..|gone|] == gone;
  }

  lemma {:induction false} SweepTablesView(t: Tables, gone: seq<Path>, g: Path)
    requires WellKeyed(t.symbols)
    ensures WellKeyed(SweepTables(t, gone).symbols)
    ensures View(SweepTables(t, gone), g) == if g in gone then FileView(Some(Cleared), map[], [], []) else View(t, g)
  {
    if gone != [] {
      var f, rest := gone[|gone| - 1], gone[..|gone| - 1];
      SweepTablesView(t, rest, g);
      SweptView(SweepTables(t, rest), f, g);
      assert gone == rest + [f];
    }
  }

  /** Tables `t'` are what a run over `disk` makes of tables `t`. */
  ghost predicate RunOf(t: Tables, t': Tables, cfg: IndexConfig, parse: Parser, disk: Tree) {
    forall f :: View(t', f) == FileStep(View(t, f), cfg, parse, f, Source(disk, f))
  }

  /** The tracking table a run leaves: every file seen has its hash, every other row is cleared. */
  function FilesAfterRun(files: map<Path, Hash>, disk: Tree): map<Path, Hash> {
    map p | p in files.Keys + Seen(disk) :: if p in Seen(disk) then Digest(disk[p]) else Cleared
  }

  lemma RunFiles(t: Tables, t': Tables, cfg: IndexConfig, parse: Parser, disk: Tree)
    requires RunOf(t, t', cfg, parse, disk)
    ensures t'.files == FilesAfterRun(t.files, disk)
  {
    var files := FilesAfterRun(t.files, disk);
    forall f ensures f in t'.files <==> f in files ensures f in files ==> t'.files[f] == files[f] {
      assert View(t', f) == FileStep(View(t, f), cfg, parse, f, Source(disk, f));
    }
  }

  /** Walk, then sweep: every file ends up as FileStep says, whatever the two orders are. */
  lemma RunViews(t: Tables, cfg: IndexConfig, parse: Parser, disk: Tree, walk: seq<Path>, gone: seq<Path>)
    requires WellKeyed(t.symbols) && Walks(walk, disk)
    requires forall f :: f in gone <==> f in t.files && f !in Seen(disk)
    ensures WellKeyed(SweepTables(WalkTables(t, cfg, parse, disk, walk), gone).symbols)
    ensures RunOf(t, SweepTables(WalkTables(t, cfg, parse, disk, walk), gone), cfg, parse, disk)
  {
    var walked := WalkTables(t, cfg, parse, disk, walk);
    WalkTablesView(t, cfg, parse, disk, walk, Path([], ""));
    SweepTablesView(walked, gone, Path([], ""));
    forall f
      ensures View(SweepTables(walked, gone), f) == FileStep(View(t, f), cfg, parse, f, Source(disk, f))
    {
      WalkTablesView(t, cfg, parse, disk, walk, f);
      SweepTablesView(walked, gone, f);
    }
  }

  lemma {:induction false} DropNothing<T>(rows: seq<Filed<T>>, f: Path)
    requires RowsOf(rows, f) == []
    ensures DropRows(rows, f) == rows
  {
    if rows != [] {
      DropNothing(rows[1..], f);
    }
  }

  lemma {:induction false} IdleWalk(t: Tables, cfg: IndexConfig, parse: Parser, disk: Tree, walk: seq<Path>)
    requires forall f :: Source(disk, f).Some? ==> View(t, f).hash == Some(Digest(Source(disk, f).value))
    ensures WalkTables(t, cfg, parse, disk, walk) == t
  {
    if walk != [] {
      IdleWalk(t, cfg, parse, disk, walk[..|walk| - 1]);
      var f := walk[|walk| - 1];
      assert Source(disk, f).Some? ==> View(t, f).hash == Some(Digest(Source(disk, f).value));
    }
  }

  lemma {:induction false} IdleSweep(t: Tables, gone: seq<Path>)
    requires forall f :: f in gone ==> View(t, f) == FileView(Some(Cleared), map[], [], [])
    ensures SweepTables(t, gone) == t
  {
    if gone != [] {
      var f := gone[|gone| - 1];
      IdleSweep(t, gone[..|gone| - 1]);
      assert f in gone;
      DropNothing(t.refs, f);
      DropNothing(t.calls, f);
      assert View(t, f).symbols == SymbolsOf(t.symbols, f);
      forall id | id in t.symbols ensures t.symbols[id].file != f {
        assert id in SymbolsOf(t.symbols, f) <==> t.symbols[id].file == f;
      }
      assert DropSymbols(t.symbols, f) == t.symbols;
      assert t.files[f := Cleared] == t.files;
    }
  }

  /** A run that changes no file's rows changes no table at all, row order included. */
  lemma IdleRun(t: Tables, cfg: IndexConfig, parse: Parser, disk: Tree, walk: seq<Path>, gone: seq<Path>)
    requires forall f :: f in gone <==> f in t.files && f !in Seen(disk)
    requires forall f :: FileStep(View(t, f), cfg, parse, f, Source(disk, f)) == View(t, f)
    ensures SweepTables(WalkTables(t, cfg, parse, disk, walk), gone) == t
  {
    forall f ensures Source(disk, f).Some? ==> View(t, f).hash == Some(Digest(Source(disk, f).value)) {
      assert FileStep(View(t, f), cfg, parse, f, Source(disk, f)) == View(t, f);
    }
    IdleWalk(t, cfg, parse, disk, walk);
    forall f | f in gone ensures View(t, f) == FileView(Some(Cleared), map[], [], []) {
      assert FileStep(View(t, f), cfg, parse, f, Source(disk, f)) == View(t, f);
    }
    IdleSweep(t, gone);
  }

  class SharedIndexer {
    const db: SymbolDB
    const config: IndexConfig
    const parse: Parser

    constructor (db: SymbolDB, config: IndexConfig, parse: Parser)
      ensures this.db == db && this.config == config && this.parse == parse
    {
      this.db, this.config, this.parse := db, config, parse;
    }

    /** Re-parses one file and stores what the enabled stages found. */
    method Reindex(f: Path, content: string)
      modifies db
      ensures db.version == old(db.version)
      ensures db.Content() == Visited(old(db.Content()), config, parse, f, content)
    {
      if config.parseSymbols {
        var symbols := parse(f, content).symbols;
        db.ClearFile(f);
        if |symbols| > 0 {
          db.StoreSymbols(Stamp(f, symbols));
        }
      }
      if config.parseReferences {
        var refs := parse(f, content).refs;
        if |refs| > 0 {
          db.ClearFileReferences(f);
          db.StoreReferences(Stamp(f, refs));
        }
      }
      if config.parseCalls {
        var calls := parse(f, content).calls;
        if |calls| > 0 {
          db.ClearFileCallEdges(f);
          db.StoreCallEdges(Stamp(f, calls));
        }
      }
      db.MarkFileIndexed(f, Digest(content));
    }

    /** Clears everything stored for a file that is gone and leaves a row without a hash. */
    method Sweep(f: Path)
      modifies db
      ensures db.version == old(db.version)
      ensures db.Content() == Swept(old(db.Content()), f)
    {
      db.ClearFile(f);
      db.ClearFileReferences(f);
      db.ClearFileCallEdges(f);
      db.MarkFileIndexed(f, Cleared);
    }

    /** The walk closure of `Index`: skip what has its stored hash, re-parse the rest. */
    method Visit(existing: map<Path, Hash>, disk: Tree, f: Path) returns (outcome: Outcome)
      requires f in disk
      modifies db
      ensures db.version == old(db.version)
      ensures outcome == Decide(existing, disk, f)
      ensures db.Content() == VisitStep(old(db.Content()), existing, config, parse, disk, f)
    {
      if InSkippedDir(f) || disk[f] == "" || !IsSupported(f) {
        return Ignored;
      }
      var newHash := Digest(disk[f]);
      if f in existing && existing[f] == newHash {
        return Skipped;
      }
      Reindex(f, disk[f]);
      return Changed;
    }

    method WalkFiles(existing: map<Path, Hash>, disk: Tree, walk: seq<Path>) returns (seen: set<Path>, result: IndexResult)
      requires Walks(walk, disk) && existing == db.files
      modifies db
      ensures db.version == old(db.version)
      ensures db.Content() == WalkTables(old(db.Content()), config, parse, disk, walk)
      ensures seen == Seen(disk)
      ensures result.total == |seen| && result.skipped == |Unchanged(disk, existing)|
      ensures result.changed == result.total - result.skipped && result.deleted == 0
    {
      seen, result := VisitAll(existing, disk, walk);
      TallyMeaning(existing, disk, walk);
    }

    method VisitAll(existing: map<Path, Hash>, disk: Tree, walk: seq<Path>) returns (seen: set<Path>, result: IndexResult)
      requires Walks(walk, disk) && existing == db.files
      modifies db
      ensures db.version == old(db.version)
      ensures db.Content() == WalkTables(old(db.Content()), config, parse, disk, walk)
      ensures seen == SeenAmong(disk, walk) && result == Tally(existing, disk, walk)
    {
      ghost var before := db.Content();
      seen := {};
      result := IndexResult(0, 0, 0, 0);
      for i := 0 to |walk|
        invariant db.version == old(db.version)
        invariant db.Content() == WalkTables(before, config, parse, disk, walk[..i])
        invariant seen == SeenAmong(disk, walk[..i])
        invariant result == Tally(existing, disk, walk[..i])
      {
        WalkOneMore(before, config, parse, disk, walk, i);
        var outcome := Visit(existing, disk, walk[i]);
        if !outcome.Ignored? {
          seen := seen + {walk[i]};
          result := result.(total := result.total + 1);
        }
        if outcome.Skipped? {
          result := result.(skipped := result.skipped + 1);
        } else if outcome.Changed? {
          result := result.(changed := result.changed + 1);
        }
      }
      assert walk[..|walk|] == walk;
    }

    /** The clean-up loop of `Index` over files that were tracked but not seen. */
    method SweepMissing(existing: map<Path, Hash>, seen: set<Path>) returns (deleted: nat, ghost gone: seq<Path>)
      modifies db
      ensures db.version == old(db.version)
      ensures db.Content() == SweepTables(old(db.Content()), gone)
      ensures forall f :: f in gone <==> f in existing && f !in seen
      ensures deleted == |existing.Keys - seen|
    {
      ghost var before := db.Content();
      var pending := existing.Keys;
      ghost var swept: set<Path> := {};
      deleted, gone := 0, [];
      while pending != {}
        invariant pending <= existing.Keys
        invariant forall f :: f in swept <==> f in existing && f !in pending && f !in seen
        invariant forall f :: f in gone <==> f in swept
        invariant db.version == old(db.version)
        invariant db.Content() == SweepTables(before, gone)
        invariant deleted == |swept|
      {
        var f :| f in pending;
        pending := pending - {f};
        if f !in seen {
          SweepOneMore(before, gone, f);
          Sweep(f);
          gone, swept := gone + [f], swept + {f};
          deleted := deleted + 1;
        }
      }
      assert swept == existing.Keys - seen;
    }

    method Index(disk: Tree, walk: seq<Path>) returns (result: IndexResult)
      requires Walks(walk, disk) && WellKeyed(db.symbols)
      modifies db
      ensures db.version == old(db.version) && WellKeyed(db.symbols)
      ensures RunOf(old(db.Content()), db.Content(), config, parse, disk)
      ensures RunOf(old(db.Content()), old(db.Content()), config, parse, disk) ==> db.Content() == old(db.Content())
      ensures db.files == FilesAfterRun(old(db.files), disk)
      ensures result.total == |Seen(disk)|
      ensures result.skipped == |Unchanged(disk, old(db.files))|
      ensures result.changed == result.total - result.skipped
      ensures result.deleted == |Missing(old(db.files), disk)|
      ensures result.deleted == |Disappeared(old(db.files), disk)|
        <==> forall p :: p in old(db.files) && old(db.files)[p] == Cleared ==> p in Seen(disk)
    {
      var existing := db.GetFilesByHash();
      var seen, counts := WalkFiles(existing, disk, walk);
      var deleted, gone := SweepMissing(existing, seen);
      result := counts.(deleted := deleted);
      DeletedIsDisappearedIff(existing, disk);
      RunViews(old(db.Content()), config, parse, disk, walk, gone);
      RunFiles(old(db.Content()), db.Content(), config, parse, disk);
      if RunOf(old(db.Content()), old(db.Content()), config, parse, disk) {
        IdleRun(old(db.Content()), config, parse, disk, walk, gone);
      }
    }
  }
}
