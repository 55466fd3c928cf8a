/** What the symbol database holds after any history of edits, deletions, re-creations,
    re-openings and index runs. */
module IndexHistory {
  import opened Wrappers
  import opened CallEdges
  import opened Disk
  import opened Text
  import opened SymbolDb
  import opened Indexer

  datatype Op =
    | Write(path: Path, content: string)
    | Remove(path: Path)
    | Open(found: int)          // the database is opened and its schema version is `found`
    | Index(cfg: IndexConfig)

  type History = seq<Op>

  function Last<T>(s: seq<T>): T
    requires s != []
  {
    s[|s| - 1]
  }

  function DiskAfter(ops: History): Tree {
    if ops == [] then map[]
    else
      var disk := DiskAfter(ops[..|ops| - 1]);
      match Last(ops)
      case Write(p, c) => disk[p := c]
      case Remove(p) => disk - {p}
      case _ => disk
  }

  /** The rows of file f after a history. */
  function FileAfter(parse: Parser, ops: History, f: Path): FileView {
    if ops == [] then UNTRACKED
    else
      var before := FileAfter(parse, ops[..|ops| - 1], f);
      match Last(ops)
      case Index(cfg) => FileStep(before, cfg, parse, f, Source(DiskAfter(ops), f))
      case Open(found) => if found == SCHEMA_VERSION then before else UNTRACKED
      case _ => before
  }

  /** The tables are those a history leaves behind. */
  ghost predicate Realizes(t: Tables, parse: Parser, ops: History) {
    WellKeyed(t.symbols) && forall f :: View(t, f) == FileAfter(parse, ops, f)
  }

  // ----- A history of one file that does not look at the database -----

  /** A content of f that some run read and that differed from the one read before it. */
  datatype Version = Version(content: string, cfg: IndexConfig)

  /** The versions of f since a run last found it missing, or the tables were last wiped. */
  function Versions(ops: History, f: Path): seq<Version> {
    if ops == [] then []
    else
      var before := Versions(ops[..|ops| - 1], f);
      match Last(ops)
      case Index(cfg) => VersionsStep(before, cfg, Source(DiskAfter(ops), f))
      case Open(found) => if found == SCHEMA_VERSION then before else []
      case _ => before
  }

  function VersionsStep(vs: seq<Version>, cfg: IndexConfig, source: Option<string>): seq<Version> {
    match source
    case Some(c) => if vs != [] && Last(vs).content == c then vs else vs + [Version(c, cfg)]
    case None => []
  }

  function LatestSymbols(parse: Parser, f: Path, vs: seq<Version>): SymbolTable {
    if vs == [] then map[]
    else if Last(vs).cfg.parseSymbols then ParsedSymbols(parse, f, Last(vs).content)
    else LatestSymbols(parse, f, vs[..|vs| - 1])
  }

  /** The references of the latest version that had any and was parsed for them. */
  function LatestRefs(parse: Parser, f: Path, vs: seq<Version>): seq<Reference> {
    if vs == [] then []
    else if Last(vs).cfg.parseReferences && parse(f, Last(vs).content).refs != [] then parse(f, Last(vs).content).refs
    else LatestRefs(parse, f, vs[..|vs| - 1])
  }

  function LatestCalls(parse: Parser, f: Path, vs: seq<Version>): seq<CallEdge> {
    if vs == [] then []
    else if Last(vs).cfg.parseCalls && parse(f, Last(vs).content).calls != [] then parse(f, Last(vs).content).calls
    else LatestCalls(parse, f, vs[..|vs| - 1])
  }

  predicate HashFollows(hash: Option<Hash>, vs: seq<Version>) {
    if vs == [] then hash == None || hash == Some(Cleared) else hash == Some(Digest(Last(vs).content))
  }

  /** The rows of a file are those its versions call for. */
  ghost predicate Follows(parse: Parser, f: Path, rows: FileView, vs: seq<Version>) {
    && HashFollows(rows.hash, vs)
    && rows.symbols == LatestSymbols(parse, f, vs)
    && rows.refs == LatestRefs(parse, f, vs)
    && rows.calls == LatestCalls(parse, f, vs)
  }

  lemma StepHash(parse: Parser, f: Path, rows: FileView, vs: seq<Version>, cfg: IndexConfig, source: Option<string>)
    requires HashFollows(rows.hash, vs)
    ensures HashFollows(FileStep(rows, cfg, parse, f, source).hash, VersionsStep(vs, cfg, source))
  {
    if source.Some? {
      var v := Version(source.value, cfg);
      assert Last(vs + [v]) == v;
    }
  }

  lemma LatestSymbolsPush(parse: Parser, f: Path, vs: seq<Version>, v: Version)
    ensures LatestSymbols(parse, f, vs + [v])
      == if v.cfg.parseSymbols then ParsedSymbols(parse, f, v.content) else LatestSymbols(parse, f, vs)
  {
    assert (vs + [v])[..|vs|] == vs && Last(vs + [v]) == v;
  }

  lemma StepSymbols(parse: Parser, f: Path, rows: FileView, vs: seq<Version>, cfg: IndexConfig, source: Option<string>)
    requires HashFollows(rows.hash, vs) && rows.symbols == LatestSymbols(parse, f, vs)
    ensures FileStep(rows, cfg, parse, f, source).symbols == LatestSymbols(parse, f, VersionsStep(vs, cfg, source))
  {
    if source.Some? {
      LatestSymbolsPush(parse, f, vs, Version(source.value, cfg));
    }
  }

  lemma LatestRefsPush(parse: Parser, f: Path, vs: seq<Version>, v: Version)
    ensures LatestRefs(parse, f, vs + [v])
      == if v.cfg.parseReferences && parse(f, v.content).refs != [] then parse(f, v.content).refs else LatestRefs(parse, f, vs)
  {
    assert (vs + [v])[..|vs|] == vs && Last(vs + [v]) == v;
  }

  lemma StepRefs(parse: Parser, f: Path, rows: FileView, vs: seq<Version>, cfg: IndexConfig, source: Option<string>)
    requires HashFollows(rows.hash, vs) && rows.refs == LatestRefs(parse, f, vs)
    ensures FileStep(rows, cfg, parse, f, source).refs == LatestRefs(parse, f, VersionsStep(vs, cfg, source))
  {
    if source.Some? {
      LatestRefsPush(parse, f, vs, Version(source.value, cfg));
    }
  }

  lemma LatestCallsPush(parse: Parser, f: Path, vs: seq<Version>, v: Version)
    ensures LatestCalls(parse, f, vs + [v])
      == if v.cfg.parseCalls && parse(f, v.content).calls != [] then parse(f, v.content).calls else LatestCalls(parse, f, vs)
  {
    assert (vs + [v])[..|vs|] == vs && Last(vs + [v]) == v;
  }

  lemma StepCalls(parse: Parser, f: Path, rows: FileView, vs: seq<Version>, cfg: IndexConfig, source: Option<string>)
    requires HashFollows(rows.hash, vs) && rows.calls == LatestCalls(parse, f, vs)
    ensures FileStep(rows, cfg, parse, f, source).calls == LatestCalls(parse, f, VersionsStep(vs, cfg, source))
  {
    if source.Some? {
      LatestCallsPush(parse, f, vs, Version(source.value, cfg));
    }
  }

  /** The invariant over every history: the rows of a file are determined by its versions alone. */
  lemma {:induction false} RowsFollowVersions(parse: Parser, ops: History, f: Path)
    ensures Follows(parse, f, FileAfter(parse, ops, f), Versions(ops, f))
  {
    if ops != [] {
      var past := ops[..|ops| - 1];
      RowsFollowVersions(parse, past, f);
      if Last(ops).Index? {
        var rows, vs, source := FileAfter(parse, past, f), Versions(past, f), Source(DiskAfter(ops), f);
        StepHash(parse, f, rows, vs, Last(ops).cfg, source);
        StepSymbols(parse, f, rows, vs, Last(ops).cfg, source);
        StepRefs(parse, f, rows, vs, Last(ops).cfg, source);
        StepCalls(parse, f, rows, vs, Last(ops).cfg, source);
      }
    }
  }

  predicate EveryRun(ops: History, stage: IndexConfig -> bool) {
    forall i :: 0 <= i < |ops| && ops[i].Index? ==> stage(ops[i].cfg)
  }

  lemma {:induction false} VersionStages(ops: History, f: Path, stage: IndexConfig -> bool)
    requires EveryRun(ops, stage)
    ensures forall v :: v in Versions(ops, f) ==> stage(v.cfg)
  {
    if ops != [] {
      assert forall i :: 0 <= i < |ops| - 1 ==> ops[..|ops| - 1][i] == ops[i];
      VersionStages(ops[..|ops| - 1], f, stage);
    }
  }

  // ----- Histories and the database -----

  lemma NothingRealizesEmpty(parse: Parser)
    ensures Realizes(NO_TABLES, parse, [])
  {
    forall f ensures View(NO_TABLES, f) == UNTRACKED {
      assert SymbolsOf(map[], f) == map[];
    }
  }

  lemma {:induction false} OpenExtends(t: Tables, parse: Parser, ops: History, found: int)
    requires Realizes(t, parse, ops)
    ensures Realizes(if found == SCHEMA_VERSION then t else NO_TABLES, parse, ops + [Open(found)])
  {
    assert (ops + [Open(found)])[..|ops|] == ops;
    NothingRealizesEmpty(parse);
  }

  lemma {:induction false} EditExtends(t: Tables, parse: Parser, ops: History, edit: Op)
    requires Realizes(t, parse, ops) && (edit.Write? || edit.Remove?)
    ensures Realizes(t, parse, ops + [edit])
  {
    assert (ops + [edit])[..|ops|] == ops;
  }

  lemma {:induction false} RunExtends(t: Tables, t': Tables, parse: Parser, ops: History, cfg: IndexConfig)
    requires Realizes(t, parse, ops) && WellKeyed(t'.symbols)
    requires RunOf(t, t', cfg, parse, DiskAfter(ops))
    ensures Realizes(t', parse, ops + [Index(cfg)])
  {
    assert (ops + [Index(cfg)])[..|ops|] == ops;
  }

  /** A whole history on real tables: whatever order its walks take, the tables realize it. */
  method Replay(parse: Parser, ops: History, walks: seq<seq<Path>>) returns (db: SymbolDB)
    requires |walks| == |ops| && forall i :: 0 <= i < |ops| ==> Walks(walks[i], DiskAfter(ops[..i]))
    ensures fresh(db) && Realizes(db.Content(), parse, ops)
  {
    db := new SymbolDB(NO_TABLES, SCHEMA_VERSION);
    NothingRealizesEmpty(parse);
    for i := 0 to |ops|
      invariant fresh(db) && Realizes(db.Content(), parse, ops[..i])
    {
      assert ops[..i + 1] == ops[..i] + [ops[i]];
      match ops[i] {
        case Open(found) =>
          OpenExtends(db.Content(), parse, ops[..i], found);
          db := new SymbolDB(db.Content(), found);
        case Index(cfg) =>
          ghost var before := db.Content();
          var indexer := new SharedIndexer(db, cfg, parse);
          var _ := indexer.Index(DiskAfter(ops[..i]), walks[i]);
          RunExtends(before, db.Content(), parse, ops[..i], cfg);
        case _ => EditExtends(db.Content(), parse, ops[..i], ops[i]);
      }
    }
    assert ops[..|ops|] == ops;
  }

  /** s is one of these symbols, and no later one has its name, kind and start line. */
  ghost predicate LastSymbol(symbols: seq<Symbol>, s: Symbol) {
    exists i :: LastSymbolAt(symbols, s, i)
  }

  ghost predicate LastSymbolAt(symbols: seq<Symbol>, s: Symbol, i: int) {
    && 0 <= i < |symbols| && symbols[i] == s
    && forall j :: i < j < |symbols| ==>
         symbols[j].name != s.name || symbols[j].kind != s.kind || symbols[j].startLine != s.startLine
  }

  lemma StampedLast(f: Path, symbols: seq<Symbol>, s: Symbol)
    ensures LastOfKey(Stamp(f, symbols), Filed(f, s)) <==> LastSymbol(symbols, s)
  {
    var rows := Stamp(f, symbols);
    forall i ensures LastAt(rows, Filed(f, s), i) <==> LastSymbolAt(symbols, s, i) {
      assert forall j :: 0 <= j < |rows| ==>
        (SameKey(rows[j], Filed(f, s))
         <==> symbols[j].name == s.name && symbols[j].kind == s.kind && symbols[j].startLine == s.startLine);
    }
  }

  /** The table built from one file holds its symbols, the later of two with one key. */
  lemma ParsedIff(parse: Parser, f: Path, content: string, s: Symbol)
    ensures Holds(ParsedSymbols(parse, f, content), Filed(f, s)) <==> LastSymbol(parse(f, content).symbols, s)
  {
    var rows := Stamp(f, parse(f, content).symbols);
    StoredIff(map[], rows, Filed(f, s));
    StampedLast(f, parse(f, content).symbols, s);
  }

  lemma HeldInFile(m: SymbolTable, f: Path, s: Symbol)
    ensures Holds(m, Filed(f, s)) <==> Holds(SymbolsOf(m, f), Filed(f, s))
  {
    if id :| id in m && m[id] == Filed(f, s) {
      assert id in SymbolsOf(m, f) && SymbolsOf(m, f)[id] == Filed(f, s);
    }
    if id :| id in SymbolsOf(m, f) && SymbolsOf(m, f)[id] == Filed(f, s) {
      assert id in m && m[id] == Filed(f, s);
    }
  }

  /** The symbols a parse finds in a file that is on disk; no file, no symbols. */
  ghost predicate OnDisk(parse: Parser, disk: Tree, f: Path, s: Symbol) {
    Source(disk, f).Some? && LastSymbol(parse(f, Source(disk, f).value).symbols, s)
  }

  /** After any history that ends in a run, the symbols table holds exactly the symbols of the files on disk. */
  lemma SymbolsAreOnDisk(parse: Parser, ops: History, t: Tables, f: Path, s: Symbol)
    requires ops != [] && Last(ops).Index? && EveryRun(ops, (c: IndexConfig) => c.parseSymbols)
    requires Realizes(t, parse, ops)
    ensures Holds(t.symbols, Filed(f, s)) <==> OnDisk(parse, DiskAfter(ops), f, s)
  {
    RowsFollowVersions(parse, ops, f);
    LatestIsOnDisk(ops, f, Source(DiskAfter(ops), f));
    VersionStages(ops, f, (c: IndexConfig) => c.parseSymbols);
    assert View(t, f) == FileAfter(parse, ops, f);
    HeldInFile(t.symbols, f, s);
    if Source(DiskAfter(ops), f).Some? {
      ParsedIff(parse, f, Source(DiskAfter(ops), f).value, s);
    }
  }

  lemma RowsEqualRebuild(parse: Parser, ops: History, t: Tables, scratch: Tables, cfg: IndexConfig)
    requires ops != [] && Last(ops).Index? && EveryRun(ops, (c: IndexConfig) => c.parseSymbols)
    requires Realizes(t, parse, ops)
    requires WellKeyed(scratch.symbols) && cfg.parseSymbols && RunOf(NO_TABLES, scratch, cfg, parse, DiskAfter(ops))
    ensures t.symbols == scratch.symbols
    ensures forall f :: SymbolsOf(t.symbols, f) == match Source(DiskAfter(ops), f)
                                                   case Some(c) => ParsedSymbols(parse, f, c)
                                                   case None => map[]
  {
    forall f
      ensures SymbolsOf(t.symbols, f) == SymbolsOf(scratch.symbols, f)
      ensures SymbolsOf(t.symbols, f) == match Source(DiskAfter(ops), f)
                                         case Some(c) => ParsedSymbols(parse, f, c)
                                         case None => map[]
    {
      RowsFollowVersions(parse, ops, f);
      VersionStages(ops, f, (c: IndexConfig) => c.parseSymbols);
      assert SymbolsOf(NO_TABLES.symbols, f) == map[];
      assert View(t, f) == FileAfter(parse, ops, f);
      assert View(scratch, f) == FileStep(View(NO_TABLES, f), cfg, parse, f, Source(DiskAfter(ops), f));
    }
    SameFilesSameSymbols(t.symbols, scratch.symbols);
  }

  /** After any history that ends in a run, the symbols table is the one a run from scratch builds. */
  lemma SymbolsEqualRebuild(parse: Parser, ops: History, t: Tables, scratch: Tables, cfg: IndexConfig)
    requires ops != [] && Last(ops).Index? && EveryRun(ops, (c: IndexConfig) => c.parseSymbols)
    requires Realizes(t, parse, ops)
    requires WellKeyed(scratch.symbols) && cfg.parseSymbols && RunOf(NO_TABLES, scratch, cfg, parse, DiskAfter(ops))
    ensures t.symbols == scratch.symbols
    ensures forall f :: SymbolsOf(t.symbols, f) == match Source(DiskAfter(ops), f)
                                                   case Some(c) => ParsedSymbols(parse, f, c)
                                                   case None => map[]
    ensures forall f, s :: Holds(t.symbols, Filed(f, s)) <==> OnDisk(parse, DiskAfter(ops), f, s)
  {
    RowsEqualRebuild(parse, ops, t, scratch, cfg);
    forall f, s ensures Holds(t.symbols, Filed(f, s)) <==> OnDisk(parse, DiskAfter(ops), f, s) {
      SymbolsAreOnDisk(parse, ops, t, f, s);
    }
  }

  lemma SameFilesSameSymbols(m: SymbolTable, m': SymbolTable)
    requires WellKeyed(m) && WellKeyed(m')
    requires forall f :: SymbolsOf(m, f) == SymbolsOf(m', f)
    ensures m == m'
  {
    forall id ensures id in m <==> id in m' ensures id in m ==> m[id] == m'[id] {
      assert SymbolsOf(m, id.file) == SymbolsOf(m', id.file);
      assert id in SymbolsOf(m, id.file) <==> id in m;
      assert id in SymbolsOf(m', id.file) <==> id in m';
    }
  }

  lemma {:induction false} NoRefsAtAll(parse: Parser, f: Path, vs: seq<Version>)
    ensures LatestRefs(parse, f, vs) == []
      <==> forall v :: v in vs && v.cfg.parseReferences ==> parse(f, v.content).refs == []
  {
    if vs != [] {
      NoRefsAtAll(parse, f, vs[..|vs| - 1]);
      assert vs == vs[..|vs| - 1] + [Last(vs)];
    }
  }

  lemma {:induction false} NoCallsAtAll(parse: Parser, f: Path, vs: seq<Version>)
    ensures LatestCalls(parse, f, vs) == []
      <==> forall v :: v in vs && v.cfg.parseCalls ==> parse(f, v.content).calls == []
  {
    if vs != [] {
      NoCallsAtAll(parse, f, vs[..|vs| - 1]);
      assert vs == vs[..|vs| - 1] + [Last(vs)];
    }
  }

  lemma StepIsLatest(vs: seq<Version>, cfg: IndexConfig, source: Option<string>)
    ensures source.None? ==> VersionsStep(vs, cfg, source) == []
    ensures source.Some? ==>
      var next := VersionsStep(vs, cfg, source); next != [] && Last(next).content == source.value
  {
  }

  /** A file on disk has, after a run, a latest version, and that is what is on disk. */
  lemma LatestIsOnDisk(ops: History, f: Path, source: Option<string>)
    requires ops != [] && Last(ops).Index? && source == Source(DiskAfter(ops), f)
    ensures source.None? ==> Versions(ops, f) == []
    ensures source.Some? ==> Versions(ops, f) != [] && Last(Versions(ops, f)).content == source.value
  {
    StepIsLatest(Versions(ops[..|ops| - 1], f), Last(ops).cfg, source);
  }

  /** When the references of a file on disk equal a rebuild, whatever stages the runs had. If the run that first
      read the content parsed references: exactly when it has some, or no version since the file last appeared had
      any that were looked for; an emptied list does not clear the old rows. If it did not: exactly when the rows
      left by the earlier versions happen to be the right ones. */
  lemma RefsEqualRebuildIff(parse: Parser, ops: History, f: Path)
    requires ops != [] && Last(ops).Index?
    ensures match Source(DiskAfter(ops), f)
            case None => FileAfter(parse, ops, f).refs == []
            case Some(now) =>
              var vs, rows := Versions(ops, f), FileAfter(parse, ops, f).refs;
              && vs != []
              && if Last(vs).cfg.parseReferences
                 then rows == parse(f, now).refs <==>
                      parse(f, now).refs != []
                      || forall v :: v in vs && v.cfg.parseReferences ==> parse(f, v.content).refs == []
                 else rows == LatestRefs(parse, f, vs[..|vs| - 1])
  {
    RowsFollowVersions(parse, ops, f);
    LatestIsOnDisk(ops, f, Source(DiskAfter(ops), f));
    NoRefsAtAll(parse, f, Versions(ops, f));
  }

  /** The same for calls, which two of the indexer's callers leave out. */
  lemma CallsEqualRebuildIff(parse: Parser, ops: History, f: Path)
    requires ops != [] && Last(ops).Index?
    ensures match Source(DiskAfter(ops), f)
            case None => FileAfter(parse, ops, f).calls == []
            case Some(now) =>
              var vs, rows := Versions(ops, f), FileAfter(parse, ops, f).calls;
              && vs != []
              && if Last(vs).cfg.parseCalls
                 then rows == parse(f, now).calls <==>
                      parse(f, now).calls != []
                      || forall v :: v in vs && v.cfg.parseCalls ==> parse(f, v.content).calls == []
                 else rows == LatestCalls(parse, f, vs[..|vs| - 1])
  {
    RowsFollowVersions(parse, ops, f);
    LatestIsOnDisk(ops, f, Source(DiskAfter(ops), f));
    NoCallsAtAll(parse, f, Versions(ops, f));
  }

  predicate Spares(op: Op, f: Path) {
    match op
    case Write(p, _) => p != f
    case Remove(p) => p != f
    case Open(found) => found == SCHEMA_VERSION
    case Index(_) => true
  }

  /** Nothing here touches file f: other files are edited, the database is re-opened and indexed. */
  predicate LeavesAlone(ops: History, f: Path) {
    forall op :: op in ops ==> Spares(op, f)
  }

  lemma HistoryNext(ops: History, op: Op, f: Path)
    ensures DiskAfter(ops + [op]) ==
      match op
      case Write(p, c) => DiskAfter(ops)[p := c]
      case Remove(p) => DiskAfter(ops) - {p}
      case _ => DiskAfter(ops)
    ensures Versions(ops + [op], f) ==
      match op
      case Index(cfg) => VersionsStep(Versions(ops, f), cfg, Source(DiskAfter(ops), f))
      case Open(found) => if found == SCHEMA_VERSION then Versions(ops, f) else []
      case _ => Versions(ops, f)
  {
    assert (ops + [op])[..|ops|] == ops;
  }

  lemma SourceOfOther(disk: Tree, disk': Tree, f: Path)
    requires f in disk <==> f in disk'
    requires f in disk ==> disk'[f] == disk[f]
    ensures Source(disk', f) == Source(disk, f)
  {
  }

  /** The latest version of f is what is on disk. */
  predicate UpToDate(ops: History, f: Path) {
    Versions(ops, f) != [] && Source(DiskAfter(ops), f) == Some(Last(Versions(ops, f)).content)
  }

  lemma AloneStep(ops: History, op: Op, f: Path)
    requires UpToDate(ops, f) && Spares(op, f)
    ensures Source(DiskAfter(ops + [op]), f) == Source(DiskAfter(ops), f)
    ensures Versions(ops + [op], f) == Versions(ops, f)
  {
    HistoryNext(ops, op, f);
    SourceOfOther(DiskAfter(ops), DiskAfter(ops + [op]), f);
  }

  lemma {:induction false} AloneKeepsVersions(ops: History, more: History, f: Path)
    requires UpToDate(ops, f) && LeavesAlone(more, f)
    ensures UpToDate(ops + more, f) && Versions(ops + more, f) == Versions(ops, f)
    decreases |more|
  {
    if more == [] {
      assert ops + more == ops;
    } else {
      var next := ops + [more[0]];
      assert ops + more == next + more[1..];
      AloneStep(ops, more[0], f);
      AloneKeepsVersions(next, more[1..], f);
    }
  }

  /** However many runs with whatever stages follow, the calls of a file that does not change stay what they were. */
  lemma CallsAreNeverMadeUp(parse: Parser, ops: History, more: History, f: Path)
    requires ops != [] && Last(ops).Index? && Source(DiskAfter(ops), f).Some? && LeavesAlone(more, f)
    ensures FileAfter(parse, ops + more, f).calls == FileAfter(parse, ops, f).calls
  {
    LatestIsOnDisk(ops, f, Source(DiskAfter(ops), f));
    AloneKeepsVersions(ops, more, f);
    RowsFollowVersions(parse, ops, f);
    RowsFollowVersions(parse, ops + more, f);
  }

  /** A new file first indexed without the call stage has no calls and will have none until it changes: that is
      right exactly when there are none in it. */
  lemma SkippedStageIsNeverMadeUp(parse: Parser, ops: History, more: History, f: Path)
    requires ops != [] && Last(ops).Index? && Source(DiskAfter(ops), f).Some? && LeavesAlone(more, f)
    requires |Versions(ops, f)| == 1 && !Versions(ops, f)[0].cfg.parseCalls
    ensures var now, rows := Source(DiskAfter(ops), f).value, FileAfter(parse, ops + more, f).calls;
      rows == [] && (rows == parse(f, now).calls <==> parse(f, now).calls == [])
  {
    CallsAreNeverMadeUp(parse, ops, more, f);
    CallsEqualRebuildIff(parse, ops, f);
    assert Versions(ops, f)[..0] == [];
  }

  // ----- Two files that end up wrong -----

  const MAIN := Path([], "main.go")

  const EVERY_STAGE := IndexConfig(true, true, true)

  const NO_CALLS := IndexConfig(true, true, false)

  /** A language in which "x" refers to x and calls it, and nothing else does anything. */
  function ToyParse(p: Path, content: string): Parsed {
    if content == "x" then Parsed([], [Reference("x", 1, 1, "call", content)], [CallEdge("main", "x", 1, "go")])
    else Parsed([], [], [])
  }

  lemma GoIsParsed()
    ensures IsParsed(".go")
  {
  }

  lemma LowerGo()
    ensures Lower(".go") == ".go"
  {
  }

  lemma MainExt()
    ensures Ext(MAIN.name) == ".go"
  {
    ExtOf("main", ".go");
    assert "main" + ".go" == "main.go";
  }

  lemma MainIsTrackable()
    ensures Trackable(MAIN)
  {
    MainExt();
    LowerGo();
    GoIsParsed();
  }

  lemma SourceOfTrackable(disk: Tree, f: Path)
    requires Trackable(f) && f in disk && disk[f] != ""
    ensures Source(disk, f) == Some(disk[f])
  {
  }

  /** The file is written, indexed, written again, indexed again. */
  function Edited(f: Path, before: string, after: string): History {
    [] + [Write(f, before)] + [Index(EVERY_STAGE)] + [Write(f, after)] + [Index(EVERY_STAGE)]
  }

  lemma EditedVersions(f: Path, before: string, after: string)
    requires Trackable(f) && before != "" && after != "" && before != after
    ensures DiskAfter(Edited(f, before, after)) == map[f := after]
    ensures Versions(Edited(f, before, after), f) == [Version(before, EVERY_STAGE), Version(after, EVERY_STAGE)]
  {
    var a: History := [] + [Write(f, before)];
    var b := a + [Index(EVERY_STAGE)];
    var c := b + [Write(f, after)];
    HistoryNext([], Write(f, before), f);
    SourceOfTrackable(DiskAfter(a), f);
    HistoryNext(a, Index(EVERY_STAGE), f);
    HistoryNext(b, Write(f, after), f);
    SourceOfTrackable(DiskAfter(c), f);
    HistoryNext(c, Index(EVERY_STAGE), f);
  }

  lemma EditedRows(parse: Parser, f: Path, before: string, after: string)
    requires Trackable(f) && before != "" && after != "" && before != after
    requires parse(f, before).refs != [] && parse(f, before).calls != [] && parse(f, after) == Parsed([], [], [])
    ensures var rows := FileAfter(parse, Edited(f, before, after), f); rows.refs != [] && rows.calls != []
  {
    var ops := Edited(f, before, after);
    EditedVersions(f, before, after);
    SourceOfTrackable(DiskAfter(ops), f);
    RefsEqualRebuildIff(parse, ops, f);
    CallsEqualRebuildIff(parse, ops, f);
    assert Version(before, EVERY_STAGE) in Versions(ops, f);
  }

  /** Edited from "x" to "y" between two runs, main.go keeps the reference and the call it no longer has. */
  lemma StaleRows()
    ensures ToyParse(MAIN, "y").refs == [] && FileAfter(ToyParse, Edited(MAIN, "x", "y"), MAIN).refs != []
    ensures ToyParse(MAIN, "y").calls == [] && FileAfter(ToyParse, Edited(MAIN, "x", "y"), MAIN).calls != []
  {
    MainIsTrackable();
    EditedRows(ToyParse, MAIN, "x", "y");
  }

  /** The file is written, indexed without the call stage, and indexed with it. */
  function LateCalls(f: Path, content: string): History {
    [] + [Write(f, content)] + [Index(NO_CALLS)] + [Index(EVERY_STAGE)]
  }

  lemma LateCallsVersions(f: Path, content: string)
    requires Trackable(f) && content != ""
    ensures var b: History := [] + [Write(f, content)] + [Index(NO_CALLS)];
      Versions(b, f) == [Version(content, NO_CALLS)] && UpToDate(b, f)
  {
    var a: History := [] + [Write(f, content)];
    HistoryNext([], Write(f, content), f);
    SourceOfTrackable(DiskAfter(a), f);
    HistoryNext(a, Index(NO_CALLS), f);
  }

  lemma LateCallsRows(parse: Parser, f: Path, content: string)
    requires Trackable(f) && content != ""
    ensures FileAfter(parse, LateCalls(f, content), f).calls == []
  {
    LateCallsVersions(f, content);
    SkippedStageIsNeverMadeUp(parse, [] + [Write(f, content)] + [Index(NO_CALLS)], [Index(EVERY_STAGE)], f);
  }

  /** First indexed without the call stage, main.go has no calls after a run with it. */
  lemma MissingCall()
    ensures ToyParse(MAIN, "x").calls != [] && FileAfter(ToyParse, LateCalls(MAIN, "x"), MAIN).calls == []
  {
    MainIsTrackable();
    LateCallsRows(ToyParse, MAIN, "x");
  }

  lemma SecondStepIsIdle(v: FileView, v': FileView, cfg: IndexConfig, again: IndexConfig, parse: Parser, f: Path,
                         source: Option<string>)
    requires v' == FileStep(v, cfg, parse, f, source)
    ensures FileStep(v', again, parse, f, source) == v'
    ensures v'.hash.Some? <==> v.hash.Some? || source.Some?
    ensures source.Some? ==> v'.hash == Some(Digest(source.value))
  {
  }

  /** Right after a run there is nothing left to do: a second run, with any stages, skips every file,
      changes no table, and counts as deleted the very files the first one counted. */
  lemma SecondRunIsIdle(t: Tables, t': Tables, cfg: IndexConfig, again: IndexConfig, parse: Parser, disk: Tree)
    requires RunOf(t, t', cfg, parse, disk)
    ensures RunOf(t', t', again, parse, disk)
    ensures Unchanged(disk, t'.files) == Seen(disk)
    ensures Missing(t'.files, disk) == Missing(t.files, disk)
  {
    forall f
      ensures View(t', f) == FileStep(View(t', f), again, parse, f, Source(disk, f))
      ensures f in t'.files <==> f in t.files || f in Seen(disk)
      ensures f in Seen(disk) ==> t'.files[f] == Digest(disk[f])
    {
      assert View(t', f) == FileStep(View(t, f), cfg, parse, f, Source(disk, f));
      SecondStepIsIdle(View(t, f), View(t', f), cfg, again, parse, f, Source(disk, f));
    }
  }

  /** Running twice in a row: the second run re-parses nothing, sees and sweeps the same, and changes no table. */
  method IndexTwice(db: SymbolDB, cfg: IndexConfig, again: IndexConfig, parse: Parser, disk: Tree,
                    walk: seq<Path>, walkAgain: seq<Path>)
    returns (a: IndexResult, b: IndexResult, ghost between: Tables)
    requires Walks(walk, disk) && Walks(walkAgain, disk) && WellKeyed(db.symbols)
    modifies db
    ensures RunOf(old(db.Content()), between, cfg, parse, disk) && db.Content() == between
    ensures db.files == FilesAfterRun(old(db.files), disk)
    ensures a.total == |Seen(disk)| && a.deleted == |Missing(old(db.files), disk)|
    ensures b.changed == 0 && b.skipped == b.total == a.total && b.deleted == a.deleted
  {
    var first := new SharedIndexer(db, cfg, parse);
    ghost var before := db.Content();
    a := first.Index(disk, walk);
    between := db.Content();
    SecondRunIsIdle(before, between, cfg, again, parse, disk);
    var second := new SharedIndexer(db, again, parse);
    b := second.Index(disk, walkAgain);
  }

  // ----- Files that stay deleted -----

  /** The last run since the tables were last wiped that saw f, and the last that did not; -1 if there is none. */
  function LastSeen(ops: History, f: Path): int {
    if ops == [] then -1
    else
      var before := LastSeen(ops[..|ops| - 1], f);
      match Last(ops)
      case Index(_) => if Source(DiskAfter(ops), f).Some? then |ops| - 1 else before
      case Open(found) => if found == SCHEMA_VERSION then before else -1
      case _ => before
  }

  function LastMissed(ops: History, f: Path): int {
    if ops == [] then -1
    else
      var before := LastMissed(ops[..|ops| - 1], f);
      match Last(ops)
      case Index(_) => if Source(DiskAfter(ops), f).None? then |ops| - 1 else before
      case Open(found) => if found == SCHEMA_VERSION then before else -1
      case _ => before
  }

  /** A file has a row exactly when a run saw it since the tables were last wiped, and the row is cleared exactly
      when a later run missed it. */
  lemma {:induction false} ClearedIff(parse: Parser, ops: History, f: Path)
    ensures LastSeen(ops, f) < |ops| && LastMissed(ops, f) < |ops|
    ensures FileAfter(parse, ops, f).hash.Some? <==> LastSeen(ops, f) >= 0
    ensures FileAfter(parse, ops, f).hash == Some(Cleared) <==> 0 <= LastSeen(ops, f) < LastMissed(ops, f)
  {
    if ops != [] {
      ClearedIff(parse, ops[..|ops| - 1], f);
    }
  }

  /** In what follows `ops` no run sees f and nothing wipes the tables. */
  predicate NeverBack(ops: History, more: History, f: Path) {
    more != [] ==>
      && NeverBack(ops, more[..|more| - 1], f)
      && match Last(more)
         case Index(_) => Source(DiskAfter(ops + more), f).None?
         case Open(found) => found == SCHEMA_VERSION
         case _ => true
  }

  /** Once swept, a file keeps its cleared row, and every further run counts it. */
  lemma {:induction false} SweptStaysSwept(parse: Parser, ops: History, more: History, f: Path)
    requires FileAfter(parse, ops, f).hash == Some(Cleared) && NeverBack(ops, more, f)
    ensures FileAfter(parse, ops + more, f).hash == Some(Cleared)
  {
    if more == [] {
      assert ops + more == ops;
    } else {
      SweptStaysSwept(parse, ops, more[..|more| - 1], f);
      assert (ops + more)[..|ops + more| - 1] == ops + more[..|more| - 1];
      assert Last(ops + more) == Last(more);
    }
  }

  /** What a run after a history counts as deleted: every file some run saw since the last wipe and that is not
      there; and which of them went since a run last looked. */
  lemma DeletedIff(t: Tables, parse: Parser, ops: History, f: Path)
    requires Realizes(t, parse, ops)
    ensures f in Missing(t.files, DiskAfter(ops)) <==> LastSeen(ops, f) >= 0 && Source(DiskAfter(ops), f).None?
    ensures f in Disappeared(t.files, DiskAfter(ops))
      <==> LastSeen(ops, f) >= 0 && LastMissed(ops, f) <= LastSeen(ops, f) && Source(DiskAfter(ops), f).None?
  {
    ClearedIff(parse, ops, f);
    assert View(t, f) == FileAfter(parse, ops, f);
  }

  /** Whatever happens in between, the next run counts a file swept before that no run has seen since. */
  lemma SweptIsCountedAgain(t: Tables, parse: Parser, ops: History, more: History, f: Path)
    requires FileAfter(parse, ops, f).hash == Some(Cleared) && NeverBack(ops, more, f)
    requires Realizes(t, parse, ops + more) && Source(DiskAfter(ops + more), f).None?
    ensures f in Missing(t.files, DiskAfter(ops + more)) - Disappeared(t.files, DiskAfter(ops + more))
  {
    SweptStaysSwept(parse, ops, more, f);
    assert View(t, f) == FileAfter(parse, ops + more, f);
  }

  /** After any history, the number the next run reports as deleted is the number of files that went since a run last
      looked exactly when every file an earlier run swept is there again. */
  lemma DeletedIsRightIff(t: Tables, parse: Parser, ops: History)
    requires Realizes(t, parse, ops)
    ensures |Missing(t.files, DiskAfter(ops))| == |Disappeared(t.files, DiskAfter(ops))|
      <==> forall f :: 0 <= LastSeen(ops, f) < LastMissed(ops, f) ==> Source(DiskAfter(ops), f).Some?
  {
    var disk := DiskAfter(ops);
    DeletedIsDisappearedIff(t.files, disk);
    forall f
      ensures f in t.files && t.files[f] == Cleared <==> 0 <= LastSeen(ops, f) < LastMissed(ops, f)
      ensures f in Seen(disk) <==> Source(disk, f).Some?
    {
      ClearedIff(parse, ops, f);
      assert View(t, f) == FileAfter(parse, ops, f);
    }
  }

  lemma OnlyMain()
    ensures FilesAfterRun(map[], map[MAIN := "x"]) == map[MAIN := Digest("x")]
    ensures FilesAfterRun(map[MAIN := Digest("x")], map[]) == map[MAIN := Cleared]
    ensures Missing(map[MAIN := Digest("x")], map[]) == {MAIN} && Missing(map[MAIN := Cleared], map[]) == {MAIN}
    ensures Disappeared(map[MAIN := Cleared], map[]) == {}
  {
    MainIsTrackable();
    SourceOfTrackable(map[MAIN := "x"], MAIN);
    assert Seen(map[MAIN := "x"]) == {MAIN} && Seen(map[]) == {};
  }

  /** main.go is indexed, removed, and two more runs follow: both count it, though nothing went in between. */
  method CountedAgain() returns (gone: IndexResult, again: IndexResult, db: SymbolDB)
    ensures gone.deleted == 1 && again.deleted == 1
    ensures db.files == map[MAIN := Cleared] && Disappeared(db.files, map[]) == {}
  {
    OnlyMain();
    db := new SymbolDB(NO_TABLES, SCHEMA_VERSION);
    var indexer := new SharedIndexer(db, EVERY_STAGE, ToyParse);
    var _ := indexer.Index(map[MAIN := "x"], [MAIN]);
    ghost var between;
    gone, again, between := IndexTwice(db, EVERY_STAGE, EVERY_STAGE, ToyParse, map[], [], []);
  }
}
