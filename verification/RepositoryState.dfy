/** The staleness detector, and what it says right after an index run. */
module RepositoryState {
  import opened Wrappers
  import opened Disk
  import opened Text
  import opened SymbolDb
  import opened Indexer
  import opened IndexHistory

  datatype State = Unindexed | Stale | Ready

  datatype StateInfo = StateInfo(state: State, indexedFiles: nat, changedFiles: nat, deletedFiles: nat, totalFiles: nat)

  /** The hashes of the files the detector looks at. It never skips a directory: its walk returns
      on directories before it tests for the ones to skip. */
  function CurrentFiles(disk: Tree): map<Path, Hash> {
    HashesWhere(disk, IsIndexableExt)
  }

  function HashesWhere(disk: Tree, looksAt: Path -> bool): map<Path, Hash> {
    map p | p in disk && disk[p] != "" && looksAt(p) :: Digest(disk[p])
  }

  function ChangedRows(rows: map<Path, Hash>, current: map<Path, Hash>): set<Path> {
    set p | p in rows && p in current && current[p] != rows[p]
  }

  function DeletedRows(rows: map<Path, Hash>, current: map<Path, Hash>): set<Path> {
    set p | p in rows && p !in current && rows[p] != Cleared
  }

  function StateOf(rows: map<Path, Hash>, disk: Tree): State {
    if rows == map[] then Unindexed
    else if ChangedRows(rows, CurrentFiles(disk)) != {} || DeletedRows(rows, CurrentFiles(disk)) != {} then Stale
    else Ready
  }

  /** The detector looks at p: a file that is not empty and has an extension it knows. */
  predicate LooksAt(disk: Tree, p: Path) {
    p in disk && disk[p] != "" && IsIndexableExt(p)
  }

  /** Ready, without the two sets: each row of a file the detector looks at has its hash, each other one is cleared. */
  lemma ReadyMeaning(rows: map<Path, Hash>, disk: Tree)
    ensures StateOf(rows, disk) == Unindexed <==> rows == map[]
    ensures StateOf(rows, disk) == Ready
      <==> rows != map[] && forall p :: p in rows ==> rows[p] == if LooksAt(disk, p) then Digest(disk[p]) else Cleared
  {
    var current := CurrentFiles(disk);
    forall p | p in rows
      ensures rows[p] == (if LooksAt(disk, p) then Digest(disk[p]) else Cleared)
        <==> p !in ChangedRows(rows, current) && p !in DeletedRows(rows, current)
    {
    }
    if ChangedRows(rows, current) == {} && DeletedRows(rows, current) == {} {
      assert forall p :: p in rows ==> p !in ChangedRows(rows, current);
    }
  }

  lemma CountedSets(rows: map<Path, Hash>, disk: Tree)
    ensures ChangedRows(rows, CurrentFiles(disk)) == set p | p in rows && LooksAt(disk, p) && rows[p] != Digest(disk[p])
    ensures DeletedRows(rows, CurrentFiles(disk)) == set p | p in rows && !LooksAt(disk, p) && rows[p] != Cleared
    ensures CurrentFiles(disk).Keys == set p | p in disk && LooksAt(disk, p)
  {
  }

  /** `rows` is the symbol_files table, None when there is no database file. */
  method DetectRepositoryState(rows: Option<map<Path, Hash>>, disk: Tree) returns (info: StateInfo)
    ensures info.state == match rows case None => Unindexed case Some(r) => StateOf(r, disk)
    ensures info.indexedFiles == match rows case None => 0 case Some(r) => |r|
    ensures info.state.Unindexed? ==> info.changedFiles == info.deletedFiles == info.totalFiles == 0
    ensures !info.state.Unindexed? ==>
              && info.totalFiles == |CurrentFiles(disk)|
              && info.changedFiles == |ChangedRows(rows.value, CurrentFiles(disk))|
              && info.deletedFiles == |DeletedRows(rows.value, CurrentFiles(disk))|
    // the same without the sets: what the state says, and what each number counts
    ensures info.state == Unindexed <==> rows.None? || rows.value == map[]
    ensures info.state == Ready <==>
      && rows.Some? && rows.value != map[]
      && forall p :: p in rows.value ==> rows.value[p] == if LooksAt(disk, p) then Digest(disk[p]) else Cleared
    ensures !info.state.Unindexed? ==>
      && info.totalFiles == |set p | p in disk && LooksAt(disk, p)|
      && info.changedFiles == |set p | p in rows.value && LooksAt(disk, p) && rows.value[p] != Digest(disk[p])|
      && info.deletedFiles == |set p | p in rows.value && !LooksAt(disk, p) && rows.value[p] != Cleared|
  {
    info := StateInfo(Unindexed, 0, 0, 0, 0);
    if rows.None? {
      return;
    }
    info := info.(indexedFiles := |rows.value|);
    if |rows.value| == 0 {
      return;
    }
    ReadyMeaning(rows.value, disk);
    CountedSets(rows.value, disk);
    var current := HashFiles(disk, IsIndexableExt);
    var changed, deleted := CountStale(rows.value, current);
    info := StateInfo(if changed > 0 || deleted > 0 then Stale else Ready,
                      |rows.value|, changed, deleted, |current|);
  }

  /** The walk of the detector. */
  method HashFiles(disk: Tree, looksAt: Path -> bool) returns (current: map<Path, Hash>)
    ensures current == HashesWhere(disk, looksAt)
  {
    current := map[];
    var files := disk.Keys;
    while files != {}
      invariant files <= disk.Keys
      invariant forall p :: p in current <==> p in disk && p !in files && disk[p] != "" && looksAt(p)
      invariant forall p :: p in current ==> current[p] == Digest(disk[p])
    {
      var p :| p in files;
      files := files - {p};
      if disk[p] != "" && looksAt(p) {
        current := current[p := Digest(disk[p])];
      }
    }
  }

  /** The row loop of the detector. */
  method CountStale(rows: map<Path, Hash>, current: map<Path, Hash>) returns (changed: nat, deleted: nat)
    ensures changed == |ChangedRows(rows, current)| && deleted == |DeletedRows(rows, current)|
  {
    var pending := rows.Keys;
    ghost var c: set<Path>, d: set<Path> := {}, {};
    changed, deleted := 0, 0;
    while pending != {}
      invariant pending <= rows.Keys && changed == |c| && deleted == |d|
      invariant forall p :: p in c <==> p in rows && p !in pending && p in current && current[p] != rows[p]
      invariant forall p :: p in d <==> p in rows && p !in pending && p !in current && rows[p] != Cleared
    {
      var p :| p in pending;
      pending := pending - {p};
      if p in current {
        if current[p] != rows[p] {
          changed, c := changed + 1, c + {p};
        }
      } else if rows[p] != Cleared {
        deleted, d := deleted + 1, d + {p};
      }
    }
    assert c == ChangedRows(rows, current);
    assert d == DeletedRows(rows, current);
  }

  /** Every path in the tracking table is one the indexer can have put there. */
  ghost predicate OnlyTrackable(rows: map<Path, Hash>) {
    forall p :: p in rows ==> Trackable(p)
  }

  lemma {:induction false} TrackedIsTrackable(parse: Parser, ops: History, f: Path)
    ensures FileAfter(parse, ops, f).hash.Some? ==> Trackable(f)
  {
    if ops != [] {
      TrackedIsTrackable(parse, ops[..|ops| - 1], f);
    }
  }

  /** After any history the table tracks only such paths. */
  lemma HistoryKeepsTrackable(t: Tables, parse: Parser, ops: History)
    requires Realizes(t, parse, ops)
    ensures OnlyTrackable(t.files)
  {
    forall p | p in t.files ensures Trackable(p) {
      assert View(t, p) == FileAfter(parse, ops, p);
      TrackedIsTrackable(parse, ops, p);
    }
  }

  /** Every file a run looks at has its hash, every other row is cleared. */
  ghost predicate Settled(rows: map<Path, Hash>, disk: Tree) {
    && (forall p :: p in Seen(disk) ==> p in rows && rows[p] == Digest(disk[p]))
    && (forall p :: p in rows && p !in Seen(disk) ==> rows[p] == Cleared)
  }

  /** With such a table the state is Ready exactly when the detector knows the extension of every file the
      indexer looks at; otherwise the repository is reported stale for good. */
  lemma ReadyIff(rows: map<Path, Hash>, disk: Tree)
    requires Settled(rows, disk) && OnlyTrackable(rows)
    ensures StateOf(rows, disk)
      == if rows == map[] then Unindexed
         else if forall p :: p in Seen(disk) ==> IsIndexableExt(p) then Ready
         else Stale
  {
    var current := CurrentFiles(disk);
    forall p | p in rows
      ensures p !in ChangedRows(rows, current)
      ensures p in DeletedRows(rows, current) <==> p in Seen(disk) && !IsIndexableExt(p)
    {
      assert Trackable(p);
    }
    assert ChangedRows(rows, current) == {};
    if p :| p in Seen(disk) && !IsIndexableExt(p) {
      assert p in DeletedRows(rows, current);
    }
  }

  /** Right after the last run of any history. */
  lemma ReadyAfterRunIff(t: Tables, parse: Parser, ops: History)
    requires ops != [] && Last(ops).Index? && Realizes(t, parse, ops)
    ensures var disk := DiskAfter(ops);
      StateOf(t.files, disk)
      == if t.files == map[] then Unindexed
         else if forall p :: p in Seen(disk) ==> IsIndexableExt(p) then Ready
         else Stale
  {
    HistoryKeepsTrackable(t, parse, ops);
    forall p
      ensures p in Seen(DiskAfter(ops)) ==> p in t.files && t.files[p] == Digest(DiskAfter(ops)[p])
      ensures p in t.files && p !in Seen(DiskAfter(ops)) ==> t.files[p] == Cleared
    {
      LastRunSettles(t, parse, ops, p);
    }
    ReadyIff(t.files, DiskAfter(ops));
  }

  lemma LastRunSettles(t: Tables, parse: Parser, ops: History, p: Path)
    requires ops != [] && Last(ops).Index? && Realizes(t, parse, ops)
    ensures p in Seen(DiskAfter(ops)) ==> p in t.files && t.files[p] == Digest(DiskAfter(ops)[p])
    ensures p in t.files && p !in Seen(DiskAfter(ops)) ==> t.files[p] == Cleared
  {
    assert View(t, p) == FileAfter(parse, ops, p);
  }

  // ----- A repository that is never ready -----

  const CC := Path([], "a.cc")

  lemma CcExt()
    ensures Ext(CC.name) == ".cc" && Lower(".cc") == ".cc"
  {
    ExtOf("a", ".cc");
    assert "a" + ".cc" == "a.cc";
  }

  lemma CcIsParsedOnly()
    ensures IsParsed(".cc") && ".cc" !in INDEXABLE_EXTENSIONS
  {
  }

  lemma CcIsSeen(disk: Tree)
    requires CC in disk && disk[CC] != ""
    ensures CC in Seen(disk) && !IsIndexableExt(CC)
  {
    CcExt();
    CcIsParsedOnly();
  }

  /** A disk that holds a.cc and nothing else is stale right after it was indexed. */
  lemma CcIsStale(t: Tables, parse: Parser, cfg: IndexConfig)
    requires Realizes(t, parse, [Write(CC, "x"), Index(cfg)])
    ensures StateOf(t.files, map[CC := "x"]) == Stale
  {
    var ops: History := [Write(CC, "x"), Index(cfg)];
    var written: History := [] + [Write(CC, "x")];
    HistoryNext([], Write(CC, "x"), CC);
    HistoryNext(written, Index(cfg), CC);
    assert written + [Index(cfg)] == ops;
    assert DiskAfter(ops) == map[CC := "x"];
    CcIsSeen(DiskAfter(ops));
    LastRunSettles(t, parse, ops, CC);
    ReadyAfterRunIff(t, parse, ops);
  }

  /** From Ready, the tracked files the next run re-parses are those it once swept, that are back, and
      whose extension the detector does not know: it re-parses no other tracked file. */
  lemma FromReadyOnlyNewFiles(rows: map<Path, Hash>, disk: Tree, p: Path)
    requires StateOf(rows, disk) == Ready && p in rows
    ensures p in Seen(disk) - Unchanged(disk, rows) <==> p in Seen(disk) && rows[p] == Cleared && !IsIndexableExt(p)
  {
    assert p !in ChangedRows(rows, CurrentFiles(disk)) && p !in DeletedRows(rows, CurrentFiles(disk));
  }

  /** Ready does not mean that there is nothing left to index: that is so exactly when every file the indexer looks
      at is tracked, and was not swept before unless the detector knows its extension. */
  lemma ReadyIsIndexedIff(rows: map<Path, Hash>, disk: Tree)
    requires StateOf(rows, disk) == Ready
    ensures Seen(disk) == Unchanged(disk, rows)
      <==> forall p :: p in Seen(disk) ==> p in rows && (rows[p] == Cleared ==> IsIndexableExt(p))
  {
    forall p | p in rows
      ensures p in Seen(disk) - Unchanged(disk, rows) <==> p in Seen(disk) && rows[p] == Cleared && !IsIndexableExt(p)
    {
      FromReadyOnlyNewFiles(rows, disk, p);
    }
  }

  lemma RemovedIsStale(p: Path, x: string)
    ensures StateOf(map[p := Digest(x)], map[]) == Stale
    ensures (set q | q in map[p := Digest(x)] && !LooksAt(map[], q) && map[p := Digest(x)][q] != Cleared) == {p}
  {
    ReadyMeaning(map[p := Digest(x)], map[]);
    assert p in map[p := Digest(x)];
  }

  /** main.go is indexed and removed: the repository is stale, and one file is counted as deleted. */
  method StaleWithoutFile() returns (db: SymbolDB, info: StateInfo)
    ensures info.state == Stale && info.deletedFiles == 1 && info.changedFiles == 0 && MAIN in db.files
  {
    OnlyMain();
    db := new SymbolDB(NO_TABLES, SCHEMA_VERSION);
    var indexer := new SharedIndexer(db, EVERY_STAGE, ToyParse);
    var _ := indexer.Index(map[MAIN := "x"], [MAIN]);
    RemovedIsStale(MAIN, "x");
    info := DetectRepositoryState(Some(db.files), map[]);
  }

  const NEW := Path([], "new.go")

  lemma NewIsTrackable()
    ensures Trackable(NEW)
  {
    ExtOf("new", ".go");
    assert "new" + ".go" == "new.go";
    LowerGo();
    GoIsParsed();
  }

  lemma NewFileIsReady(p: Path, q: Path, x: string, y: string)
    requires p != q && IsIndexableExt(p) && Trackable(q) && x != "" && y != ""
    ensures StateOf(map[p := Digest(x)], map[p := x, q := y]) == Ready && q in Seen(map[p := x, q := y])
  {
    var rows, disk := map[p := Digest(x)], map[p := x, q := y];
    SourceOfTrackable(disk, q);
    assert p in rows && p in CurrentFiles(disk) && CurrentFiles(disk)[p] == Digest(x);
    assert ChangedRows(rows, CurrentFiles(disk)) == {} && DeletedRows(rows, CurrentFiles(disk)) == {};
  }

  lemma ReturnedFileIsReady(p: Path, x: string)
    requires !IsIndexableExt(p)
    ensures StateOf(map[p := Cleared], map[p := x]) == Ready
  {
    var rows, disk := map[p := Cleared], map[p := x];
    assert p in rows && p !in CurrentFiles(disk);
  }

  lemma MainAndNew()
    ensures MAIN != NEW && IsIndexableExt(MAIN) && Trackable(NEW)
  {
    MainExt();
    NewIsTrackable();
    assert |MAIN.name| == 7 && |NEW.name| == 6;
  }

  /** A new file nobody has indexed: the repository is Ready all the same. */
  method ReadyWithNewFile() returns (db: SymbolDB, info: StateInfo)
    ensures var disk := map[MAIN := "x", NEW := "y"];
      info.state == Ready && NEW in Seen(disk) && NEW !in db.files
  {
    OnlyMain();
    MainAndNew();
    db := new SymbolDB(NO_TABLES, SCHEMA_VERSION);
    var indexer := new SharedIndexer(db, EVERY_STAGE, ToyParse);
    var _ := indexer.Index(map[MAIN := "x"], [MAIN]);
    NewFileIsReady(MAIN, NEW, "x", "y");
    info := DetectRepositoryState(Some(db.files), map[MAIN := "x", NEW := "y"]);
  }

  lemma OnlyCc()
    ensures FilesAfterRun(map[], map[CC := "x"]) == map[CC := Digest("x")]
    ensures FilesAfterRun(map[CC := Digest("x")], map[]) == map[CC := Cleared]
    ensures CC in Seen(map[CC := "x"]) && !IsIndexableExt(CC)
  {
    CcIsSeen(map[CC := "x"]);
    assert Seen(map[CC := "x"]) == {CC} && Seen(map[]) == {};
  }

  /** a.cc was swept and is back: Ready again, and not indexed. */
  method ReadyWithReturnedFile() returns (db: SymbolDB, info: StateInfo)
    ensures info.state == Ready && CC in Seen(map[CC := "x"]) && db.files == map[CC := Cleared]
  {
    OnlyCc();
    db := new SymbolDB(NO_TABLES, SCHEMA_VERSION);
    var indexer := new SharedIndexer(db, EVERY_STAGE, ToyParse);
    var _ := indexer.Index(map[CC := "x"], [CC]);
    var _ := indexer.Index(map[], []);
    ReturnedFileIsReady(CC, "x");
    info := DetectRepositoryState(Some(db.files), map[CC := "x"]);
  }

  /** The parsed extensions the detector does not know. */
  lemma UnknownExtensions(p: Path)
    requires IsSupported(p)
    ensures IsIndexableExt(p) <==> Ext(p.name) == Lower(Ext(p.name)) && Ext(p.name) !in {".cc", ".cxx", ".hh"}
  {
    var e := Ext(p.name);
    if e in INDEXABLE_EXTENSIONS {
      IndexableIsLower(e);
    } else if e == Lower(e) {
      NotIndexable(e);
    }
  }

  lemma IndexableIsLower(e: string)
    requires e in INDEXABLE_EXTENSIONS
    ensures Lower(e) == e && e !in {".cc", ".cxx", ".hh"}
  {
  }

  lemma NotIndexable(e: string)
    requires e in PARSED_EXTENSIONS && e !in INDEXABLE_EXTENSIONS
    ensures e in {".cc", ".cxx", ".hh"}
  {
  }
}
