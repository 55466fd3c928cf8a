/** The symbol database: four tables and the statements that change them. */
module SymbolDb {
  import opened Wrappers
  import opened CallEdges
  import opened Disk

  /** symbol_files.file_hash. SHA-256 is taken to be injective, so a digest is the content it digests;
      `Cleared` is the empty string left behind by a deletion. */
  datatype Hash = Cleared | Digest(content: string)

  datatype Symbol = Symbol(name: string, kind: string, language: string,
                           startLine: int, endLine: int, signature: string, content: string)

  /** The primary key of the symbols table: a digest of these four columns. */
  datatype SymbolId = SymbolId(name: string, kind: string, file: Path, startLine: int)

  datatype Reference = Reference(symbolName: string, line: int, column: int, refType: string, context: string)

  /** A row together with its file column. (For a call edge, caller_file is the same path.) */
  datatype Filed<T> = Filed(file: Path, row: T)

  type SymbolTable = map<SymbolId, Filed<Symbol>>

  const SCHEMA_VERSION := 4

  function IdOf(s: Filed<Symbol>): SymbolId {
    SymbolId(s.row.name, s.row.kind, s.file, s.row.startLine)
  }

  function Stamp<T>(f: Path, rows: seq<T>): (r: seq<Filed<T>>)
    ensures |r| == |rows|
    ensures forall i :: 0 <= i < |r| ==> r[i] == Filed(f, rows[i])
  {
    seq(|rows|, i requires 0 <= i < |rows| => Filed(f, rows[i]))
  }

  /** DELETE ... WHERE file = f, on a table with a row order. */
  function DropRows<T>(rows: seq<Filed<T>>, f: Path): seq<Filed<T>> {
    if rows == [] then []
    else if rows[0].file == f then DropRows(rows[1..], f)
    else [rows[0]] + DropRows(rows[1..], f)
  }

  /** SELECT ... WHERE file = f. */
  function RowsOf<T>(rows: seq<Filed<T>>, f: Path): seq<T> {
    if rows == [] then []
    else if rows[0].file == f then [rows[0].row] + RowsOf(rows[1..], f)
    else RowsOf(rows[1..], f)
  }

  function DropSymbols(m: SymbolTable, f: Path): SymbolTable {
    map id | id in m && m[id].file != f :: m[id]
  }

  function SymbolsOf(m: SymbolTable, f: Path): SymbolTable {
    map id | id in m && m[id].file == f :: m[id]
  }

  /** INSERT OR REPLACE, row after row: of two rows with one key the later stays. */
  function Upsert(m: SymbolTable, rows: seq<Filed<Symbol>>): SymbolTable {
    if rows == [] then m
    else var last := rows[|rows| - 1]; Upsert(m, rows[..|rows| - 1])[IdOf(last) := last]
  }

  datatype Tables = Tables(symbols: SymbolTable, files: map<Path, Hash>,
                           refs: seq<Filed<Reference>>, calls: seq<Filed<CallEdge>>)

  const NO_TABLES := Tables(map[], map[], [], [])

  /** Everything the tables say about one file. */
  datatype FileView = FileView(hash: Option<Hash>, symbols: SymbolTable,
                               refs: seq<Reference>, calls: seq<CallEdge>)

  const UNTRACKED := FileView(None, map[], [], [])

  function View(t: Tables, f: Path): FileView {
    FileView(if f in t.files then Some(t.files[f]) else None,
             SymbolsOf(t.symbols, f), RowsOf(t.refs, f), RowsOf(t.calls, f))
  }

  /** The file column of a symbol is part of its key. */
  ghost predicate WellKeyed(m: SymbolTable) {
    forall id :: id in m ==> id == IdOf(m[id])
  }

  // ----- What the symbols table holds -----

  ghost predicate Holds(m: SymbolTable, s: Filed<Symbol>) {
    exists id :: id in m && m[id] == s
  }

  /** The two rows agree on the four columns of the key. */
  predicate SameKey(a: Filed<Symbol>, b: Filed<Symbol>) {
    a.row.name == b.row.name && a.row.kind == b.row.kind && a.file == b.file && a.row.startLine == b.row.startLine
  }

  ghost predicate LastAt(rows: seq<Filed<Symbol>>, s: Filed<Symbol>, i: int) {
    0 <= i < |rows| && rows[i] == s && forall j :: i < j < |rows| ==> !SameKey(rows[j], s)
  }

  /** s is one of the rows, and no later one has its key. */
  ghost predicate LastOfKey(rows: seq<Filed<Symbol>>, s: Filed<Symbol>) {
    exists i :: LastAt(rows, s, i)
  }

  ghost predicate KeyOccurs(rows: seq<Filed<Symbol>>, s: Filed<Symbol>) {
    exists i :: 0 <= i < |rows| && SameKey(rows[i], s)
  }

  lemma HeldUnderKey(m: SymbolTable, s: Filed<Symbol>)
    requires WellKeyed(m)
    ensures Holds(m, s) <==> IdOf(s) in m && m[IdOf(s)] == s
  {
  }

  lemma LastOfKeyPush(rows: seq<Filed<Symbol>>, last: Filed<Symbol>, s: Filed<Symbol>)
    ensures LastOfKey(rows + [last], s) <==> s == last || (LastOfKey(rows, s) && !SameKey(last, s))
  {
    var all := rows + [last];
    assert all[|rows|] == last;
    forall i | 0 <= i < |rows| ensures LastAt(all, s, i) <==> LastAt(rows, s, i) && !SameKey(last, s) {
      assert forall j :: 0 <= j < |rows| ==> all[j] == rows[j];
    }
    assert LastAt(all, s, |rows|) <==> s == last;
  }

  lemma KeyOccursPush(rows: seq<Filed<Symbol>>, last: Filed<Symbol>, s: Filed<Symbol>)
    ensures KeyOccurs(rows + [last], s) <==> KeyOccurs(rows, s) || SameKey(last, s)
  {
    var all := rows + [last];
    assert all[|rows|] == last && forall i :: 0 <= i < |rows| ==> all[i] == rows[i];
  }

  /** After rows were stored the table holds each of them that no later one of the same key replaces, whole, and of what
      it held before exactly the rows with other keys. */
  lemma {:induction false} StoredIff(m: SymbolTable, rows: seq<Filed<Symbol>>, s: Filed<Symbol>)
    requires WellKeyed(m)
    ensures WellKeyed(Upsert(m, rows))
    ensures Holds(Upsert(m, rows), s) <==> LastOfKey(rows, s) || (Holds(m, s) && !KeyOccurs(rows, s))
  {
    if rows != [] {
      var before, last := rows[..|rows| - 1], rows[|rows| - 1];
      StoredIff(m, before, s);
      assert rows == before + [last];
      LastOfKeyPush(before, last, s);
      KeyOccursPush(before, last, s);
      HeldUnderKey(Upsert(m, before), s);
      HeldUnderKey(Upsert(m, rows), s);
      assert IdOf(last) == IdOf(s) <==> SameKey(last, s);
    }
  }

  /** No two rows of a table agree on the four columns. */
  lemma KeysAreUnique(m: SymbolTable, a: Filed<Symbol>, b: Filed<Symbol>)
    requires WellKeyed(m) && Holds(m, a) && Holds(m, b) && SameKey(a, b)
    ensures a == b
  {
    HeldUnderKey(m, a);
    HeldUnderKey(m, b);
  }

  /** Storing rows of file f touches no other file's rows and keeps the keys consistent. */
  lemma {:induction false} UpsertView(m: SymbolTable, f: Path, rows: seq<Filed<Symbol>>, g: Path)
    requires WellKeyed(m)
    requires forall i :: 0 <= i < |rows| ==> rows[i].file == f
    ensures WellKeyed(Upsert(m, rows))
    ensures SymbolsOf(Upsert(m, rows), g) == if g == f then Upsert(SymbolsOf(m, f), rows) else SymbolsOf(m, g)
  {
    if rows != [] {
      UpsertView(m, f, rows[..|rows| - 1], g);
    }
  }

  class SymbolDB {
    var version: int  // 0 until the version row is written
    var symbols: SymbolTable
    var files: map<Path, Hash>
    var refs: seq<Filed<Reference>>
    var calls: seq<Filed<CallEdge>>

    function Content(): Tables
      reads this
    {
      Tables(symbols, files, refs, calls)
    }

    /** Opens a database file holding the tables `t` written by schema version `found`. */
    constructor (t: Tables, found: int)
      ensures version == SCHEMA_VERSION
      ensures Content() == if found == SCHEMA_VERSION then t else NO_TABLES
    {
      version, symbols, files, refs, calls := found, t.symbols, t.files, t.refs, t.calls;
      new;
      if version != SCHEMA_VERSION {
        version := SCHEMA_VERSION;
        symbols := map[];
        files := map[];
        refs := [];
        calls := [];
      }
    }

    method StoreSymbols(rows: seq<Filed<Symbol>>)
      modifies this`symbols
      ensures symbols == Upsert(old(symbols), rows)
      ensures old(WellKeyed(symbols)) ==> forall s :: Holds(symbols, s) <==>
        LastOfKey(rows, s) || (Holds(old(symbols), s) && !KeyOccurs(rows, s))
    {
      for i := 0 to |rows|
        invariant symbols == Upsert(old(symbols), rows[..i])
      {
        assert rows[..i + 1][..i] == rows[..i];
        symbols := symbols[IdOf(rows[i]) := rows[i]];
      }
      assert rows[..|rows|] == rows;
      if old(WellKeyed(symbols)) {
        forall s
          ensures Holds(symbols, s) <==> LastOfKey(rows, s) || (Holds(old(symbols), s) && !KeyOccurs(rows, s))
        {
          StoredIff(old(symbols), rows, s);
        }
      }
    }

    method ClearFile(f: Path)
      modifies this`symbols
      ensures symbols == DropSymbols(old(symbols), f)
    {
      symbols := map id | id in symbols && symbols[id].file != f :: symbols[id];
    }

    method StoreReferences(rows: seq<Filed<Reference>>)
      modifies this`refs
      ensures refs == old(refs) + rows
    {
      for i := 0 to |rows|
        invariant refs == old(refs) + rows[..i]
      {
        refs := refs + [rows[i]];
      }
    }

    method ClearFileReferences(f: Path)
      modifies this`refs
      ensures refs == DropRows(old(refs), f)
    {
      refs := DropRows(refs, f);
    }

    method StoreCallEdges(rows: seq<Filed<CallEdge>>)
      modifies this`calls
      ensures calls == old(calls) + rows
    {
      for i := 0 to |rows|
        invariant calls == old(calls) + rows[..i]
      {
        calls := calls + [rows[i]];
      }
    }

    method ClearFileCallEdges(f: Path)
      modifies this`calls
      ensures calls == DropRows(old(calls), f)
    {
      calls := DropRows(calls, f);
    }

    method MarkFileIndexed(f: Path, hash: Hash)
      modifies this`files
      ensures files == old(files)[f := hash]
    {
      files := files[f := hash];
    }

    method GetFilesByHash() returns (r: map<Path, Hash>)
      ensures r == files
    {
      r := files;
    }
  }

  lemma {:induction false} RowsOfDrop<T>(rows: seq<Filed<T>>, f: Path, g: Path)
    ensures RowsOf(DropRows(rows, f), g) == if g == f then [] else RowsOf(rows, g)
  {
    if rows != [] {
      RowsOfDrop(rows[1..], f, g);
      if rows[0].file != f {
        assert ([rows[0]] + DropRows(rows[1..], f))[1..] == DropRows(rows[1..], f);
      }
    }
  }

  lemma {:induction false} RowsOfAppend<T>(rows: seq<Filed<T>>, f: Path, xs: seq<T>, g: Path)
    ensures RowsOf(rows + Stamp(f, xs), g) == if g == f then RowsOf(rows, g) + xs else RowsOf(rows, g)
  {
    if rows != [] {
      assert (rows + Stamp(f, xs))[1..] == rows[1..] + Stamp(f, xs);
      RowsOfAppend(rows[1..], f, xs, g);
    } else if xs != [] {
      assert rows + Stamp(f, xs) == Stamp(f, xs);
      assert Stamp(f, xs)[1..] == [] + Stamp(f, xs[1..]);
      RowsOfAppend([], f, xs[1..], g);
    }
  }
}
