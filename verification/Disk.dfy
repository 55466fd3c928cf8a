/** The repository's working tree as the indexer and the staleness detector see it:
    which paths a directory walk reaches, and which of them each of the two looks at. */
module Disk {
  import opened Wrappers
  import opened Text

  /** A file path relative to the repository root. */
  datatype Path = Path(dirs: seq<string>, name: string)

  /** Every regular file below the root with its bytes. */
  type Tree = map<Path, string>

  /** filepath.Ext: the suffix that starts at the last dot of the file name. */
  function Ext(name: string): string {
    if name == "" then ""
    else
      var rest := Ext(name[1..]);
      if rest != "" then rest else if name[0] == '.' then name else ""
  }

  lemma {:induction false} ExtMeaning(name: string)
    ensures |Ext(name)| <= |name| && name[|name| - |Ext(name)|..] == Ext(name)
    ensures Ext(name) == "" <==> '.' !in name
    ensures Ext(name) != "" ==> Ext(name)[0] == '.' && '.' !in Ext(name)[1..]
  {
    if name != "" {
      ExtMeaning(name[1..]);
    }
  }

  /** A name that ends in a dot and a word has them as its extension. */
  lemma {:induction false} ExtOf(base: string, e: string)
    requires e != "" && e[0] == '.' && '.' !in e[1..]
    ensures Ext(base + e) == e
  {
    if base == "" {
      assert base + e == e;
      ExtMeaning(e[1..]);
    } else {
      assert (base + e)[1..] == base[1..] + e;
      ExtOf(base[1..], e);
    }
  }

  /** Directories no index descends into. */
  const SKIPPED_DIRS: set<string> :=
    {".git", "node_modules", "vendor", ".venv", "venv", "__pycache__", ".next", "dist",
     "build", "target", ".idea", ".vscode", ".DS_Store", ".mycli-fts"}

  /** Extensions of the parsed languages. */
  const PARSED_EXTENSIONS: set<string> :=
    {".go", ".py", ".js", ".jsx", ".mjs", ".ts", ".tsx", ".rs", ".java", ".c", ".h",
     ".cpp", ".cc", ".cxx", ".hpp", ".hh", ".cs", ".rb", ".php"}

  /** The staleness detector's own list. */
  const INDEXABLE_EXTENSIONS: set<string> :=
    {".go", ".py", ".js", ".jsx", ".ts", ".tsx", ".mjs", ".rs", ".rb", ".java", ".c", ".cpp",
     ".h", ".hpp", ".cs", ".php", ".swift", ".kt", ".scala", ".sh", ".sql", ".html", ".css",
     ".json", ".yaml", ".yml", ".md", ".toml", ".lua", ".zig"}

  predicate IsParsed(e: string) {
    e in PARSED_EXTENSIONS
  }

  predicate InSkippedDir(p: Path) {
    exists d :: d in p.dirs && d in SKIPPED_DIRS
  }

  /** Letter case does not matter here ... */
  predicate IsSupported(p: Path) {
    IsParsed(Lower(Ext(p.name)))
  }

  /** ... but it does here. */
  predicate IsIndexableExt(p: Path) {
    Ext(p.name) in INDEXABLE_EXTENSIONS
  }

  /** A path the indexer may ever track. */
  predicate Trackable(p: Path) {
    !InSkippedDir(p) && IsSupported(p)
  }

  /** The content the indexer reads for p, if its walk gets that far. */
  function Source(disk: Tree, p: Path): Option<string> {
    if p in disk && !InSkippedDir(p) && disk[p] != "" && IsSupported(p) then Some(disk[p]) else None
  }

  /** A file counts unless a directory anywhere above it is skipped; a directory of any other name is walked. */
  lemma SkippedIff(dirs: seq<string>, name: string)
    ensures InSkippedDir(Path(dirs, name)) <==> exists i :: 0 <= i < |dirs| && dirs[i] in SKIPPED_DIRS
    ensures InSkippedDir(Path(["web", "node_modules", "lib"], "main.js"))
    ensures !InSkippedDir(Path(["web", "src"], "main.js"))
  {
    assert ["web", "node_modules", "lib"][1] == "node_modules";
    assert |"web"| == 3 && |"src"| == 3 && "web"[0] == 'w' && "src"[0] == 's';
    assert forall d :: d in SKIPPED_DIRS ==> |d| != 3;
    assert forall d :: d in ["web", "src"] ==> |d| == 3;
  }

  /** The order in which a walk visits the files; each file once. */
  ghost predicate Walks(walk: seq<Path>, disk: Tree) {
    && (forall p :: p in walk <==> p in disk)
    && forall i, j :: 0 <= i < j < |walk| ==> walk[i] != walk[j]
  }
}
