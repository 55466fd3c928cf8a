/** Editing the Codex TOML file by lines: one section is added, replaced by name, or cut out. */
module CodexConfig {
  import opened Wrappers
  import opened Text

  predicate IsNewline(c: char) {
    c == '\n'
  }

  // ----- Cutting a section out of a list of lines -----

  /** The section to cut. With `own`, a line that merely begins with the header does not end it. */
  datatype Section = Section(header: string, own: bool)

  predicate IsHeader(sec: Section, line: string) {
    TrimSpace(line) == sec.header
  }

  predicate EndsSection(sec: Section, line: string) {
    HasPrefix(TrimSpace(line), "[") && !(sec.own && HasPrefix(TrimSpace(line), sec.header))
  }

  /** The flag `skip` after the first n lines. */
  function Skipping(sec: Section, lines: seq<string>, n: nat): bool
    requires n <= |lines|
  {
    n > 0 && (IsHeader(sec, lines[n - 1]) || (Skipping(sec, lines, n - 1) && !EndsSection(sec, lines[n - 1])))
  }

  /** The kept ones of the first n lines. */
  function Kept(sec: Section, lines: seq<string>, n: nat): seq<string>
    requires n <= |lines|
  {
    if n == 0 then [] else Kept(sec, lines, n - 1) + if Skipping(sec, lines, n) then [] else [lines[n - 1]]
  }

  /** Line i belongs to the section whose header is line j: no other section begins in between. */
  ghost predicate SectionFrom(sec: Section, lines: seq<string>, j: int, i: nat)
    requires i < |lines|
  {
    && 0 <= j <= i && IsHeader(sec, lines[j])
    && forall k :: j < k <= i ==> IsHeader(sec, lines[k]) || !EndsSection(sec, lines[k])
  }

  /** Line i belongs to the section: a header stands at or above it with no other section between. */
  ghost predicate InSection(sec: Section, lines: seq<string>, i: nat)
    requires i < |lines|
  {
    exists j :: SectionFrom(sec, lines, j, i)
  }

  lemma SectionGoesOn(sec: Section, lines: seq<string>, j: int, i: nat)
    requires 0 < i < |lines| && j < i
    ensures SectionFrom(sec, lines, j, i)
      <==> SectionFrom(sec, lines, j, i - 1) && (IsHeader(sec, lines[i]) || !EndsSection(sec, lines[i]))
  {
  }

  /** A line is dropped if and only if it belongs to the section. */
  lemma {:induction false} SkippingMeaning(sec: Section, lines: seq<string>, i: nat)
    requires i < |lines|
    ensures Skipping(sec, lines, i + 1) <==> InSection(sec, lines, i)
  {
    if IsHeader(sec, lines[i]) {
      assert SectionFrom(sec, lines, i, i);
    } else if i > 0 {
      SkippingMeaning(sec, lines, i - 1);
      if InSection(sec, lines, i - 1) {
        var above := i - 1;
        var j :| SectionFrom(sec, lines, j, above);
        SectionGoesOn(sec, lines, j, i);
      }
      if j :| SectionFrom(sec, lines, j, i) {
        SectionGoesOn(sec, lines, j, i);
      }
    } else {
      assert forall j :: SectionFrom(sec, lines, j, 0) ==> j == 0;
    }
  }

  /** Removing a section from a text. A text that does not mention the header is left alone. */
  function Removed(sec: Section, text: string): string {
    if !Contains(text, sec.header) then text
    else TrimLeft(Join(Kept(sec, Lines(text), |Lines(text)|)), IsNewline)
  }

  method RemoveSection(sec: Section, text: string) returns (r: string)
    ensures r == Removed(sec, text)
  {
    if !Contains(text, sec.header) {
      return text;
    }
    var lines := Lines(text);
    var out := [];
    var skip := false;
    for i := 0 to |lines|
      invariant skip == Skipping(sec, lines, i)
      invariant out == Kept(sec, lines, i)
    {
      var line := lines[i];
      if TrimSpace(line) == sec.header {
        skip := true;
        continue;
      }
      if skip && EndsSection(sec, line) {
        skip := false;
      }
      if !skip {
        out := out + [line];
      }
    }
    return TrimLeft(Join(out), IsNewline);
  }

  // ----- Removing twice -----

  lemma {:induction false} KeptHasNoHeader(sec: Section, lines: seq<string>, n: nat)
    requires n <= |lines|
    ensures forall l :: l in Kept(sec, lines, n) ==> l in lines && !IsHeader(sec, l)
  {
    if n > 0 {
      KeptHasNoHeader(sec, lines, n - 1);
    }
  }

  lemma {:induction false} KeptAll(sec: Section, lines: seq<string>, n: nat)
    requires n <= |lines| && forall i :: 0 <= i < n ==> !IsHeader(sec, lines[i])
    ensures !Skipping(sec, lines, n) && Kept(sec, lines, n) == lines[..n]
  {
    if n > 0 {
      KeptAll(sec, lines, n - 1);
    }
  }

  lemma {:induction false} TrimLeftLines(text: string)
    ensures forall l :: l in Lines(TrimLeft(text, IsNewline)) ==> l in Lines(text)
  {
    if text != "" && IsNewline(text[0]) {
      TrimLeftLines(text[1..]);
      assert Lines(text) == [""] + Lines(text[1..]);
    }
  }

  lemma {:induction false} TrimLeftTwice(s: string)
    ensures TrimLeft(TrimLeft(s, IsNewline), IsNewline) == TrimLeft(s, IsNewline)
  {
    if s != "" && IsNewline(s[0]) {
      TrimLeftTwice(s[1..]);
    }
  }

  lemma NoHeaderNoCut(sec: Section, text: string)
    requires forall l :: l in Lines(text) ==> !IsHeader(sec, l)
    ensures Removed(sec, text) == text || Removed(sec, text) == TrimLeft(text, IsNewline)
  {
    var lines := Lines(text);
    KeptAll(sec, lines, |lines|);
    assert lines[..|lines|] == lines;
    JoinLines(text);
  }

  /** No line of the result is a header. */
  lemma RemovedHasNoHeader(sec: Section, text: string)
    requires sec.header != "" && Contains(text, sec.header)
    ensures forall l :: l in Lines(Removed(sec, text)) ==> !IsHeader(sec, l)
  {
    var lines := Lines(text);
    var kept := Kept(sec, lines, |lines|);
    KeptHasNoHeader(sec, lines, |lines|);
    TrimLeftLines(Join(kept));
    if kept == [] {
      assert Lines("") == [""] && TrimSpace("") == "";
    } else {
      NoNewlineInLines(text);
      LinesOfJoin(kept);
    }
  }

  /** On any text, removing a section a second time changes nothing. */
  lemma RemovedTwice(sec: Section, text: string)
    requires sec.header != ""
    ensures Removed(sec, Removed(sec, text)) == Removed(sec, text)
  {
    if Contains(text, sec.header) {
      RemovedHasNoHeader(sec, text);
      NoHeaderNoCut(sec, Removed(sec, text));
      TrimLeftTwice(Join(Kept(sec, Lines(text), |Lines(text)|)));
    }
  }

  // ----- Installing and uninstalling -----

  datatype Action = Created | Updated | Unchanged | Deleted | NotFound

  /** The two sections: the one installed, and the one installed before the program was renamed. */
  datatype Entry = Entry(header: string, oldHeader: string, body: string)

  function Block(e: Entry): string {
    e.header + "\n" + e.body
  }

  /** The file after an install; None if it is not written. */
  function Installed(e: Entry, text: string): Option<string> {
    var rest := Removed(Section(e.oldHeader, false), text);
    if Contains(rest, e.header) then None
    else
      var trimmed := TrimRight(rest, IsNewline);
      var sep := if trimmed == "" then "" else "\n\n";
      Some(trimmed + sep + Block(e))
  }

  function Uninstalled(e: Entry, text: string): string {
    Removed(Section(e.header, true), text)
  }

  /** The header is one trimmed line, and no line of the body begins another section. */
  ghost predicate Usable(e: Entry) {
    && e.header != "" && '\n' !in e.header && TrimSpace(e.header) == e.header
    && forall l :: l in Lines(e.body) ==> !HasPrefix(TrimSpace(l), "[")
  }

  /** And it is the header of a TOML table, another one than before the renaming. */
  ghost predicate Proper(e: Entry) {
    Usable(e) && HasPrefix(e.header, "[") && e.header != e.oldHeader && e.oldHeader != ""
  }

  class ConfigFile {
    var file: Option<string>

    constructor (file: Option<string>)
      ensures this.file == file
    {
      this.file := file;
    }

    /** When an entry is already there nothing is written, not even the removal of the old section, and
        not even if the entry differs from the block: then the action says "updated" all the same. */
    method WriteMcpEntry(e: Entry) returns (action: Action)
      modifies this
      ensures var text := if old(file).Some? then old(file).value else "";
              var rest := Removed(Section(e.oldHeader, false), text);
              && file == (if Installed(e, text).Some? then Installed(e, text) else old(file))
              && action == if Installed(e, text).None? then (if Contains(rest, Block(e)) then Unchanged else Updated)
                           else if rest == "" then Created else Updated
      ensures var rest := Removed(Section(e.oldHeader, false), if old(file).Some? then old(file).value else "");
              Proper(e) ==>
                (action.Updated? && file == old(file) <==> Contains(rest, e.header) && !Contains(rest, Block(e)))
    {
      var existing := if file.Some? then file.value else "";
      existing := RemoveSection(Section(e.oldHeader, false), existing);
      var created := |existing| == 0;
      if Contains(existing, e.header) {
        if Contains(existing, Block(e)) {
          return Unchanged;
        }
        return Updated;
      }
      var trimmed := TrimRight(existing, IsNewline);
      var sep := "";
      if trimmed != "" {
        sep := "\n\n";
      }
      file := Some(trimmed + sep + Block(e));
      if Proper(e) {
        InstalledDiffers(e, if old(file).Some? then old(file).value else "");
      }
      return if created then Created else Updated;
    }

    method Uninstall(e: Entry) returns (action: Action)
      modifies this
      ensures file == (if old(file).Some? then Some(Uninstalled(e, old(file).value)) else None)
      ensures action == if old(file).Some? && Contains(old(file).value, e.header) then Deleted else NotFound
    {
      if file.None? || !Contains(file.value, e.header) {
        return NotFound;
      }
      var result := RemoveSection(Section(e.header, true), file.value);
      file := Some(result);
      return Deleted;
    }
  }

  // ----- Uninstalling what was installed -----

  /** From a header on, a section without a following one reaches to the end. */
  lemma {:induction false} KeptBefore(sec: Section, lines: seq<string>, a: nat, n: nat)
    requires a < n <= |lines| && IsHeader(sec, lines[a])
    requires forall i :: a < i < n ==> !EndsSection(sec, lines[i])
    ensures Skipping(sec, lines, n) && Kept(sec, lines, n) == Kept(sec, lines, a)
  {
    if n > a + 1 {
      KeptBefore(sec, lines, a, n - 1);
    }
  }

  /** Cutting the last section of a text made of headerless lines, a header and a body. */
  lemma CutLast(e: Entry, before: seq<string>)
    requires Usable(e) && forall l :: l in before ==> TrimSpace(l) != e.header
    ensures var sec, lines := Section(e.header, true), before + ([e.header] + Lines(e.body));
            Kept(sec, lines, |lines|) == before
  {
    var sec, lines := Section(e.header, true), before + ([e.header] + Lines(e.body));
    forall i | 0 <= i < |before| ensures !IsHeader(sec, lines[i]) {
      assert lines[i] in before;
    }
    KeptAll(sec, lines, |before|);
    assert lines[..|before|] == before;
    forall i | |before| < i < |lines| ensures !EndsSection(sec, lines[i]) {
      assert lines[i] == Lines(e.body)[i - |before| - 1];
    }
    KeptBefore(sec, lines, |before|, |lines|);
  }

  lemma BlockLines(e: Entry)
    requires Usable(e)
    ensures Lines(Block(e)) == [e.header] + Lines(e.body)
    ensures Contains(Block(e), e.header)
  {
    LinesJoin(e.header, e.body);
    LinesOfLine(e.header);
    assert Block(e)[0..|e.header|] == e.header;
    IndexIs(Block(e), e.header, 0);
  }

  /** What is left of a text that was installed into and uninstalled from. */
  function Core(text: string): string {
    var core := TrimLeft(TrimRight(text, IsNewline), IsNewline);
    if core == "" then "" else core + "\n"
  }

  lemma UninstallBlock(e: Entry)
    requires Usable(e)
    ensures Uninstalled(e, Block(e)) == ""
  {
    BlockLines(e);
    CutLast(e, []);
    assert [] + ([e.header] + Lines(e.body)) == Lines(Block(e));
  }

  lemma InstalledLines(e: Entry, trimmed: string)
    requires Usable(e)
    ensures Lines(trimmed + "\n" + ("\n" + Block(e))) == (Lines(trimmed) + [""]) + ([e.header] + Lines(e.body))
  {
    var block, tail := Block(e), "\n" + Block(e);
    var inner := [e.header] + Lines(e.body);
    assert Lines(block) == inner by { BlockLines(e); }
    assert Lines(tail) == [""] + inner by { LinesCons('\n', block); }
    LinesJoin(trimmed, tail);
    assert Lines(trimmed) + ([""] + inner) == (Lines(trimmed) + [""]) + inner;
  }

  lemma NoHeaderBefore(e: Entry, trimmed: string, l: string)
    requires Usable(e) && !Contains(trimmed, e.header) && l in Lines(trimmed) + [""]
    ensures TrimSpace(l) != e.header
  {
    if l in Lines(trimmed) {
      TrimmedLineContained(trimmed, l);
    } else {
      assert TrimSpace("") == "";
    }
  }

  lemma UninstallAppended(e: Entry, trimmed: string, text: string)
    requires Usable(e) && trimmed != "" && !IsNewline(trimmed[|trimmed| - 1]) && !Contains(trimmed, e.header)
    requires text == trimmed + "\n" + ("\n" + Block(e))
    ensures Uninstalled(e, text) == TrimLeft(trimmed, IsNewline) + "\n"
  {
    var before := Lines(trimmed) + [""];
    InstalledLines(e, trimmed);
    forall l | l in before ensures TrimSpace(l) != e.header {
      NoHeaderBefore(e, trimmed, l);
    }
    CutLast(e, before);
    HeaderInside(e, trimmed, text);
    JoinBefore(trimmed);
    TrimAppended(trimmed);
  }

  lemma HeaderInside(e: Entry, trimmed: string, text: string)
    requires e.header != "" && text == trimmed + "\n" + ("\n" + Block(e))
    ensures Contains(text, e.header)
  {
    var i := |trimmed| + 2;
    assert text[i..i + |e.header|] == e.header;
    IndexMeaning(text, e.header);
    assert At(text, e.header, i);
  }

  lemma JoinBefore(trimmed: string)
    ensures Join(Lines(trimmed) + [""]) == trimmed + "\n"
  {
    LinesJoin(trimmed, "");
    assert trimmed + "\n" + "" == trimmed + "\n";
    JoinLines(trimmed + "\n");
  }

  lemma TrimAppended(trimmed: string)
    requires trimmed != "" && !IsNewline(trimmed[|trimmed| - 1])
    ensures TrimLeft(trimmed + "\n", IsNewline) == TrimLeft(trimmed, IsNewline) + "\n"
    ensures TrimLeft(trimmed, IsNewline) != ""
  {
    if TrimLeft(trimmed, IsNewline) == "" {
      TrimLeftCuts(trimmed, IsNewline, |trimmed| - 1);
    }
    TrimLeftAppend(trimmed, "\n", IsNewline);
  }

  /** For a text that mentions neither header, uninstalling what was installed returns the text up to
      newlines at its two ends. */
  lemma UninstallUndoesInstall(e: Entry, text: string)
    requires Usable(e) && !Contains(text, e.header) && !Contains(text, e.oldHeader)
    ensures Installed(e, text).Some? && Uninstalled(e, Installed(e, text).value) == Core(text)
  {
    var trimmed := TrimRight(text, IsNewline);
    TrimRightIsHead(text, IsNewline);
    if trimmed == "" {
      assert "" + "" + Block(e) == Block(e);
      UninstallBlock(e);
    } else {
      SeparatorIsTwoNewlines(trimmed, Block(e));
      HeadHasNone(text, |trimmed|, e.header);
      UninstallAppended(e, trimmed, Installed(e, text).value);
      TrimAppended(trimmed);
    }
  }

  ghost predicate AllNewlines(s: string) {
    forall i :: 0 <= i < |s| ==> s[i] == '\n'
  }

  lemma {:induction false} NewlinesInFront(s: string)
    ensures var r := TrimLeft(s, IsNewline);
      s[|s| - |r|..] == r && AllNewlines(s[..|s| - |r|]) && (r != "" ==> r[0] != '\n')
  {
    if s != "" && s[0] == '\n' {
      NewlinesInFront(s[1..]);
      var k := |s| - |TrimLeft(s, IsNewline)|;
      assert s[..k] == [s[0]] + s[1..][..k - 1];
    }
  }

  lemma {:induction false} NewlinesBehind(s: string)
    ensures var r := TrimRight(s, IsNewline);
      s[..|r|] == r && AllNewlines(s[|r|..]) && (r != "" ==> r[|r| - 1] != '\n')
  {
    if s != "" && s[|s| - 1] == '\n' {
      NewlinesBehind(s[..|s| - 1]);
      var k := |TrimRight(s, IsNewline)|;
      assert s[k..] == s[..|s| - 1][k..] + [s[|s| - 1]];
    }
  }

  /** That text is the original with the newlines at its two ends gone and one newline at its end; it is empty if
      the original held nothing but newlines. */
  lemma CoreMeaning(text: string) returns (i: nat, j: nat)
    ensures i <= j <= |text| && AllNewlines(text[..i]) && AllNewlines(text[j..])
    ensures i < j ==> text[i] != '\n' && text[j - 1] != '\n'
    ensures Core(text) == if i < j then text[i..j] + "\n" else ""
  {
    var right := TrimRight(text, IsNewline);
    NewlinesBehind(text);
    NewlinesInFront(right);
    i, j := |right| - |TrimLeft(right, IsNewline)|, |right|;
    assert text[..i] == right[..i] && text[i..j] == right[i..];
  }

  lemma SeparatorIsTwoNewlines(a: string, b: string)
    ensures a + "\n\n" + b == a + "\n" + ("\n" + b)
  {
  }

  lemma HeadHasNone(text: string, n: nat, sub: string)
    requires n <= |text| && !Contains(text, sub)
    ensures !Contains(text[..n], sub)
  {
    assert text[..n] + text[n..] == text;
    if Contains(text[..n], sub) {
      IndexPrefix(text[..n], text[n..], sub);
    }
  }

  // ----- A header with something behind it -----

  /** A line that begins with the header is part of the section when the program's own entry is cut out, and ends
      the section when the entry from before the renaming is. */
  lemma CommentedHeader(e: Entry, comment: string)
    requires Usable(e) && e.header[0] == '[' && '\n' !in comment
    requires comment != "" && !IsSpace(comment[|comment| - 1])
    ensures var text := Block(e) + "\n" + (e.header + comment);
      Uninstalled(e, text) == "" && Removed(Section(e.header, false), text) == e.header + comment
  {
    var line := e.header + comment;
    var text := Block(e) + "\n" + line;
    var lines := Lines(text);
    CommentedLines(e, line);
    assert TrimSpace(line) == line;
    assert line[..|e.header|] == e.header && line[..1] == "[";
    forall i | 0 < i < |lines| - 1 ensures !HasPrefix(TrimSpace(lines[i]), "[") {
      assert lines[i] == Lines(e.body)[i - 1];
    }
    CommentedKept(e, lines, line);
    HeaderFirst(e, text);
    assert Join([line]) == line && Join([]) == "";
  }

  lemma CommentedLines(e: Entry, line: string)
    requires Usable(e) && '\n' !in line
    ensures Lines(Block(e) + "\n" + line) == [e.header] + Lines(e.body) + [line]
  {
    LinesJoin(Block(e), line);
    LinesOfLine(line);
    BlockLines(e);
  }

  lemma CommentedKept(e: Entry, lines: seq<string>, line: string)
    requires Usable(e) && HasPrefix(line, "[") && HasPrefix(line, e.header) && TrimSpace(line) == line != e.header
    requires |lines| > 1 && lines[0] == e.header && lines[|lines| - 1] == line
    requires forall i :: 0 < i < |lines| - 1 ==> !HasPrefix(TrimSpace(lines[i]), "[")
    ensures Kept(Section(e.header, true), lines, |lines|) == []
    ensures Kept(Section(e.header, false), lines, |lines|) == [line]
  {
    KeptBefore(Section(e.header, true), lines, 0, |lines|);
    KeptBefore(Section(e.header, false), lines, 0, |lines| - 1);
  }

  lemma HeaderFirst(e: Entry, text: string)
    requires e.header != "" && HasPrefix(text, Block(e))
    ensures Contains(text, e.header)
  {
    assert text[..|Block(e)|][..|e.header|] == e.header == text[0..|e.header|];
    IndexIs(text, e.header, 0);
  }

  // ----- What is written is always something new -----

  lemma {:induction false} TrimLeftKeepsLine(text: string, l: string)
    requires l in Lines(text) && l != ""
    ensures l in Lines(TrimLeft(text, IsNewline))
  {
    if text != "" && IsNewline(text[0]) {
      assert Lines(text) == [""] + Lines(text[1..]);
      TrimLeftKeepsLine(text[1..], l);
    }
  }

  lemma {:induction false} KeepsSectionStart(sec: Section, lines: seq<string>, n: nat, i: nat)
    requires i < n <= |lines| && EndsSection(sec, lines[i]) && !IsHeader(sec, lines[i])
    ensures lines[i] in Kept(sec, lines, n)
  {
    if n > i + 1 {
      KeepsSectionStart(sec, lines, n - 1, i);
    }
  }

  /** Cutting the old section out never takes the line that begins the new one along. */
  lemma RemovedKeepsHeader(e: Entry, text: string)
    requires Proper(e) && e.header in Lines(text)
    ensures Contains(Removed(Section(e.oldHeader, false), text), e.header)
  {
    var sec, lines := Section(e.oldHeader, false), Lines(text);
    var kept := Kept(sec, lines, |lines|);
    if Contains(text, e.oldHeader) {
      var i :| 0 <= i < |lines| && lines[i] == e.header;
      KeepsSectionStart(sec, lines, |lines|, i);
      KeptHasNoHeader(sec, lines, |lines|);
      NoNewlineInLines(text);
      LinesOfJoin(kept);
      TrimLeftKeepsLine(Join(kept), e.header);
    }
    TrimmedLineContained(Removed(sec, text), e.header);
  }

  lemma HeaderIsALine(e: Entry, trimmed: string)
    requires Usable(e)
    ensures e.header in Lines(trimmed + "\n\n" + Block(e)) && e.header in Lines(Block(e))
  {
    BlockLines(e);
    InstalledLines(e, trimmed);
    SeparatorIsTwoNewlines(trimmed, Block(e));
  }

  /** When something is written it is not what was there. */
  lemma InstalledDiffers(e: Entry, text: string)
    requires Proper(e) && Installed(e, text).Some?
    ensures Installed(e, text) != Some(text)
  {
    var trimmed := TrimRight(Removed(Section(e.oldHeader, false), text), IsNewline);
    HeaderIsALine(e, trimmed);
    assert "" + "" + Block(e) == Block(e);
    if Installed(e, text) == Some(text) {
      RemovedKeepsHeader(e, text);
    }
  }

  // ----- The entry of the program -----

  const HEADER := "[mcp_servers.costwise]"
  const OLD_HEADER := "[mcp_servers.costaffective]"
  const ARGS := "args = [\"serve\"]"

  function Command(path: string): string {
    "command = \"" + path + "\""
  }

  /** buildTomlBlock, for the path of the program. */
  function CostwiseEntry(path: string): Entry {
    Entry(HEADER, OLD_HEADER, Join([Command(path), ARGS, ""]))
  }

  lemma FirstCharStays(l: string)
    requires l != "" && !IsSpace(l[0]) && l[0] != '['
    ensures !HasPrefix(TrimSpace(l), "[")
  {
    TrimRightIsHead(l, IsSpace);
    assert TrimSpace(l) != "" ==> TrimSpace(l)[0] == l[0];
  }

  lemma CommandLine(path: string)
    requires '\n' !in path
    ensures '\n' !in Command(path) && !HasPrefix(TrimSpace(Command(path)), "[")
  {
    FirstCharStays(Command(path));
  }

  lemma ArgsLine()
    ensures '\n' !in ARGS && !HasPrefix(TrimSpace(ARGS), "[")
  {
    FirstCharStays(ARGS);
  }

  lemma HeaderLine()
    ensures HEADER != "" && '\n' !in HEADER && TrimSpace(HEADER) == HEADER && HasPrefix(HEADER, "[")
  {
    assert HEADER[0] == '[' && HEADER[|HEADER| - 1] == ']';
  }

  lemma HeadersDiffer()
    ensures HEADER != OLD_HEADER && OLD_HEADER != ""
  {
    assert |HEADER| == 22 && |OLD_HEADER| == 27;
  }

  /** So what is proved about installing and uninstalling holds of it. */
  lemma CostwiseIsProper(path: string)
    requires '\n' !in path
    ensures Proper(CostwiseEntry(path))
  {
    CommandLine(path);
    ArgsLine();
    HeaderLine();
    HeadersDiffer();
    LinesOfJoin([Command(path), ARGS, ""]);
  }

  const OTHER := HEADER + "\n"

  lemma OtherHoldsHeader()
    ensures Contains(OTHER, HEADER)
  {
    assert OTHER[0..|HEADER|] == HEADER;
    IndexIs(OTHER, HEADER, 0);
  }

  lemma OtherLacksOldHeader()
    ensures !Contains(OTHER, OLD_HEADER)
  {
    assert OLD_HEADER[18] == 'f';
    LacksChar(OTHER, OLD_HEADER, 'f');
  }

  lemma BlockStarts(path: string)
    ensures HEADER + "\n" + "command =" <= Block(CostwiseEntry(path))
  {
    var command := Command(path);
    assert [command, ARGS, ""][1..] == [ARGS, ""];
    assert Join([command, ARGS, ""]) == command + "\n" + Join([ARGS, ""]);
    assert "command = \"" == "command =" + " \"";
    assert "command =" <= command;
  }

  lemma OtherLacksBlock(path: string)
    ensures !Contains(OTHER, Block(CostwiseEntry(path)))
  {
    BlockStarts(path);
    assert (HEADER + "\n" + "command =")[31] == '=';
    LacksChar(OTHER, Block(CostwiseEntry(path)), '=');
  }

  /** A file that holds the header and nothing else: an update is reported, and nothing is written. */
  method UpdateThatIsNone(path: string) returns (f: ConfigFile, action: Action)
    ensures action == Updated && f.file == Some(OTHER) && !Contains(OTHER, Block(CostwiseEntry(path)))
  {
    OtherHoldsHeader();
    OtherLacksOldHeader();
    OtherLacksBlock(path);
    f := new ConfigFile(Some(OTHER));
    action := f.WriteMcpEntry(CostwiseEntry(path));
  }
}
