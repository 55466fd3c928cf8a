/** The block managed in a file that belongs to the user: inserted or replaced, and removed again. */
module ManagedBlock {
  import opened Wrappers
  import opened Text

  datatype Markers = Markers(start: string, end: string)

  datatype Action = Created | Updated | Unchanged | Removed | NotFound

  predicate Usable(m: Markers) {
    m.start != "" && m.end != "" && '\n' !in m.start && '\n' !in m.end
  }

  /** A block begins with the start marker, and its first end marker is its end. */
  predicate IsBlock(m: Markers, blk: string) {
    |m.start| <= |blk| - |m.end| && HasPrefix(blk, m.start) && Index(blk, m.end) == |blk| - |m.end|
  }

  /** Where the managed block of a text begins and ends; None without a complete pair of markers. */
  function Span(m: Markers, text: string): (r: Option<(nat, nat)>)
    ensures r.Some? ==> r.value.0 <= r.value.1 <= |text|
  {
    var s := Index(text, m.start);
    if s == -1 then None
    else
      var rel := Index(text[s..], m.end);
      if rel == -1 then None else Some((s, s + rel + |m.end|))
  }

  /** A file, None while it does not exist. */
  type File = Option<string>

  /** Existing text with a newline at its end. */
  function Lead(text: string): string {
    if HasSuffix(text, "\n") then text else text + "\n"
  }

  /** The text after an upsert: the block in place of the old one, or behind an empty line. */
  function Upserted(m: Markers, file: File, blk: string): string {
    match file
    case None => blk + "\n"
    case Some(text) =>
      match Span(m, text)
      case Some((s, e)) => text[..s] + (blk + text[e..])
      case None => Lead(text) + ("\n" + (blk + "\n"))
  }

  function Remaining(m: Markers, file: File): File {
    match file
    case None => None
    case Some(text) =>
      match Span(m, text)
      case None => file
      case Some((s, e)) =>
        var rest := TrimSpace(text[..s] + text[e..]);
        if rest == "" then None else Some(rest + "\n")
  }

  class SharedFile {
    var file: File

    constructor (file: File)
      ensures this.file == file
    {
      this.file := file;
    }

    method UpsertBlock(m: Markers, blk: string) returns (action: Action)
      modifies this
      ensures file == Some(Upserted(m, old(file), blk))
      ensures action == if old(file).None? then Created else if file == old(file) then Unchanged else Updated
      ensures action.Unchanged? ==> Span(m, old(file).value).Some?
    {
      if file.None? {
        file := Some(blk + "\n");
        return Created;
      }
      var existing := file.value;
      var s := Index(existing, m.start);
      if s != -1 {
        var rel := Index(existing[s..], m.end);
        if rel != -1 {
          var e := s + rel + |m.end|;
          var updated := existing[..s] + blk + existing[e..];
          Assoc(existing[..s], blk, existing[e..]);
          if updated == existing {
            return Unchanged;
          }
          file := Some(updated);
          return Updated;
        }
      }
      var prefix := existing;
      if !HasSuffix(prefix, "\n") {
        prefix := prefix + "\n";
      }
      prefix := prefix + "\n";
      file := Some(prefix + blk + "\n");
      assert prefix + blk + "\n" == Lead(existing) + ("\n" + (blk + "\n"));
      return Updated;
    }

    method RemoveBlock(m: Markers) returns (action: Action)
      modifies this
      ensures file == Remaining(m, old(file))
      ensures action.NotFound? ==> file == old(file)
      ensures action == if old(file).Some? && Span(m, old(file).value).Some? then Removed else NotFound
    {
      if file.None? {
        return NotFound;
      }
      var existing := file.value;
      var s := Index(existing, m.start);
      if s == -1 {
        return NotFound;
      }
      var rel := Index(existing[s..], m.end);
      if rel == -1 {
        return NotFound;
      }
      var e := s + rel + |m.end|;
      assert Span(m, existing) == Some((s, e));
      var rest := TrimSpace(existing[..s] + existing[e..]);
      file := if rest == "" then None else Some(rest + "\n");
      return Removed;
    }
  }

  // ----- Finding the block again -----

  lemma SpanIs(m: Markers, a: string, b: string, e: int)
    requires Index(a + b, m.start) == |a| && Index(b, m.end) == e >= 0
    ensures Span(m, a + b) == Some((|a|, |a| + e + |m.end|))
  {
    assert (a + b)[|a|..] == b;
  }

  lemma SpanAt(m: Markers, before: string, blk: string, tail: string)
    requires IsBlock(m, blk) && Index(before + (blk + tail), m.start) == |before|
    ensures Span(m, before + (blk + tail)) == Some((|before|, |before| + |blk|))
  {
    IndexPrefix(blk, tail, m.end);
    SpanIs(m, before, blk + tail, |blk| - |m.end|);
  }

  lemma StartOfBlock(m: Markers, blk: string, tail: string)
    requires IsBlock(m, blk)
    ensures Index(blk + tail, m.start) == 0
  {
    assert (blk + tail)[0..|m.start|] == m.start;
    IndexIs(blk + tail, m.start, 0);
  }

  /** In a file of its own. */
  lemma SpanOfNew(m: Markers, blk: string)
    requires IsBlock(m, blk)
    ensures Span(m, blk + "\n") == Some((0, |blk|))
  {
    StartOfBlock(m, blk, "\n");
    SpanAt(m, "", blk, "\n");
    assert "" + (blk + "\n") == blk + "\n";
  }

  lemma StartOfReplaced(m: Markers, text: string, s: nat, blk: string, tail: string)
    requires HasPrefix(blk, m.start) && Index(text, m.start) == s
    ensures Index(text[..s] + (blk + tail), m.start) == s
  {
    var w := text[..s] + (blk + tail);
    IndexMeaning(text, m.start);
    forall i | 0 <= i < s + |m.start| ensures text[i] == w[i] {
      if i >= s {
        assert text[i] == text[s..s + |m.start|][i - s];
        assert w[i] == blk[i - s];
      }
    }
    IndexAgree(text, w, m.start, s);
  }

  /** In place of another block. */
  lemma SpanOfReplaced(m: Markers, text: string, s: nat, blk: string, tail: string)
    requires IsBlock(m, blk) && Index(text, m.start) == s
    ensures s <= |text| && Span(m, text[..s] + (blk + tail)) == Some((s, s + |blk|))
  {
    StartOfReplaced(m, text, s, blk, tail);
    SpanAt(m, text[..s], blk, tail);
  }

  /** Behind text without a start marker. */
  lemma SpanOfAppended(m: Markers, line: string, blk: string, tail: string)
    requires Usable(m) && IsBlock(m, blk) && Index(line, m.start) == -1
    ensures Span(m, line + ("\n" + (blk + tail))) == Some((|line| + 1, |line| + 1 + |blk|))
  {
    StartOfBlock(m, blk, tail);
    IndexBehind(line, blk + tail, m.start);
    assert line + ("\n" + (blk + tail)) == (line + "\n") + (blk + tail);
    SpanAt(m, line + "\n", blk, tail);
  }

  /** A start marker without an end marker pairs up with the end of a block appended later. */
  lemma SpanOfStray(m: Markers, line: string, s: nat, blk: string, tail: string)
    requires Usable(m) && IsBlock(m, blk)
    requires Index(line, m.start) == s && Index(line[s..], m.end) == -1
    ensures Span(m, line + ("\n" + (blk + tail))) == Some((s, |line| + 1 + |blk|))
  {
    var rest := line[s..];
    IndexPrefix(line, "\n" + (blk + tail), m.start);
    IndexPrefix(blk, tail, m.end);
    IndexBehind(rest, blk + tail, m.end);
    StrayParts(line, s, "\n" + (blk + tail));
    SpanIs(m, line[..s], rest + ("\n" + (blk + tail)), |rest| + 1 + |blk| - |m.end|);
  }

  lemma StrayParts(line: string, s: nat, more: string)
    requires s <= |line|
    ensures line + more == line[..s] + (line[s..] + more)
  {
  }

  // ----- The block after an upsert -----

  /** A start marker with no end marker behind it. */
  predicate Stray(m: Markers, text: string) {
    Index(text, m.start) >= 0 && Span(m, text).None?
  }

  /** A newline at the end neither adds nor hides a marker. */
  lemma LeadMarkers(text: string, sub: string)
    requires sub != "" && '\n' !in sub
    ensures Index(Lead(text), sub) == Index(text, sub)
  {
    if !HasSuffix(text, "\n") {
      if Index(text, sub) >= 0 {
        IndexPrefix(text, "\n", sub);
      } else {
        IndexBehind(text, "", sub);
        assert "\n" + "" == "\n";
      }
    }
  }

  lemma StrayLead(m: Markers, text: string)
    requires Usable(m) && Stray(m, text)
    ensures var s := Index(text, m.start);
            Index(Lead(text), m.start) == s && Lead(text)[..s] == text[..s] && Index(Lead(text)[s..], m.end) == -1
  {
    var s := Index(text, m.start);
    LeadMarkers(text, m.start);
    if !HasSuffix(text, "\n") {
      IndexBehind(text[s..], "", m.end);
      assert "\n" + "" == "\n";
      assert Lead(text)[s..] == text[s..] + "\n";
    }
  }

  /** Where the block of a text is after an upsert. */
  function PlaceAfter(m: Markers, file: File, blk: string): (nat, nat) {
    match file
    case None => (0, |blk|)
    case Some(text) =>
      if Span(m, text).Some? then (Span(m, text).value.0, Span(m, text).value.0 + |blk|)
      else if Stray(m, text) then (Index(text, m.start), |Lead(text)| + 1 + |blk|)
      else (|Lead(text)| + 1, |Lead(text)| + 1 + |blk|)
  }

  lemma SpanAfterAppend(m: Markers, text: string, blk: string)
    requires Usable(m) && IsBlock(m, blk) && Span(m, text).None?
    ensures Span(m, Upserted(m, Some(text), blk)) == Some(PlaceAfter(m, Some(text), blk))
  {
    if Stray(m, text) {
      StrayLead(m, text);
      SpanOfStray(m, Lead(text), Index(text, m.start), blk, "\n");
    } else {
      LeadMarkers(text, m.start);
      SpanOfAppended(m, Lead(text), blk, "\n");
    }
  }

  lemma SpanAfterUpsert(m: Markers, file: File, blk: string)
    requires Usable(m) && IsBlock(m, blk)
    ensures Span(m, Upserted(m, file, blk)) == Some(PlaceAfter(m, file, blk))
  {
    match file {
      case None => SpanOfNew(m, blk);
      case Some(text) =>
        match Span(m, text) {
          case Some((s, e)) => SpanOfReplaced(m, text, s, blk, text[e..]);
          case None => SpanAfterAppend(m, text, blk);
        }
    }
  }

  lemma PutBack(a: string, blk: string, b: string)
    ensures var t := a + (blk + b); t[..|a|] == a && t[|a| + |blk|..] == b && t[..|a|] + (blk + t[|a| + |blk|..]) == t
    ensures (a + (blk + b))[|a|..|a| + |blk|] == blk
  {
    var t := a + (blk + b);
    assert t[..|a|] == a && t[|a| + |blk|..] == b;
  }

  lemma ReplaceSelf(m: Markers, a: string, blk: string, b: string)
    requires Span(m, a + (blk + b)) == Some((|a|, |a| + |blk|))
    ensures Upserted(m, Some(a + (blk + b)), blk) == a + (blk + b)
  {
    PutBack(a, blk, b);
  }

  lemma UpsertTwiceNew(m: Markers, blk: string)
    requires Usable(m) && IsBlock(m, blk)
    ensures Upserted(m, Some(blk + "\n"), blk) == blk + "\n"
  {
    SpanOfNew(m, blk);
    assert "" + (blk + "\n") == blk + "\n";
    ReplaceSelf(m, "", blk, "\n");
  }

  lemma UpsertTwiceAppended(m: Markers, text: string, blk: string)
    requires Usable(m) && IsBlock(m, blk) && Span(m, text).None? && !Stray(m, text)
    ensures var once := Upserted(m, Some(text), blk); Upserted(m, Some(once), blk) == once
  {
    SpanAfterAppend(m, text, blk);
    var a := Lead(text) + "\n";
    assert a + (blk + "\n") == Upserted(m, Some(text), blk);
    ReplaceSelf(m, a, blk, "\n");
  }

  /** Between the markers of the text is the block, and around it stand front and back. */
  ghost predicate Stands(m: Markers, text: string, front: string, blk: string, back: string) {
    && Span(m, text) == Some((|front|, |front| + |blk|)) && |text| == |front| + |blk| + |back|
    && text[..|front|] == front && text[|front|..|front| + |blk|] == blk && text[|front| + |blk|..] == back
  }

  lemma Standing(m: Markers, front: string, blk: string, back: string)
    requires Span(m, front + (blk + back)) == Some((|front|, |front| + |blk|))
    ensures Stands(m, front + (blk + back), front, blk, back)
  {
  }

  lemma ReplacedKeepsTheRest(m: Markers, text: string, blk: string)
    requires Usable(m) && IsBlock(m, blk) && Span(m, text).Some?
    ensures var (s, e) := Span(m, text).value; Stands(m, Upserted(m, Some(text), blk), text[..s], blk, text[e..])
  {
    var (s, e) := Span(m, text).value;
    SpanAfterUpsert(m, Some(text), blk);
    Standing(m, text[..s], blk, text[e..]);
  }

  /** What an empty line behind the text takes. */
  function Gap(text: string): string {
    if text != "" && text[|text| - 1] == '\n' then "\n" else "\n\n"
  }

  lemma AppendedIs(m: Markers, text: string, blk: string)
    requires Span(m, text).None?
    ensures |Lead(text)| + 1 == |text + Gap(text)|
    ensures Upserted(m, Some(text), blk) == (text + Gap(text)) + (blk + "\n")
  {
    assert Lead(text) + ("\n" + (blk + "\n")) == (Lead(text) + "\n") + (blk + "\n");
    assert Lead(text) + "\n" == text + Gap(text);
  }

  lemma AppendedKeepsTheRest(m: Markers, text: string, blk: string)
    requires Usable(m) && IsBlock(m, blk) && Span(m, text).None? && !Stray(m, text)
    ensures Stands(m, Upserted(m, Some(text), blk), text + Gap(text), blk, "\n")
  {
    AppendedIs(m, text, blk);
    SpanAfterAppend(m, text, blk);
    Standing(m, text + Gap(text), blk, "\n");
  }

  /** What is then found between the markers is the block, and every character outside of them is kept; a
      block that was not there before stands behind the text and an empty line. */
  lemma UpsertKeepsTheRest(m: Markers, text: string, blk: string)
    requires Usable(m) && IsBlock(m, blk) && !Stray(m, text)
    ensures match Span(m, text)
            case Some((s, e)) => Stands(m, Upserted(m, Some(text), blk), text[..s], blk, text[e..])
            case None => Stands(m, Upserted(m, Some(text), blk), text + Gap(text), blk, "\n")
  {
    if Span(m, text).Some? {
      ReplacedKeepsTheRest(m, text, blk);
    } else {
      AppendedKeepsTheRest(m, text, blk);
    }
  }

  /** A second upsert of the same block changes nothing, unless the file had a start marker without an
      end marker behind it. */
  lemma UpsertIdempotentIff(m: Markers, file: File, blk: string)
    requires Usable(m) && IsBlock(m, blk)
    ensures var once := Upserted(m, file, blk);
            Upserted(m, Some(once), blk) == once <==> file.None? || !Stray(m, file.value)
  {
    if file.None? {
      UpsertTwiceNew(m, blk);
    } else if Stray(m, file.value) {
      StrayLosesText(m, file.value, blk);
    } else if Span(m, file.value).Some? {
      var (s, e) := Span(m, file.value).value;
      SpanAfterUpsert(m, file, blk);
      ReplaceSelf(m, file.value[..s], blk, file.value[e..]);
    } else {
      UpsertTwiceAppended(m, file.value, blk);
    }
  }

  /** With a stray start marker the second upsert drops everything between that marker and the block. */
  lemma StrayLosesText(m: Markers, text: string, blk: string)
    requires Usable(m) && IsBlock(m, blk) && Stray(m, text)
    ensures var once := Upserted(m, Some(text), blk);
            var twice := Upserted(m, Some(once), blk);
            twice == text[..Index(text, m.start)] + (blk + "\n") && |twice| < |once|
  {
    var s, lead := Index(text, m.start), Lead(text);
    var once := Upserted(m, Some(text), blk);
    SpanAfterUpsert(m, Some(text), blk);
    StrayLead(m, text);
    var e := |lead| + 1 + |blk|;
    assert once == lead + ("\n" + (blk + "\n"));
    assert once[e..] == "\n";
    assert once[..s] == lead[..s];
  }

  function Trimmed(text: string): File {
    if TrimSpace(text) == "" then None else Some(TrimSpace(text) + "\n")
  }

  /** Removing a block leaves the text around it. */
  lemma RemoveAt(m: Markers, a: string, blk: string, b: string)
    requires Span(m, a + (blk + b)) == Some((|a|, |a| + |blk|))
    ensures Remaining(m, Some(a + (blk + b))) == Trimmed(a + b)
  {
    PutBack(a, blk, b);
  }

  lemma LeadTrim(text: string)
    ensures TrimSpace((Lead(text) + "\n") + "\n") == TrimSpace(text)
  {
    var tail := if HasSuffix(text, "\n") then "\n\n" else "\n\n\n";
    assert (Lead(text) + "\n") + "\n" == text + tail;
    TrimSpaceAppend(text, tail);
  }

  lemma RemoveNew(m: Markers, blk: string)
    requires Usable(m) && IsBlock(m, blk)
    ensures Remaining(m, Some(blk + "\n")) == Trimmed("")
  {
    SpanOfNew(m, blk);
    RemainingIs(m, blk + "\n", 0, |blk|);
    assert (blk + "\n")[..0] + (blk + "\n")[|blk|..] == "" + "\n";
    TrimSpaceAppend("", "\n");
  }

  lemma RemoveAppended(m: Markers, text: string, blk: string)
    requires Usable(m) && IsBlock(m, blk) && Index(text, m.start) == -1
    ensures Remaining(m, Some(Upserted(m, Some(text), blk))) == Trimmed(text)
  {
    SpanAfterAppend(m, text, blk);
    var a := Lead(text) + "\n";
    assert a + (blk + "\n") == Upserted(m, Some(text), blk);
    RemoveAt(m, a, blk, "\n");
    LeadTrim(text);
  }

  lemma RemoveUndoesInsert(m: Markers, file: File, blk: string)
    requires Usable(m) && IsBlock(m, blk)
    requires file.Some? ==> Index(file.value, m.start) == -1
    ensures Remaining(m, Some(Upserted(m, file, blk))) == Trimmed(Before(file))
  {
    match file {
      case None => RemoveNew(m, blk);
      case Some(text) => RemoveAppended(m, text, blk);
    }
  }

  function Before(file: File): string {
    match file case None => "" case Some(text) => text
  }

  /** Replacing a block and then removing it is removing it. */
  lemma RemoveForgetsReplace(m: Markers, text: string, blk: string)
    requires Usable(m) && IsBlock(m, blk) && Span(m, text).Some?
    ensures Remaining(m, Some(Upserted(m, Some(text), blk))) == Remaining(m, Some(text))
  {
    var (s, e) := Span(m, text).value;
    SpanAfterUpsert(m, Some(text), blk);
    RemoveAt(m, text[..s], blk, text[e..]);
  }

  lemma RemainingIs(m: Markers, text: string, s: nat, e: nat)
    requires Span(m, text) == Some((s, e))
    ensures e <= |text| && s <= e && Remaining(m, Some(text)) == Trimmed(text[..s] + text[e..])
  {
  }

  /** Removing a block that was inserted behind a stray start marker takes everything behind that marker along. */
  lemma RemoveTakesStray(m: Markers, text: string, blk: string)
    requires Usable(m) && IsBlock(m, blk) && Stray(m, text)
    ensures Remaining(m, Some(Upserted(m, Some(text), blk))) == Trimmed(text[..Index(text, m.start)])
  {
    var s, e := Index(text, m.start), |Lead(text)| + 1 + |blk|;
    var once := Upserted(m, Some(text), blk);
    assert Span(m, once) == Some((s, e)) by { SpanAfterUpsert(m, Some(text), blk); }
    assert Lead(text)[..s] == text[..s] && s <= |text| by { StrayLead(m, text); }
    RemainingIs(m, once, s, e);
    AroundAppended(Lead(text), blk, s);
    TrimSpaceAppend(text[..s], "\n");
  }

  lemma AroundAppended(lead: string, blk: string, s: nat)
    requires s <= |lead|
    ensures var t := lead + ("\n" + (blk + "\n")); t[..s] == lead[..s] && t[|lead| + 1 + |blk|..] == "\n"
  {
  }

  lemma TrimmedInk(a: string, b: string)
    requires Trimmed(a) == Trimmed(b)
    ensures Ink(a) == Ink(b)
  {
    InkTrimmed(a);
    InkTrimmed(b);
    var x, y := TrimSpace(a), TrimSpace(b);
    assert x != "" && y != "" ==> x == (x + "\n")[..|x|] && y == (y + "\n")[..|y|] && |x + "\n"| == |y + "\n"|;
  }

  lemma InkOfParts(a: string, b: string, c: string, d: string, e: string)
    ensures Ink(a + (b + (c + (d + e)))) >= Ink(a + e) + Ink(c)
  {
    InkAppend(a, b + (c + (d + e)));
    InkAppend(b, c + (d + e));
    InkAppend(c, d + e);
    InkAppend(d, e);
    InkAppend(a, e);
  }

  lemma FiveParts(text: string, s: nat, i: nat, j: nat, e: nat)
    requires s <= i <= j <= e <= |text|
    ensures text == text[..s] + (text[s..i] + (text[i..j] + (text[j..e] + text[e..])))
  {
  }

  /** A text without a stretch that holds a marker has less ink, if there is ink in the marker. */
  lemma InkWithout(text: string, s: nat, e: nat, i: nat, marker: string)
    requires s <= i && i + |marker| <= e <= |text| && text[i..i + |marker|] == marker && Ink(marker) > 0
    ensures Ink(text[..s] + text[e..]) < Ink(text)
  {
    var j := i + |marker|;
    FiveParts(text, s, i, j, e);
    InkOfParts(text[..s], text[s..i], text[i..j], text[j..e], text[e..]);
  }

  /** Removing after an upsert gives the old text back, trimmed, or deletes a blank file, exactly when the text held
      no start marker: otherwise the marker and what stands behind it, up to its end marker if there is one, is gone. */
  lemma RemoveUndoesUpsertIff(m: Markers, file: File, blk: string)
    requires Usable(m) && IsBlock(m, blk) && Ink(m.start) > 0 && Ink(m.end) > 0
    ensures Remaining(m, Some(Upserted(m, file, blk))) == Trimmed(Before(file))
      <==> file.None? || Index(file.value, m.start) == -1
  {
    if file.None? || Index(file.value, m.start) == -1 {
      RemoveUndoesInsert(m, file, blk);
    } else {
      UpsertThenRemoveLoses(m, file.value, blk);
    }
  }

  lemma StrayIsLost(m: Markers, text: string, blk: string)
    requires Usable(m) && IsBlock(m, blk) && Ink(m.start) > 0 && Stray(m, text)
    ensures Remaining(m, Some(Upserted(m, Some(text), blk))) != Trimmed(text)
  {
    var s := Index(text, m.start);
    RemoveTakesStray(m, text, blk);
    IndexMeaning(text, m.start);
    assert text[..s] + text[|text|..] == text[..s];
    InkIsLost(text, s, |text|, s, m.start);
  }

  lemma BlockIsLost(m: Markers, text: string)
    requires Ink(m.end) > 0 && Span(m, text).Some?
    ensures Remaining(m, Some(text)) != Trimmed(text)
  {
    var (s, e) := Span(m, text).value;
    RemainingIs(m, text, s, e);
    var i := EndInSpan(m, text);
    InkIsLost(text, s, e, i, m.end);
  }

  lemma UpsertThenRemoveLoses(m: Markers, text: string, blk: string)
    requires Usable(m) && IsBlock(m, blk) && Ink(m.start) > 0 && Ink(m.end) > 0 && Index(text, m.start) >= 0
    ensures Remaining(m, Some(Upserted(m, Some(text), blk))) != Trimmed(text)
  {
    if Stray(m, text) {
      StrayIsLost(m, text, blk);
    } else {
      RemoveForgetsReplace(m, text, blk);
      BlockIsLost(m, text);
    }
  }

  lemma InkIsLost(text: string, s: nat, e: nat, i: nat, marker: string)
    requires s <= i && i + |marker| <= e <= |text| && text[i..i + |marker|] == marker && Ink(marker) > 0
    ensures Trimmed(text[..s] + text[e..]) != Trimmed(text)
  {
    InkWithout(text, s, e, i, marker);
    if Trimmed(text[..s] + text[e..]) == Trimmed(text) {
      TrimmedInk(text[..s] + text[e..], text);
    }
  }

  lemma EndInSpan(m: Markers, text: string) returns (i: nat)
    requires Span(m, text).Some?
    ensures Span(m, text).value.0 <= i && i + |m.end| == Span(m, text).value.1 && text[i..i + |m.end|] == m.end
  {
    var s := Index(text, m.start);
    var rel := Index(text[s..], m.end);
    IndexMeaning(text[s..], m.end);
    i := s + rel;
    SliceOfTail(text, s, rel, |m.end|);
  }

  // ----- The markers of the program, and a file that loses text -----

  const COMMON := "!-- costwise-session:"
  const MANAGED_BY := "start (managed by "
  const DO_NOT_EDIT := "`costwise skill` \U{2014} do not "
  const START_REST := MANAGED_BY + (DO_NOT_EDIT + "edit) -->")
  const END_REST := "end -->"

  const MARKERS := Markers("<" + (COMMON + START_REST), "<" + (COMMON + END_REST))

  const STRAY := MARKERS.start + "mine"

  lemma FirstCharAt(s: string, sub: string, i: int)
    requires At(s, sub, i) && sub != ""
    ensures i == 0 || sub[0] in s[1..]
  {
    AtChar(s, sub, i, 0);
    assert i > 0 ==> s[1..][i - 1] == s[i];
  }

  /** Two texts that begin alike, hold their first character nowhere else, and then differ. */
  lemma NotInside(s: string, sub: string, k: nat)
    requires k < |sub| && k < |s| && s[k] != sub[k] && sub[0] !in s[1..]
    ensures Index(s, sub) == -1
  {
    IndexMeaning(s, sub);
    forall i | At(s, sub, i) ensures false {
      FirstCharAt(s, sub, i);
      AtChar(s, sub, 0, k);
    }
  }

  lemma PartsDiffer(common: string, a: string, b: string)
    requires '<' !in common && '<' !in a && a != "" && b != "" && a[0] != b[0]
    ensures Index("<" + (common + a), "<" + (common + b)) == -1
  {
    var s, sub, k := "<" + (common + a), "<" + (common + b), 1 + |common|;
    assert s[1..] == common + a;
    assert s[k] == a[0] && sub[k] == b[0];
    NotInside(s, sub, k);
  }

  lemma PartsLackBrackets()
    ensures '<' !in COMMON && '<' !in START_REST && START_REST[0] == 's' && END_REST[0] == 'e'
  {
    assert '<' !in MANAGED_BY && '<' !in DO_NOT_EDIT && '<' !in "edit) -->";
  }

  lemma PartsLackNewlines()
    ensures '\n' !in COMMON && '\n' !in START_REST && '\n' !in END_REST
  {
    assert '\n' !in MANAGED_BY && '\n' !in DO_NOT_EDIT && '\n' !in "edit) -->";
  }

  lemma InkOfBracket(rest: string)
    ensures Ink("<" + rest) > 0
  {
  }

  /** The two markers meet what is asked of markers, and neither is blank. */
  lemma MarkersAreUsable()
    ensures Usable(MARKERS) && Index(MARKERS.start, MARKERS.end) == -1
    ensures Ink(MARKERS.start) > 0 && Ink(MARKERS.end) > 0
  {
    PartsLackNewlines();
    PartsLackBrackets();
    PartsDiffer(COMMON, START_REST, END_REST);
    InkOfBracket(COMMON + START_REST);
    InkOfBracket(COMMON + END_REST);
  }

  lemma StrayText(m: Markers, more: string)
    requires m.start != ""
    ensures Index(m.start + more, m.start) == 0 && (m.start + more)[0..] == m.start + more
  {
    assert (m.start + more)[0..|m.start|] == m.start;
    IndexIs(m.start + more, m.start, 0);
  }

  lemma StrayIsStray()
    ensures Stray(MARKERS, STRAY) && Index(STRAY, MARKERS.start) == 0
  {
    StrayText(MARKERS, "mine");
    PartsLackBrackets();
    PartsDiffer(COMMON, START_REST + "mine", END_REST);
    assert "<" + (COMMON + (START_REST + "mine")) == STRAY;
  }

  lemma LeadOfLine(text: string, line: string)
    requires text == line + "mine"
    ensures Lead(text) == text + "\n"
  {
    assert text[|text| - 1] == 'e';
  }

  /** With a start marker and no end marker in front of what the user wrote, a first upsert of any block keeps it, and
      a second one, or a removal, loses it. */
  lemma StrayExample(blk: string)
    requires IsBlock(MARKERS, blk)
    ensures var once := Upserted(MARKERS, Some(STRAY), blk);
      && once == STRAY + "\n" + ("\n" + (blk + "\n"))
      && Upserted(MARKERS, Some(once), blk) == blk + "\n"
      && Remaining(MARKERS, Some(once)) == None
  {
    MarkersAreUsable();
    StrayIsStray();
    LeadOfLine(STRAY, MARKERS.start);
    StrayLosesText(MARKERS, STRAY, blk);
    RemoveTakesStray(MARKERS, STRAY, blk);
    assert STRAY[..0] == "" && TrimSpace("") == "";
    assert "" + (blk + "\n") == blk + "\n";
  }

  // ----- The block itself -----

  /** skillBlock: the policy between the two markers, under a heading. */
  function SkillBlock(m: Markers, heading: string, policy: string): string {
    m.start + ("\n" + ("\n" + (heading + ("\n" + ("\n" + (policy + ("\n" + ("\n" + m.end))))))))
  }

  /** It is a block as long as the end marker occurs in none of its parts. */
  lemma SkillBlockIsBlock(m: Markers, heading: string, policy: string)
    requires Usable(m) && Index(m.start, m.end) == -1 && Index(heading, m.end) == -1 && Index(policy, m.end) == -1
    ensures IsBlock(m, SkillBlock(m, heading, policy))
  {
    var e := m.end;
    var t1 := "\n" + e;
    var t2 := policy + ("\n" + t1);
    var t3 := "\n" + t2;
    var t4 := heading + ("\n" + t3);
    var t5 := "\n" + t4;
    assert Index(e, e) == 0 by { assert e[0..|e|] == e; IndexIs(e, e, 0); }
    assert Index(t1, e) == 1 by { IndexBehind("", e, e); assert "" + ("\n" + e) == t1; }
    IndexBehind(policy, t1, e);
    assert Index(t3, e) == 1 + Index(t2, e) by { IndexBehind("", t2, e); assert "" + ("\n" + t2) == t3; }
    IndexBehind(heading, t3, e);
    assert Index(t5, e) == 1 + Index(t4, e) by { IndexBehind("", t4, e); assert "" + ("\n" + t4) == t5; }
    IndexBehind(m.start, t5, e);
  }
}
