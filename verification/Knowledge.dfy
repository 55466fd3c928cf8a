/** The knowledge memory and the facts a session keeps in it. */
module Knowledge {
  import opened Text
  import opened Wrappers

  datatype Kind =
    Symbol | Caller | Reference | Grep | Glob | Architecture | RepoSummary | ModuleOwnership | FileOwnership | UserNote

  datatype Entry = Entry(kind: Kind, key: string, value: string, metadata: seq<string>, file: string, line: int,
                         confidence: real, createdAt: int, lastUsedAt: int, hitCount: int)

  type Entries = map<string, Entry>

  /** The snapshot on disk. */
  datatype File = Missing | Malformed | Saved(entries: seq<Entry>)

  function KindName(k: Kind): string {
    match k
    case Symbol => "symbol"
    case Caller => "caller"
    case Reference => "reference"
    case Grep => "grep"
    case Glob => "glob"
    case Architecture => "architecture"
    case RepoSummary => "repo_summary"
    case ModuleOwnership => "module_ownership"
    case FileOwnership => "file_ownership"
    case UserNote => "user_note"
  }

  function EntryKey(k: Kind, key: string): string {
    KindName(k) + ":" + Lower(key)
  }

  function KeyOf(e: Entry): string {
    EntryKey(e.kind, e.key)
  }

  ghost predicate Keyed(m: Entries) {
    forall ek :: ek in m ==> KeyOf(m[ek]) == ek
  }

  lemma NamesHaveNoColon(k: Kind)
    ensures ':' !in KindName(k)
  {
  }

  /** No two kinds have the same name. */
  lemma KindsAreApart(k: Kind, l: Kind)
    requires KindName(k) == KindName(l)
    ensures k == l
  {
    assert |"symbol"| == 6 && |"caller"| == 6 && |"reference"| == 9 && |"grep"| == 4 && |"glob"| == 4
      && |"architecture"| == 12 && |"repo_summary"| == 12 && |"module_ownership"| == 16 && |"file_ownership"| == 14
      && |"user_note"| == 9;
    assert "symbol"[0] == 's' && "caller"[0] == 'c' && "reference"[0] == 'r' && "user_note"[0] == 'u'
      && "grep"[1] == 'r' && "glob"[1] == 'l' && "architecture"[0] == 'a' && "repo_summary"[0] == 'r';
  }

  lemma ColonDivides(a: string, x: string, b: string, y: string)
    requires ':' !in a && ':' !in b && a + ":" + x == b + ":" + y
    ensures a == b && x == y
  {
    var s := a + ":" + x;
    assert s[|a|] == ':' && s[|b|] == ':';
    assert forall i :: 0 <= i < |a| ==> s[i] == a[i] && s[i] != ':';
    assert forall i :: 0 <= i < |b| ==> s[i] == b[i] && s[i] != ':';
    assert |a| == |b|;
    assert x == s[|a| + 1..] && y == s[|b| + 1..];
  }

  /** Two entries share a key exactly if they are of one kind and their keys are the same, letter case aside. */
  lemma KeysAreApartIff(k: Kind, key: string, l: Kind, other: string)
    ensures EntryKey(k, key) == EntryKey(l, other) <==> k == l && Lower(key) == Lower(other)
  {
    if EntryKey(k, key) == EntryKey(l, other) {
      NamesHaveNoColon(k);
      NamesHaveNoColon(l);
      ColonDivides(KindName(k), Lower(key), KindName(l), Lower(other));
      KindsAreApart(k, l);
    }
  }

  /** No entry of another kind can take the place of a note. */
  lemma NoteKeysAreApart(k: Kind, key: string, note: string)
    requires EntryKey(k, key) == EntryKey(UserNote, note)
    ensures k == UserNote && Lower(key) == Lower(note)
  {
    KeysAreApartIff(k, key, UserNote, note);
  }

  // ----- Terms -----

  predicate IsWordChar(c: char) {
    'a' <= c <= 'z' || '0' <= c <= '9'
  }

  function FirstWord(s: string): (w: string)
    ensures w <= s
  {
    if s == "" || !IsWordChar(s[0]) then "" else [s[0]] + FirstWord(s[1..])
  }

  /** strings.FieldsFunc, cutting at everything but lower-case letters and digits. */
  function Words(s: string): seq<string> {
    if s == "" then []
    else if !IsWordChar(s[0]) then Words(s[1..])
    else [FirstWord(s)] + Words(s[|FirstWord(s)|..])
  }

  function Distinct(words: seq<string>): seq<string> {
    if words == [] then []
    else
      var tokens, w := Distinct(words[..|words| - 1]), words[|words| - 1];
      if |w| >= 2 && w !in tokens then tokens + [w] else tokens
  }

  function Terms(key: string): seq<string> {
    Distinct(Words(Lower(key)))
  }

  lemma {:induction false} FirstWordOf(w: string, rest: string)
    requires (forall c :: c in w ==> IsWordChar(c)) && (rest != "" ==> !IsWordChar(rest[0]))
    ensures FirstWord(w + rest) == w
  {
    if w != "" {
      assert (w + rest)[1..] == w[1..] + rest;
      FirstWordOf(w[1..], rest);
    } else {
      assert w + rest == rest;
    }
  }

  /** A word in front of anything that is no letter or digit is the first of the words. */
  lemma WordsBehind(w: string, c: char, rest: string)
    requires (forall d :: d in w ==> IsWordChar(d)) && w != "" && !IsWordChar(c)
    ensures Words(w + ([c] + rest)) == [w] + Words(rest)
  {
    FirstWordOf(w, [c] + rest);
    assert (w + ([c] + rest))[|w|..] == [c] + rest && ([c] + rest)[1..] == rest;
    assert w[0] in w;
  }

  const SPELLED := "Az_09,x az"

  lemma LastOfSpelled()
    ensures Words("x" + ([' '] + "az")) == ["x", "az"]
  {
    WordsBehind("x", ' ', "az");
    FirstWordOf("az", "");
    assert "az" + "" == "az";
    assert Words("az") == ["az"];
  }

  lemma TwoWordsBehind(v: string, c: char, w: string, d: char, rest: string)
    requires (forall e :: e in v ==> IsWordChar(e)) && v != "" && !IsWordChar(c)
    requires (forall e :: e in w ==> IsWordChar(e)) && w != "" && !IsWordChar(d)
    ensures Words(v + ([c] + (w + ([d] + rest)))) == [v, w] + Words(rest)
  {
    WordsBehind(w, d, rest);
    WordsBehind(v, c, w + ([d] + rest));
  }

  lemma WordsOfSpelled()
    ensures Words(Lower(SPELLED)) == ["az", "09", "x", "az"]
  {
    LastOfSpelled();
    TwoWordsBehind("az", '_', "09", ',', "x" + ([' '] + "az"));
    LowerSpelled();
  }

  lemma LowerSpelled()
    ensures Lower(SPELLED) == "az" + (['_'] + ("09" + ([','] + ("x" + ([' '] + "az")))))
  {
  }

  /** Digits belong to a word and an underscore does not; capitals count as small letters, a single character is no
      term, and a word said twice is one. */
  method TermsOfSpelled() returns (tokens: seq<string>)
    ensures tokens == ["az", "09"]
  {
    WordsOfSpelled();
    tokens := TokenizeKey(SPELLED);
    DistinctOfSpelled();
  }

  lemma DistinctOfSpelled()
    ensures Distinct(["az", "09", "x", "az"]) == ["az", "09"]
  {
    var w := ["az", "09", "x", "az"];
    assert "az"[0] == 'a' && "09"[0] == '0';
    assert w[..1] == ["az"] && w[..2] == ["az", "09"] && w[..3] == ["az", "09", "x"];
    assert Distinct(w[..1]) == ["az"] by { assert w[..1][..0] == []; }
    assert Distinct(w[..2]) == ["az", "09"] by { assert w[..2][..1] == w[..1]; }
    assert Distinct(w[..3]) == ["az", "09"] by { assert w[..3][..2] == w[..2]; }
  }

  method TokenizeKey(key: string) returns (tokens: seq<string>)
    ensures tokens == Terms(key)
  {
    var words := Words(Lower(key));
    var seen: set<string> := {};
    tokens := [];
    for i := 0 to |words|
      invariant tokens == Distinct(words[..i]) && forall w :: w in seen <==> w in tokens
    {
      assert words[..i + 1][..i] == words[..i];
      if |words[i]| >= 2 && words[i] !in seen {
        seen := seen + {words[i]};
        tokens := tokens + [words[i]];
      }
    }
    assert words[..|words|] == words;
  }

  /** A word of s: a stretch of letters and digits that no letter or digit touches. */
  ghost predicate WordAt(s: string, i: int, w: string) {
    && 0 <= i && i + |w| <= |s| && s[i..i + |w|] == w && w != ""
    && (forall c :: c in w ==> IsWordChar(c))
    && (i > 0 ==> !IsWordChar(s[i - 1]))
    && (i + |w| < |s| ==> !IsWordChar(s[i + |w|]))
  }

  lemma {:induction false} FirstWordMeaning(s: string)
    ensures forall c :: c in FirstWord(s) ==> IsWordChar(c)
    ensures |FirstWord(s)| < |s| ==> !IsWordChar(s[|FirstWord(s)|])
    ensures s != "" && IsWordChar(s[0]) ==> FirstWord(s) != ""
  {
    if s != "" && IsWordChar(s[0]) {
      FirstWordMeaning(s[1..]);
    }
  }

  lemma WordFurtherIn(s: string, k: nat, i: int, w: string)
    requires k <= |s| && WordAt(s[k..], i, w) && (i > 0 || k == 0 || !IsWordChar(s[k - 1]))
    ensures WordAt(s, k + i, w)
  {
    assert s[k..][i..i + |w|] == s[k + i..k + i + |w|];
  }

  lemma {:induction false} WordsAreWords(s: string, w: string) returns (i: int)
    requires w in Words(s)
    ensures WordAt(s, i, w)
  {
    FirstWordMeaning(s);
    var first := FirstWord(s);
    if !IsWordChar(s[0]) {
      i := WordsAreWords(s[1..], w);
      WordFurtherIn(s, 1, i, w);
      i := 1 + i;
    } else if w == first {
      i := 0;
    } else {
      assert w in Words(s[|first|..]);
      i := WordsAreWords(s[|first|..], w);
      assert w[0] == s[|first| + i] && IsWordChar(w[0]);
      WordFurtherIn(s, |first|, i, w);
      i := |first| + i;
    }
  }

  lemma {:induction false} AllWordsAreFound(s: string, w: string, i: int)
    requires WordAt(s, i, w)
    ensures w in Words(s)
  {
    assert s[i] in w && w[0] == s[i];
    if !IsWordChar(s[0]) {
      assert s[1..][i - 1..i - 1 + |w|] == w;
      AllWordsAreFound(s[1..], w, i - 1);
    } else {
      FirstWordMeaning(s);
      var first := FirstWord(s);
      assert forall k :: 0 <= k < |first| ==> s[k] == first[k] && IsWordChar(s[k]);
      if i == 0 {
        assert forall k :: 0 <= k < |w| ==> s[k] == w[k] && IsWordChar(s[k]);
        assert w == first;
      } else {
        assert s[|first|..][i - |first|..i - |first| + |w|] == w;
        AllWordsAreFound(s[|first|..], w, i - |first|);
      }
    }
  }

  lemma {:induction false} DistinctMeaning(words: seq<string>)
    ensures forall w :: w in Distinct(words) <==> w in words && |w| >= 2
    ensures forall i, j :: 0 <= i < j < |Distinct(words)| ==> Distinct(words)[i] != Distinct(words)[j]
  {
    if words != [] {
      var n := |words| - 1;
      DistinctMeaning(words[..n]);
      assert words == words[..n] + [words[n]];
    }
  }

  /** The terms of a text are its words of two or more characters, each once. */
  lemma TermsMeaning(text: string, t: string)
    ensures t in Terms(text) <==> |t| >= 2 && exists i :: WordAt(Lower(text), i, t)
    ensures forall i, j :: 0 <= i < j < |Terms(text)| ==> Terms(text)[i] != Terms(text)[j]
  {
    DistinctMeaning(Words(Lower(text)));
    if t in Words(Lower(text)) {
      var i := WordsAreWords(Lower(text), t);
    }
    if i :| WordAt(Lower(text), i, t) {
      AllWordsAreFound(Lower(text), t, i);
    }
  }

  // ----- Scores -----

  predicate Hits(e: Entry, t: string) {
    Contains(Lower(e.key), t) || Contains(Lower(e.value), t) || Contains(Lower(e.file), t)
  }

  function TermScore(e: Entry, t: string): nat {
    if Contains(Lower(e.key), t) then 2
    else if Contains(Lower(e.value), t) || Contains(Lower(e.file), t) then 1
    else 0
  }

  function Score(e: Entry, terms: seq<string>): nat {
    if terms == [] then 0 else Score(e, terms[..|terms| - 1]) + TermScore(e, terms[|terms| - 1])
  }

  /** A term found in the key counts for more than one found in the value or the file only, and that for more than one
      found nowhere. */
  lemma KeyOutranks(a: Entry, b: Entry, t: string)
    ensures Contains(Lower(a.key), t) && !Contains(Lower(b.key), t) ==> TermScore(a, t) > TermScore(b, t)
    ensures (Contains(Lower(a.key), t) || Contains(Lower(a.value), t) || Contains(Lower(a.file), t))
      && !Contains(Lower(b.key), t) && !Contains(Lower(b.value), t) && !Contains(Lower(b.file), t)
      ==> TermScore(a, t) > TermScore(b, t)
  {
  }

  /** An entry that does no worse on every term, and better on one, has the higher score. */
  lemma {:induction false} ScoreDominates(a: Entry, b: Entry, terms: seq<string>)
    requires forall t :: t in terms ==> TermScore(a, t) >= TermScore(b, t)
    ensures Score(a, terms) >= Score(b, terms)
    ensures (exists t :: t in terms && TermScore(a, t) > TermScore(b, t)) ==> Score(a, terms) > Score(b, terms)
  {
    if terms != [] {
      var n := |terms| - 1;
      assert terms[n] in terms && forall t :: t in terms[..n] ==> t in terms;
      ScoreDominates(a, b, terms[..n]);
      if t :| t in terms && TermScore(a, t) > TermScore(b, t) {
        assert terms == terms[..n] + [terms[n]];
      }
    }
  }

  /** The places of the terms found in the key. */
  ghost function InKey(e: Entry, terms: seq<string>): set<nat> {
    set i: nat | i < |terms| && Contains(Lower(e.key), terms[i])
  }

  /** The places of the terms found in the value or the file, but not in the key. */
  ghost function Elsewhere(e: Entry, terms: seq<string>): set<nat> {
    set i: nat | i < |terms| && !Contains(Lower(e.key), terms[i])
                 && (Contains(Lower(e.value), terms[i]) || Contains(Lower(e.file), terms[i]))
  }

  lemma InKeyPush(e: Entry, terms: seq<string>, t: string)
    ensures |InKey(e, terms + [t])| == |InKey(e, terms)| + if Contains(Lower(e.key), t) then 1 else 0
  {
    assert InKey(e, terms + [t]) == InKey(e, terms) + if Contains(Lower(e.key), t) then {|terms|} else {};
  }

  lemma ElsewherePush(e: Entry, terms: seq<string>, t: string)
    ensures |Elsewhere(e, terms + [t])| == |Elsewhere(e, terms)| + if TermScore(e, t) == 1 then 1 else 0
  {
    assert Elsewhere(e, terms + [t]) == Elsewhere(e, terms) + if TermScore(e, t) == 1 then {|terms|} else {};
  }

  /** Each term in the key counts two, each other one found counts one. */
  lemma {:induction false} ScoreIs(e: Entry, terms: seq<string>)
    ensures Score(e, terms) == 2 * |InKey(e, terms)| + |Elsewhere(e, terms)|
  {
    if terms == [] {
      assert InKey(e, terms) == {} && Elsewhere(e, terms) == {};
    } else {
      var n := |terms| - 1;
      ScoreIs(e, terms[..n]);
      assert terms == terms[..n] + [terms[n]];
      InKeyPush(e, terms[..n], terms[n]);
      ElsewherePush(e, terms[..n], terms[n]);
    }
  }

  method MatchScore(e: Entry, terms: seq<string>) returns (score: nat)
    ensures score == Score(e, terms) == 2 * |InKey(e, terms)| + |Elsewhere(e, terms)|
  {
    ScoreIs(e, terms);
    score := 0;
    for i := 0 to |terms|
      invariant score == Score(e, terms[..i])
    {
      assert terms[..i + 1][..i] == terms[..i];
      if Contains(Lower(e.key), terms[i]) {
        score := score + 2;
      } else if Contains(Lower(e.value), terms[i]) || Contains(Lower(e.file), terms[i]) {
        score := score + 1;
      }
    }
    assert terms[..|terms|] == terms;
  }

  lemma {:induction false} ScoreIsPositiveIff(e: Entry, terms: seq<string>)
    ensures Score(e, terms) > 0 <==> exists t :: t in terms && Hits(e, t)
  {
    if terms != [] {
      var n := |terms| - 1;
      ScoreIsPositiveIff(e, terms[..n]);
      assert terms == terms[..n] + [terms[n]];
      if Score(e, terms[..n]) > 0 {
        var t :| t in terms[..n] && Hits(e, t);
        assert t in terms;
      } else if Hits(e, terms[n]) {
        assert terms[n] in terms;
      }
    }
  }

  // ----- Ranking -----

  predicate RanksNoLower(a: Entry, b: Entry, terms: seq<string>) {
    Score(a, terms) > Score(b, terms) || (Score(a, terms) == Score(b, terms) && a.lastUsedAt >= b.lastUsedAt)
  }

  ghost predicate Ranked(s: seq<Entry>, terms: seq<string>) {
    forall i, j :: 0 <= i < j < |s| ==> RanksNoLower(s[i], s[j], terms)
  }

  function Insert(s: seq<Entry>, e: Entry, terms: seq<string>): (r: seq<Entry>)
    ensures forall x :: x in r <==> x == e || x in s
  {
    if s == [] || RanksNoLower(e, s[0], terms) then [e] + s else [s[0]] + Insert(s[1..], e, terms)
  }

  lemma {:induction false} InsertRanks(s: seq<Entry>, e: Entry, terms: seq<string>)
    requires Ranked(s, terms)
    ensures Ranked(Insert(s, e, terms), terms)
  {
    if s != [] && !RanksNoLower(e, s[0], terms) {
      InsertRanks(s[1..], e, terms);
      var rest := Insert(s[1..], e, terms);
      forall x | x in rest ensures RanksNoLower(s[0], x, terms) {
        if x != e {
          var i :| 0 <= i < |s[1..]| && s[1..][i] == x;
          assert s[i + 1] == x;
        }
      }
    } else if s != [] {
      forall x | x in s ensures RanksNoLower(e, x, terms) {
        var i :| 0 <= i < |s| && s[i] == x;
        assert i > 0 ==> RanksNoLower(s[0], s[i], terms);
      }
    }
  }

  lemma {:induction false} InsertApart(s: seq<Entry>, e: Entry, terms: seq<string>)
    requires Apart(s) && forall x :: x in s ==> KeyOf(x) != KeyOf(e)
    ensures Apart(Insert(s, e, terms))
  {
    if s != [] && !RanksNoLower(e, s[0], terms) {
      InsertApart(s[1..], e, terms);
      var rest := Insert(s[1..], e, terms);
      forall x | x in rest ensures KeyOf(s[0]) != KeyOf(x) {
        if x != e {
          var i :| 0 <= i < |s[1..]| && s[1..][i] == x;
          assert s[i + 1] == x;
        }
      }
    }
  }

  ghost predicate Apart(s: seq<Entry>) {
    forall i, j :: 0 <= i < j < |s| ==> KeyOf(s[i]) != KeyOf(s[j])
  }

  /** s holds each entry of m that satisfies p, once, and nothing else. */
  ghost predicate Lists(s: seq<Entry>, m: Entries, p: Entry -> bool) {
    && Apart(s)
    && forall e :: e in s <==> KeyOf(e) in m && m[KeyOf(e)] == e && p(e)
  }

  method RankByOverlap(m: Entries, terms: seq<string>, keep: Entry -> bool) returns (out: seq<Entry>)
    requires Keyed(m)
    ensures forall i, j :: 0 <= i < j < |out| ==>
      && Score(out[i], terms) >= Score(out[j], terms)
      && (Score(out[i], terms) == Score(out[j], terms) ==> out[i].lastUsedAt >= out[j].lastUsedAt)
    ensures Ranked(out, terms) && Lists(out, m, (e: Entry) => keep(e) && Score(e, terms) > 0)
  {
    out := [];
    var pending := m.Keys;
    while pending != {}
      invariant pending <= m.Keys && Ranked(out, terms) && Apart(out)
      invariant forall e :: e in out <==>
        KeyOf(e) in m && KeyOf(e) !in pending && m[KeyOf(e)] == e && keep(e) && Score(e, terms) > 0
    {
      var ek :| ek in pending;
      pending := pending - {ek};
      var s := MatchScore(m[ek], terms);
      if keep(m[ek]) && s > 0 {
        InsertRanks(out, m[ek], terms);
        InsertApart(out, m[ek], terms);
        out := Insert(out, m[ek], terms);
      }
    }
  }

  // ----- The snapshot -----

  function Reloaded(m: Entries, entries: seq<Entry>): Entries {
    if entries == [] then m
    else
      var e := entries[|entries| - 1].(hitCount := 1);
      Reloaded(m, entries[..|entries| - 1])[KeyOf(e) := e]
  }

  function Restored(m: Entries, file: File): Entries {
    match file case Saved(entries) => Reloaded(m, entries) case _ => m
  }

  /** The entries with their hit counts started over. */
  function Started(m: Entries): Entries {
    map ek | ek in m :: m[ek].(hitCount := 1)
  }

  lemma {:induction false} ReloadedMembers(m: Entries, s: seq<Entry>)
    requires Keyed(m) && forall e :: e in s ==> KeyOf(e) in m && m[KeyOf(e)] == e
    ensures forall ek :: ek in Reloaded(map[], s) ==> ek in m && Reloaded(map[], s)[ek] == m[ek].(hitCount := 1)
    ensures forall e :: e in s ==> KeyOf(e) in Reloaded(map[], s)
  {
    if s != [] {
      var n := |s| - 1;
      assert s == s[..n] + [s[n]];
      assert s[n] in s && KeyOf(s[n].(hitCount := 1)) == KeyOf(s[n]);
      ReloadedMembers(m, s[..n]);
    }
  }

  /** Entry i of the file is the last one under its key. */
  ghost predicate LastUnder(s: seq<Entry>, ek: string, i: int) {
    0 <= i < |s| && KeyOf(s[i]) == ek && forall j :: i < j < |s| ==> KeyOf(s[j]) != ek
  }

  /** The last entry of the file under a key takes the place of what was in memory, its hits counted from one. */
  lemma {:induction false} FileComesFirst(m: Entries, s: seq<Entry>, ek: string, i: int)
    requires LastUnder(s, ek, i)
    ensures ek in Reloaded(m, s) && Reloaded(m, s)[ek] == s[i].(hitCount := 1)
  {
    var n := |s| - 1;
    assert KeyOf(s[n].(hitCount := 1)) == KeyOf(s[n]);
    if i < n {
      FileComesFirst(m, s[..n], ek, i);
    }
  }

  /** Keys the file does not use keep what they had. */
  lemma {:induction false} OthersStay(m: Entries, s: seq<Entry>, ek: string)
    requires forall e :: e in s ==> KeyOf(e) != ek
    ensures ek in Reloaded(m, s) <==> ek in m
    ensures ek in m ==> Reloaded(m, s)[ek] == m[ek]
  {
    if s != [] {
      var last := s[|s| - 1];
      assert last in s && KeyOf(last.(hitCount := 1)) == KeyOf(last);
      OthersStay(m, s[..|s| - 1], ek);
    }
  }

  /** What loading the entries of a file leaves in memory. */
  ghost predicate Overwritten(m: Entries, s: seq<Entry>, after: Entries) {
    && (forall ek, i :: LastUnder(s, ek, i) ==> ek in after && after[ek] == s[i].(hitCount := 1))
    && (forall ek :: ek in m && (forall e :: e in s ==> KeyOf(e) != ek) ==> ek in after && after[ek] == m[ek])
  }

  lemma ReloadedOverwrites(m: Entries, s: seq<Entry>)
    ensures Overwritten(m, s, Reloaded(m, s))
  {
    forall ek, i | LastUnder(s, ek, i) ensures ek in Reloaded(m, s) && Reloaded(m, s)[ek] == s[i].(hitCount := 1) {
      FileComesFirst(m, s, ek, i);
    }
    forall ek | ek in m && (forall e :: e in s ==> KeyOf(e) != ek)
      ensures ek in Reloaded(m, s) && Reloaded(m, s)[ek] == m[ek]
    {
      OthersStay(m, s, ek);
    }
  }

  /** Whatever order the entries were written in, a fresh memory gets them all back. */
  lemma SavedComesBack(m: Entries, s: seq<Entry>)
    requires Keyed(m) && Lists(s, m, (e: Entry) => true)
    ensures Reloaded(map[], s) == Started(m)
  {
    ReloadedMembers(m, s);
    forall ek | ek in m ensures ek in Reloaded(map[], s) {
      assert m[ek] in s;
    }
  }

  class KnowledgeMemory {
    var entries: Entries
    var clock: int

    ghost predicate Valid()
      reads this
    {
      Keyed(entries)
    }

    constructor (now: int)
      ensures Valid() && entries == map[] && clock == now
    {
      entries, clock := map[], now;
    }

    method Store(kind: Kind, key: string, entry: Entry)
      requires Valid()
      modifies this
      ensures Valid() && clock > old(clock)
      ensures entries == old(entries)[EntryKey(kind, key) :=
        entry.(kind := kind, key := key, createdAt := old(clock), lastUsedAt := old(clock), hitCount := 1)]
    {
      var e := entry.(kind := kind, key := key, createdAt := clock, lastUsedAt := clock, hitCount := 1);
      entries := entries[EntryKey(kind, key) := e];
      clock := clock + 1;
    }

    method Lookup(kind: Kind, key: string) returns (found: Option<Entry>)
      requires Valid()
      modifies this
      ensures Valid() && clock > old(clock)
      ensures EntryKey(kind, key) !in old(entries) ==> found == None && entries == old(entries)
      ensures EntryKey(kind, key) in old(entries) ==>
        var e := old(entries)[EntryKey(kind, key)];
        && entries == old(entries)[EntryKey(kind, key) := e.(lastUsedAt := old(clock), hitCount := e.hitCount + 1)]
        && found == Some(entries[EntryKey(kind, key)])
    {
      var ek := EntryKey(kind, key);
      found := None;
      if ek in entries {
        entries := entries[ek := entries[ek].(lastUsedAt := clock, hitCount := entries[ek].hitCount + 1)];
        found := Some(entries[ek]);
      }
      clock := clock + 1;
    }

    method Search(kind: Kind, query: string) returns (out: seq<Entry>)
      requires Valid()
      ensures Ranked(out, Terms(query)) && Lists(out, entries, (e: Entry) => e.kind == kind && Score(e, Terms(query)) > 0)
    {
      var terms := TokenizeKey(query);
      if |terms| == 0 {
        return [];
      }
      out := RankByOverlap(entries, terms, (e: Entry) => e.kind == kind);
    }

    method SearchAll(query: string) returns (out: seq<Entry>)
      requires Valid()
      ensures Ranked(out, Terms(query)) && Lists(out, entries, (e: Entry) => Score(e, Terms(query)) > 0)
    {
      var terms := TokenizeKey(query);
      if |terms| == 0 {
        return [];
      }
      out := RankByOverlap(entries, terms, (e: Entry) => true);
    }

    method Snapshot() returns (out: seq<Entry>)
      requires Valid()
      ensures Lists(out, entries, (e: Entry) => true)
    {
      out := [];
      var pending := entries.Keys;
      while pending != {}
        invariant pending <= entries.Keys && Apart(out)
        invariant forall e :: e in out <==> KeyOf(e) in entries && KeyOf(e) !in pending && entries[KeyOf(e)] == e
      {
        var ek :| ek in pending;
        pending := pending - {ek};
        out := out + [entries[ek]];
      }
    }

    method SaveToFile() returns (file: File)
      requires Valid()
      ensures file.Saved? && Restored(map[], file) == Started(entries)
    {
      var snapshot := Snapshot();
      SavedComesBack(entries, snapshot);
      file := Saved(snapshot);
    }

    method LoadFromFile(file: File) returns (ok: bool)
      requires Valid()
      modifies this`entries
      ensures Valid() && entries == Restored(old(entries), file) && ok == !file.Malformed?
      ensures if file.Saved? then Overwritten(old(entries), file.entries, entries) else entries == old(entries)
    {
      if !file.Saved? {
        return file.Missing?;
      }
      for i := 0 to |file.entries|
        invariant Valid() && entries == Reloaded(old(entries), file.entries[..i])
      {
        assert file.entries[..i + 1][..i] == file.entries[..i];
        var e := file.entries[i].(hitCount := 1);
        entries := entries[KeyOf(e) := e];
      }
      assert file.entries[..|file.entries|] == file.entries;
      ReloadedOverwrites(old(entries), file.entries);
      ok := true;
    }
  }
}
