/** The durable facts of a session: remembered as user notes, written to disk each time, read back on restart. */
module Facts {
  import opened Text
  import opened Knowledge

  datatype Note = Note(key: string, value: string, file: string)

  type Notes = map<string, Note>

  function NoteOf(e: Entry): Note {
    Note(e.key, e.value, e.file)
  }

  function NotesIn(m: Entries): Notes {
    map ek | ek in m && m[ek].kind == UserNote :: NoteOf(m[ek])
  }

  function Line(n: Note): string {
    n.key + ": " + n.value
  }

  /** The note mentions one of the words of the query. */
  ghost predicate SharesTerm(n: Note, query: string) {
    exists t :: t in Terms(query) && (Contains(Lower(n.key), t) || Contains(Lower(n.value), t) || Contains(Lower(n.file), t))
  }

  ghost predicate Asked(n: Note, query: string) {
    TrimSpace(query) == "" || SharesTerm(n, query)
  }

  /** The notes a query is answered with. */
  ghost function Answers(notes: Notes, query: string): set<string> {
    set ek | ek in notes && Asked(notes[ek], query)
  }

  function NewUserNote(key: string, fact: string): Entry {
    Entry(UserNote, key, fact, [], "", 0, 1.0, 0, 0, 0)
  }

  // ----- From entries to notes -----

  lemma StartedKeepsNotes(m: Entries)
    ensures NotesIn(Started(m)) == NotesIn(m)
  {
  }

  /** Storing knowledge of another kind leaves the notes alone. */
  lemma OtherKindsSpareNotes(m: Entries, kind: Kind, key: string, e: Entry)
    requires Keyed(m) && kind != UserNote && e.kind == kind
    ensures NotesIn(m[EntryKey(kind, key) := e]) == NotesIn(m)
  {
    if EntryKey(kind, key) in NotesIn(m) {
      NoteKeysAreApart(kind, key, m[EntryKey(kind, key)].key);
    }
  }

  lemma ScoreMeansSharing(e: Entry, query: string)
    ensures Score(e, Terms(query)) > 0 <==> SharesTerm(NoteOf(e), query)
  {
    ScoreIsPositiveIff(e, Terms(query));
    if t :| t in Terms(query) && Hits(e, t) {
    }
    if SharesTerm(NoteOf(e), query) {
      var t :| t in Terms(query)
        && (Contains(Lower(e.key), t) || Contains(Lower(e.value), t) || Contains(Lower(e.file), t));
      assert Hits(e, t);
    }
  }

  /** When no note matches, no entry of any kind that matches is a note: the wider search adds nothing. */
  lemma {:induction false} FallbackAddsNothing(m: Entries, terms: seq<string>, own: seq<Entry>, all: seq<Entry>)
    requires Knowledge.Lists(own, m, (e: Entry) => e.kind == UserNote && Score(e, terms) > 0) && own == []
    requires Knowledge.Lists(all, m, (e: Entry) => Score(e, terms) > 0)
    ensures forall e :: e in all ==> e.kind != UserNote
  {
    forall e | e in all ensures e.kind != UserNote {
      assert e !in own;
    }
  }

  function NoteEntries(entries: seq<Entry>): seq<Entry> {
    if entries == [] then []
    else
      var rest, e := NoteEntries(entries[..|entries| - 1]), entries[|entries| - 1];
      if e.kind == UserNote then rest + [e] else rest
  }

  lemma {:induction false} NoteEntriesMembers(entries: seq<Entry>)
    ensures forall e :: e in NoteEntries(entries) <==> e in entries && e.kind == UserNote
  {
    if entries != [] {
      var n := |entries| - 1;
      NoteEntriesMembers(entries[..n]);
      assert entries == entries[..n] + [entries[n]];
    }
  }

  lemma {:induction false} NoteEntriesApart(entries: seq<Entry>)
    requires Apart(entries)
    ensures Apart(NoteEntries(entries))
  {
    if entries != [] {
      var n := |entries| - 1;
      NoteEntriesApart(entries[..n]);
      NoteEntriesMembers(entries[..n]);
      forall x | x in NoteEntries(entries[..n]) ensures KeyOf(x) != KeyOf(entries[n]) {
        var i :| 0 <= i < n && entries[..n][i] == x;
        assert KeyOf(entries[i]) != KeyOf(entries[n]);
      }
    }
  }

  lemma {:induction false} NoteEntriesRanked(entries: seq<Entry>, terms: seq<string>)
    requires Ranked(entries, terms)
    ensures Ranked(NoteEntries(entries), terms)
  {
    if entries != [] {
      var n := |entries| - 1;
      NoteEntriesRanked(entries[..n], terms);
      NoteEntriesMembers(entries[..n]);
      forall x | x in NoteEntries(entries[..n]) ensures RanksNoLower(x, entries[n], terms) {
        var i :| 0 <= i < n && entries[..n][i] == x;
        assert RanksNoLower(entries[i], entries[n], terms);
      }
    }
  }

  method NoteLines(entries: seq<Entry>) returns (out: seq<string>)
    ensures |out| == |NoteEntries(entries)|
    ensures forall i :: 0 <= i < |out| ==> out[i] == Line(NoteOf(NoteEntries(entries)[i]))
  {
    out := [];
    for i := 0 to |entries|
      invariant |out| == |NoteEntries(entries[..i])|
      invariant forall k :: 0 <= k < |out| ==> out[k] == Line(NoteOf(NoteEntries(entries[..i])[k]))
    {
      assert entries[..i + 1][..i] == entries[..i];
      if entries[i].kind != UserNote {
        continue;
      }
      out := out + [entries[i].key + ": " + entries[i].value];
    }
    assert entries[..|entries|] == entries;
  }

  /** hits lists the notes of m that answer the query. */
  ghost predicate ListsAnswers(hits: seq<Entry>, m: Entries, query: string) {
    && Apart(hits)
    && forall e :: e in hits <==> KeyOf(e) in m && m[KeyOf(e)] == e && e.kind == UserNote && Asked(NoteOf(e), query)
  }

  ghost function Keys(hits: seq<Entry>): set<string> {
    set e | e in hits :: KeyOf(e)
  }

  lemma KeysOfMore(hits: seq<Entry>, e: Entry)
    ensures Keys(hits + [e]) == Keys(hits) + {KeyOf(e)}
  {
    var more := hits + [e];
    forall ek | ek in Keys(hits) + {KeyOf(e)} ensures ek in Keys(more) {
      if ek == KeyOf(e) {
        assert more[|hits|] == e;
      } else {
        var x :| x in hits && KeyOf(x) == ek;
        assert x in more;
      }
    }
  }

  lemma LastIsApart(hits: seq<Entry>, e: Entry)
    requires Apart(hits + [e])
    ensures Apart(hits) && KeyOf(e) !in Keys(hits)
  {
    var more := hits + [e];
    forall i | 0 <= i < |hits| ensures KeyOf(hits[i]) != KeyOf(e) {
      assert more[i] == hits[i] && more[|hits|] == e;
    }
    forall i, j | 0 <= i < j < |hits| ensures KeyOf(hits[i]) != KeyOf(hits[j]) {
      assert more[i] == hits[i] && more[j] == hits[j];
    }
  }

  lemma {:induction false} KeysSize(hits: seq<Entry>)
    requires Apart(hits)
    ensures |Keys(hits)| == |hits|
  {
    if hits != [] {
      var n := |hits| - 1;
      assert hits == hits[..n] + [hits[n]];
      LastIsApart(hits[..n], hits[n]);
      KeysOfMore(hits[..n], hits[n]);
      KeysSize(hits[..n]);
    }
  }

  lemma AnswersAreTheirKeys(hits: seq<Entry>, m: Entries, query: string)
    requires Keyed(m) && ListsAnswers(hits, m, query)
    ensures Answers(NotesIn(m), query) == Keys(hits)
  {
    forall ek | ek in Answers(NotesIn(m), query) ensures ek in Keys(hits) {
      assert m[ek] in hits;
    }
    forall ek | ek in Keys(hits) ensures ek in Answers(NotesIn(m), query) {
      var e :| e in hits && KeyOf(e) == ek;
      assert NotesIn(m)[ek] == NoteOf(e);
    }
  }

  lemma LinesAreAnswers(hits: seq<Entry>, out: seq<string>, m: Entries, query: string)
    requires Keyed(m) && ListsAnswers(hits, m, query)
    requires |out| == |hits| && forall i :: 0 <= i < |out| ==> out[i] == Line(NoteOf(hits[i]))
    ensures |out| == |Answers(NotesIn(m), query)|
    ensures forall l :: l in out <==> exists ek :: ek in Answers(NotesIn(m), query) && Line(NotesIn(m)[ek]) == l
  {
    KeysSize(hits);
    AnswersAreTheirKeys(hits, m, query);
    forall l | l in out ensures exists ek :: ek in Answers(NotesIn(m), query) && Line(NotesIn(m)[ek]) == l {
      var i :| 0 <= i < |out| && out[i] == l;
      assert hits[i] in hits;
      assert KeyOf(hits[i]) in Answers(NotesIn(m), query) && NotesIn(m)[KeyOf(hits[i])] == NoteOf(hits[i]);
    }
    forall ek | ek in Answers(NotesIn(m), query) ensures Line(NotesIn(m)[ek]) in out {
      assert m[ek] in hits;
      var i :| 0 <= i < |hits| && hits[i] == m[ek];
      assert out[i] == Line(NotesIn(m)[ek]);
    }
  }

  lemma AllEntriesAnswerBlank(entries: seq<Entry>, m: Entries, query: string)
    requires Knowledge.Lists(entries, m, (e: Entry) => true) && TrimSpace(query) == ""
    ensures ListsAnswers(NoteEntries(entries), m, query)
  {
    NoteEntriesMembers(entries);
    NoteEntriesApart(entries);
  }

  lemma MatchesAnswer(entries: seq<Entry>, m: Entries, query: string)
    requires TrimSpace(query) != ""
    requires
      || Knowledge.Lists(entries, m, (e: Entry) => e.kind == UserNote && Score(e, Terms(query)) > 0)
      || Knowledge.Lists(entries, m, (e: Entry) => Score(e, Terms(query)) > 0)
    ensures ListsAnswers(NoteEntries(entries), m, query)
  {
    NoteEntriesMembers(entries);
    NoteEntriesApart(entries);
    forall e ensures Score(e, Terms(query)) > 0 <==> Asked(NoteOf(e), query) {
      ScoreMeansSharing(e, query);
    }
  }

  class RepoSession {
    const memory: KnowledgeMemory
    const factsPath: string
    var facts: File              // the file at factsPath

    /** The file holds the notes in memory. */
    ghost predicate Valid()
      reads this, memory
    {
      memory.Valid() && (factsPath != "" ==> NotesIn(Restored(map[], facts)) == NotesIn(memory.entries))
    }

    constructor (factsPath: string, facts: File, now: int)
      ensures Valid() && fresh(memory) && this.factsPath == factsPath && this.facts == facts
      ensures memory.entries == Restored(map[], facts)
    {
      memory := new KnowledgeMemory(now);
      this.factsPath, this.facts := factsPath, facts;
      new;
      var _ := memory.LoadFromFile(facts);
    }

    /** The last fact under a key wins, and is on disk when the call returns. */
    method RememberFact(key: string, fact: string)
      requires Valid()
      modifies this, memory
      ensures Valid()
      ensures NotesIn(memory.entries) == old(NotesIn(memory.entries))[EntryKey(UserNote, key) := Note(key, fact, "")]
    {
      memory.Store(UserNote, key, NewUserNote(key, fact));
      if factsPath != "" {
        facts := memory.SaveToFile();
        StartedKeepsNotes(memory.entries);
      }
    }

    /** One line for each note that shares a term with the query, the best match first and of equally good
        ones the last used; for a blank query one line for each note. */
    method RecallFacts(query: string) returns (out: seq<string>, ghost hits: seq<Entry>)
      requires Valid()
      ensures ListsAnswers(hits, memory.entries, query) && |out| == |hits|
      ensures forall i :: 0 <= i < |out| ==> out[i] == hits[i].key + ": " + hits[i].value
      ensures TrimSpace(query) != "" ==> Ranked(hits, Terms(query))
      ensures forall l :: l in out <==>
        exists ek :: ek in Answers(NotesIn(memory.entries), query) && Line(NotesIn(memory.entries)[ek]) == l
      ensures |out| == |Answers(NotesIn(memory.entries), query)|
    {
      var entries;
      if TrimSpace(query) == "" {
        entries := memory.Snapshot();
        AllEntriesAnswerBlank(entries, memory.entries, query);
      } else {
        entries := memory.Search(UserNote, query);
        if |entries| == 0 {
          entries := memory.SearchAll(query);
        }
        MatchesAnswer(entries, memory.entries, query);
        NoteEntriesRanked(entries, Terms(query));
      }
      out := NoteLines(entries);
      hits := NoteEntries(entries);
      LinesAreAnswers(hits, out, memory.entries, query);
    }
  }

  /** A restarted session knows the same notes, and so answers every query with the same lines. */
  method Restart(s: RepoSession, now: int) returns (t: RepoSession)
    requires s.Valid() && s.factsPath != ""
    ensures fresh(t) && fresh(t.memory) && t.Valid() && t.factsPath == s.factsPath && t.facts == s.facts
    ensures NotesIn(t.memory.entries) == NotesIn(s.memory.entries)
  {
    t := new RepoSession(s.factsPath, s.facts, now);
  }

  // ----- Every run -----

  /** Facts are remembered, the memory learns other things and is looked things up in, and the server restarts. */
  datatype Event =
    | Remember(key: string, fact: string)
    | Learn(kind: Kind, key: string, entry: Entry)
    | LookUp(kind: Kind, key: string)
    | Stop(now: int)

  /** Notes come only from remembering. */
  predicate NotesAreRemembered(events: seq<Event>) {
    forall e :: e in events && e.Learn? ==> e.kind != UserNote
  }

  function Remembered(events: seq<Event>): Notes {
    if events == [] then map[]
    else
      var before := Remembered(events[..|events| - 1]);
      match events[|events| - 1]
      case Remember(key, fact) => before[EntryKey(UserNote, key) := Note(key, fact, "")]
      case _ => before
  }

  lemma LookingUpSparesNotes(m: Entries, ek: string, e: Entry)
    requires ek in m && e.kind == m[ek].kind && NoteOf(e) == NoteOf(m[ek])
    ensures NotesIn(m[ek := e]) == NotesIn(m)
  {
    assert m[ek := e].Keys == m.Keys;
  }

  method Handle(s: RepoSession, event: Event) returns (t: RepoSession)
    requires s.Valid() && s.factsPath != "" && (event.Learn? ==> event.kind != UserNote)
    modifies s, s.memory
    ensures (t == s && t.memory == s.memory) || (fresh(t) && fresh(t.memory))
    ensures t.Valid() && t.factsPath == s.factsPath
    ensures NotesIn(t.memory.entries) ==
      if event.Remember? then old(NotesIn(s.memory.entries))[EntryKey(UserNote, event.key) := Said(event)]
      else old(NotesIn(s.memory.entries))
  {
    t := s;
    match event {
      case Remember(key, fact) => s.RememberFact(key, fact);
      case Learn(kind, key, entry) =>
        OtherKindsSpareNotes(s.memory.entries, kind, key,
                             entry.(kind := kind, key := key, createdAt := s.memory.clock, lastUsedAt := s.memory.clock,
                                    hitCount := 1));
        s.memory.Store(kind, key, entry);
      case LookUp(kind, key) =>
        ghost var before, ek := s.memory.entries, EntryKey(kind, key);
        var _ := s.memory.Lookup(kind, key);
        if ek in before {
          LookingUpSparesNotes(before, ek, s.memory.entries[ek]);
        }
      case Stop(now) => t := Restart(s, now);
    }
  }

  /** However often the server stops in between, the notes are those of the run. */
  method Run(factsPath: string, events: seq<Event>) returns (s: RepoSession)
    requires factsPath != "" && NotesAreRemembered(events)
    ensures s.Valid() && NotesIn(s.memory.entries) == Remembered(events)
  {
    s := new RepoSession(factsPath, Missing, 0);
    for i := 0 to |events|
      invariant fresh(s) && fresh(s.memory) && s.Valid() && s.factsPath == factsPath
      invariant NotesIn(s.memory.entries) == Remembered(events[..i])
    {
      assert events[..i + 1][..i] == events[..i];
      s := Handle(s, events[i]);
    }
    assert events[..|events|] == events;
  }

  function Said(e: Event): Note
    requires e.Remember?
  {
    Note(e.key, e.fact, "")
  }

  /** Event i is the last to remember something under this key. */
  ghost predicate LastUnder(events: seq<Event>, i: int, ek: string) {
    && 0 <= i < |events| && events[i].Remember? && EntryKey(UserNote, events[i].key) == ek
    && forall j :: i < j < |events| && events[j].Remember? ==> EntryKey(UserNote, events[j].key) != ek
  }

  /** A note is there exactly when its key was ever used, letter case aside, and says what was said last. */
  lemma {:induction false} LastFactWins(events: seq<Event>, ek: string)
    ensures ek in Remembered(events) <==> exists i :: LastUnder(events, i, ek)
    ensures forall i :: LastUnder(events, i, ek) ==> ek in Remembered(events) && Remembered(events)[ek] == Said(events[i])
  {
    if events != [] {
      var n := |events| - 1;
      var before := events[..n];
      LastFactWins(before, ek);
      if events[n].Remember? && EntryKey(UserNote, events[n].key) == ek {
        assert LastUnder(events, n, ek);
      } else {
        forall i ensures LastUnder(events, i, ek) <==> LastUnder(before, i, ek) {
          assert 0 <= i < n ==> before[i] == events[i];
          assert forall j :: 0 <= j < n ==> before[j] == events[j];
        }
      }
    }
  }
}
