/** The blob stash: contents on disk under their handles, an index of them in memory, and a manifest
    that must rebuild the index. */
module Stash {
  import opened Wrappers
  import opened Sets
  import opened Text

  const MAX_ENTRIES := 256
  const DEFAULT_BUDGET := 500

  type Handle = string

  datatype Entry = Entry(handle: Handle, tag: string, tokens: nat, bytes: nat, createdAt: int)

  type Index = map<Handle, Entry>
  type Blobs = map<Handle, string>

  predicate IsHexChar(c: char) {
    '0' <= c <= '9' || 'a' <= c <= 'f'
  }

  predicate IsHexHandle(h: string) {
    h != "" && forall i :: 0 <= i < |h| ==> IsHexChar(h[i])
  }

  /** The content hash, taken to be injective. */
  type Digest = string -> Handle

  ghost predicate Lawful(digest: Digest) {
    && (forall c :: IsHexHandle(digest(c)))
    && (forall c, d :: digest(c) == digest(d) ==> c == d)
  }

  /** Index and files agree, and no two entries are equally old. */
  ghost predicate Consistent(digest: Digest, idx: Index, blobs: Blobs, now: int) {
    && idx.Keys == blobs.Keys
    && (forall h :: h in idx ==> idx[h].handle == h && digest(blobs[h]) == h && idx[h].createdAt < now)
    && DistinctTimes(idx)
  }

  /** What loading a manifest puts into the index: of two entries with one handle the later. */
  function Loaded(entries: seq<Entry>): Index {
    if entries == [] then map[]
    else var last := entries[|entries| - 1]; Loaded(entries[..|entries| - 1])[last.handle := last]
  }

  function Manifest(file: Option<seq<Entry>>): Index {
    match file case None => map[] case Some(entries) => Loaded(entries)
  }

  // ----- Sorting -----

  predicate Newer(a: Entry, b: Entry) {
    a.createdAt > b.createdAt
  }

  ghost predicate NewestFirst(s: seq<Entry>) {
    forall i, j :: 0 <= i < j < |s| ==> Newer(s[i], s[j])
  }

  ghost predicate DistinctTimes(idx: Index) {
    forall h, k :: h in idx && k in idx && h != k ==> idx[h].createdAt != idx[k].createdAt
  }

  function InsertNewest(s: seq<Entry>, e: Entry): (r: seq<Entry>)
    ensures |r| == |s| + 1
    ensures forall x :: x in r <==> x == e || x in s
  {
    if s == [] || Newer(e, s[0]) then [e] + s else [s[0]] + InsertNewest(s[1..], e)
  }

  lemma {:induction false} InsertNewestSorted(s: seq<Entry>, e: Entry)
    requires NewestFirst(s) && forall x :: x in s ==> x.createdAt != e.createdAt
    ensures NewestFirst(InsertNewest(s, e))
  {
    if s != [] && !Newer(e, s[0]) {
      InsertNewestSorted(s[1..], e);
      var r := InsertNewest(s[1..], e);
      forall x | x in r ensures Newer(s[0], x) {
        if x != e { var i :| 0 <= i < |s[1..]| && s[1..][i] == x; assert s[i + 1] == x; }
      }
    }
  }

  /** sort.Slice by descending creation time, over the values of the index. */
  method SortedEntries(idx: Index) returns (s: seq<Entry>)
    requires DistinctTimes(idx) && forall h :: h in idx ==> idx[h].handle == h
    ensures NewestFirst(s) && |s| == |idx| && Lists(s, idx)
  {
    s := [];
    var pending := idx.Keys;
    while pending != {}
      invariant pending <= idx.Keys && NewestFirst(s) && |s| + |pending| == |idx|
      invariant forall e :: e in s <==> e.handle in idx && e.handle !in pending && idx[e.handle] == e
    {
      var h :| h in pending;
      pending := pending - {h};
      InsertNewestSorted(s, idx[h]);
      s := InsertNewest(s, idx[h]);
    }
  }

  /** The entries of a sequence, in any order, are exactly those of the index. */
  ghost predicate Lists(s: seq<Entry>, idx: Index) {
    forall e :: e in s <==> e.handle in idx && idx[e.handle] == e
  }

  lemma {:induction false} LoadedLists(s: seq<Entry>, idx: Index)
    requires forall h :: h in idx ==> idx[h].handle == h
    requires Lists(s, idx)
    ensures Loaded(s) == idx
  {
    LoadedMembers(s, idx);
    forall h | h in idx ensures h in Loaded(s) {
      assert idx[h] in s;
      LoadedHas(s, idx[h]);
    }
  }

  /** Entry i of the manifest is the last one of its handle. */
  ghost predicate LastOfHandle(s: seq<Entry>, h: Handle, i: int) {
    0 <= i < |s| && s[i].handle == h && forall j :: i < j < |s| ==> s[j].handle != h
  }

  /** Loading a manifest gives each handle in it the last of its entries, and no other handle any. */
  lemma {:induction false} LoadedIff(s: seq<Entry>, h: Handle)
    ensures h in Loaded(s) <==> exists i :: LastOfHandle(s, h, i)
    ensures forall i :: LastOfHandle(s, h, i) ==> Loaded(s)[h] == s[i]
  {
    if s != [] {
      var n := |s| - 1;
      LoadedIff(s[..n], h);
      if s[n].handle == h {
        assert LastOfHandle(s, h, n);
      } else {
        assert forall i :: LastOfHandle(s, h, i) <==> LastOfHandle(s[..n], h, i);
      }
    }
  }

  lemma {:induction false} LoadedMembers(s: seq<Entry>, idx: Index)
    requires forall e :: e in s ==> e.handle in idx && idx[e.handle] == e
    ensures forall h :: h in Loaded(s) ==> h in idx && Loaded(s)[h] == idx[h]
  {
    if s != [] {
      assert s[|s| - 1] in s;
      LoadedMembers(s[..|s| - 1], idx);
    }
  }

  lemma {:induction false} LoadedHas(s: seq<Entry>, e: Entry)
    requires e in s
    ensures e.handle in Loaded(s)
  {
    if s[|s| - 1] != e {
      assert e in s[..|s| - 1];
      LoadedHas(s[..|s| - 1], e);
    }
  }

  // ----- Handles as callers write them -----

  function TrimPrefix(s: string, p: string): string {
    if HasPrefix(s, p) then s[|p|..] else s
  }

  function NormalizeHandle(h: string): string {
    Lower(TrimSpace(TrimPrefix(TrimPrefix(TrimSpace(h), "stash://"), "stash:")))
  }

  lemma TrimmedAlready(s: string)
    requires s != "" && !IsSpace(s[0]) && !IsSpace(s[|s| - 1])
    ensures TrimSpace(s) == s
  {
    assert TrimLeft(s, IsSpace) == s;
  }

  lemma HexIsTrimmed(h: string)
    requires IsHexHandle(h)
    ensures TrimSpace(h) == h && Lower(h) == h
    ensures !HasPrefix(h, "stash://") && !HasPrefix(h, "stash:")
  {
    assert IsHexChar(h[0]) && IsHexChar(h[|h| - 1]);
    TrimmedAlready(h);
    assert "stash:"[0] == 's' && "stash://"[0] == 's';
  }

  lemma PrefixIsTrimmed(p: string, h: string)
    requires IsHexHandle(h) && p != "" && p[0] == 's'
    ensures TrimSpace(p + h) == p + h
  {
    assert IsHexChar(h[|h| - 1]);
    TrimmedAlready(p + h);
  }

  /** A handle is found under each of its spellings. */
  lemma SpellingsNormalize(h: string)
    requires IsHexHandle(h)
    ensures NormalizeHandle(h) == h
    ensures NormalizeHandle("stash:" + h) == h
    ensures NormalizeHandle("stash://" + h) == h
  {
    HexIsTrimmed(h);
    ShortSpelling(h);
    LongSpelling(h);
  }

  lemma ShortSpelling(h: string)
    requires IsHexHandle(h)
    ensures NormalizeHandle("stash:" + h) == h
  {
    HexIsTrimmed(h);
    var a := "stash:" + h;
    PrefixIsTrimmed("stash:", h);
    assert a[6] == h[0] && IsHexChar(h[0]) && a[6..] == h;
    assert !HasPrefix(a, "stash://") by { assert "stash://"[6] == '/'; }
    assert HasPrefix(a, "stash:") by { assert a[..6] == "stash:"; }
  }

  lemma LongSpelling(h: string)
    requires IsHexHandle(h)
    ensures NormalizeHandle("stash://" + h) == h
  {
    HexIsTrimmed(h);
    var a := "stash://" + h;
    PrefixIsTrimmed("stash://", h);
    assert a[8..] == h;
    assert HasPrefix(a, "stash://") by { assert a[..8] == "stash://"; }
  }

  // ----- The store -----

  function Tag(tag: string, existing: Option<Entry>): string {
    if TrimSpace(tag) == "" && existing.Some? then existing.value.tag else TrimSpace(tag)
  }

  /** What a prune to `max` entries may do: drop the oldest ones and nothing else. */
  ghost predicate PrunedTo(before: Index, after: Index, max: nat) {
    && |after| == (if |before| <= max then |before| else max)
    && (forall h :: h in after ==> h in before && after[h] == before[h])
    && (forall d, k :: d in before && d !in after && k in after ==> before[d].createdAt < after[k].createdAt)
  }

  function Found(idx: Index, h: Handle): Option<Entry> {
    if h in idx then Some(idx[h]) else None
  }

  /** Storing content again keeps its age, and its tag unless a new one is given. */
  function Fresh(h: Handle, content: string, tag: string, existing: Option<Entry>, now: int): Entry {
    Entry(h, Tag(tag, existing), |content| / 4, |content|, if existing.Some? then existing.value.createdAt else now)
  }

  lemma StoringIsConsistent(digest: Digest, idx: Index, blobs: Blobs, e: Entry, content: string, now: int)
    requires Lawful(digest) && Consistent(digest, idx, blobs, now) && e.handle == digest(content)
    requires e.createdAt == if e.handle in idx then idx[e.handle].createdAt else now
    ensures Consistent(digest, idx[e.handle := e], blobs[e.handle := content], now + 1)
  {
    var after := idx[e.handle := e];
    assert after.Keys == idx.Keys + {e.handle} == blobs[e.handle := content].Keys;
    forall h, k | h in after && k in after && h != k ensures after[h].createdAt != after[k].createdAt {
      assert h != e.handle ==> h in idx;
      assert k != e.handle ==> k in idx;
    }
  }

  // ----- Reading by query -----

  datatype Answer = NotFound | NoMatch | Excerpt(text: string, more: nat)

  function Matching(lines: seq<string>, q: string): seq<string> {
    if lines == [] then []
    else if q == "" || Contains(Lower(lines[0]), q) then [lines[0]] + Matching(lines[1..], q)
    else Matching(lines[1..], q)
  }

  function FirstFit(lines: seq<string>, room: int): (r: seq<string>)
    ensures |r| <= |lines|
  {
    if lines == [] then []
    else if |lines[0]| + 1 <= room then [lines[0]] + FirstFit(lines[1..], room - |lines[0]| - 1)
    else FirstFit(lines[1..], room)
  }

  /** A line answers the query: it contains it, letter case and blanks around it aside. A blank query is answered by
      every line. */
  predicate Answers(line: string, query: string) {
    TrimSpace(query) == "" || Contains(Lower(line), Lower(TrimSpace(query)))
  }

  /** a is what remains of b when some lines are left out. */
  ghost predicate Subsequence(a: seq<string>, b: seq<string>) {
    a == [] || (b != [] && ((a[0] == b[0] && Subsequence(a[1..], b[1..])) || Subsequence(a, b[1..])))
  }

  function Answered(content: string, query: string, budget: int): Answer {
    var hits := Matching(Lines(content), Lower(TrimSpace(query)));
    var kept := FirstFit(hits, (if budget <= 0 then DEFAULT_BUDGET else budget) * 4);
    if hits == [] then NoMatch else Excerpt(Unlines(kept), |hits| - |kept|)
  }

  /** How many of the first n lines answer the query. */
  function AnswerCount(lines: seq<string>, query: string, n: nat): nat
    requires n <= |lines|
  {
    if n == 0 then 0 else AnswerCount(lines, query, n - 1) + if Answers(lines[n - 1], query) then 1 else 0
  }

  lemma {:induction false} MatchingMeaning(lines: seq<string>, query: string)
    ensures var hits := Matching(lines, Lower(TrimSpace(query)));
      && (forall l :: l in hits <==> l in lines && Answers(l, query))
      && Subsequence(hits, lines) && |hits| == AnswerCount(lines, query, |lines|)
  {
    if lines != [] {
      MatchingMeaning(lines[1..], query);
      AnswerCountTail(lines, query, |lines|);
      assert lines == [lines[0]] + lines[1..];
      BlankIsBlank(query);
      SubsequenceTail(Matching(lines[1..], Lower(TrimSpace(query))), lines);
    }
  }

  lemma BlankIsBlank(query: string)
    ensures Lower(TrimSpace(query)) == "" <==> TrimSpace(query) == ""
  {
    assert |Lower(TrimSpace(query))| == |TrimSpace(query)|;
  }

  lemma SubsequenceTail(a: seq<string>, b: seq<string>)
    requires b != [] && Subsequence(a, b[1..])
    ensures Subsequence(a, b) && Subsequence([b[0]] + a, b)
  {
    assert ([b[0]] + a)[1..] == a;
  }

  lemma {:induction false} AnswerCountTail(lines: seq<string>, query: string, n: nat)
    requires 0 < n <= |lines|
    ensures AnswerCount(lines, query, n)
      == (if Answers(lines[0], query) then 1 else 0) + AnswerCount(lines[1..], query, n - 1)
  {
    if n > 1 {
      AnswerCountTail(lines, query, n - 1);
    }
  }

  lemma {:induction false} FirstFitIsPart(hits: seq<string>, lines: seq<string>, room: int)
    requires Subsequence(hits, lines)
    ensures Subsequence(FirstFit(hits, room), lines)
    ensures forall l :: l in FirstFit(hits, room) ==> l in hits
    decreases |lines|
  {
    if hits != [] {
      var kept := FirstFit(hits, room);
      if hits[0] == lines[0] && Subsequence(hits[1..], lines[1..]) {
        var rest := if |hits[0]| + 1 <= room then room - |hits[0]| - 1 else room;
        FirstFitIsPart(hits[1..], lines[1..], rest);
        SubsequenceTail(FirstFit(hits[1..], rest), lines);
      } else {
        FirstFitIsPart(hits, lines[1..], room);
        SubsequenceTail(kept, lines);
      }
    }
  }

  /** The answer shows these lines: lines of the content that answer the query, in the order of the content. */
  ghost predicate Shows(answer: Answer, content: string, query: string, shown: seq<string>) {
    && answer.Excerpt? && answer.text == Unlines(shown)
    && Subsequence(shown, Lines(content)) && (forall l :: l in shown ==> Answers(l, query))
    && |shown| + answer.more == AnswerCount(Lines(content), query, |Lines(content)|)
  }

  lemma AnsweredMeaning(content: string, query: string, budget: int)
    ensures Answered(content, query, budget).NoMatch? <==> forall l :: l in Lines(content) ==> !Answers(l, query)
    ensures Answered(content, query, budget).Excerpt? ==>
      |Answered(content, query, budget).text| <= 4 * if budget <= 0 then DEFAULT_BUDGET else budget
    ensures Answered(content, query, budget).NoMatch? || exists shown :: Shows(Answered(content, query, budget), content, query, shown)
  {
    var hits := Matching(Lines(content), Lower(TrimSpace(query)));
    MatchingMeaning(Lines(content), query);
    if hits == [] {
      assert forall l :: l in Lines(content) ==> (l in hits <==> Answers(l, query));
    } else {
      assert hits[0] in hits;
      var room := (if budget <= 0 then DEFAULT_BUDGET else budget) * 4;
      FirstFitIsPart(hits, Lines(content), room);
      FirstFitMeaning(hits, room);
      assert Shows(Answered(content, query, budget), content, query, FirstFit(hits, room));
    }
  }

  function Unlines(lines: seq<string>): string {
    if lines == [] then "" else lines[0] + "\n" + Unlines(lines[1..])
  }

  lemma {:induction false} UnlinesPush(lines: seq<string>, l: string)
    ensures Unlines(lines + [l]) == Unlines(lines) + l + "\n"
  {
    if lines == [] {
      assert [l][1..] == [];
    } else {
      UnlinesPush(lines[1..], l);
      assert (lines + [l])[1..] == lines[1..] + [l];
    }
  }

  lemma MatchingStep(lines: seq<string>, q: string, i: nat)
    requires i < |lines|
    ensures Matching(lines[i..], q)
      == if q == "" || Contains(Lower(lines[i]), q) then [lines[i]] + Matching(lines[i + 1..], q)
         else Matching(lines[i + 1..], q)
  {
    assert lines[i..][1..] == lines[i + 1..];
  }

  lemma FirstFitStep(l: string, rest: seq<string>, room: int)
    ensures FirstFit([l] + rest, room)
      == if |l| + 1 <= room then [l] + FirstFit(rest, room - |l| - 1) else FirstFit(rest, room)
  {
    assert ([l] + rest)[1..] == rest;
  }

  /** How much room the first fitting lines leave. */
  function RoomLeft(lines: seq<string>, room: int): int {
    room - |Unlines(FirstFit(lines, room))|
  }

  /** One more line: it is taken exactly if it still fits behind what was taken before it, and what did not fit is passed
      over. */
  lemma {:induction false} FirstFitPush(lines: seq<string>, l: string, room: int)
    ensures FirstFit(lines + [l], room)
      == FirstFit(lines, room) + if |l| + 1 <= RoomLeft(lines, room) then [l] else []
  {
    if lines == [] {
      assert lines + [l] == [l] && [l][1..] == [];
    } else {
      assert (lines + [l])[1..] == lines[1..] + [l];
      FirstFitPush(lines[1..], l, if |lines[0]| + 1 <= room then room - |lines[0]| - 1 else room);
    }
  }

  /** The loop of Query: an excerpt of the matching lines, and how many were added and how many matched. */
  method Collect(lines: seq<string>, q: string, maxChars: int) returns (b: string, added: nat, matched: nat)
    ensures b == Unlines(FirstFit(Matching(lines, q), maxChars))
    ensures added == |FirstFit(Matching(lines, q), maxChars)| && matched == |Matching(lines, q)|
  {
    b, added, matched := "", 0, 0;
    ghost var kept: seq<string> := [];
    assert lines[0..] == lines;
    for i := 0 to |lines|
      invariant matched + |Matching(lines[i..], q)| == |Matching(lines, q)| && added == |kept| && b == Unlines(kept)
      invariant kept + FirstFit(Matching(lines[i..], q), maxChars - |b|) == FirstFit(Matching(lines, q), maxChars)
    {
      MatchingStep(lines, q, i);
      if q != "" && !Contains(Lower(lines[i]), q) {
        continue;
      }
      matched := matched + 1;
      FirstFitStep(lines[i], Matching(lines[i + 1..], q), maxChars - |b|);
      if |b| + |lines[i]| + 1 > maxChars {
        continue;
      }
      UnlinesPush(kept, lines[i]);
      AppendOne(kept, lines[i], FirstFit(Matching(lines[i + 1..], q), maxChars - |b| - |lines[i]| - 1));
      b := b + lines[i] + "\n";
      kept := kept + [lines[i]];
      added := added + 1;
    }
    assert lines[|lines|..] == [] && kept + [] == kept;
  }

  lemma AppendOne(a: seq<string>, x: string, b: seq<string>)
    ensures a + ([x] + b) == a + [x] + b
  {
  }

  /** The excerpt never exceeds its room, and is the whole of the lines exactly when the whole fits. */
  lemma {:induction false} FirstFitMeaning(lines: seq<string>, room: nat)
    ensures |Unlines(FirstFit(lines, room))| <= room
    ensures FirstFit(lines, room) == lines <==> |Unlines(lines)| <= room
    ensures |FirstFit(lines, room)| == |lines| ==> FirstFit(lines, room) == lines
  {
    if lines != [] {
      FirstFitMeaning(lines[1..], room);
      if |lines[0]| + 1 <= room {
        FirstFitMeaning(lines[1..], room - |lines[0]| - 1);
        assert ([lines[0]] + FirstFit(lines[1..], room - |lines[0]| - 1))[1..] == FirstFit(lines[1..], room - |lines[0]| - 1);
      }
    }
  }

  class Store {
    const digest: Digest
    var idx: Index
    var blobs: Blobs                     // the files <handle>.txt
    var manifest: Option<seq<Entry>>     // the file manifest.json
    var clock: int                       // later than every creation time

    ghost predicate Valid()
      reads this
    {
      && Lawful(digest)
      && Consistent(digest, idx, blobs, clock)
      && Manifest(manifest) == idx
      && |idx| <= MAX_ENTRIES
    }

    /** New: opens a directory with these files, whatever they hold; the one another store has left behind is
        Valid again. */
    constructor (digest: Digest, blobs: Blobs, manifest: Option<seq<Entry>>, now: int)
      ensures this.digest == digest
      ensures idx == Manifest(manifest) && this.blobs == blobs && this.manifest == manifest && clock == now
      ensures Valid() <==> Lawful(digest) && Consistent(digest, idx, blobs, now) && |idx| <= MAX_ENTRIES
    {
      this.digest, this.blobs, this.manifest, clock, idx := digest, blobs, manifest, now, map[];
      new;
      Load();
    }

    method Load()
      requires idx == map[]
      modifies this`idx
      ensures idx == Manifest(manifest)
      ensures manifest.Some? ==> forall h :: h in idx <==> exists i :: LastOfHandle(manifest.value, h, i)
      ensures manifest.Some? ==> forall h, i :: LastOfHandle(manifest.value, h, i) ==> h in idx && idx[h] == manifest.value[i]
    {
      if manifest.None? {
        return;
      }
      var entries := manifest.value;
      for i := 0 to |entries|
        invariant idx == Loaded(entries[..i])
      {
        assert entries[..i + 1][..i] == entries[..i];
        idx := idx[entries[i].handle := entries[i]];
      }
      assert entries[..|entries|] == entries;
      forall h { LoadedIff(entries, h); }
    }

    method Persist()
      requires forall h :: h in idx ==> idx[h].handle == h
      modifies this`manifest
      ensures Manifest(manifest) == idx
    {
      var entries: seq<Entry> := [];
      var pending := idx.Keys;
      while pending != {}
        invariant pending <= idx.Keys
        invariant forall e :: e in entries <==> e.handle in idx && e.handle !in pending && idx[e.handle] == e
      {
        var h :| h in pending;
        pending := pending - {h};
        entries := entries + [idx[h]];
      }
      LoadedLists(entries, idx);
      manifest := Some(entries);
    }

    /** Afterwards the content is under its handle, and at most an older entry has had to go. Content that was there
        keeps its age, and its tag unless it is given another. */
    method Store(content: string, tag: string) returns (e: Entry)
      requires Valid()
      modifies this
      ensures Valid() && clock == old(clock) + 1
      ensures e.handle == digest(content) && e.bytes == |content| && e.tokens == |content| / 4
      ensures e.handle in old(idx) ==> e.createdAt == old(idx)[e.handle].createdAt
      ensures e.handle !in old(idx) ==> e.createdAt == old(clock)
      ensures e.handle in old(idx) && TrimSpace(tag) == "" ==> e.tag == old(idx)[e.handle].tag
      ensures e.handle !in old(idx) || TrimSpace(tag) != "" ==> e.tag == TrimSpace(tag)
      ensures e == Fresh(digest(content), content, tag, Found(old(idx), digest(content)), old(clock))
      ensures e.handle in idx && idx[e.handle] == e && blobs[e.handle] == content
      ensures PrunedTo(old(idx)[e.handle := e], idx, MAX_ENTRIES)
      ensures forall q :: Queues(q, old(idx)) ==>
        Queues(Joined(q, e.handle), idx)
      ensures forall h :: h in blobs && h != e.handle ==> h in old(blobs) && blobs[h] == old(blobs)[h]
    {
      e := EnterAndPrune(content, tag);
      Persist();
      forall q | Queues(q, old(idx)) ensures Queues(Joined(q, e.handle), idx) {
        StoreQueues(q, old(idx), e, idx);
      }
    }

    method EnterAndPrune(content: string, tag: string) returns (e: Entry)
      requires Lawful(digest) && Consistent(digest, idx, blobs, clock) && |idx| <= MAX_ENTRIES
      modifies this`idx, this`blobs, this`clock
      ensures Consistent(digest, idx, blobs, clock) && |idx| <= MAX_ENTRIES && clock == old(clock) + 1
      ensures e == Fresh(digest(content), content, tag, Found(old(idx), digest(content)), old(clock))
      ensures e.handle in idx && idx[e.handle] == e && blobs[e.handle] == content
      ensures PrunedTo(old(idx)[e.handle := e], idx, MAX_ENTRIES)
      ensures forall h :: h in blobs && h != e.handle ==> h in old(blobs) && blobs[h] == old(blobs)[h]
    {
      e := Enter(content, tag);
      var _ := PruneLocked(MAX_ENTRIES);
      LatestStays(digest, old(idx), old(blobs), old(clock), e, idx);
    }

    method Enter(content: string, tag: string) returns (e: Entry)
      requires Lawful(digest) && Consistent(digest, idx, blobs, clock)
      modifies this`idx, this`blobs, this`clock
      ensures Consistent(digest, idx, blobs, clock) && clock == old(clock) + 1
      ensures e == Fresh(digest(content), content, tag, Found(old(idx), digest(content)), old(clock))
      ensures idx == old(idx)[e.handle := e] && blobs == old(blobs)[e.handle := content]
    {
      var handle := digest(content);
      blobs := blobs[handle := content];
      e := Entry(handle, TrimSpace(tag), |content| / 4, |content|, clock);
      if handle in idx {
        e := e.(createdAt := idx[handle].createdAt);
        if e.tag == "" {
          e := e.(tag := idx[handle].tag);
        }
      }
      idx := idx[handle := e];
      clock := clock + 1;
      StoringIsConsistent(digest, old(idx), old(blobs), e, content, old(clock));
    }

    /** What comes back for a handle is the content that hashes to it. */
    method Get(handle: string) returns (content: Option<string>)
      requires Valid()
      ensures content.Some? <==> NormalizeHandle(handle) in idx
      ensures content.Some? ==> NormalizeHandle(handle) in blobs && content.value == blobs[NormalizeHandle(handle)]
      ensures content.Some? ==> digest(content.value) == NormalizeHandle(handle)
    {
      var h := NormalizeHandle(handle);
      if !IsHexHandle(h) {
        return None;
      }
      return if h in blobs then Some(blobs[h]) else None;
    }

    /** The lines that match, in order, each kept if it still fits, and how many were left out. */
    method Query(handle: string, query: string, budget: int) returns (answer: Answer)
      requires Valid()
      ensures NormalizeHandle(handle) !in idx ==> answer == NotFound
      ensures NormalizeHandle(handle) in idx ==> answer == Answered(blobs[NormalizeHandle(handle)], query, budget)
      ensures NormalizeHandle(handle) in idx ==>
        var content := blobs[NormalizeHandle(handle)];
        && (answer.NoMatch? <==> forall l :: l in Lines(content) ==> !Answers(l, query))
        && (answer.NoMatch? || exists shown :: Shows(answer, content, query, shown))
        && (answer.Excerpt? ==> |answer.text| <= 4 * if budget <= 0 then DEFAULT_BUDGET else budget)
    {
      var content := Get(handle);
      if content.None? {
        return NotFound;
      }
      AnsweredMeaning(content.value, query, budget);
      var maxChars := (if budget <= 0 then DEFAULT_BUDGET else budget) * 4;
      var b, added, matched := Collect(Lines(content.value), Lower(TrimSpace(query)), maxChars);
      answer := if matched == 0 then NoMatch else Excerpt(b, matched - added);
    }

    method List() returns (out: seq<Entry>)
      requires Valid()
      ensures NewestFirst(out) && |out| == |idx| && Lists(out, idx)
    {
      out := SortedEntries(idx);
    }

    method PruneLocked(max: int) returns (removed: nat)
      requires Consistent(digest, idx, blobs, clock)
      modifies this`idx, this`blobs
      ensures Consistent(digest, idx, blobs, clock)
      ensures PrunedTo(old(idx), idx, if max <= 0 then MAX_ENTRIES else max)
      ensures forall h :: h in blobs ==> h in old(blobs) && blobs[h] == old(blobs)[h]
      ensures removed == old(|idx|) - |idx| && |idx| <= if max <= 0 then MAX_ENTRIES else max
    {
      var cap := if max <= 0 then MAX_ENTRIES else max;
      if |idx| <= cap {
        return 0;
      }
      var entries := SortedEntries(idx);
      removed := Remove(entries[cap..]);
      DropsOldest(old(idx), entries, cap);
    }

    method Remove(entries: seq<Entry>) returns (removed: nat)
      modifies this`idx, this`blobs
      ensures idx == old(idx) - Handles(entries) && blobs == old(blobs) - Handles(entries)
      ensures removed == |entries|
    {
      removed := 0;
      for i := 0 to |entries|
        invariant idx == old(idx) - Handles(entries[..i]) && blobs == old(blobs) - Handles(entries[..i])
        invariant removed == i
      {
        assert entries[..i + 1] == entries[..i] + [entries[i]];
        HandlesPush(entries[..i], entries[i]);
        blobs := blobs - {entries[i].handle};
        idx := idx - {entries[i].handle};
        removed := removed + 1;
      }
      assert entries[..|entries|] == entries;
    }

    method Prune(max: int) returns (n: nat)
      requires Valid()
      modifies this
      ensures Valid() && PrunedTo(old(idx), idx, if max <= 0 then MAX_ENTRIES else max)
      ensures |idx| <= MAX_ENTRIES && (max <= 0 ==> idx == old(idx)) && (max > 0 ==> |idx| <= max)
      ensures forall h :: h in blobs ==> blobs[h] == old(blobs)[h]
      ensures n == old(|idx|) - |idx| && clock == old(clock)
      ensures forall q :: Queues(q, old(idx)) ==> Queues(LastOf(q, if max <= 0 then MAX_ENTRIES else max), idx)
    {
      n := PruneLocked(max);
      if n > 0 {
        Persist();
      } else {
        SameSize(old(idx), idx);
      }
      forall q | Queues(q, old(idx)) ensures Queues(LastOf(q, if max <= 0 then MAX_ENTRIES else max), idx) {
        PruneKeepsTheEnd(q, old(idx), idx, if max <= 0 then MAX_ENTRIES else max);
      }
    }
  }

  /** Another store opened on what this one leaves behind knows the same. */
  method Reopen(s: Store) returns (t: Store)
    requires s.Valid()
    ensures fresh(t) && t.Valid() && t.idx == s.idx && t.blobs == s.blobs && t.clock == s.clock && t.digest == s.digest
  {
    t := new Store(s.digest, s.blobs, s.manifest, s.clock);
  }

  /** The entry just stored survives the prune that follows. */
  lemma LatestStays(digest: Digest, idx: Index, blobs: Blobs, now: int, e: Entry, after: Index)
    requires Consistent(digest, idx, blobs, now) && |idx| <= MAX_ENTRIES
    requires e.handle !in idx ==> e.createdAt == now
    requires PrunedTo(idx[e.handle := e], after, MAX_ENTRIES)
    ensures e.handle in after && after[e.handle] == e
  {
    var before := idx[e.handle := e];
    if e.handle in idx {
      assert before.Keys == idx.Keys;
      SameSize(before, after);
    } else {
      assert before.Keys == idx.Keys + {e.handle};
      assert after.Keys != {};
      var h :| h in after;
      assert h != e.handle ==> before[h].createdAt < e.createdAt;
    }
  }

  // ----- The store is a first-in first-out queue -----

  ghost predicate OldestFirst(q: seq<Handle>, age: Handle -> int) {
    forall i, j :: 0 <= i < j < |q| ==> age(q[i]) < age(q[j])
  }

  function Members(q: seq<Handle>): set<Handle> {
    set h | h in q
  }

  lemma {:induction false} QueueSize(q: seq<Handle>, age: Handle -> int)
    requires OldestFirst(q, age)
    ensures |Members(q)| == |q|
  {
    if q != [] {
      var n := |q| - 1;
      QueueSize(q[..n], age);
      assert q[n] !in q[..n];
      assert q == q[..n] + [q[n]];
      assert Members(q) == Members(q[..n]) + {q[n]};
    }
  }

  /** What an upward closed part of a queue leaves out is at the front: it is the last of the queue. */
  lemma NewestAreLast(q: seq<Handle>, age: Handle -> int, kept: set<Handle>)
    requires OldestFirst(q, age) && kept <= Members(q)
    requires forall d, k :: d in q && d !in kept && k in kept ==> age(d) < age(k)
    ensures |kept| <= |q| && kept == Members(q[|q| - |kept|..])
  {
    QueueSize(q, age);
    SubsetSize(kept, Members(q));
    var end := q[|q| - |kept|..];
    QueueSize(end, age);
    forall k | k in kept ensures k in end {
      var i :| 0 <= i < |q| && q[i] == k;
      AllBehindAreKept(q, age, kept, i);
      QueueSize(q[i..], age);
      SubsetSize(Members(q[i..]), kept);
      assert end[i - (|q| - |kept|)] == k;
    }
    SameSet(kept, Members(end));
  }

  lemma AllBehindAreKept(q: seq<Handle>, age: Handle -> int, kept: set<Handle>, i: nat)
    requires OldestFirst(q, age) && i < |q| && q[i] in kept
    requires forall d, k :: d in q && d !in kept && k in kept ==> age(d) < age(k)
    ensures Members(q[i..]) <= kept && OldestFirst(q[i..], age)
  {
    forall h | h in q[i..] ensures h in kept {
      var j :| i <= j < |q| && q[j] == h;
    }
  }

  /** The handles of an index, oldest first. */
  ghost predicate Queues(q: seq<Handle>, idx: Index) {
    Members(q) == idx.Keys && OldestFirst(q, Age(idx))
  }

  function Age(idx: Index): Handle -> int {
    h => if h in idx then idx[h].createdAt else 0
  }

  function LastOf(q: seq<Handle>, n: nat): seq<Handle> {
    q[if |q| <= n then 0 else |q| - n..]
  }

  lemma EndIsOldestFirst(q: seq<Handle>, n: nat, before: Handle -> int, after: Handle -> int)
    requires OldestFirst(q, before) && forall h :: h in LastOf(q, n) ==> after(h) == before(h)
    ensures OldestFirst(LastOf(q, n), after)
  {
    var end := LastOf(q, n);
    var cut := |q| - |end|;
    forall i, j | 0 <= i < j < |end| ensures after(end[i]) < after(end[j]) {
      assert before(q[cut + i]) < before(q[cut + j]);
    }
  }

  lemma EndRemains(q: seq<Handle>, n: nat, before: Handle -> int, after: Handle -> int, kept: set<Handle>)
    requires OldestFirst(q, before) && kept <= Members(q) && |kept| == |LastOf(q, n)|
    requires forall d, k :: d in q && d !in kept && k in kept ==> before(d) < before(k)
    requires forall h :: h in kept ==> after(h) == before(h)
    ensures kept == Members(LastOf(q, n)) && OldestFirst(LastOf(q, n), after)
  {
    NewestAreLast(q, before, kept);
    EndIsOldestFirst(q, n, before, after) by {
      assert forall h :: h in LastOf(q, n) ==> h in Members(LastOf(q, n));
    }
  }

  lemma PrunedSize(q: seq<Handle>, before: Index, after: Index, max: nat)
    requires Queues(q, before) && PrunedTo(before, after, max)
    ensures |after.Keys| == |LastOf(q, max)|
  {
    QueueSize(q, Age(before));
  }

  /** What a prune leaves is the end of the queue. */
  lemma PruneKeepsTheEnd(q: seq<Handle>, before: Index, after: Index, max: nat)
    requires Queues(q, before) && PrunedTo(before, after, max)
    ensures Queues(LastOf(q, max), after)
  {
    PrunedSize(q, before, after, max);
    forall d | d in q ensures d in before {
      assert d in Members(q);
    }
    EndRemains(q, max, Age(before), Age(after), after.Keys);
  }

  lemma KnownKeepsItsPlace(q: seq<Handle>, idx: Index, e: Entry)
    requires Queues(q, idx) && e.handle in idx && e.createdAt == idx[e.handle].createdAt
    ensures Queues(q, idx[e.handle := e])
  {
    var after := idx[e.handle := e];
    assert after.Keys == idx.Keys;
    forall h ensures Age(after)(h) == Age(idx)(h) {}
  }

  lemma LatestIsLast(q: seq<Handle>, idx: Index, e: Entry)
    requires Queues(q, idx) && e.handle !in idx && forall h :: h in idx ==> idx[h].createdAt < e.createdAt
    ensures Queues(q + [e.handle], idx[e.handle := e])
  {
    var r, after := q + [e.handle], idx[e.handle := e];
    assert after.Keys == idx.Keys + {e.handle} && Members(r) == Members(q) + {e.handle};
    forall i, j | 0 <= i < j < |r| ensures Age(after)(r[i]) < Age(after)(r[j]) {
      assert r[i] in Members(q) && (j < |q| ==> r[j] in Members(q));
      assert j < |q| ==> Age(idx)(q[i]) < Age(idx)(q[j]);
    }
  }

  lemma EnteringQueues(q: seq<Handle>, idx: Index, e: Entry)
    requires Queues(q, idx)
    requires e.handle in idx ==> e.createdAt == idx[e.handle].createdAt
    requires e.handle !in idx ==> forall h :: h in idx ==> idx[h].createdAt < e.createdAt
    ensures Queues(if e.handle in q then q else q + [e.handle], idx[e.handle := e])
  {
    assert e.handle in Members(q) <==> e.handle in idx;
    if e.handle in idx {
      KnownKeepsItsPlace(q, idx, e);
    } else {
      LatestIsLast(q, idx, e);
    }
  }

  /** Storing new content puts it at the end of the queue, from whose front one may drop out; storing known
      content moves nothing. */
  lemma StoreQueues(q: seq<Handle>, idx: Index, e: Entry, after: Index)
    requires Queues(q, idx) && PrunedTo(idx[e.handle := e], after, MAX_ENTRIES)
    requires e.handle in idx ==> e.createdAt == idx[e.handle].createdAt
    requires e.handle !in idx ==> forall h :: h in idx ==> idx[h].createdAt < e.createdAt
    ensures Queues(Joined(q, e.handle), after)
  {
    EnteringQueues(q, idx, e);
    PruneKeepsTheEnd(if e.handle in q then q else q + [e.handle], idx[e.handle := e], after, MAX_ENTRIES);
  }

  // ----- Every run -----

  datatype Call = StoreCall(content: string, tag: string) | PruneCall(max: int) | ReopenCall

  function Joined(q: seq<Handle>, h: Handle): seq<Handle> {
    LastOf(if h in q then q else q + [h], MAX_ENTRIES)
  }

  function QueueStep(digest: Digest, q: seq<Handle>, call: Call): seq<Handle> {
    match call
    case StoreCall(content, _) => Joined(q, digest(content))
    case PruneCall(max) => LastOf(q, if max <= 0 then MAX_ENTRIES else max)
    case ReopenCall => q
  }

  /** The handles kept after a run, oldest first. */
  function QueueAfter(digest: Digest, calls: seq<Call>): seq<Handle> {
    if calls == [] then [] else QueueStep(digest, QueueAfter(digest, calls[..|calls| - 1]), calls[|calls| - 1])
  }

  method OpenEmpty(digest: Digest) returns (s: Store)
    requires Lawful(digest)
    ensures fresh(s) && s.Valid() && s.digest == digest && Queues([], s.idx)
  {
    s := new Store(digest, map[], None, 0);
  }

  method PerformStore(s: Store, content: string, tag: string, ghost q: seq<Handle>)
    requires s.Valid() && Queues(q, s.idx)
    modifies s
    ensures s.Valid() && Queues(Joined(q, s.digest(content)), s.idx)
  {
    var _ := s.Store(content, tag);
  }

  method PerformPrune(s: Store, max: int, ghost q: seq<Handle>)
    requires s.Valid() && Queues(q, s.idx)
    modifies s
    ensures s.Valid() && Queues(LastOf(q, if max <= 0 then MAX_ENTRIES else max), s.idx)
  {
    var _ := s.Prune(max);
  }

  method Perform(s: Store, call: Call, ghost q: seq<Handle>) returns (t: Store)
    requires s.Valid() && Queues(q, s.idx)
    modifies s
    ensures t == s || fresh(t)
    ensures t.Valid() && t.digest == s.digest && Queues(QueueStep(s.digest, q, call), t.idx)
  {
    t := s;
    match call {
      case StoreCall(content, tag) => PerformStore(s, content, tag, q);
      case PruneCall(max) => PerformPrune(s, max, q);
      case ReopenCall => t := Reopen(s);
    }
  }

  /** From an empty directory, index, files and manifest hold exactly the queue of the run. */
  method Run(digest: Digest, calls: seq<Call>) returns (s: Store)
    requires Lawful(digest)
    ensures s.Valid() && s.digest == digest && Queues(QueueAfter(digest, calls), s.idx)
  {
    s := OpenEmpty(digest);
    ghost var q: seq<Handle> := [];
    for i := 0 to |calls|
      invariant fresh(s) && s.Valid() && s.digest == digest
      invariant q == QueueAfter(digest, calls[..i]) && Queues(q, s.idx)
    {
      assert calls[..i + 1][..i] == calls[..i];
      s := Perform(s, calls[i], q);
      q := QueueStep(digest, q, calls[i]);
    }
    assert calls[..|calls|] == calls;
  }

  function JoinedAll(q: seq<Handle>, later: seq<Handle>): seq<Handle>
    decreases later
  {
    if later == [] then q else JoinedAll(Joined(q, later[0]), later[1..])
  }

  /** A handle with n handles behind it outlasts any 255 - n further stores; new content has none behind it. */
  lemma {:induction false} OutlastsStores(q: seq<Handle>, p: nat, later: seq<Handle>)
    requires p < |q| <= MAX_ENTRIES && |q| - 1 - p + |later| < MAX_ENTRIES
    ensures q[p] in JoinedAll(q, later)
    decreases later
  {
    if later != [] {
      var r := Joined(q, later[0]);
      var at := if later[0] in q || |q| < MAX_ENTRIES then p else p - 1;
      assert r[at] == q[p];
      OutlastsStores(r, at, later[1..]);
    }
  }

  /** How many of the stores bring content that is not in the queue at that time. */
  function News(q: seq<Handle>, later: seq<Handle>): nat
    decreases later
  {
    if later == [] then 0
    else (if later[0] in q then 0 else 1) + News(Joined(q, later[0]), later[1..])
  }

  /** The handle is in the queue at every time. */
  predicate Stays(q: seq<Handle>, h: Handle, later: seq<Handle>)
    decreases later
  {
    h in q && (later == [] || Stays(Joined(q, later[0]), h, later[1..]))
  }

  ghost predicate Distinct(q: seq<Handle>) {
    forall i, j :: 0 <= i < j < |q| ==> q[i] != q[j]
  }

  lemma JoinedDistinct(q: seq<Handle>, h: Handle)
    requires Distinct(q)
    ensures Distinct(Joined(q, h))
  {
  }

  /** Where a handle of the queue is after one more store. */
  lemma JoinedAt(q: seq<Handle>, p: nat, h: Handle)
    requires p < |q| <= MAX_ENTRIES && Distinct(q)
    ensures var r := Joined(q, h);
      if h in q then r == q
      else if |q| < MAX_ENTRIES then r == q + [h] && r[p] == q[p]
      else |r| == MAX_ENTRIES && if p > 0 then r[p - 1] == q[p] else q[p] !in r
  {
    if h !in q && |q| == MAX_ENTRIES && p == 0 {
      forall i | 0 <= i < MAX_ENTRIES ensures Joined(q, h)[i] != q[0] {
        assert Joined(q, h)[i] == if i < MAX_ENTRIES - 1 then q[i + 1] else h;
      }
    }
  }

  /** Whatever is stored, a handle with n others behind it is never evicted exactly when at most 255 - n of the
      stores are new at their time. */
  lemma {:induction false} StaysIff(q: seq<Handle>, p: nat, later: seq<Handle>)
    requires p < |q| <= MAX_ENTRIES && Distinct(q)
    ensures Stays(q, q[p], later) <==> |q| - 1 - p + News(q, later) < MAX_ENTRIES
    decreases later
  {
    if later != [] {
      var h, r, rest := later[0], Joined(q, later[0]), later[1..];
      JoinedAt(q, p, h);
      JoinedDistinct(q, h);
      if h in q || |q| < MAX_ENTRIES {
        StaysIff(r, p, rest);
      } else if p > 0 {
        StaysIff(r, p - 1, rest);
      }
    }
  }

  /** The queue of any run is such a queue. */
  lemma {:induction false} QueueIsDistinct(digest: Digest, calls: seq<Call>)
    ensures Distinct(QueueAfter(digest, calls)) && |QueueAfter(digest, calls)| <= MAX_ENTRIES
  {
    if calls != [] {
      QueueIsDistinct(digest, calls[..|calls| - 1]);
      if calls[|calls| - 1].StoreCall? {
        JoinedDistinct(QueueAfter(digest, calls[..|calls| - 1]), digest(calls[|calls| - 1].content));
      }
    }
  }

  /** After any run, and whatever is stored then. */
  lemma NeverEvictedIff(digest: Digest, calls: seq<Call>, p: nat, later: seq<Handle>)
    requires p < |QueueAfter(digest, calls)|
    ensures var q := QueueAfter(digest, calls);
      Stays(q, q[p], later) <==> |q| - 1 - p + News(q, later) < MAX_ENTRIES
  {
    QueueIsDistinct(digest, calls);
    StaysIff(QueueAfter(digest, calls), p, later);
  }

  predicate NewAndApart(q: seq<Handle>, later: seq<Handle>) {
    && (forall i :: 0 <= i < |later| ==> later[i] !in q)
    && forall i, j :: 0 <= i < j < |later| ==> later[i] != later[j]
  }

  /** Content that is new each time simply pushes the oldest out. */
  lemma {:induction false} NewContentPushes(q: seq<Handle>, later: seq<Handle>)
    requires |q| <= MAX_ENTRIES && NewAndApart(q, later)
    ensures JoinedAll(q, later) == LastOf(q + later, MAX_ENTRIES)
    decreases later
  {
    if later == [] {
      assert q + later == q && q[0..] == q;
    } else {
      var r, rest := Joined(q, later[0]), later[1..];
      forall i | 0 <= i < |rest| ensures rest[i] !in r {
        assert rest[i] == later[i + 1] && forall x :: x in r ==> x in q || x == later[0];
      }
      NewContentPushes(r, rest);
      assert q + later == q + [later[0]] + rest;
      LastOfLast(q + [later[0]], rest);
    }
  }

  lemma LastOfLast(a: seq<Handle>, b: seq<Handle>)
    ensures LastOf(LastOf(a, MAX_ENTRIES) + b, MAX_ENTRIES) == LastOf(a + b, MAX_ENTRIES)
  {
  }

  /** With nothing but new content behind it, a handle with n others behind it outlasts exactly 255 - n stores. */
  lemma OutlastsIff(q: seq<Handle>, age: Handle -> int, p: nat, later: seq<Handle>)
    requires p < |q| <= MAX_ENTRIES && OldestFirst(q, age) && NewAndApart(q, later)
    ensures q[p] in JoinedAll(q, later) <==> |q| - 1 - p + |later| < MAX_ENTRIES
  {
    if |q| - 1 - p + |later| < MAX_ENTRIES {
      OutlastsStores(q, p, later);
    } else {
      NewContentPushes(q, later);
      var all := q + later;
      var cut := |all| - MAX_ENTRIES;
      forall i | cut <= i < |all| ensures all[i] != q[p] {
        assert i < |q| ==> age(q[p]) < age(q[i]);
        assert i >= |q| ==> all[i] == later[i - |q|];
      }
    }
  }

  /** Storing known content does not renew it: at the front of a full queue it goes with the next new content. */
  lemma StoringAgainDoesNotRenew(q: seq<Handle>, age: Handle -> int, h: Handle)
    requires OldestFirst(q, age) && |q| == MAX_ENTRIES && h !in q
    ensures Joined(q, q[0]) == q && q[0] !in Joined(Joined(q, q[0]), h)
  {
    assert q[0..] == q;
    var r := Joined(q, h);
    forall i | 0 <= i < |r| ensures r[i] != q[0] {
      assert i < |r| - 1 ==> r[i] == q[i + 1] && age(q[0]) < age(q[i + 1]);
    }
  }

  function Handles(entries: seq<Entry>): set<Handle> {
    set e | e in entries :: e.handle
  }

  lemma HandlesPush(entries: seq<Entry>, e: Entry)
    ensures Handles(entries + [e]) == Handles(entries) + {e.handle}
  {
    forall h | h in Handles(entries) + {e.handle} ensures h in Handles(entries + [e]) {
      if h in Handles(entries) {
        var x :| x in entries && x.handle == h;
        assert x in entries + [e];
      } else {
        assert e in entries + [e];
      }
    }
  }

  /** Removing the tail of a newest-first list removes the oldest entries. */
  lemma DropsOldest(idx: Index, entries: seq<Entry>, cap: nat)
    requires NewestFirst(entries) && Lists(entries, idx) && cap <= |entries| == |idx|
    requires forall h :: h in idx ==> idx[h].handle == h
    ensures PrunedTo(idx, idx - Handles(entries[cap..]), cap)
  {
    var gone := Handles(entries[cap..]);
    forall d, k | d in idx && d in gone && k in idx && k !in gone ensures idx[d].createdAt < idx[k].createdAt {
      var e :| e in entries[cap..] && e.handle == d;
      assert e in entries && idx[k] in entries && idx[k] !in entries[cap..];
      var j :| cap <= j < |entries| && entries[j] == e;
      var i :| 0 <= i < |entries| && entries[i] == idx[k];
      assert forall m :: cap <= m < |entries| ==> entries[m] == entries[cap..][m - cap];
      assert i < cap;
      assert Newer(entries[i], entries[j]);
    }
    HandlesSize(entries, idx, cap);
    assert gone <= idx.Keys && (idx - gone).Keys == idx.Keys - gone;
  }

  lemma {:induction false} HandlesSize(entries: seq<Entry>, idx: Index, cap: nat)
    requires NewestFirst(entries) && (forall e :: e in entries ==> e.handle in idx && idx[e.handle] == e)
    requires cap <= |entries|
    ensures |Handles(entries[cap..])| == |entries| - cap && Handles(entries[cap..]) <= idx.Keys
    decreases |entries| - cap
  {
    forall h | h in Handles(entries[cap..]) ensures h in idx {
      var e :| e in entries[cap..] && e.handle == h;
      assert e in entries;
    }
    if cap < |entries| {
      HandlesSize(entries, idx, cap + 1);
      var e := entries[cap];
      assert entries[cap..] == [e] + entries[cap + 1..];
      assert Handles(entries[cap..]) == {e.handle} + Handles(entries[cap + 1..]) by {
        assert e in entries[cap..];
        assert forall x :: x in entries[cap + 1..] ==> x in entries[cap..];
      }
      forall x | x in entries[cap + 1..] ensures x.handle != e.handle {
        assert x in entries && e in entries;
        var j :| cap + 1 <= j < |entries| && entries[j] == x;
        assert Newer(entries[cap], entries[j]);
      }
    } else {
      assert entries[cap..] == [];
    }
  }

  /** A part of an index that is as large as the whole is the whole. */
  lemma SameSize(a: Index, b: Index)
    requires |a| == |b| && forall h :: h in b ==> h in a && b[h] == a[h]
    ensures a == b
  {
    assert b.Keys <= a.Keys;
    if x :| x in a.Keys && x !in b.Keys {
      assert b.Keys <= a.Keys - {x};
      SubsetSize(b.Keys, a.Keys - {x});
    }
  }
}
