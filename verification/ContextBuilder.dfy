/** The context builder: a first pass measures blocks against a token budget, a second pass writes them. */
module ContextBuilder {
  import opened Wrappers
  import Strings = Text

  const DEFAULT_BUDGET := 3000

  /** 0 file names, 1 names and snippets, 2 expanded snippets, 3 full files, 4 symbols, 5 references,
      6 call graph, 7 function body. */
  type Level = l: nat | l <= 7

  datatype Result = Result(file: string, snippet: string, score: real, lineFrom: int, lineTo: int)

  /** The disk and the formatting the builder relies on: the content of a file ("" if it cannot be read), the
      function body a result points at ("" if there is none), the base name of a path, a score to two decimals. */
  datatype Env = Env(load: string -> string, body: Result -> string, base: string -> string, format: real -> string)

  datatype Builder = Builder(level: Level, tokenBudget: int)

  datatype Metrics = Metrics(filesSelected: nat, filesDropped: nat, tokens: nat, totalResults: nat, emptySnippets: nat)

  function NewBuilder(level: Level, tokenBudget: int): Builder {
    Builder(level, if tokenBudget <= 0 then DEFAULT_BUDGET else tokenBudget)
  }

  function CountTokens(text: string): nat {
    |text| / 4
  }

  // ----- Blocks -----

  function Scored(env: Env, r: Result): string {
    "=== " + r.file + " (confidence: " + env.format(r.score) + ") ===\n" + r.snippet + "\n\n"
  }

  function Plain(r: Result): string {
    "=== " + r.file + " ===\n" + r.snippet + "\n\n"
  }

  /** The levels of whole files and of symbols read the file when a result brings no snippet. */
  function Prepared(env: Env, level: Level, r: Result): Result {
    if 3 <= level != 7 && r.snippet == "" then r.(snippet := env.load(r.file)) else r
  }

  /** What the first pass measures; nothing when it drops the result unmeasured. The snippet of level 2 is not
      expanded: expandSnippet returns its argument on every path. */
  function Measured(env: Env, level: Level, r: Result): Option<string>
    requires level > 0
  {
    match level
    case 1 => Some(if r.snippet == "" then r.file + "\n" else Scored(env, r))
    case 2 => if r.snippet == "" then None else Some(Scored(env, r))
    case 3 => if r.snippet == "" then None else Some(Plain(r))
    case 7 =>
      if env.body(r) != "" then Some(env.body(r))
      else if r.snippet != "" then Some(Scored(env, r))
      else Some(r.file + "\n")
    case _ => if r.snippet == "" then None else Some(r.snippet + "\n")
  }

  /** What the second pass writes. */
  function Written(env: Env, level: Level, r: Result): string {
    match level
    case 0 => env.base(r.file) + "\n"
    case 1 => if r.snippet == "" then r.file + "\n" else Scored(env, r)
    case 2 => Scored(env, r)
    case 3 => Plain(if r.snippet == "" then r.(snippet := env.load(r.file)) else r)
    case 7 =>
      if env.body(r) != "" then env.body(r)
      else if r.snippet != "" then Scored(env, r)
      else ""
    case _ => if r.snippet != "" then r.snippet + "\n" else ""
  }

  // ----- Sorting by score -----

  ghost predicate HighestFirst(s: seq<Result>) {
    forall i, j :: 0 <= i < j < |s| ==> s[i].score >= s[j].score
  }

  function Place(s: seq<Result>, r: Result): (p: seq<Result>)
    ensures |p| == |s| + 1
  {
    if s == [] || r.score > s[0].score then [r] + s else [s[0]] + Place(s[1..], r)
  }

  lemma {:induction false} PlaceKeeps(s: seq<Result>, r: Result)
    ensures multiset(Place(s, r)) == multiset(s) + multiset{r}
  {
    if s == [] || r.score > s[0].score {
    } else {
      PlaceKeeps(s[1..], r);
      assert s == [s[0]] + s[1..];
    }
  }

  lemma {:induction false} PlaceSorts(s: seq<Result>, r: Result)
    requires HighestFirst(s)
    ensures HighestFirst(Place(s, r))
  {
    if s != [] && r.score <= s[0].score {
      var rest := Place(s[1..], r);
      PlaceSorts(s[1..], r);
      PlaceKeeps(s[1..], r);
      forall x | x in rest ensures s[0].score >= x.score {
        assert x in multiset(rest);
        assert x == r || x in s[1..];
      }
    }
  }

  /** sort.Slice by descending score; the order of equal scores is not promised. */
  method SortByScore(results: seq<Result>) returns (s: seq<Result>)
    ensures multiset(s) == multiset(results) && HighestFirst(s)
  {
    s := [];
    for i := 0 to |results|
      invariant multiset(s) == multiset(results[..i]) && HighestFirst(s)
    {
      assert results[..i + 1] == results[..i] + [results[i]];
      PlaceKeeps(s, results[i]);
      PlaceSorts(s, results[i]);
      s := Place(s, results[i]);
    }
    assert results[..|results|] == results;
  }

  // ----- What a run chooses -----

  /** What a result costs once prepared, if it can be had at all. */
  function Cost(env: Env, level: Level, r: Result): Option<nat> {
    if level == 0 then Some(1)
    else match Measured(env, level, Prepared(env, level, r))
      case None => None
      case Some(block) => Some(CountTokens(block))
  }

  function Tokens(env: Env, level: Level, chosen: seq<Result>): nat {
    if chosen == [] then 0
    else Tokens(env, level, chosen[..|chosen| - 1]) + Spent(env, level, chosen[|chosen| - 1])
  }

  function Spent(env: Env, level: Level, r: Result): nat {
    match Cost(env, level, r) case None => 0 case Some(n) => n
  }

  predicate Fits(env: Env, b: Builder, chosen: seq<Result>, r: Result) {
    match Cost(env, b.level, r) case None => false case Some(n) => Tokens(env, b.level, chosen) + n <= b.tokenBudget
  }

  /** In order, each result that still fits beside those chosen before it. */
  function Chosen(env: Env, b: Builder, s: seq<Result>): (c: seq<Result>)
    ensures |c| <= |s|
  {
    if s == [] then []
    else
      var before := Chosen(env, b, s[..|s| - 1]);
      if Fits(env, b, before, s[|s| - 1]) then before + [Prepared(env, b.level, s[|s| - 1])] else before
  }

  function Empties(s: seq<Result>): nat {
    if s == [] then 0 else Empties(s[..|s| - 1]) + if s[|s| - 1].snippet == "" then 1 else 0
  }

  ghost function EmptyPlaces(s: seq<Result>): set<nat> {
    set i: nat | i < |s| && s[i].snippet == ""
  }

  lemma {:induction false} EmptiesIs(s: seq<Result>)
    ensures Empties(s) == |EmptyPlaces(s)|
  {
    if s == [] {
      assert EmptyPlaces(s) == {};
    } else {
      var n := |s| - 1;
      EmptiesIs(s[..n]);
      assert EmptyPlaces(s) == EmptyPlaces(s[..n]) + if s[n].snippet == "" then {n} else {};
    }
  }

  function Text(env: Env, level: Level, chosen: seq<Result>): string {
    if chosen == [] then ""
    else Text(env, level, chosen[..|chosen| - 1]) + Written(env, level, chosen[|chosen| - 1])
  }

  /** A second preparation changes nothing. */
  lemma PreparedOnce(env: Env, level: Level, r: Result)
    ensures Prepared(env, level, Prepared(env, level, r)) == Prepared(env, level, r)
    ensures Cost(env, level, Prepared(env, level, r)) == Cost(env, level, r)
  {
  }

  lemma ChosenPush(env: Env, b: Builder, s: seq<Result>, r: Result)
    ensures var before := Chosen(env, b, s);
      Chosen(env, b, s + [r]) == if Fits(env, b, before, r) then before + [Prepared(env, b.level, r)] else before
  {
    assert (s + [r])[..|s|] == s;
  }

  lemma TokensPush(env: Env, level: Level, chosen: seq<Result>, r: Result)
    ensures Tokens(env, level, chosen + [r]) == Tokens(env, level, chosen) + Spent(env, level, r)
  {
    assert (chosen + [r])[..|chosen|] == chosen;
  }

  /** One more result: kept at its cost if there is one and it fits, and nothing changes otherwise. */
  lemma ChooseStep(env: Env, b: Builder, s: seq<Result>, i: nat, cost: Option<nat>, ready: Result)
    requires i < |s| && cost == Cost(env, b.level, s[i]) && ready == Prepared(env, b.level, s[i])
    ensures var c, d := Chosen(env, b, s[..i]), Chosen(env, b, s[..i + 1]);
      if cost.Some? && Tokens(env, b.level, c) + cost.value <= b.tokenBudget
      then d == c + [ready] && Tokens(env, b.level, d) == Tokens(env, b.level, c) + cost.value
      else d == c
    ensures Empties(s[..i + 1]) == Empties(s[..i]) + if s[i].snippet == "" then 1 else 0
  {
    assert s[..i + 1] == s[..i] + [s[i]] && s[..i + 1][..i] == s[..i];
    ChosenPush(env, b, s[..i], s[i]);
    TokensPush(env, b.level, Chosen(env, b, s[..i]), ready);
    PreparedOnce(env, b.level, s[i]);
  }

  // ----- The two passes -----

  /** One turn of the first pass, as far as the measuring: the result as it will be kept, and what it costs. */
  method Measure(env: Env, level: Level, r: Result) returns (result: Result, tokens: Option<nat>)
    requires level > 0
    ensures tokens == Cost(env, level, r) && (tokens.Some? ==> result == Prepared(env, level, r))
  {
    result := r;
    if level >= 3 && level != 7 && result.snippet == "" {
      var content := env.load(result.file);
      if content == "" {
        return result, None;
      }
      result := result.(snippet := content);
    }
    var block := Measured(env, level, result);
    tokens := if block.None? then None else Some(CountTokens(block.value));
  }

  method Select(env: Env, b: Builder, sorted: seq<Result>)
    returns (included: seq<Result>, totalTokens: nat, dropped: nat, emptySnippets: nat)
    ensures included == Chosen(env, b, sorted) && dropped == |sorted| - |included|
    ensures totalTokens == Tokens(env, b.level, included)
    ensures emptySnippets == if b.level == 0 then 0 else Empties(sorted)
  {
    included, totalTokens, dropped, emptySnippets := [], 0, 0, 0;
    for i := 0 to |sorted|
      invariant included == Chosen(env, b, sorted[..i]) && dropped == i - |included|
      invariant totalTokens == Tokens(env, b.level, included)
      invariant emptySnippets == if b.level == 0 then 0 else Empties(sorted[..i])
    {
      var result, tokens := sorted[i], Some(1);
      if b.level > 0 {
        if result.snippet == "" {
          emptySnippets := emptySnippets + 1;
        }
        result, tokens := Measure(env, b.level, result);
      }
      ChooseStep(env, b, sorted, i, tokens, Prepared(env, b.level, sorted[i]));
      if tokens.None? || totalTokens + tokens.value > b.tokenBudget {
        dropped := dropped + 1;
        continue;
      }
      included := included + [result];
      totalTokens := totalTokens + tokens.value;
    }
    assert sorted[..|sorted|] == sorted;
  }

  method Render(env: Env, level: Level, included: seq<Result>) returns (context: string)
    ensures context == Text(env, level, included)
  {
    context := "";
    for i := 0 to |included|
      invariant context == Text(env, level, included[..i])
    {
      assert included[..i + 1][..i] == included[..i];
      context := context + Written(env, level, included[i]);
    }
    assert included[..|included|] == included;
  }

  /** Nothing is lost, the budget is kept, and the text is as long as the tokens say. */
  method Build(env: Env, b: Builder, results: seq<Result>)
    returns (context: string, m: Metrics, ghost sorted: seq<Result>)
    ensures multiset(sorted) == multiset(results) && HighestFirst(sorted)
    ensures context == Text(env, b.level, Chosen(env, b, sorted))
    ensures m.filesSelected == |Chosen(env, b, sorted)| && m.filesSelected + m.filesDropped == m.totalResults == |results|
    ensures m.tokens == Tokens(env, b.level, Chosen(env, b, sorted))
    ensures m.tokens <= if b.tokenBudget < 0 then 0 else b.tokenBudget
    ensures 1 <= b.level <= 6 ==> 4 * m.tokens <= |context| <= 4 * m.tokens + 3 * m.filesSelected
    ensures m.emptySnippets == if b.level == 0 then 0 else |EmptyPlaces(sorted)|
    ensures forall r :: r in Chosen(env, b, sorted) ==> Shown(env, b.level, r, context)
  {
    if |results| == 0 {
      sorted := [];
      EmptiesIs(sorted);
      return "", Metrics(0, 0, 0, 0, 0), sorted;
    }
    var order := SortByScore(results);
    sorted := order;
    SameLength(sorted, results);
    var included, totalTokens, dropped, emptySnippets := Select(env, b, order);
    context := Render(env, b.level, included);
    m := Metrics(|included|, dropped, totalTokens, |results|, emptySnippets);
    WithinBudget(env, b, sorted);
    EmptiesIs(sorted);
    AllChosenAreShown(env, b, sorted);
    if 1 <= b.level <= 6 {
      LengthMatchesTokens(env, b, sorted);
    }
  }

  lemma SameLength<T>(a: seq<T>, b: seq<T>)
    requires multiset(a) == multiset(b)
    ensures |a| == |b|
  {
    assert |multiset(a)| == |a| && |multiset(b)| == |b|;
  }

  // ----- What the text shows -----

  ghost predicate Within(part: string, whole: string) {
    exists i :: Strings.At(whole, part, i)
  }

  /** What the text must hold of a chosen result: at level 0 its base name; at levels 1 to 6 its snippet, with its path at
      the first three; at level 7 its body, or else path and snippet. A result without a snippet is chosen at level 1,
      and shown by its path, and at level 7. */
  ghost predicate Shown(env: Env, level: Level, r: Result, text: string) {
    && (level == 0 ==> Within(env.base(r.file) + "\n", text))
    && (1 <= level <= 6 ==> Within(r.snippet, text))
    && (1 <= level <= 3 ==> Within(r.file, text))
    && (level == 7 && env.body(r) != "" ==> Within(env.body(r), text))
    && (level == 7 && env.body(r) == "" && r.snippet != "" ==> Within(r.file, text) && Within(r.snippet, text))
  }

  lemma WithinMiddle(a: string, part: string, b: string)
    ensures Within(part, a + part + b)
  {
    assert (a + part + b)[|a|..|a| + |part|] == part;
    assert Strings.At(a + part + b, part, |a|);
  }

  lemma WithinWider(part: string, a: string, whole: string, b: string)
    requires Within(part, whole)
    ensures Within(part, a + whole + b)
  {
    var i :| Strings.At(whole, part, i);
    assert (a + whole + b)[|a| + i..|a| + i + |part|] == whole[i..i + |part|];
    assert Strings.At(a + whole + b, part, |a| + i);
  }

  lemma ScoredShows(env: Env, r: Result)
    ensures Within(r.file, Scored(env, r)) && Within(r.snippet, Scored(env, r))
  {
    var head := "=== " + r.file + " (confidence: " + env.format(r.score) + ") ===\n";
    WithinMiddle(head, r.snippet, "\n\n");
    var tail := " (confidence: " + env.format(r.score) + ") ===\n" + r.snippet + "\n\n";
    WithinMiddle("=== ", r.file, tail);
    assert Scored(env, r) == "=== " + r.file + tail;
  }

  lemma PlainShows(r: Result)
    ensures Within(r.file, Plain(r)) && Within(r.snippet, Plain(r))
  {
    WithinMiddle("=== " + r.file + " ===\n", r.snippet, "\n\n");
    WithinMiddle("=== ", r.file, " ===\n" + r.snippet + "\n\n");
    assert Plain(r) == "=== " + r.file + (" ===\n" + r.snippet + "\n\n");
  }

  lemma LineShows(line: string)
    ensures Within(line, line + "\n") && Within(line, line)
  {
    WithinMiddle("", line, "\n");
    WithinMiddle("", line, "");
    assert "" + line + "\n" == line + "\n" && "" + line + "" == line;
  }

  lemma NothingIsShown(text: string)
    ensures Within("", text)
  {
    WithinMiddle("", "", text);
    assert "" + "" + text == text;
  }

  lemma WrittenShows(env: Env, level: Level, r: Result)
    requires Prepared(env, level, r) == r && Cost(env, level, r).Some?
    ensures Shown(env, level, r, Written(env, level, r))
  {
    ScoredShows(env, r);
    PlainShows(r);
    NothingIsShown(Written(env, level, r));
    LineShows(r.file);
    LineShows(r.snippet);
    LineShows(env.body(r));
    LineShows(env.base(r.file) + "\n");
  }

  lemma ShownWider(env: Env, level: Level, r: Result, a: string, text: string, b: string)
    requires Shown(env, level, r, text)
    ensures Shown(env, level, r, a + text + b)
  {
    if Within(env.base(r.file) + "\n", text) { WithinWider(env.base(r.file) + "\n", a, text, b); }
    if Within(r.snippet, text) { WithinWider(r.snippet, a, text, b); }
    if Within(r.file, text) { WithinWider(r.file, a, text, b); }
    if Within(env.body(r), text) { WithinWider(env.body(r), a, text, b); }
  }

  lemma ShownBefore(env: Env, level: Level, r: Result, before: string, last: string)
    ensures Shown(env, level, r, before) ==> Shown(env, level, r, before + last)
    ensures Shown(env, level, r, last) ==> Shown(env, level, r, before + last)
  {
    assert "" + before + last == before + last && before + last + "" == before + last;
    if Shown(env, level, r, before) { ShownWider(env, level, r, "", before, last); }
    if Shown(env, level, r, last) { ShownWider(env, level, r, before, last, ""); }
  }

  /** Every chosen result is shown in the text. */
  lemma {:induction false} ChosenAreShown(env: Env, level: Level, chosen: seq<Result>, i: nat)
    requires AllReady(env, level, chosen) && i < |chosen|
    ensures Shown(env, level, chosen[i], Text(env, level, chosen))
  {
    var init, last := chosen[..|chosen| - 1], chosen[|chosen| - 1];
    ShownBefore(env, level, chosen[i], Text(env, level, init), Written(env, level, last));
    if i < |chosen| - 1 {
      ChosenAreShown(env, level, init, i);
    } else {
      WrittenShows(env, level, last);
    }
  }

  lemma AllChosenAreShown(env: Env, b: Builder, s: seq<Result>)
    ensures forall r :: r in Chosen(env, b, s) ==> Shown(env, b.level, r, Text(env, b.level, Chosen(env, b, s)))
  {
    var c := Chosen(env, b, s);
    ChosenAreReady(env, b, s);
    forall r | r in c ensures Shown(env, b.level, r, Text(env, b.level, c)) {
      var i :| 0 <= i < |c| && c[i] == r;
      ChosenAreShown(env, b.level, c, i);
    }
  }

  // ----- What the choice means -----

  lemma {:induction false} WithinBudget(env: Env, b: Builder, s: seq<Result>)
    ensures Tokens(env, b.level, Chosen(env, b, s)) <= if b.tokenBudget < 0 then 0 else b.tokenBudget
  {
    if s != [] {
      var r := s[|s| - 1];
      WithinBudget(env, b, s[..|s| - 1]);
      TokensPush(env, b.level, Chosen(env, b, s[..|s| - 1]), Prepared(env, b.level, r));
      PreparedOnce(env, b.level, r);
    }
  }

  /** A builder made with a budget keeps it, and one made without keeps the default. */
  lemma NewBuilderKeepsBudget(env: Env, level: Level, tokenBudget: int, s: seq<Result>)
    ensures Tokens(env, level, Chosen(env, NewBuilder(level, tokenBudget), s))
      <= if tokenBudget <= 0 then DEFAULT_BUDGET else tokenBudget
  {
    WithinBudget(env, NewBuilder(level, tokenBudget), s);
  }

  /** And it spends it: of more files than that, level 0 takes as many as the budget. */
  lemma NewBuilderSpendsBudget(env: Env, tokenBudget: int, s: seq<Result>)
    requires |s| >= if tokenBudget <= 0 then 3000 else tokenBudget
    ensures Chosen(env, NewBuilder(0, tokenBudget), s) == s[..if tokenBudget <= 0 then 3000 else tokenBudget]
  {
    FileNamesCount(env, NewBuilder(0, tokenBudget), s);
  }

  /** Whether a result can be had at all: at levels 2 to 6 it needs a snippet, and from level 3 on the content of the
      file is one. */
  lemma CostIff(env: Env, level: Level, r: Result)
    ensures Cost(env, level, r).Some?
      <==> level <= 1 || level == 7 || r.snippet != "" || (level >= 3 && env.load(r.file) != "")
  {
  }

  /** The result as it is chosen and shown: with the content of the file for a missing snippet at levels 3 to 6. */
  ghost predicate AsChosen(env: Env, level: Level, r: Result, c: Result) {
    && c.file == r.file && c.score == r.score && c.lineFrom == r.lineFrom && c.lineTo == r.lineTo
    && c.snippet == if r.snippet == "" && level >= 3 && level != 7 then env.load(r.file) else r.snippet
  }

  lemma {:induction false} ChosenAreResults(env: Env, b: Builder, s: seq<Result>, c: Result)
    requires c in Chosen(env, b, s)
    ensures exists r :: r in s && AsChosen(env, b.level, r, c)
  {
    var n := |s| - 1;
    if c in Chosen(env, b, s[..n]) {
      ChosenAreResults(env, b, s[..n], c);
    } else {
      assert s[n] in s && AsChosen(env, b.level, s[n], c);
    }
  }

  lemma {:induction false} TokensGrow(env: Env, b: Builder, s: seq<Result>, i: nat)
    requires i <= |s|
    ensures Tokens(env, b.level, Chosen(env, b, s[..i])) <= Tokens(env, b.level, Chosen(env, b, s))
    decreases |s|
  {
    if i < |s| {
      var r := s[|s| - 1];
      TokensGrow(env, b, s[..|s| - 1], i);
      assert s[..|s| - 1][..i] == s[..i];
      TokensPush(env, b.level, Chosen(env, b, s[..|s| - 1]), Prepared(env, b.level, r));
    } else {
      assert s[..i] == s;
    }
  }

  /** A result with a block is left out only when even the finished choice has no room for it. */
  lemma LeftOutWouldOverflow(env: Env, b: Builder, s: seq<Result>, i: nat)
    requires i < |s| && Cost(env, b.level, s[i]).Some?
    requires !Fits(env, b, Chosen(env, b, s[..i]), s[i])
    ensures !Fits(env, b, Chosen(env, b, s), s[i])
  {
    TokensGrow(env, b, s, i);
  }

  // ----- What the second pass writes is what the first one measured -----

  /** The blocks measured for the chosen results, one after the other. */
  function Blocks(env: Env, level: Level, chosen: seq<Result>): string
    requires level > 0
  {
    if chosen == [] then ""
    else
      var last := chosen[|chosen| - 1];
      Blocks(env, level, chosen[..|chosen| - 1])
      + match Measured(env, level, Prepared(env, level, last)) case None => "" case Some(block) => block
  }

  /** Level 7 measures the path of a result that has neither body nor snippet, and then does not write it. */
  predicate Bare(env: Env, level: Level, r: Result) {
    level == 7 && env.body(r) == "" && r.snippet == ""
  }

  lemma WrittenIsMeasured(env: Env, level: Level, r: Result)
    requires level > 0 && Prepared(env, level, r) == r && Cost(env, level, r).Some?
    ensures !Bare(env, level, r) ==> Measured(env, level, r) == Some(Written(env, level, r))
    ensures Bare(env, level, r) ==> Written(env, level, r) == "" && Measured(env, level, r).Some?
    ensures Bare(env, level, r) ==> |Measured(env, level, r).value| > 0
  {
  }

  ghost predicate AllReady(env: Env, level: Level, chosen: seq<Result>) {
    forall i :: 0 <= i < |chosen| ==> Prepared(env, level, chosen[i]) == chosen[i] && Cost(env, level, chosen[i]).Some?
  }

  lemma {:induction false} ChosenAreReady(env: Env, b: Builder, s: seq<Result>)
    ensures AllReady(env, b.level, Chosen(env, b, s))
  {
    if s != [] {
      ChosenAreReady(env, b, s[..|s| - 1]);
      PreparedOnce(env, b.level, s[|s| - 1]);
    }
  }

  /** The text is the measured blocks exactly when no chosen result is bare. */
  lemma {:induction false} TextIsMeasuredIff(env: Env, level: Level, chosen: seq<Result>)
    requires level > 0 && AllReady(env, level, chosen)
    ensures |Text(env, level, chosen)| <= |Blocks(env, level, chosen)|
    ensures Text(env, level, chosen) == Blocks(env, level, chosen)
      <==> forall i :: 0 <= i < |chosen| ==> !Bare(env, level, chosen[i])
  {
    if chosen != [] {
      var n := |chosen| - 1;
      TextIsMeasuredIff(env, level, chosen[..n]);
      WrittenIsMeasured(env, level, chosen[n]);
      var text, blocks := Text(env, level, chosen[..n]), Blocks(env, level, chosen[..n]);
      if Bare(env, level, chosen[n]) {
        assert |Text(env, level, chosen)| < |Blocks(env, level, chosen)|;
      } else {
        SameEnd(text, blocks, Written(env, level, chosen[n]));
        assert forall i :: 0 <= i < n ==> chosen[..n][i] == chosen[i];
      }
    }
  }

  lemma SameEnd(a: string, b: string, c: string)
    ensures a + c == b + c <==> a == b
  {
    if a + c == b + c {
      assert |a| == |b| && a == (a + c)[..|a|] && b == (b + c)[..|b|];
    }
  }

  lemma {:induction false} BlocksMatchTokens(env: Env, level: Level, chosen: seq<Result>)
    requires level > 0 && AllReady(env, level, chosen)
    ensures 4 * Tokens(env, level, chosen) <= |Blocks(env, level, chosen)|
      <= 4 * Tokens(env, level, chosen) + 3 * |chosen|
  {
    if chosen != [] {
      BlocksMatchTokens(env, level, chosen[..|chosen| - 1]);
    }
  }

  /** At the levels 1 to 6 the text is as long as the tokens say, but for the three characters a block rounds off. */
  lemma {:induction false} LengthMatchesTokens(env: Env, b: Builder, s: seq<Result>)
    requires 1 <= b.level <= 6
    ensures var c := Chosen(env, b, s);
      Text(env, b.level, c) == Blocks(env, b.level, c)
      && 4 * Tokens(env, b.level, c) <= |Text(env, b.level, c)| <= 4 * Tokens(env, b.level, c) + 3 * |c|
  {
    ChosenAreReady(env, b, s);
    TextIsMeasuredIff(env, b.level, Chosen(env, b, s));
    BlocksMatchTokens(env, b.level, Chosen(env, b, s));
  }

  /** Result i has neither body nor snippet, and it fits beside what was chosen before it. */
  ghost predicate BareFits(env: Env, b: Builder, s: seq<Result>, i: int) {
    0 <= i < |s| && env.body(s[i]) == "" && s[i].snippet == "" && Fits(env, b, Chosen(env, b, s[..i]), s[i])
  }

  ghost predicate SomeBare(env: Env, chosen: seq<Result>) {
    exists r :: r in chosen && Bare(env, 7, r)
  }

  lemma SomeBareStep(env: Env, b: Builder, s: seq<Result>, n: nat)
    requires b.level == 7 && |s| == n + 1
    ensures SomeBare(env, Chosen(env, b, s)) <==> SomeBare(env, Chosen(env, b, s[..n])) || BareFits(env, b, s, n)
  {
    var before, c := Chosen(env, b, s[..n]), Chosen(env, b, s);
    assert Prepared(env, 7, s[n]) == s[n];
    if Fits(env, b, before, s[n]) {
      assert c == before + [s[n]];
      if SomeBare(env, before) {
        var r :| r in before && Bare(env, 7, r);
        assert r in c;
      }
      if BareFits(env, b, s, n) {
        assert s[n] in c && Bare(env, 7, s[n]);
      }
    }
  }

  lemma BareFitsBefore(env: Env, b: Builder, s: seq<Result>, n: nat, i: int)
    requires i < n <= |s|
    ensures BareFits(env, b, s[..n], i) <==> BareFits(env, b, s, i)
  {
    assert i >= 0 ==> s[..n][..i] == s[..i] && s[..n][i] == s[i];
  }

  /** A bare result is chosen exactly when one fits beside what was chosen before it. */
  lemma {:induction false} BareIsChosenIff(env: Env, b: Builder, s: seq<Result>)
    requires b.level == 7
    ensures SomeBare(env, Chosen(env, b, s)) <==> exists i :: BareFits(env, b, s, i)
  {
    if s != [] {
      var n := |s| - 1;
      BareIsChosenIff(env, b, s[..n]);
      SomeBareStep(env, b, s, n);
      forall i | i < n ensures BareFits(env, b, s[..n], i) <==> BareFits(env, b, s, i) {
        BareFitsBefore(env, b, s, n, i);
      }
    }
  }

  /** At level 7 this holds exactly when no result without body and snippet fits beside those chosen before it; one
      that does costs tokens it does not fill. */
  lemma {:induction false} BodyTextIsMeasuredIff(env: Env, b: Builder, s: seq<Result>)
    requires b.level == 7
    ensures Text(env, 7, Chosen(env, b, s)) == Blocks(env, 7, Chosen(env, b, s))
      <==> forall i :: !BareFits(env, b, s, i)
    ensures var c := Chosen(env, b, s);
      && |Text(env, 7, c)| <= 4 * Tokens(env, 7, c) + 3 * |c|
      && (Text(env, 7, c) == Blocks(env, 7, c) ==> 4 * Tokens(env, 7, c) <= |Text(env, 7, c)|)
  {
    var c := Chosen(env, b, s);
    ChosenAreReady(env, b, s);
    TextIsMeasuredIff(env, 7, c);
    BlocksMatchTokens(env, 7, c);
    BareIsChosenIff(env, b, s);
    assert SomeBare(env, c) <==> exists i :: 0 <= i < |c| && Bare(env, 7, c[i]);
  }

  /** A bare result with a long path: tokens are counted, and nothing is written. */
  lemma {:induction false} BareResultIsNotWritten(env: Env, r: Result)
    requires env.body(r) == "" && r.snippet == "" && |r.file| == 7
    ensures var c := Chosen(env, Builder(7, 10), [r]);
      Tokens(env, 7, c) == 2 && Text(env, 7, c) == ""
  {
    assert [r][..0] == [];
    ChosenPush(env, Builder(7, 10), [], r);
    assert [] + [r] == [r];
    TokensPush(env, 7, [], r);
  }

  lemma {:induction false} FileTokens(env: Env, chosen: seq<Result>)
    ensures Tokens(env, 0, chosen) == |chosen|
  {
    if chosen != [] {
      FileTokens(env, chosen[..|chosen| - 1]);
    }
  }

  lemma FileFits(env: Env, b: Builder, chosen: seq<Result>, r: Result)
    requires b.level == 0
    ensures Fits(env, b, chosen, r) <==> |chosen| < b.tokenBudget
  {
    FileTokens(env, chosen);
  }

  /** At level 0 every file counts one token, and the budget is a number of files. */
  lemma {:induction false} FileNamesCount(env: Env, b: Builder, s: seq<Result>)
    requires b.level == 0 && b.tokenBudget > 0
    ensures Chosen(env, b, s) == s[..if |s| <= b.tokenBudget then |s| else b.tokenBudget]
    ensures Tokens(env, 0, Chosen(env, b, s)) == |Chosen(env, b, s)|
  {
    FileTokens(env, Chosen(env, b, s));
    if s != [] {
      var n := |s| - 1;
      FileNamesCount(env, b, s[..n]);
      FileFits(env, b, Chosen(env, b, s[..n]), s[n]);
    }
  }
}
