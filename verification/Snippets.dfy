/** Snippets: the lines around the matches of a file. */
module Snippets {
  import opened Numbers

  // ----- What a snippet is -----

  /** Line n is within `context` lines of a match. */
  predicate Near(matches: seq<int>, context: int, n: int) {
    exists k :: 0 <= k < |matches| && matches[k] - context <= n <= matches[k] + context
  }

  function Rendered(lines: seq<string>, matches: seq<int>, n: int): string
    requires 0 <= n < |lines|
  {
    (if n in matches then ">" else " ") + Digits(n + 1) + ": " + lines[n]
  }

  /** A line is shown behind its number, counted from one, and a mark exactly if it is a match. */
  lemma RenderedMeaning(lines: seq<string>, matches: seq<int>, n: int) returns (k: nat)
    requires 0 <= n < |lines|
    ensures var r := Rendered(lines, matches, n);
      && 1 < k <= |r| && (forall i :: 0 <= i < k - 1 ==> '0' <= r[1..k][i] <= '9') && Value(r[1..k]) == n + 1
      && r[k..] == ": " + lines[n] && (r[0] == '>' <==> n in matches) && (r[0] == ' ' <==> n !in matches)
  {
    DigitsValue(n + 1);
    var r, d := Rendered(lines, matches, n), Digits(n + 1);
    k := 1 + |d|;
    assert r == r[..1] + d + (": " + lines[n]);
    assert r[1..k] == d;
  }

  /** Line by line: a line near a match is shown, after an ellipsis when the line above it is not. */
  function Snippet(lines: seq<string>, matches: seq<int>, context: int, n: nat): seq<string>
    requires n <= |lines|
  {
    if n == 0 then []
    else
      Snippet(lines, matches, context, n - 1)
      + (if !Near(matches, context, n - 1) then []
         else (if n == 1 || !Near(matches, context, n - 2) then ["..."] else []) + [Rendered(lines, matches, n - 1)])
  }

  // ----- Collecting the lines -----

  ghost predicate Increasing(s: seq<int>) {
    forall i, j :: 0 <= i < j < |s| ==> s[i] < s[j]
  }

  function Insert(s: seq<int>, x: int): (r: seq<int>)
    ensures forall y :: y in r <==> y == x || y in s
  {
    if s == [] || x < s[0] then [x] + s else [s[0]] + Insert(s[1..], x)
  }

  lemma {:induction false} InsertIncreasing(s: seq<int>, x: int)
    requires Increasing(s) && x !in s
    ensures Increasing(Insert(s, x))
  {
    if s != [] && x >= s[0] {
      assert s[0] in s;
      InsertIncreasing(s[1..], x);
      var rest := Insert(s[1..], x);
      assert forall i :: 0 < i < |s| ==> s[0] < s[i];
      forall j | 0 <= j < |rest| ensures s[0] < rest[j] {
        assert rest[j] in rest;
      }
    } else {
      forall y | y in s ensures x < y {
        var i :| 0 <= i < |s| && s[i] == y;
        assert s[0] <= s[i];
      }
    }
  }

  /** sort.Ints on distinct numbers. */
  method SortInts(a: seq<int>) returns (s: seq<int>)
    requires forall i, j :: 0 <= i < j < |a| ==> a[i] != a[j]
    ensures Increasing(s) && forall x :: x in s <==> x in a
  {
    s := [];
    for i := 0 to |a|
      invariant Increasing(s) && forall x :: x in s <==> x in a[..i]
    {
      assert a[..i + 1] == a[..i] + [a[i]];
      InsertIncreasing(s, a[i]);
      s := Insert(s, a[i]);
    }
    assert a[..|a|] == a;
  }

  method CollectLines(count: nat, matches: seq<int>, context: int) returns (result: seq<int>)
    ensures forall i, j :: 0 <= i < j < |result| ==> result[i] != result[j]
    ensures forall n :: n in result <==> 0 <= n < count && Near(matches, context, n)
  {
    var seen: set<int> := {};
    result := [];
    for k := 0 to |matches|
      invariant forall i, j :: 0 <= i < j < |result| ==> result[i] != result[j]
      invariant forall n :: n in result <==> n in seen
      invariant forall n :: n in seen <==> 0 <= n < count && Near(matches[..k], context, n)
    {
      var ml := matches[k];
      var i := ml - context;
      while i <= ml + context
        invariant if context < 0 then i == ml - context else ml - context <= i <= ml + context + 1
        invariant forall p, q :: 0 <= p < q < |result| ==> result[p] != result[q]
        invariant forall n :: n in result <==> n in seen
        invariant forall n :: n in seen <==> 0 <= n < count && (Near(matches[..k], context, n) || ml - context <= n < i)
        decreases ml + context - i
      {
        if 0 <= i < count && i !in seen {
          seen := seen + {i};
          result := result + [i];
        }
        i := i + 1;
      }
      forall n | 0 <= n < count ensures n in seen <==> Near(matches[..k + 1], context, n) {
        NearPush(matches, context, k, n);
      }
    }
    assert matches[..|matches|] == matches;
  }

  lemma NearPush(matches: seq<int>, context: int, k: nat, n: int)
    requires k < |matches|
    ensures Near(matches[..k + 1], context, n)
      <==> Near(matches[..k], context, n) || matches[k] - context <= n <= matches[k] + context
  {
    if j :| 0 <= j < k && matches[j] - context <= n <= matches[j] + context {
      assert matches[..k][j] == matches[j] == matches[..k + 1][j];
    }
    if matches[k] - context <= n <= matches[k] + context {
      assert matches[..k + 1][k] == matches[k];
    }
  }

  // ----- Writing the snippet -----

  lemma {:induction false} GapAddsNothing(lines: seq<string>, matches: seq<int>, context: int, a: nat, b: nat)
    requires a <= b <= |lines| && forall n :: a <= n < b ==> !Near(matches, context, n)
    ensures Snippet(lines, matches, context, b) == Snippet(lines, matches, context, a)
    decreases b
  {
    if a < b {
      GapAddsNothing(lines, matches, context, a, b - 1);
    }
  }

  /** Between two consecutive numbers of the sorted list, and beyond its ends, no line is near a match. */
  lemma NoneBetween(result: seq<int>, count: nat, matches: seq<int>, context: int, k: nat)
    requires k <= |result| && Shown(result, count, matches, context)
    ensures forall n :: Done(result, k) <= n < (if k == |result| then count else result[k]) ==> !Near(matches, context, n)
    ensures 0 <= Done(result, k) <= if k == |result| then count else result[k]
    ensures k < |result| ==> Near(matches, context, result[k]) && 0 <= result[k] < count
    ensures k > 0 ==> Near(matches, context, result[k - 1]) && 0 <= result[k - 1] < count
  {
    assert k > 0 ==> result[k - 1] in result;
    assert k < |result| ==> result[k] in result;
    assert forall j :: 0 <= j < k ==> result[j] < Done(result, k);
    assert forall j :: k <= j < |result| ==> result[k] <= result[j];
    forall n | Done(result, k) <= n < (if k == |result| then count else result[k])
      ensures n !in result
    {
    }
  }

  ghost predicate Shown(result: seq<int>, count: nat, matches: seq<int>, context: int) {
    Increasing(result) && forall n :: n in result <==> 0 <= n < count && Near(matches, context, n)
  }

  /** The line after the last one written, when k have been. */
  function Done(result: seq<int>, k: nat): int
    requires k <= |result|
  {
    if k == 0 then 0 else result[k - 1] + 1
  }

  lemma WriteNext(lines: seq<string>, result: seq<int>, matches: seq<int>, context: int, k: nat)
    requires k < |result| && Shown(result, |lines|, matches, context)
    ensures 0 <= Done(result, k) <= result[k] < |lines|
    ensures Snippet(lines, matches, context, result[k] + 1)
      == Snippet(lines, matches, context, Done(result, k))
         + (if k == 0 || result[k] > result[k - 1] + 1 then ["..."] else []) + [Rendered(lines, matches, result[k])]
  {
    NoneBetween(result, |lines|, matches, context, k);
    GapAddsNothing(lines, matches, context, Done(result, k), result[k]);
    var n := result[k];
    assert (n == 0 || !Near(matches, context, n - 1)) <==> (k == 0 || n > result[k - 1] + 1);
    var above, gap := Snippet(lines, matches, context, n), if n == 0 || !Near(matches, context, n - 1) then ["..."] else [];
    assert above + (gap + [Rendered(lines, matches, n)]) == above + gap + [Rendered(lines, matches, n)];
  }

  method ExtractSnippetLines(lines: seq<string>, matchLines: seq<int>, context: int) returns (snippet: seq<string>)
    ensures snippet == Snippet(lines, matchLines, context, |lines|)
  {
    snippet := [];
    if |matchLines| == 0 {
      GapAddsNothing(lines, matchLines, context, 0, |lines|);
      return;
    }
    var result := CollectLines(|lines|, matchLines, context);
    result := SortInts(result);
    var prev := -2;
    for k := 0 to |result|
      invariant 0 <= Done(result, k) <= |lines| && snippet == Snippet(lines, matchLines, context, Done(result, k))
      invariant prev == if k == 0 then -2 else result[k - 1]
    {
      var lineNum := result[k];
      WriteNext(lines, result, matchLines, context, k);
      if lineNum > prev + 1 {
        snippet := snippet + ["..."];
      }
      snippet := snippet + [Rendered(lines, matchLines, lineNum)];
      prev := lineNum;
    }
    NoneBetween(result, |lines|, matchLines, context, |result|);
    GapAddsNothing(lines, matchLines, context, Done(result, |result|), |lines|);
  }

  // ----- What a reader finds in it -----

  lemma {:induction false} SnippetGrows(lines: seq<string>, matches: seq<int>, context: int, a: nat, b: nat)
    requires a <= b <= |lines|
    ensures Snippet(lines, matches, context, a) <= Snippet(lines, matches, context, b)
    decreases b
  {
    if a < b {
      SnippetGrows(lines, matches, context, a, b - 1);
    }
  }

  /** A line near a match stands behind all lines above it, right after the line before it or after an ellipsis. */
  lemma LineStands(lines: seq<string>, matches: seq<int>, context: int, n: nat) returns (at: nat)
    requires n < |lines| && Near(matches, context, n)
    ensures at < |Snippet(lines, matches, context, |lines|)|
    ensures Snippet(lines, matches, context, |lines|)[at] == Rendered(lines, matches, n)
    ensures var above := Snippet(lines, matches, context, n);
      Snippet(lines, matches, context, |lines|)[..at] == above + if n > 0 && Near(matches, context, n - 1) then [] else ["..."]
  {
    var gap: seq<string> := if n > 0 && Near(matches, context, n - 1) then [] else ["..."];
    var above, upTo := Snippet(lines, matches, context, n), Snippet(lines, matches, context, n + 1);
    assert upTo == above + gap + [Rendered(lines, matches, n)];
    SnippetGrows(lines, matches, context, n + 1, |lines|);
    at := |above + gap|;
    assert Snippet(lines, matches, context, |lines|)[..at] == upTo[..at];
  }

  const FIVE_LINES := ["a", "b", "c", "d", "e"]

  lemma AroundThird()
    ensures Snippet(FIVE_LINES, [2], 1, 5) == ["...", " 2: b", ">3: c", " 4: d"]
  {
    var l := FIVE_LINES;
    assert [2][0] == 2;
    assert !Near([2], 1, 0) && Near([2], 1, 1) && Near([2], 1, 2) && Near([2], 1, 3) && !Near([2], 1, 4);
    assert Digits(2) == "2" && Digits(3) == "3" && Digits(4) == "4";
    assert Rendered(l, [2], 1) == " 2: b" && Rendered(l, [2], 2) == ">3: c" && Rendered(l, [2], 3) == " 4: d";
    assert Snippet(l, [2], 1, 1) == [];
    assert Snippet(l, [2], 1, 2) == ["...", " 2: b"];
    assert Snippet(l, [2], 1, 3) == ["...", " 2: b", ">3: c"];
    assert Snippet(l, [2], 1, 4) == ["...", " 2: b", ">3: c", " 4: d"];
  }

  /** A match in the third of five lines, with one line of context. */
  method OneMatch() returns (snippet: seq<string>)
    ensures snippet == ["...", " 2: b", ">3: c", " 4: d"]
  {
    AroundThird();
    snippet := ExtractSnippetLines(FIVE_LINES, [2], 1);
  }

  // ----- Repeated matches -----

  function FirstOnes(ints: seq<int>): seq<int> {
    if ints == [] then []
    else
      var r, x := FirstOnes(ints[..|ints| - 1]), ints[|ints| - 1];
      if x in r then r else r + [x]
  }

  method UniqueInts(ints: seq<int>) returns (result: seq<int>)
    ensures result == FirstOnes(ints)
  {
    var seen: set<int> := {};
    result := [];
    for i := 0 to |ints|
      invariant result == FirstOnes(ints[..i]) && forall x :: x in seen <==> x in result
    {
      assert ints[..i + 1][..i] == ints[..i];
      if ints[i] !in seen {
        seen := seen + {ints[i]};
        result := result + [ints[i]];
      }
    }
    assert ints[..|ints|] == ints;
  }

  /** x is in the list, and i is the first place it is at. */
  ghost predicate FirstAt(ints: seq<int>, x: int, i: int) {
    0 <= i < |ints| && ints[i] == x && x !in ints[..i]
  }

  /** The numbers come in the order in which they first appear. */
  lemma {:induction false} FirstOnesInOrder(ints: seq<int>, a: nat, b: nat) returns (i: nat, j: nat)
    requires a < b < |FirstOnes(ints)|
    ensures i < j && FirstAt(ints, FirstOnes(ints)[a], i) && FirstAt(ints, FirstOnes(ints)[b], j)
  {
    var n := |ints| - 1;
    var before := FirstOnes(ints[..n]);
    FirstOnesMeaning(ints[..n]);
    if b < |before| {
      i, j := FirstOnesInOrder(ints[..n], a, b);
      assert ints[..n][..i] == ints[..i] && ints[..n][..j] == ints[..j];
    } else {
      j := n;
      assert before[a] in before;
      i := FirstPlace(ints, before[a], n);
    }
  }

  lemma {:induction false} FirstPlace(ints: seq<int>, x: int, n: nat) returns (i: nat)
    requires n <= |ints| && x in ints[..n]
    ensures i < n && FirstAt(ints, x, i)
  {
    if x in ints[..n - 1] {
      i := FirstPlace(ints, x, n - 1);
    } else {
      i := n - 1;
    }
  }

  lemma {:induction false} FirstOnesMeaning(ints: seq<int>)
    ensures forall x :: x in FirstOnes(ints) <==> x in ints
    ensures forall i, j :: 0 <= i < j < |FirstOnes(ints)| ==> FirstOnes(ints)[i] != FirstOnes(ints)[j]
  {
    if ints != [] {
      var n := |ints| - 1;
      FirstOnesMeaning(ints[..n]);
      assert ints == ints[..n] + [ints[n]];
    }
  }

  lemma NearSame(a: seq<int>, b: seq<int>, context: int, n: int)
    requires forall x :: x in a ==> x in b
    ensures Near(a, context, n) ==> Near(b, context, n)
  {
    if k :| 0 <= k < |a| && a[k] - context <= n <= a[k] + context {
      assert a[k] in b;
    }
  }

  /** The order and number of the matches do not matter, so neither does removing the repeated ones. */
  lemma {:induction false} OnlyTheSetMatters(lines: seq<string>, a: seq<int>, b: seq<int>, context: int, n: nat)
    requires n <= |lines| && forall x :: x in a <==> x in b
    ensures Snippet(lines, a, context, n) == Snippet(lines, b, context, n)
  {
    if n > 0 {
      OnlyTheSetMatters(lines, a, b, context, n - 1);
      NearSame(a, b, context, n - 1);
      NearSame(b, a, context, n - 1);
      NearSame(a, b, context, n - 2);
      NearSame(b, a, context, n - 2);
    }
  }

  lemma UniqueKeepsSnippet(lines: seq<string>, matches: seq<int>, context: int)
    ensures Snippet(lines, FirstOnes(matches), context, |lines|) == Snippet(lines, matches, context, |lines|)
  {
    FirstOnesMeaning(matches);
    OnlyTheSetMatters(lines, FirstOnes(matches), matches, context, |lines|);
  }
}
