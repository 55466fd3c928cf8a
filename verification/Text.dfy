/** The string operations the text edits are made of. */
module Text {

  /** unicode.IsSpace. */
  predicate IsSpace(c: char) {
    var n := c as int;
    9 <= n <= 13 || n == 0x20 || n == 0x85 || n == 0xA0 || n == 0x1680 || 0x2000 <= n <= 0x200A
    || n == 0x2028 || n == 0x2029 || n == 0x202F || n == 0x205F || n == 0x3000
  }

  // ----- strings.ToLower, on ASCII letters -----

  function LowerChar(c: char): char {
    if 'A' <= c <= 'Z' then c - 'A' + 'a' else c
  }

  function Lower(s: string): (r: string)
    ensures |r| == |s|
  {
    seq(|s|, i requires 0 <= i < |s| => LowerChar(s[i]))
  }

  /** Lower-casing leaves no capital letter, moves each to its small one, and keeps every other character. */
  lemma LowerMeaning(s: string, i: nat)
    requires i < |s|
    ensures !('A' <= Lower(s)[i] <= 'Z')
    ensures Lower(s)[i] != s[i] ==> 'a' <= Lower(s)[i] <= 'z' && 'A' <= s[i] <= 'Z' && Lower(s)[i] - 'a' == s[i] - 'A'
  {
  }

  // ----- strings.TrimLeft, TrimRight, TrimSpace -----

  function TrimLeft(s: string, cut: char -> bool): (r: string)
    ensures |r| <= |s|
  {
    if s == "" || !cut(s[0]) then s else TrimLeft(s[1..], cut)
  }

  function TrimRight(s: string, cut: char -> bool): (r: string)
    ensures |r| <= |s|
  {
    if s == "" || !cut(s[|s| - 1]) then s else TrimRight(s[..|s| - 1], cut)
  }

  function TrimSpace(s: string): string {
    TrimRight(TrimLeft(s, IsSpace), IsSpace)
  }

  lemma Assoc(a: string, b: string, c: string)
    ensures a + b + c == a + (b + c)
  {
  }

  // ----- strings.Index, Contains, HasPrefix, HasSuffix -----

  predicate HasPrefix(s: string, p: string) {
    p <= s
  }

  predicate HasSuffix(s: string, p: string) {
    |p| <= |s| && s[|s| - |p|..] == p
  }

  /** sub stands at position i of s. */
  predicate At(s: string, sub: string, i: int) {
    0 <= i <= |s| - |sub| && s[i..i + |sub|] == sub
  }

  /** The first position of sub in s, or -1. */
  function Index(s: string, sub: string): int {
    IndexFrom(s, sub, 0)
  }

  function IndexFrom(s: string, sub: string, i: nat): (r: int)
    requires i <= |s|
    ensures r == -1 || (i <= r && r + |sub| <= |s|)
    decreases |s| - i
  {
    if At(s, sub, i) then i else if i == |s| then -1 else IndexFrom(s, sub, i + 1)
  }

  lemma {:induction false} IndexFromMeaning(s: string, sub: string, i: nat)
    requires i <= |s|
    ensures var r := IndexFrom(s, sub, i);
            && (r >= 0 ==> At(s, sub, r) && forall j :: i <= j < r ==> !At(s, sub, j))
            && (r < 0 ==> forall j :: i <= j ==> !At(s, sub, j))
    decreases |s| - i
  {
    if !At(s, sub, i) && i < |s| {
      IndexFromMeaning(s, sub, i + 1);
    }
  }

  /** Index finds the first occurrence if there is any. */
  lemma IndexMeaning(s: string, sub: string)
    ensures Index(s, sub) >= 0 ==> At(s, sub, Index(s, sub)) && forall i :: 0 <= i < Index(s, sub) ==> !At(s, sub, i)
    ensures Index(s, sub) < 0 ==> forall i :: !At(s, sub, i)
  {
    IndexFromMeaning(s, sub, 0);
  }

  /** The position found is the only one that fits the description. */
  lemma IndexIs(s: string, sub: string, i: int)
    requires At(s, sub, i) && forall j :: 0 <= j < i ==> !At(s, sub, j)
    ensures Index(s, sub) == i
  {
    IndexMeaning(s, sub);
  }

  lemma AtChar(s: string, sub: string, i: int, k: nat)
    requires At(s, sub, i) && k < |sub|
    ensures s[i + k] == sub[k]
  {
    assert s[i..i + |sub|][k] == s[i + k];
  }

  /** A text that lacks a character of sub does not contain it. */
  lemma LacksChar(s: string, sub: string, c: char)
    requires c in sub && c !in s
    ensures Index(s, sub) == -1
  {
    IndexMeaning(s, sub);
    var k :| 0 <= k < |sub| && sub[k] == c;
    forall i | At(s, sub, i) ensures false {
      AtChar(s, sub, i, k);
    }
  }

  lemma SliceOfTail(text: string, s: nat, i: nat, n: nat)
    requires s + i + n <= |text|
    ensures text[s..][i..i + n] == text[s + i..s + i + n]
  {
  }

  predicate Contains(s: string, sub: string) {
    Index(s, sub) >= 0
  }

  // ----- strings.Fields -----

  /** The first word of a text; "" if it holds only spaces. */
  function FirstField(s: string): string {
    TakeWord(TrimLeft(s, IsSpace))
  }

  function TakeWord(s: string): (r: string)
    ensures r <= s && forall c :: c in r ==> !IsSpace(c)
  {
    if s == "" || IsSpace(s[0]) then "" else [s[0]] + TakeWord(s[1..])
  }

  predicate Blank(s: string) {
    forall c :: c in s ==> IsSpace(c)
  }

  lemma {:induction false} TrimLeftCutsBlanks(s: string)
    ensures var r := TrimLeft(s, IsSpace);
      s[|s| - |r|..] == r && Blank(s[..|s| - |r|]) && (r != "" ==> !IsSpace(r[0]))
  {
    if s != "" && IsSpace(s[0]) {
      TrimLeftCutsBlanks(s[1..]);
      var k := |s| - |TrimLeft(s, IsSpace)|;
      assert s[..k] == [s[0]] + s[1..][..k - 1];
    }
  }

  lemma {:induction false} TakeWordStops(s: string)
    ensures |TakeWord(s)| < |s| ==> IsSpace(s[|TakeWord(s)|])
  {
    if s != "" && !IsSpace(s[0]) {
      TakeWordStops(s[1..]);
    }
  }

  /** The first word stands behind blanks only, holds none, and is followed by one or by nothing; there is none exactly in
      a blank text. */
  lemma FirstFieldMeaning(s: string) returns (i: nat)
    ensures var w := FirstField(s);
      && i + |w| <= |s| && s[i..i + |w|] == w && Blank(s[..i]) && (forall c :: c in w ==> !IsSpace(c))
      && (i + |w| < |s| ==> IsSpace(s[i + |w|]))
      && (w == "" <==> Blank(s))
  {
    var rest := TrimLeft(s, IsSpace);
    TrimLeftCutsBlanks(s);
    TakeWordStops(rest);
    i := |s| - |rest|;
    var w := FirstField(s);
    assert s[i..i + |w|] == rest[..|w|] == w;
    if w == "" {
      assert rest == "";
      assert s[..i] == s;
    } else {
      assert s[i] == rest[0] && s[i] in s;
    }
  }

  // ----- strings.Split and strings.Join, at newlines -----

  function Lines(s: string): (r: seq<string>)
    ensures r != []
  {
    if s == "" then [""]
    else if s[0] == '\n' then [""] + Lines(s[1..])
    else var rest := Lines(s[1..]); [[s[0]] + rest[0]] + rest[1..]
  }

  lemma {:induction false} NoNewlineInLines(s: string)
    ensures forall l :: l in Lines(s) ==> '\n' !in l
  {
    if s != "" {
      NoNewlineInLines(s[1..]);
      assert Lines(s[1..])[0] in Lines(s[1..]);
    }
  }

  function Join(ls: seq<string>): string {
    if ls == [] then "" else if |ls| == 1 then ls[0] else ls[0] + "\n" + Join(ls[1..])
  }

  lemma LinesCons(c: char, t: string)
    ensures Lines([c] + t) == if c == '\n' then [""] + Lines(t) else [[c] + Lines(t)[0]] + Lines(t)[1..]
  {
    assert ([c] + t)[1..] == t;
  }

  lemma JoinHead(c: char, l: string, rest: seq<string>)
    ensures Join([[c] + l] + rest) == [c] + Join([l] + rest)
  {
    assert ([[c] + l] + rest)[1..] == rest && ([l] + rest)[1..] == rest;
    if rest != [] {
      assert ([c] + l) + "\n" + Join(rest) == [c] + (l + "\n" + Join(rest));
    }
  }

  lemma {:induction false} JoinLines(s: string)
    ensures Join(Lines(s)) == s
  {
    if s != "" {
      var c, t := s[0], s[1..];
      JoinLines(t);
      assert s == [c] + t;
      LinesCons(c, t);
      if c == '\n' {
        assert ([""] + Lines(t))[1..] == Lines(t);
      } else {
        JoinHead(c, Lines(t)[0], Lines(t)[1..]);
        assert [Lines(t)[0]] + Lines(t)[1..] == Lines(t);
      }
    }
  }

  lemma {:induction false} LinesOfLine(l: string)
    requires '\n' !in l
    ensures Lines(l) == [l]
  {
    if l != "" {
      LinesOfLine(l[1..]);
      assert [l[0]] + l[1..] == l;
    }
  }

  function Cons(c: char, ls: seq<string>): seq<string>
    requires ls != []
  {
    if c == '\n' then [""] + ls else [[c] + ls[0]] + ls[1..]
  }

  lemma ConsAppend(c: char, a: seq<string>, b: seq<string>)
    requires a != []
    ensures Cons(c, a + b) == Cons(c, a) + b
  {
    assert (a + b)[0] == a[0] && (a + b)[1..] == a[1..] + b;
  }

  lemma LinesJoinStep(c: char, t: string, b: string, rest: string)
    requires Lines(rest) == Lines(t) + Lines(b)
    ensures Lines([c] + rest) == Lines([c] + t) + Lines(b)
  {
    LinesCons(c, rest);
    LinesCons(c, t);
    ConsAppend(c, Lines(t), Lines(b));
  }

  /** A newline separates lines. */
  lemma {:induction false} LinesJoin(a: string, b: string)
    ensures Lines(a + "\n" + b) == Lines(a) + Lines(b)
  {
    if a == "" {
      LinesCons('\n', b);
      assert a + "\n" + b == ['\n'] + b;
    } else {
      LinesJoin(a[1..], b);
      LinesJoinStep(a[0], a[1..], b, a[1..] + "\n" + b);
      assert a + "\n" + b == [a[0]] + (a[1..] + "\n" + b);
      assert a == [a[0]] + a[1..];
    }
  }

  lemma {:induction false} LinesOfJoin(ls: seq<string>)
    requires ls != [] && forall l :: l in ls ==> '\n' !in l
    ensures Lines(Join(ls)) == ls
  {
    if |ls| == 1 {
      LinesOfLine(ls[0]);
    } else {
      LinesOfJoin(ls[1..]);
      LinesOfLine(ls[0]);
      LinesJoin(ls[0], Join(ls[1..]));
    }
  }

  // ----- More about positions -----

  /** Two texts that agree up to the end of the first occurrence in one have it in the same place. */
  lemma IndexAgree(a: string, b: string, sub: string, k: int)
    requires Index(a, sub) == k >= 0 && k + |sub| <= |b|
    requires forall i :: 0 <= i < k + |sub| ==> i < |a| && a[i] == b[i]
    ensures Index(b, sub) == k
  {
    IndexMeaning(a, sub);
    assert b[k..k + |sub|] == a[k..k + |sub|];
    forall i | 0 <= i < k ensures !At(b, sub, i) {
      assert !At(a, sub, i);
      assert b[i..i + |sub|] == a[i..i + |sub|];
    }
    IndexIs(b, sub, k);
  }

  lemma IndexPrefix(a: string, b: string, sub: string)
    requires Index(a, sub) >= 0
    ensures Index(a + b, sub) == Index(a, sub)
  {
    IndexAgree(a, a + b, sub, Index(a, sub));
  }

  /** A text without newlines does not reach across one. */
  lemma NoStraddle(a: string, b: string, sub: string, j: int)
    requires '\n' !in sub && sub != "" && At(a + ("\n" + b), sub, j)
    ensures At(a, sub, j) || At(b, sub, j - |a| - 1)
  {
    var s := a + ("\n" + b);
    assert s[|a|] == '\n';
    assert forall i :: 0 <= i < |sub| ==> s[j + i] == s[j..j + |sub|][i] == sub[i];
    if j > |a| {
      assert s[j..j + |sub|] == b[j - |a| - 1..j - |a| - 1 + |sub|];
    } else {
      assert j + |sub| <= |a|;
      assert s[j..j + |sub|] == a[j..j + |sub|];
    }
  }

  /** The first occurrence behind a line that has none. */
  lemma IndexBehind(a: string, b: string, sub: string)
    requires '\n' !in sub && sub != "" && Index(a, sub) == -1
    ensures Index(a + ("\n" + b), sub) == if Index(b, sub) >= 0 then |a| + 1 + Index(b, sub) else -1
  {
    var s, k := a + ("\n" + b), Index(b, sub);
    IndexMeaning(a, sub);
    IndexMeaning(b, sub);
    IndexMeaning(s, sub);
    forall i | At(s, sub, i) ensures At(b, sub, i - |a| - 1) {
      NoStraddle(a, b, sub, i);
    }
    if k >= 0 {
      assert s[|a| + 1 + k..|a| + 1 + k + |sub|] == b[k..k + |sub|];
      IndexIs(s, sub, |a| + 1 + k);
    } else {
      assert forall i :: !At(s, sub, i);
    }
  }

  // ----- Trimming -----

  lemma {:induction false} TrimRightAppend(s: string, tail: string, cut: char -> bool)
    requires forall c :: c in tail ==> cut(c)
    ensures TrimRight(s + tail, cut) == TrimRight(s, cut)
  {
    if tail == "" {
      assert s + tail == s;
    } else {
      assert (s + tail)[..|s + tail| - 1] == s + tail[..|tail| - 1];
      assert tail[|tail| - 1] in tail;
      TrimRightAppend(s, tail[..|tail| - 1], cut);
    }
  }

  lemma {:induction false} TrimLeftAppend(s: string, tail: string, cut: char -> bool)
    requires TrimLeft(s, cut) != ""
    ensures TrimLeft(s + tail, cut) == TrimLeft(s, cut) + tail
  {
    if cut(s[0]) {
      TrimLeftAppend(s[1..], tail, cut);
      assert (s + tail)[1..] == s[1..] + tail;
    }
  }

  lemma {:induction false} TrimLeftCuts(s: string, cut: char -> bool, i: nat)
    requires TrimLeft(s, cut) == "" && i < |s|
    ensures cut(s[i])
  {
    if i > 0 {
      TrimLeftCuts(s[1..], cut, i - 1);
    }
  }

  lemma {:induction false} TrimLeftAll(s: string, cut: char -> bool)
    requires forall i :: 0 <= i < |s| ==> cut(s[i])
    ensures TrimLeft(s, cut) == ""
  {
    if s != "" {
      TrimLeftAll(s[1..], cut);
    }
  }

  /** White space at the end does not matter to TrimSpace. */
  lemma TrimSpaceAppend(s: string, tail: string)
    requires forall c :: c in tail ==> IsSpace(c)
    ensures TrimSpace(s + tail) == TrimSpace(s)
  {
    if TrimLeft(s, IsSpace) == "" {
      forall i | 0 <= i < |s + tail| ensures IsSpace((s + tail)[i]) {
        if i < |s| { TrimLeftCuts(s, IsSpace, i); }
      }
      TrimLeftAll(s + tail, IsSpace);
    } else {
      TrimLeftAppend(s, tail, IsSpace);
      TrimRightAppend(TrimLeft(s, IsSpace), tail, IsSpace);
    }
  }

  lemma {:induction false} TrimLeftIsTail(s: string, cut: char -> bool)
    ensures var r := TrimLeft(s, cut); r == s[|s| - |r|..] && (r != "" ==> !cut(r[0]))
  {
    if s != "" && cut(s[0]) {
      TrimLeftIsTail(s[1..], cut);
    }
  }

  lemma {:induction false} TrimRightIsHead(s: string, cut: char -> bool)
    ensures var r := TrimRight(s, cut); r == s[..|r|] && (r != "" ==> !cut(r[|r| - 1]))
  {
    if s != "" && cut(s[|s| - 1]) {
      TrimRightIsHead(s[..|s| - 1], cut);
    }
  }

  lemma TrimSpaceAt(s: string) returns (i: nat)
    ensures At(s, TrimSpace(s), i)
  {
    var left := TrimLeft(s, IsSpace);
    TrimLeftIsTail(s, IsSpace);
    TrimRightIsHead(left, IsSpace);
    i := |s| - |left|;
    assert s[i..i + |TrimSpace(s)|] == left[..|TrimSpace(s)|];
  }

  lemma AtShift(text: string, l: string, j: int)
    requires text != "" && At(text[1..], l, j)
    ensures At(text, l, j + 1)
  {
    assert text[j + 1..j + 1 + |l|] == text[1..][j..j + |l|];
  }

  lemma {:induction false} FirstLineAtStart(text: string)
    ensures |Lines(text)[0]| <= |text| && text[..|Lines(text)[0]|] == Lines(text)[0]
  {
    if text != "" && text[0] != '\n' {
      FirstLineAtStart(text[1..]);
      var l := Lines(text[1..])[0];
      assert text[..1 + |l|] == [text[0]] + text[1..][..|l|];
    }
  }

  /** Every line of a text is part of it. */
  lemma {:induction false} LineAt(text: string, k: nat) returns (i: nat)
    requires k < |Lines(text)|
    ensures At(text, Lines(text)[k], i)
  {
    if k == 0 {
      FirstLineAtStart(text);
      i := 0;
    } else {
      var rest, at := text[1..], if text[0] == '\n' then k - 1 else k;
      assert Lines(text)[k] == Lines(rest)[at];
      var j := LineAt(rest, at);
      AtShift(text, Lines(rest)[at], j);
      i := j + 1;
    }
  }

  lemma AtInside(s: string, t: string, u: string, i: int, j: int)
    requires At(s, t, i) && At(t, u, j)
    ensures At(s, u, i + j)
  {
    forall k | 0 <= k < |u| ensures s[i + j + k] == u[k] {
      assert s[i..i + |t|][j + k] == s[i + j + k] && t[j..j + |u|][k] == t[j + k];
    }
    assert s[i + j..i + j + |u|] == u;
  }

  /** A trimmed line of a text is contained in the text. */
  lemma TrimmedLineContained(text: string, l: string)
    requires l in Lines(text)
    ensures Contains(text, TrimSpace(l))
  {
    var k :| 0 <= k < |Lines(text)| && Lines(text)[k] == l;
    var i := LineAt(text, k);
    var j := TrimSpaceAt(l);
    AtInside(text, l, TrimSpace(l), i, j);
    IndexMeaning(text, TrimSpace(l));
  }

  // ----- What trimming leaves -----

  /** The number of characters that are no white space. */
  function Ink(s: string): nat {
    if s == "" then 0 else (if IsSpace(s[0]) then 0 else 1) + Ink(s[1..])
  }

  lemma {:induction false} InkAppend(a: string, b: string)
    ensures Ink(a + b) == Ink(a) + Ink(b)
  {
    if a == "" {
      assert a + b == b;
    } else {
      assert (a + b)[1..] == a[1..] + b;
      InkAppend(a[1..], b);
    }
  }

  lemma {:induction false} InkTrimLeft(s: string)
    ensures Ink(TrimLeft(s, IsSpace)) == Ink(s)
  {
    if s != "" && IsSpace(s[0]) {
      InkTrimLeft(s[1..]);
    }
  }

  lemma {:induction false} InkTrimRight(s: string)
    ensures Ink(TrimRight(s, IsSpace)) == Ink(s)
  {
    if s != "" && IsSpace(s[|s| - 1]) {
      var init, last := s[..|s| - 1], [s[|s| - 1]];
      assert s == init + last && last[1..] == "";
      InkAppend(init, last);
      InkTrimRight(init);
    }
  }

  /** Trimming removes no ink. */
  lemma InkTrimmed(s: string)
    ensures Ink(TrimSpace(s)) == Ink(s)
  {
    InkTrimLeft(s);
    InkTrimRight(TrimLeft(s, IsSpace));
  }
}
