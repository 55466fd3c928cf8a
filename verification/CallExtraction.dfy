/** Call edges from a syntax tree: a recursive walk with a mutable stack of callers, and what it
    means without a stack. */
module CallExtraction {
  import opened CallEdges
  import opened Wrappers
  import opened Text

  /** A syntax node: its type, its text, its row, and the field of its parent it stands in. */
  datatype Node = Node(kind: string, text: string, row: nat, field: string, children: seq<Node>)

  // ----- Names -----

  const NAME_KINDS: set<string> := {"identifier", "field_identifier", "type_identifier", "property_identifier"}
  const FIRST_KINDS: set<string> := {"identifier", "field_identifier", "type_identifier", "name"}
  const LAST_KINDS: set<string> :=
    {"identifier", "field_identifier", "type_identifier", "property_identifier", "name", "constant", "scoped_identifier"}

  function FirstOfKind(ns: seq<Node>, kinds: set<string>): Option<Node> {
    if ns == [] then None else if ns[0].kind in kinds then Some(ns[0]) else FirstOfKind(ns[1..], kinds)
  }

  function LastOfKind(ns: seq<Node>, kinds: set<string>): Option<Node> {
    if ns == [] then None
    else if ns[|ns| - 1].kind in kinds then Some(ns[|ns| - 1])
    else LastOfKind(ns[..|ns| - 1], kinds)
  }

  function ByField(ns: seq<Node>, field: string): Option<Node> {
    if ns == [] then None else if ns[0].field == field then Some(ns[0]) else ByField(ns[1..], field)
  }

  function NameFromChild(n: Node): string {
    match FirstOfKind(n.children, NAME_KINDS)
    case Some(c) => c.text
    case None => if FirstField(n.text) != "" then FirstField(n.text) else "unknown"
  }

  function CallName(n: Node): string {
    if n.children == [] then ""
    else
      var fn := n.children[0];
      if fn.kind == "identifier" then fn.text
      else
        var kinds := if fn.kind == "attribute" then {"identifier", "property_identifier"}
                     else if fn.kind == "selector_expression" then {"identifier", "field_identifier", "property_identifier"}
                     else {};
        match LastOfKind(fn.children, kinds)
        case Some(c) => c.text
        case None => ""
  }

  function FirstIdentifier(n: Node): string {
    if n.kind in FIRST_KINDS then n.text else FirstAmong(n, 0)
  }

  function FirstAmong(n: Node, i: nat): string
    requires i <= |n.children|
    decreases n, |n.children| - i
  {
    if i == |n.children| then ""
    else if FirstIdentifier(n.children[i]) != "" then FirstIdentifier(n.children[i])
    else FirstAmong(n, i + 1)
  }

  function GenericName(n: Node): string {
    match ByField(n.children, "name")
    case Some(c) => c.text
    case None =>
      match ByField(n.children, "declarator")
      case Some(d) => if FirstIdentifier(d) != "" then FirstIdentifier(d) else NameFromChild(n)
      case None => NameFromChild(n)
  }

  // ----- What the names are -----

  predicate IsNameKind(kind: string) {
    kind == "identifier" || kind == "field_identifier" || kind == "type_identifier" || kind == "property_identifier"
  }

  /** Child i is the first one of a kind that names. */
  ghost predicate FirstNamed(n: Node, i: int) {
    0 <= i < |n.children| && IsNameKind(n.children[i].kind) && forall j :: 0 <= j < i ==> !IsNameKind(n.children[j].kind)
  }

  ghost predicate NoneNamed(n: Node) {
    forall i :: 0 <= i < |n.children| ==> !IsNameKind(n.children[i].kind)
  }

  /** The first node with a property; |ns| if none has it. */
  lemma {:induction false} FirstIndex(ns: seq<Node>, p: Node -> bool) returns (i: nat)
    ensures i <= |ns| && (i < |ns| ==> p(ns[i])) && forall j :: 0 <= j < i ==> !p(ns[j])
  {
    if ns == [] || p(ns[0]) {
      i := 0;
    } else {
      i := FirstIndex(ns[1..], p);
      i := i + 1;
    }
  }

  lemma {:induction false} FirstOfKindAt(ns: seq<Node>, kinds: set<string>, i: nat)
    requires i <= |ns| && (i < |ns| ==> ns[i].kind in kinds) && forall j :: 0 <= j < i ==> ns[j].kind !in kinds
    ensures FirstOfKind(ns, kinds) == if i < |ns| then Some(ns[i]) else None
  {
    if i > 0 {
      FirstOfKindAt(ns[1..], kinds, i - 1);
    }
  }

  lemma {:induction false} ByFieldAt(ns: seq<Node>, field: string, i: nat)
    requires i <= |ns| && (i < |ns| ==> ns[i].field == field) && forall j :: 0 <= j < i ==> ns[j].field != field
    ensures ByField(ns, field) == if i < |ns| then Some(ns[i]) else None
  {
    if i > 0 {
      ByFieldAt(ns[1..], field, i - 1);
    }
  }

  /** A declaration is named by the text of its first naming child; only without one by the first word of its own text,
      and without that it is called "unknown". */
  lemma NameFromChildMeaning(n: Node, i: int)
    ensures FirstNamed(n, i) ==> NameFromChild(n) == n.children[i].text
    ensures NoneNamed(n) ==> NameFromChild(n) == if Blank(n.text) then "unknown" else FirstField(n.text)
    ensures NoneNamed(n) || exists j :: FirstNamed(n, j)
  {
    var k := FirstIndex(n.children, (c: Node) => IsNameKind(c.kind));
    forall kind ensures kind in NAME_KINDS <==> IsNameKind(kind) {
    }
    FirstOfKindAt(n.children, NAME_KINDS, k);
    var _ := FirstFieldMeaning(n.text);
    assert k < |n.children| ==> FirstNamed(n, k);
  }

  /** Child i is the first one in this field. */
  ghost predicate InField(n: Node, field: string, i: int) {
    0 <= i < |n.children| && n.children[i].field == field && forall j :: 0 <= j < i ==> n.children[j].field != field
  }

  ghost predicate NoField(n: Node, field: string) {
    forall i :: 0 <= i < |n.children| ==> n.children[i].field != field
  }

  /** In a table-driven language a declaration is named by its name field; without one by the first identifier of its
      declarator; and without that like the others. */
  lemma GenericNameMeaning(n: Node, i: int)
    ensures InField(n, "name", i) ==> GenericName(n) == n.children[i].text
    ensures NoField(n, "name") && InField(n, "declarator", i) && FirstIdentifier(n.children[i]) != ""
      ==> GenericName(n) == FirstIdentifier(n.children[i])
    ensures NoField(n, "name") && InField(n, "declarator", i) && FirstIdentifier(n.children[i]) == ""
      ==> GenericName(n) == NameFromChild(n)
    ensures NoField(n, "name") && NoField(n, "declarator") ==> GenericName(n) == NameFromChild(n)
  {
    var named := FirstIndex(n.children, (c: Node) => c.field == "name");
    ByFieldAt(n.children, "name", named);
    var declared := FirstIndex(n.children, (c: Node) => c.field == "declarator");
    ByFieldAt(n.children, "declarator", declared);
  }

  /** The last identifier of what stands in this field. */
  ghost predicate FieldSays(n: Node, field: string, name: string) {
    name != "" && exists i :: InField(n, field, i) && LastIdentifier(n.children[i]) == name
  }

  ghost predicate Silent(n: Node, field: string) {
    forall i :: InField(n, field, i) ==> LastIdentifier(n.children[i]) == ""
  }

  /** There a call is named by the last identifier of its function field, else of its name field, else of its
      constructor field. */
  lemma GenericCalleeMeaning(n: Node, name: string)
    requires name != ""
    ensures GenericCallee(n) == name <==>
      || FieldSays(n, "function", name)
      || (Silent(n, "function") && FieldSays(n, "name", name))
      || (Silent(n, "function") && Silent(n, "name") && FieldSays(n, "constructor", name))
  {
    FieldValue(n, "function", name);
    FieldValue(n, "name", name);
    FieldValue(n, "constructor", name);
  }

  lemma FieldValue(n: Node, field: string, name: string)
    ensures var c := ByField(n.children, field);
      && (FieldSays(n, field, name) <==> name != "" && c.Some? && LastIdentifier(c.value) == name)
      && (Silent(n, field) <==> c.None? || LastIdentifier(c.value) == "")
  {
    var i := FirstIndex(n.children, (c: Node) => c.field == field);
    ByFieldAt(n.children, field, i);
    assert i < |n.children| ==> InField(n, field, i);
  }

  /** The last position of sub in s, or -1. */
  method LastIndex(s: string, sub: string) returns (r: int)
    ensures -1 <= r
    ensures r >= 0 ==> At(s, sub, r)
    ensures forall i :: i > r ==> !At(s, sub, i)
  {
    var i := |s| - |sub|;
    while i >= 0
      invariant -1 <= i || i == |s| - |sub|
      invariant forall j :: j > i ==> !At(s, sub, j)
    {
      if s[i..i + |sub|] == sub {
        return i;
      }
      i := i - 1;
    }
    return -1;
  }

  ghost predicate Free(s: string, sep: string) {
    forall i :: !At(s, sep, i)
  }

  /** What follows the last occurrence of sep before position i; all of s if there is none. */
  function AfterLast(s: string, sep: string, i: nat): string
    requires i <= |s|
  {
    if i == 0 then s
    else if At(s, sep, i - 1) then s[i - 1 + |sep|..]
    else AfterLast(s, sep, i - 1)
  }

  lemma AtTail(s: string, r: string, sep: string, j: int)
    requires |r| <= |s| && s[|s| - |r|..] == r && At(r, sep, j)
    ensures At(s, sep, |s| - |r| + j)
  {
    var k := |s| - |r| + j;
    assert s[k..k + |sep|] == r[j..j + |sep|];
  }

  lemma {:induction false} AfterLastIsFree(s: string, sep: string, i: nat)
    requires sep != "" && i <= |s| && forall j :: i <= j ==> !At(s, sep, j)
    ensures var r := AfterLast(s, sep, i); |r| <= |s| && s[|s| - |r|..] == r && Free(r, sep)
  {
    if i > 0 {
      var r := AfterLast(s, sep, i);
      if At(s, sep, i - 1) {
        forall j ensures !At(r, sep, j) {
          if At(r, sep, j) { AtTail(s, r, sep, j); }
        }
      } else {
        AfterLastIsFree(s, sep, i - 1);
      }
    }
  }

  lemma TailIsFree(s: string, r: string, sep: string)
    requires |r| <= |s| && s[|s| - |r|..] == r && Free(s, sep)
    ensures Free(r, sep)
  {
    forall j ensures !At(r, sep, j) {
      if At(r, sep, j) { AtTail(s, r, sep, j); }
    }
  }

  /** The last segment of a qualified name. */
  function LastSegment(name: string): string {
    var a := AfterLast(name, "::", |name|);
    var b := AfterLast(a, ".", |a|);
    AfterLast(b, "\\", |b|)
  }

  lemma OneCut(s: string, sep: string) returns (r: string)
    requires sep != ""
    ensures r == AfterLast(s, sep, |s|) && Free(r, sep)
    ensures |r| <= |s| && s[|s| - |r|..] == r
    ensures forall other :: Free(s, other) ==> Free(r, other)
  {
    r := AfterLast(s, sep, |s|);
    AfterLastIsFree(s, sep, |s|);
    forall other | Free(s, other) ensures Free(r, other) { TailIsFree(s, r, other); }
  }

  /** No separator is left in the last segment, which is the end of the name. */
  lemma LastSegmentIsFree(name: string)
    ensures var r := LastSegment(name);
            Free(r, "::") && Free(r, ".") && Free(r, "\\") && |r| <= |name| && name[|name| - |r|..] == r
  {
    var a := OneCut(name, "::");
    var b := OneCut(a, ".");
    var c := OneCut(b, "\\");
    assert name[|name| - |c|..] == c by {
      assert name[|name| - |a|..] == a && a[|a| - |b|..] == b && b[|b| - |c|..] == c;
    }
  }

  predicate EndOf(s: string, r: string) {
    |r| <= |s| && s[|s| - |r|..] == r
  }

  lemma {:induction false} AfterLastIsBehind(s: string, sep: string, i: nat)
    requires i <= |s|
    ensures var r := AfterLast(s, sep, i); EndOf(s, r) && (r == s || At(s, sep, |s| - |r| - |sep|))
  {
    if i > 0 && At(s, sep, i - 1) {
    } else if i > 0 {
      AfterLastIsBehind(s, sep, i - 1);
    } else {
      assert s[0..] == s;
    }
  }

  /** r is the whole name, or stands right behind one of the separators. */
  ghost predicate Behind(name: string, r: string, seps: set<string>) {
    EndOf(name, r) && (r == name || exists sep :: sep in seps && At(name, sep, |name| - |r| - |sep|))
  }

  lemma EndOfEnd(s: string, a: string, b: string)
    requires EndOf(s, a) && EndOf(a, b)
    ensures EndOf(s, b)
  {
    assert s[|s| - |b|..] == a[|a| - |b|..];
  }

  lemma StaysBehind(name: string, a: string, r: string, sep: string, seps: set<string>)
    requires Behind(name, a, seps) && sep in seps && EndOf(a, r)
    requires r == a || At(a, sep, |a| - |r| - |sep|)
    ensures Behind(name, r, seps)
  {
    EndOfEnd(name, a, r);
    if r != a {
      AtTail(name, a, sep, |a| - |r| - |sep|);
      assert At(name, sep, |name| - |r| - |sep|);
    }
  }

  lemma CutStaysBehind(name: string, a: string, sep: string, seps: set<string>)
    requires Behind(name, a, seps) && sep in seps
    ensures Behind(name, AfterLast(a, sep, |a|), seps)
  {
    AfterLastIsBehind(a, sep, |a|);
    StaysBehind(name, a, AfterLast(a, sep, |a|), sep, seps);
  }

  /** And it is the whole name, or stands right behind a separator. */
  lemma LastSegmentIsBehind(name: string)
    ensures Behind(name, LastSegment(name), {"::", ".", "\\"})
  {
    var seps := {"::", ".", "\\"};
    var a := AfterLast(name, "::", |name|);
    var b := AfterLast(a, ".", |a|);
    assert name[0..] == name;
    CutStaysBehind(name, name, "::", seps);
    CutStaysBehind(name, a, ".", seps);
    CutStaysBehind(name, b, "\\", seps);
  }

  /** One round of the separator loop in lastIdentifier. */
  method CutAfterLast(txt: string, sep: string) returns (r: string)
    requires sep != ""
    ensures r == AfterLast(txt, sep, |txt|)
  {
    var i := LastIndex(txt, sep);
    AfterLastIs(txt, sep, i, |txt|);
    r := if i >= 0 then txt[i + |sep|..] else txt;
  }

  method CutToLastSegment(name: string) returns (txt: string)
    ensures txt == LastSegment(name)
  {
    txt := CutAfterLast(name, "::");
    txt := CutAfterLast(txt, ".");
    txt := CutAfterLast(txt, "\\");
  }

  lemma {:induction false} AfterLastIs(s: string, sep: string, i: int, k: nat)
    requires sep != "" && -1 <= i && (i < k || i == -1) && (i >= 0 ==> At(s, sep, i)) && forall j :: j > i ==> !At(s, sep, j)
    requires k <= |s|
    ensures AfterLast(s, sep, k) == if i >= 0 then s[i + |sep|..] else s
    decreases k
  {
    if k > 0 && k - 1 > i {
      AfterLastIs(s, sep, i, k - 1);
    }
  }

  function LastIdentifier(n: Node): string {
    if n.kind in LAST_KINDS then LastSegment(n.text) else LastAmong(n, |n.children|)
  }

  /** The last non-empty identifier of the first i children. */
  function LastAmong(n: Node, i: nat): string
    requires i <= |n.children|
    decreases n, i
  {
    if i == 0 then ""
    else if LastIdentifier(n.children[i - 1]) != "" then LastIdentifier(n.children[i - 1])
    else LastAmong(n, i - 1)
  }

  function GenericCallee(n: Node): string {
    var f := ByField(n.children, "function");
    var m := ByField(n.children, "name");
    var c := ByField(n.children, "constructor");
    if f.Some? && LastIdentifier(f.value) != "" then LastIdentifier(f.value)
    else if m.Some? && LastIdentifier(m.value) != "" then LastIdentifier(m.value)
    else if c.Some? then LastIdentifier(c.value)
    else ""
  }

  // ----- Grammars -----

  /** The node types a walk looks for. The walks for Go, Python, JavaScript and TypeScript resolve names
      from child types and skip some subtrees; the spec-driven one resolves them from fields. */
  datatype Grammar =
    | Bespoke(language: string, funcs: set<string>, calls: set<string>, skipped: set<string>)
    | SpecDriven(language: string, funcs: set<string>, calls: set<string>)

  const GO := Bespoke("go", {"function_declaration", "method_declaration"}, {"call_expression"}, {})
  const PYTHON := Bespoke("python", {"function_definition"}, {"call"}, {})
  const JAVASCRIPT :=
    Bespoke("javascript", {"function_declaration", "method_definition"}, {"call_expression"}, {"arrow_function"})
  const TYPESCRIPT := JAVASCRIPT.(language := "typescript")

  predicate Skips(g: Grammar, n: Node) {
    g.Bespoke? && n.kind in g.skipped && n.kind !in g.funcs
  }

  /** The scope name n opens; "" if it opens none. */
  function Opens(g: Grammar, n: Node): string {
    if n.kind !in g.funcs then "" else if g.Bespoke? then NameFromChild(n) else GenericName(n)
  }

  /** The name n calls; "" if it is no call or the name cannot be resolved. */
  function Calls(g: Grammar, n: Node): string {
    if n.kind !in g.calls || Opens(g, n) != "" || (g.Bespoke? && n.kind in g.funcs) then ""
    else if g.Bespoke? then CallName(n) else GenericCallee(n)
  }

  function EdgesHere(g: Grammar, n: Node, caller: string): seq<CallEdge> {
    if caller != "" && Calls(g, n) != "" then [CallEdge(caller, Calls(g, n), n.row + 1, g.language)] else []
  }

  /** The edges of a subtree inside the scope `caller`. */
  function Edges(g: Grammar, n: Node, caller: string): seq<CallEdge>
    decreases n, |n.children| + 1
  {
    if Skips(g, n) then []
    else if Opens(g, n) != "" then EdgesBelow(g, n, |n.children|, Opens(g, n))
    else EdgesHere(g, n, caller) + EdgesBelow(g, n, |n.children|, caller)
  }

  /** The edges of the first i children. */
  function EdgesBelow(g: Grammar, n: Node, i: nat, caller: string): seq<CallEdge>
    requires i <= |n.children|
    decreases n, i
  {
    if i == 0 then [] else EdgesBelow(g, n, i - 1, caller) + Edges(g, n.children[i - 1], caller)
  }

  // ----- The walks -----

  function Top(stack: seq<string>): string {
    if stack == [] then "" else stack[|stack| - 1]
  }

  lemma JoinAssoc(a: seq<CallEdge>, b: seq<CallEdge>, c: seq<CallEdge>)
    ensures (a + b) + c == a + (b + c)
  {
  }

  /** The variables the recursive closure captures. */
  class Extractor {
    const g: Grammar
    var edges: seq<CallEdge>
    var callerStack: seq<string>

    constructor (g: Grammar)
      ensures this.g == g && edges == [] && callerStack == []
    {
      this.g, edges, callerStack := g, [], [];
    }

    method WalkChildren(n: Node)
      requires "" !in callerStack
      modifies this
      ensures callerStack == old(callerStack)
      ensures edges == old(edges) + EdgesBelow(g, n, |n.children|, Top(old(callerStack)))
      decreases n, 0
    {
      ghost var caller, before := Top(callerStack), edges;
      for i := 0 to |n.children|
        invariant callerStack == old(callerStack)
        invariant edges == before + EdgesBelow(g, n, i, caller)
      {
        ghost var left := EdgesBelow(g, n, i, caller);
        Walk(n.children[i]);
        JoinAssoc(before, left, Edges(g, n.children[i], caller));
      }
    }

    method Walk(n: Node)
      requires "" !in callerStack
      modifies this
      ensures callerStack == old(callerStack)
      ensures edges == old(edges) + Edges(g, n, Top(old(callerStack)))
      decreases n, 2
    {
      match g {
        case Bespoke(_, _, _, _) => WalkBespoke(n);
        case SpecDriven(_, _, _) => WalkSpecDriven(n);
      }
    }

    /** extractGoCalls, extractPythonCalls, extractJSTSCalls. */
    method WalkBespoke(n: Node)
      requires g.Bespoke? && "" !in callerStack
      modifies this
      ensures callerStack == old(callerStack)
      ensures edges == old(edges) + Edges(g, n, Top(old(callerStack)))
      decreases n, 1
    {
      if n.kind in g.funcs {
        var name := NameFromChild(n);
        if name != "" {
          callerStack := callerStack + [name];
        }
        WalkChildren(n);
        if name != "" {
          callerStack := callerStack[..|callerStack| - 1];
        }
        return;
      }
      if n.kind in g.skipped {
        return;
      }
      if n.kind in g.calls && |callerStack| > 0 {
        var callee := CallName(n);
        if callee != "" {
          var caller := callerStack[|callerStack| - 1];
          edges := edges + [CallEdge(caller, callee, n.row + 1, g.language)];
        }
      }
      ghost var scope := Top(callerStack);
      assert edges == old(edges) + EdgesHere(g, n, scope);
      WalkChildren(n);
      JoinAssoc(old(edges), EdgesHere(g, n, scope), EdgesBelow(g, n, |n.children|, scope));
    }

    /** extractGenericCalls. */
    method WalkSpecDriven(n: Node)
      requires g.SpecDriven? && "" !in callerStack
      modifies this
      ensures callerStack == old(callerStack)
      ensures edges == old(edges) + Edges(g, n, Top(old(callerStack)))
      decreases n, 1
    {
      if n.kind in g.funcs {
        var name := GenericName(n);
        if name != "" {
          callerStack := callerStack + [name];
          WalkChildren(n);
          callerStack := callerStack[..|callerStack| - 1];
          return;
        }
      }
      if n.kind in g.calls && |callerStack| > 0 {
        var callee := GenericCallee(n);
        if callee != "" {
          edges := edges + [CallEdge(callerStack[|callerStack| - 1], callee, n.row + 1, g.language)];
        }
      }
      ghost var scope := Top(callerStack);
      assert edges == old(edges) + EdgesHere(g, n, scope);
      WalkChildren(n);
      JoinAssoc(old(edges), EdgesHere(g, n, scope), EdgesBelow(g, n, |n.children|, scope));
    }
  }
}
