/** The edges of the stack-based walk, stated without a stack: one look at every position of the
    tree in preorder, labelled by the nearest enclosing function. */
module CallMeaning {
  import opened CallEdges
  import opened CallExtraction
  import opened Text
  import opened Wrappers

  /** A position: the child indices on the way down from the root. */
  type Pos = seq<nat>

  predicate Valid(n: Node, p: Pos) {
    p == [] || (p[0] < |n.children| && Valid(n.children[p[0]], p[1..]))
  }

  function NodeAt(n: Node, p: Pos): Node
    requires Valid(n, p)
  {
    if p == [] then n else NodeAt(n.children[p[0]], p[1..])
  }

  lemma {:induction false} PrefixValid(n: Node, p: Pos, k: nat)
    requires Valid(n, p) && k <= |p|
    ensures Valid(n, p[..k])
  {
    if k > 0 {
      PrefixValid(n.children[p[0]], p[1..], k - 1);
      assert p[..k][1..] == p[1..][..k - 1];
    }
  }

  /** The ancestor k levels below the root on the way to p. */
  function Ancestor(n: Node, p: Pos, k: nat): Node
    requires Valid(n, p) && k <= |p|
  {
    PrefixValid(n, p, k);
    NodeAt(n, p[..k])
  }

  lemma AncestorBelow(n: Node, p: Pos, k: nat)
    requires Valid(n, p) && 0 < k <= |p|
    ensures Ancestor(n, p, k) == Ancestor(n.children[p[0]], p[1..], k - 1)
  {
    PrefixValid(n, p, k);
    assert p[..k][1..] == p[1..][..k - 1];
  }

  /** The name of the nearest ancestor above level k that opens a scope; "" if there is none. */
  function Nearest(g: Grammar, n: Node, p: Pos, k: nat): (r: string)
    requires Valid(n, p) && k <= |p|
    ensures r == "" ==> forall j :: 0 <= j < k ==> Opens(g, Ancestor(n, p, j)) == ""
    ensures r != "" ==> exists j :: 0 <= j < k && r == Opens(g, Ancestor(n, p, j))
                                 && forall i :: j < i < k ==> Opens(g, Ancestor(n, p, i)) == ""
  {
    if k == 0 then ""
    else if Opens(g, Ancestor(n, p, k - 1)) != "" then Opens(g, Ancestor(n, p, k - 1))
    else Nearest(g, n, p, k - 1)
  }

  /** p lies in a subtree the walk does not enter. */
  ghost predicate Hidden(g: Grammar, n: Node, p: Pos)
    requires Valid(n, p)
  {
    exists k :: 0 <= k <= |p| && Skips(g, Ancestor(n, p, k))
  }

  /** The edge position p contributes. */
  ghost function EdgeAt(g: Grammar, n: Node, p: Pos): seq<CallEdge>
    requires Valid(n, p)
  {
    if Hidden(g, n, p) then [] else EdgesHere(g, NodeAt(n, p), Nearest(g, n, p, |p|))
  }

  // ----- All positions, in preorder -----

  function Under(i: nat, ps: seq<Pos>): seq<Pos> {
    seq(|ps|, k requires 0 <= k < |ps| => [i] + ps[k])
  }

  function Positions(n: Node): seq<Pos>
    decreases n, |n.children| + 1
  {
    [[]] + PositionsBelow(n, |n.children|)
  }

  function PositionsBelow(n: Node, i: nat): seq<Pos>
    requires i <= |n.children|
    decreases n, i
  {
    if i == 0 then [] else PositionsBelow(n, i - 1) + Under(i - 1, Positions(n.children[i - 1]))
  }

  /** p comes before q: it is an ancestor of q, or they part with p to the left. */
  predicate Before(p: Pos, q: Pos) {
    q != [] && (p == [] || p[0] < q[0] || (p[0] == q[0] && Before(p[1..], q[1..])))
  }

  ghost predicate Ordered(ps: seq<Pos>) {
    forall i, j :: 0 <= i < j < |ps| ==> Before(ps[i], ps[j])
  }

  lemma {:induction false} NeverBeforeItself(p: Pos)
    ensures !Before(p, p)
  {
    if p != [] { NeverBeforeItself(p[1..]); }
  }

  /** Every position of the tree is listed, each once, in preorder. */
  lemma {:induction false} PositionsComplete(n: Node, p: Pos)
    ensures p in Positions(n) <==> Valid(n, p)
    decreases n, |n.children| + 1
  {
    PositionsBelowComplete(n, |n.children|, p);
  }

  lemma {:induction false} PositionsBelowComplete(n: Node, i: nat, p: Pos)
    requires i <= |n.children|
    ensures p in PositionsBelow(n, i) <==> p != [] && p[0] < i && Valid(n, p)
    decreases n, i
  {
    if i > 0 {
      PositionsBelowComplete(n, i - 1, p);
      var ps := Positions(n.children[i - 1]);
      if p != [] && p[0] == i - 1 {
        PositionsComplete(n.children[i - 1], p[1..]);
        if p[1..] in ps {
          var k :| 0 <= k < |ps| && ps[k] == p[1..];
          assert Under(i - 1, ps)[k] == p;
        }
      }
      if p in Under(i - 1, ps) {
        var k :| 0 <= k < |ps| && Under(i - 1, ps)[k] == p;
        assert p[1..] == ps[k];
      }
    }
  }

  lemma {:induction false} PositionsOrdered(n: Node)
    ensures Ordered(Positions(n))
    decreases n, |n.children| + 1
  {
    PositionsBelowOrdered(n, |n.children|);
    forall p { PositionsBelowComplete(n, |n.children|, p); }
    assert forall p :: p in PositionsBelow(n, |n.children|) ==> p != [];
  }

  lemma {:induction false} PositionsBelowOrdered(n: Node, i: nat)
    requires i <= |n.children|
    ensures Ordered(PositionsBelow(n, i))
    decreases n, i
  {
    if i > 0 {
      PositionsBelowOrdered(n, i - 1);
      PositionsOrdered(n.children[i - 1]);
      forall p { PositionsBelowComplete(n, i - 1, p); }
      var left, right := PositionsBelow(n, i - 1), Under(i - 1, Positions(n.children[i - 1]));
      assert Ordered(right);
      forall a, b | 0 <= a < |left| && 0 <= b < |right| ensures Before(left[a], right[b]) {
        assert left[a] in left;
      }
    }
  }

  // ----- The walk visits exactly those positions -----

  /** The scope below n when the one above is `caller`. */
  function Inner(g: Grammar, n: Node, caller: string): string {
    if Opens(g, n) != "" then Opens(g, n) else caller
  }

  /** The edge position p contributes, following the walk down from a scope `caller`. */
  function EdgeDown(g: Grammar, n: Node, caller: string, p: Pos): seq<CallEdge> {
    if Skips(g, n) then []
    else if p == [] then EdgesHere(g, n, caller)
    else if p[0] < |n.children| then EdgeDown(g, n.children[p[0]], Inner(g, n, caller), p[1..])
    else []
  }

  function CollectDown(g: Grammar, n: Node, caller: string, ps: seq<Pos>): seq<CallEdge> {
    if ps == [] then [] else CollectDown(g, n, caller, ps[..|ps| - 1]) + EdgeDown(g, n, caller, ps[|ps| - 1])
  }

  lemma {:induction false} CollectAppend(g: Grammar, n: Node, caller: string, a: seq<Pos>, b: seq<Pos>)
    ensures CollectDown(g, n, caller, a + b) == CollectDown(g, n, caller, a) + CollectDown(g, n, caller, b)
  {
    if b == [] {
      assert a + b == a;
    } else {
      var most, last := b[..|b| - 1], b[|b| - 1];
      assert (a + b)[..|a + b| - 1] == a + most && (a + b)[|a + b| - 1] == last;
      CollectAppend(g, n, caller, a, most);
      JoinAssoc(CollectDown(g, n, caller, a), CollectDown(g, n, caller, most), EdgeDown(g, n, caller, last));
    }
  }

  lemma {:induction false} CollectUnder(g: Grammar, n: Node, caller: string, i: nat, ps: seq<Pos>)
    requires i < |n.children| && !Skips(g, n)
    ensures CollectDown(g, n, caller, Under(i, ps)) == CollectDown(g, n.children[i], Inner(g, n, caller), ps)
  {
    if ps != [] {
      var last := ps[|ps| - 1];
      CollectUnder(g, n, caller, i, ps[..|ps| - 1]);
      assert Under(i, ps)[..|ps| - 1] == Under(i, ps[..|ps| - 1]);
      assert Under(i, ps)[|ps| - 1] == [i] + last && ([i] + last)[1..] == last;
    }
  }

  lemma {:induction false} CollectHidden(g: Grammar, n: Node, caller: string, ps: seq<Pos>)
    requires Skips(g, n)
    ensures CollectDown(g, n, caller, ps) == []
  {
    if ps != [] { CollectHidden(g, n, caller, ps[..|ps| - 1]); }
  }

  function Join(parts: seq<seq<CallEdge>>): seq<CallEdge> {
    if parts == [] then [] else Join(parts[..|parts| - 1]) + parts[|parts| - 1]
  }

  lemma {:induction false} EdgesBelowJoin(g: Grammar, n: Node, inner: string, parts: seq<seq<CallEdge>>)
    requires |parts| <= |n.children|
    requires forall i :: 0 <= i < |parts| ==> parts[i] == Edges(g, n.children[i], inner)
    ensures EdgesBelow(g, n, |parts|, inner) == Join(parts)
  {
    if parts != [] {
      EdgesBelowJoin(g, n, inner, parts[..|parts| - 1]);
    }
  }

  lemma {:induction false} CollectBelowJoin(g: Grammar, n: Node, caller: string, parts: seq<seq<CallEdge>>)
    requires |parts| <= |n.children| && !Skips(g, n)
    requires forall i :: 0 <= i < |parts| ==>
      parts[i] == CollectDown(g, n.children[i], Inner(g, n, caller), Positions(n.children[i]))
    ensures CollectDown(g, n, caller, PositionsBelow(n, |parts|)) == Join(parts)
  {
    if parts != [] {
      var i := |parts| - 1;
      CollectBelowJoin(g, n, caller, parts[..i]);
      CollectAppend(g, n, caller, PositionsBelow(n, i), Under(i, Positions(n.children[i])));
      CollectUnder(g, n, caller, i, Positions(n.children[i]));
    }
  }

  lemma CollectRoot(g: Grammar, n: Node, caller: string)
    requires !Skips(g, n)
    ensures CollectDown(g, n, caller, Positions(n))
         == EdgesHere(g, n, caller) + CollectDown(g, n, caller, PositionsBelow(n, |n.children|))
  {
    var here: seq<Pos> := [[]];
    CollectAppend(g, n, caller, here, PositionsBelow(n, |n.children|));
    assert here[..0] == [];
    assert CollectDown(g, n, caller, here) == EdgeDown(g, n, caller, []);
  }

  lemma {:induction false} EdgesAreCollected(g: Grammar, n: Node, caller: string)
    ensures Edges(g, n, caller) == CollectDown(g, n, caller, Positions(n))
    decreases n
  {
    if Skips(g, n) {
      CollectHidden(g, n, caller, Positions(n));
    } else {
      var inner := Inner(g, n, caller);
      var parts := seq(|n.children|, i requires 0 <= i < |n.children| => Edges(g, n.children[i], inner));
      forall i | 0 <= i < |n.children|
        ensures parts[i] == CollectDown(g, n.children[i], inner, Positions(n.children[i]))
      {
        EdgesAreCollected(g, n.children[i], inner);
      }
      EdgesBelowJoin(g, n, inner, parts);
      CollectBelowJoin(g, n, caller, parts);
      CollectRoot(g, n, caller);
    }
  }

  // ----- ... and labels them by the nearest enclosing function -----

  lemma {:induction false} NearestBelow(g: Grammar, n: Node, p: Pos, k: nat)
    requires Valid(n, p) && 0 < k <= |p|
    ensures var inner := Nearest(g, n.children[p[0]], p[1..], k - 1);
            Nearest(g, n, p, k) == if inner != "" then inner else Opens(g, n)
  {
    if k > 1 {
      NearestBelow(g, n, p, k - 1);
      AncestorBelow(n, p, k - 1);
    } else {
      assert p[..0] == [];
    }
  }

  lemma HiddenBelow(g: Grammar, n: Node, p: Pos)
    requires Valid(n, p) && p != []
    ensures Hidden(g, n, p) <==> Skips(g, n) || Hidden(g, n.children[p[0]], p[1..])
  {
    assert p[..0] == [];
    assert Ancestor(n, p, 0) == n;
    forall k | 0 < k <= |p| ensures Ancestor(n, p, k) == Ancestor(n.children[p[0]], p[1..], k - 1) {
      AncestorBelow(n, p, k);
    }
    if Hidden(g, n.children[p[0]], p[1..]) {
      var k :| 0 <= k <= |p[1..]| && Skips(g, Ancestor(n.children[p[0]], p[1..], k));
      assert Ancestor(n, p, k + 1) == Ancestor(n.children[p[0]], p[1..], k);
    }
  }

  lemma {:induction false} EdgeDownIsEdgeAt(g: Grammar, n: Node, caller: string, p: Pos)
    requires Valid(n, p)
    ensures var near := Nearest(g, n, p, |p|);
            EdgeDown(g, n, caller, p)
            == if Hidden(g, n, p) then [] else EdgesHere(g, NodeAt(n, p), if near != "" then near else caller)
  {
    if p == [] {
      assert p[..0] == [];
      assert Ancestor(n, p, 0) == n;
    } else {
      EdgeDownIsEdgeAt(g, n.children[p[0]], Inner(g, n, caller), p[1..]);
      NearestBelow(g, n, p, |p|);
      HiddenBelow(g, n, p);
    }
  }

  /** The edges of the given positions, in order. */
  ghost function Collect(g: Grammar, n: Node, ps: seq<Pos>): seq<CallEdge>
    requires forall p :: p in ps ==> Valid(n, p)
  {
    if ps == [] then [] else Collect(g, n, ps[..|ps| - 1]) + EdgeAt(g, n, ps[|ps| - 1])
  }

  lemma {:induction false} CollectIsCollectDown(g: Grammar, n: Node, ps: seq<Pos>)
    requires forall p :: p in ps ==> Valid(n, p)
    ensures CollectDown(g, n, "", ps) == Collect(g, n, ps)
  {
    if ps != [] {
      CollectIsCollectDown(g, n, ps[..|ps| - 1]);
      EdgeDownIsEdgeAt(g, n, "", ps[|ps| - 1]);
    }
  }

  /** A walk from the root with an empty stack emits, in preorder, exactly one edge for every call node
      whose name resolves, that lies inside some named function and in no skipped subtree; the caller is
      the nearest enclosing named function. */
  lemma WalkMeaning(g: Grammar, root: Node)
    ensures forall p :: p in Positions(root) <==> Valid(root, p)
    ensures Ordered(Positions(root))
    ensures Edges(g, root, "") == Collect(g, root, Positions(root))
  {
    forall p { PositionsComplete(root, p); }
    PositionsOrdered(root);
    EdgesAreCollected(g, root, "");
    CollectIsCollectDown(g, root, Positions(root));
  }

  // ----- The languages -----

  ghost predicate InArrow(n: Node, p: Pos)
    requires Valid(n, p)
  {
    exists k :: 0 <= k <= |p| && Ancestor(n, p, k).kind == "arrow_function"
  }

  predicate IsScript(g: Grammar) {
    g == JAVASCRIPT || g == TYPESCRIPT
  }

  lemma OnlyArrowsAreSkipped(g: Grammar, n: Node)
    ensures g.SpecDriven? || g == GO || g == PYTHON ==> !Skips(g, n)
    ensures IsScript(g) ==> (Skips(g, n) <==> n.kind == "arrow_function")
  {
    assert |"function_declaration"| == 20 && |"method_definition"| == 17 && |"arrow_function"| == 14;
  }

  /** In every language, a position contributes an edge exactly when the name it calls resolves and it lies in a
      named function; JavaScript and TypeScript lose those at or below an arrow function as well. */
  lemma RecordedIff(g: Grammar, root: Node, p: Pos)
    requires Valid(root, p) && (g.SpecDriven? || g == GO || g == PYTHON || IsScript(g))
    ensures EdgeAt(g, root, p) != [] <==>
      && Calls(g, NodeAt(root, p)) != "" && Nearest(g, root, p, |p|) != ""
      && (IsScript(g) ==> !InArrow(root, p))
  {
    forall k | 0 <= k <= |p|
      ensures g.SpecDriven? || g == GO || g == PYTHON ==> !Skips(g, Ancestor(root, p, k))
      ensures IsScript(g) ==> (Skips(g, Ancestor(root, p, k)) <==> Ancestor(root, p, k).kind == "arrow_function")
    {
      OnlyArrowsAreSkipped(g, Ancestor(root, p, k));
    }
  }

  /** name is the text of the last of the nodes that has one of these kinds. */
  ghost predicate LastNamed(ns: seq<Node>, kinds: set<string>, name: string) {
    exists i :: LastNamedAt(ns, kinds, i) && ns[i].text == name
  }

  ghost predicate LastNamedAt(ns: seq<Node>, kinds: set<string>, i: int) {
    0 <= i < |ns| && ns[i].kind in kinds && forall j :: i < j < |ns| ==> ns[j].kind !in kinds
  }

  lemma {:induction false} LastOfKindAt(ns: seq<Node>, kinds: set<string>, i: nat)
    requires i < |ns| && LastNamedAt(ns, kinds, i)
    ensures LastOfKind(ns, kinds) == Some(ns[i])
  {
    if i < |ns| - 1 {
      var init := ns[..|ns| - 1];
      assert forall j :: 0 <= j < |init| ==> init[j] == ns[j];
      LastOfKindAt(init, kinds, i);
    }
  }

  lemma {:induction false} LastOfKindIsLast(ns: seq<Node>, kinds: set<string>)
    ensures LastOfKind(ns, kinds).Some? ==> exists i :: LastNamedAt(ns, kinds, i) && ns[i] == LastOfKind(ns, kinds).value
  {
    if ns != [] {
      var n := |ns| - 1;
      if ns[n].kind in kinds {
        assert LastNamedAt(ns, kinds, n);
      } else {
        LastOfKindIsLast(ns[..n], kinds);
        if LastOfKind(ns, kinds).Some? {
          var i :| LastNamedAt(ns[..n], kinds, i) && ns[..n][i] == LastOfKind(ns, kinds).value;
          assert ns[i] == ns[..n][i] && forall j :: 0 <= j < n ==> ns[j] == ns[..n][j];
          assert LastNamedAt(ns, kinds, i);
        }
      }
    }
  }

  lemma LastNamedIff(ns: seq<Node>, kinds: set<string>, name: string)
    ensures LastNamed(ns, kinds, name) <==> LastOfKind(ns, kinds).Some? && LastOfKind(ns, kinds).value.text == name
  {
    LastOfKindIsLast(ns, kinds);
    if i :| LastNamedAt(ns, kinds, i) && ns[i].text == name {
      LastOfKindAt(ns, kinds, i);
    }
  }

  /** What calling fn calls: an identifier by its text, a Python attribute or a Go selector by its last name. A member
      expression, which is what `obj.f` is in the two script languages, calls nothing. */
  ghost predicate CalledAs(fn: Node, name: string) {
    || (fn.kind == "identifier" && fn.text == name)
    || (fn.kind == "attribute" && LastNamed(fn.children, {"identifier", "property_identifier"}, name))
    || (fn.kind == "selector_expression"
        && LastNamed(fn.children, {"identifier", "field_identifier", "property_identifier"}, name))
  }

  lemma CallNameIff(n: Node, name: string)
    requires name != ""
    ensures CallName(n) == name <==> n.children != [] && CalledAs(n.children[0], name)
  {
    if n.children != [] {
      var fn := n.children[0];
      assert |"identifier"| == 10 && |"attribute"| == 9 && |"selector_expression"| == 19;
      LastNamedIff(fn.children, {"identifier", "property_identifier"}, name);
      LastNamedIff(fn.children, {"identifier", "field_identifier", "property_identifier"}, name);
      NoneOfKind(fn.children);
    }
  }

  lemma {:induction false} NoneOfKind(ns: seq<Node>)
    ensures LastOfKind(ns, {}) == None
  {
    if ns != [] {
      NoneOfKind(ns[..|ns| - 1]);
    }
  }

  /** Which calls the four bespoke walks can name, and what they name. */
  lemma CallsIff(g: Grammar, n: Node, name: string)
    requires (g == GO || g == PYTHON || IsScript(g)) && name != ""
    ensures Calls(g, n) == name <==>
      && n.kind == (if g == PYTHON then "call" else "call_expression")
      && n.children != [] && CalledAs(n.children[0], name)
  {
    CallNameIff(n, name);
    assert |"function_declaration"| == 20 && |"method_definition"| == 17 && |"method_declaration"| == 18
      && |"function_definition"| == 19 && |"call_expression"| == 15 && |"call"| == 4;
  }

  // ----- Who calls whom -----

  // ----- Identifiers somewhere below a node -----

  /** No node above p has one of these kinds, and p has. */
  ghost predicate Outermost(n: Node, kinds: set<string>, p: Pos) {
    Valid(n, p) && NodeAt(n, p).kind in kinds && forall k :: 0 <= k < |p| ==> Ancestor(n, p, k).kind !in kinds
  }

  lemma OutermostBelow(n: Node, kinds: set<string>, p: Pos)
    requires p != [] && p[0] < |n.children|
    ensures Outermost(n, kinds, p) <==> n.kind !in kinds && Outermost(n.children[p[0]], kinds, p[1..])
    ensures Valid(n, p) ==> NodeAt(n, p) == NodeAt(n.children[p[0]], p[1..])
  {
    if Valid(n, p) {
      assert p[..0] == [] && Ancestor(n, p, 0) == n;
      forall k | 0 < k <= |p| ensures Ancestor(n, p, k) == Ancestor(n.children[p[0]], p[1..], k - 1) {
        AncestorBelow(n, p, k);
      }
      if Outermost(n, kinds, p) {
        forall k | 0 <= k < |p| - 1 ensures Ancestor(n.children[p[0]], p[1..], k).kind !in kinds {
          assert Ancestor(n, p, k + 1).kind !in kinds;
        }
      }
    }
  }

  /** What an outermost node of these kinds says; "" if p is not one. */
  ghost function Says(n: Node, kinds: set<string>, text: Node -> string, p: Pos): string {
    if Outermost(n, kinds, p) then text(NodeAt(n, p)) else ""
  }

  lemma SaysBelow(n: Node, kinds: set<string>, text: Node -> string, i: nat, p: Pos)
    requires i < |n.children| && n.kind !in kinds
    ensures Says(n, kinds, text, [i] + p) == Says(n.children[i], kinds, text, p)
  {
    OutermostBelow(n, kinds, [i] + p);
    assert ([i] + p)[1..] == p;
  }

  lemma SaysNothingElse(n: Node, kinds: set<string>, text: Node -> string, p: Pos)
    requires Says(n, kinds, text, p) != "" && n.kind !in kinds
    ensures p != [] && p[0] < |n.children| && p == [p[0]] + p[1..]
  {
  }

  lemma QuietChild(n: Node, kinds: set<string>, text: Node -> string, i: nat)
    requires i < |n.children| && n.kind !in kinds
    requires forall p :: Says(n.children[i], kinds, text, p) == ""
    ensures forall p :: p != [] && p[0] == i ==> Says(n, kinds, text, p) == ""
  {
    forall p | p != [] && p[0] == i ensures Says(n, kinds, text, p) == "" {
      SaysBelow(n, kinds, text, i, p[1..]);
      assert p == [i] + p[1..];
    }
  }

  /** name is what the first outermost node that says anything says. */
  ghost predicate FirstSaid(n: Node, kinds: set<string>, text: Node -> string, name: string) {
    exists p :: FirstSaidAt(n, kinds, text, name, p)
  }

  ghost predicate FirstSaidAt(n: Node, kinds: set<string>, text: Node -> string, name: string, p: Pos) {
    name != "" && Says(n, kinds, text, p) == name && forall q :: Before(q, p) ==> Says(n, kinds, text, q) == ""
  }

  function PlainText(): Node -> string {
    (c: Node) => c.text
  }

  function SegmentText(): Node -> string {
    (c: Node) => LastSegment(c.text)
  }

  /** Below a node, the first identifier is the text of the first outermost node of the four kinds that has one. */
  lemma {:induction false} FirstIdentifierMeaning(n: Node)
    ensures FirstIdentifier(n) != "" ==> FirstSaid(n, FIRST_KINDS, PlainText(), FirstIdentifier(n))
    ensures FirstIdentifier(n) == "" ==> forall p :: Says(n, FIRST_KINDS, PlainText(), p) == ""
    decreases n, |n.children| + 1
  {
    var text := PlainText();
    if n.kind in FIRST_KINDS {
      RootSays(n, FIRST_KINDS, text);
      assert n.text != "" ==> FirstSaidAt(n, FIRST_KINDS, text, n.text, []);
    } else {
      FirstAmongMeaning(n, 0);
      forall p | FirstIdentifier(n) == "" ensures Says(n, FIRST_KINDS, text, p) == "" {
        if Says(n, FIRST_KINDS, text, p) != "" { SaysNothingElse(n, FIRST_KINDS, text, p); }
      }
    }
  }

  lemma AncestorRoot(n: Node, p: Pos)
    requires Valid(n, p)
    ensures Ancestor(n, p, 0) == n
  {
    assert p[..0] == [];
  }

  lemma RootSays(n: Node, kinds: set<string>, text: Node -> string)
    requires n.kind in kinds
    ensures Says(n, kinds, text, []) == text(n)
    ensures forall p :: p != [] ==> Says(n, kinds, text, p) == ""
  {
    forall p | p != [] ensures !Outermost(n, kinds, p) {
      if Valid(n, p) { AncestorRoot(n, p); }
    }
  }

  /** The same for the children from index i on. */
  lemma {:induction false} FirstAmongMeaning(n: Node, i: nat)
    requires i <= |n.children| && n.kind !in FIRST_KINDS
    requires forall p :: p != [] && p[0] < i ==> Says(n, FIRST_KINDS, PlainText(), p) == ""
    ensures FirstAmong(n, i) != "" ==> FirstSaid(n, FIRST_KINDS, PlainText(), FirstAmong(n, i))
    ensures FirstAmong(n, i) == "" ==>
      forall p :: p != [] && p[0] < |n.children| ==> Says(n, FIRST_KINDS, PlainText(), p) == ""
    decreases n, |n.children| - i
  {
    var text := PlainText();
    if i < |n.children| {
      var child := n.children[i];
      FirstIdentifierMeaning(child);
      if FirstIdentifier(child) != "" {
        var p :| FirstSaidAt(child, FIRST_KINDS, text, FirstIdentifier(child), p);
        FirstSaidBelow(n, FIRST_KINDS, text, i, p, FirstIdentifier(child));
      } else {
        QuietChild(n, FIRST_KINDS, text, i);
        FirstAmongMeaning(n, i + 1);
      }
    }
  }

  lemma FirstSaidBelow(n: Node, kinds: set<string>, text: Node -> string, i: nat, p: Pos, name: string)
    requires i < |n.children| && n.kind !in kinds
    requires forall q :: q != [] && q[0] < i ==> Says(n, kinds, text, q) == ""
    requires FirstSaidAt(n.children[i], kinds, text, name, p)
    ensures FirstSaidAt(n, kinds, text, name, [i] + p)
  {
    SaysBelow(n, kinds, text, i, p);
    assert ([i] + p)[1..] == p;
    forall q | Before(q, [i] + p) ensures Says(n, kinds, text, q) == "" {
      if Says(n, kinds, text, q) != "" {
        SaysNothingElse(n, kinds, text, q);
        SaysBelow(n, kinds, text, q[0], q[1..]);
      }
    }
  }

  /** name is what the last outermost node that says anything says. */
  ghost predicate LastSaid(n: Node, kinds: set<string>, text: Node -> string, name: string) {
    exists p :: LastSaidAt(n, kinds, text, name, p)
  }

  ghost predicate LastSaidAt(n: Node, kinds: set<string>, text: Node -> string, name: string, p: Pos) {
    name != "" && Says(n, kinds, text, p) == name && forall q :: Before(p, q) ==> Says(n, kinds, text, q) == ""
  }

  /** And the last identifier is the last segment of the text of the last outermost node of the seven kinds that has one. */
  lemma {:induction false} LastIdentifierMeaning(n: Node)
    ensures LastIdentifier(n) != "" ==> LastSaid(n, LAST_KINDS, SegmentText(), LastIdentifier(n))
    ensures LastIdentifier(n) == "" ==> forall p :: Says(n, LAST_KINDS, SegmentText(), p) == ""
    decreases n, |n.children| + 1
  {
    var text := SegmentText();
    if n.kind in LAST_KINDS {
      RootSays(n, LAST_KINDS, text);
      assert text(n) != "" ==> LastSaidAt(n, LAST_KINDS, text, text(n), []);
    } else {
      LastAmongMeaning(n, |n.children|);
      forall p | LastIdentifier(n) == "" ensures Says(n, LAST_KINDS, text, p) == "" {
        if Says(n, LAST_KINDS, text, p) != "" { SaysNothingElse(n, LAST_KINDS, text, p); }
      }
    }
  }

  /** The same for the first i children. */
  lemma {:induction false} LastAmongMeaning(n: Node, i: nat)
    requires i <= |n.children| && n.kind !in LAST_KINDS
    requires forall p :: p != [] && i <= p[0] ==> Says(n, LAST_KINDS, SegmentText(), p) == ""
    ensures LastAmong(n, i) != "" ==> LastSaid(n, LAST_KINDS, SegmentText(), LastAmong(n, i))
    ensures LastAmong(n, i) == "" ==> forall p :: p != [] ==> Says(n, LAST_KINDS, SegmentText(), p) == ""
    decreases n, i
  {
    var text := SegmentText();
    if i > 0 {
      var child := n.children[i - 1];
      LastIdentifierMeaning(child);
      if LastIdentifier(child) != "" {
        var p :| LastSaidAt(child, LAST_KINDS, text, LastIdentifier(child), p);
        LastSaidBelow(n, LAST_KINDS, text, i - 1, p, LastIdentifier(child));
      } else {
        QuietChild(n, LAST_KINDS, text, i - 1);
        LastAmongMeaning(n, i - 1);
      }
    }
  }

  lemma LastSaidBelow(n: Node, kinds: set<string>, text: Node -> string, i: nat, p: Pos, name: string)
    requires i < |n.children| && n.kind !in kinds
    requires forall q :: q != [] && i < q[0] ==> Says(n, kinds, text, q) == ""
    requires LastSaidAt(n.children[i], kinds, text, name, p)
    ensures LastSaidAt(n, kinds, text, name, [i] + p)
  {
    SaysBelow(n, kinds, text, i, p);
    assert ([i] + p)[1..] == p;
    forall q | Before([i] + p, q) ensures Says(n, kinds, text, q) == "" {
      if q[0] == i {
        SaysBelow(n, kinds, text, i, q[1..]);
        assert q == [i] + q[1..];
      }
    }
  }

  // ----- Who calls whom by name -----

  /** The text that names a declaration by its children. */
  ghost predicate ChildNames(n: Node, name: string) {
    || (exists i :: FirstNamed(n, i) && name == n.children[i].text)
    || (NoneNamed(n) && name == if Blank(n.text) then "unknown" else FirstField(n.text))
  }

  /** The text that names a declaration by its fields. */
  ghost predicate FieldNames(n: Node, name: string) {
    || (exists i :: InField(n, "name", i) && name == n.children[i].text)
    || (NoField(n, "name") && name != "" && exists i :: InField(n, "declarator", i) && name == FirstIdentifier(n.children[i]))
    || (NoField(n, "name") && ChildNames(n, name)
        && forall i :: InField(n, "declarator", i) ==> FirstIdentifier(n.children[i]) == "")
  }

  /** The scope a function node opens has this name. */
  ghost predicate ScopeNamed(g: Grammar, n: Node, name: string) {
    n.kind in g.funcs && if g.Bespoke? then ChildNames(n, name) else FieldNames(n, name)
  }

  lemma ChildNamesIff(n: Node, name: string)
    ensures ChildNames(n, name) <==> NameFromChild(n) == name
  {
    forall i ensures FirstNamed(n, i) ==> NameFromChild(n) == n.children[i].text {
      NameFromChildMeaning(n, i);
    }
    NameFromChildMeaning(n, 0);
  }

  lemma FieldNamesIff(n: Node, name: string)
    ensures FieldNames(n, name) <==> GenericName(n) == name
  {
    ChildNamesIff(n, name);
    var a := FirstIndex(n.children, (c: Node) => c.field == "name");
    var b := FirstIndex(n.children, (c: Node) => c.field == "declarator");
    assert a < |n.children| ==> InField(n, "name", a);
    assert b < |n.children| ==> InField(n, "declarator", b);
    GenericNameMeaning(n, a);
    GenericNameMeaning(n, b);
    OnlyOneInField(n, "name", a);
    OnlyOneInField(n, "declarator", b);
  }

  lemma OnlyOneInField(n: Node, field: string, k: nat)
    requires k <= |n.children| && (k < |n.children| ==> InField(n, field, k))
    requires k == |n.children| ==> NoField(n, field)
    ensures forall i :: InField(n, field, i) ==> i == k
  {
  }

  /** The name a call node of the grammar calls. */
  ghost predicate CalleeNamed(g: Grammar, n: Node, name: string) {
    && n.kind in g.calls && name != ""
    && if g.Bespoke? then n.children != [] && CalledAs(n.children[0], name)
       else
         || FieldSays(n, "function", name)
         || (Silent(n, "function") && FieldSays(n, "name", name))
         || (Silent(n, "function") && Silent(n, "name") && FieldSays(n, "constructor", name))
  }

  /** j is the level of the nearest node above p that opens a scope. */
  ghost predicate NearestScope(g: Grammar, root: Node, p: Pos, j: int)
    requires Valid(root, p)
  {
    && 0 <= j < |p| && Ancestor(root, p, j).kind in g.funcs && !ScopeNamed(g, Ancestor(root, p, j), "")
    && forall i :: j < i < |p| && Ancestor(root, p, i).kind in g.funcs ==> ScopeNamed(g, Ancestor(root, p, i), "")
  }

  /** The edge says who calls whom at position p, and in which line. */
  ghost predicate SaysSo(g: Grammar, root: Node, p: Pos, e: CallEdge)
    requires Valid(root, p)
  {
    && e.line == NodeAt(root, p).row + 1 && e.language == g.language
    && CalleeNamed(g, NodeAt(root, p), e.calleeName)
    && exists j :: NearestScope(g, root, p, j) && ScopeNamed(g, Ancestor(root, p, j), e.callerName)
  }

  lemma OpensIff(g: Grammar, n: Node, name: string)
    ensures ScopeNamed(g, n, name) <==> n.kind in g.funcs && Opens(g, n) == name
  {
    ChildNamesIff(n, name);
    FieldNamesIff(n, name);
  }

  lemma CallsNamed(g: Grammar, n: Node, name: string)
    requires Calls(g, n) == name && name != ""
    ensures CalleeNamed(g, n, name)
  {
    if g.Bespoke? {
      CallNameIff(n, name);
    } else {
      GenericCalleeMeaning(n, name);
    }
  }

  lemma EdgeSaysSo(g: Grammar, root: Node, p: Pos)
    requires Valid(root, p) && EdgeAt(g, root, p) != []
    ensures |EdgeAt(g, root, p)| == 1 && SaysSo(g, root, p, EdgeAt(g, root, p)[0])
  {
    var e, near := EdgeAt(g, root, p)[0], Nearest(g, root, p, |p|);
    CallsNamed(g, NodeAt(root, p), e.calleeName);
    forall i, name | 0 <= i < |p|
      ensures ScopeNamed(g, Ancestor(root, p, i), name)
        <==> Ancestor(root, p, i).kind in g.funcs && Opens(g, Ancestor(root, p, i)) == name
    {
      OpensIff(g, Ancestor(root, p, i), name);
    }
    var j :| 0 <= j < |p| && near == Opens(g, Ancestor(root, p, j))
      && forall i :: j < i < |p| ==> Opens(g, Ancestor(root, p, i)) == "";
    assert ScopeNamed(g, Ancestor(root, p, j), e.callerName);
    assert NearestScope(g, root, p, j);
  }

  lemma {:induction false} CollectSaysSo(g: Grammar, n: Node, ps: seq<Pos>, e: CallEdge)
    requires forall p :: p in ps ==> Valid(n, p)
    requires e in Collect(g, n, ps)
    ensures exists p :: p in ps && SaysSo(g, n, p, e)
  {
    var init, last := ps[..|ps| - 1], ps[|ps| - 1];
    if e in Collect(g, n, init) {
      CollectSaysSo(g, n, init, e);
      var p :| p in init && SaysSo(g, n, p, e);
      assert p in ps;
    } else {
      EdgeSaysSo(g, n, last);
      assert last in ps;
    }
  }

  const CALL := Node("call_expression", "h()", 1, "", [Node("identifier", "h", 1, "", [])])
  const ARROW := Node("arrow_function", "() => h()", 1, "", [CALL])

  /** A function f whose body is the given node. */
  function FunctionF(body: Node): Node {
    Node("function_declaration", "function f() { h() }", 0, "", [Node("identifier", "f", 0, "", []), body])
  }

  /** The same call in the same function is recorded outside an arrow function and lost inside. */
  lemma ArrowCallIsLost()
    ensures Edges(JAVASCRIPT, FunctionF(CALL), "") == [CallEdge("f", "h", 2, "javascript")]
    ensures Edges(JAVASCRIPT, FunctionF(ARROW), "") == []
  {
    var name := Node("identifier", "f", 0, "", []);
    assert NameFromChild(FunctionF(CALL)) == "f" && NameFromChild(FunctionF(ARROW)) == "f";
    assert Edges(JAVASCRIPT, name, "f") == [];
    assert Edges(JAVASCRIPT, CALL.children[0], "f") == [];
    assert Calls(JAVASCRIPT, CALL) == "h";
    assert EdgesBelow(JAVASCRIPT, CALL, 0, "f") == [];
    assert Edges(JAVASCRIPT, CALL, "f") == [CallEdge("f", "h", 2, "javascript")];
    assert Skips(JAVASCRIPT, ARROW);
    forall body ensures EdgesBelow(JAVASCRIPT, FunctionF(body), 2, "f") == Edges(JAVASCRIPT, body, "f") {
      assert EdgesBelow(JAVASCRIPT, FunctionF(body), 0, "f") == [];
      assert EdgesBelow(JAVASCRIPT, FunctionF(body), 1, "f") == [];
    }
  }

  /** A call of a method, `obj.f()`, is never recorded in the two script languages, wherever it stands. */
  lemma MemberCallIsLost(g: Grammar, root: Node, p: Pos)
    requires IsScript(g) && Valid(root, p)
    requires NodeAt(root, p).children != [] && NodeAt(root, p).children[0].kind == "member_expression"
    ensures EdgeAt(g, root, p) == []
  {
    RecordedIff(g, root, p);
    var name := Calls(g, NodeAt(root, p));
    if name != "" {
      CallsIff(g, NodeAt(root, p), name);
    }
    assert |"member_expression"| == 17 && |"identifier"| == 10 && |"attribute"| == 9 && |"selector_expression"| == 19;
  }

  /** extractCalls for one file. */
  method ExtractCalls(g: Grammar, root: Node) returns (edges: seq<CallEdge>)
    ensures forall p :: p in Positions(root) <==> Valid(root, p)
    ensures edges == Collect(g, root, Positions(root))
    ensures forall e :: e in edges ==> exists p :: Valid(root, p) && SaysSo(g, root, p, e)
  {
    var extractor := new Extractor(g);
    extractor.Walk(root);
    WalkMeaning(g, root);
    edges := extractor.edges;
    forall e | e in edges ensures exists p :: Valid(root, p) && SaysSo(g, root, p, e) {
      CollectSaysSo(g, root, Positions(root), e);
    }
  }
}
