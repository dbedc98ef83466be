/**
 * The cyclomatic-complexity rule: a method's complexity is one plus the number
 * of decision points among its descendant nodes, and a method whose name is not
 * on the Pruefe...MitRegeln allowlist is reported when that exceeds 4.
 */
module ComplexityAnalyzer {
  import opened SyntaxModel

  const DiagnosticId := "CyclomaticComplexity"
  const ComplexityThreshold := 4

  /** The eight syntax kinds counted as decision points. */
  predicate IsDecisionPoint(k: NodeKind)
  {
    || k == IfStatement
    || k == WhileStatement
    || k == ForStatement
    || k == ForEachStatement
    || k == CaseSwitchLabel
    || k == DefaultSwitchLabel
    || k == CatchClause
    || k == ConditionalExpression
  }

  /** Methods named Pruefe...MitRegeln are exempt from the rule. */
  predicate ShouldAnalyzeMethod(methodName: string)
  {
    !(StartsWith(methodName, "Pruefe") && EndsWith(methodName, "MitRegeln"))
  }

  /** 1 when `n` itself is a decision point, else 0. */
  function SelfCount(n: Node): nat
  {
    if IsDecisionPoint(n.kind) then 1 else 0
  }

  /** Number of decision points strictly below `n`, by structural recursion. */
  function DecisionPoints(n: Node): nat
    decreases n, 1
  {
    DecisionPointsOf(n.children)
  }

  /** Number of decision points in the subtrees rooted at `cs`. */
  function DecisionPointsOf(cs: seq<Node>): nat
    decreases cs, 0
  {
    if cs == [] then 0 else SelfCount(cs[0]) + DecisionPoints(cs[0]) + DecisionPointsOf(cs[1..])
  }

  /** Decision points in the subtree rooted at `n`, `n` included. */
  function Weight(n: Node): nat
  {
    SelfCount(n) + DecisionPoints(n)
  }

  /** The LINQ reading: how many entries of an enumeration are decision points. */
  function CountDecisionNodes(ds: seq<Located>): nat
  {
    if ds == [] then 0 else SelfCount(ds[0].node) + CountDecisionNodes(ds[1..])
  }

  lemma {:induction false} CountDecisionNodesConcat(a: seq<Located>, b: seq<Located>)
    ensures CountDecisionNodes(a + b) == CountDecisionNodes(a) + CountDecisionNodes(b)
  {
    if a == [] {
      assert a + b == b;
    } else {
      assert (a + b)[0] == a[0] && (a + b)[1..] == a[1..] + b;
      CountDecisionNodesConcat(a[1..], b);
    }
  }

  lemma {:induction false} CountDecisionNodesNest(i: nat, ds: seq<Located>)
    ensures CountDecisionNodes(Nest(i, ds)) == CountDecisionNodes(ds)
  {
    if ds != [] {
      assert Nest(i, ds)[1..] == Nest(i, ds[1..]);
      CountDecisionNodesNest(i, ds[1..]);
    }
  }

  /** The structural count agrees with counting over DescendantNodes(). */
  lemma {:induction false} DecisionPointsCountDescendants(n: Node)
    ensures DecisionPoints(n) == CountDecisionNodes(Descendants(n))
    decreases n, 1
  {
    DecisionPointsOfCountDescendants(n.children, 0);
  }

  lemma {:induction false} DecisionPointsOfCountDescendants(cs: seq<Node>, offset: nat)
    ensures DecisionPointsOf(cs) == CountDecisionNodes(DescendantsOf(cs, offset))
    decreases cs, 0
  {
    if cs != [] {
      var head := [Located([offset], cs[0])];
      var nested := Nest(offset, Descendants(cs[0]));
      var rest := DescendantsOf(cs[1..], offset + 1);
      CountDecisionNodesConcat(head + nested, rest);
      CountDecisionNodesConcat(head, nested);
      CountDecisionNodesNest(offset, Descendants(cs[0]));
      DecisionPointsCountDescendants(cs[0]);
      DecisionPointsOfCountDescendants(cs[1..], offset + 1);
    }
  }

  /** The method's cyclomatic complexity: 1 + decision points among its descendants. */
  function CalculateCyclomaticComplexity(decl: Node): (c: nat)
    ensures c == 1 + CountDecisionNodes(Descendants(decl))
    ensures c >= 1
  {
    DecisionPointsCountDescendants(decl);
    1 + DecisionPoints(decl)
  }

  /**
   * The rule run on one method declaration whose identifier stands at `at`:
   * at most one finding, present exactly when the method is not exempt and its
   * complexity exceeds the threshold; it carries the name, the complexity and
   * the threshold, and points at the identifier.
   */
  function AnalyzeMethod(decl: Node, at: Path): (r: seq<Finding>)
    requires decl.kind == MethodDeclaration
    ensures |r| <= 1
    ensures |r| == 1 <==>
      ShouldAnalyzeMethod(decl.identifier) && 1 + CountDecisionNodes(Descendants(decl)) > ComplexityThreshold
    ensures |r| == 1 ==> r[0] == Finding(DiagnosticId, IdentifierOf(at),
      [Str(decl.identifier), Int(1 + CountDecisionNodes(Descendants(decl))), Int(ComplexityThreshold)])
  {
    if !ShouldAnalyzeMethod(decl.identifier) then []
    else
      var complexity := CalculateCyclomaticComplexity(decl);
      if complexity > ComplexityThreshold then
        [Finding(DiagnosticId, IdentifierOf(at), [Str(decl.identifier), Int(complexity), Int(ComplexityThreshold)])]
      else []
  }

  /** An exempt method is never reported, however complex. */
  lemma ExemptMethodNeverReported(decl: Node, at: Path)
    requires decl.kind == MethodDeclaration
    requires StartsWith(decl.identifier, "Pruefe") && EndsWith(decl.identifier, "MitRegeln")
    ensures AnalyzeMethod(decl, at) == []
  {
  }

  /** The prefix and the suffix may overlap: "PruefeMitRegeln" itself is exempt. */
  lemma OverlappingNameIsExempt()
    ensures !ShouldAnalyzeMethod("PruefeMitRegeln")
    ensures ShouldAnalyzeMethod("PruefeRegeln") && ShouldAnalyzeMethod("MitRegelnPruefe")
  {
    assert "PruefeRegeln"[3..] != "MitRegeln";
    assert "MitRegelnPruefe"[..6] != "Pruefe";
  }

  /** The threshold is strict: three decision points pass, four are reported. */
  lemma ThresholdIsStrict(decl: Node, at: Path)
    requires decl.kind == MethodDeclaration && ShouldAnalyzeMethod(decl.identifier)
    ensures DecisionPoints(decl) == 3 ==> AnalyzeMethod(decl, at) == []
    ensures DecisionPoints(decl) == 4 ==>
      AnalyzeMethod(decl, at) == [Finding(DiagnosticId, IdentifierOf(at), [Str(decl.identifier), Int(5), Int(4)])]
  {
    DecisionPointsCountDescendants(decl);
    var complexity := CalculateCyclomaticComplexity(decl);
    assert complexity == 1 + DecisionPoints(decl);
    if DecisionPoints(decl) == 3 {
      assert !(complexity > ComplexityThreshold);
    } else if DecisionPoints(decl) == 4 {
      assert complexity == 5;
    }
  }

  lemma {:induction false} DecisionPointsOfConcat(a: seq<Node>, b: seq<Node>)
    ensures DecisionPointsOf(a + b) == DecisionPointsOf(a) + DecisionPointsOf(b)
  {
    if a == [] {
      assert a + b == b;
    } else {
      assert (a + b)[0] == a[0] && (a + b)[1..] == a[1..] + b;
      DecisionPointsOfConcat(a[1..], b);
    }
  }

  lemma {:induction false} DecisionPointsOfUpdate(cs: seq<Node>, j: nat, y: Node)
    requires j < |cs|
    ensures DecisionPointsOf(cs[j := y]) + Weight(cs[j]) == DecisionPointsOf(cs) + Weight(y)
  {
    if j == 0 {
      assert cs[j := y][1..] == cs[1..];
    } else {
      assert cs[j := y][1..] == cs[1..][j - 1 := y];
      DecisionPointsOfUpdate(cs[1..], j - 1, y);
    }
  }

  /** Replacing a subtree changes the count by exactly the difference of the two subtrees. */
  lemma {:induction false} ReplaceAtWeight(n: Node, p: Path, x: Node)
    requires ValidPath(n, p)
    ensures Weight(ReplaceAt(n, p, x)) + Weight(NodeAt(n, p).value) == Weight(n) + Weight(x)
    ensures p != [] ==> ReplaceAt(n, p, x).kind == n.kind
    decreases |p|
  {
    if p != [] {
      var c := n.children[p[0]];
      ReplaceAtWeight(c, p[1..], x);
      DecisionPointsOfUpdate(n.children, p[0], ReplaceAt(c, p[1..], x));
    }
  }

  /** The tree with `t` inserted as child number `i` of the node at `p`. */
  function InsertChild(root: Node, p: Path, i: nat, t: Node): Node
    requires ValidPath(root, p) && i <= |NodeAt(root, p).value.children|
  {
    var parent := NodeAt(root, p).value;
    ReplaceAt(root, p, parent.(children := parent.children[..i] + [t] + parent.children[i..]))
  }

  /** The tree with child number `i` of the node at `p` removed. */
  function RemoveChild(root: Node, p: Path, i: nat): Node
    requires ValidPath(root, p) && i < |NodeAt(root, p).value.children|
  {
    var parent := NodeAt(root, p).value;
    ReplaceAt(root, p, parent.(children := parent.children[..i] + parent.children[i + 1..]))
  }

  /** Inserting a subtree anywhere in a method adds exactly the subtree's decision points. */
  lemma InsertChildComplexity(decl: Node, p: Path, i: nat, t: Node)
    requires ValidPath(decl, p) && i <= |NodeAt(decl, p).value.children|
    ensures CalculateCyclomaticComplexity(InsertChild(decl, p, i, t)) ==
      CalculateCyclomaticComplexity(decl) + Weight(t)
  {
    var parent := NodeAt(decl, p).value;
    var cs := parent.children;
    assert cs == cs[..i] + cs[i..];
    DecisionPointsOfConcat(cs[..i], cs[i..]);
    DecisionPointsOfConcat(cs[..i] + [t], cs[i..]);
    DecisionPointsOfConcat(cs[..i], [t]);
    assert DecisionPointsOf([t]) == Weight(t) by {
      assert [t][1..] == [];
    }
    ReplaceAtWeight(decl, p, parent.(children := cs[..i] + [t] + cs[i..]));
  }

  /** Removing a subtree takes away exactly its decision points. */
  lemma RemoveChildComplexity(decl: Node, p: Path, i: nat)
    requires ValidPath(decl, p) && i < |NodeAt(decl, p).value.children|
    ensures CalculateCyclomaticComplexity(RemoveChild(decl, p, i)) + Weight(NodeAt(decl, p).value.children[i]) ==
      CalculateCyclomaticComplexity(decl)
  {
    var parent := NodeAt(decl, p).value;
    var cs := parent.children;
    assert cs == cs[..i] + [cs[i]] + cs[i + 1..];
    DecisionPointsOfConcat(cs[..i] + [cs[i]], cs[i + 1..]);
    DecisionPointsOfConcat(cs[..i], [cs[i]]);
    DecisionPointsOfConcat(cs[..i], cs[i + 1..]);
    assert DecisionPointsOf([cs[i]]) == Weight(cs[i]) by {
      assert [cs[i]][1..] == [];
    }
    ReplaceAtWeight(decl, p, parent.(children := cs[..i] + cs[i + 1..]));
  }

  /** Adding one node (a leaf): +1 for a decision point, unchanged otherwise. */
  lemma AddingOneNode(decl: Node, p: Path, i: nat, k: NodeKind, name: string)
    requires ValidPath(decl, p) && i <= |NodeAt(decl, p).value.children|
    ensures var leaf := Node(k, name, None, [], []);
      CalculateCyclomaticComplexity(InsertChild(decl, p, i, leaf)) ==
      CalculateCyclomaticComplexity(decl) + (if IsDecisionPoint(k) then 1 else 0)
  {
    var leaf := Node(k, name, None, [], []);
    assert DecisionPoints(leaf) == 0;
    InsertChildComplexity(decl, p, i, leaf);
  }

  /** A method with five if statements and nothing else that branches. */
  function FiveIfs(name: string): Node
  {
    var stmt := Node(IfStatement, "", None, [], [Node(Block, "", None, [], [])]);
    Node(MethodDeclaration, name, Some("void"), [],
      [Node(Block, "", None, [], [stmt, stmt, stmt, stmt, stmt])])
  }

  lemma FiveIfsReported(name: string, at: Path)
    requires ShouldAnalyzeMethod(name)
    ensures CalculateCyclomaticComplexity(FiveIfs(name)) == 6
    ensures AnalyzeMethod(FiveIfs(name), at) ==
      [Finding(DiagnosticId, IdentifierOf(at), [Str(name), Int(6), Int(4)])]
  {
    var stmt := Node(IfStatement, "", None, [], [Node(Block, "", None, [], [])]);
    assert Weight(stmt) == 1;
    var body := [stmt, stmt, stmt, stmt, stmt];
    assert DecisionPointsOf(body[4..]) == 1;
    assert DecisionPointsOf(body[3..]) == 2;
    assert DecisionPointsOf(body[2..]) == 3;
    assert DecisionPointsOf(body[1..]) == 4;
    assert DecisionPointsOf(body) == 5;
    var block := Node(Block, "", None, [], body);
    assert DecisionPointsOf([block]) == 5 by {
      assert [block][1..] == [];
    }
    assert DecisionPoints(FiveIfs(name)) == 5;
  }

  /** The name used in the five-if scenario is not exempt. */
  lemma ValidateIsAnalyzed()
    ensures ShouldAnalyzeMethod("Validate")
  {
    assert "Validate"[..6][0] == 'V' != "Pruefe"[0];
  }
}
