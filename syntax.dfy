/**
 * The immutable syntax tree that the host's parser hands to the analyzers and
 * the code fix, together with the path machinery that names a node inside a
 * document root, looks it up, replaces it, and enumerates all descendants in
 * pre-order (the order of DescendantNodes()).
 */
module SyntaxModel {

  datatype Option<T> = None | Some(value: T)

  /** The syntax kinds the rules distinguish; everything else is OtherNode. */
  datatype NodeKind =
    | CompilationUnit
    | NamespaceDeclaration
    | ClassDeclaration
    | StructDeclaration
    | InterfaceDeclaration
    | RecordDeclaration
    | EnumDeclaration
    | DelegateDeclaration
    | MethodDeclaration
    | ConstructorDeclaration
    | PropertyDeclaration
    | FieldDeclaration
    | Parameter
    | VariableDeclaration
    | VariableDeclarator
    | Block
    | IfStatement
    | ElseClause
    | WhileStatement
    | DoStatement
    | ForStatement
    | ForEachStatement
    | ForEachVariableStatement
    | SwitchStatement
    | CaseSwitchLabel
    | CasePatternSwitchLabel
    | DefaultSwitchLabel
    | SwitchExpressionArm
    | TryStatement
    | CatchClause
    | ConditionalExpression
    | LogicalAndExpression
    | LogicalOrExpression
    | OtherNode

  /** The kinds whose syntax class derives from TypeDeclarationSyntax
      (enums and delegates do not). */
  predicate IsTypeDeclaration(k: NodeKind)
  {
    k == ClassDeclaration || k == StructDeclaration || k == InterfaceDeclaration || k == RecordDeclaration
  }

  /** Formatting trivia; the model never interprets it, only keeps or replaces it. */
  datatype TriviaPiece = Whitespace(text: string) | EndOfLine | Comment(text: string) | ElasticMarker
  type Trivia = seq<TriviaPiece>

  datatype ModifierKind =
    | PublicKeyword
    | PrivateKeyword
    | ProtectedKeyword
    | InternalKeyword
    | SealedKeyword
    | AbstractKeyword
    | StaticKeyword
    | PartialKeyword
    | UnsafeKeyword
    | NewKeyword
    | ReadOnlyKeyword
    | FileKeyword

  /** A modifier token: its keyword and the trivia around it. */
  datatype Modifier = Modifier(kind: ModifierKind, leading: Trivia, trailing: Trivia)

  /**
   * A syntax node. `identifier` is the text of the node's identifier token
   * (empty when it has none), `typeText` the rendering of its declared type
   * (None when the node has no type), `modifiers` its modifier list and
   * `children` its child nodes in source order. A method's parameters are its
   * direct children of kind Parameter; a field or variable declaration carries
   * the declared type and has its declarators as children.
   */
  datatype Node = Node(
    kind: NodeKind,
    identifier: string,
    typeText: Option<string>,
    modifiers: seq<Modifier>,
    children: seq<Node>)

  /** A node is named by the child indices leading to it from the root. */
  type Path = seq<nat>

  /** Where a finding points: the identifier token of a node, or the whole node. */
  datatype Location = IdentifierOf(path: Path) | NodeSpan(path: Path)

  datatype Arg = Str(s: string) | Int(i: int)

  /** A reported diagnostic: rule id, location and the message arguments in order. */
  datatype Finding = Finding(ruleId: string, location: Location, args: seq<Arg>)

  /** Ordinal prefix and suffix tests. */
  predicate StartsWith(s: string, prefix: string)
  {
    |prefix| <= |s| && s[..|prefix|] == prefix
  }

  predicate EndsWith(s: string, suffix: string)
  {
    |suffix| <= |s| && s[|s| - |suffix|..] == suffix
  }

  predicate IsPrefix(a: Path, b: Path)
  {
    |a| <= |b| && b[..|a|] == a
  }

  function NodeAt(n: Node, p: Path): Option<Node>
    decreases |p|
  {
    if p == [] then Some(n)
    else if p[0] < |n.children| then NodeAt(n.children[p[0]], p[1..])
    else None
  }

  predicate ValidPath(n: Node, p: Path)
  {
    NodeAt(n, p).Some?
  }

  /** The root with the node at `p` replaced by `x` (Roslyn's ReplaceNode). */
  function ReplaceAt(n: Node, p: Path, x: Node): Node
    requires ValidPath(n, p)
    decreases |p|
  {
    if p == [] then x
    else n.(children := n.children[p[0] := ReplaceAt(n.children[p[0]], p[1..], x)])
  }

  lemma {:induction false} PrefixOfValidPathIsValid(n: Node, p: Path, q: Path)
    requires ValidPath(n, p) && IsPrefix(q, p)
    ensures ValidPath(n, q)
    decreases |p|
  {
    if q != [] {
      assert q[0] == p[0];
      assert IsPrefix(q[1..], p[1..]) by {
        assert p[1..][..|q| - 1] == p[..|q|][1..];
      }
      PrefixOfValidPathIsValid(n.children[p[0]], p[1..], q[1..]);
    }
  }

  /** Two nodes agree on everything but their children's contents. */
  predicate SameHeader(a: Node, b: Node)
  {
    a.kind == b.kind && a.identifier == b.identifier && a.typeText == b.typeText &&
    a.modifiers == b.modifiers && |a.children| == |b.children|
  }

  lemma {:induction false} ReplaceAtTarget(n: Node, p: Path, x: Node, q: Path)
    requires ValidPath(n, p)
    ensures NodeAt(ReplaceAt(n, p, x), p + q) == NodeAt(x, q)
    decreases |p|
  {
    if p != [] {
      ReplaceAtTarget(n.children[p[0]], p[1..], x, q);
      assert (p + q)[0] == p[0] && (p + q)[1..] == p[1..] + q;
    } else {
      assert p + q == q;
    }
  }

  lemma {:induction false} ReplaceAtElsewhere(n: Node, p: Path, x: Node, q: Path)
    requires ValidPath(n, p)
    requires !IsPrefix(p, q) && !IsPrefix(q, p)
    ensures NodeAt(ReplaceAt(n, p, x), q) == NodeAt(n, q)
    decreases |p|
  {
    assert p != [] && q != [];
    if p[0] == q[0] {
      ReplaceAtElsewhere(n.children[p[0]], p[1..], x, q[1..]);
    }
  }

  lemma {:induction false} ReplaceAtAbove(n: Node, p: Path, x: Node, q: Path)
    requires ValidPath(n, p)
    requires IsPrefix(q, p) && q != p
    ensures ValidPath(ReplaceAt(n, p, x), q) && ValidPath(n, q)
    ensures SameHeader(NodeAt(ReplaceAt(n, p, x), q).value, NodeAt(n, q).value)
    decreases |p|
  {
    if q != [] {
      assert q[0] == p[0];
      assert |q| < |p|;
      assert IsPrefix(q[1..], p[1..]) by {
        assert p[1..][..|q| - 1] == p[..|q|][1..];
      }
      ReplaceAtAbove(n.children[p[0]], p[1..], x, q[1..]);
    }
  }

  lemma {:induction false} ReplaceAtTwice(n: Node, p: Path, x: Node, y: Node)
    requires ValidPath(n, p)
    ensures ValidPath(ReplaceAt(n, p, x), p)
    ensures ReplaceAt(ReplaceAt(n, p, x), p, y) == ReplaceAt(n, p, y)
    decreases |p|
  {
    ReplaceAtTarget(n, p, x, []);
    assert p + [] == p;
    if p != [] {
      ReplaceAtTwice(n.children[p[0]], p[1..], x, y);
    }
  }

  /** A node and the path that leads to it. */
  datatype Located = Located(path: Path, node: Node)

  /** `ds` with child index `i` put in front of every path. */
  function Nest(i: nat, ds: seq<Located>): seq<Located>
  {
    seq(|ds|, k requires 0 <= k < |ds| => Located([i] + ds[k].path, ds[k].node))
  }

  /** All proper descendants of `n`, in pre-order, with paths relative to `n`. */
  function Descendants(n: Node): seq<Located>
    decreases n, 1
  {
    DescendantsOf(n.children, 0)
  }

  /** The nodes `cs` (the children of one parent, starting at index `offset`)
      and all their descendants, in pre-order. */
  function DescendantsOf(cs: seq<Node>, offset: nat): seq<Located>
    decreases cs, 0
  {
    if cs == [] then []
    else [Located([offset], cs[0])] + Nest(offset, Descendants(cs[0])) + DescendantsOf(cs[1..], offset + 1)
  }

  predicate HasPath(ds: seq<Located>, p: Path)
  {
    exists k :: 0 <= k < |ds| && ds[k].path == p
  }

  predicate DistinctPaths(ds: seq<Located>)
  {
    forall i, j :: 0 <= i < j < |ds| ==> ds[i].path != ds[j].path
  }

  /**
   * Descendants(n) lists every proper descendant of `n` exactly once: each
   * entry is found at its path, no path occurs twice, and every non-empty
   * path that leads somewhere in `n` is listed.
   */
  lemma DescendantsExact(n: Node)
    ensures DistinctPaths(Descendants(n))
    ensures forall k :: 0 <= k < |Descendants(n)| ==>
      Descendants(n)[k].path != [] && NodeAt(n, Descendants(n)[k].path) == Some(Descendants(n)[k].node)
    ensures forall p :: p != [] && ValidPath(n, p) ==>
      HasPath(Descendants(n), p)
  {
    DescendantsSound(n);
    DescendantsDistinct(n);
    DescendantsComplete(n);
  }

  lemma {:induction false} DescendantsSound(n: Node)
    ensures forall k :: 0 <= k < |Descendants(n)| ==>
      Descendants(n)[k].path != [] && NodeAt(n, Descendants(n)[k].path) == Some(Descendants(n)[k].node)
    decreases n, 1
  {
    DescendantsOfSound(n.children, 0);
  }

  lemma {:induction false} DescendantsOfSound(cs: seq<Node>, offset: nat)
    ensures forall k :: 0 <= k < |DescendantsOf(cs, offset)| ==>
      var e := DescendantsOf(cs, offset)[k];
      e.path != [] && offset <= e.path[0] < offset + |cs| &&
      NodeAt(cs[e.path[0] - offset], e.path[1..]) == Some(e.node)
    decreases cs, 0
  {
    if cs != [] {
      var d := Descendants(cs[0]);
      var b := Nest(offset, d);
      var c := DescendantsOf(cs[1..], offset + 1);
      var ds := DescendantsOf(cs, offset);
      assert ds == [Located([offset], cs[0])] + b + c;
      DescendantsSound(cs[0]);
      DescendantsOfSound(cs[1..], offset + 1);
      forall k | 0 <= k < |ds|
        ensures ds[k].path != [] && offset <= ds[k].path[0] < offset + |cs| &&
          NodeAt(cs[ds[k].path[0] - offset], ds[k].path[1..]) == Some(ds[k].node)
      {
        if k == 0 {
        } else if k < 1 + |b| {
          assert ds[k] == b[k - 1];
          assert b[k - 1].path[1..] == d[k - 1].path;
        } else {
          assert ds[k] == c[k - 1 - |b|];
        }
      }
    }
  }

  lemma {:induction false} DescendantsDistinct(n: Node)
    ensures DistinctPaths(Descendants(n))
    decreases n, 1
  {
    DescendantsOfDistinct(n.children, 0);
  }

  lemma {:induction false} DescendantsOfDistinct(cs: seq<Node>, offset: nat)
    ensures DistinctPaths(DescendantsOf(cs, offset))
    decreases cs, 0
  {
    if cs != [] {
      var d := Descendants(cs[0]);
      var b := Nest(offset, d);
      var c := DescendantsOf(cs[1..], offset + 1);
      var ds := DescendantsOf(cs, offset);
      assert ds == [Located([offset], cs[0])] + b + c;
      DescendantsDistinct(cs[0]);
      DescendantsSound(cs[0]);
      DescendantsOfDistinct(cs[1..], offset + 1);
      DescendantsOfSound(cs[1..], offset + 1);
      forall i, j | 0 <= i < j < |ds| ensures ds[i].path != ds[j].path
      {
        if j < 1 + |b| {
          assert ds[j] == b[j - 1];
          if i > 0 {
            assert ds[i] == b[i - 1];
            assert b[i - 1].path[1..] == d[i - 1].path && b[j - 1].path[1..] == d[j - 1].path;
          } else {
            assert |ds[j].path| == 1 + |d[j - 1].path|;
          }
        } else {
          assert ds[j] == c[j - 1 - |b|];
          assert ds[j].path[0] >= offset + 1;
          if i == 0 {
          } else if i < 1 + |b| {
            assert ds[i] == b[i - 1];
            assert ds[i].path[0] == offset;
          } else {
            assert ds[i] == c[i - 1 - |b|];
          }
        }
      }
    }
  }

  lemma {:induction false} DescendantsComplete(n: Node)
    ensures forall p :: p != [] && ValidPath(n, p) ==>
      HasPath(Descendants(n), p)
    decreases n, 1
  {
    DescendantsOfComplete(n.children, 0);
    var ds := Descendants(n);
    forall p | p != [] && ValidPath(n, p)
      ensures HasPath(ds, p)
    {
      var j, q := p[0], p[1..];
      assert ValidPath(n.children[j], q);
      var k :| 0 <= k < |ds| && ds[k].path == [0 + j] + q;
      assert [0 + j] + q == p;
    }
  }

  lemma {:induction false} DescendantsOfComplete(cs: seq<Node>, offset: nat)
    ensures forall j, q :: 0 <= j < |cs| && ValidPath(cs[j], q) ==>
      HasPath(DescendantsOf(cs, offset), [offset + j] + q)
    decreases cs, 0
  {
    if cs != [] {
      var d := Descendants(cs[0]);
      var b := Nest(offset, d);
      var c := DescendantsOf(cs[1..], offset + 1);
      var ds := DescendantsOf(cs, offset);
      assert ds == [Located([offset], cs[0])] + b + c;
      DescendantsComplete(cs[0]);
      DescendantsOfComplete(cs[1..], offset + 1);
      forall j, q | 0 <= j < |cs| && ValidPath(cs[j], q)
        ensures HasPath(ds, [offset + j] + q)
      {
        if j == 0 {
          if q == [] {
            assert ds[0].path == [offset + j] + q;
          } else {
            var k' :| 0 <= k' < |d| && d[k'].path == q;
            assert ds[1 + k'] == b[k'];
            assert ds[1 + k'].path == [offset + j] + q;
          }
        } else {
          assert cs[1..][j - 1] == cs[j];
          assert ValidPath(cs[1..][j - 1], q);
          var k' :| 0 <= k' < |c| && c[k'].path == [offset + 1 + (j - 1)] + q;
          assert ds[1 + |b| + k'] == c[k'];
          assert ds[1 + |b| + k'].path == [offset + j] + q;
        }
      }
    }
  }
}
