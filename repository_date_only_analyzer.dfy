/**
 * The repository-DateOnly rule: inside a class named *Repository, every method
 * parameter, every variable declaration at any depth of a method, and every
 * field declaration whose type is written exactly `DateOnly` is reported once.
 * The visits append to the host's list of reported findings.
 */
module RepositoryDateOnlyAnalyzer {
  import opened SyntaxModel

  const DiagnosticId := "RepositoryDateOnlyUsage"

  /** Purely textual match; a missing type never matches. */
  predicate IsDateOnlyType(typeText: Option<string>)
  {
    typeText == Some("DateOnly")
  }

  predicate IsDateOnlyParameter(n: Node)
  {
    n.kind == Parameter && IsDateOnlyType(n.typeText)
  }

  predicate IsDateOnlyVariable(n: Node)
  {
    n.kind == VariableDeclaration && IsDateOnlyType(n.typeText)
  }

  function ParameterRole(parameterName: string): string
  {
    "parameter '" + parameterName + "'"
  }

  function VariableRole(methodName: string): string
  {
    "variable in method '" + methodName + "'"
  }

  function FieldRole(fieldName: string): string
  {
    "field '" + fieldName + "'"
  }

  function ParameterFinding(className: string, at: Path, parameter: Node): Finding
  {
    Finding(DiagnosticId, NodeSpan(at), [Str(className), Str(ParameterRole(parameter.identifier))])
  }

  function VariableFinding(className: string, methodName: string, at: Path): Finding
  {
    Finding(DiagnosticId, NodeSpan(at), [Str(className), Str(VariableRole(methodName))])
  }

  function FieldFinding(className: string, at: Path, firstDeclarator: Node): Finding
  {
    Finding(DiagnosticId, NodeSpan(at), [Str(className), Str(FieldRole(firstDeclarator.identifier))])
  }

  /** The declarators of a field declaration, in order. */
  function Declarators(cs: seq<Node>): seq<Node>
  {
    if cs == [] then []
    else (if cs[0].kind == VariableDeclarator then [cs[0]] else []) + Declarators(cs[1..])
  }

  /** The first declarator is looked up only for a DateOnly field; the parser
      gives every field declaration at least one. */
  predicate FirstDeclaratorExists(field: Node)
  {
    IsDateOnlyType(field.typeText) ==> |Declarators(field.children)| > 0
  }

  predicate FieldsHaveDeclarators(c: Node)
  {
    forall i :: 0 <= i < |c.children| && c.children[i].kind == FieldDeclaration ==>
      FirstDeclaratorExists(c.children[i])
  }

  // ---------------------------------------------------------------------------
  // Specification of what each visit appends

  /** Findings for the DateOnly parameters among the first k children of a method at `at`. */
  function ParameterFindings(decl: Node, className: string, at: Path, k: nat): seq<Finding>
    requires k <= |decl.children|
  {
    if k == 0 then []
    else
      var last := decl.children[k - 1];
      ParameterFindings(decl, className, at, k - 1) +
      (if IsDateOnlyParameter(last) then [ParameterFinding(className, at + [k - 1], last)] else [])
  }

  /** Findings for the DateOnly variable declarations among the first k entries of `ds`. */
  function VariableFindings(ds: seq<Located>, className: string, methodName: string, at: Path, k: nat): seq<Finding>
    requires k <= |ds|
  {
    if k == 0 then []
    else
      var last := ds[k - 1];
      VariableFindings(ds, className, methodName, at, k - 1) +
      (if IsDateOnlyVariable(last.node) then [VariableFinding(className, methodName, at + last.path)] else [])
  }

  /** All findings for one method at `at`: its parameters first, then its variables. */
  function MethodFindings(decl: Node, className: string, at: Path): seq<Finding>
  {
    ParameterFindings(decl, className, at, |decl.children|) +
    VariableFindings(Descendants(decl), className, decl.identifier, at, |Descendants(decl)|)
  }

  function FieldFindings(field: Node, className: string, at: Path): seq<Finding>
    requires FirstDeclaratorExists(field)
  {
    if IsDateOnlyType(field.typeText)
    then [FieldFinding(className, at, Declarators(field.children)[0])]
    else []
  }

  /** Methods and fields are inspected; every other member yields nothing. */
  function MemberFindings(member: Node, className: string, at: Path): seq<Finding>
    requires member.kind == FieldDeclaration ==> FirstDeclaratorExists(member)
  {
    if member.kind == MethodDeclaration then MethodFindings(member, className, at)
    else if member.kind == FieldDeclaration then FieldFindings(member, className, at)
    else []
  }

  /** Findings for the first k members of the class at `at`. */
  function MembersFindings(c: Node, at: Path, k: nat): seq<Finding>
    requires k <= |c.children| && FieldsHaveDeclarators(c)
  {
    if k == 0 then []
    else MembersFindings(c, at, k - 1) + MemberFindings(c.children[k - 1], c.identifier, at + [k - 1])
  }

  /** Everything the rule reports for the class at `at`. */
  function ClassFindings(c: Node, at: Path): seq<Finding>
    requires FieldsHaveDeclarators(c)
  {
    if !EndsWith(c.identifier, "Repository") then [] else MembersFindings(c, at, |c.children|)
  }

  // ---------------------------------------------------------------------------
  // The visits

  method AnalyzeField(field: Node, className: string, at: Path, reported: seq<Finding>) returns (out: seq<Finding>)
    requires field.kind == FieldDeclaration && FirstDeclaratorExists(field)
    ensures out == reported + FieldFindings(field, className, at)
  {
    out := reported;
    if IsDateOnlyType(field.typeText) {
      var first := Declarators(field.children)[0];
      out := out + [FieldFinding(className, at, first)];
    }
  }

  method AnalyzeMethod(decl: Node, className: string, at: Path, reported: seq<Finding>) returns (out: seq<Finding>)
    requires decl.kind == MethodDeclaration
    ensures out == reported + MethodFindings(decl, className, at)
  {
    out := reported;
    for i := 0 to |decl.children|
      invariant out == reported + ParameterFindings(decl, className, at, i)
    {
      var parameter := decl.children[i];
      if IsDateOnlyParameter(parameter) {
        var finding := ParameterFinding(className, at + [i], parameter);
        AppendTwice(reported, ParameterFindings(decl, className, at, i), [finding]);
        out := out + [finding];
      }
    }
    ghost var parameterFindings := ParameterFindings(decl, className, at, |decl.children|);
    var variables := Descendants(decl);
    for j := 0 to |variables|
      invariant out == reported + parameterFindings + VariableFindings(variables, className, decl.identifier, at, j)
    {
      var variable := variables[j];
      if IsDateOnlyVariable(variable.node) {
        var finding := VariableFinding(className, decl.identifier, at + variable.path);
        AppendTwice(reported + parameterFindings, VariableFindings(variables, className, decl.identifier, at, j), [finding]);
        out := out + [finding];
      }
    }
    AppendTwice(reported, parameterFindings, VariableFindings(variables, className, decl.identifier, at, |variables|));
  }

  method AnalyzeClass(classDeclaration: Node, at: Path, reported: seq<Finding>) returns (out: seq<Finding>)
    requires classDeclaration.kind == ClassDeclaration && FieldsHaveDeclarators(classDeclaration)
    ensures out == reported + ClassFindings(classDeclaration, at)
  {
    out := reported;
    if !EndsWith(classDeclaration.identifier, "Repository") {
      return;
    }
    var members := classDeclaration.children;
    for i := 0 to |members|
      invariant out == reported + MembersFindings(classDeclaration, at, i)
    {
      var member := members[i];
      MembersFindingsStep(classDeclaration, at, i + 1);
      AppendTwice(reported, MembersFindings(classDeclaration, at, i),
        MemberFindings(member, classDeclaration.identifier, at + [i]));
      if member.kind == MethodDeclaration {
        out := AnalyzeMethod(member, classDeclaration.identifier, at + [i], out);
      } else if member.kind == FieldDeclaration {
        out := AnalyzeField(member, classDeclaration.identifier, at + [i], out);
      }
    }
  }

  /** Appending in two steps is appending the concatenation once. */
  lemma AppendTwice(reported: seq<Finding>, done: seq<Finding>, added: seq<Finding>)
    ensures reported + done + added == reported + (done + added)
  {
  }

  // ---------------------------------------------------------------------------
  // One finding per occurrence

  predicate ReportedAt(fs: seq<Finding>, loc: Location)
  {
    exists i :: 0 <= i < |fs| && fs[i].location == loc
  }

  predicate DistinctLocations(fs: seq<Finding>)
  {
    forall i, j {:trigger fs[i].location, fs[j].location} :: 0 <= i < j < |fs| ==> fs[i].location != fs[j].location
  }

  lemma ReportedAtConcat(a: seq<Finding>, b: seq<Finding>, loc: Location)
    ensures ReportedAt(a + b, loc) <==> ReportedAt(a, loc) || ReportedAt(b, loc)
  {
    if ReportedAt(a + b, loc) {
      var i :| 0 <= i < |a + b| && (a + b)[i].location == loc;
      if i < |a| {
        assert a[i].location == loc;
      } else {
        assert b[i - |a|].location == loc;
      }
    }
    if ReportedAt(a, loc) {
      var i :| 0 <= i < |a| && a[i].location == loc;
      assert (a + b)[i].location == loc;
    }
    if ReportedAt(b, loc) {
      var i :| 0 <= i < |b| && b[i].location == loc;
      assert (a + b)[|a| + i].location == loc;
    }
  }

  /** A DateOnly occurrence of a method, by relative path: a direct parameter or
      a variable declaration at any depth. */
  predicate IsMethodOccurrence(decl: Node, p: Path)
  {
    p != [] &&
    match NodeAt(decl, p)
    case Some(x) => (|p| == 1 && IsDateOnlyParameter(x)) || IsDateOnlyVariable(x)
    case None => false
  }

  /** The finding the rule owes for a method occurrence. */
  function ExpectedMethodFinding(decl: Node, className: string, at: Path, p: Path): Finding
    requires IsMethodOccurrence(decl, p)
  {
    var x := NodeAt(decl, p).value;
    if |p| == 1 && IsDateOnlyParameter(x) then ParameterFinding(className, at + p, x)
    else VariableFinding(className, decl.identifier, at + p)
  }

  lemma {:induction false} ParameterFindingsSound(decl: Node, className: string, at: Path, k: nat)
    requires k <= |decl.children|
    ensures forall i :: 0 <= i < |ParameterFindings(decl, className, at, k)| ==>
      var f := ParameterFindings(decl, className, at, k)[i];
      f.location.NodeSpan? && |f.location.path| == |at| + 1 && f.location.path[..|at|] == at &&
      f.location.path[|at|] < k && IsDateOnlyParameter(decl.children[f.location.path[|at|]]) &&
      f == ParameterFinding(className, at + [f.location.path[|at|]], decl.children[f.location.path[|at|]])
  {
    if k > 0 {
      ParameterFindingsSound(decl, className, at, k - 1);
      var prev := ParameterFindings(decl, className, at, k - 1);
      if IsDateOnlyParameter(decl.children[k - 1]) {
        var last := ParameterFinding(className, at + [k - 1], decl.children[k - 1]);
        assert ParameterFindings(decl, className, at, k) == prev + [last];
        assert (at + [k - 1])[..|at|] == at && (at + [k - 1])[|at|] == k - 1;
      } else {
        assert ParameterFindings(decl, className, at, k) == prev;
      }
    }
  }

  lemma {:induction false} ParameterFindingsComplete(decl: Node, className: string, at: Path, k: nat)
    requires k <= |decl.children|
    ensures forall j :: 0 <= j < k && IsDateOnlyParameter(decl.children[j]) ==>
      ReportedAt(ParameterFindings(decl, className, at, k), NodeSpan(at + [j]))
  {
    if k > 0 {
      ParameterFindingsComplete(decl, className, at, k - 1);
      var prev := ParameterFindings(decl, className, at, k - 1);
      if IsDateOnlyParameter(decl.children[k - 1]) {
        var last := ParameterFinding(className, at + [k - 1], decl.children[k - 1]);
        assert ParameterFindings(decl, className, at, k) == prev + [last];
        forall j | 0 <= j < k && IsDateOnlyParameter(decl.children[j])
          ensures ReportedAt(prev + [last], NodeSpan(at + [j]))
        {
          ReportedAtConcat(prev, [last], NodeSpan(at + [j]));
          if j == k - 1 {
            assert [last][0].location == NodeSpan(at + [j]);
          }
        }
      } else {
        assert ParameterFindings(decl, className, at, k) == prev;
      }
    }
  }

  lemma {:induction false} ParameterFindingsDistinct(decl: Node, className: string, at: Path, k: nat)
    requires k <= |decl.children|
    ensures DistinctLocations(ParameterFindings(decl, className, at, k))
  {
    if k > 0 {
      ParameterFindingsDistinct(decl, className, at, k - 1);
      ParameterFindingsSound(decl, className, at, k - 1);
      var prev := ParameterFindings(decl, className, at, k - 1);
      if IsDateOnlyParameter(decl.children[k - 1]) {
        var last := ParameterFinding(className, at + [k - 1], decl.children[k - 1]);
        assert ParameterFindings(decl, className, at, k) == prev + [last];
        assert (at + [k - 1])[|at|] == k - 1;
        forall i | 0 <= i < |prev| ensures prev[i].location != last.location {
          assert prev[i].location.path[|at|] < k - 1;
        }
      } else {
        assert ParameterFindings(decl, className, at, k) == prev;
      }
    }
  }

  /** `f` is the finding owed for one of the first k entries of `ds`. */
  predicate ReportsVariable(f: Finding, ds: seq<Located>, className: string, methodName: string, at: Path, k: nat)
    requires k <= |ds|
  {
    exists e :: 0 <= e < k && IsDateOnlyVariable(ds[e].node) &&
      f == VariableFinding(className, methodName, at + ds[e].path)
  }

  lemma {:induction false} VariableFindingsSound(ds: seq<Located>, className: string, methodName: string, at: Path, k: nat)
    requires k <= |ds|
    ensures forall i :: 0 <= i < |VariableFindings(ds, className, methodName, at, k)| ==>
      ReportsVariable(VariableFindings(ds, className, methodName, at, k)[i], ds, className, methodName, at, k)
  {
    if k > 0 {
      VariableFindingsSound(ds, className, methodName, at, k - 1);
      var prev := VariableFindings(ds, className, methodName, at, k - 1);
      forall i | 0 <= i < |prev| ensures ReportsVariable(prev[i], ds, className, methodName, at, k) {
        assert ReportsVariable(prev[i], ds, className, methodName, at, k - 1);
        var e :| 0 <= e < k - 1 && IsDateOnlyVariable(ds[e].node) &&
          prev[i] == VariableFinding(className, methodName, at + ds[e].path);
      }
      if IsDateOnlyVariable(ds[k - 1].node) {
        var last := VariableFinding(className, methodName, at + ds[k - 1].path);
        assert VariableFindings(ds, className, methodName, at, k) == prev + [last];
        assert ReportsVariable(last, ds, className, methodName, at, k);
      }
    }
  }

  lemma {:induction false} VariableFindingsComplete(ds: seq<Located>, className: string, methodName: string, at: Path, k: nat)
    requires k <= |ds|
    ensures forall e :: 0 <= e < k && IsDateOnlyVariable(ds[e].node) ==>
      ReportedAt(VariableFindings(ds, className, methodName, at, k), NodeSpan(at + ds[e].path))
  {
    if k > 0 {
      VariableFindingsComplete(ds, className, methodName, at, k - 1);
      var prev := VariableFindings(ds, className, methodName, at, k - 1);
      if IsDateOnlyVariable(ds[k - 1].node) {
        var last := VariableFinding(className, methodName, at + ds[k - 1].path);
        assert VariableFindings(ds, className, methodName, at, k) == prev + [last];
        forall e | 0 <= e < k && IsDateOnlyVariable(ds[e].node)
          ensures ReportedAt(prev + [last], NodeSpan(at + ds[e].path))
        {
          ReportedAtConcat(prev, [last], NodeSpan(at + ds[e].path));
          if e == k - 1 {
            assert [last][0].location == NodeSpan(at + ds[e].path);
          }
        }
      } else {
        assert VariableFindings(ds, className, methodName, at, k) == prev;
      }
    }
  }

  lemma {:induction false} VariableFindingsDistinct(ds: seq<Located>, className: string, methodName: string, at: Path, k: nat)
    requires k <= |ds| && DistinctPaths(ds)
    ensures DistinctLocations(VariableFindings(ds, className, methodName, at, k))
  {
    if k > 0 {
      VariableFindingsDistinct(ds, className, methodName, at, k - 1);
      VariableFindingsSound(ds, className, methodName, at, k - 1);
      var prev := VariableFindings(ds, className, methodName, at, k - 1);
      if IsDateOnlyVariable(ds[k - 1].node) {
        var last := VariableFinding(className, methodName, at + ds[k - 1].path);
        assert VariableFindings(ds, className, methodName, at, k) == prev + [last];
        forall i | 0 <= i < |prev| ensures prev[i].location != last.location {
          assert ReportsVariable(prev[i], ds, className, methodName, at, k - 1);
          var e :| 0 <= e < k - 1 && IsDateOnlyVariable(ds[e].node) &&
            prev[i] == VariableFinding(className, methodName, at + ds[e].path);
          assert ds[e].path != ds[k - 1].path;
          assert ds[e].path == (at + ds[e].path)[|at|..];
          assert ds[k - 1].path == (at + ds[k - 1].path)[|at|..];
        }
      }
    }
  }

  /** Every finding of a method sits at one of its occurrences and is the finding owed for it. */
  lemma MethodFindingsSound(decl: Node, className: string, at: Path)
    ensures forall i :: 0 <= i < |MethodFindings(decl, className, at)| ==>
      var f := MethodFindings(decl, className, at)[i];
      f.location.NodeSpan? && IsPrefix(at, f.location.path) &&
      IsMethodOccurrence(decl, f.location.path[|at|..]) &&
      f == ExpectedMethodFinding(decl, className, at, f.location.path[|at|..])
  {
    var ds := Descendants(decl);
    var ps := ParameterFindings(decl, className, at, |decl.children|);
    var vs := VariableFindings(ds, className, decl.identifier, at, |ds|);
    var r := MethodFindings(decl, className, at);
    assert r == ps + vs;
    DescendantsExact(decl);
    ParameterFindingsSound(decl, className, at, |decl.children|);
    VariableFindingsSound(ds, className, decl.identifier, at, |ds|);
    forall i | 0 <= i < |r|
      ensures r[i].location.NodeSpan? && IsPrefix(at, r[i].location.path) &&
        IsMethodOccurrence(decl, r[i].location.path[|at|..]) &&
        r[i] == ExpectedMethodFinding(decl, className, at, r[i].location.path[|at|..])
    {
      if i < |ps| {
        var f := ps[i];
        var j := f.location.path[|at|];
        assert f.location.path == at + [j];
        assert f.location.path[|at|..] == [j];
        assert NodeAt(decl, [j]) == Some(decl.children[j]);
      } else {
        var f := vs[i - |ps|];
        assert ReportsVariable(f, ds, className, decl.identifier, at, |ds|);
        var e :| 0 <= e < |ds| && IsDateOnlyVariable(ds[e].node) &&
          f == VariableFinding(className, decl.identifier, at + ds[e].path);
        assert f.location.path[|at|..] == ds[e].path;
      }
    }
  }

  /** Every occurrence of a method is reported. */
  lemma MethodFindingsComplete(decl: Node, className: string, at: Path)
    ensures forall p :: IsMethodOccurrence(decl, p) ==> ReportedAt(MethodFindings(decl, className, at), NodeSpan(at + p))
  {
    var ds := Descendants(decl);
    var ps := ParameterFindings(decl, className, at, |decl.children|);
    var vs := VariableFindings(ds, className, decl.identifier, at, |ds|);
    var r := MethodFindings(decl, className, at);
    assert r == ps + vs;
    DescendantsExact(decl);
    ParameterFindingsComplete(decl, className, at, |decl.children|);
    VariableFindingsComplete(ds, className, decl.identifier, at, |ds|);
    forall p | IsMethodOccurrence(decl, p) ensures ReportedAt(r, NodeSpan(at + p)) {
      var x := NodeAt(decl, p).value;
      ReportedAtConcat(ps, vs, NodeSpan(at + p));
      if |p| == 1 && IsDateOnlyParameter(x) {
        assert p[0] < |decl.children| && p[1..] == [];
        assert NodeAt(decl, p) == NodeAt(decl.children[p[0]], p[1..]);
        assert p == [p[0]];
      } else {
        assert HasPath(ds, p);
        var e :| 0 <= e < |ds| && ds[e].path == p;
      }
    }
  }

  /** No finding of `a` shares a location with a finding of `b`. */
  predicate LocationsApart(a: seq<Finding>, b: seq<Finding>)
  {
    forall i, j :: 0 <= i < |a| && 0 <= j < |b| ==> a[i].location != b[j].location
  }

  lemma DistinctConcat(a: seq<Finding>, b: seq<Finding>)
    requires DistinctLocations(a) && DistinctLocations(b) && LocationsApart(a, b)
    ensures DistinctLocations(a + b)
  {
    forall i, j | 0 <= i < j < |a + b| ensures (a + b)[i].location != (a + b)[j].location {
      if j < |a| {
        assert (a + b)[i] == a[i] && (a + b)[j] == a[j];
      } else if i >= |a| {
        assert (a + b)[i] == b[i - |a|] && (a + b)[j] == b[j - |a|];
      } else {
        assert (a + b)[i] == a[i] && (a + b)[j] == b[j - |a|];
      }
    }
  }

  /** The kind of the node of method `decl` (standing at `at`) that a location points at. */
  function KindAt(decl: Node, at: Path, loc: Location): Option<NodeKind>
  {
    if !IsPrefix(at, loc.path) then None
    else match NodeAt(decl, loc.path[|at|..])
      case Some(x) => Some(x.kind)
      case None => None
  }

  lemma ParameterFindingsAtParameters(decl: Node, className: string, at: Path)
    ensures forall i :: 0 <= i < |ParameterFindings(decl, className, at, |decl.children|)| ==>
      KindAt(decl, at, ParameterFindings(decl, className, at, |decl.children|)[i].location) == Some(Parameter)
  {
    var ps := ParameterFindings(decl, className, at, |decl.children|);
    ParameterFindingsSound(decl, className, at, |decl.children|);
    forall i | 0 <= i < |ps| ensures KindAt(decl, at, ps[i].location) == Some(Parameter) {
      var k := ps[i].location.path[|at|];
      assert ps[i].location.path == at + [k];
      assert ps[i].location.path[|at|..] == [k];
      assert NodeAt(decl, [k]) == Some(decl.children[k]);
    }
  }

  lemma VariableFindingsAtVariables(decl: Node, className: string, at: Path)
    ensures forall i :: 0 <= i < |VariableFindings(Descendants(decl), className, decl.identifier, at, |Descendants(decl)|)| ==>
      KindAt(decl, at, VariableFindings(Descendants(decl), className, decl.identifier, at, |Descendants(decl)|)[i].location)
        == Some(VariableDeclaration)
  {
    var ds := Descendants(decl);
    var vs := VariableFindings(ds, className, decl.identifier, at, |ds|);
    DescendantsExact(decl);
    VariableFindingsSound(ds, className, decl.identifier, at, |ds|);
    forall i | 0 <= i < |vs| ensures KindAt(decl, at, vs[i].location) == Some(VariableDeclaration) {
      assert ReportsVariable(vs[i], ds, className, decl.identifier, at, |ds|);
      var e :| 0 <= e < |ds| && IsDateOnlyVariable(ds[e].node) &&
        vs[i] == VariableFinding(className, decl.identifier, at + ds[e].path);
      assert (at + ds[e].path)[|at|..] == ds[e].path;
    }
  }

  /** No location of a method is reported twice. */
  lemma MethodFindingsDistinct(decl: Node, className: string, at: Path)
    ensures DistinctLocations(MethodFindings(decl, className, at))
  {
    var ds := Descendants(decl);
    var ps := ParameterFindings(decl, className, at, |decl.children|);
    var vs := VariableFindings(ds, className, decl.identifier, at, |ds|);
    DescendantsExact(decl);
    ParameterFindingsDistinct(decl, className, at, |decl.children|);
    VariableFindingsDistinct(ds, className, decl.identifier, at, |ds|);
    ParameterFindingsAtParameters(decl, className, at);
    VariableFindingsAtVariables(decl, className, at);
    forall i, j | 0 <= i < |ps| && 0 <= j < |vs| ensures ps[i].location != vs[j].location {
      assert KindAt(decl, at, ps[i].location) != KindAt(decl, at, vs[j].location);
    }
    DistinctConcat(ps, vs);
  }

  /**
   * Exactly one finding per DateOnly occurrence of a method, and nothing else:
   * every finding sits at an occurrence and is the finding owed for it, every
   * occurrence is reported, and no location is reported twice.
   */
  lemma MethodFindingsExact(decl: Node, className: string, at: Path)
    ensures forall i :: 0 <= i < |MethodFindings(decl, className, at)| ==>
      var f := MethodFindings(decl, className, at)[i];
      f.location.NodeSpan? && IsPrefix(at, f.location.path) &&
      IsMethodOccurrence(decl, f.location.path[|at|..]) &&
      f == ExpectedMethodFinding(decl, className, at, f.location.path[|at|..])
    ensures forall p :: IsMethodOccurrence(decl, p) ==> ReportedAt(MethodFindings(decl, className, at), NodeSpan(at + p))
    ensures DistinctLocations(MethodFindings(decl, className, at))
  {
    MethodFindingsSound(decl, className, at);
    MethodFindingsComplete(decl, className, at);
    MethodFindingsDistinct(decl, className, at);
  }

  /** Findings of the method rule that name a parameter (their role text starts with "parameter '"). */
  predicate IsParameterFinding(f: Finding)
  {
    |f.args| == 2 && f.args[1].Str? && StartsWith(f.args[1].s, "parameter '")
  }

  lemma ParameterFindingsNameParameters(decl: Node, className: string, at: Path)
    ensures forall i :: 0 <= i < |ParameterFindings(decl, className, at, |decl.children|)| ==>
      IsParameterFinding(ParameterFindings(decl, className, at, |decl.children|)[i])
  {
    var ps := ParameterFindings(decl, className, at, |decl.children|);
    ParameterFindingsSound(decl, className, at, |decl.children|);
    forall i | 0 <= i < |ps| ensures IsParameterFinding(ps[i]) {
      assert ps[i].args[1].s[..11] == "parameter '";
    }
  }

  lemma VariableFindingsNameNoParameter(decl: Node, className: string, at: Path)
    ensures forall i :: 0 <= i < |VariableFindings(Descendants(decl), className, decl.identifier, at, |Descendants(decl)|)| ==>
      !IsParameterFinding(VariableFindings(Descendants(decl), className, decl.identifier, at, |Descendants(decl)|)[i])
  {
    var ds := Descendants(decl);
    var vs := VariableFindings(ds, className, decl.identifier, at, |ds|);
    VariableFindingsSound(ds, className, decl.identifier, at, |ds|);
    forall i | 0 <= i < |vs| ensures !IsParameterFinding(vs[i]) {
      assert ReportsVariable(vs[i], ds, className, decl.identifier, at, |ds|);
      assert vs[i].args[1].s[0] == 'v';
    }
  }

  /** Within one method, every parameter finding comes before every variable finding. */
  lemma MethodFindingsParametersFirst(decl: Node, className: string, at: Path)
    ensures forall i, j ::
      0 <= i < j < |MethodFindings(decl, className, at)| && IsParameterFinding(MethodFindings(decl, className, at)[j])
      ==> IsParameterFinding(MethodFindings(decl, className, at)[i])
  {
    var ds := Descendants(decl);
    var ps := ParameterFindings(decl, className, at, |decl.children|);
    var vs := VariableFindings(ds, className, decl.identifier, at, |ds|);
    var r := MethodFindings(decl, className, at);
    assert r == ps + vs;
    ParameterFindingsNameParameters(decl, className, at);
    VariableFindingsNameNoParameter(decl, className, at);
    forall i, j | 0 <= i < j < |r| && IsParameterFinding(r[j]) ensures IsParameterFinding(r[i]) {
      assert j < |ps|;
      assert r[i] == ps[i];
    }
  }

  /** A DateOnly occurrence of a class, by path relative to the class: a DateOnly
      field, or an occurrence of one of its methods. */
  predicate IsMemberOccurrence(c: Node, q: Path)
  {
    q != [] && q[0] < |c.children| &&
    var member := c.children[q[0]];
    (member.kind == FieldDeclaration && |q| == 1 && IsDateOnlyType(member.typeText)) ||
    (member.kind == MethodDeclaration && IsMethodOccurrence(member, q[1..]))
  }

  /** Only the members of a *Repository class count. */
  predicate IsClassOccurrence(c: Node, q: Path)
  {
    EndsWith(c.identifier, "Repository") && IsMemberOccurrence(c, q)
  }

  /** The finding owed for an occurrence; a field names its first declarator. */
  function ExpectedFinding(c: Node, at: Path, q: Path): Finding
    requires FieldsHaveDeclarators(c) && IsMemberOccurrence(c, q)
  {
    var member := c.children[q[0]];
    if member.kind == FieldDeclaration then
      FieldFinding(c.identifier, at + q, Declarators(member.children)[0])
    else ExpectedMethodFinding(member, c.identifier, at + [q[0]], q[1..])
  }

  /** The member of the class at `at` that a finding points into, or -1. */
  function MemberOf(f: Finding, at: Path): int
  {
    if |f.location.path| > |at| then f.location.path[|at|] else -1
  }

  lemma MethodMemberSound(c: Node, at: Path, j: nat)
    requires j < |c.children| && c.children[j].kind == MethodDeclaration
    ensures forall i :: 0 <= i < |MethodFindings(c.children[j], c.identifier, at + [j])| ==>
      var f := MethodFindings(c.children[j], c.identifier, at + [j])[i];
      f.location.NodeSpan? && IsPrefix(at, f.location.path) && MemberOf(f, at) == j &&
      IsMemberOccurrence(c, f.location.path[|at|..]) &&
      f == ExpectedMethodFinding(c.children[j], c.identifier, at + [j], f.location.path[|at| + 1..])
  {
    var m := MethodFindings(c.children[j], c.identifier, at + [j]);
    MethodFindingsSound(c.children[j], c.identifier, at + [j]);
    forall i | 0 <= i < |m|
      ensures m[i].location.NodeSpan? && IsPrefix(at, m[i].location.path) && MemberOf(m[i], at) == j &&
        IsMemberOccurrence(c, m[i].location.path[|at|..]) &&
        m[i] == ExpectedMethodFinding(c.children[j], c.identifier, at + [j], m[i].location.path[|at| + 1..])
    {
      var path := m[i].location.path;
      var rel := path[|at| + 1..];
      assert path == (at + [j]) + rel;
      assert path[|at|..] == [j] + rel;
      assert ([j] + rel)[1..] == rel;
    }
  }

  lemma MemberFindingsSound(c: Node, at: Path, j: nat)
    requires j < |c.children| && FieldsHaveDeclarators(c)
    ensures forall i :: 0 <= i < |MemberFindings(c.children[j], c.identifier, at + [j])| ==>
      var f := MemberFindings(c.children[j], c.identifier, at + [j])[i];
      f.location.NodeSpan? && IsPrefix(at, f.location.path) && MemberOf(f, at) == j &&
      IsMemberOccurrence(c, f.location.path[|at|..]) && f == ExpectedFinding(c, at, f.location.path[|at|..])
  {
    var member := c.children[j];
    if member.kind == MethodDeclaration {
      MethodMemberSound(c, at, j);
      var m := MethodFindings(member, c.identifier, at + [j]);
      forall i | 0 <= i < |m|
        ensures ExpectedFinding(c, at, m[i].location.path[|at|..]) ==
          ExpectedMethodFinding(member, c.identifier, at + [j], m[i].location.path[|at| + 1..])
      {
        assert m[i].location.path[|at|..][1..] == m[i].location.path[|at| + 1..];
      }
    } else if member.kind == FieldDeclaration && IsDateOnlyType(member.typeText) {
      assert (at + [j])[|at|..] == [j];
    }
  }

  lemma MethodMemberComplete(c: Node, at: Path, j: nat)
    requires j < |c.children| && c.children[j].kind == MethodDeclaration
    ensures forall q :: IsMemberOccurrence(c, q) && q[0] == j ==>
      ReportedAt(MethodFindings(c.children[j], c.identifier, at + [j]), NodeSpan(at + q))
  {
    MethodFindingsComplete(c.children[j], c.identifier, at + [j]);
    forall q | IsMemberOccurrence(c, q) && q[0] == j
      ensures ReportedAt(MethodFindings(c.children[j], c.identifier, at + [j]), NodeSpan(at + q))
    {
      assert IsMethodOccurrence(c.children[j], q[1..]);
      assert (at + [j]) + q[1..] == at + q;
    }
  }

  lemma MemberFindingsComplete(c: Node, at: Path, j: nat)
    requires j < |c.children| && FieldsHaveDeclarators(c)
    ensures forall q :: IsMemberOccurrence(c, q) && q[0] == j ==>
      ReportedAt(MemberFindings(c.children[j], c.identifier, at + [j]), NodeSpan(at + q))
  {
    var member := c.children[j];
    var m := MemberFindings(member, c.identifier, at + [j]);
    if member.kind == MethodDeclaration {
      MethodMemberComplete(c, at, j);
    } else if member.kind == FieldDeclaration && IsDateOnlyType(member.typeText) {
      assert m[0].location == NodeSpan(at + [j]);
      forall q | IsMemberOccurrence(c, q) && q[0] == j ensures ReportedAt(m, NodeSpan(at + q)) {
        assert q == [j];
      }
    }
  }

  lemma {:induction false} MembersFindingsSound(c: Node, at: Path, k: nat)
    requires k <= |c.children| && FieldsHaveDeclarators(c)
    ensures forall i :: 0 <= i < |MembersFindings(c, at, k)| ==>
      var f := MembersFindings(c, at, k)[i];
      f.location.NodeSpan? && IsPrefix(at, f.location.path) && 0 <= MemberOf(f, at) < k &&
      IsMemberOccurrence(c, f.location.path[|at|..]) && f == ExpectedFinding(c, at, f.location.path[|at|..])
  {
    if k > 0 {
      MembersFindingsSound(c, at, k - 1);
      MemberFindingsSound(c, at, k - 1);
      var prev := MembersFindings(c, at, k - 1);
      var m := MemberFindings(c.children[k - 1], c.identifier, at + [k - 1]);
      var r := MembersFindings(c, at, k);
      assert r == prev + m;
      forall i | 0 <= i < |r|
        ensures r[i].location.NodeSpan? && IsPrefix(at, r[i].location.path) && 0 <= MemberOf(r[i], at) < k &&
          IsMemberOccurrence(c, r[i].location.path[|at|..]) && r[i] == ExpectedFinding(c, at, r[i].location.path[|at|..])
      {
        if i < |prev| { assert r[i] == prev[i]; } else { assert r[i] == m[i - |prev|]; }
      }
    }
  }

  lemma ReportedAtPrefix(a: seq<Finding>, b: seq<Finding>, loc: Location)
    requires a <= b && ReportedAt(a, loc)
    ensures ReportedAt(b, loc)
  {
    var i :| 0 <= i < |a| && a[i].location == loc;
    assert b[i] == a[i];
  }

  /** The findings of the first j members are a prefix of those of the first k. */
  lemma {:induction false} MembersFindingsPrefix(c: Node, at: Path, j: nat, k: nat)
    requires j <= k <= |c.children| && FieldsHaveDeclarators(c)
    ensures MembersFindings(c, at, j) <= MembersFindings(c, at, k)
  {
    if j < k {
      MembersFindingsPrefix(c, at, j, k - 1);
      var m := MemberFindings(c.children[k - 1], c.identifier, at + [k - 1]);
      assert MembersFindings(c, at, k) == MembersFindings(c, at, k - 1) + m;
    }
  }

  /** Whatever member j reports, the class reports. */
  lemma MemberFindingsInClass(c: Node, at: Path, j: nat, loc: Location)
    requires j < |c.children| && FieldsHaveDeclarators(c)
    requires ReportedAt(MemberFindings(c.children[j], c.identifier, at + [j]), loc)
    ensures ReportedAt(MembersFindings(c, at, |c.children|), loc)
  {
    var m := MemberFindings(c.children[j], c.identifier, at + [j]);
    assert MembersFindings(c, at, j + 1) == MembersFindings(c, at, j) + m;
    ReportedAtConcat(MembersFindings(c, at, j), m, loc);
    MembersFindingsPrefix(c, at, j + 1, |c.children|);
    ReportedAtPrefix(MembersFindings(c, at, j + 1), MembersFindings(c, at, |c.children|), loc);
  }

  lemma MembersFindingsComplete(c: Node, at: Path)
    requires FieldsHaveDeclarators(c)
    ensures forall q :: IsMemberOccurrence(c, q) ==> ReportedAt(MembersFindings(c, at, |c.children|), NodeSpan(at + q))
  {
    forall q | IsMemberOccurrence(c, q) ensures ReportedAt(MembersFindings(c, at, |c.children|), NodeSpan(at + q)) {
      MemberFindingsComplete(c, at, q[0]);
      MemberFindingsInClass(c, at, q[0], NodeSpan(at + q));
    }
  }

  /** Every finding for member j points into member j, at distinct locations. */
  lemma MemberFindingsIndex(c: Node, at: Path, j: nat)
    requires j < |c.children| && FieldsHaveDeclarators(c)
    ensures AllInMember(MemberFindings(c.children[j], c.identifier, at + [j]), at, j)
    ensures DistinctLocations(MemberFindings(c.children[j], c.identifier, at + [j]))
  {
    MemberFindingsSound(c, at, j);
    if c.children[j].kind == MethodDeclaration {
      MethodFindingsDistinct(c.children[j], c.identifier, at + [j]);
    }
  }

  /** Every finding in fs points into member j. */
  predicate AllInMember(fs: seq<Finding>, at: Path, j: int)
  {
    forall i {:trigger MemberOf(fs[i], at)} :: 0 <= i < |fs| ==> MemberOf(fs[i], at) == j
  }

  /** Findings that point into members 0..k-1, in member order, at distinct locations. */
  predicate InMemberOrder(fs: seq<Finding>, at: Path, k: nat)
  {
    && (forall i {:trigger MemberOf(fs[i], at)} :: 0 <= i < |fs| ==> 0 <= MemberOf(fs[i], at) < k)
    && (forall i, j {:trigger MemberOf(fs[i], at), MemberOf(fs[j], at)} :: 0 <= i < j < |fs| ==> MemberOf(fs[i], at) <= MemberOf(fs[j], at))
    && DistinctLocations(fs)
  }

  /** Appending the findings of member k - 1 to findings of earlier members keeps member order and distinctness. */
  lemma AppendMember(prev: seq<Finding>, m: seq<Finding>, r: seq<Finding>, at: Path, k: nat)
    requires 0 < k && r == prev + m
    requires InMemberOrder(prev, at, k - 1) && DistinctLocations(m)
    requires AllInMember(m, at, k - 1)
    ensures InMemberOrder(r, at, k)
  {
    forall i | 0 <= i < |r| ensures 0 <= MemberOf(r[i], at) < k {
      if i < |prev| { assert r[i] == prev[i]; } else { assert r[i] == m[i - |prev|]; }
    }
    forall i, i' | 0 <= i < i' < |r|
      ensures MemberOf(r[i], at) <= MemberOf(r[i'], at) && r[i].location != r[i'].location
    {
      if i' < |prev| {
        assert r[i] == prev[i] && r[i'] == prev[i'];
      } else if i >= |prev| {
        assert r[i] == m[i - |prev|] && r[i'] == m[i' - |prev|];
      } else {
        assert r[i] == prev[i] && r[i'] == m[i' - |prev|];
      }
    }
  }

  /** Findings of the first k members point into those members, in member order, at distinct locations. */
  lemma {:induction false} MembersFindingsOrdered(c: Node, at: Path, k: nat)
    requires k <= |c.children| && FieldsHaveDeclarators(c)
    ensures InMemberOrder(MembersFindings(c, at, k), at, k)
  {
    if k > 0 {
      MembersFindingsOrdered(c, at, k - 1);
      MemberFindingsIndex(c, at, k - 1);
      MembersFindingsStep(c, at, k);
      AppendMember(MembersFindings(c, at, k - 1), MemberFindings(c.children[k - 1], c.identifier, at + [k - 1]),
        MembersFindings(c, at, k), at, k);
    }
  }

  lemma MembersFindingsStep(c: Node, at: Path, k: nat)
    requires 0 < k <= |c.children| && FieldsHaveDeclarators(c)
    ensures MembersFindings(c, at, k) ==
      MembersFindings(c, at, k - 1) + MemberFindings(c.children[k - 1], c.identifier, at + [k - 1])
  {
  }

  /**
   * The rule on one class finds exactly the DateOnly occurrences of a *Repository
   * class: each finding is the one owed for an occurrence, each occurrence is
   * reported, no location twice, and findings come in member order. A class
   * with any other name yields nothing, whatever its accessibility.
   */
  lemma ClassFindingsExact(c: Node, at: Path)
    requires FieldsHaveDeclarators(c)
    ensures forall i :: 0 <= i < |ClassFindings(c, at)| ==>
      var f := ClassFindings(c, at)[i];
      f.location.NodeSpan? && IsPrefix(at, f.location.path) &&
      IsClassOccurrence(c, f.location.path[|at|..]) && f == ExpectedFinding(c, at, f.location.path[|at|..])
    ensures forall q :: IsClassOccurrence(c, q) ==> ReportedAt(ClassFindings(c, at), NodeSpan(at + q))
    ensures DistinctLocations(ClassFindings(c, at))
    ensures forall i, j :: 0 <= i < j < |ClassFindings(c, at)| ==>
      MemberOf(ClassFindings(c, at)[i], at) <= MemberOf(ClassFindings(c, at)[j], at)
  {
    MembersFindingsSound(c, at, |c.children|);
    MembersFindingsComplete(c, at);
    MembersFindingsOrdered(c, at, |c.children|);
  }

  /** `void methodName(DateOnly parameterName) {}` */
  function OneParameterMethod(methodName: string, parameterName: string): Node
  {
    Node(MethodDeclaration, methodName, Some("void"), [],
      [Node(Parameter, parameterName, Some("DateOnly"), [], []), Node(Block, "", None, [], [])])
  }

  lemma OneParameterMethodDescendants(methodName: string, parameterName: string)
    ensures var m := OneParameterMethod(methodName, parameterName);
      Descendants(m) == [Located([0], m.children[0]), Located([1], m.children[1])]
  {
    var m := OneParameterMethod(methodName, parameterName);
    var parameter, body := m.children[0], m.children[1];
    assert Descendants(parameter) == [] && Descendants(body) == [];
    assert m.children[1..] == [body] && [body][1..] == [];
    assert Nest(0, []) == [] && Nest(1, []) == [];
    assert DescendantsOf([body], 1) == [Located([1], body)];
    assert Descendants(m) == DescendantsOf(m.children, 0);
  }

  lemma OneParameterMethodFindings(methodName: string, parameterName: string, className: string, at: Path)
    ensures var m := OneParameterMethod(methodName, parameterName);
      MethodFindings(m, className, at) == [ParameterFinding(className, at + [0], m.children[0])]
  {
    var m := OneParameterMethod(methodName, parameterName);
    var found := ParameterFinding(className, at + [0], m.children[0]);
    assert ParameterFindings(m, className, at, 1) == [found];
    assert ParameterFindings(m, className, at, 2) == [found];
    OneParameterMethodDescendants(methodName, parameterName);
    var ds := Descendants(m);
    assert VariableFindings(ds, className, methodName, at, 1) == [];
    assert VariableFindings(ds, className, methodName, at, 2) == [];
  }

  /** `internal class className { void methodName(DateOnly parameterName) {} }` with className a
      repository name: one finding, on the parameter, naming it. */
  lemma OneDateOnlyParameterReported(className: string, methodName: string, parameterName: string, at: Path)
    requires EndsWith(className, "Repository")
    ensures var c := Node(ClassDeclaration, className, None, [Modifier(InternalKeyword, [], [])],
        [OneParameterMethod(methodName, parameterName)]);
      ClassFindings(c, at) ==
        [Finding(DiagnosticId, NodeSpan(at + [0, 0]), [Str(className), Str("parameter '" + parameterName + "'")])]
  {
    var m := OneParameterMethod(methodName, parameterName);
    var c := Node(ClassDeclaration, className, None, [Modifier(InternalKeyword, [], [])], [m]);
    OneParameterMethodFindings(methodName, parameterName, className, at + [0]);
    assert MembersFindings(c, at, 1) == MembersFindings(c, at, 0) + MethodFindings(m, className, at + [0]);
    assert at + [0] + [0] == at + [0, 0];
  }

  /** The class's modifiers play no part: the rule has no accessibility gate. */
  lemma {:induction false} MembersFindingsIgnoreModifiers(c: Node, ms: seq<Modifier>, at: Path, k: nat)
    requires k <= |c.children| && FieldsHaveDeclarators(c)
    ensures FieldsHaveDeclarators(c.(modifiers := ms))
    ensures MembersFindings(c.(modifiers := ms), at, k) == MembersFindings(c, at, k)
  {
    if k > 0 {
      MembersFindingsIgnoreModifiers(c, ms, at, k - 1);
    }
  }

  lemma ClassFindingsIgnoreModifiers(c: Node, ms: seq<Modifier>, at: Path)
    requires FieldsHaveDeclarators(c)
    ensures FieldsHaveDeclarators(c.(modifiers := ms))
    ensures ClassFindings(c.(modifiers := ms), at) == ClassFindings(c, at)
  {
    MembersFindingsIgnoreModifiers(c, ms, at, |c.children|);
  }

  /** `class OrderService { ... }` is not a repository: nothing is reported, whatever its members. */
  lemma OrderServiceNotReported(ms: seq<Modifier>, members: seq<Node>, at: Path)
    requires FieldsHaveDeclarators(Node(ClassDeclaration, "OrderService", None, ms, members))
    ensures ClassFindings(Node(ClassDeclaration, "OrderService", None, ms, members), at) == []
  {
    assert "OrderService"[2..][0] != "Repository"[0];
  }

  /** Scalar fields named by their first declarator, even with several declarators. */
  lemma FieldNamesFirstDeclarator(field: Node, className: string, at: Path)
    requires field.kind == FieldDeclaration && IsDateOnlyType(field.typeText)
    requires |field.children| >= 2 && field.children[0].kind == VariableDeclarator && field.children[1].kind == VariableDeclarator
    ensures FieldFindings(field, className, at) ==
      [Finding(DiagnosticId, NodeSpan(at), [Str(className), Str("field '" + field.children[0].identifier + "'")])]
  {
    assert Declarators(field.children)[0] == field.children[0];
  }

  /** The type match is exact text: qualified, nullable, longer and missing types do not match. */
  lemma DateOnlyIsExactText()
    ensures IsDateOnlyType(Some("DateOnly"))
    ensures !IsDateOnlyType(Some("System.DateOnly")) && !IsDateOnlyType(Some("DateOnly?"))
    ensures !IsDateOnlyType(Some("DateOnlyX")) && !IsDateOnlyType(None)
  {
    assert "System.DateOnly"[0] != "DateOnly"[0];
    assert |"DateOnly?"| != |"DateOnly"|;
    assert |"DateOnlyX"| != |"DateOnly"|;
  }
}
