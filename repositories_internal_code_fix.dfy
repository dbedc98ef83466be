/**
 * The "Make repository internal" code fix: find the innermost type declaration
 * around the diagnostic, rebuild its modifier list as `internal` followed by
 * the original non-access modifiers, and replace that declaration, and only
 * it, in the document root.
 */
module RepositoriesShouldBeInternalCodeFix {
  import opened SyntaxModel

  /** public, private, protected and internal are the access modifiers. */
  predicate IsAccessModifier(m: Modifier)
  {
    m.kind == PublicKeyword || m.kind == PrivateKeyword || m.kind == ProtectedKeyword || m.kind == InternalKeyword
  }

  /** The token the fix inserts: `internal` with exactly one space before it;
      its trailing trivia is the elastic marker a freshly made token carries. */
  function InternalModifier(): Modifier
  {
    Modifier(InternalKeyword, [Whitespace(" ")], [ElasticMarker])
  }

  /** The modifiers that are not access modifiers, in their original order. */
  function NonAccessModifiers(ms: seq<Modifier>): seq<Modifier>
  {
    if ms == [] then []
    else NonAccessModifiers(ms[..|ms| - 1]) + (if IsAccessModifier(ms[|ms| - 1]) then [] else [ms[|ms| - 1]])
  }

  /** How many access modifiers a modifier list holds. */
  function AccessModifierCount(ms: seq<Modifier>): nat
  {
    if ms == [] then 0
    else AccessModifierCount(ms[..|ms| - 1]) + (if IsAccessModifier(ms[|ms| - 1]) then 1 else 0)
  }

  /** The modifier list the fix gives the declaration. */
  function FixedModifiers(ms: seq<Modifier>): seq<Modifier>
  {
    [InternalModifier()] + NonAccessModifiers(ms)
  }

  lemma {:induction false} NonAccessModifiersConcat(a: seq<Modifier>, b: seq<Modifier>)
    ensures NonAccessModifiers(a + b) == NonAccessModifiers(a) + NonAccessModifiers(b)
    decreases |b|
  {
    if b == [] {
      assert a + b == a;
    } else {
      var b' := b[..|b| - 1];
      assert (a + b)[..|a + b| - 1] == a + b';
      assert (a + b)[|a + b| - 1] == b[|b| - 1];
      NonAccessModifiersConcat(a, b');
    }
  }

  /** Exactly the non-access modifiers of the input survive, tokens unchanged. */
  lemma {:induction false} NonAccessModifiersMembers(ms: seq<Modifier>)
    ensures forall m :: m in NonAccessModifiers(ms) <==> m in ms && !IsAccessModifier(m)
  {
    if ms != [] {
      var init := ms[..|ms| - 1];
      NonAccessModifiersMembers(init);
      assert ms == init + [ms[|ms| - 1]];
    }
  }

  /** Dropping the access modifiers shortens the list by their number. */
  lemma {:induction false} NonAccessModifiersLength(ms: seq<Modifier>)
    ensures |NonAccessModifiers(ms)| + AccessModifierCount(ms) == |ms|
    ensures AccessModifierCount(NonAccessModifiers(ms)) == 0
  {
    if ms != [] {
      var init := ms[..|ms| - 1];
      NonAccessModifiersLength(init);
      var r := NonAccessModifiers(ms);
      if !IsAccessModifier(ms[|ms| - 1]) {
        assert r == NonAccessModifiers(init) + [ms[|ms| - 1]];
        assert r[..|r| - 1] == NonAccessModifiers(init);
        assert r[|r| - 1] == ms[|ms| - 1];
      } else {
        assert r == NonAccessModifiers(init) + [];
        assert r == NonAccessModifiers(init);
      }
    }
  }

  /**
   * Order is preserved: the non-access modifier at position i of the input is
   * found in the output right after the non-access modifiers that preceded it.
   */
  lemma NonAccessModifiersOrder(ms: seq<Modifier>, i: nat)
    requires i < |ms| && !IsAccessModifier(ms[i])
    ensures |NonAccessModifiers(ms[..i])| < |NonAccessModifiers(ms)|
    ensures NonAccessModifiers(ms)[|NonAccessModifiers(ms[..i])|] == ms[i]
  {
    assert ms == ms[..i] + ([ms[i]] + ms[i + 1..]);
    NonAccessModifiersConcat(ms[..i], [ms[i]] + ms[i + 1..]);
    NonAccessModifiersConcat([ms[i]], ms[i + 1..]);
    assert NonAccessModifiers([ms[i]]) == [ms[i]] by {
      assert [ms[i]][..0] == [];
    }
  }

  /** Filtering twice is filtering once. */
  lemma {:induction false} NonAccessModifiersIdempotent(ms: seq<Modifier>)
    ensures NonAccessModifiers(NonAccessModifiers(ms)) == NonAccessModifiers(ms)
  {
    if ms != [] {
      var init := ms[..|ms| - 1];
      var last := ms[|ms| - 1];
      NonAccessModifiersIdempotent(init);
      var tail := if IsAccessModifier(last) then [] else [last];
      NonAccessModifiersConcat(NonAccessModifiers(init), tail);
      if !IsAccessModifier(last) {
        assert NonAccessModifiers([last]) == [last] by {
          assert [last][..0] == [];
        }
      }
    }
  }

  /**
   * After the fix the list holds exactly one access modifier, `internal` with
   * one space of leading trivia, and it comes first; the rest are the original
   * non-access modifiers.
   */
  lemma FixedModifiersShape(ms: seq<Modifier>)
    ensures |FixedModifiers(ms)| == 1 + |ms| - AccessModifierCount(ms)
    ensures FixedModifiers(ms)[0].kind == InternalKeyword
    ensures FixedModifiers(ms)[0].leading == [Whitespace(" ")]
    ensures AccessModifierCount(FixedModifiers(ms)) == 1
    ensures forall i :: 1 <= i < |FixedModifiers(ms)| ==>
      !IsAccessModifier(FixedModifiers(ms)[i]) && FixedModifiers(ms)[i] in ms
  {
    NonAccessModifiersLength(ms);
    NonAccessModifiersMembers(ms);
    var r := FixedModifiers(ms);
    NonAccessModifiersLength(r);
    NonAccessModifiersConcat([InternalModifier()], NonAccessModifiers(ms));
    NonAccessModifiersIdempotent(ms);
    assert NonAccessModifiers([InternalModifier()]) == [] by {
      assert [InternalModifier()][..0] == [];
    }
    forall i | 1 <= i < |r| ensures !IsAccessModifier(r[i]) && r[i] in ms {
      assert r[i] in NonAccessModifiers(ms);
    }
  }

  /** Rebuilding an already rebuilt list changes nothing. */
  lemma FixedModifiersIdempotent(ms: seq<Modifier>)
    ensures FixedModifiers(FixedModifiers(ms)) == FixedModifiers(ms)
  {
    NonAccessModifiersConcat([InternalModifier()], NonAccessModifiers(ms));
    NonAccessModifiersIdempotent(ms);
    assert NonAccessModifiers([InternalModifier()]) == [] by {
      assert [InternalModifier()][..0] == [];
    }
  }

  /**
   * MakeInternalAsync's modifier loop: start from `internal` and append each
   * original modifier that is not an access modifier.
   */
  method BuildModifiers(modifiers: seq<Modifier>) returns (newModifiers: seq<Modifier>)
    ensures newModifiers == FixedModifiers(modifiers)
  {
    var internalModifier := InternalModifier();
    newModifiers := [];
    newModifiers := newModifiers + [internalModifier];
    for i := 0 to |modifiers|
      invariant newModifiers == [internalModifier] + NonAccessModifiers(modifiers[..i])
    {
      var modifier := modifiers[i];
      assert modifiers[..i + 1][..i] == modifiers[..i];
      if !IsAccessModifier(modifier) {
        newModifiers := newModifiers + [modifier];
      }
    }
    assert modifiers[..|modifiers|] == modifiers;
  }

  /** The declaration with its modifier list rebuilt. */
  function WithFixedModifiers(decl: Node): Node
  {
    decl.(modifiers := FixedModifiers(decl.modifiers))
  }

  predicate TypeDeclarationAt(root: Node, p: Path)
  {
    match NodeAt(root, p)
    case Some(n) => IsTypeDeclaration(n.kind)
    case None => false
  }

  /** The document root after the fix is applied to the declaration at `target`. */
  function FixedRoot(root: Node, target: Path): Node
    requires TypeDeclarationAt(root, target)
  {
    ReplaceAt(root, target, WithFixedModifiers(NodeAt(root, target).value))
  }

  /**
   * MakeInternalAsync: only the target's modifier list changes. The target keeps
   * its kind, name, type and members; every node below it and every node beside
   * it is identical; the nodes above it keep everything but the changed child.
   */
  method MakeInternal(root: Node, target: Path) returns (newRoot: Node)
    requires TypeDeclarationAt(root, target)
    ensures newRoot == FixedRoot(root, target)
    ensures NodeAt(newRoot, target) == Some(NodeAt(root, target).value.(modifiers := FixedModifiers(NodeAt(root, target).value.modifiers)))
    ensures forall q :: q != [] ==> NodeAt(newRoot, target + q) == NodeAt(root, target + q)
    ensures forall q :: !IsPrefix(target, q) && !IsPrefix(q, target) ==> NodeAt(newRoot, q) == NodeAt(root, q)
    ensures forall q :: IsPrefix(q, target) && q != target ==>
      ValidPath(newRoot, q) && ValidPath(root, q) && SameHeader(NodeAt(newRoot, q).value, NodeAt(root, q).value)
  {
    var typeDecl := NodeAt(root, target).value;
    var newModifiers := BuildModifiers(typeDecl.modifiers);
    var newTypeDecl := typeDecl.(modifiers := newModifiers);
    newRoot := ReplaceAt(root, target, newTypeDecl);
    ReplaceAtTarget(root, target, newTypeDecl, []);
    assert target + [] == target;
    forall q | q != [] ensures NodeAt(newRoot, target + q) == NodeAt(root, target + q) {
      ReplaceAtTarget(root, target, newTypeDecl, q);
      assert q[0] < |typeDecl.children| ==> NodeAt(newTypeDecl, q) == NodeAt(typeDecl, q);
      NodeAtConcat(root, target, q);
    }
    forall q | !IsPrefix(target, q) && !IsPrefix(q, target) ensures NodeAt(newRoot, q) == NodeAt(root, q) {
      ReplaceAtElsewhere(root, target, newTypeDecl, q);
    }
    forall q | IsPrefix(q, target) && q != target
      ensures ValidPath(newRoot, q) && ValidPath(root, q) && SameHeader(NodeAt(newRoot, q).value, NodeAt(root, q).value)
    {
      ReplaceAtAbove(root, target, newTypeDecl, q);
    }
  }

  /** Looking a path up in two steps. */
  lemma {:induction false} NodeAtConcat(root: Node, p: Path, q: Path)
    requires ValidPath(root, p)
    ensures NodeAt(root, p + q) == NodeAt(NodeAt(root, p).value, q)
    decreases |p|
  {
    if p == [] {
      assert p + q == q;
    } else {
      assert (p + q)[0] == p[0] && (p + q)[1..] == p[1..] + q;
      NodeAtConcat(root.children[p[0]], p[1..], q);
    }
  }

  /** Applying the fix a second time to the same declaration changes nothing. */
  lemma FixedRootIdempotent(root: Node, target: Path)
    requires TypeDeclarationAt(root, target)
    ensures TypeDeclarationAt(FixedRoot(root, target), target)
    ensures FixedRoot(FixedRoot(root, target), target) == FixedRoot(root, target)
  {
    var decl := NodeAt(root, target).value;
    ReplaceAtTarget(root, target, WithFixedModifiers(decl), []);
    assert target + [] == target;
    FixedModifiersIdempotent(decl.modifiers);
    ReplaceAtTwice(root, target, WithFixedModifiers(decl), WithFixedModifiers(WithFixedModifiers(decl)));
  }

  /**
   * AncestorsAndSelf().OfType<TypeDeclarationSyntax>().First() from the node at
   * `owner`: the longest prefix of `owner` that leads to a type declaration, or
   * None when no ancestor-or-self is one (where First() would throw).
   */
  function InnermostTypeDeclaration(root: Node, owner: Path): (r: Option<Path>)
    requires ValidPath(root, owner)
    ensures r.Some? ==> IsPrefix(r.value, owner) && TypeDeclarationAt(root, r.value)
    ensures r.Some? ==> forall q :: IsPrefix(q, owner) && |q| > |r.value| ==> !TypeDeclarationAt(root, q)
    ensures r.None? ==> forall q :: IsPrefix(q, owner) ==> !TypeDeclarationAt(root, q)
    decreases |owner|
  {
    if TypeDeclarationAt(root, owner) then Some(owner)
    else if owner == [] then None
    else
      var parent := owner[..|owner| - 1];
      PrefixOfValidPathIsValid(root, owner, parent);
      PrefixesOfOwner(owner);
      InnermostTypeDeclaration(root, parent)
  }

  /** A prefix of a non-empty path is the path itself or a prefix of its parent. */
  lemma PrefixesOfOwner(owner: Path)
    requires owner != []
    ensures IsPrefix(owner[..|owner| - 1], owner)
    ensures forall q :: IsPrefix(q, owner) ==> q == owner || IsPrefix(q, owner[..|owner| - 1])
  {
    forall q | IsPrefix(q, owner) ensures q == owner || IsPrefix(q, owner[..|owner| - 1]) {
      if |q| == |owner| {
        assert q == owner[..|owner|] == owner;
      } else {
        assert owner[..|owner| - 1][..|q|] == owner[..|q|];
      }
    }
  }

  /**
   * RegisterCodeFixesAsync followed by the registered action: the first
   * diagnostic names the token whose parent is the node at its path; the fix
   * rewrites the innermost enclosing type declaration, and is not offered when
   * there is none.
   */
  method RegisterCodeFix(root: Node, diagnostics: seq<Finding>) returns (fixedRoot: Option<Node>)
    requires |diagnostics| >= 1
    requires ValidPath(root, diagnostics[0].location.path)
    ensures fixedRoot.None? <==> forall q :: IsPrefix(q, diagnostics[0].location.path) ==> !TypeDeclarationAt(root, q)
    ensures fixedRoot.Some? ==>
      var target := InnermostTypeDeclaration(root, diagnostics[0].location.path).value;
      fixedRoot.value == FixedRoot(root, target)
  {
    var diagnostic := diagnostics[0];
    var declaration := InnermostTypeDeclaration(root, diagnostic.location.path);
    if declaration.None? {
      fixedRoot := None;
    } else {
      var newRoot := MakeInternal(root, declaration.value);
      fixedRoot := Some(newRoot);
    }
  }

  /** `public sealed class UserRepository` becomes `internal sealed class UserRepository`. */
  lemma PublicSealedBecomesInternalSealed(lead: Trivia, trail: Trivia, sealedLead: Trivia, sealedTrail: Trivia)
    ensures FixedModifiers([Modifier(PublicKeyword, lead, trail), Modifier(SealedKeyword, sealedLead, sealedTrail)]) ==
      [InternalModifier(), Modifier(SealedKeyword, sealedLead, sealedTrail)]
  {
    var ms := [Modifier(PublicKeyword, lead, trail), Modifier(SealedKeyword, sealedLead, sealedTrail)];
    assert ms[..1][..0] == [];
    assert NonAccessModifiers(ms[..1]) == [];
    assert NonAccessModifiers(ms) == [ms[1]];
  }

  /** `private internal class UserRepository` collapses to `internal class UserRepository`. */
  lemma PrivateInternalCollapses(lead: Trivia, trail: Trivia, lead2: Trivia, trail2: Trivia)
    ensures FixedModifiers([Modifier(PrivateKeyword, lead, trail), Modifier(InternalKeyword, lead2, trail2)]) ==
      [InternalModifier()]
  {
    var ms := [Modifier(PrivateKeyword, lead, trail), Modifier(InternalKeyword, lead2, trail2)];
    assert ms[..1][..0] == [];
    assert NonAccessModifiers(ms[..1]) == [];
    assert NonAccessModifiers(ms) == [];
  }
}
