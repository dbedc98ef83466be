/**
 * The repositories-should-be-internal rule: a named type that is a class,
 * whose name ends with "Repository" (ordinal), and whose declared
 * accessibility is not internal is reported once, with its name.
 */
module RepositoriesShouldBeInternalAnalyzer {
  import opened SyntaxModel

  const DiagnosticId := "RepositoriesShouldBeInternal"
  const RepositorySuffix := "Repository"

  datatype TypeKind = Class | Struct | Interface | Enum | Delegate | OtherTypeKind

  datatype Accessibility =
    | NotApplicable
    | Private
    | ProtectedAndInternal
    | Protected
    | Internal
    | ProtectedOrInternal
    | Public

  /** The symbol facts the compiler supplies for one named type. */
  datatype NamedTypeSymbol = NamedTypeSymbol(
    typeKind: TypeKind,
    name: string,
    declaredAccessibility: Accessibility,
    location: Location)

  /**
   * The rule run on one named type: one finding exactly when the type is a
   * class named *Repository that is not internal, located at the symbol's
   * first location and carrying the type's name; otherwise none.
   */
  function AnalyzeSymbol(symbol: NamedTypeSymbol): (r: seq<Finding>)
    ensures |r| <= 1
    ensures |r| == 1 <==>
      symbol.typeKind == Class && EndsWith(symbol.name, "Repository") && symbol.declaredAccessibility != Internal
    ensures forall f :: f in r ==> f == Finding(DiagnosticId, symbol.location, [Str(symbol.name)])
  {
    if symbol.typeKind == Class && EndsWith(symbol.name, RepositorySuffix) then
      if symbol.declaredAccessibility != Internal then
        [Finding(DiagnosticId, symbol.location, [Str(symbol.name)])]
      else []
    else []
  }

  /** Interfaces, structs and every other non-class kind are never reported. */
  lemma NonClassNeverReported(symbol: NamedTypeSymbol)
    requires symbol.typeKind != Class
    ensures AnalyzeSymbol(symbol) == []
  {
  }

  /** An internal class is never reported, whatever its name. */
  lemma InternalNeverReported(symbol: NamedTypeSymbol)
    requires symbol.declaredAccessibility == Internal
    ensures AnalyzeSymbol(symbol) == []
  {
  }

  /** A public, private or protected *Repository class is reported exactly once. */
  lemma NonInternalRepositoryReported(symbol: NamedTypeSymbol)
    requires symbol.typeKind == Class && EndsWith(symbol.name, "Repository")
    requires symbol.declaredAccessibility in {Public, Private, Protected}
    ensures AnalyzeSymbol(symbol) == [Finding(DiagnosticId, symbol.location, [Str(symbol.name)])]
  {
  }

  /** The suffix test is case-sensitive: UserREPOSITORY and UserService are not repositories. */
  lemma SuffixIsOrdinal(location: Location)
    ensures AnalyzeSymbol(NamedTypeSymbol(Class, "UserREPOSITORY", Public, location)) == []
    ensures AnalyzeSymbol(NamedTypeSymbol(Class, "UserService", Public, location)) == []
    ensures AnalyzeSymbol(NamedTypeSymbol(Interface, "IUserRepository", Public, location)) == []
  {
    assert "UserREPOSITORY"[4..][1] != "Repository"[1];
    assert "UserService"[1..][0] != "Repository"[0];
  }
}
