# CleanerAnalyzer2 in Dafny

A verified model of the CleanerAnalyzer2 Roslyn analyzers and their code fix.
Roslyn's syntax tree becomes an immutable `Node` datatype: a kind, an identifier,
the written type text, the modifier tokens with their trivia, and the ordered
children. A node is named by its path of child indices from the document root.
A reported diagnostic is a `Finding`: a rule id, a location (the identifier token
or the whole node at a path) and the ordered message arguments.

- `syntax.dfy` (`SyntaxModel`): the tree, path lookup, Roslyn's `ReplaceNode` as
  `ReplaceAt`, and `DescendantNodes()` as a pre-order enumeration proved exact.
- `complexity_analyzer.dfy` (`ComplexityAnalyzer`): the cyclomatic-complexity
  rule. The complexity is 1 plus the decision points among the descendants. Methods
  named `Pruefe...MitRegeln` are exempt, and a finding is raised above 4.
- `repositories_internal_analyzer.dfy` (`RepositoriesShouldBeInternalAnalyzer`):
  the rule over the compiler's facts for a named type (kind, name, declared
  accessibility, first location).
- `repositories_internal_code_fix.dfy` (`RepositoriesShouldBeInternalCodeFix`):
  the "Make repository internal" fix. It looks up the innermost enclosing type
  declaration. The modifier loop is a method whose loop invariant ties it to
  `FixedModifiers` (`internal` followed by the original non-access modifiers).
  The declaration is then replaced in the root.
- `repository_date_only_analyzer.dfy` (`RepositoryDateOnlyAnalyzer`): the DateOnly
  rule. The three visits are methods that append findings to the host's list of
  reported findings, and loop invariants tie them to specification functions.
  Lemmas prove that those functions report every DateOnly parameter, variable
  declaration and field of a `*Repository` class. Each occurrence is reported
  exactly once, with the owed arguments, in member order.

## Model

| member | source | states |
|---|---|---|
| SyntaxModel.DescendantsExact | CleanerAnalyzer2/CleanerAnalyzer2/CleanerAnalyzer2/ComplexityAnalyzer.cs:82 | The pre-order enumeration of a node's descendants lists every proper descendant exactly once: each entry sits at its own path, no path repeats, and every non-empty valid path is listed |
| SyntaxModel.ReplaceAtTarget | CleanerAnalyzer2/CleanerAnalyzer2/CleanerAnalyzer2.CodeFixes/RepositoriesShouldBeInternalCodeFixProvider.cs:68 | After replacing the node at p, looking up p (or any path below it) reaches the replacement (or its own subtree) |
| SyntaxModel.ReplaceAtElsewhere | CleanerAnalyzer2/CleanerAnalyzer2/CleanerAnalyzer2.CodeFixes/RepositoriesShouldBeInternalCodeFixProvider.cs:68 | Replacing the node at p leaves every node on a path that is neither above nor below p unchanged |
| SyntaxModel.ReplaceAtAbove | CleanerAnalyzer2/CleanerAnalyzer2/CleanerAnalyzer2.CodeFixes/RepositoriesShouldBeInternalCodeFixProvider.cs:68 | Replacing the node at p keeps the kind, name, type, modifiers and child count of every ancestor of p |
| SyntaxModel.ReplaceAtTwice | CleanerAnalyzer2/CleanerAnalyzer2/CleanerAnalyzer2.CodeFixes/RepositoriesShouldBeInternalCodeFixProvider.cs:68 | Replacing at the same path twice is the same as replacing once with the second node |
| ComplexityAnalyzer.CalculateCyclomaticComplexity | CleanerAnalyzer2/CleanerAnalyzer2/CleanerAnalyzer2/ComplexityAnalyzer.cs:80-93 | The complexity is 1 plus the number of descendants, at any depth, whose kind is one of the eight decision-point kinds; hence it is at least 1 |
| ComplexityAnalyzer.DecisionPointsCountDescendants | CleanerAnalyzer2/CleanerAnalyzer2/CleanerAnalyzer2/ComplexityAnalyzer.cs:82-90 | The structural recursive count of decision points equals the count taken over the descendant enumeration |
| ComplexityAnalyzer.AnalyzeMethod | CleanerAnalyzer2/CleanerAnalyzer2/CleanerAnalyzer2/ComplexityAnalyzer.cs:47-65 | At most one finding; there is one exactly when the name is not exempt and the complexity exceeds 4; it sits at the identifier and carries (name, complexity, 4) |
| ComplexityAnalyzer.ExemptMethodNeverReported | CleanerAnalyzer2/CleanerAnalyzer2/CleanerAnalyzer2/ComplexityAnalyzer.cs:52-55 | A method named Pruefe...MitRegeln yields no finding, whatever its complexity |
| ComplexityAnalyzer.OverlappingNameIsExempt | CleanerAnalyzer2/CleanerAnalyzer2/CleanerAnalyzer2/ComplexityAnalyzer.cs:67-78 | PruefeMitRegeln (prefix and suffix overlapping) is exempt; PruefeRegeln and MitRegelnPruefe are not |
| ComplexityAnalyzer.ThresholdIsStrict | CleanerAnalyzer2/CleanerAnalyzer2/CleanerAnalyzer2/ComplexityAnalyzer.cs:59-64 | For a non-exempt method, 3 decision points give no finding and 4 give the finding (name, 5, 4) |
| ComplexityAnalyzer.ReplaceAtWeight | CleanerAnalyzer2/CleanerAnalyzer2/CleanerAnalyzer2/ComplexityAnalyzer.cs:82-90 | Replacing a subtree changes the decision-point count by exactly the difference between the old and the new subtree |
| ComplexityAnalyzer.InsertChildComplexity | CleanerAnalyzer2/CleanerAnalyzer2/CleanerAnalyzer2/ComplexityAnalyzer.cs:82-92 | Inserting a subtree anywhere in a method raises the complexity by exactly the decision points of that subtree |
| ComplexityAnalyzer.RemoveChildComplexity | CleanerAnalyzer2/CleanerAnalyzer2/CleanerAnalyzer2/ComplexityAnalyzer.cs:82-92 | Removing a subtree lowers the complexity by exactly the decision points of that subtree |
| ComplexityAnalyzer.AddingOneNode | CleanerAnalyzer2/CleanerAnalyzer2/CleanerAnalyzer2/ComplexityAnalyzer.cs:82-90 | Adding one leaf raises the complexity by 1 when its kind is a decision point and leaves it unchanged otherwise |
| ComplexityAnalyzer.FiveIfsReported | CleanerAnalyzer2/CleanerAnalyzer2/CleanerAnalyzer2/ComplexityAnalyzer.cs:57-64 | A non-exempt method with five if statements and nothing else that branches has complexity 6 and is reported with (name, 6, 4) |
| ComplexityAnalyzer.ValidateIsAnalyzed | CleanerAnalyzer2/CleanerAnalyzer2/CleanerAnalyzer2/ComplexityAnalyzer.cs:67-78 | An ordinary name such as Validate is not exempt |
| RepositoriesShouldBeInternalAnalyzer.AnalyzeSymbol | CleanerAnalyzer2/CleanerAnalyzer2/CleanerAnalyzer2/RepositoriesShouldBeInternalAnalyzer.cs:30-43 | At most one finding; there is one exactly when the type is a class, its name ends with Repository (ordinal) and it is not internal; the finding sits at the symbol's location and carries the name |
| RepositoriesShouldBeInternalAnalyzer.NonClassNeverReported | CleanerAnalyzer2/CleanerAnalyzer2/CleanerAnalyzer2/RepositoriesShouldBeInternalAnalyzer.cs:34 | Interfaces, structs and every other non-class kind are never reported |
| RepositoriesShouldBeInternalAnalyzer.InternalNeverReported | CleanerAnalyzer2/CleanerAnalyzer2/CleanerAnalyzer2/RepositoriesShouldBeInternalAnalyzer.cs:37 | An internal type is never reported, whatever its name |
| RepositoriesShouldBeInternalAnalyzer.NonInternalRepositoryReported | CleanerAnalyzer2/CleanerAnalyzer2/CleanerAnalyzer2/RepositoriesShouldBeInternalAnalyzer.cs:37-41 | A public, private or protected *Repository class is reported exactly once, with its name |
| RepositoriesShouldBeInternalAnalyzer.SuffixIsOrdinal | CleanerAnalyzer2/CleanerAnalyzer2/CleanerAnalyzer2/RepositoriesShouldBeInternalAnalyzer.cs:34-35 | UserREPOSITORY, UserService and the interface IUserRepository are not reported |
| RepositoriesShouldBeInternalCodeFix.NonAccessModifiersConcat | CleanerAnalyzer2/CleanerAnalyzer2/CleanerAnalyzer2.CodeFixes/RepositoriesShouldBeInternalCodeFixProvider.cs:51 | Filtering out access modifiers distributes over concatenation |
| RepositoriesShouldBeInternalCodeFix.NonAccessModifiersMembers | CleanerAnalyzer2/CleanerAnalyzer2/CleanerAnalyzer2.CodeFixes/RepositoriesShouldBeInternalCodeFixProvider.cs:51 | A token survives the filter exactly when it was in the list and is not public, private, protected or internal; surviving tokens keep their trivia |
| RepositoriesShouldBeInternalCodeFix.NonAccessModifiersLength | CleanerAnalyzer2/CleanerAnalyzer2/CleanerAnalyzer2.CodeFixes/RepositoriesShouldBeInternalCodeFixProvider.cs:51 | The filter removes exactly the access modifiers: the result is shorter by their number and holds none |
| RepositoriesShouldBeInternalCodeFix.NonAccessModifiersOrder | CleanerAnalyzer2/CleanerAnalyzer2/CleanerAnalyzer2.CodeFixes/RepositoriesShouldBeInternalCodeFixProvider.cs:51 | The non-access modifier at position i comes out right after the non-access modifiers that preceded it (relative order kept) |
| RepositoriesShouldBeInternalCodeFix.NonAccessModifiersIdempotent | CleanerAnalyzer2/CleanerAnalyzer2/CleanerAnalyzer2.CodeFixes/RepositoriesShouldBeInternalCodeFixProvider.cs:51 | Filtering twice is filtering once |
| RepositoriesShouldBeInternalCodeFix.FixedModifiersShape | CleanerAnalyzer2/CleanerAnalyzer2/CleanerAnalyzer2.CodeFixes/RepositoriesShouldBeInternalCodeFixProvider.cs:47-61 | The new list has length 1 + old length - number of access modifiers, holds exactly one access modifier, internal with one space of leading trivia, first; all later tokens are original non-access modifiers |
| RepositoriesShouldBeInternalCodeFix.FixedModifiersIdempotent | CleanerAnalyzer2/CleanerAnalyzer2/CleanerAnalyzer2.CodeFixes/RepositoriesShouldBeInternalCodeFixProvider.cs:47-61 | Rebuilding an already rebuilt modifier list changes nothing |
| RepositoriesShouldBeInternalCodeFix.BuildModifiers | CleanerAnalyzer2/CleanerAnalyzer2/CleanerAnalyzer2.CodeFixes/RepositoriesShouldBeInternalCodeFixProvider.cs:54-61 | The modifier loop returns internal followed by the original non-access modifiers in order |
| RepositoriesShouldBeInternalCodeFix.MakeInternal | CleanerAnalyzer2/CleanerAnalyzer2/CleanerAnalyzer2.CodeFixes/RepositoriesShouldBeInternalCodeFixProvider.cs:44-70 | The new root is the old one with the target declaration's modifiers rebuilt; the target keeps kind, name, type and members; every node below or beside it is identical; its ancestors keep their headers |
| RepositoriesShouldBeInternalCodeFix.FixedRootIdempotent | CleanerAnalyzer2/CleanerAnalyzer2/CleanerAnalyzer2.CodeFixes/RepositoriesShouldBeInternalCodeFixProvider.cs:64-68 | Applying the fix a second time to the same declaration gives the same root |
| RepositoriesShouldBeInternalCodeFix.InnermostTypeDeclaration | CleanerAnalyzer2/CleanerAnalyzer2/CleanerAnalyzer2.CodeFixes/RepositoriesShouldBeInternalCodeFixProvider.cs:34 | The result is the longest ancestor-or-self of the diagnostic's node that is a type declaration, or None when there is none |
| RepositoriesShouldBeInternalCodeFix.RegisterCodeFix | CleanerAnalyzer2/CleanerAnalyzer2/CleanerAnalyzer2.CodeFixes/RepositoriesShouldBeInternalCodeFixProvider.cs:27-42 | No fix exactly when no ancestor-or-self of the first diagnostic's node is a type declaration; otherwise the fixed root for the innermost one |
| RepositoriesShouldBeInternalCodeFix.PublicSealedBecomesInternalSealed | CleanerAnalyzer2/CleanerAnalyzer2/CleanerAnalyzer2.Test/RepositoriesShouldBeInternalAnalyzerTests.cs:105-129 | public sealed becomes internal sealed, the sealed token unchanged |
| RepositoriesShouldBeInternalCodeFix.PrivateInternalCollapses | CleanerAnalyzer2/CleanerAnalyzer2/CleanerAnalyzer2.Test/RepositoriesShouldBeInternalAnalyzerTests.cs:131-155 | private internal collapses to a single internal |
| RepositoryDateOnlyAnalyzer.AnalyzeClass | CleanerAnalyzer2/CleanerAnalyzer2/CleanerAnalyzer2/RepositoryDateOnlyAnalyzer.cs:44-62 | Appends to the reported findings exactly the class's findings: nothing unless the name ends with Repository, else the findings of each method and field member in member order |
| RepositoryDateOnlyAnalyzer.AnalyzeMethod | CleanerAnalyzer2/CleanerAnalyzer2/CleanerAnalyzer2/RepositoryDateOnlyAnalyzer.cs:64-84 | Appends the method's findings: one per DateOnly parameter in parameter order, then one per DateOnly variable declaration in pre-order |
| RepositoryDateOnlyAnalyzer.AnalyzeField | CleanerAnalyzer2/CleanerAnalyzer2/CleanerAnalyzer2/RepositoryDateOnlyAnalyzer.cs:86-93 | Appends one finding naming the first declarator when the field's type is DateOnly, nothing otherwise |
| RepositoryDateOnlyAnalyzer.ParameterFindingsSound | CleanerAnalyzer2/CleanerAnalyzer2/CleanerAnalyzer2/RepositoryDateOnlyAnalyzer.cs:66-73 | Every parameter finding sits at a DateOnly parameter of the method and carries (class name, "parameter '<name>'") |
| RepositoryDateOnlyAnalyzer.ParameterFindingsComplete | CleanerAnalyzer2/CleanerAnalyzer2/CleanerAnalyzer2/RepositoryDateOnlyAnalyzer.cs:66-73 | Every DateOnly parameter is reported |
| RepositoryDateOnlyAnalyzer.ParameterFindingsDistinct | CleanerAnalyzer2/CleanerAnalyzer2/CleanerAnalyzer2/RepositoryDateOnlyAnalyzer.cs:66-73 | No parameter is reported twice |
| RepositoryDateOnlyAnalyzer.VariableFindingsSound | CleanerAnalyzer2/CleanerAnalyzer2/CleanerAnalyzer2/RepositoryDateOnlyAnalyzer.cs:75-83 | Every variable finding sits at a DateOnly variable declaration among the enumerated descendants and carries (class name, "variable in method '<M>'") |
| RepositoryDateOnlyAnalyzer.VariableFindingsComplete | CleanerAnalyzer2/CleanerAnalyzer2/CleanerAnalyzer2/RepositoryDateOnlyAnalyzer.cs:75-83 | Every DateOnly variable declaration among the enumerated descendants is reported |
| RepositoryDateOnlyAnalyzer.VariableFindingsDistinct | CleanerAnalyzer2/CleanerAnalyzer2/CleanerAnalyzer2/RepositoryDateOnlyAnalyzer.cs:75-83 | No variable declaration is reported twice |
| RepositoryDateOnlyAnalyzer.ParameterFindingsAtParameters | CleanerAnalyzer2/CleanerAnalyzer2/CleanerAnalyzer2/RepositoryDateOnlyAnalyzer.cs:70 | Parameter findings point at parameter nodes of the method |
| RepositoryDateOnlyAnalyzer.VariableFindingsAtVariables | CleanerAnalyzer2/CleanerAnalyzer2/CleanerAnalyzer2/RepositoryDateOnlyAnalyzer.cs:81 | Variable findings point at variable-declaration nodes of the method |
| RepositoryDateOnlyAnalyzer.MethodFindingsSound | CleanerAnalyzer2/CleanerAnalyzer2/CleanerAnalyzer2/RepositoryDateOnlyAnalyzer.cs:64-84 | Every finding of a method sits at one of its DateOnly occurrences (a direct parameter or a variable declaration at any depth) and is the finding owed for it |
| RepositoryDateOnlyAnalyzer.MethodFindingsComplete | CleanerAnalyzer2/CleanerAnalyzer2/CleanerAnalyzer2/RepositoryDateOnlyAnalyzer.cs:64-84 | Every DateOnly occurrence of a method is reported |
| RepositoryDateOnlyAnalyzer.MethodFindingsDistinct | CleanerAnalyzer2/CleanerAnalyzer2/CleanerAnalyzer2/RepositoryDateOnlyAnalyzer.cs:64-84 | No location of a method is reported twice |
| RepositoryDateOnlyAnalyzer.MethodFindingsExact | CleanerAnalyzer2/CleanerAnalyzer2/CleanerAnalyzer2/RepositoryDateOnlyAnalyzer.cs:64-84 | Exactly one finding per DateOnly occurrence of a method, each the one owed for it |
| RepositoryDateOnlyAnalyzer.ParameterFindingsNameParameters | CleanerAnalyzer2/CleanerAnalyzer2/CleanerAnalyzer2/RepositoryDateOnlyAnalyzer.cs:70 | Every parameter finding's role text starts with "parameter '" |
| RepositoryDateOnlyAnalyzer.VariableFindingsNameNoParameter | CleanerAnalyzer2/CleanerAnalyzer2/CleanerAnalyzer2/RepositoryDateOnlyAnalyzer.cs:81 | No variable finding's role text starts with "parameter '" |
| RepositoryDateOnlyAnalyzer.MethodFindingsParametersFirst | CleanerAnalyzer2/CleanerAnalyzer2/CleanerAnalyzer2/RepositoryDateOnlyAnalyzer.cs:64-84 | Within one method every parameter finding precedes every variable finding |
| RepositoryDateOnlyAnalyzer.MemberFindingsSound | CleanerAnalyzer2/CleanerAnalyzer2/CleanerAnalyzer2/RepositoryDateOnlyAnalyzer.cs:51-61 | Every finding of member j points into member j, at one of its occurrences, and is the finding owed for it |
| RepositoryDateOnlyAnalyzer.MemberFindingsComplete | CleanerAnalyzer2/CleanerAnalyzer2/CleanerAnalyzer2/RepositoryDateOnlyAnalyzer.cs:51-61 | Every occurrence inside member j is reported by member j |
| RepositoryDateOnlyAnalyzer.MembersFindingsSound | CleanerAnalyzer2/CleanerAnalyzer2/CleanerAnalyzer2/RepositoryDateOnlyAnalyzer.cs:51-61 | Every finding of the first k members points into one of them and is the finding owed for an occurrence |
| RepositoryDateOnlyAnalyzer.MembersFindingsComplete | CleanerAnalyzer2/CleanerAnalyzer2/CleanerAnalyzer2/RepositoryDateOnlyAnalyzer.cs:51-61 | Every occurrence of any member is reported |
| RepositoryDateOnlyAnalyzer.MembersFindingsOrdered | CleanerAnalyzer2/CleanerAnalyzer2/CleanerAnalyzer2/RepositoryDateOnlyAnalyzer.cs:51-61 | Findings come in member declaration order and no location repeats |
| RepositoryDateOnlyAnalyzer.ClassFindingsExact | CleanerAnalyzer2/CleanerAnalyzer2/CleanerAnalyzer2/RepositoryDateOnlyAnalyzer.cs:44-62 | For a *Repository class: exactly one finding per DateOnly occurrence in a method or field member, each the one owed for it, in member order; nothing for any other class or member kind |
| RepositoryDateOnlyAnalyzer.ClassFindingsIgnoreModifiers | CleanerAnalyzer2/CleanerAnalyzer2/CleanerAnalyzer2/RepositoryDateOnlyAnalyzer.cs:44-49 | The class's modifiers (its accessibility) do not change what is reported |
| RepositoryDateOnlyAnalyzer.OrderServiceNotReported | CleanerAnalyzer2/CleanerAnalyzer2/CleanerAnalyzer2/RepositoryDateOnlyAnalyzer.cs:48-49 | A class named OrderService yields nothing, whatever its members |
| RepositoryDateOnlyAnalyzer.OneDateOnlyParameterReported | CleanerAnalyzer2/CleanerAnalyzer2/CleanerAnalyzer2/RepositoryDateOnlyAnalyzer.cs:44-73 | internal class *Repository { void M(DateOnly d) {} } yields exactly one finding, on the parameter, naming d |
| RepositoryDateOnlyAnalyzer.FieldNamesFirstDeclarator | CleanerAnalyzer2/CleanerAnalyzer2/CleanerAnalyzer2/RepositoryDateOnlyAnalyzer.cs:88-92 | A DateOnly field with several declarators yields one finding naming the first declarator |
| RepositoryDateOnlyAnalyzer.DateOnlyIsExactText | CleanerAnalyzer2/CleanerAnalyzer2/CleanerAnalyzer2/RepositoryDateOnlyAnalyzer.cs:95-98 | Only the exact text DateOnly matches: System.DateOnly, DateOnly?, DateOnlyX and a missing type do not |

## Left out

- Host plumbing: `Initialize` and the `Register*Action` calls, concurrent execution, generated-code settings, diagnostic descriptors and message formats. Reporting is appending to or returning a sequence of findings; how the host discovers nodes and orders or merges findings is not in the code.
- Async and document I/O (`Task`, cancellation tokens, `GetSyntaxRootAsync`, `WithSyntaxRoot`): the fix is a function from root to new root.
- Fix-all via `WellKnownFixAllProviders.BatchFixer`: an external algorithm whose policy is not visible.
- Compiler semantics: the type kind and declared accessibility of a named type, and its first location, are inputs. How the compiler derives accessibility from modifiers such as `private internal` is not modelled. Records count as classes only through that input.
- Parsing and rendering: `TypeSyntax.ToString()` is the given type text, and trivia is kept or replaced but never interpreted. The inserted `internal` token has one space of leading trivia and an elastic marker as trailing trivia; the rendered whitespace after formatting is not claimed.
- Source spans: a location is a path in the tree. `FindToken(span.Start).Parent` is taken to be the node at the diagnostic's path.
- Syntax shape: a method's parameter list is flattened, so parameters are the method node's direct children of kind `Parameter`. A field's `VariableDeclaration` is flattened, so the field node carries the type text and its declarators as children.
- String comparison: `StartsWith`/`EndsWith` without a comparison argument are culture-sensitive in .NET (ComplexityAnalyzer.cs line 70, RepositoryDateOnlyAnalyzer.cs line 48); they are modelled as ordinal prefix and suffix tests.
- RepositoryDateOnlyAnalyzer.AnalyzeField: requires a DateOnly field to have at least one declarator. The source's `First()` would throw on an empty list, which the parser never produces.
- RepositoryDateOnlyAnalyzer.AnalyzeClass: requires the same of every field member, for the same reason.
- RepositoriesShouldBeInternalCodeFix.RegisterCodeFix: requires at least one diagnostic, which the host always supplies to `RegisterCodeFixesAsync`. When no enclosing type declaration exists, the source's `First()` throws and no fix is offered; the model returns `None` for that case.
- The complexity threshold is the constant 4 (ComplexityAnalyzer.cs line 26). It is not a configurable parameter: the code has no configuration surface.
- The DateOnly rule is registered only for class declarations (RepositoryDateOnlyAnalyzer.cs line 41). Structs, interfaces and records are never visited, so the model's `AnalyzeClass` requires a class declaration.
- Findings are not sorted by source position: the code reports them in visit order, and the model keeps that order.
- The test project's template scaffolding (CleanerAnalyzer2UnitTests.cs) refers to analyzers that are not part of this model.
