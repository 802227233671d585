# kiam assume-role policies in Dafny

This project models the authorisation engine of kiam's server (`pkg/server/policy.go`).
The engine decides whether a pod may assume an AWS IAM role. The parts are:

- **Decision**: `Allowed`, `Forbidden(requested, annotated)` or
  `NamespacePolicyForbidden(expression, role)`, with `IsAllowed` and `Explanation`
  (module `Decisions`).
- **Policies**: one datatype `AssumeRolePolicy` (module `Policy`) holds the three policy
  kinds. `RequestingAnnotatedRolePolicy` checks that the requested role resolves to
  the identity the pod is annotated with. `NamespacePermittedRoleNamePolicy` checks
  that the role's ARN matches the permitted-roles expression of the pod's namespace.
  `CompositeAssumeRolePolicy`, built by `Policies`, is the conjunction of an ordered
  list of policies, and composites can nest. `IsAllowedAssumeRole` evaluates any policy.
- **Composite**: `CompositeCheck` is the recursive definition of the composite.
  `RunComposite` is policy.go's `for … range` loop with its early returns. It also
  reports how many policies it consulted.
- **Collaborators** (module `Collaborators`): the ARN resolver, the namespace finder and
  the regular-expression library. Each is a function field of a policy that returns a
  value or an `Error`. Go's `(Decision, error)` pair is `Result<Decision>`: `Err(e)`
  stands for `nil, err`, so an error can never be read as a denial.
- **Strict mode** (modules `RegexFragment`, `StrictMode`): `RegexFragment` is a
  reference semantics for the part of Go's regular-expression syntax made of literal
  characters, `|` and the anchors. With it, the lemmas state what strict and non-strict
  namespace expressions admit, first for the pattern policy.go builds and then for
  the corrected one (see Findings).
- **Scenarios** (module `PolicyScenarios`): end-to-end requests against a resolver
  that knows two roles.

Every policy check is a pure function of its inputs and of what the collaborators
report. Evaluating the same request twice with the same collaborators therefore
gives the same result.

## Model

| member | source | states |
|---|---|---|
| `Decisions.Decision.Explanation` | pkg/server/policy.go:142-176 | the explanation is empty exactly when the decision allows; both denials have a non-empty one |
| `Decisions.ExplanationNamesFields` | pkg/server/policy.go:153-176 | a `forbidden` explanation contains the requested role and the annotated name; a namespace denial's explanation contains the expression and the role |
| `Policy.RequestingAnnotatedRoleCheck` | pkg/server/policy.go:71-86 | the annotated role is resolved first and its error wins; a resolver error for either role is returned as an error, never as a decision; the policy allows iff both identities have the same ARN; otherwise it returns `forbidden` with the raw requested string and the annotated identity's name |
| `Policy.AnnotatedRoleComparesCanonicalArns` | pkg/server/policy.go:76-83 | two spellings of the requested role that resolve to the same ARN get the same verdict |
| `Policy.IsAllowedAssumeRole` | pkg/server/policy.go:30-32 | every policy kind answers a request with a decision or an error: the annotated-role policy with its check, the namespace policy with its check in its own mode, and a composite allows iff each of its members allows |
| `Policy.NamespacePermittedRoleNameCheck` | pkg/server/policy.go:100-134 | a resolver error, then a namespace lookup error, is returned as an error; an empty or missing expression denies with `(empty)` and the raw role; after both lookups succeed, the result is an error exactly when the pattern fails to compile, and then it is the compiler's error, never a denial; the policy allows iff the pattern policy.go compiles (the expression wrapped in `^` and `$` in strict mode, the bare expression otherwise) matches the resolved ARN; otherwise it denies, naming the un-anchored expression and the ARN |
| `Policy.NamespacePermittedRoleNameCheckCorrected` | pkg/server/policy.go:116-121 | the namespace check with strict mode corrected (see Findings): identical to the check as written in non-strict mode, on lookup errors and on an empty expression; after both lookups succeed, the result is an error exactly when the grouped pattern fails to compile, and then it is the compiler's error; it allows iff the grouped pattern matches the resolved ARN; a denial names the expression and the ARN |
| `Policy.NamespaceWithoutExpressionDeniesAll` | pkg/server/policy.go:111-113 | a namespace without a permitted-roles expression denies every role that resolves, with the marker `(empty)` in the explanation |
| `Policy.NamespaceResolvesFirst` | pkg/server/policy.go:101-104 | a role that does not resolve yields the resolver's error whatever the namespace finder, mode or engine |
| `Policy.NamespaceFetchedBeforeExpression` | pkg/server/policy.go:106-109 | a failed namespace lookup yields the finder's error before any expression is read or compiled, whatever the mode or engine |
| `Policy.CompositeCheck` | pkg/server/policy.go:39-51 | the composite allows iff every policy in the list allows (a strict conjunction; the empty list allows) |
| `Policy.FirstStop` | pkg/server/policy.go:40-48 | the position of the first policy that errs or denies: every policy before it allows and it does not, or the length of the list when all allow |
| `Policy.CompositeStopsAtFirstStop` | pkg/server/policy.go:40-50 | the composite returns the first error or denial unchanged, or `allowed` when there is none |
| `Policy.CompositeReturnsFirstNonAllowing` | pkg/server/policy.go:41-47 | if the policies before position k allow and policy k errs or denies, the composite returns exactly what policy k returned |
| `Policy.CompositeAppend` | pkg/server/policy.go:40-50 | running a + b gives a's outcome unless a allows, and then b's outcome: policies after a stop have no say |
| `Policy.NestedCompositeFlattens` | pkg/server/policy.go:34-58 | a composite of two composites gives the same outcome as one composite of all their policies |
| `Policy.PoliciesIsConjunction` | pkg/server/policy.go:53-58 | the composite built by `Policies` allows iff every member allows; with no members it returns `allowed` and no error |
| `Policy.CompositeAllowIsOrderIndependent` | pkg/server/policy.go:40-50 | whether the composite allows does not depend on the order of its policies |
| `Policy.RunComposite` | pkg/server/policy.go:39-51 | the loop returns the composite's outcome and consults the policies up to and including the first that errs or denies, and no more; every policy consulted before the last one allowed; an error or denial is the last consulted policy's own outcome; the outcome depends only on the consulted prefix |
| `StrictMode.AsWrittenStrictWithoutAlternation` | pkg/server/policy.go:116-118 | the strict pattern policy.go compiles, `^` + expression + `$`, is a full-string match when the expression is a literal without alternation |
| `StrictMode.AsWrittenStrictAdmitsPrefixOfFirst` | pkg/server/policy.go:116-118 | with two literal alternatives a and b, the strict pattern policy.go compiles matches every string that starts with a |
| `StrictMode.StrictPolicyWithoutAlternation` | pkg/server/policy.go:116-133 | a strict namespace whose expression is a literal without alternation allows exactly the role whose ARN is the expression |
| `StrictMode.StrictPolicyAdmitsPrefixOfFirst` | pkg/server/policy.go:116-133 | a strict namespace whose expression is `a` or `b` allows every role whose ARN starts with a |
| `StrictMode.StrictPolicyAdmitsNonAlternative` | pkg/server/policy.go:116-133 | with `a` or `b` in strict mode, a role whose ARN starts with a but is neither alternative is allowed by the check as written and denied by the corrected check, which names the expression and the ARN |
| `StrictMode.StrictPolicyAdmitsTeamAAdmin` | pkg/server/policy.go:116-133 | a strict namespace permitting the team-a or team-b role of account 111 lets a pod assume `…:role/team-a-admin`, which is neither; the corrected check denies it |
| `StrictMode.CorrectedStrictPatternMatchesWholeAlternative` | pkg/server/policy.go:116-121 | the corrected strict pattern `^(?:` + expression + `)$` matches a string iff the string is one of the expression's alternatives |
| `StrictMode.CorrectedStrictPolicyAdmitsExactAlternatives` | pkg/server/policy.go:116-133 | the corrected strict check allows exactly the roles whose ARN is one of the expression's alternatives |
| `StrictMode.LaxNamespacePolicyAdmitsContainingArns` | pkg/server/policy.go:122-133 | in non-strict mode the namespace policy allows every role whose ARN contains one of the expression's alternatives |
| `StrictMode.FooStrict` | pkg/server/policy.go:116-121 | in strict mode as written, the expression `foo` matches `foo` but not `foobar` or `xfoo` |
| `StrictMode.LaxLiteralAdmitsContaining` | pkg/server/policy.go:122-127 | in non-strict mode a literal expression without alternation matches every string in which it occurs |
| `StrictMode.FooLax` | pkg/server/policy.go:122-127 | in non-strict mode the expression `foo` matches `foo`, `foobar` and `xfoo` |
| `PolicyScenarios.ShortNameOfAnnotatedRoleIsAllowed` | pkg/server/policy.go:71-83 | a pod annotated with the full readonly ARN may request `readonly` |
| `PolicyScenarios.OtherRoleIsForbidden` | pkg/server/policy.go:81-85 | a pod annotated with `readonly` that requests `admin` gets `forbidden` with the explanation "requested 'admin' but annotated with 'readonly', forbidden" |
| `PolicyScenarios.UnresolvableAnnotationIsAnError` | pkg/server/policy.go:72-75 | an annotation that does not resolve gives the resolver's error, whatever role is requested |
| `PolicyScenarios.StrictNamespaceAdmitsItsRole` | pkg/server/policy.go:100-133 | a strict namespace whose expression is the readonly ARN admits `readonly` |
| `PolicyScenarios.StrictNamespaceRefusesOtherRole` | pkg/server/policy.go:129-131 | the same namespace denies `admin`, naming its expression and the admin ARN |
| `PolicyScenarios.OrderDecidesErrorOrDenial` | pkg/server/policy.go:40-47 | a denial ahead of a failing lookup is reported as the denial; the failing lookup ahead of the denial is reported as the error |

## Findings

| source | as written | input that shows it | evidently intended | confidence | as-written member | corrected member |
|---|---|---|---|---|---|---|
| pkg/server/policy.go:117-118 | strict mode compiles `"^" + expression + "$"`. In Go's syntax alternation binds loosest, so `^` anchors only the first alternative and `$` only the last | the expression whose alternatives are `arn:aws:iam::111:role/team-a` and `arn:aws:iam::111:role/team-b`, joined by a vertical bar, admits the ARN `arn:aws:iam::111:role/team-a-admin` in strict mode | strict mode matches the whole ARN against the whole expression: `"^(?:" + expression + ")$"` | not executed; medium (the regular-expression semantics is the reference fragment, not Go's library) | `StrictMode.StrictPolicyAdmitsTeamAAdmin` | `Policy.NamespacePermittedRoleNameCheckCorrected`, `StrictMode.CorrectedStrictPolicyAdmitsExactAlternatives` |

`Policy.CompiledPatternAsWritten` is the pattern policy.go builds and `Policy.CompiledPattern` the
corrected one. `Policy.NamespacePermittedRoleNameCheck`, and so the namespace policy, uses the
pattern as written. `Policy.NamespacePermittedRoleNameCheckCorrected` is the same check with the
corrected pattern. For a literal expression without alternation both are a full-string match
(`StrictMode.AsWrittenStrictWithoutAlternation`, `StrictMode.CorrectedStrictPatternMatchesWholeAlternative`).

## Left out

- Go's `regexp` package is an abstract `RegexEngine`: which patterns fail to compile, and which strings a pattern matches. `RegexFragment.FragmentEngine` gives a concrete semantics only for literals, `|`, `^`, `$` and an outer `^(?:…)$` group. The lemmas that speak about these patterns require a literal expression (no metacharacter besides `|`). An expression such as `^arn:aws:iam::111:role/team-.*$` uses `.*`, so it is not covered.
- The corrected pattern wraps the expression in a group. Some malformed expressions (an unbalanced `)` followed by `(`) can compile once wrapped. The model leaves compile errors to the abstract engine, so this difference is not modelled.
- ARN resolution (`sts.ARNResolver.Resolve`) is an abstract function from a role string to an `Identity` or an error. `Identity.Equals` is modelled as equality of the ARNs. The `sts` package is not part of this model.
- Kubernetes lookups: `k8s.NamespaceFinder.FindNamespace` is an abstract function from a namespace name to a `Namespace` or an error. `k8s.PodRole(pod)` and the pod's namespace are the two fields of `Pod`. The annotation key `iam.amazonaws.com/permitted` is the value of `k8s.AnnotationPermittedKey`; the `k8s` package is not part of this model. A missing annotation reads as `""`, as Go map indexing does.
- `context.Context` and concurrent invocation: the checks are pure functions, so there is no cancellation and no shared state.
- `fmt.Sprintf` with `%s` on strings is modelled as string concatenation.
- The unused `pods k8s.PodGetter` field of `RequestingAnnotatedRolePolicy` is not modelled. The constructors `NewRequestingAnnotatedRolePolicy` and `NewNamespacePermittedRoleNamePolicy` are the datatype's constructors.
- A `forbidden` denial names the annotated identity's `Name`, not the raw annotation string. The model follows the code here.
