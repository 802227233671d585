/** The assume-role policies: whether a pod may assume the role it asks for.
    Each check returns a decision, or the error of the collaborator that
    kept it from deciding; an error is never turned into a denial. */
module Policy {
  import opened Collaborators
  import opened Decisions
  import Strings

  /** The policy kinds. A composite is itself a policy, so composites nest. */
  datatype AssumeRolePolicy =
    | RequestingAnnotatedRolePolicy(resolver: Resolver)
    | NamespacePermittedRoleNamePolicy(strict: bool, namespaces: NamespaceFinder, resolver: Resolver, regexp: RegexEngine)
    | CompositeAssumeRolePolicy(policies: seq<AssumeRolePolicy>)

  /** A composite that passes only when every policy in `ps` passes. */
  function Policies(ps: seq<AssumeRolePolicy>): AssumeRolePolicy {
    CompositeAssumeRolePolicy(ps)
  }

  /** Evaluates any policy on a request for `role` by `pod`. */
  function IsAllowedAssumeRole(p: AssumeRolePolicy, role: string, pod: Pod): (r: Result<Decision>)
    decreases p, 0
    // every kind answers through the one interface; a composite is the conjunction of its members
    ensures p.RequestingAnnotatedRolePolicy? ==> r == RequestingAnnotatedRoleCheck(p.resolver, role, pod)
    ensures p.NamespacePermittedRoleNamePolicy? ==>
      r == NamespacePermittedRoleNameCheck(p.strict, p.namespaces, p.resolver, p.regexp, role, pod)
    ensures p.CompositeAssumeRolePolicy? ==>
      (r.Ok? && r.value.IsAllowed() <==> forall i | 0 <= i < |p.policies| :: Allows(p.policies[i], role, pod))
  {
    match p
    case RequestingAnnotatedRolePolicy(resolver) =>
      RequestingAnnotatedRoleCheck(resolver, role, pod)
    case NamespacePermittedRoleNamePolicy(strict, namespaces, resolver, regexp) =>
      NamespacePermittedRoleNameCheck(strict, namespaces, resolver, regexp, role, pod)
    case CompositeAssumeRolePolicy(policies) =>
      CompositeCheck(policies, role, pod)
  }

  /** `p` evaluated without error and allowed the request. */
  predicate Allows(p: AssumeRolePolicy, role: string, pod: Pod)
    decreases p, 1
  {
    var r := IsAllowedAssumeRole(p, role, pod);
    r.Ok? && r.value.IsAllowed()
  }

  // ---------------------------------------------------------------------------
  // The annotated-role policy

  /** Resolves the pod's annotated role, then the requested role, and allows
      only when both name the same identity. */
  function RequestingAnnotatedRoleCheck(resolver: Resolver, role: string, pod: Pod): (r: Result<Decision>)
    // the annotated role is resolved first, so its error wins
    ensures resolver(pod.role).Err? ==> r == Err(resolver(pod.role).error)
    ensures resolver(pod.role).Ok? && resolver(role).Err? ==> r == Err(resolver(role).error)
    // a decision is reached only when both roles resolve
    ensures r.Ok? <==> resolver(pod.role).Ok? && resolver(role).Ok?
    ensures r.Ok? ==> (r.value.IsAllowed() <==> resolver(pod.role).value.arn == resolver(role).value.arn)
    ensures r.Ok? && !r.value.IsAllowed() ==> r.value == Forbidden(role, resolver(pod.role).value.name)
  {
    match resolver(pod.role)
    case Err(e) => Err(e)
    case Ok(annotated) =>
      match resolver(role)
      case Err(e) => Err(e)
      case Ok(requested) =>
        if annotated.Equals(requested) then Ok(Allowed)
        else Ok(Forbidden(role, annotated.name))
  }

  // ---------------------------------------------------------------------------
  // The namespace policy

  /** The pattern strict mode compiles: the expression must match the whole
      ARN, whatever alternatives it holds. */
  function CompiledPattern(strict: bool, expression: string): string {
    if strict then "^(?:" + expression + ")$" else expression
  }

  /** The pattern strict mode compiles in policy.go: the anchors are
      concatenated without a group around the expression. */
  function CompiledPatternAsWritten(strict: bool, expression: string): string {
    if strict then "^" + expression + "$" else expression
  }

  /** The namespace check for a given way of turning the expression into
      the pattern that is compiled. */
  function NamespaceCheckWith(pattern: string -> string, namespaces: NamespaceFinder, resolver: Resolver,
                              regexp: RegexEngine, role: string, pod: Pod): Result<Decision>
  {
    match resolver(role)
    case Err(e) => Err(e)
    case Ok(requested) =>
      match namespaces(pod.namespace)
      case Err(e) => Err(e)
      case Ok(ns) =>
        var expression := PermittedExpression(ns);
        if expression == "" then Ok(NamespacePolicyForbidden("(empty)", role))
        else
          match regexp.Compile(pattern(expression))
          case Err(e) => Err(e)
          case Ok(re) =>
            if !regexp.MatchString(re, requested.arn) then
              Ok(NamespacePolicyForbidden(expression, requested.arn))
            else Ok(Allowed)
  }

  /** Resolves the requested role, finds the pod's namespace, reads its
      permitted-roles expression, and allows when the compiled expression
      matches the role's ARN. A missing or empty expression denies. */
  function NamespacePermittedRoleNameCheck(strict: bool, namespaces: NamespaceFinder, resolver: Resolver,
                                           regexp: RegexEngine, role: string, pod: Pod): (r: Result<Decision>)
    // fixed order: the role is resolved before the namespace is fetched
    ensures resolver(role).Err? ==> r == Err(resolver(role).error)
    ensures resolver(role).Ok? && namespaces(pod.namespace).Err? ==> r == Err(namespaces(pod.namespace).error)
    // fail closed: an empty or missing expression denies, naming the raw role
    ensures resolver(role).Ok? && namespaces(pod.namespace).Ok? && PermittedExpression(namespaces(pod.namespace).value) == "" ==>
      r == Ok(NamespacePolicyForbidden("(empty)", role))
    // an expression that does not compile is returned as an error, and only then
    ensures r.Err? && resolver(role).Ok? && namespaces(pod.namespace).Ok? ==>
      var e := PermittedExpression(namespaces(pod.namespace).value);
      e != "" && regexp.compileError(CompiledPatternAsWritten(strict, e)) == Some(r.error)
    ensures resolver(role).Ok? && namespaces(pod.namespace).Ok? &&
            PermittedExpression(namespaces(pod.namespace).value) != "" &&
            regexp.compileError(CompiledPatternAsWritten(strict, PermittedExpression(namespaces(pod.namespace).value))).Some? ==>
      r == Err(regexp.compileError(CompiledPatternAsWritten(strict, PermittedExpression(namespaces(pod.namespace).value))).value)
    // allowed exactly when the compiled expression matches the canonical ARN
    ensures r.Ok? && r.value.IsAllowed() <==>
      && resolver(role).Ok? && namespaces(pod.namespace).Ok?
      && var e := PermittedExpression(namespaces(pod.namespace).value);
      && e != ""
      && regexp.compileError(CompiledPatternAsWritten(strict, e)).None?
      && regexp.matchString(CompiledPatternAsWritten(strict, e), resolver(role).value.arn)
    // a decision is reached only once the role and the namespace are found
    ensures r.Ok? ==> resolver(role).Ok? && namespaces(pod.namespace).Ok?
    // a non-matching expression denies, naming the un-anchored expression and the canonical ARN
    ensures r.Ok? && !r.value.IsAllowed() && PermittedExpression(namespaces(pod.namespace).value) != "" ==>
      r.value == NamespacePolicyForbidden(PermittedExpression(namespaces(pod.namespace).value), resolver(role).value.arn)
  {
    NamespaceCheckWith(e => CompiledPatternAsWritten(strict, e), namespaces, resolver, regexp, role, pod)
  }

  /** The namespace check with strict mode corrected to match the whole ARN
      against the whole expression (the anchors around a group). */
  function NamespacePermittedRoleNameCheckCorrected(strict: bool, namespaces: NamespaceFinder, resolver: Resolver,
                                                    regexp: RegexEngine, role: string, pod: Pod): (r: Result<Decision>)
    // non-strict mode is unchanged
    ensures !strict ==> r == NamespacePermittedRoleNameCheck(strict, namespaces, resolver, regexp, role, pod)
    // so are the errors of the lookups and the denial of an empty expression
    ensures resolver(role).Err? || namespaces(pod.namespace).Err? || PermittedExpression(namespaces(pod.namespace).value) == "" ==>
      r == NamespacePermittedRoleNameCheck(strict, namespaces, resolver, regexp, role, pod)
    // a grouped pattern that does not compile is returned as an error, and only then
    ensures r.Err? && resolver(role).Ok? && namespaces(pod.namespace).Ok? ==>
      var e := PermittedExpression(namespaces(pod.namespace).value);
      e != "" && regexp.compileError(CompiledPattern(strict, e)) == Some(r.error)
    ensures resolver(role).Ok? && namespaces(pod.namespace).Ok? &&
            PermittedExpression(namespaces(pod.namespace).value) != "" &&
            regexp.compileError(CompiledPattern(strict, PermittedExpression(namespaces(pod.namespace).value))).Some? ==>
      r == Err(regexp.compileError(CompiledPattern(strict, PermittedExpression(namespaces(pod.namespace).value))).value)
    // allowed exactly when the grouped pattern matches the canonical ARN
    ensures r.Ok? && r.value.IsAllowed() <==>
      && resolver(role).Ok? && namespaces(pod.namespace).Ok?
      && var e := PermittedExpression(namespaces(pod.namespace).value);
      && e != ""
      && regexp.compileError(CompiledPattern(strict, e)).None?
      && regexp.matchString(CompiledPattern(strict, e), resolver(role).value.arn)
    ensures r.Ok? && !r.value.IsAllowed() && PermittedExpression(namespaces(pod.namespace).value) != "" ==>
      r.value == NamespacePolicyForbidden(PermittedExpression(namespaces(pod.namespace).value), resolver(role).value.arn)
  {
    NamespaceCheckWith(e => CompiledPattern(strict, e), namespaces, resolver, regexp, role, pod)
  }

  // ---------------------------------------------------------------------------
  // The composite policy

  /** Consults the policies in order, stopping at the first error or the
      first denial, which it returns unchanged; allows when all allow. */
  function CompositeCheck(ps: seq<AssumeRolePolicy>, role: string, pod: Pod): (r: Result<Decision>)
    decreases ps, 0
    ensures r.Ok? && r.value.IsAllowed() <==> forall i | 0 <= i < |ps| :: Allows(ps[i], role, pod)
  {
    if ps == [] then Ok(Allowed)
    else
      match IsAllowedAssumeRole(ps[0], role, pod)
      case Err(e) => Err(e)
      case Ok(d) =>
        if !d.IsAllowed() then Ok(d)
        else
          var rest := CompositeCheck(ps[1..], role, pod);
          assert forall i | 1 <= i < |ps| :: ps[i] == ps[1..][i - 1];
          rest
  }

  /** Where the composite stops: the position of the first policy that does
      not allow (an error or a denial), or |ps| when every policy allows. */
  function FirstStop(ps: seq<AssumeRolePolicy>, role: string, pod: Pod): (k: nat)
    ensures k <= |ps|
    ensures forall i | 0 <= i < k :: Allows(ps[i], role, pod)
    ensures k < |ps| ==> !Allows(ps[k], role, pod)
  {
    if ps == [] || !Allows(ps[0], role, pod) then 0
    else 1 + FirstStop(ps[1..], role, pod)
  }

  /** How many policies the composite consults: up to and including the
      first that does not allow. */
  function Consulted(ps: seq<AssumeRolePolicy>, role: string, pod: Pod): nat {
    var k := FirstStop(ps, role, pod);
    if k < |ps| then k + 1 else |ps|
  }

  /** The composite's outcome is that of the first policy that does not
      allow, unchanged (an error stays an error, a denial keeps its reason),
      or `Allowed` when there is none. */
  lemma {:induction false} CompositeStopsAtFirstStop(ps: seq<AssumeRolePolicy>, role: string, pod: Pod)
    ensures CompositeCheck(ps, role, pod) ==
      var k := FirstStop(ps, role, pod);
      if k < |ps| then IsAllowedAssumeRole(ps[k], role, pod) else Ok(Allowed)
  {
    if ps != [] && Allows(ps[0], role, pod) {
      CompositeStopsAtFirstStop(ps[1..], role, pod);
    }
  }

  /** If the policies before `k` allow and policy `k` errs or denies, the
      composite returns exactly what policy `k` returned. */
  lemma CompositeReturnsFirstNonAllowing(ps: seq<AssumeRolePolicy>, k: nat, role: string, pod: Pod)
    requires k < |ps|
    requires forall i | 0 <= i < k :: Allows(ps[i], role, pod)
    requires !Allows(ps[k], role, pod)
    ensures FirstStop(ps, role, pod) == k
    ensures CompositeCheck(ps, role, pod) == IsAllowedAssumeRole(ps[k], role, pod)
  {
    CompositeStopsAtFirstStop(ps, role, pod);
  }

  /** Running `a` then `b` is running `a`, and `b` only when `a` allowed:
      policies after a stop have no say in the outcome. */
  lemma {:induction false} CompositeAppend(a: seq<AssumeRolePolicy>, b: seq<AssumeRolePolicy>, role: string, pod: Pod)
    ensures CompositeCheck(a + b, role, pod) ==
      if CompositeCheck(a, role, pod) == Ok(Allowed) then CompositeCheck(b, role, pod)
      else CompositeCheck(a, role, pod)
  {
    if a == [] {
      assert a + b == b;
    } else {
      assert (a + b)[0] == a[0];
      assert (a + b)[1..] == a[1..] + b;
      CompositeAppend(a[1..], b, role, pod);
    }
  }

  /** A composite of two composites behaves as one composite of all their policies. */
  lemma NestedCompositeFlattens(a: seq<AssumeRolePolicy>, b: seq<AssumeRolePolicy>, role: string, pod: Pod)
    ensures IsAllowedAssumeRole(Policies([Policies(a), Policies(b)]), role, pod) ==
            IsAllowedAssumeRole(Policies(a + b), role, pod)
  {
    CompositeAppend(a, b, role, pod);
    var pair := [Policies(a), Policies(b)];
    assert pair[1..] == [Policies(b)];
    assert [Policies(b)][1..] == [];
    assert IsAllowedAssumeRole(pair[0], role, pod) == CompositeCheck(a, role, pod);
    assert IsAllowedAssumeRole(pair[1], role, pod) == CompositeCheck(b, role, pod);
    if CompositeCheck(a, role, pod) == Ok(Allowed) {
      assert CompositeCheck(pair, role, pod) == CompositeCheck([Policies(b)], role, pod);
      assert CompositeCheck([Policies(b)], role, pod) == CompositeCheck(b, role, pod);
    }
  }

  /** The composite is a conjunction: it allows exactly when every policy
      allows, so with no policies it allows. */
  lemma PoliciesIsConjunction(ps: seq<AssumeRolePolicy>, role: string, pod: Pod)
    ensures Allows(Policies(ps), role, pod) <==> forall i | 0 <= i < |ps| :: Allows(ps[i], role, pod)
    ensures ps == [] ==> IsAllowedAssumeRole(Policies(ps), role, pod) == Ok(Allowed)
  {
  }

  /** Whether the composite allows does not depend on the order of its
      policies; the order only decides which error or denial is reported. */
  lemma CompositeAllowIsOrderIndependent(ps: seq<AssumeRolePolicy>, qs: seq<AssumeRolePolicy>, role: string, pod: Pod)
    requires forall p :: p in ps <==> p in qs
    ensures Allows(Policies(ps), role, pod) <==> Allows(Policies(qs), role, pod)
  {
    assert IsAllowedAssumeRole(Policies(ps), role, pod) == CompositeCheck(ps, role, pod);
    assert IsAllowedAssumeRole(Policies(qs), role, pod) == CompositeCheck(qs, role, pod);
    if Allows(Policies(ps), role, pod) {
      forall j | 0 <= j < |qs| ensures Allows(qs[j], role, pod) {
        assert qs[j] in ps;
        var i :| 0 <= i < |ps| && ps[i] == qs[j];
        assert Allows(ps[i], role, pod);
      }
    }
    if Allows(Policies(qs), role, pod) {
      forall j | 0 <= j < |ps| ensures Allows(ps[j], role, pod) {
        assert ps[j] in qs;
        var i :| 0 <= i < |qs| && qs[i] == ps[j];
        assert Allows(qs[i], role, pod);
      }
    }
  }

  /** The composite's loop (policy.go's `for … range`): consults the policies
      in order and returns at the first error or denial. Also reports how
      many policies it consulted. */
  method RunComposite(ps: seq<AssumeRolePolicy>, role: string, pod: Pod) returns (r: Result<Decision>, consulted: nat)
    ensures r == CompositeCheck(ps, role, pod)
    ensures consulted == Consulted(ps, role, pod) && consulted <= |ps|
    // every policy consulted before the last one allowed
    ensures forall i | 0 <= i < consulted - 1 :: Allows(ps[i], role, pod)
    // an error or denial is the last consulted policy's own outcome
    ensures r != Ok(Allowed) ==> 0 < consulted && r == IsAllowedAssumeRole(ps[consulted - 1], role, pod)
    ensures r == Ok(Allowed) ==> consulted == |ps|
    // the policies it did not consult have no say in the outcome
    ensures r == CompositeCheck(ps[..consulted], role, pod)
  {
    var i := 0;
    while i < |ps|
      invariant i <= |ps|
      invariant forall j | 0 <= j < i :: Allows(ps[j], role, pod)
    {
      var d := IsAllowedAssumeRole(ps[i], role, pod);
      if d.Err? || !d.value.IsAllowed() {
        CompositeReturnsFirstNonAllowing(ps, i, role, pod);
        CompositeReturnsFirstNonAllowing(ps[..i + 1], i, role, pod);
        return d, i + 1;
      }
      i := i + 1;
    }
    assert ps[..|ps|] == ps;
    return Ok(Allowed), |ps|;
  }

  // ---------------------------------------------------------------------------
  // Laws of the leaf policies

  /** The annotated-role policy compares canonical identities: two spellings
      of the requested role that resolve to the same ARN get the same verdict. */
  lemma AnnotatedRoleComparesCanonicalArns(resolver: Resolver, role1: string, role2: string, pod: Pod)
    requires resolver(role1).Ok? && resolver(role2).Ok?
    requires resolver(role1).value.arn == resolver(role2).value.arn
    ensures Allows(RequestingAnnotatedRolePolicy(resolver), role1, pod) <==>
            Allows(RequestingAnnotatedRolePolicy(resolver), role2, pod)
  {
  }

  /** A namespace without a permitted-roles expression denies every role
      that resolves, and says so with the marker "(empty)". */
  lemma NamespaceWithoutExpressionDeniesAll(strict: bool, namespaces: NamespaceFinder, resolver: Resolver,
                                            regexp: RegexEngine, pod: Pod)
    requires namespaces(pod.namespace).Ok?
    requires PermittedExpression(namespaces(pod.namespace).value) == ""
    ensures forall role | resolver(role).Ok? ::
      && NamespacePermittedRoleNameCheck(strict, namespaces, resolver, regexp, role, pod) == Ok(NamespacePolicyForbidden("(empty)", role))
      && Strings.Contains(NamespacePolicyForbidden("(empty)", role).Explanation(), "(empty)")
  {
    forall role | resolver(role).Ok?
      ensures Strings.Contains(NamespacePolicyForbidden("(empty)", role).Explanation(), "(empty)")
    {
      ExplanationNamesFields(NamespacePolicyForbidden("(empty)", role));
    }
  }

  /** A role that does not resolve is an error before the namespace is
      fetched: neither the finder nor the engine has a say. */
  lemma NamespaceResolvesFirst(strict1: bool, namespaces1: NamespaceFinder, regexp1: RegexEngine,
                               strict2: bool, namespaces2: NamespaceFinder, regexp2: RegexEngine,
                               resolver: Resolver, role: string, pod: Pod)
    requires resolver(role).Err?
    ensures NamespacePermittedRoleNameCheck(strict1, namespaces1, resolver, regexp1, role, pod) ==
            NamespacePermittedRoleNameCheck(strict2, namespaces2, resolver, regexp2, role, pod) ==
            Err(resolver(role).error)
  {
  }

  /** A namespace that cannot be fetched is an error before any expression
      is read or compiled: the engine and the mode have no say. */
  lemma NamespaceFetchedBeforeExpression(strict1: bool, regexp1: RegexEngine, strict2: bool, regexp2: RegexEngine,
                                         namespaces: NamespaceFinder, resolver: Resolver, role: string, pod: Pod)
    requires resolver(role).Ok? && namespaces(pod.namespace).Err?
    ensures NamespacePermittedRoleNameCheck(strict1, namespaces, resolver, regexp1, role, pod) ==
            NamespacePermittedRoleNameCheck(strict2, namespaces, resolver, regexp2, role, pod) ==
            Err(namespaces(pod.namespace).error)
  {
  }
}
