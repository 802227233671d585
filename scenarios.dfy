/** End-to-end requests against a small resolver that knows two roles of
    account 111, each by its short name and by its full ARN. */
module PolicyScenarios {
  import opened Collaborators
  import opened Decisions
  import opened RegexFragment
  import opened Policy
  import StrictMode

  const ReadonlyArn: string := "arn:aws:iam::111:role/readonly"
  const AdminArn: string := "arn:aws:iam::111:role/admin"

  /** Resolves `readonly` and `admin`, short or fully qualified; anything else is an error. */
  function TableResolver(role: string): Result<Identity> {
    if role == "readonly" || role == ReadonlyArn then Ok(Identity("readonly", ReadonlyArn))
    else if role == "admin" || role == AdminArn then Ok(Identity("admin", AdminArn))
    else Err(Error("unable to resolve role " + role))
  }

  /** A pod annotated with the full ARN may request the short name of the same role. */
  lemma ShortNameOfAnnotatedRoleIsAllowed()
    ensures IsAllowedAssumeRole(RequestingAnnotatedRolePolicy(TableResolver), "readonly", Pod("default", ReadonlyArn)) == Ok(Allowed)
  {
  }

  /** A pod annotated with `readonly` that requests `admin` is denied, and told why. */
  lemma OtherRoleIsForbidden()
    ensures IsAllowedAssumeRole(RequestingAnnotatedRolePolicy(TableResolver), "admin", Pod("default", "readonly")) ==
            Ok(Forbidden("admin", "readonly"))
    ensures Forbidden("admin", "readonly").Explanation() == "requested 'admin' but annotated with 'readonly', forbidden"
  {
    assert "requested '" + "admin" == "requested 'admin";
    assert "requested 'admin" + "' but annotated with '" == "requested 'admin' but annotated with '";
    assert "requested 'admin' but annotated with '" + "readonly" == "requested 'admin' but annotated with 'readonly";
    assert "requested 'admin' but annotated with 'readonly" + "', forbidden" ==
      "requested 'admin' but annotated with 'readonly', forbidden";
  }

  /** An unresolvable annotation is an error, not a denial, whatever is requested. */
  lemma UnresolvableAnnotationIsAnError(requested: string)
    ensures IsAllowedAssumeRole(RequestingAnnotatedRolePolicy(TableResolver), requested, Pod("default", "ghost")) ==
            Err(Error("unable to resolve role ghost"))
  {
  }

  /** A strict namespace that permits exactly the readonly ARN admits `readonly`. */
  lemma StrictNamespaceAdmitsItsRole(finder: NamespaceFinder, pod: Pod)
    requires finder(pod.namespace) == Ok(Namespace(map[AnnotationPermittedKey := ReadonlyArn]))
    ensures Allows(NamespacePermittedRoleNamePolicy(true, finder, TableResolver, FragmentEngine), "readonly", pod)
  {
    ReadonlyArnIsALiteral();
    StrictMode.StrictPolicyWithoutAlternation(finder, TableResolver, "readonly", pod);
  }

  /** The same namespace refuses `admin`, naming its expression and the admin ARN. */
  lemma StrictNamespaceRefusesOtherRole(finder: NamespaceFinder, pod: Pod)
    requires finder(pod.namespace) == Ok(Namespace(map[AnnotationPermittedKey := ReadonlyArn]))
    ensures IsAllowedAssumeRole(NamespacePermittedRoleNamePolicy(true, finder, TableResolver, FragmentEngine), "admin", pod) ==
            Ok(NamespacePolicyForbidden(ReadonlyArn, AdminArn))
  {
    assert TableResolver("admin") == Ok(Identity("admin", AdminArn));
    assert PermittedExpression(finder(pod.namespace).value) == ReadonlyArn;
    ReadonlyArnIsALiteral();
    StrictMode.AsWrittenStrictWithoutAlternation(ReadonlyArn, AdminArn);
    assert !FragmentEngine.matchString(CompiledPatternAsWritten(true, ReadonlyArn), AdminArn);
  }

  /** The readonly ARN holds no metacharacter and no alternation. */
  lemma ReadonlyArnIsALiteral()
    ensures IsLiteralAlternation(ReadonlyArn) && '|' !in ReadonlyArn
  {
  }

  /** The order of a composite decides which outcome is reported: a denial
      ahead of a failing lookup is reported as the denial, the failing lookup
      ahead of the denial as the error. */
  lemma OrderDecidesErrorOrDenial(pod: Pod)
    requires pod.role == "readonly"
    ensures var deny := RequestingAnnotatedRolePolicy(TableResolver);
            var fail := NamespacePermittedRoleNamePolicy(false, _ => Err(Error("namespace not found")), TableResolver, FragmentEngine);
            && IsAllowedAssumeRole(Policies([deny, fail]), "admin", pod) == Ok(Forbidden("admin", "readonly"))
            && IsAllowedAssumeRole(Policies([fail, deny]), "admin", pod) == Err(Error("namespace not found"))
  {
    var deny := RequestingAnnotatedRolePolicy(TableResolver);
    var fail := NamespacePermittedRoleNamePolicy(false, _ => Err(Error("namespace not found")), TableResolver, FragmentEngine);
    CompositeReturnsFirstNonAllowing([deny, fail], 0, "admin", pod);
    CompositeReturnsFirstNonAllowing([fail, deny], 0, "admin", pod);
  }
}
