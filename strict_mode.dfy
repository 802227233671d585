/** What the namespace policy's strict and non-strict modes admit, stated
    with the reference semantics of the literal-and-alternation fragment of
    Go's regular expressions: first for the pattern policy.go builds, then
    for the corrected one. */
module StrictMode {
  import opened Strings
  import opened Collaborators
  import opened RegexFragment
  import opened Decisions
  import opened Policy

  const RolePrefix: string := "arn:aws:iam::111:role/"
  const TeamA: string := RolePrefix + "team-a"
  const TeamB: string := RolePrefix + "team-b"
  const TeamAAdmin: string := TeamA + "-admin"

  // ---------------------------------------------------------------------------
  // Strict mode as policy.go builds it: "^" + expression + "$"

  /** For an expression without alternation, policy.go's strict pattern is a
      full-string match. */
  lemma AsWrittenStrictWithoutAlternation(e: string, s: string)
    requires IsLiteralAlternation(e) && '|' !in e
    ensures FragmentMatches(CompiledPatternAsWritten(true, e), s) <==> s == e
  {
    var p := CompiledPatternAsWritten(true, e);
    assert !IsAnchoredGroup(p) by {
      if |p| >= 6 { assert p[1] == p[..4][1]; assert p[1] == e[0]; assert e[0] !in MetaChars; }
    }
    assert '|' !in p by {
      forall i | 0 <= i < |p| ensures p[i] != '|' {
        if 0 < i < |p| - 1 { assert p[i] == e[i - 1]; }
      }
    }
    SplitWithoutBar(p);
    AnchoredLiteral(e, s);
    assert FragmentMatches(p, s) <==> BranchMatches(p, s);
  }

  /** In policy.go's strict mode `^` binds to the first alternative only and
      `$` to the last: with two alternatives `a|b`, every string that starts
      with `a` matches, not only `a` and `b` themselves. */
  lemma AsWrittenStrictAdmitsPrefixOfFirst(a: string, b: string, s: string)
    requires IsLiteralAlternation(a) && IsLiteralAlternation(b) && '|' !in a && '|' !in b
    requires a <= s
    ensures Split(a + "|" + b) == [a, b]
    ensures FragmentMatches(CompiledPatternAsWritten(true, a + "|" + b), s)
  {
    SplitWithoutBar(a);
    SplitWithoutBar(b);
    SplitAtBar(a, b);
    var p := CompiledPatternAsWritten(true, a + "|" + b);
    var first := "^" + a;
    assert p == first + "|" + (b + "$");
    assert '|' !in first by {
      forall i | 0 <= i < |first| ensures first[i] != '|' {
        if i > 0 { assert first[i] == a[i - 1]; }
      }
    }
    assert '|' !in b + "$";
    SplitWithoutBar(b + "$");
    SplitAtBar(first, b + "$");
    assert Split(p) == [first, b + "$"];
    assert !IsAnchoredGroup(p) by {
      if |p| >= 6 {
        assert p[1] == p[..4][1];
        if a != [] { assert p[1] == a[0]; assert a[0] !in MetaChars; }
        else { assert p[1] == '|'; }
      }
    }
    assert first[1..] == a;
    if |a| > 0 { assert first[|first| - 1] == a[|a| - 1]; assert a[|a| - 1] !in MetaChars; }
    assert BranchMatches(first, s);
    assert first in Split(p);
  }

  /** A strict namespace whose expression has no alternation allows exactly
      the role whose ARN is the expression. */
  lemma StrictPolicyWithoutAlternation(namespaces: NamespaceFinder, resolver: Resolver, role: string, pod: Pod)
    requires resolver(role).Ok? && namespaces(pod.namespace).Ok?
    requires var e := PermittedExpression(namespaces(pod.namespace).value);
      e != "" && IsLiteralAlternation(e) && '|' !in e
    ensures Allows(NamespacePermittedRoleNamePolicy(true, namespaces, resolver, FragmentEngine), role, pod) <==>
            resolver(role).value.arn == PermittedExpression(namespaces(pod.namespace).value)
  {
    AsWrittenStrictWithoutAlternation(PermittedExpression(namespaces(pod.namespace).value), resolver(role).value.arn);
  }

  /** A strict namespace whose expression is `a|b` allows every role whose
      ARN starts with `a`. */
  lemma StrictPolicyAdmitsPrefixOfFirst(namespaces: NamespaceFinder, resolver: Resolver, role: string, pod: Pod,
                                        a: string, b: string)
    requires IsLiteralAlternation(a) && IsLiteralAlternation(b) && '|' !in a && '|' !in b && a != ""
    requires resolver(role).Ok? && a <= resolver(role).value.arn
    requires namespaces(pod.namespace).Ok? && PermittedExpression(namespaces(pod.namespace).value) == a + "|" + b
    ensures Allows(NamespacePermittedRoleNamePolicy(true, namespaces, resolver, FragmentEngine), role, pod)
  {
    AsWrittenStrictAdmitsPrefixOfFirst(a, b, resolver(role).value.arn);
  }

  /** With `a|b` in strict mode, a role whose ARN starts with `a` but is
      neither alternative is allowed by the check as written and denied by
      the corrected one. */
  lemma StrictPolicyAdmitsNonAlternative(namespaces: NamespaceFinder, resolver: Resolver, role: string, pod: Pod,
                                         a: string, b: string)
    requires IsLiteralAlternation(a) && IsLiteralAlternation(b) && '|' !in a && '|' !in b && a != ""
    requires resolver(role).Ok? && a <= resolver(role).value.arn
    requires resolver(role).value.arn != a && resolver(role).value.arn != b
    requires namespaces(pod.namespace).Ok? && PermittedExpression(namespaces(pod.namespace).value) == a + "|" + b
    ensures Allows(NamespacePermittedRoleNamePolicy(true, namespaces, resolver, FragmentEngine), role, pod)
    ensures NamespacePermittedRoleNameCheckCorrected(true, namespaces, resolver, FragmentEngine, role, pod) ==
            Ok(NamespacePolicyForbidden(a + "|" + b, resolver(role).value.arn))
  {
    StrictPolicyAdmitsPrefixOfFirst(namespaces, resolver, role, pod, a, b);
    LiteralAlternationOfTwo(a, b);
    SplitWithoutBar(b);
    CorrectedStrictPatternMatchesWholeAlternative(a + "|" + b, resolver(role).value.arn);
  }

  /** The team example: a strict namespace permitting `team-a` or `team-b` of
      account 111 lets a pod assume `team-a-admin`, which is neither; the
      corrected check refuses it. */
  lemma StrictPolicyAdmitsTeamAAdmin(namespaces: NamespaceFinder, resolver: Resolver, role: string, pod: Pod)
    requires resolver(role).Ok? && resolver(role).value.arn == TeamAAdmin
    requires namespaces(pod.namespace).Ok? && PermittedExpression(namespaces(pod.namespace).value) == TeamA + "|" + TeamB
    ensures Allows(NamespacePermittedRoleNamePolicy(true, namespaces, resolver, FragmentEngine), role, pod)
    ensures NamespacePermittedRoleNameCheckCorrected(true, namespaces, resolver, FragmentEngine, role, pod) ==
            Ok(NamespacePolicyForbidden(TeamA + "|" + TeamB, TeamAAdmin))
  {
    TeamArnsAreLiterals();
    StrictPolicyAdmitsNonAlternative(namespaces, resolver, role, pod, TeamA, TeamB);
  }

  /** The literal facts the team example rests on. */
  lemma TeamArnsAreLiterals()
    ensures IsLiteralAlternation(TeamA) && IsLiteralAlternation(TeamB)
    ensures '|' !in TeamA && '|' !in TeamB
    ensures TeamA <= TeamAAdmin && TeamAAdmin != TeamA && TeamAAdmin != TeamB
  {
    assert IsLiteralAlternation(RolePrefix) && '|' !in RolePrefix;
    assert IsLiteralAlternation("team-a") && '|' !in "team-a";
    assert IsLiteralAlternation("team-b") && '|' !in "team-b";
    LiteralsConcatenate(RolePrefix, "team-a");
    LiteralsConcatenate(RolePrefix, "team-b");
    assert TeamAAdmin[..|TeamA|] == TeamA;
  }

  /** Literals without alternation stay so when concatenated. */
  lemma LiteralsConcatenate(a: string, b: string)
    requires IsLiteralAlternation(a) && IsLiteralAlternation(b) && '|' !in a && '|' !in b
    ensures IsLiteralAlternation(a + b) && '|' !in a + b
  {
    forall i | 0 <= i < |a + b| ensures (a + b)[i] !in MetaChars && (a + b)[i] != '|' {
      if i < |a| { assert (a + b)[i] == a[i]; } else { assert (a + b)[i] == b[i - |a|]; }
    }
  }

  // ---------------------------------------------------------------------------
  // Strict mode corrected: "^(?:" + expression + ")$"

  /** Two literals joined by `|` form a literal alternation with those two alternatives. */
  lemma LiteralAlternationOfTwo(a: string, b: string)
    requires IsLiteralAlternation(a) && IsLiteralAlternation(b) && '|' !in a
    ensures IsLiteralAlternation(a + "|" + b)
    ensures Split(a + "|" + b) == [a] + Split(b)
  {
    var e := a + "|" + b;
    forall i | 0 <= i < |e| ensures e[i] !in MetaChars {
      if i < |a| { assert e[i] == a[i]; }
      else if i > |a| { assert e[i] == b[i - |a| - 1]; }
    }
    SplitAtBar(a, b);
  }

  /** The corrected strict pattern matches exactly the alternatives of the
      expression, each as a whole string. */
  lemma CorrectedStrictPatternMatchesWholeAlternative(e: string, s: string)
    requires IsLiteralAlternation(e)
    ensures FragmentMatches(CompiledPattern(true, e), s) <==> s in Split(e)
  {
    var p := CompiledPattern(true, e);
    assert p[..4] == "^(?:";
    assert p[|p| - 2..] == ")$";
    assert p[4..|p| - 2] == e;
    SplitOfLiteralAlternation(e);
    forall b | b in Split(e) ensures BranchMatches("^" + b + "$", s) <==> s == b {
      AnchoredLiteral(b, s);
    }
  }

  /** The corrected strict check allows exactly the roles whose ARN is one of
      the expression's alternatives. */
  lemma CorrectedStrictPolicyAdmitsExactAlternatives(namespaces: NamespaceFinder, resolver: Resolver, role: string, pod: Pod)
    requires resolver(role).Ok? && namespaces(pod.namespace).Ok?
    requires var e := PermittedExpression(namespaces(pod.namespace).value); e != "" && IsLiteralAlternation(e)
    ensures var r := NamespacePermittedRoleNameCheckCorrected(true, namespaces, resolver, FragmentEngine, role, pod);
            r.Ok? && r.value.IsAllowed() <==>
            resolver(role).value.arn in Split(PermittedExpression(namespaces(pod.namespace).value))
  {
    CorrectedStrictPatternMatchesWholeAlternative(PermittedExpression(namespaces(pod.namespace).value), resolver(role).value.arn);
  }

  // ---------------------------------------------------------------------------
  // Non-strict mode: the expression unchanged

  /** Non-strict mode allows every role whose ARN merely contains one of the
      expression's alternatives. */
  lemma LaxNamespacePolicyAdmitsContainingArns(namespaces: NamespaceFinder, resolver: Resolver, role: string, pod: Pod)
    requires resolver(role).Ok? && namespaces(pod.namespace).Ok?
    requires var e := PermittedExpression(namespaces(pod.namespace).value); e != "" && IsLiteralAlternation(e)
    ensures Allows(NamespacePermittedRoleNamePolicy(false, namespaces, resolver, FragmentEngine), role, pod) <==>
            exists b | b in Split(PermittedExpression(namespaces(pod.namespace).value)) :: Contains(resolver(role).value.arn, b)
  {
    UnanchoredLiteralAlternation(PermittedExpression(namespaces(pod.namespace).value), resolver(role).value.arn);
  }

  const Foo: string := "foo"
  const FooBar: string := "foobar"
  const XFoo: string := "xfoo"

  /** The expression `foo` in policy.go's strict mode admits `foo` only. */
  lemma FooStrict()
    ensures FragmentMatches(CompiledPatternAsWritten(true, Foo), Foo)
    ensures !FragmentMatches(CompiledPatternAsWritten(true, Foo), FooBar)
    ensures !FragmentMatches(CompiledPatternAsWritten(true, Foo), XFoo)
  {
    assert IsLiteralAlternation(Foo) && '|' !in Foo;
    AsWrittenStrictWithoutAlternation(Foo, Foo);
    AsWrittenStrictWithoutAlternation(Foo, FooBar);
    AsWrittenStrictWithoutAlternation(Foo, XFoo);
  }

  /** The expression `foo` in non-strict mode also admits `foobar` and `xfoo`. */
  lemma FooLax()
    ensures FragmentMatches(CompiledPatternAsWritten(false, Foo), Foo)
    ensures FragmentMatches(CompiledPatternAsWritten(false, Foo), FooBar)
    ensures FragmentMatches(CompiledPatternAsWritten(false, Foo), XFoo)
  {
    assert IsLiteralAlternation(Foo) && '|' !in Foo;
    assert OccursAt(Foo, Foo, 0);
    LaxLiteralAdmitsContaining(Foo, Foo, 0);
    assert OccursAt(FooBar, Foo, 0);
    LaxLiteralAdmitsContaining(Foo, FooBar, 0);
    assert OccursAt(XFoo, Foo, 1);
    LaxLiteralAdmitsContaining(Foo, XFoo, 1);
  }

  /** A literal expression without alternation admits, in non-strict mode,
      every string in which it occurs. */
  lemma LaxLiteralAdmitsContaining(e: string, s: string, i: nat)
    requires IsLiteralAlternation(e) && '|' !in e
    requires i <= |s| && OccursAt(s, e, i)
    ensures FragmentMatches(CompiledPatternAsWritten(false, e), s)
  {
    SplitWithoutBar(e);
    UnanchoredLiteralAlternation(e, s);
    assert e in Split(e);
  }
}
