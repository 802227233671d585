/** The outcome of a policy check: allowed, or one of two denials that
    carry the values they compared so an operator can see why. */
module Decisions {
  import opened Strings

  datatype Decision =
    | Allowed
      /** The requested role is not the one the pod is annotated with. */
    | Forbidden(requested: string, annotated: string)
      /** The namespace's permitted-roles expression does not admit the role. */
    | NamespacePolicyForbidden(expression: string, role: string)
  {
    predicate IsAllowed() {
      Allowed?
    }

    /** The operator-facing reason: empty exactly when the decision allows. */
    function Explanation(): (s: string)
      ensures s == "" <==> IsAllowed()
    {
      match this
      case Allowed => ""
      case Forbidden(requested, annotated) =>
        "requested '" + requested + "' but annotated with '" + annotated + "', forbidden"
      case NamespacePolicyForbidden(expression, role) =>
        "namespace policy expression '" + expression + "' forbids role '" + role + "'"
    }
  }

  /** A denial's explanation names both values the failed rule compared. */
  lemma ExplanationNamesFields(d: Decision)
    ensures d.Forbidden? ==> Contains(d.Explanation(), d.requested) && Contains(d.Explanation(), d.annotated)
    ensures d.NamespacePolicyForbidden? ==>
      Contains(d.Explanation(), d.expression) && Contains(d.Explanation(), d.role)
  {
    var s := d.Explanation();
    match d
    case Allowed =>
    case Forbidden(requested, annotated) =>
      ContainsMiddle(s, "requested '", requested, "' but annotated with '" + annotated + "', forbidden");
      ContainsMiddle(s, "requested '" + requested + "' but annotated with '", annotated, "', forbidden");
    case NamespacePolicyForbidden(expression, role) =>
      ContainsMiddle(s, "namespace policy expression '", expression, "' forbids role '" + role + "'");
      ContainsMiddle(s, "namespace policy expression '" + expression + "' forbids role '", role, "'");
  }
}
