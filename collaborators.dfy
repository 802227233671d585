/** The outside pieces the policies consult: the ARN resolver, the namespace
    finder, the regular-expression engine, and the pod and namespace objects
    they read. Each is a plain value or a function returning a value or an
    error, so that a policy's outcome is a function of what they report. */
module Collaborators {

  /** An error reported by a collaborator. Policies pass it on unchanged. */
  datatype Error = Error(message: string)

  /** A value, or the error that kept it from being produced (Go's `(T, error)` pair). */
  datatype Result<T> = Ok(value: T) | Err(error: Error)

  datatype Option<T> = None | Some(value: T)

  /** The canonical identity the ARN resolver gives a role string. */
  datatype Identity = Identity(name: string, arn: string)
  {
    /** Two identities are the same role when their canonical ARNs agree. */
    predicate Equals(other: Identity) {
      arn == other.arn
    }
  }

  /** Turns a raw role string (a short name or a full ARN) into an identity. */
  type Resolver = string -> Result<Identity>

  /** What the policies read of a pod: its namespace and its role annotation. */
  datatype Pod = Pod(namespace: string, role: string)

  /** What the policies read of a namespace: its annotations. */
  datatype Namespace = Namespace(annotations: map<string, string>)

  /** Looks a namespace up by name. */
  type NamespaceFinder = string -> Result<Namespace>

  /** The namespace annotation holding the permitted-roles expression. */
  const AnnotationPermittedKey: string := "iam.amazonaws.com/permitted"

  /** The permitted-roles expression of a namespace; a missing annotation
      reads as the empty string, as indexing a Go map does. */
  function PermittedExpression(ns: Namespace): string {
    if AnnotationPermittedKey in ns.annotations then ns.annotations[AnnotationPermittedKey] else ""
  }

  /** A compiled regular expression. */
  datatype Regexp = Regexp(pattern: string)

  /** The regular-expression library: which patterns fail to compile (and
      with what error), and which strings a compiled pattern matches. */
  datatype RegexEngine = RegexEngine(
    compileError: string -> Option<Error>,
    matchString: (string, string) -> bool)
  {
    /** Compiles `pattern`, or reports the engine's error for it. */
    function Compile(pattern: string): Result<Regexp> {
      match compileError(pattern)
      case Some(e) => Err(e)
      case None => Ok(Regexp(pattern))
    }

    /** Whether the compiled expression matches somewhere in `s`. */
    predicate MatchString(re: Regexp, s: string) {
      matchString(re.pattern, s)
    }
  }
}
