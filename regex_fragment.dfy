/** A reference semantics for the part of Go's regular-expression syntax
    that the strict-mode lemmas need: alternatives separated by `|`, each
    made of literal characters with an optional `^` in front and `$`
    behind, or such alternatives inside one non-capturing group `^(?:…)$`
    around the whole pattern. The lemmas that speak for Go require the
    literal parts to hold no other special character
    (`IsLiteralAlternation`); for patterns outside the fragment the
    engine's answer says nothing about Go's. */
module RegexFragment {
  import opened Strings
  import opened Collaborators

  /** Characters with a special meaning in Go's syntax, other than `|`. */
  const MetaChars: string := "\\.+*?()[]{}^$"

  /** `e` is made of literal characters and `|` only. */
  predicate IsLiteralAlternation(e: string) {
    forall i | 0 <= i < |e| :: e[i] !in MetaChars
  }

  /** The alternatives of `p`: its text cut at every `|`. */
  function Split(p: string): (r: seq<string>)
    ensures |r| >= 1
  {
    if p == [] then [""]
    else
      var rest := Split(p[1..]);
      if p[0] == '|' then [""] + rest else [[p[0]] + rest[0]] + rest[1..]
  }

  /** One alternative, with optional `^` in front and `$` behind, matches
      at the start, at the end, the whole of, or anywhere in `s`. */
  predicate BranchMatches(b: string, s: string) {
    var anchoredStart := |b| > 0 && b[0] == '^';
    var b1 := if anchoredStart then b[1..] else b;
    var anchoredEnd := |b1| > 0 && b1[|b1| - 1] == '$';
    var lit := if anchoredEnd then b1[..|b1| - 1] else b1;
    if anchoredStart && anchoredEnd then s == lit
    else if anchoredStart then lit <= s
    else if anchoredEnd then EndsWith(s, lit)
    else Contains(s, lit)
  }

  /** `p` is `^(?:` + inner + `)$`: each alternative of inner is anchored at both ends. */
  predicate IsAnchoredGroup(p: string) {
    |p| >= 6 && p[..4] == "^(?:" && p[|p| - 2..] == ")$"
  }

  predicate FragmentMatches(p: string, s: string) {
    if IsAnchoredGroup(p) then exists b | b in Split(p[4..|p| - 2]) :: BranchMatches("^" + b + "$", s)
    else exists b | b in Split(p) :: BranchMatches(b, s)
  }

  /** The engine over this fragment: every pattern compiles. */
  const FragmentEngine: RegexEngine := RegexEngine(p => None, (p, s) => FragmentMatches(p, s))

  /** Text without `|` is a single alternative. */
  lemma {:induction false} SplitWithoutBar(p: string)
    requires '|' !in p
    ensures Split(p) == [p]
  {
    if p != [] {
      SplitWithoutBar(p[1..]);
      assert [p[0]] + p[1..] == p;
    }
  }

  /** Cutting at the first `|` gives its left side, then the alternatives of the rest. */
  lemma {:induction false} SplitAtBar(a: string, b: string)
    requires '|' !in a
    ensures Split(a + "|" + b) == [a] + Split(b)
  {
    if a == [] {
      assert a + "|" + b == "|" + b;
      assert ("|" + b)[1..] == b;
    } else {
      SplitAtBar(a[1..], b);
      assert (a + "|" + b)[1..] == a[1..] + "|" + b;
      assert [a[0]] + a[1..] == a;
    }
  }

  /** The alternatives of a literal alternation are plain literals. */
  lemma {:induction false} SplitOfLiteralAlternation(e: string)
    requires IsLiteralAlternation(e)
    ensures forall b | b in Split(e) :: IsLiteralAlternation(b)
  {
    if e != [] {
      assert IsLiteralAlternation(e[1..]) by {
        forall i | 0 <= i < |e[1..]| ensures e[1..][i] !in MetaChars {
          assert e[1..][i] == e[i + 1];
        }
      }
      SplitOfLiteralAlternation(e[1..]);
      var rest := Split(e[1..]);
      if e[0] != '|' {
        var first := [e[0]] + rest[0];
        assert IsLiteralAlternation(first) by {
          assert rest[0] in rest;
          forall i | 0 <= i < |first| ensures first[i] !in MetaChars {
            if i > 0 { assert first[i] == rest[0][i - 1]; }
          }
        }
        assert forall b | b in rest[1..] :: b in rest;
      }
    }
  }

  /** A literal anchored at both ends matches that literal and nothing else. */
  lemma AnchoredLiteral(b: string, s: string)
    requires IsLiteralAlternation(b)
    ensures BranchMatches("^" + b + "$", s) <==> s == b
  {
    var p := "^" + b + "$";
    assert p[1..] == b + "$";
    assert (b + "$")[..|b|] == b;
  }

  /** Without anchors, a pattern matches where one of its alternatives occurs. */
  lemma UnanchoredLiteralAlternation(e: string, s: string)
    requires IsLiteralAlternation(e)
    ensures FragmentMatches(e, s) <==> exists b | b in Split(e) :: Contains(s, b)
  {
    assert !IsAnchoredGroup(e) by {
      if |e| >= 6 { assert e[0] == e[..4][0]; assert e[0] !in MetaChars; }
    }
    SplitOfLiteralAlternation(e);
    forall b | b in Split(e) ensures BranchMatches(b, s) == Contains(s, b) {
      assert IsLiteralAlternation(b);
      if |b| > 0 { assert b[0] !in MetaChars && b[|b| - 1] !in MetaChars; }
    }
  }
}
