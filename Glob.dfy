/** The shell-style pattern matching of Python's `fnmatch.fnmatch`, restricted to
    patterns without bracket expressions. Following section 2.13 of the POSIX Shell
    Command Language, `*` matches any run of characters and `?` exactly one; unlike
    the shell, `*` also crosses `/` and a leading `.` is not special, because
    `fnmatch` treats the name as a flat string. The whole name must match. */
module Glob {

  /** The pattern holds no `[`, so no bracket expression (character class). */
  predicate BracketFree(pattern: string) {
    forall i :: 0 <= i < |pattern| ==> pattern[i] != '['
  }

  /** The pattern holds no wildcard at all: it matches only itself. */
  predicate Literal(pattern: string) {
    forall i :: 0 <= i < |pattern| ==> pattern[i] != '*' && pattern[i] != '?' && pattern[i] != '['
  }

  /** The pattern holds only `?`. */
  predicate AllAny(pattern: string) {
    forall i :: 0 <= i < |pattern| ==> pattern[i] == '?'
  }

  /** `fnmatch.fnmatch(name, pattern)` on a POSIX system, where `os.path.normcase`
      leaves both strings as they are. */
  function Match(name: string, pattern: string): bool
    requires BracketFree(pattern)
    decreases |name| + |pattern|
  {
    if pattern == [] then name == []
    else if pattern[0] == '*' then
      Match(name, pattern[1..]) || (name != [] && Match(name[1..], pattern))
    else
      name != [] && (pattern[0] == '?' || name[0] == pattern[0]) && Match(name[1..], pattern[1..])
  }

  lemma BracketFreeConcat(p: string, q: string)
    requires BracketFree(p) && BracketFree(q)
    ensures BracketFree(p + q)
  {
    forall i | 0 <= i < |p + q| ensures (p + q)[i] != '[' {
      if i >= |p| { assert (p + q)[i] == q[i - |p|]; }
    }
  }

  lemma BracketFreeParts(p: string, q: string)
    requires BracketFree(p + q)
    ensures BracketFree(p) && BracketFree(q)
  {
    assert forall i :: 0 <= i < |p| ==> p[i] == (p + q)[i];
    assert forall i :: 0 <= i < |q| ==> q[i] == (p + q)[|p| + i];
  }

  lemma LiteralConcat(p: string, q: string)
    requires Literal(p) && Literal(q)
    ensures Literal(p + q)
  {
    forall i | 0 <= i < |p + q| ensures (p + q)[i] != '*' && (p + q)[i] != '?' && (p + q)[i] != '[' {
      if i >= |p| { assert (p + q)[i] == q[i - |p|]; }
    }
  }

  /** A pattern without wildcards matches exactly the name equal to it. */
  lemma {:induction false} MatchLiteral(name: string, pattern: string)
    requires Literal(pattern)
    ensures BracketFree(pattern)
    ensures Match(name, pattern) <==> name == pattern
    decreases |pattern|
  {
    if pattern != [] {
      assert pattern[0] != '*' && pattern[0] != '?' && pattern[0] != '[';
      assert Literal(pattern[1..]);
      if name != [] {
        MatchLiteral(name[1..], pattern[1..]);
        if name[0] == pattern[0] && name[1..] == pattern[1..] {
          assert name == [name[0]] + name[1..];
          assert pattern == [pattern[0]] + pattern[1..];
        }
      }
    }
  }

  /** `*` alone matches every name, including the empty one and names with `/`. */
  lemma {:induction false} MatchStar(name: string)
    ensures BracketFree("*") && Match(name, "*")
    decreases |name|
  {
    assert "*"[1..] == [];
    if name != [] {
      MatchStar(name[1..]);
    }
  }

  /** A pattern made of `?` only matches exactly the names of its length. */
  lemma {:induction false} MatchAllAny(name: string, pattern: string)
    requires AllAny(pattern)
    ensures BracketFree(pattern)
    ensures Match(name, pattern) <==> |name| == |pattern|
    decreases |pattern|
  {
    if pattern != [] {
      assert pattern[0] == '?';
      if name != [] {
        MatchAllAny(name[1..], pattern[1..]);
      }
    }
  }

  /** Matching is compositional: if each half of a name matches the matching half
      of a pattern, the whole name matches the whole pattern. */
  lemma {:induction false} MatchConcat(a: string, b: string, p: string, q: string)
    requires BracketFree(p) && BracketFree(q)
    requires Match(a, p) && Match(b, q)
    ensures BracketFree(p + q) && Match(a + b, p + q)
    decreases |a| + |p|
  {
    BracketFreeConcat(p, q);
    if p == [] {
      assert a + b == b && p + q == q;
    } else if p[0] == '*' {
      assert (p + q)[0] == '*' && (p + q)[1..] == p[1..] + q;
      if Match(a, p[1..]) {
        MatchConcat(a, b, p[1..], q);
      } else {
        MatchConcat(a[1..], b, p, q);
        assert (a + b)[1..] == a[1..] + b;
      }
    } else {
      assert (p + q)[0] == p[0] && (p + q)[1..] == p[1..] + q;
      assert (a + b)[0] == a[0] && (a + b)[1..] == a[1..] + b;
      MatchConcat(a[1..], b, p[1..], q);
    }
  }

  /** `*` followed by a literal suffix matches exactly the names that end with it:
      `fnmatch(name, "*.txt")` is `name.endswith(".txt")`. */
  lemma {:induction false} MatchStarSuffix(name: string, suffix: string)
    requires Literal(suffix)
    ensures BracketFree("*" + suffix)
    ensures Match(name, "*" + suffix) <==> |suffix| <= |name| && name[|name| - |suffix|..] == suffix
    decreases |name|
  {
    var p := "*" + suffix;
    assert p[0] == '*' && p[1..] == suffix;
    MatchLiteral(name, suffix);
    if name != [] {
      MatchStarSuffix(name[1..], suffix);
      if |suffix| <= |name| - 1 {
        assert name[1..][|name| - 1 - |suffix|..] == name[|name| - |suffix|..];
      }
      if |suffix| == |name| {
        assert name[|name| - |suffix|..] == name;
      }
    } else {
      assert Match(name, p) == Match(name, suffix);
    }
  }

  /** Without `*`, a matching name is exactly as long as the pattern. */
  lemma {:induction false} MatchWithoutStarLength(name: string, pattern: string)
    requires BracketFree(pattern)
    requires forall i :: 0 <= i < |pattern| ==> pattern[i] != '*'
    requires Match(name, pattern)
    ensures |name| == |pattern|
    decreases |pattern|
  {
    if pattern != [] {
      MatchWithoutStarLength(name[1..], pattern[1..]);
    }
  }

  /** The converse of `MatchConcat`: a name that matches `p + q` splits into a
      part that matches `p` followed by a part that matches `q`. */
  lemma {:induction false} MatchSplit(name: string, p: string, q: string) returns (k: nat)
    requires BracketFree(p) && BracketFree(q) && BracketFree(p + q)
    requires Match(name, p + q)
    ensures k <= |name| && Match(name[..k], p) && Match(name[k..], q)
    decreases |name| + |p|
  {
    if p == [] {
      k := 0;
      assert p + q == q && name[k..] == name;
    } else if p[0] == '*' {
      assert (p + q)[0] == '*' && (p + q)[1..] == p[1..] + q;
      if Match(name, p[1..] + q) {
        k := MatchSplit(name, p[1..], q);
      } else {
        var k' := MatchSplit(name[1..], p, q);
        k := k' + 1;
        assert name[..k][1..] == name[1..][..k'];
        assert name[k..] == name[1..][k'..];
      }
    } else {
      assert (p + q)[0] == p[0] && (p + q)[1..] == p[1..] + q;
      var k' := MatchSplit(name[1..], p[1..], q);
      k := k' + 1;
      assert name[..k][0] == name[0];
      assert name[..k][1..] == name[1..][..k'];
      assert name[k..] == name[1..][k'..];
    }
  }

  /** A pattern that ends with a literal only matches names that end with it. */
  lemma MatchEndsWith(name: string, p: string, suffix: string)
    requires BracketFree(p) && Literal(suffix) && BracketFree(p + suffix)
    requires Match(name, p + suffix)
    ensures |suffix| <= |name| && name[|name| - |suffix|..] == suffix
  {
    MatchLiteral([], suffix);
    var k := MatchSplit(name, p, suffix);
    MatchLiteral(name[k..], suffix);
  }

  /** A pattern that starts with a literal only matches names that start with it. */
  lemma MatchStartsWith(name: string, prefix: string, q: string)
    requires Literal(prefix) && BracketFree(q) && BracketFree(prefix + q)
    requires Match(name, prefix + q)
    ensures |prefix| <= |name| && name[..|prefix|] == prefix
  {
    MatchLiteral([], prefix);
    var k := MatchSplit(name, prefix, q);
    MatchLiteral(name[..k], prefix);
  }
}
