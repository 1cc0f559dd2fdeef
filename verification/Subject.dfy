/** Matching of patterns: plain prefix matching for actions and resources, and the identity-aware
  * matching of subjects. */
module Subject {
  import opened Wrappers
  import opened Workload

  predicate StartsWith(s: string, prefix: string) {
    prefix <= s
  }

  function StripSuffix(s: string, suffix: string): Option<string> {
    if |suffix| <= |s| && s[|s| - |suffix|..] == suffix then Some(s[..|s| - |suffix|]) else None
  }

  // engine.rs
  predicate MatchesPattern(pattern: string, value: string) {
    if pattern == "*" then true
    else
      match StripSuffix(pattern, "*")
      case Some(prefix) => StartsWith(value, prefix)
      case None => pattern == value
  }

  // identity.rs
  predicate SubjectMatches(pattern: string, subject: string) {
    if pattern == "*" then true
    else
      match StripSuffix(pattern, "/*")
      case Some(prefix) =>
        (match Parse(subject)
         case Ok(id) => id.namespace == prefix
         case Err(_) => StartsWith(subject, prefix + "/"))
      case None => pattern == subject
  }

  lemma {:induction false} FirstSlashDecides(subject: string, namespace: string, name: string, prefix: string)
    requires subject == namespace + "/" + name && '/' !in namespace && '/' !in name
    ensures namespace == prefix <==> StartsWith(subject, prefix + "/")
  {
    if StartsWith(subject, prefix + "/") {
      var n := |prefix|;
      assert subject[n] == (prefix + "/")[n] == '/';
      assert n == |namespace|;
      assert subject[..n] == prefix && subject[..n] == namespace;
    }
  }

  // For a well-formed subject the parsed namespace says the same as the raw prefix.
  lemma ParsedBranchIsRawBranch(subject: string, prefix: string)
    requires Parse(subject).Ok?
    ensures Parse(subject).value.namespace == prefix <==> StartsWith(subject, prefix + "/")
  {
    var id := Parse(subject).value;
    ParseInvertsDisplay(subject, id);
    ValidSegmentsHaveNoSlash(id.namespace);
    ValidSegmentsHaveNoSlash(id.name);
    FirstSlashDecides(subject, id.namespace, id.name, prefix);
  }

  predicate EndsWith(s: string, suffix: string) {
    StripSuffix(s, suffix).Some?
  }

  ghost predicate Agree(pattern: string) {
    forall subject :: SubjectMatches(pattern, subject) == MatchesPattern(pattern, subject)
  }

  lemma NamespacePatternsAgree(pattern: string, subject: string)
    requires EndsWith(pattern, "/*")
    ensures SubjectMatches(pattern, subject) == MatchesPattern(pattern, subject)
  {
    var n := |pattern| - 2;
    var prefix := pattern[..n];
    assert pattern[n..] == "/*";
    assert pattern[n + 1..] == pattern[n..][1..] == "*";
    assert pattern[..n + 1] == prefix + "/" by {
      assert pattern[n] == pattern[n..][0] == '/';
    }
    if Parse(subject).Ok? {
      ParsedBranchIsRawBranch(subject, prefix);
    }
  }

  // Subject matching is prefix matching on all subjects, exactly for the patterns `*`, those
  // ending in `/*`, and those not ending in `*`.
  lemma SubjectMatchingIsPrefixMatchingExactly(pattern: string)
    ensures Agree(pattern) <==> pattern == "*" || EndsWith(pattern, "/*") || !EndsWith(pattern, "*")
  {
    if pattern == "*" {
    } else if EndsWith(pattern, "/*") {
      forall subject ensures SubjectMatches(pattern, subject) == MatchesPattern(pattern, subject) {
        NamespacePatternsAgree(pattern, subject);
      }
    } else if EndsWith(pattern, "*") {
      var prefix := StripSuffix(pattern, "*").value;
      assert MatchesPattern(pattern, prefix) && !SubjectMatches(pattern, prefix);
    }
  }

  // ---- what the patterns mean ----

  predicate EndsInStar(pattern: string) {
    pattern != "" && pattern[|pattern| - 1] == '*'
  }

  // A pattern fits a value when it is a star, is the value, or ends in a star and the value
  // extends what comes before.
  predicate PatternFits(pattern: string, value: string) {
    pattern == "*" || pattern == value || (EndsInStar(pattern) && pattern[..|pattern| - 1] <= value)
  }

  // A subject pattern fits when it is a star, is the subject, or ends in a slash and a star and
  // the subject extends the namespace and its slash. A star after anything else is plain text.
  predicate SubjectFits(pattern: string, subject: string) {
    || pattern == "*" || pattern == subject
    || (EndsInStar(pattern) && |pattern| >= 2 && pattern[|pattern| - 2] == '/' && pattern[..|pattern| - 1] <= subject)
  }

  lemma StarIsStripped(pattern: string)
    ensures EndsInStar(pattern) <==> StripSuffix(pattern, "*").Some?
    ensures EndsInStar(pattern) ==> StripSuffix(pattern, "*") == Some(pattern[..|pattern| - 1])
  {
    if pattern != "" {
      assert pattern[|pattern| - 1..] == [pattern[|pattern| - 1]];
    }
  }

  lemma PatternFitsExactly(pattern: string, value: string)
    ensures MatchesPattern(pattern, value) <==> PatternFits(pattern, value)
  {
    StarIsStripped(pattern);
  }

  lemma SlashStarIsStripped(pattern: string)
    ensures EndsInStar(pattern) && |pattern| >= 2 && pattern[|pattern| - 2] == '/' <==> EndsWith(pattern, "/*")
  {
    if |pattern| >= 2 {
      var n := |pattern| - 2;
      assert pattern[n..] == [pattern[n], pattern[n + 1]];
    }
  }

  lemma SubjectFitsExactly(pattern: string, subject: string)
    ensures SubjectMatches(pattern, subject) <==> SubjectFits(pattern, subject)
  {
    SlashStarIsStripped(pattern);
    if EndsWith(pattern, "/*") {
      NamespacePatternsAgree(pattern, subject);
      PatternFitsExactly(pattern, subject);
    }
  }
}
