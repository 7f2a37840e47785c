/**
 * The wildcard matcher that decides whether a catalog pattern covers an
 * action granted by a policy statement. Both strings have the shape
 * `service:verb`; they are split at their first `:`. Wildcards are read on
 * the pattern side only: `*` and `*:*` cover every action, a `*` segment
 * covers any segment, and any other segment must be equal. A string without
 * `:` is compared literally. Comparison is case-sensitive.
 */
module ActionMatcher {

  import opened Wrappers

  /** Position of the first `:` in `s`, if there is one. */
  function FirstColon(s: string): (r: Option<nat>)
    ensures r.None? <==> ':' !in s
    ensures r.Some? ==> r.value < |s| && s[r.value] == ':' && ':' !in s[..r.value]
  {
    if |s| == 0 then None
    else if s[0] == ':' then Some(0)
    else match FirstColon(s[1..])
      case None => None
      case Some(i) =>
        assert s[..i + 1] == [s[0]] + s[1..][..i];
        Some(i + 1)
  }

  /** The action string `service:verb`. */
  function Join(service: string, verb: string): string
  {
    service + ":" + verb
  }

  /** Splits `s` into its service and verb at the first `:`. */
  function Split(s: string): (r: Option<(string, string)>)
    ensures r.None? <==> ':' !in s
    ensures r.Some? ==> ':' !in r.value.0 && s == Join(r.value.0, r.value.1)
  {
    match FirstColon(s)
    case None => None
    case Some(i) =>
      assert s == s[..i] + ":" + s[i + 1..];
      Some((s[..i], s[i + 1..]))
  }

  /** Splitting undoes joining, as long as the service holds no `:`. */
  lemma SplitJoin(service: string, verb: string)
    requires ':' !in service
    ensures Split(Join(service, verb)) == Some((service, verb))
  {
    var s := Join(service, verb);
    assert s[|service|] == ':';
    assert s[..|service|] == service;
    var i := FirstColon(s).value;
    assert s[..i] == service;
    assert s[i + 1..] == verb;
  }

  /** Whether `pattern` covers `action`. */
  predicate Matches(action: string, pattern: string)
  {
    if pattern == "*" || pattern == "*:*" then true
    else match (Split(action), Split(pattern))
      case (Some((service, verb)), Some((servicePattern, verbPattern))) =>
        && (servicePattern == "*" || servicePattern == service)
        && (verbPattern == "*" || verbPattern == verb)
      case _ => action == pattern
  }

  /**
   * Reference reading of the matching rule: a pattern covers an action when
   * it is a whole wildcard, is the action itself, or is the action with its
   * verb or its service replaced by `*`.
   */
  ghost predicate Covers(action: string, pattern: string)
  {
    || pattern == "*"
    || pattern == "*:*"
    || action == pattern
    || exists service, verb ::
         && ':' !in service
         && action == Join(service, verb)
         && (pattern == Join(service, "*") || pattern == Join("*", verb))
  }

  /**
   * The segment rule: on two `service:verb` strings that are not the whole
   * wildcard, the pattern covers the action exactly when each pattern
   * segment is `*` or equals the action's segment.
   */
  lemma SegmentwiseMatch(service: string, verb: string, servicePattern: string, verbPattern: string)
    requires ':' !in service && ':' !in servicePattern
    requires Join(servicePattern, verbPattern) != "*:*"
    ensures Matches(Join(service, verb), Join(servicePattern, verbPattern))
            <==> && (servicePattern == "*" || servicePattern == service)
                 && (verbPattern == "*" || verbPattern == verb)
  {
    var pattern := Join(servicePattern, verbPattern);
    assert pattern[|servicePattern|] == ':';
    assert ':' !in "*";
    SplitJoin(service, verb);
    SplitJoin(servicePattern, verbPattern);
  }

  /** The matcher agrees with the reference reading on every pair of strings. */
  lemma MatchesIffCovers(action: string, pattern: string)
    ensures Matches(action, pattern) <==> Covers(action, pattern)
  {
    if pattern == "*" || pattern == "*:*" {
    } else if Covers(action, pattern) && action != pattern {
      var service, verb :| && ':' !in service
                           && action == Join(service, verb)
                           && (pattern == Join(service, "*") || pattern == Join("*", verb));
      if pattern == Join(service, "*") {
        SegmentwiseMatch(service, verb, service, "*");
      } else {
        SegmentwiseMatch(service, verb, "*", verb);
      }
    }
  }

  /** `*:*` covers every action, and every action covers itself. */
  lemma AdministratorAndExact(action: string)
    ensures Matches(action, "*:*")
    ensures Matches(action, action)
  {
  }

  /**
   * A service wildcard `service:*` covers exactly the actions of that
   * service: those of the form `service:verb`.
   */
  lemma ServiceWildcard(action: string, service: string)
    requires ':' !in service && service != "*"
    ensures Matches(action, Join(service, "*")) <==> exists verb :: action == Join(service, verb)
  {
    SplitJoin(service, "*");
    if Matches(action, Join(service, "*")) {
      var (s, v) := Split(action).value;
      assert action == Join(service, v);
    }
    if exists verb :: action == Join(service, verb) {
      var verb :| action == Join(service, verb);
      SplitJoin(service, verb);
    }
  }

  /**
   * Wildcards are read on the pattern side only: the action `*:*` taken
   * literally is not covered by any pattern that names a service.
   */
  lemma WildcardActionNotCoveredByService(service: string, verb: string)
    requires ':' !in service && service != "*"
    ensures !Matches("*:*", Join(service, verb))
  {
    assert "*:*" == Join("*", "*");
    SplitJoin(service, verb);
    SplitJoin("*", "*");
    SegmentwiseMatch("*", "*", service, verb);
  }

  /** A service wildcard covers every verb of its own service. */
  lemma SameServiceCovered(service: string, verb: string)
    requires ':' !in service
    ensures Matches(Join(service, verb), Join(service, "*"))
  {
    SplitJoin(service, verb);
    SplitJoin(service, "*");
  }

  /** A service wildcard never covers an action of another service. */
  lemma OtherServiceNotCovered(service: string, other: string, verb: string)
    requires ':' !in service && service != "*"
    requires ':' !in other && other != service
    ensures !Matches(Join(other, verb), Join(service, "*"))
  {
    SplitJoin(service, "*");
    SplitJoin(other, verb);
  }

  /** The examples of the catalog: `s3:*` covers `s3:DeleteBucket` and `s3:GetObject`, `iam:*` does not. */
  lemma S3Examples()
    ensures Matches("s3:GetObject", "s3:*")
    ensures Matches("s3:DeleteBucket", "s3:*")
    ensures !Matches("s3:DeleteBucket", "iam:*")
  {
    assert Join("s3", "GetObject") == "s3:GetObject";
    assert Join("s3", "DeleteBucket") == "s3:DeleteBucket";
    assert Join("s3", "*") == "s3:*";
    assert Join("iam", "*") == "iam:*";
    SameServiceCovered("s3", "GetObject");
    SameServiceCovered("s3", "DeleteBucket");
    OtherServiceNotCovered("iam", "s3", "DeleteBucket");
  }
}
