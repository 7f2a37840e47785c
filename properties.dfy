/**
 * What the analyzer promises about its findings: which findings appear
 * (exactly the covered actions of Allow statements), where they come from
 * (catalog entries), and in what order they accumulate.
 */
module AnalyzerProperties {

  import opened Wrappers
  import opened Blocks
  import opened ActionCatalog
  import opened ActionMatcher
  import opened PolicyAnalyzer

  /**
   * `f` records a real grant of the document: its statement exists and
   * allows, its action is one of that statement's actions, its pattern and
   * description are an entry of the catalog, and the pattern covers the action.
   */
  ghost predicate Flagged(statements: seq<Statement>, catalog: Catalog, f: Finding)
  {
    && f.statementIndex < |statements|
    && statements[f.statementIndex].effect == Allow
    && f.action in Actions(statements[f.statementIndex].action)
    && Entry(f.pattern, f.description) in catalog
    && Matches(f.action, f.pattern)
  }

  /** The findings of one action are exactly its matches against the catalog. */
  lemma ActionFindingsMembers(action: string, index: nat, catalog: Catalog, f: Finding)
    ensures f in ActionFindings(action, index, catalog)
            <==> && f.statementIndex == index && f.action == action
                 && Entry(f.pattern, f.description) in catalog && Matches(action, f.pattern)
  {
    var blocks := seq(|catalog|, k requires 0 <= k < |catalog| => EntryFindings(action, index, catalog[k]));
    ConcatMembers(blocks, f);
    if f in ActionFindings(action, index, catalog) {
      var k :| 0 <= k < |blocks| && f in blocks[k];
      assert catalog[k] == Entry(f.pattern, f.description);
    }
    if && f.statementIndex == index && f.action == action
       && Entry(f.pattern, f.description) in catalog && Matches(action, f.pattern) {
      var k :| 0 <= k < |catalog| && catalog[k] == Entry(f.pattern, f.description);
      assert f in blocks[k];
    }
  }

  /** The findings of a list of actions are exactly the matches of its members. */
  lemma ActionsFindingsMembers(actions: seq<string>, index: nat, catalog: Catalog, f: Finding)
    ensures f in ActionsFindings(actions, index, catalog)
            <==> && f.statementIndex == index && f.action in actions
                 && Entry(f.pattern, f.description) in catalog && Matches(f.action, f.pattern)
  {
    var blocks := seq(|actions|, j requires 0 <= j < |actions| => ActionFindings(actions[j], index, catalog));
    ConcatMembers(blocks, f);
    if f in ActionsFindings(actions, index, catalog) {
      var j :| 0 <= j < |blocks| && f in blocks[j];
      ActionFindingsMembers(actions[j], index, catalog, f);
    }
    if && f.statementIndex == index && f.action in actions
       && Entry(f.pattern, f.description) in catalog && Matches(f.action, f.pattern) {
      var j :| 0 <= j < |actions| && actions[j] == f.action;
      ActionFindingsMembers(actions[j], index, catalog, f);
      assert f in blocks[j];
    }
  }

  /** A statement's findings follow its action order: those of earlier actions come first. */
  lemma ActionsFindingsAppend(left: seq<string>, right: seq<string>, index: nat, catalog: Catalog)
    ensures ActionsFindings(left + right, index, catalog)
            == ActionsFindings(left, index, catalog) + ActionsFindings(right, index, catalog)
  {
    var both := left + right;
    var first := seq(|left|, j requires 0 <= j < |left| => ActionFindings(left[j], index, catalog));
    var second := seq(|right|, j requires 0 <= j < |right| => ActionFindings(right[j], index, catalog));
    assert seq(|both|, j requires 0 <= j < |both| => ActionFindings(both[j], index, catalog)) == first + second;
    ConcatAppend(first, second);
  }

  /** The findings of one statement: its own, traced to its position, and only if it allows. */
  lemma StatementFindingsMembers(statement: Statement, index: nat, catalog: Catalog, f: Finding)
    ensures f in StatementFindings(statement, index, catalog)
            <==> && statement.effect == Allow && f.statementIndex == index
                 && f.action in Actions(statement.action)
                 && Entry(f.pattern, f.description) in catalog && Matches(f.action, f.pattern)
  {
    ActionsFindingsMembers(Actions(statement.action), index, catalog, f);
  }

  /** A finding is reported if and only if it records a real grant of the document. */
  lemma FindingsExactlyFlagged(statements: seq<Statement>, catalog: Catalog, f: Finding)
    ensures f in DocumentFindings(statements, catalog) <==> Flagged(statements, catalog, f)
  {
    var blocks := StatementBlocks(statements, 0, catalog);
    ConcatMembers(blocks, f);
    if f in DocumentFindings(statements, catalog) {
      var i :| 0 <= i < |blocks| && f in blocks[i];
      StatementFindingsMembers(statements[i], i, catalog, f);
    }
    if Flagged(statements, catalog, f) {
      var i := f.statementIndex;
      StatementFindingsMembers(statements[i], i, catalog, f);
      assert f in blocks[i];
    }
  }

  /** A document whose statements all deny yields no findings, whatever they name (even `*:*`). */
  lemma DenyOnlyYieldsNothing(statements: seq<Statement>, catalog: Catalog)
    requires forall i :: 0 <= i < |statements| ==> statements[i].effect == Deny
    ensures DocumentFindings(statements, catalog) == []
  {
    var r := DocumentFindings(statements, catalog);
    if r != [] {
      FindingsExactlyFlagged(statements, catalog, r[0]);
    }
  }

  /** No Allow statement action covered by any catalog pattern: no findings (in particular for no statements). */
  lemma NoMatchYieldsNothing(statements: seq<Statement>, catalog: Catalog)
    requires forall i, e ::
               0 <= i < |statements| && statements[i].effect == Allow && e in catalog ==>
               forall a :: a in Actions(statements[i].action) ==> !Matches(a, e.pattern)
    ensures DocumentFindings(statements, catalog) == []
  {
    var r := DocumentFindings(statements, catalog);
    if r != [] {
      FindingsExactlyFlagged(statements, catalog, r[0]);
    }
  }

  /** Every reported pattern is a catalog key, and its description is the one the catalog gives it. */
  lemma FindingsUseCatalogEntries(statements: seq<Statement>, catalog: Catalog, f: Finding)
    requires UniqueKeys(catalog)
    requires f in DocumentFindings(statements, catalog)
    ensures Lookup(catalog, f.pattern) == Some(f.description)
  {
    FindingsExactlyFlagged(statements, catalog, f);
    LookupEntry(catalog, Entry(f.pattern, f.description));
  }

  /** Under the shipped catalog, every action of every Allow statement is reported as administrator access. */
  lemma AllowIsAdministratorAccess(statements: seq<Statement>, i: nat, action: string)
    requires i < |statements| && statements[i].effect == Allow
    requires action in Actions(statements[i].action)
    ensures Finding("*:*", "Administrator access", i, action) in DocumentFindings(statements, DangerousActions)
  {
    AdministratorAndExact(action);
    assert DangerousActions[3] == Entry("*:*", "Administrator access");
    FindingsExactlyFlagged(statements, DangerousActions, Finding("*:*", "Administrator access", i, action));
  }

  /**
   * A catalog entry `service:*` is reported for every action of that service
   * that an Allow statement grants, whatever its verb.
   */
  lemma ServiceWildcardFlagsEveryVerb(statements: seq<Statement>, i: nat, service: string, verb: string,
                                      description: string, catalog: Catalog)
    requires i < |statements| && statements[i].effect == Allow
    requires Join(service, verb) in Actions(statements[i].action)
    requires ':' !in service && Entry(Join(service, "*"), description) in catalog
    ensures Finding(Join(service, "*"), description, i, Join(service, verb)) in DocumentFindings(statements, catalog)
  {
    SameServiceCovered(service, verb);
    FindingsExactlyFlagged(statements, catalog, Finding(Join(service, "*"), description, i, Join(service, verb)));
  }

  /**
   * The findings of a document are the findings of its first `k` statements
   * followed by those of the rest, numbered on from `k`: the result only ever
   * grows as statements are analysed.
   */
  lemma DocumentFindingsSplit(statements: seq<Statement>, k: nat, catalog: Catalog)
    requires k <= |statements|
    ensures DocumentFindings(statements, catalog)
            == DocumentFindings(statements[..k], catalog) + Concat(StatementBlocks(statements[k..], k, catalog))
  {
    var blocks := StatementBlocks(statements, 0, catalog);
    assert blocks == StatementBlocks(statements[..k], 0, catalog) + StatementBlocks(statements[k..], k, catalog);
    ConcatAppend(StatementBlocks(statements[..k], 0, catalog), StatementBlocks(statements[k..], k, catalog));
  }

  /** Findings accumulate in statement order. */
  lemma FindingsInStatementOrder(statements: seq<Statement>, catalog: Catalog)
    ensures var r := DocumentFindings(statements, catalog);
            forall p, q :: 0 <= p < q < |r| ==> r[p].statementIndex <= r[q].statementIndex
  {
    var blocks := StatementBlocks(statements, 0, catalog);
    forall i, f: Finding | 0 <= i < |blocks| && f in blocks[i] ensures f.statementIndex == 0 + i {
      StatementFindingsMembers(statements[i], i, catalog, f);
    }
    var key := (f: Finding) => f.statementIndex as int;
    ConcatOrdered(blocks, key, 0);
    var r := Concat(blocks);
    forall p, q | 0 <= p < q < |r| ensures r[p].statementIndex <= r[q].statementIndex {
      assert key(r[p]) <= key(r[q]);
    }
  }

  /** Two documents that agree statement by statement on effect and action list have the same findings. */
  lemma SameActionsSameFindings(left: seq<Statement>, right: seq<Statement>, catalog: Catalog)
    requires |left| == |right|
    requires forall i :: 0 <= i < |left| ==>
               left[i].effect == right[i].effect && Actions(left[i].action) == Actions(right[i].action)
    ensures DocumentFindings(left, catalog) == DocumentFindings(right, catalog)
  {
    assert StatementBlocks(left, 0, catalog) == StatementBlocks(right, 0, catalog);
  }

  /** An `Action` given as one string yields the same findings as a one-element list of it. */
  lemma SingleActionAsList(statements: seq<Statement>, i: nat, effect: Effect, name: string, catalog: Catalog)
    requires i < |statements|
    ensures DocumentFindings(statements[i := Statement(effect, Single(name))], catalog)
            == DocumentFindings(statements[i := Statement(effect, List([name]))], catalog)
  {
    SameActionsSameFindings(statements[i := Statement(effect, Single(name))],
                            statements[i := Statement(effect, List([name]))], catalog);
  }
}
