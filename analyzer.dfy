/**
 * The policy-document analyzer: walks the statements of a policy document,
 * skips those whose effect is not Allow, and checks every action of the rest
 * against every catalog pattern, recording one finding per match.
 */
module PolicyAnalyzer {

  import opened Blocks
  import opened ActionCatalog
  import opened ActionMatcher

  datatype Effect = Allow | Deny

  /** A statement's `Action`: a single action string or a list of them. */
  datatype Action = Single(name: string) | List(names: seq<string>)

  /** One entry of a policy document's `Statement` list (its `Resource` plays no part). */
  datatype Statement = Statement(effect: Effect, action: Action)

  /** A granted action that a catalog pattern covers, traced to its statement. */
  datatype Finding = Finding(pattern: string, description: string, statementIndex: nat, action: string)

  /** The action strings of a statement, in order: a single string is a one-element list. */
  function Actions(action: Action): seq<string>
  {
    if action.Single? then [action.name] else action.names
  }

  /** The finding one catalog entry contributes for one action: one if its pattern covers the action. */
  function EntryFindings(action: string, index: nat, entry: Entry): seq<Finding>
  {
    if Matches(action, entry.pattern) then [Finding(entry.pattern, entry.description, index, action)] else []
  }

  /** Findings for one action, entry by entry in catalog order. */
  function ActionFindings(action: string, index: nat, catalog: Catalog): seq<Finding>
  {
    Concat(seq(|catalog|, k requires 0 <= k < |catalog| => EntryFindings(action, index, catalog[k])))
  }

  /** Findings for the actions of one statement, action by action. */
  function ActionsFindings(actions: seq<string>, index: nat, catalog: Catalog): seq<Finding>
  {
    Concat(seq(|actions|, j requires 0 <= j < |actions| => ActionFindings(actions[j], index, catalog)))
  }

  /** Findings for the statement at position `index`: none unless its effect is Allow. */
  function StatementFindings(statement: Statement, index: nat, catalog: Catalog): seq<Finding>
  {
    if statement.effect == Allow then ActionsFindings(Actions(statement.action), index, catalog) else []
  }

  /** The per-statement findings of `statements`, the first of them numbered `base`. */
  function StatementBlocks(statements: seq<Statement>, base: nat, catalog: Catalog): seq<seq<Finding>>
  {
    seq(|statements|, i requires 0 <= i < |statements| => StatementFindings(statements[i], base + i, catalog))
  }

  /** Findings for a whole policy document, whose statements are numbered from 0. */
  function DocumentFindings(statements: seq<Statement>, catalog: Catalog): seq<Finding>
  {
    Concat(StatementBlocks(statements, 0, catalog))
  }

  /** One more catalog entry extends the findings of an action by that entry's finding, if any. */
  lemma ActionFindingsStep(action: string, index: nat, catalog: Catalog, k: nat)
    requires k < |catalog|
    ensures ActionFindings(action, index, catalog[..k + 1])
            == ActionFindings(action, index, catalog[..k]) + EntryFindings(action, index, catalog[k])
  {
    var blocks := seq(|catalog|, k requires 0 <= k < |catalog| => EntryFindings(action, index, catalog[k]));
    assert seq(k + 1, m requires 0 <= m < k + 1 => EntryFindings(action, index, catalog[..k + 1][m])) == blocks[..k + 1];
    assert seq(k, m requires 0 <= m < k => EntryFindings(action, index, catalog[..k][m])) == blocks[..k];
    ConcatSnoc(blocks, k);
  }

  /** One more action extends the findings of a statement by that action's findings. */
  lemma ActionsFindingsStep(actions: seq<string>, index: nat, catalog: Catalog, j: nat)
    requires j < |actions|
    ensures ActionsFindings(actions[..j + 1], index, catalog)
            == ActionsFindings(actions[..j], index, catalog) + ActionFindings(actions[j], index, catalog)
  {
    var blocks := seq(|actions|, j requires 0 <= j < |actions| => ActionFindings(actions[j], index, catalog));
    assert seq(j + 1, m requires 0 <= m < j + 1 => ActionFindings(actions[..j + 1][m], index, catalog)) == blocks[..j + 1];
    assert seq(j, m requires 0 <= m < j => ActionFindings(actions[..j][m], index, catalog)) == blocks[..j];
    ConcatSnoc(blocks, j);
  }

  /** One more statement extends the findings of a document by that statement's findings. */
  lemma DocumentFindingsStep(statements: seq<Statement>, catalog: Catalog, i: nat)
    requires i < |statements|
    ensures DocumentFindings(statements[..i + 1], catalog)
            == DocumentFindings(statements[..i], catalog) + StatementFindings(statements[i], i, catalog)
  {
    var blocks := StatementBlocks(statements, 0, catalog);
    assert StatementBlocks(statements[..i + 1], 0, catalog) == blocks[..i + 1];
    assert StatementBlocks(statements[..i], 0, catalog) == blocks[..i];
    ConcatSnoc(blocks, i);
  }

  /**
   * The work done for one statement: nothing unless its effect is Allow;
   * otherwise one finding for every (action, catalog entry) pair whose
   * pattern covers the action, in action order, then catalog order.
   */
  method AnalyzeStatement(statement: Statement, index: nat, catalog: Catalog) returns (found: seq<Finding>)
    ensures found == StatementFindings(statement, index, catalog)
  {
    found := [];
    if statement.effect == Allow {
      var actions := Actions(statement.action);
      for j := 0 to |actions|
        invariant found == ActionsFindings(actions[..j], index, catalog)
      {
        ghost var before := found;
        var action := actions[j];
        for k := 0 to |catalog|
          invariant found == before + ActionFindings(action, index, catalog[..k])
        {
          var entry := catalog[k];
          ActionFindingsStep(action, index, catalog, k);
          if Matches(action, entry.pattern) {
            found := found + [Finding(entry.pattern, entry.description, index, action)];
          }
        }
        assert catalog[..|catalog|] == catalog;
        ActionsFindingsStep(actions, index, catalog, j);
      }
      assert actions[..|actions|] == actions;
    }
  }

  /**
   * The analysis of a policy document: `found` starts empty and grows by the
   * findings of each statement in document order, each statement numbered by
   * its position.
   */
  method AnalyzePolicyDocument(statements: seq<Statement>, catalog: Catalog) returns (found: seq<Finding>)
    ensures found == DocumentFindings(statements, catalog)
  {
    found := [];
    for i := 0 to |statements|
      invariant found == DocumentFindings(statements[..i], catalog)
    {
      var more := AnalyzeStatement(statements[i], i, catalog);
      found := found + more;
      DocumentFindingsStep(statements, catalog, i);
    }
    assert statements[..|statements|] == statements;
  }
}
