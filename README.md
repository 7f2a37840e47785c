# IAM policy risk analyzer — a verified model

`iam_auditor.py` audits the roles of a cloud account. Its decision logic is
`analyze_policy_document`. This function takes one permission-policy
document and the table `DANGEROUS_ACTIONS`, which maps action patterns such
as `s3:*` or `iam:CreateUser` to risk descriptions. It reports every granted
action that a pattern of the table covers.

The body of `analyze_policy_document` is a template: it initialises
`dangerous_found`, ends in `pass`, and lists its steps and hints as comments.
This model implements those steps together with the behaviour laid out in
the system's design description:

- Walk the `Statement` list in order.
- Keep only the statements whose `Effect` is `Allow`.
- Treat an `Action` given as one string as a one-element list.
- Check every action against every table entry, in table order, using
  wildcard matching.
- Record one finding per match.

The project has five modules:

- `Blocks` (`blocks.dfy`): concatenation of a sequence of blocks, with generic
  lemmas about appending, membership and order. Every level of the analysis
  has this shape.
- `ActionCatalog` (`catalog.dfy`): the table as an ordered sequence of
  (pattern, description) entries, with lookup by key, and the shipped table
  `DangerousActions` with its seven entries in source order.
- `ActionMatcher` (`matcher.dfy`): the wildcard matcher `Matches`.
  - A pattern `*` or `*:*` covers everything.
  - Otherwise both strings are split at their first `:`. Each pattern segment
    must be `*` or equal to the action's segment.
  - A string without `:` is compared literally.
  - Wildcards are read on the pattern side only, and comparison is
    case-sensitive.
  - `Covers` is an independent reference reading of the rule, proved
    equivalent to `Matches`.
- `PolicyAnalyzer` (`analyzer.dfy`): the policy document as data, with two
  imperative methods.
  - `AnalyzeStatement` has nested loops over actions and table entries.
  - `AnalyzePolicyDocument` loops over statements and appends to `found`,
    starting from `[]`.
  - Each method is proved equal to a specification function
    (`StatementFindings`, `DocumentFindings`). Each level of that function is
    a concatenation of the level below.
- `AnalyzerProperties` (`properties.dfy`): what the analyzer guarantees about
  the findings it reports.

The table is an immutable value that the analyzer only reads, so it is
read-only by construction. It is a parameter of the analysis, and the
shipped table is one such value.

## Model

| member | source | states |
|---|---|---|
| ActionCatalog.DangerousActionsWellFormed | iam_auditor.py:95-103 | the shipped table has seven entries with pairwise distinct keys, and its `*:*` key maps to "Administrator access" |
| ActionCatalog.Lookup | iam_auditor.py:95-103 | looking up a key gives nothing exactly when no entry has that key; a value it gives is the description of an entry with that key |
| ActionCatalog.LookupEntry | iam_auditor.py:95-103 | in a table with distinct keys, looking up an entry's pattern gives that entry's description |
| ActionMatcher.Split | iam_auditor.py:139 | splitting fails exactly when the string has no `:`; otherwise the service part holds no `:` and rejoining the parts gives back the string |
| ActionMatcher.SplitJoin | iam_auditor.py:139 | splitting `service:verb` gives back service and verb whenever the service holds no `:` |
| ActionMatcher.MatchesIffCovers | iam_auditor.py:139 | the matcher agrees, in both directions, with the reference reading: a pattern covers an action iff it is `*`, `*:*`, the action itself, or the action with its verb or its service replaced by `*` |
| ActionMatcher.SegmentwiseMatch | iam_auditor.py:139 | between two `service:verb` strings (pattern not `*:*`), the pattern covers the action iff each pattern segment is `*` or equal to the action's segment |
| ActionMatcher.AdministratorAndExact | iam_auditor.py:99 | `*:*` covers every action, and every action covers itself |
| ActionMatcher.ServiceWildcard | iam_auditor.py:139 | `service:*` (service not `*`) covers an action iff the action is `service:verb` for some verb |
| ActionMatcher.SameServiceCovered | iam_auditor.py:139 | `service:*` covers `service:verb` for every verb |
| ActionMatcher.OtherServiceNotCovered | iam_auditor.py:139 | `service:*` never covers an action of a different service |
| ActionMatcher.WildcardActionNotCoveredByService | iam_auditor.py:139 | the action `*:*`, taken literally, is not covered by any pattern that names a service |
| ActionMatcher.S3Examples | iam_auditor.py:139 | `s3:*` covers `s3:GetObject` and `s3:DeleteBucket`; `iam:*` does not cover `s3:DeleteBucket` |
| PolicyAnalyzer.AnalyzeStatement | iam_auditor.py:131-138 | the findings of one statement are its specification's: none for a non-Allow statement, otherwise one per (action, table entry) match, in action order then table order |
| PolicyAnalyzer.AnalyzePolicyDocument | iam_auditor.py:115-134 | starting from an empty list and statement by statement, the result is the specification's findings of the whole document, each finding carrying its statement's position |
| AnalyzerProperties.ActionFindingsMembers | iam_auditor.py:132-133 | a finding is reported for an action iff it names that action and statement, its pattern and description form a table entry, and the pattern covers the action |
| AnalyzerProperties.ActionsFindingsMembers | iam_auditor.py:132-133 | a finding is reported for an action list iff its action is one of the list and it is a match of that action against the table |
| AnalyzerProperties.ActionsFindingsAppend | iam_auditor.py:132-133 | the findings of a list of actions are those of its first part followed by those of the rest |
| AnalyzerProperties.StatementFindingsMembers | iam_auditor.py:131-133 | a finding is reported for a statement iff the statement allows and the finding is a match of one of its actions |
| AnalyzerProperties.FindingsExactlyFlagged | iam_auditor.py:130-134 | a finding is in the document's result iff its statement exists and allows, its action is granted there, its pattern and description form a table entry, and the pattern covers the action |
| AnalyzerProperties.DenyOnlyYieldsNothing | iam_auditor.py:131 | a document whose statements all deny yields no findings, whatever actions they name (including `*:*`) |
| AnalyzerProperties.NoMatchYieldsNothing | iam_auditor.py:115-134 | when no table pattern covers any action of any Allow statement (for instance, no statements at all), the result is empty |
| AnalyzerProperties.FindingsUseCatalogEntries | iam_auditor.py:95-103 | with distinct keys, every reported pattern is a table key, and the reported description is the one the table gives that key |
| AnalyzerProperties.AllowIsAdministratorAccess | iam_auditor.py:99 | under the shipped table, every action of every Allow statement is reported as "Administrator access" through `*:*` |
| AnalyzerProperties.ServiceWildcardFlagsEveryVerb | iam_auditor.py:139 | when the table holds `service:*`, every `service:verb` granted by an Allow statement is reported against it |
| AnalyzerProperties.DocumentFindingsSplit | iam_auditor.py:130-134 | the document's findings are those of its first k statements followed by those of the rest, numbered on from k |
| AnalyzerProperties.FindingsInStatementOrder | iam_auditor.py:130-133 | reported findings appear in non-decreasing statement position |
| AnalyzerProperties.SameActionsSameFindings | iam_auditor.py:137-138 | two documents that agree statement by statement on effect and on the list of actions give the same findings |
| AnalyzerProperties.SingleActionAsList | iam_auditor.py:137-138 | an `Action` given as one string gives the same findings as a one-element list holding it |

## Left out

- The account-access functions (`iam_auditor.py:4-93`): they list roles, their managed and inline policies, and fetch policy documents through the cloud provider's client library. They are remote I/O and are not part of this model.
- The command-line entry point (`iam_auditor.py:143-166`): session setup, iteration over roles and printing.
- Turning a JSON policy into statements. This includes the error for a document with no `Statement` list or a statement with no `Effect` or `Action`, and effect strings other than `Allow` and `Deny`. The model starts from already-normalised statements (`Effect` is `Allow` or `Deny`; `Action` is one string or a list).
- `Resource` and any other statement field: the analysis reasons about actions only.
- Gathering findings across the policies of a role and tagging them with their source. No code for this exists in the repository.
- Letting a Deny statement override an Allow statement: Deny statements are only skipped.
- Case-insensitive comparison of action names. The design mentions it, but the repository has no comparison code to take it from, so the model compares exactly.

## Where the design and the code meet

- The source function is a template (`pass` at `iam_auditor.py:141`), so as written it returns nothing. The model follows its step comments (`iam_auditor.py:129-139`) and the design description. The finding record (pattern, description, statement position, action) comes from the design, because the source only says "list of dangerous actions found".
- The design gives an example in which an Allow statement with `s3:GetObject` and `s3:DeleteBucket` yields exactly one finding. Under its own matching rule and the shipped table, `s3:*` and `*:*` cover both actions (`ServiceWildcardFlagsEveryVerb`, `AllowIsAdministratorAccess`, `S3Examples`), and `s3:DeleteBucket` also matches its own key. The model reports all five matches.
- The design also says that the literal action `*:*` is covered by every table pattern. Its segment rule gives the opposite for patterns that name a service, such as `s3:*` (`WildcardActionNotCoveredByService`). The model follows the rule, so `*:*` as an action is reported only through the `*:*` entry.
- The design says that a normalised action list is never empty. The model accepts an empty list, which yields no findings.
