/**
 * The dangerous-action catalog: an ordered mapping from an action pattern
 * (`service:verb`, either segment possibly `*`) to a description of the risk
 * it carries. The order of the entries is the order in which the analyzer
 * consults them.
 */
module ActionCatalog {

  import opened Wrappers

  /** One key/value pair of the catalog. */
  datatype Entry = Entry(pattern: string, description: string)

  /** An ordered mapping, kept as the sequence of its entries. */
  type Catalog = seq<Entry>

  /** No pattern is a key twice, as in a dictionary. */
  predicate UniqueKeys(catalog: Catalog)
  {
    forall i, j :: 0 <= i < j < |catalog| ==> catalog[i].pattern != catalog[j].pattern
  }

  /** The description the catalog maps `pattern` to, if `pattern` is a key. */
  function Lookup(catalog: Catalog, pattern: string): (r: Option<string>)
    ensures r.None? <==> forall e :: e in catalog ==> e.pattern != pattern
    ensures r.Some? ==> Entry(pattern, r.value) in catalog
  {
    if |catalog| == 0 then None
    else if catalog[0].pattern == pattern then Some(catalog[0].description)
    else Lookup(catalog[1..], pattern)
  }

  /** In a catalog without repeated keys, every entry is what its key looks up. */
  lemma LookupEntry(catalog: Catalog, e: Entry)
    requires UniqueKeys(catalog)
    requires e in catalog
    ensures Lookup(catalog, e.pattern) == Some(e.description)
  {
  }

  /** The catalog the auditor ships with, in its declared order. */
  const DangerousActions: Catalog := [
    Entry("s3:*", "Full S3 access"),
    Entry("iam:*", "Full IAM access"),
    Entry("ec2:*", "Full EC2 access"),
    Entry("*:*", "Administrator access"),
    Entry("s3:DeleteBucket", "Can delete S3 buckets"),
    Entry("iam:CreateUser", "Can create IAM users"),
    Entry("iam:AttachUserPolicy", "Can escalate privileges")
  ]

  /** The shipped catalog is a well-formed mapping with seven keys. */
  lemma DangerousActionsWellFormed()
    ensures UniqueKeys(DangerousActions)
    ensures |DangerousActions| == 7
    ensures Lookup(DangerousActions, "*:*") == Some("Administrator access")
  {
  }
}
