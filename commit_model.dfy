/**
 * The commit record (build/models/commit.js).
 *
 * A commit belongs to the line named by `branchSlug`, carries an optional note and
 * an opaque payload, and has a non-negative `order` that places it within its line.
 */
module CommitModel {
  import opened Wrappers

  /** The edited features: stored and copied, never interpreted by the versioning logic. */
  type Payload = string

  datatype Commit = Commit(
    branchSlug: string,
    slug: string,
    note: Option<string>,
    features: Option<Payload>,
    order: nat)

  /** Schema validation: `branchSlug` and `slug` are required strings (an empty string
      counts as missing); `note` and the payload are optional; `order` is a number. */
  predicate ValidCommit(c: Commit)
  {
    c.branchSlug != "" && c.slug != ""
  }

  /** The `unique` index on `slug`, over the whole commit collection. */
  predicate UniqueCommitSlugs(cs: seq<Commit>)
  {
    forall i, j :: 0 <= i < j < |cs| ==> cs[i].slug != cs[j].slug
  }

  // The schema exactly as compiled: it declares `geometry` (required) and
  // `attributes`, but no `features` path.  Under the store's strict mode a field the
  // schema does not declare is dropped when the document is built.

  /** A commit document as the compiled schema keeps it. */
  datatype StoredCommit = StoredCommit(
    branchSlug: string,
    slug: string,
    note: Option<string>,
    geometry: Option<string>,
    order: nat)

  /** What the compiled schema keeps of the fields the controller writes: `features`
      is not a schema path, and `geometry` is never written. */
  function AsWritten(c: Commit): StoredCommit
  {
    StoredCommit(c.branchSlug, c.slug, c.note, None, c.order)
  }

  /** Validation by the compiled schema, which also requires `geometry`. */
  predicate SchemaValidAsWritten(d: StoredCommit)
  {
    d.branchSlug != "" && d.slug != "" && d.geometry.Some? && d.geometry.value != ""
  }

  /** As compiled, no commit the controller builds passes validation, whatever its
      fields: every commit save would be refused. */
  lemma EveryControllerCommitRefusedAsWritten(c: Commit)
    ensures !SchemaValidAsWritten(AsWritten(c))
  {
  }
}
