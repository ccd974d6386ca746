/**
 * The branch record (build/models/branch.js): which dataset the branch edits, a
 * snapshot of its owner, a note, an approval sub-record and a lifecycle status.
 */
module BranchModel {

  /** Lifecycle status codes, as the controller writes them. */
  const ACTIVE: nat := 0
  const MERGED: nat := 1
  const DELETED: nat := 2

  /** Snapshot of the creator, copied at creation and never kept in sync. */
  datatype Owner = Owner(firstName: string, lastName: string, email: string, id: string)

  /** State of the external approval workflow; not changed by the versioning logic. */
  datatype AuditStatus = AuditStatus(
    status: int,
    approvals: int,
    denials: int,
    pending: int,
    envelopeId: string)

  datatype Branch = Branch(
    conservationSlug: string,
    slug: string,
    owner: Owner,
    note: string,
    auditStatus: AuditStatus,
    status: nat)

  /** The schema's defaults for the audit sub-record. */
  const DefaultAudit: AuditStatus := AuditStatus(0, 0, 0, 0, "")

  /** A branch document as the schema builds it from the fields given, the rest
      taking their defaults. */
  function NewBranch(conservationSlug: string, slug: string, owner: Owner, note: string): (b: Branch)
    ensures b.status == ACTIVE
    ensures b.auditStatus.status == 0 && b.auditStatus.approvals == 0
    ensures b.auditStatus.denials == 0 && b.auditStatus.pending == 0
    ensures b.auditStatus.envelopeId == ""
    ensures ValidBranch(b) <==>
      conservationSlug != "" && slug != "" && note != "" &&
      owner.firstName != "" && owner.lastName != "" && owner.email != "" && owner.id != ""
  {
    Branch(conservationSlug, slug, owner, note, DefaultAudit, ACTIVE)
  }

  /** Schema validation: every required string is present (an empty string counts as
      missing); the numeric fields always have a value. */
  predicate ValidBranch(b: Branch)
  {
    && b.conservationSlug != ""
    && b.slug != ""
    && b.owner.firstName != ""
    && b.owner.lastName != ""
    && b.owner.email != ""
    && b.owner.id != ""
    && b.note != ""
  }

  /** The `unique` index on `slug`, over the whole branch collection. */
  predicate UniqueBranchSlugs(bs: seq<Branch>)
  {
    forall i, j :: 0 <= i < j < |bs| ==> bs[i].slug != bs[j].slug
  }
}
