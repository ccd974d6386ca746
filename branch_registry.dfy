/**
 * The branch collection as the branch controller queries and updates it
 * (build/controllers/branch.js): lookup by slug and the status writes of the
 * delete and merge handlers.
 */
module BranchRegistry {
  import opened Wrappers
  import opened BranchModel

  /** The branch with slug `slug` (`findOne({slug})`); no status filter. */
  function FindBranch(bs: seq<Branch>, slug: string): (r: Option<Branch>)
    ensures r.None? <==> forall b :: b in bs ==> b.slug != slug
    ensures r.Some? ==> r.value in bs && r.value.slug == slug
  {
    if bs == [] then None
    else if bs[0].slug == slug then Some(bs[0])
    else FindBranch(bs[1..], slug)
  }

  /** A branch appended under a fresh slug is what the lookup of that slug finds. */
  lemma {:induction false} FindAppended(bs: seq<Branch>, b: Branch)
    requires forall x :: x in bs ==> x.slug != b.slug
    ensures FindBranch(bs + [b], b.slug) == Some(b)
  {
    if bs != [] {
      assert (bs + [b])[1..] == bs[1..] + [b];
      FindAppended(bs[1..], b);
    }
  }

  /** The collection after the branch with slug `slug` has its `status` set to `st`
      and saved; every other record and every other field is kept. */
  function MarkStatus(bs: seq<Branch>, slug: string, st: nat): (r: seq<Branch>)
    ensures |r| == |bs|
    ensures forall i :: 0 <= i < |bs| ==> r[i].slug == bs[i].slug
    ensures forall i :: 0 <= i < |bs| && bs[i].slug != slug ==> r[i] == bs[i]
    ensures forall i :: 0 <= i < |bs| && bs[i].slug == slug ==> r[i] == bs[i].(status := st)
  {
    if bs == [] then []
    else [if bs[0].slug == slug then bs[0].(status := st) else bs[0]] + MarkStatus(bs[1..], slug, st)
  }

  /** Setting a status keeps slugs unique, and setting the status of an unknown
      slug changes nothing. */
  lemma MarkStatusKeeps(bs: seq<Branch>, slug: string, st: nat)
    ensures UniqueBranchSlugs(bs) ==> UniqueBranchSlugs(MarkStatus(bs, slug, st))
    ensures FindBranch(bs, slug).None? ==> MarkStatus(bs, slug, st) == bs
  {
  }

  /** After setting a status, the lookup of `slug` finds the branch it found before,
      with the new status and every other field unchanged. */
  lemma {:induction false} MarkStatusFindSame(bs: seq<Branch>, slug: string, st: nat)
    requires FindBranch(bs, slug).Some?
    ensures FindBranch(MarkStatus(bs, slug, st), slug) == Some(FindBranch(bs, slug).value.(status := st))
  {
    var r := MarkStatus(bs, slug, st);
    if bs[0].slug != slug {
      assert r[1..] == MarkStatus(bs[1..], slug, st);
      MarkStatusFindSame(bs[1..], slug, st);
    }
  }

  /** Setting the status of `slug` leaves the lookup of every other slug as it was. */
  lemma {:induction false} MarkStatusFindOther(bs: seq<Branch>, slug: string, st: nat, other: string)
    requires other != slug
    ensures FindBranch(MarkStatus(bs, slug, st), other) == FindBranch(bs, other)
  {
    var r := MarkStatus(bs, slug, st);
    if bs != [] {
      assert r[1..] == MarkStatus(bs[1..], slug, st);
      MarkStatusFindOther(bs[1..], slug, st, other);
    }
  }
}
