/**
 * The branch routes (build/controllers/branch.js) as operations on one store that
 * holds the branch collection and the commit collection.
 *
 * Each handler is one atomic step. The caller's identity arrives already resolved:
 * the user record when it exists (`user`, or `userExists` where only existence
 * matters). Random slugs arrive as fresh tokens chosen by the caller.
 */
module BranchController {
  import opened Wrappers
  import opened CommitModel
  import opened BranchModel
  import opened CommitStore
  import opened BranchRegistry

  /** The fields of the caller's user record that a new branch copies. */
  datatype User = User(firstName: string, lastName: string, email: string)

  /** How a handler ends: status 200, 400 or 406, or a save the schema refused.
      The refused save stores nothing and the handler stops there; a save awaited
      before it stays stored. */
  datatype Outcome = Ok | Err400 | Err406 | Rejected

  /** The dataset a branch edits when the request names none. */
  const DefaultConservation: string := "schweinfurthii"

  /** The conservation slug a new branch records: the requested one, or the default
      when the request names none (an empty value counts as none). */
  function ConservationOf(requested: Option<string>): string
  {
    if requested.Some? && requested.value != "" then requested.value else DefaultConservation
  }

  /** A slug as the handlers generate it: 8 random bytes rendered as 16 lower-case
      hex digits. */
  predicate IsSlugToken(s: string)
  {
    |s| == 16 && forall i :: 0 <= i < |s| ==> s[i] in "0123456789abcdef"
  }

  /** A generated slug is never empty and never the trunk's name, so no branch can
      be created under the name of the trunk. */
  lemma TokenIsNotMain(s: string)
    requires IsSlugToken(s)
    ensures s != "" && s != Main
  {
  }

  /** The branch collection's invariant: every record passed validation, has a
      generated slug and a known status code, and slugs are unique. */
  ghost predicate BranchesValid(bs: seq<Branch>)
  {
    && (forall i :: 0 <= i < |bs| ==> ValidBranch(bs[i]) && IsSlugToken(bs[i].slug) && bs[i].status <= DELETED)
    && UniqueBranchSlugs(bs)
  }

  /** The commit collection's invariant: every record passed validation, slugs are
      unique, and orders strictly increase with creation within each line. */
  ghost predicate CommitsValid(cs: seq<Commit>)
  {
    && (forall i :: 0 <= i < |cs| ==> ValidCommit(cs[i]))
    && UniqueCommitSlugs(cs)
    && Chronological(cs)
  }

  lemma AppendBranchValid(bs: seq<Branch>, b: Branch)
    requires BranchesValid(bs)
    requires ValidBranch(b) && IsSlugToken(b.slug) && b.status <= DELETED
    requires forall x :: x in bs ==> x.slug != b.slug
    ensures BranchesValid(bs + [b])
  {
    var r := bs + [b];
    forall i, j | 0 <= i < j < |r| ensures r[i].slug != r[j].slug {
      if j == |bs| {
        assert r[i] in bs;
      } else {
        assert r[i] == bs[i] && r[j] == bs[j];
      }
    }
  }

  lemma MarkStatusValid(bs: seq<Branch>, slug: string, st: nat)
    requires BranchesValid(bs)
    requires st <= DELETED
    ensures BranchesValid(MarkStatus(bs, slug, st))
  {
    MarkStatusKeeps(bs, slug, st);
  }

  /** A valid commit with a fresh slug and an order above every order of its line
      can be appended. */
  lemma AppendCommitValid(cs: seq<Commit>, c: Commit)
    requires CommitsValid(cs)
    requires ValidCommit(c)
    requires forall d :: d in cs ==> d.slug != c.slug
    requires forall d :: d in cs && d.branchSlug == c.branchSlug ==> d.order < c.order
    ensures CommitsValid(cs + [c])
  {
    ChronologicalSnoc(cs, c);
    UniqueSlugsSnoc(cs, c);
    var r := cs + [c];
    forall i | 0 <= i < |r| ensures ValidCommit(r[i]) {
      if i < |cs| { assert r[i] == cs[i]; }
    }
  }

  /** The commit a merge appends can be stored under a fresh slug. */
  lemma MergeCommitValid(cs: seq<Commit>, line: string, slug: string)
    requires CommitsValid(cs)
    requires IsSlugToken(slug)
    requires forall c :: c in cs ==> c.slug != slug
    ensures CommitsValid(cs + [MergeCommit(cs, line, slug)])
  {
    AppendCommitValid(cs, MergeCommit(cs, line, slug));
  }

  lemma TruncateValid(cs: seq<Commit>, line: string, t: nat)
    requires CommitsValid(cs)
    ensures CommitsValid(Truncate(cs, line, t))
  {
    var r := Truncate(cs, line, t);
    TruncateChronological(cs, line, t);
    TruncateUniqueSlugs(cs, line, t);
    forall i | 0 <= i < |r| ensures ValidCommit(r[i]) {
      assert r[i] in cs;
    }
  }

  class Store {
    var branches: seq<Branch>
    var commits: seq<Commit>

    /** Every stored record passed validation, slugs are unique in each collection,
        every branch slug is a generated token and every status is a known code, and
        orders strictly increase with creation within each commit line. */
    ghost predicate Valid()
      reads this
    {
      BranchesValid(branches) && CommitsValid(commits)
    }

    constructor ()
      ensures Valid()
      ensures branches == [] && commits == []
    {
      branches := [];
      commits := [];
    }

    /** No branch record is the trunk. */
    lemma NoMainBranch()
      requires Valid()
      ensures FindBranch(branches, Main).None?
    {
      forall b | b in branches ensures b.slug != Main {
        var i :| 0 <= i < |branches| && branches[i] == b;
        TokenIsNotMain(branches[i].slug);
      }
    }

    /** GET /all: every branch, whatever its status. */
    method AllBranches() returns (bs: seq<Branch>)
      ensures forall b :: b in bs <==> b in branches
      ensures |bs| == |branches|
    {
      bs := branches;
    }

    /** GET /:id: the branch with that slug, whatever its status, or none. */
    method GetBranch(slug: string) returns (b: Option<Branch>)
      ensures b.None? <==> forall x :: x in branches ==> x.slug != slug
      ensures b.Some? ==> b.value in branches && b.value.slug == slug
    {
      b := FindBranch(branches, slug);
    }

    /** POST /create: a new branch with its initial commit at order 0. */
    method Create(user: Option<User>, uid: string, branchNote: string, commitNote: Option<string>,
                  features: Option<Payload>, conservationSlug: Option<string>,
                  branchSlug: string, commitSlug: string) returns (r: Outcome)
      requires Valid()
      requires IsSlugToken(branchSlug) && IsSlugToken(commitSlug)
      requires forall b :: b in branches ==> b.slug != branchSlug
      requires forall c :: c in commits ==> c.slug != commitSlug && c.branchSlug != branchSlug
      modifies this
      ensures Valid()
      ensures user.None? ==> r == Err406
      ensures user.Some? ==> (r == Ok || r == Rejected)
      ensures r == Rejected <==>
        (user.Some? &&
         (branchNote == "" || uid == "" ||
          user.value.firstName == "" || user.value.lastName == "" || user.value.email == ""))
      ensures r != Ok ==> branches == old(branches) && commits == old(commits)
      ensures r == Ok ==>
        && |branches| == |old(branches)| + 1
        && branches[..|old(branches)|] == old(branches)
        && var b := branches[|old(branches)|];
        && b.slug == branchSlug
        && b.conservationSlug ==
             (if conservationSlug.Some? && conservationSlug.value != "" then conservationSlug.value
              else DefaultConservation)
        && b.owner == Owner(user.value.firstName, user.value.lastName, user.value.email, uid)
        && b.note == branchNote
        && b.status == ACTIVE
        && b.auditStatus == DefaultAudit
        && FindBranch(branches, branchSlug) == Some(b)
      ensures r == Ok ==>
        && commits == old(commits) + [Commit(branchSlug, commitSlug, commitNote, features, 0)]
        && OnLine(commits, branchSlug) == [Commit(branchSlug, commitSlug, commitNote, features, 0)]
    {
      if user.None? {
        return Err406;
      }
      var u := user.value;
      var branch := NewBranch(ConservationOf(conservationSlug), branchSlug, Owner(u.firstName, u.lastName, u.email, uid), branchNote);
      var initCommit := Commit(branchSlug, commitSlug, commitNote, features, 0);
      if !ValidBranch(branch) {
        // branch.save() refuses the document; the handler stops before the commit
        return Rejected;
      }
      AppendBranchValid(branches, branch);
      AppendCommitValid(commits, initCommit);
      StartLine(commits, initCommit);
      FindAppended(branches, branch);
      ghost var oldBranches := branches;
      branches := branches + [branch];
      commits := commits + [initCommit];
      r := Ok;
      assert branches[..|oldBranches|] == oldBranches;
      assert branches[|oldBranches|] == branch;
    }

    /** POST /commit: append a commit to the named line at the line's next order.
        The line is not checked against the branch collection. */
    method AppendCommit(userExists: bool, branchSlug: string, commitNote: Option<string>,
                        features: Option<Payload>, commitSlug: string) returns (r: Outcome)
      requires Valid()
      requires IsSlugToken(commitSlug)
      requires forall c :: c in commits ==> c.slug != commitSlug
      modifies this
      ensures Valid()
      ensures branches == old(branches)
      ensures r == (if !userExists then Err406 else if branchSlug == "" then Rejected else Ok)
      ensures r != Ok ==> commits == old(commits)
      ensures r == Ok ==>
        commits == old(commits) + [Commit(branchSlug, commitSlug, commitNote, features,
                                          NextOrder(old(commits), branchSlug))]
    {
      if !userExists {
        return Err406;
      }
      var maxCommit := Latest(commits, branchSlug);
      var order := 1;
      if maxCommit.Some? {
        order := maxCommit.value.order + 1;
      }
      var commit := Commit(branchSlug, commitSlug, commitNote, features, order);
      if !ValidCommit(commit) {
        return Rejected;
      }
      AppendCommitValid(commits, commit);
      commits := commits + [commit];
      r := Ok;
    }

    /** GET /:id/commits: the line's commits, highest order first. */
    method GetCommits(userExists: bool, line: string) returns (r: Outcome, hist: seq<Commit>)
      requires Valid()
      ensures r == (if userExists then Ok else Err406)
      ensures !userExists ==> hist == []
      ensures userExists ==> forall c :: c in hist <==> c in commits && c.branchSlug == line
      ensures userExists ==> Descending(hist)
    {
      if !userExists {
        return Err406, [];
      }
      hist := History(commits, line);
      r := Ok;
      HistorySorted(commits, line);
    }

    /** DELETE /:id: soft-delete, by setting the branch's status to 2 whatever it
        was. The branch's commits stay. */
    method DeleteBranch(userExists: bool, slug: string) returns (r: Outcome)
      requires Valid()
      modifies this
      ensures Valid()
      ensures commits == old(commits)
      ensures r == (if !userExists then Err406
                    else if FindBranch(old(branches), slug).None? then Err400
                    else Ok)
      ensures r != Ok ==> branches == old(branches)
      ensures r == Ok ==>
        && branches == MarkStatus(old(branches), slug, DELETED)
        && FindBranch(branches, slug) == Some(FindBranch(old(branches), slug).value.(status := DELETED))
        && forall s :: s != slug ==> FindBranch(branches, s) == FindBranch(old(branches), s)
    {
      if !userExists {
        return Err406;
      }
      var branch := FindBranch(branches, slug);
      if branch.None? {
        return Err400;
      }
      ghost var oldBranches := branches;
      MarkStatusValid(branches, slug, DELETED);
      MarkStatusFindSame(branches, slug, DELETED);
      branches := MarkStatus(branches, slug, DELETED);
      r := Ok;
      forall s | s != slug
        ensures FindBranch(branches, s) == FindBranch(oldBranches, s)
      {
        MarkStatusFindOther(oldBranches, slug, DELETED, s);
      }
    }

    /** DELETE /commit/:id: reset the commit's line to that commit, by deleting
        every commit of the line with a higher order. The commit itself stays. */
    method DeleteCommit(userExists: bool, commitSlug: string) returns (r: Outcome)
      requires Valid()
      modifies this
      ensures Valid()
      ensures branches == old(branches)
      ensures !userExists ==> r == Err406
      ensures userExists && FindCommit(old(commits), commitSlug).None? ==> r == Err400
      ensures userExists && FindCommit(old(commits), commitSlug).Some? ==>
        var target := FindCommit(old(commits), commitSlug).value;
        && (FindBranch(branches, target.branchSlug).None? ==> r == Err400)
        && (FindBranch(branches, target.branchSlug).Some? ==> r == Ok)
        && (target.branchSlug == Main ==> r == Err400)
      ensures r != Ok ==> commits == old(commits)
      ensures r == Ok ==>
        var target := FindCommit(old(commits), commitSlug).value;
        && commits == Truncate(old(commits), target.branchSlug, target.order)
        && target in commits
        && (forall c :: c in commits <==>
              c in old(commits) && (c.branchSlug != target.branchSlug || c.order <= target.order))
        && forall other :: other != target.branchSlug ==> OnLine(commits, other) == OnLine(old(commits), other)
    {
      if !userExists {
        return Err406;
      }
      var commit := FindCommit(commits, commitSlug);
      if commit.None? {
        return Err400;
      }
      NoMainBranch();
      var branch := FindBranch(branches, commit.value.branchSlug);
      if branch.None? {
        return Err400;
      }
      ghost var oldCommits := commits;
      TruncateValid(commits, branch.value.slug, commit.value.order);
      commits := Truncate(commits, branch.value.slug, commit.value.order);
      r := Ok;
      forall other | other != commit.value.branchSlug
        ensures OnLine(commits, other) == OnLine(oldCommits, other)
      {
        TruncateOtherLine(oldCommits, commit.value.branchSlug, commit.value.order, other);
      }
    }

    /** GET /merge/:id: append to the trunk a commit carrying the branch line's newest
        note and payload at the trunk's next order, and mark the branch merged when
        a branch record exists. The trunk commit is appended even when none does. */
    method Merge(userExists: bool, slug: string, commitSlug: string) returns (r: Outcome)
      requires Valid()
      requires IsSlugToken(commitSlug)
      requires forall c :: c in commits ==> c.slug != commitSlug
      modifies this
      ensures Valid()
      ensures r == (if userExists then Ok else Err406)
      ensures !userExists ==> branches == old(branches) && commits == old(commits)
      ensures userExists ==>
        && commits == old(commits) + [MergeCommit(old(commits), slug, commitSlug)]
        && branches == MarkStatus(old(branches), slug, MERGED)
      ensures userExists && FindBranch(old(branches), slug).None? ==> branches == old(branches)
      ensures userExists && FindBranch(old(branches), slug).Some? ==>
        FindBranch(branches, slug) == Some(FindBranch(old(branches), slug).value.(status := MERGED))
    {
      if !userExists {
        return Err406;
      }
      var branch := FindBranch(branches, slug);
      var relevantCommit := Latest(commits, slug);
      var maxCommit := Latest(commits, Main);
      var order := 1;
      if maxCommit.Some? {
        order := maxCommit.value.order + 1;
      }
      var mergeCommit := Commit(Main, commitSlug,
                                if relevantCommit.Some? then relevantCommit.value.note else None,
                                if relevantCommit.Some? then relevantCommit.value.features else None,
                                order);
      assert mergeCommit == MergeCommit(commits, slug, commitSlug);
      MergeCommitValid(commits, slug, commitSlug);
      if branch.Some? {
        MarkStatusValid(branches, slug, MERGED);
        MarkStatusFindSame(branches, slug, MERGED);
        branches := MarkStatus(branches, slug, MERGED);
      } else {
        MarkStatusKeeps(branches, slug, MERGED);
      }
      commits := commits + [mergeCommit];
      r := Ok;
    }
  }
}
