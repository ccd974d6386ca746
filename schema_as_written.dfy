/**
 * The handlers that save commits, run against the commit schema exactly as compiled
 * (build/models/commit.js), which requires `geometry` and drops the `features` the
 * handlers write.
 *
 * A save the schema refuses rejects the handler's promise: nothing is stored by that
 * save and no status is sent, but every save awaited before it has already happened.
 * Both collections are one snapshot value here; each handler maps a snapshot to its
 * outcome and the snapshot it leaves.
 */
module SchemaAsWritten {
  import opened Wrappers
  import opened CommitModel
  import opened BranchModel
  import opened CommitStore
  import opened BranchRegistry
  import opened BranchController

  /** Both collections at one moment. */
  datatype Db = Db(branches: seq<Branch>, commits: seq<Commit>)

  /** How a handler ends, and the collections it leaves. */
  datatype Step = Step(outcome: Outcome, db: Db)

  /** `commit.save()` under the compiled schema: the collection with the commit added
      when the document validates, or none when the save is refused. It is always
      refused. */
  function SaveCommitAsWritten(cs: seq<Commit>, c: Commit): (r: Option<seq<Commit>>)
    ensures r.None?
  {
    if SchemaValidAsWritten(AsWritten(c)) then Some(cs + [c]) else None
  }

  /** POST /create as compiled: the branch is saved, then the initial commit's save
      is refused. */
  function CreateAsWritten(db: Db, user: Option<User>, uid: string, branchNote: string,
                           commitNote: Option<string>, features: Option<Payload>,
                           conservationSlug: Option<string>,
                           branchSlug: string, commitSlug: string): (s: Step)
    ensures user.None? ==> s == Step(Err406, db)
    ensures user.Some? ==> s.outcome == Rejected
    ensures s.db.commits == db.commits
    ensures |db.branches| <= |s.db.branches| <= |db.branches| + 1
    ensures s.db.branches[..|db.branches|] == db.branches
  {
    if user.None? then Step(Err406, db)
    else
      var u := user.value;
      var branch := NewBranch(ConservationOf(conservationSlug), branchSlug,
                              Owner(u.firstName, u.lastName, u.email, uid), branchNote);
      if !ValidBranch(branch) then Step(Rejected, db)
      else
        var saved := db.(branches := db.branches + [branch]);
        match SaveCommitAsWritten(db.commits, Commit(branchSlug, commitSlug, commitNote, features, 0))
        case None => Step(Rejected, saved)
        case Some(cs) => Step(Ok, saved.(commits := cs))
  }

  /** POST /commit as compiled: the only save is refused, so nothing changes. */
  function AppendCommitAsWritten(db: Db, userExists: bool, branchSlug: string,
                                 commitNote: Option<string>, features: Option<Payload>,
                                 commitSlug: string): (s: Step)
    ensures s.outcome == (if userExists then Rejected else Err406)
    ensures s.db == db
  {
    if !userExists then Step(Err406, db)
    else
      var commit := Commit(branchSlug, commitSlug, commitNote, features, NextOrder(db.commits, branchSlug));
      match SaveCommitAsWritten(db.commits, commit)
      case None => Step(Rejected, db)
      case Some(cs) => Step(Ok, db.(commits := cs))
  }

  /** GET /merge/:id as compiled: the branch, when one exists, is saved with status 1,
      then the trunk commit's save is refused. */
  function MergeAsWritten(db: Db, userExists: bool, slug: string, commitSlug: string): (s: Step)
    ensures s.outcome == (if userExists then Rejected else Err406)
    ensures s.db.commits == db.commits
    ensures !userExists || FindBranch(db.branches, slug).None? ==> s.db == db
  {
    if !userExists then Step(Err406, db)
    else
      var branches := if FindBranch(db.branches, slug).Some? then MarkStatus(db.branches, slug, MERGED)
                      else db.branches;
      match SaveCommitAsWritten(db.commits, MergeCommit(db.commits, slug, commitSlug))
      case None => Step(Rejected, db.(branches := branches))
      case Some(cs) => Step(Ok, Db(branches, cs))
  }

  /** As compiled, a create whose branch validates leaves that branch stored with no
      commit on its line: a lookup finds it, and its history is empty. */
  lemma CreateLeavesBranchWithoutCommits(db: Db, user: Option<User>, uid: string, branchNote: string,
                                         commitNote: Option<string>, features: Option<Payload>,
                                         conservationSlug: Option<string>,
                                         branchSlug: string, commitSlug: string)
    requires user.Some?
    requires uid != "" && branchNote != "" && branchSlug != ""
    requires user.value.firstName != "" && user.value.lastName != "" && user.value.email != ""
    requires forall b :: b in db.branches ==> b.slug != branchSlug
    requires forall c :: c in db.commits ==> c.branchSlug != branchSlug
    ensures var s := CreateAsWritten(db, user, uid, branchNote, commitNote, features,
                                     conservationSlug, branchSlug, commitSlug);
      && s.outcome == Rejected
      && s.db.commits == db.commits
      && |s.db.branches| == |db.branches| + 1
      && FindBranch(s.db.branches, branchSlug).Some?
      && History(s.db.commits, branchSlug) == []
  {
    var u := user.value;
    var branch := NewBranch(ConservationOf(conservationSlug), branchSlug,
                            Owner(u.firstName, u.lastName, u.email, uid), branchNote);
    FindAppended(db.branches, branch);
  }

  /** As compiled, merging an existing branch marks it merged but stores no trunk
      commit: the trunk stays as it was. */
  lemma MergeMarksWithoutCommit(db: Db, slug: string, commitSlug: string)
    requires FindBranch(db.branches, slug).Some?
    ensures var s := MergeAsWritten(db, true, slug, commitSlug);
      && s.outcome == Rejected
      && OnLine(s.db.commits, Main) == OnLine(db.commits, Main)
      && FindBranch(s.db.branches, slug) == Some(FindBranch(db.branches, slug).value.(status := MERGED))
  {
    MarkStatusFindSame(db.branches, slug, MERGED);
  }
}
