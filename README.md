# Branch/commit versioning core

This project models how the conservation-mapping backend versions its data. The
backend keeps a collection of **branches** and a collection of **commits**. Each
commit belongs to a *line*, named by its `branchSlug`. The line `"main"` is the
trunk, and no branch record exists for it. Within a line, the number `order`
places each commit.

The branch routes are modelled as the methods of one `Store` class. The class
holds both collections as `seq` fields. Each route is one method:

- create a branch with its initial commit at order 0;
- append a commit at the line's next order;
- list a line's history, highest order first;
- soft-delete a branch by setting its status to 2;
- reset a line after a given commit;
- merge a branch's newest edit onto the trunk, setting its status to 1;
- look up one branch, and list all branches.

The database queries that the routes issue are pure functions over the
sequences, in `CommitStore` and `BranchRegistry`:

- `findOne(...).sort({order: -1})` is `Latest`;
- `find(...).sort({order: -1})` is `History`;
- `deleteMany({order: {$gt: ...}})` is `Truncate`;
- `findOne({slug})` is `FindBranch` or `FindCommit`.

The two record shapes are datatypes with validation predicates, in
`BranchModel` and `CommitModel`.

The commit schema as compiled does not match what the handlers write (see
"## Findings"). `SchemaAsWritten` runs the three handlers that save a commit
against that schema, as functions from one snapshot of both collections to
the outcome and the snapshot left behind. The `Store` methods use the
corrected schema.

The store keeps one invariant, `Store.Valid`:

- every stored record passed validation;
- slugs are unique within each collection;
- every branch slug is a generated token, and every status is 0, 1 or 2;
- within every commit line, `order` strictly increases with creation
  (`Chronological`).

Every method preserves this invariant. The lemmas build on it. A line's
highest-order commit is its newest one. A history is exactly the line's
commits in strictly descending order. Commits after the initial one number a
line 0, 1, 2, … with no gap. Truncating at a commit keeps that commit and
everything before it, and leaves other lines alone.

Inputs the handlers take from outside:

- **Caller identity.** The caller's identity is an input. `Create` receives
  the user record (`Option<User>`). The other routes receive only whether the
  user exists (`userExists`).
- **Slugs.** Random slugs are caller-supplied tokens of 16 hex digits, and the
  caller must supply fresh ones. A fresh branch slug names no branch and no
  existing commit line: `POST /commit` accepts any line name, so without this
  a line could exist before its branch.
- **Outcomes.** A handler ends in `Ok`, `Err400` or `Err406`, or in
  `Rejected`. `Rejected` means the schema refused a save. The refused save
  stores nothing, and the handler stops there. Any save awaited before it
  stays stored. In the `Store` methods no save precedes the refused one, so a
  `Rejected` method leaves both collections unchanged. In `SchemaAsWritten`,
  create has already stored its branch, and merge has already written status
  1, by the time the commit save is refused.

Three behaviours of the code are easy to misread:

- Deleting a commit keeps that commit. `deleteMany` removes only orders
  strictly greater than the target's (`$gt`). It does not remove the target
  and what follows it.
- Delete and merge set `status` to 2 and to 1 whatever the previous status
  was. Nothing enforces one-way transitions: a merged branch can be deleted,
  and a deleted one can be merged.
- Merging a slug that has no branch record still appends a trunk commit. That
  commit has no note and no payload when the line is empty.

## Model

| member | source | states |
|---|---|---|
| `BranchModel.NewBranch` | build/models/branch.js:4-25 | a new branch record takes the schema defaults (status 0; audit status, approvals, denials and pending 0; envelope id empty) and passes validation exactly when conservation slug, slug, note and all four owner fields are non-empty |
| `SchemaAsWritten.SaveCommitAsWritten` | build/models/commit.js:4-20 | under the compiled schema a commit save is always refused: the collection is never extended |
| `SchemaAsWritten.AppendCommitAsWritten` | build/controllers/branch.js:73-96 | as compiled, `POST /commit` ends in 406 without a user and otherwise in a refused save, and leaves both collections unchanged |
| `SchemaAsWritten.CreateAsWritten` | build/controllers/branch.js:41-72 | as compiled, `POST /create` ends in 406 without a user and otherwise in a refused save; it never stores a commit, and it adds at most the one branch, keeping every existing one |
| `SchemaAsWritten.MergeAsWritten` | build/controllers/branch.js:150-179 | as compiled, the merge ends in 406 without a user and otherwise in a refused save; it never stores a commit, and without a user or a branch record it changes nothing |
| `SchemaAsWritten.CreateLeavesBranchWithoutCommits` | build/controllers/branch.js:65-66 | as compiled, a create whose branch validates leaves that branch stored and findable with an empty history, because the branch save precedes the refused commit save |
| `SchemaAsWritten.MergeMarksWithoutCommit` | build/controllers/branch.js:169-173 | as compiled, merging an existing branch sets its status to 1 while the trunk stays as it was, because the status save precedes the refused commit save |
| `CommitModel.EveryControllerCommitRefusedAsWritten` | build/models/commit.js:8 | under the compiled schema, which requires `geometry`, no commit the controller builds passes validation |
| `CommitStore.OnLine` | build/controllers/branch.js:100 | a line holds exactly the stored commits whose `branchSlug` names it, and is empty exactly when none does |
| `CommitStore.Latest` | build/controllers/branch.js:77 | the highest-order query finds nothing exactly when the line is empty; otherwise it finds a stored commit of that line whose order is at least every order on the line |
| `CommitStore.NextOrder` | build/controllers/branch.js:77-81 | the next order is 1 for an empty line; otherwise it is one more than some order on the line and above all of them, i.e. max + 1 |
| `CommitStore.FindCommit` | build/controllers/branch.js:131 | the commit lookup finds nothing exactly when no commit has that slug, otherwise a stored commit with that slug |
| `CommitStore.Truncate` | build/controllers/branch.js:135 | after the bulk delete, a commit remains exactly when it was stored and is on another line or has order at most the threshold |
| `CommitStore.MergeCommit` | build/controllers/branch.js:155-168 | the merge commit is on `"main"` with the fresh slug, its order exceeds every trunk order, and it is 1 on an empty trunk and otherwise one past a trunk order |
| `CommitStore.ChronologicalSnoc` | build/controllers/branch.js:77-90 | appending keeps every line's orders increasing with creation exactly when the new order exceeds every order already on its line |
| `CommitStore.UniqueSlugsSnoc` | build/models/commit.js:6 | appending keeps commit slugs unique exactly when the new slug is not already stored |
| `CommitStore.StartLine` | build/controllers/branch.js:58-64 | the initial commit of a new branch is the only commit of its line |
| `CommitStore.AppendOnLine` | build/controllers/branch.js:83-90 | an appended commit ends its own line and leaves every other line unchanged |
| `CommitStore.OnLineAscending` | build/controllers/branch.js:77-90 | on a chronological store, every line read in creation order has strictly increasing orders |
| `CommitStore.HistorySorted` | build/controllers/branch.js:100 | the history of a line holds exactly that line's commits, in strictly descending order |
| `CommitStore.LatestIsNewest` | build/controllers/branch.js:155 | on a chronological store, the highest-order commit of a non-empty line is its most recently created commit |
| `CommitStore.LastOnLine` | build/controllers/branch.js:100 | the newest commit of a non-empty line is the commit of that line at the highest store position, and no later commit is on the line |
| `CommitStore.MergeCopiesNewest` | build/controllers/branch.js:155-166 | the merge commit carries the note and payload of the merged line's newest commit, or none of them when the line is empty |
| `CommitStore.TruncateChronological` | build/controllers/branch.js:135 | the bulk delete keeps every line's orders increasing with creation |
| `CommitStore.TruncateUniqueSlugs` | build/controllers/branch.js:135 | the bulk delete keeps commit slugs unique |
| `CommitStore.TruncateSameLine` | build/controllers/branch.js:135 | of the truncated line, exactly the commits with order at most the threshold remain, in their order |
| `CommitStore.TruncateOtherLine` | build/controllers/branch.js:135 | truncating one line leaves every other line exactly as it was |
| `CommitStore.AtMostPrefix` | build/controllers/branch.js:135 | on a line numbered 0 … n-1, keeping orders at most t keeps exactly the first t + 1 commits |
| `CommitStore.NextOrderOfNumbered` | build/controllers/branch.js:77-81 | on a line numbered 0 … n-1, the next order is n |
| `CommitStore.AppendExtendsNumbering` | build/controllers/branch.js:77-81 | appending at the next order to a line numbered 0 … n-1 gives the new commit order n, so the line is numbered 0 … n with no gap |
| `CommitStore.TruncateResetsLine` | build/controllers/branch.js:131-135 | deleting the commit at order t of a line numbered 0 … n-1 leaves that line as its first t + 1 commits, so the target commit stays |
| `BranchRegistry.FindBranch` | build/controllers/branch.js:108 | the branch lookup finds nothing exactly when no branch has that slug, otherwise a stored branch with that slug, whatever its status |
| `BranchRegistry.FindAppended` | build/controllers/branch.js:45-65 | a branch saved under a fresh slug is what a lookup of that slug finds |
| `BranchRegistry.MarkStatus` | build/controllers/branch.js:116-117 | setting a status changes only the `status` of the records with that slug; slugs and all other records and fields stay |
| `BranchRegistry.MarkStatusKeeps` | build/models/branch.js:7 | setting a status keeps branch slugs unique, and setting it for an unknown slug changes nothing |
| `BranchRegistry.MarkStatusFindSame` | build/controllers/branch.js:114-117 | after the status write, looking up the slug finds the same branch with only its status replaced |
| `BranchRegistry.MarkStatusFindOther` | build/controllers/branch.js:170-171 | a status write for one slug leaves the lookup of every other slug unchanged |
| `BranchController.TokenIsNotMain` | build/controllers/branch.js:45 | a generated 16-hex-digit slug is never empty and never `"main"`, so no branch can take the trunk's name |
| `BranchController.AppendBranchValid` | build/models/branch.js:6-14 | saving a valid branch under a fresh token keeps the branch collection valid with unique slugs |
| `BranchController.MarkStatusValid` | build/models/branch.js:22 | writing a known status code keeps the branch collection valid |
| `BranchController.AppendCommitValid` | build/models/commit.js:5-6 | saving a valid commit with a fresh slug, above every order of its line, keeps the commit collection valid and chronological |
| `BranchController.MergeCommitValid` | build/controllers/branch.js:162-173 | the trunk commit a merge builds, under a fresh slug, keeps the commit collection valid and chronological |
| `BranchController.TruncateValid` | build/controllers/branch.js:135 | the bulk delete keeps the commit collection valid |
| `BranchController.Store.NoMainBranch` | build/controllers/branch.js:133 | in a valid store, no branch record has the trunk's slug |
| `BranchController.Store.AllBranches` | build/controllers/branch.js:32-40 | `/all` returns every stored branch, whatever its status |
| `BranchController.Store.GetBranch` | build/controllers/branch.js:107-110 | `GET /:id` returns the branch with that slug whatever its status, or none when no branch has it |
| `BranchController.Store.Create` | build/controllers/branch.js:41-72 | without a user: 406 and no change. A required branch field empty: refused and no change. Otherwise exactly one branch is added (fresh slug; given conservation slug or `"schweinfurthii"`; owner snapshot of first name, last name, email and caller id; the branch note; status 0; default audit) and exactly one commit at order 0, which is its line's only commit |
| `BranchController.Store.AppendCommit` | build/controllers/branch.js:73-96 | without a user: 406 and no change. An empty line name: refused and no change. Otherwise exactly one commit is appended with the note and payload given, at the line's next order; there is no branch existence check, and existing commits and branches stay |
| `BranchController.Store.GetCommits` | build/controllers/branch.js:97-106 | without a user: 406 and an empty list. Otherwise exactly the line's commits in strictly descending order; nothing changes |
| `BranchController.Store.DeleteBranch` | build/controllers/branch.js:111-127 | without a user: 406. An unknown slug: 400. In both cases nothing changes. Otherwise the branch's status becomes 2 whatever it was, with no other field, branch or commit changed |
| `BranchController.Store.DeleteCommit` | build/controllers/branch.js:128-149 | without a user: 406. An unknown commit, or one whose line has no branch record (every trunk commit): 400. In all three cases nothing changes. Otherwise exactly the commits of that line with a higher order are removed: the target and every other line stay |
| `BranchController.Store.Merge` | build/controllers/branch.js:150-179 | without a user: 406 and no change. Otherwise exactly one trunk commit is appended, carrying the branch line's newest note and payload at the trunk's next order. The branch, if a record exists, gets status 1; otherwise branches stay unchanged |

## Left out

- `GET /conservations` (build/controllers/branch.js:23-31): a pass-through query on the conservation collection. The conservation model is not part of this model.
- Token verification and the user lookup (`tokenAuthenticator`, `User.findById`) are not modelled. The user record, or whether it exists, is an input.
- Random slug generation (`randomBytes(8).toString("hex")`) is not modelled. Slugs are fresh 16-hex-digit tokens supplied by the caller, so the `unique` index never rejects a save.
- Concurrency is not modelled. Each handler is one atomic step, so the read-then-write order races and the non-atomic two-save sequences in create and merge are not represented.
- Storage failures are not modelled. Errors passed to the generic 500 handler do not appear. Only `/conservations` and `/all` catch their errors (build/controllers/branch.js:23-40), so in the other routes a failed save is an unhandled promise rejection and no status is sent. The model represents one kind of such rejection: a save refused by validation, as `Rejected`. Every other kind of rejected promise is left out.
- The `createdAt`/`updatedAt` timestamps are not modelled. They are clock readings, and no handler reads them: `order`, not time, decides which commit is latest.
- The commit payload (`geometry`, `attributes.*`, and the `features` value the controller writes) is not interpreted. It is one opaque optional value, stored and copied as is.
- The `order` default of 0 is not modelled separately. Every handler sets `order` explicitly, so in the model `order` is a required `nat`.
- The integer limits of JavaScript numbers are not modelled. Orders are unbounded naturals.
- Tie-breaking among equal orders in the highest-order query is not modelled. The store invariant rules ties out: no line holds two commits with the same order.
- Absent request fields are collapsed. For a required string field, an absent value and `""` are the same input, because the schema's `required` check refuses both. The optional conservation slug is an `Option`, and an empty value falls back to the default, as JavaScript truthiness does.

## Findings

| source | as written | input that shows it | evidently intended | confidence | as-written member | corrected member |
|---|---|---|---|---|---|---|
| build/models/commit.js:8 | the compiled commit schema requires `geometry` and declares no `features` path. Every handler builds its commit from `features` (build/controllers/branch.js:58-64, 83-89, 162-168), so under strict mode `features` is dropped and `geometry` is missing | any `POST /commit` with an existing user, e.g. branchSlug `"b"`, features `"{}"`: validation of the new commit fails on `geometry` and no commit is stored. Create and merge have already saved the branch when their commit save fails (`SchemaAsWritten.CreateLeavesBranchWithoutCommits`, `SchemaAsWritten.MergeMarksWithoutCommit`) | the commit stores the edited features as its payload, and validation requires only `branchSlug` and `slug` | not executed; high for the compiled schema, which may lag its TypeScript source | `CommitModel.EveryControllerCommitRefusedAsWritten` | `BranchController.Store.AppendCommit` |
