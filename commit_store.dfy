/**
 * The commit store as the branch controller queries it
 * (build/controllers/branch.js): commits grouped into lines by `branchSlug`, the
 * latest commit of a line, the next order of a line, a line's history and the
 * truncation of a line after a given order.
 *
 * The store is a sequence in insertion order; each query is a function over it.
 */
module CommitStore {
  import opened Wrappers
  import opened CommitModel

  /** The trunk line. Commits name it in `branchSlug`; no Branch record has it. */
  const Main: string := "main"

  /** The commits of `line`, in store order. */
  function OnLine(cs: seq<Commit>, line: string): (r: seq<Commit>)
    ensures forall c :: c in r <==> c in cs && c.branchSlug == line
    ensures r == [] <==> forall c :: c in cs ==> c.branchSlug != line
    ensures |r| <= |cs|
  {
    if cs == [] then []
    else
      var last := cs[|cs| - 1];
      assert cs == cs[..|cs| - 1] + [last];
      OnLine(cs[..|cs| - 1], line) + (if last.branchSlug == line then [last] else [])
  }

  /** The highest-order commit of `line` (`findOne(...).sort({order: -1})`). */
  function Latest(cs: seq<Commit>, line: string): (r: Option<Commit>)
    ensures r.None? <==> forall c :: c in cs ==> c.branchSlug != line
    ensures r.Some? ==> r.value in cs && r.value.branchSlug == line
    ensures r.Some? ==> forall c :: c in cs && c.branchSlug == line ==> c.order <= r.value.order
  {
    if cs == [] then None
    else
      var last := cs[|cs| - 1];
      var rest := Latest(cs[..|cs| - 1], line);
      assert cs == cs[..|cs| - 1] + [last];
      if last.branchSlug != line then rest
      else if rest.None? || rest.value.order < last.order then Some(last)
      else rest
  }

  /** The order a new commit of `line` receives: one past the line's highest order,
      or 1 when the line has no commit. */
  function NextOrder(cs: seq<Commit>, line: string): (r: nat)
    ensures r >= 1
    ensures forall c :: c in cs && c.branchSlug == line ==> c.order < r
    ensures (forall c :: c in cs ==> c.branchSlug != line) ==> r == 1
    ensures (exists c :: c in cs && c.branchSlug == line) ==>
      exists c :: c in cs && c.branchSlug == line && c.order + 1 == r
  {
    match Latest(cs, line)
    case None => 1
    case Some(top) => top.order + 1
  }

  /** The commit with slug `slug` (`findOne({slug})`). */
  function FindCommit(cs: seq<Commit>, slug: string): (r: Option<Commit>)
    ensures r.None? <==> forall c :: c in cs ==> c.slug != slug
    ensures r.Some? ==> r.value in cs && r.value.slug == slug
  {
    if cs == [] then None
    else if cs[0].slug == slug then Some(cs[0])
    else FindCommit(cs[1..], slug)
  }

  /** The store after `deleteMany({branchSlug: line, order: {$gt: t}})`. */
  function Truncate(cs: seq<Commit>, line: string, t: nat): (r: seq<Commit>)
    ensures forall c :: c in r <==> c in cs && (c.branchSlug != line || c.order <= t)
    ensures |r| <= |cs|
  {
    if cs == [] then []
    else
      var last := cs[|cs| - 1];
      assert cs == cs[..|cs| - 1] + [last];
      Truncate(cs[..|cs| - 1], line, t) + (if last.branchSlug != line || last.order <= t then [last] else [])
  }

  /** The elements of `s` in the opposite order. */
  function Reverse(s: seq<Commit>): (r: seq<Commit>)
    ensures |r| == |s|
    ensures forall i :: 0 <= i < |s| ==> r[i] == s[|s| - 1 - i]
  {
    if s == [] then [] else [s[|s| - 1]] + Reverse(s[..|s| - 1])
  }

  /** The commits of `line`, highest order first (`find({branchSlug}).sort({order: -1})`).
      Its specification is the lemma `HistorySorted`: on a chronological store the
      result holds exactly the line's commits, in strictly descending order. */
  function History(cs: seq<Commit>, line: string): seq<Commit>
  {
    Reverse(OnLine(cs, line))
  }

  /** The commit a merge of `line` appends to the trunk: the line's newest note and
      payload (absent when the line has no commit), at the trunk's next order. */
  function MergeCommit(cs: seq<Commit>, line: string, slug: string): (m: Commit)
    ensures m.branchSlug == Main && m.slug == slug
    ensures forall c :: c in cs && c.branchSlug == Main ==> c.order < m.order
    ensures (forall c :: c in cs ==> c.branchSlug != Main) ==> m.order == 1
    ensures (exists c :: c in cs && c.branchSlug == Main) ==>
      exists c :: c in cs && c.branchSlug == Main && c.order + 1 == m.order
  {
    var tip := Latest(cs, line);
    Commit(Main, slug,
           if tip.Some? then tip.value.note else None,
           if tip.Some? then tip.value.features else None,
           NextOrder(cs, Main))
  }

  /** Orders strictly increase with store position within every line. */
  predicate Chronological(cs: seq<Commit>)
  {
    forall i, j :: 0 <= i < j < |cs| && cs[i].branchSlug == cs[j].branchSlug ==> cs[i].order < cs[j].order
  }

  predicate Ascending(s: seq<Commit>)
  {
    forall i, j :: 0 <= i < j < |s| ==> s[i].order < s[j].order
  }

  predicate Descending(s: seq<Commit>)
  {
    forall i, j :: 0 <= i < j < |s| ==> s[i].order > s[j].order
  }

  /** The commits of `s` carry the orders 0, 1, ..., |s| - 1, in that order. */
  predicate Numbered(s: seq<Commit>)
  {
    forall i :: 0 <= i < |s| ==> s[i].order == i
  }

  /** The commits of `s` whose order is at most `t`, in sequence order. */
  function AtMost(s: seq<Commit>, t: nat): (r: seq<Commit>)
    ensures forall c :: c in r <==> c in s && c.order <= t
  {
    if s == [] then []
    else
      var last := s[|s| - 1];
      assert s == s[..|s| - 1] + [last];
      AtMost(s[..|s| - 1], t) + (if last.order <= t then [last] else [])
  }

  // ---------------------------------------------------------------------------
  // Lemmas

  /** Appending `c` keeps the store chronological exactly when `c`'s order exceeds
      every order already on its line. */
  lemma ChronologicalSnoc(cs: seq<Commit>, c: Commit)
    ensures Chronological(cs + [c]) <==>
      Chronological(cs) && forall d :: d in cs && d.branchSlug == c.branchSlug ==> d.order < c.order
  {
    var s := cs + [c];
    if Chronological(s) {
      forall d | d in cs && d.branchSlug == c.branchSlug
        ensures d.order < c.order
      {
        var i :| 0 <= i < |cs| && cs[i] == d;
        assert s[i] == d && s[|cs|] == c;
      }
      forall i, j | 0 <= i < j < |cs| && cs[i].branchSlug == cs[j].branchSlug
        ensures cs[i].order < cs[j].order
      {
        assert s[i] == cs[i] && s[j] == cs[j];
      }
    }
  }

  /** A commit that starts an empty line is that line's only commit. */
  lemma {:induction false} StartLine(cs: seq<Commit>, c: Commit)
    requires forall d :: d in cs ==> d.branchSlug != c.branchSlug
    ensures OnLine(cs + [c], c.branchSlug) == [c]
  {
    AppendOnLine(cs, c, c.branchSlug);
  }

  /** Appending a commit to its line adds it at the end of the line and leaves the
      other lines as they were. */
  lemma AppendOnLine(cs: seq<Commit>, c: Commit, line: string)
    ensures OnLine(cs + [c], line) == OnLine(cs, line) + (if c.branchSlug == line then [c] else [])
  {
    assert (cs + [c])[..|cs|] == cs;
  }

  /** On a chronological store each line, read in store order, is sorted by
      strictly increasing order. */
  lemma {:induction false} OnLineAscending(cs: seq<Commit>, line: string)
    requires Chronological(cs)
    ensures Ascending(OnLine(cs, line))
  {
    if cs != [] {
      var p, last := cs[..|cs| - 1], cs[|cs| - 1];
      assert cs == p + [last];
      ChronologicalSnoc(p, last);
      OnLineAscending(p, line);
      AppendOnLine(p, last, line);
      var s := OnLine(p, line);
      if last.branchSlug == line {
        forall i, j | 0 <= i < j < |s| + 1
          ensures (s + [last])[i].order < (s + [last])[j].order
        {
          if j == |s| {
            assert s[i] in s;
          }
        }
      }
    }
  }

  /** The history of a line holds exactly the line's commits, highest order first
      with no two of the same order. */
  lemma HistorySorted(cs: seq<Commit>, line: string)
    requires Chronological(cs)
    ensures forall c :: c in History(cs, line) <==> c in cs && c.branchSlug == line
    ensures Descending(History(cs, line))
    ensures |History(cs, line)| == |OnLine(cs, line)|
  {
    OnLineAscending(cs, line);
    ReverseMembers(OnLine(cs, line));
    ReverseDescending(OnLine(cs, line));
  }

  lemma ReverseMembers(s: seq<Commit>)
    ensures forall c :: c in Reverse(s) <==> c in s
  {
    var r := Reverse(s);
    forall c
      ensures c in r <==> c in s
    {
      if c in r {
        var i :| 0 <= i < |r| && r[i] == c;
        assert s[|s| - 1 - i] == c;
      }
      if c in s {
        var i :| 0 <= i < |s| && s[i] == c;
        assert r[|s| - 1 - i] == c;
      }
    }
  }

  lemma ReverseDescending(s: seq<Commit>)
    requires Ascending(s)
    ensures Descending(Reverse(s))
  {
  }

  /** On a chronological store, the highest-order commit of a line is the one
      stored last: the line's newest commit. */
  lemma LatestIsNewest(cs: seq<Commit>, line: string)
    requires Chronological(cs)
    requires OnLine(cs, line) != []
    ensures Latest(cs, line) == Some(OnLine(cs, line)[|OnLine(cs, line)| - 1])
  {
    var j := LastOnLine(cs, line);
    var y := Latest(cs, line).value;
    assert cs[j] in cs;
    var k :| 0 <= k < |cs| && cs[k] == y;
    assert k == j;
  }

  /** The newest commit of a non-empty line is the commit of that line at the
      highest store position `j`. */
  lemma {:induction false} LastOnLine(cs: seq<Commit>, line: string) returns (j: nat)
    requires OnLine(cs, line) != []
    ensures j < |cs| && cs[j] == OnLine(cs, line)[|OnLine(cs, line)| - 1]
    ensures cs[j].branchSlug == line
    ensures forall k :: j < k < |cs| ==> cs[k].branchSlug != line
  {
    var p := cs[..|cs| - 1];
    if cs[|cs| - 1].branchSlug == line {
      j := |cs| - 1;
      OnLineEndsWithLast(cs, line);
    } else {
      OnLineSkipsLast(cs, line);
      j := LastOnLine(p, line);
      PastPrefix(cs, p, j, line);
    }
  }

  lemma OnLineEndsWithLast(cs: seq<Commit>, line: string)
    requires cs != [] && cs[|cs| - 1].branchSlug == line
    ensures OnLine(cs, line) == OnLine(cs[..|cs| - 1], line) + [cs[|cs| - 1]]
  {
  }

  lemma OnLineSkipsLast(cs: seq<Commit>, line: string)
    requires cs != [] && cs[|cs| - 1].branchSlug != line
    ensures OnLine(cs, line) == OnLine(cs[..|cs| - 1], line)
  {
    assert OnLine(cs, line) == OnLine(cs[..|cs| - 1], line) + [];
  }

  /** What holds past position `j` of the store without its last commit, and of that
      last commit, holds past `j` of the whole store. */
  lemma PastPrefix(cs: seq<Commit>, p: seq<Commit>, j: nat, line: string)
    requires cs != [] && p == cs[..|cs| - 1] && cs[|cs| - 1].branchSlug != line
    requires j < |p| && forall k :: j < k < |p| ==> p[k].branchSlug != line
    ensures cs[j] == p[j]
    ensures forall k :: j < k < |cs| ==> cs[k].branchSlug != line
  {
    forall k | j < k < |cs| ensures cs[k].branchSlug != line {
      if k < |p| { assert cs[k] == p[k]; }
    }
  }

  /** The trunk commit of a merge carries the note and payload of the merged line's
      newest commit, or neither when the line has no commit. */
  lemma MergeCopiesNewest(cs: seq<Commit>, line: string, slug: string)
    requires Chronological(cs)
    ensures OnLine(cs, line) == [] ==>
      MergeCommit(cs, line, slug).note == None && MergeCommit(cs, line, slug).features == None
    ensures OnLine(cs, line) != [] ==>
      var newest := OnLine(cs, line)[|OnLine(cs, line)| - 1];
      MergeCommit(cs, line, slug).note == newest.note &&
      MergeCommit(cs, line, slug).features == newest.features
  {
    var s := OnLine(cs, line);
    if s != [] {
      LatestIsNewest(cs, line);
    }
  }

  /** Truncation keeps the store chronological. */
  lemma {:induction false} TruncateChronological(cs: seq<Commit>, line: string, t: nat)
    requires Chronological(cs)
    ensures Chronological(Truncate(cs, line, t))
  {
    if cs != [] {
      var p, last := cs[..|cs| - 1], cs[|cs| - 1];
      assert cs == p + [last];
      ChronologicalSnoc(p, last);
      TruncateChronological(p, line, t);
      var q := Truncate(p, line, t);
      if last.branchSlug != line || last.order <= t {
        assert Truncate(cs, line, t) == q + [last];
        ChronologicalSnoc(q, last);
      } else {
        assert Truncate(cs, line, t) == q;
      }
    }
  }

  /** Appending `c` keeps commit slugs unique exactly when no stored commit has
      `c`'s slug. */
  lemma UniqueSlugsSnoc(cs: seq<Commit>, c: Commit)
    ensures UniqueCommitSlugs(cs + [c]) <==>
      UniqueCommitSlugs(cs) && forall d :: d in cs ==> d.slug != c.slug
  {
    var s := cs + [c];
    if UniqueCommitSlugs(s) {
      forall d | d in cs
        ensures d.slug != c.slug
      {
        var i :| 0 <= i < |cs| && cs[i] == d;
        assert s[i] == d && s[|cs|] == c;
      }
      forall i, j | 0 <= i < j < |cs|
        ensures cs[i].slug != cs[j].slug
      {
        assert s[i] == cs[i] && s[j] == cs[j];
      }
    }
  }

  /** Truncation keeps commit slugs unique. */
  lemma {:induction false} TruncateUniqueSlugs(cs: seq<Commit>, line: string, t: nat)
    requires UniqueCommitSlugs(cs)
    ensures UniqueCommitSlugs(Truncate(cs, line, t))
  {
    if cs != [] {
      var p, last := cs[..|cs| - 1], cs[|cs| - 1];
      assert cs == p + [last];
      UniqueSlugsSnoc(p, last);
      TruncateUniqueSlugs(p, line, t);
      TruncateSnoc(p, last, line, t);
      var q := Truncate(p, line, t);
      if last.branchSlug != line || last.order <= t {
        assert Truncate(cs, line, t) == q + [last];
        UniqueSlugsSnoc(q, last);
      } else {
        assert Truncate(cs, line, t) == q;
      }
    }
  }

  /** Truncating `line` keeps, of that line, exactly the commits of order at most
      `t`, in their order. */
  lemma {:induction false} TruncateSameLine(cs: seq<Commit>, line: string, t: nat)
    ensures OnLine(Truncate(cs, line, t), line) == AtMost(OnLine(cs, line), t)
  {
    if cs != [] {
      var p, last := cs[..|cs| - 1], cs[|cs| - 1];
      assert cs == p + [last];
      TruncateSameLine(p, line, t);
      TruncateSnoc(p, last, line, t);
      AppendOnLine(p, last, line);
      var q := Truncate(p, line, t);
      if last.branchSlug != line {
        assert Truncate(cs, line, t) == q + [last];
        AppendOnLine(q, last, line);
        assert OnLine(cs, line) == OnLine(p, line);
      } else if last.order <= t {
        assert Truncate(cs, line, t) == q + [last];
        AppendOnLine(q, last, line);
        AtMostSnoc(OnLine(p, line), last, t);
      } else {
        assert Truncate(cs, line, t) == q;
        AtMostSnoc(OnLine(p, line), last, t);
      }
    }
  }

  /** Truncating `line` leaves every other line as it was. */
  lemma {:induction false} TruncateOtherLine(cs: seq<Commit>, line: string, t: nat, other: string)
    requires other != line
    ensures OnLine(Truncate(cs, line, t), other) == OnLine(cs, other)
  {
    if cs != [] {
      var p, last := cs[..|cs| - 1], cs[|cs| - 1];
      assert cs == p + [last];
      TruncateOtherLine(p, line, t, other);
      TruncateSnoc(p, last, line, t);
      AppendOnLine(p, last, other);
      var q := Truncate(p, line, t);
      if last.branchSlug != line || last.order <= t {
        assert Truncate(cs, line, t) == q + [last];
        AppendOnLine(q, last, other);
      } else {
        assert Truncate(cs, line, t) == q;
        assert OnLine(cs, other) == OnLine(p, other);
      }
    }
  }

  lemma TruncateSnoc(cs: seq<Commit>, c: Commit, line: string, t: nat)
    ensures Truncate(cs + [c], line, t) ==
      Truncate(cs, line, t) + (if c.branchSlug != line || c.order <= t then [c] else [])
  {
    assert (cs + [c])[..|cs|] == cs;
  }

  lemma AtMostSnoc(s: seq<Commit>, c: Commit, t: nat)
    ensures AtMost(s + [c], t) == AtMost(s, t) + (if c.order <= t then [c] else [])
  {
    assert (s + [c])[..|s|] == s;
  }

  /** On a line numbered 0 .. n - 1 in store order, keeping the orders at most `t`
      keeps a prefix: the first t + 1 commits (all of them when t >= n - 1). */
  lemma {:induction false} AtMostPrefix(s: seq<Commit>, t: nat)
    requires Numbered(s)
    ensures AtMost(s, t) == if t < |s| then s[..t + 1] else s
  {
    if s != [] {
      var p, last := s[..|s| - 1], s[|s| - 1];
      assert s == p + [last];
      AtMostPrefix(p, t);
      AtMostSnoc(p, last, t);
      if t < |p| {
        assert s[..t + 1] == p[..t + 1];
      }
    }
  }

  /** Appending to a line numbered 0 .. n - 1 (n >= 1) at the line's next order
      gives the new commit order n: commits after the initial one leave no gap. */
  lemma AppendExtendsNumbering(cs: seq<Commit>, c: Commit)
    requires OnLine(cs, c.branchSlug) != []
    requires Numbered(OnLine(cs, c.branchSlug))
    requires c.order == NextOrder(cs, c.branchSlug)
    ensures c.order == |OnLine(cs, c.branchSlug)|
    ensures Numbered(OnLine(cs + [c], c.branchSlug))
  {
    NextOrderOfNumbered(cs, c.branchSlug);
    AppendOnLine(cs, c, c.branchSlug);
    NumberedSnoc(OnLine(cs, c.branchSlug), c);
  }

  lemma NumberedSnoc(s: seq<Commit>, c: Commit)
    requires Numbered(s) && c.order == |s|
    ensures Numbered(s + [c])
  {
    forall i | 0 <= i < |s| + 1 ensures (s + [c])[i].order == i {
      if i < |s| { assert (s + [c])[i] == s[i]; }
    }
  }

  /** On a line numbered 0 .. n - 1 (n >= 1), the next order is n. */
  lemma NextOrderOfNumbered(cs: seq<Commit>, line: string)
    requires OnLine(cs, line) != []
    requires Numbered(OnLine(cs, line))
    ensures NextOrder(cs, line) == |OnLine(cs, line)|
  {
    var s := OnLine(cs, line);
    var n := |s|;
    assert s[n - 1] in s;
    var top :| top in cs && top.branchSlug == line && top.order + 1 == NextOrder(cs, line);
    assert top in s;
    var k :| 0 <= k < n && s[k] == top;
  }

  /** Truncating at order t a line numbered 0 .. n - 1 (t < n) leaves that line as
      its first t + 1 commits: the target commit stays, everything after it goes. */
  lemma TruncateResetsLine(cs: seq<Commit>, line: string, t: nat)
    requires Numbered(OnLine(cs, line))
    requires t < |OnLine(cs, line)|
    ensures OnLine(Truncate(cs, line, t), line) == OnLine(cs, line)[..t + 1]
    ensures Numbered(OnLine(Truncate(cs, line, t), line))
  {
    TruncateSameLine(cs, line, t);
    AtMostPrefix(OnLine(cs, line), t);
  }
}
