/**
 * The review script: a line-scan heuristic over a file's patch text (`revisar_codigo`)
 * and the per-pull-request loop that posts one review comment per finding
 * (`processar_pr`). GitHub is abstracted as a `PullRequest` object that records every
 * attempt to add a comment, keeps the ones it accepts, and decides per attempt whether
 * to accept it.
 */
module ReviewScript {
  import opened Wrappers
  import opened Strings

  // ---------------------------------------------------------------------------
  // The heuristic analyzer: revisar_codigo
  // ---------------------------------------------------------------------------

  /** The marker the heuristic looks for: a Python function definition. */
  const Marker: string := "def "

  /** The one comment text the heuristic ever emits. */
  const DocstringHint: string := "Considere adicionar docstrings para melhor documentação."

  /** A finding: a 1-based line number and the comment to attach there. */
  datatype Finding = Finding(position: nat, message: string)

  /** The line contains the marker anywhere, not only at its start. */
  predicate Flagged(line: string) {
    Contains(line, Marker)
  }

  /** The 1-based numbers of the flagged lines of `lines`, in line order. */
  function FlaggedPositions(lines: seq<string>): seq<nat>
  {
    if lines == [] then []
    else
      var n := |lines|;
      FlaggedPositions(lines[..n - 1]) + if Flagged(lines[n - 1]) then [n] else []
  }

  /** One finding with the docstring hint at each of `positions`. */
  function Findings(positions: seq<nat>): (fs: seq<Finding>)
    ensures |fs| == |positions|
    ensures forall j :: 0 <= j < |fs| ==> fs[j] == Finding(positions[j], DocstringHint)
  {
    seq(|positions|, j requires 0 <= j < |positions| => Finding(positions[j], DocstringHint))
  }

  /** What `revisar_codigo(content)` returns. */
  function Review(content: string): seq<Finding> {
    Findings(FlaggedPositions(SplitLines(content)))
  }

  /** `revisar_codigo`: enumerate the lines from 1 and collect a finding for each flagged one. */
  method ReviewCode(content: string) returns (findings: seq<Finding>)
    ensures findings == Review(content)
  {
    var lines := SplitLines(content);
    findings := [];
    for i := 0 to |lines|
      invariant findings == Findings(FlaggedPositions(lines[..i]))
    {
      assert lines[..i + 1][..i] == lines[..i];
      if Contains(lines[i], Marker) {
        findings := findings + [Finding(i + 1, DocstringHint)];
      }
    }
    assert lines[..|lines|] == lines;
  }

  /** Line number `p` (from 1) names a flagged line of `lines`. */
  ghost predicate FlaggedAt(lines: seq<string>, p: nat) {
    1 <= p <= |lines| && Flagged(lines[p - 1])
  }

  /** The 1-based numbers of the flagged lines, as a set. */
  ghost function FlaggedLines(lines: seq<string>): set<nat> {
    set p: nat | 1 <= p <= |lines| && FlaggedAt(lines, p)
  }

  /**
   * Positions strictly increase (findings come out in line order, never twice for a
   * line), each is a line number, and a line is reported exactly when it is flagged.
   */
  lemma {:induction false} FlaggedPositionsSpec(lines: seq<string>)
    ensures var ps := FlaggedPositions(lines);
      && (forall j :: 0 <= j < |ps| ==> 1 <= ps[j] <= |lines|)
      && (forall j, k :: 0 <= j < k < |ps| ==> ps[j] < ps[k])
      && (forall p: nat :: p in ps <==> FlaggedAt(lines, p))
  {
    if lines != [] {
      var n := |lines|;
      var front := lines[..n - 1];
      FlaggedPositionsSpec(front);
      forall p: nat | 1 <= p < n ensures FlaggedAt(front, p) == FlaggedAt(lines, p) {
        assert lines[p - 1] == front[p - 1];
      }
    }
  }

  /** Adding a line adds its number to the flagged set exactly when it is flagged. */
  lemma FlaggedLinesStep(lines: seq<string>)
    requires lines != []
    ensures var n := |lines|; var front := FlaggedLines(lines[..n - 1]);
      && n !in front
      && FlaggedLines(lines) == if Flagged(lines[n - 1]) then front + {n} else front
  {
    var n := |lines|;
    var front := lines[..n - 1];
    forall p: nat | 1 <= p < n ensures FlaggedAt(front, p) == FlaggedAt(lines, p) {
      assert lines[p - 1] == front[p - 1];
    }
  }

  /** There are exactly as many findings as flagged lines. */
  lemma {:induction false} FlaggedPositionsCount(lines: seq<string>)
    ensures |FlaggedPositions(lines)| == |FlaggedLines(lines)|
  {
    if lines == [] {
      assert FlaggedLines(lines) == {};
    } else {
      FlaggedPositionsCount(lines[..|lines| - 1]);
      FlaggedLinesStep(lines);
    }
  }

  /** The scanner's properties, stated on the findings `revisar_codigo` returns for `content`. */
  lemma ReviewSpec(content: string)
    ensures var lines := SplitLines(content); var fs := Review(content);
      && (forall j :: 0 <= j < |fs| ==> 1 <= fs[j].position <= |lines| && fs[j].message == DocstringHint)
      && (forall j, k :: 0 <= j < k < |fs| ==> fs[j].position < fs[k].position)
      && (forall p: nat :: (exists j :: 0 <= j < |fs| && fs[j].position == p) <==> FlaggedAt(lines, p))
      && |fs| == |FlaggedLines(lines)|
  {
    var lines := SplitLines(content);
    var ps := FlaggedPositions(lines);
    FlaggedPositionsSpec(lines);
    FlaggedPositionsCount(lines);
    forall p: nat ensures (exists j :: 0 <= j < |ps| && ps[j] == p) <==> p in ps {
      if p in ps {
        var j :| 0 <= j < |ps| && ps[j] == p;
      }
    }
  }

  /** An empty patch (also what a file without a `patch` key gets) yields no findings. */
  lemma ReviewEmpty()
    ensures Review("") == []
  {
  }

  /**
   * The test is unanchored: a word ending in `def` or a comment mentioning `def ` is
   * flagged, while `def` not followed by a space is not.
   */
  lemma UnanchoredMatch()
    ensures Flagged("undef x")
    ensures Flagged("# see def here")
    ensures !Flagged("define(x)")
  {
    assert Flagged("undef x") by {
      assert OccursAt("undef x", Marker, 2);
      ContainsIff("undef x", Marker);
    }
    assert Flagged("# see def here") by {
      assert OccursAt("# see def here", Marker, 6);
      ContainsIff("# see def here", Marker);
    }
    assert !Flagged("define(x)") by {
      assert Marker[3] == ' ';
      MissingCharNotContained("define(x)", Marker, ' ');
    }
  }

  // ---------------------------------------------------------------------------
  // Publishing: adicionar_comentario_pr and processar_pr
  // ---------------------------------------------------------------------------

  /** A changed file of the pull request, as listed by GitHub: either key may be absent. */
  datatype ChangedFile = ChangedFile(filename: Option<string>, patch: Option<string>)

  /** `arquivo.get("patch", "")`. */
  function PatchText(f: ChangedFile): string {
    f.patch.GetOr("")
  }

  /** The payload of one review comment: its body, the file path and the diff position. */
  datatype ReviewComment = ReviewComment(path: string, position: nat, body: string)

  /**
   * The pull request's review-comment endpoint. `attempts` records every call of
   * `adicionar_comentario_pr`, whether or not its POST was sent,
   * `comments` those GitHub accepted; `accepts(n, c)` is GitHub's answer to the attempt
   * numbered `n` (counting from 0) carrying `c`.
   */
  class PullRequest {
    var attempts: seq<ReviewComment>
    var comments: seq<ReviewComment>
    const accepts: (nat, ReviewComment) -> bool

    constructor (accepts: (nat, ReviewComment) -> bool)
      ensures attempts == [] && comments == [] && this.accepts == accepts
    {
      attempts := [];
      comments := [];
      this.accepts := accepts;
    }

    /**
     * `adicionar_comentario_pr`: post one comment. On `ok == false` the source re-raises
     * the HTTP error, which the caller must propagate.
     */
    method AddComment(path: string, position: nat, body: string) returns (ok: bool)
      modifies this
      ensures var c := ReviewComment(path, position, body);
        && attempts == old(attempts) + [c]
        && ok == accepts(|old(attempts)|, c)
        && comments == if ok then old(comments) + [c] else old(comments)
    {
      var c := ReviewComment(path, position, body);
      ok := accepts(|attempts|, c);
      attempts := attempts + [c];
      if ok {
        comments := comments + [c];
      }
    }
  }

  /** One comment per finding, in finding order, at the finding's line, with its message. */
  function CommentsFor(path: string, findings: seq<Finding>): (cs: seq<ReviewComment>) {
    seq(|findings|, j requires 0 <= j < |findings| =>
      ReviewComment(path, findings[j].position, findings[j].message))
  }

  /** The comments for one file: its path with each finding of its patch text. */
  function FileComments(path: string, content: string): seq<ReviewComment> {
    CommentsFor(path, Review(content))
  }

  /**
   * The comments `processar_pr` would post if GitHub accepted all of them, in order, and
   * the index of the first file without a `filename` key, where the run stops with a
   * `KeyError` after posting the comments of the files before it.
   */
  datatype Schedule = Schedule(posts: seq<ReviewComment>, missing: Option<nat>)

  function ScheduleOf(files: seq<ChangedFile>): Schedule
  {
    if files == [] then Schedule([], None)
    else
      var n := |files|;
      var s := ScheduleOf(files[..n - 1]);
      if s.missing.Some? then s
      else match files[n - 1].filename
        case None => Schedule(s.posts, Some(n - 1))
        case Some(path) => Schedule(s.posts + FileComments(path, PatchText(files[n - 1])), None)
  }

  /**
   * The comments of one file are posted at that file's path, at strictly increasing
   * positions that are exactly its flagged lines, each with the docstring hint.
   */
  lemma FileCommentsSpec(path: string, content: string)
    ensures var cs := FileComments(path, content); var lines := SplitLines(content);
      && |cs| == |Review(content)|
      && (forall j :: 0 <= j < |cs| ==> cs[j].path == path && cs[j].body == DocstringHint)
      && (forall j, k :: 0 <= j < k < |cs| ==> cs[j].position < cs[k].position)
      && (forall p: nat :: (exists j :: 0 <= j < |cs| && cs[j].position == p) <==> FlaggedAt(lines, p))
  {
    var cs := FileComments(path, content);
    var fs := Review(content);
    ReviewSpec(content);
    assert forall j :: 0 <= j < |cs| ==> cs[j].position == fs[j].position;
  }

  /** The number of findings over all files: the sum of `len(revisar_codigo(patch))`. */
  function TotalFindings(files: seq<ChangedFile>): nat {
    if files == [] then 0
    else TotalFindings(files[..|files| - 1]) + |Review(PatchText(files[|files| - 1]))|
  }

  /**
   * The schedule stops exactly at the first file without a `filename`; when every file
   * has one, it holds one comment per finding of every file.
   */
  lemma {:induction false} ScheduleCount(files: seq<ChangedFile>)
    ensures ScheduleOf(files).missing.None? <==> forall j :: 0 <= j < |files| ==> files[j].filename.Some?
    ensures ScheduleOf(files).missing.Some? ==>
      var i := ScheduleOf(files).missing.value;
      i < |files| && files[i].filename.None? && forall j :: 0 <= j < i ==> files[j].filename.Some?
    ensures ScheduleOf(files).missing.None? ==> |ScheduleOf(files).posts| == TotalFindings(files)
  {
    if files != [] {
      var n := |files|;
      var front := files[..n - 1];
      ScheduleCount(front);
      assert forall j :: 0 <= j < n - 1 ==> files[j] == front[j];
    }
  }

  /**
   * A run that completes has posted one comment per finding of every file, and every
   * file had a `filename`.
   */
  lemma CompletedRunPostsEveryFinding(files: seq<ChangedFile>, accepts: (nat, ReviewComment) -> bool, n: nat)
    requires RunOf(files, accepts, n).outcome == Completed
    ensures forall j :: 0 <= j < |files| ==> files[j].filename.Some?
    ensures |RunOf(files, accepts, n).posted| == TotalFindings(files)
  {
    ScheduleCount(files);
  }

  /**
   * How many leading comments of `posts` GitHub accepts when the first of them is
   * attempt number `n` (`LeadingAcceptedSpec` states what the count means).
   */
  function LeadingAccepted(posts: seq<ReviewComment>, accepts: (nat, ReviewComment) -> bool, n: nat): (k: nat)
    ensures k <= |posts|
  {
    if posts == [] || !accepts(n, posts[0]) then 0
    else 1 + LeadingAccepted(posts[1..], accepts, n + 1)
  }

  /**
   * The count is the index of the first rejected post: every post before it is accepted
   * and, unless all are, the one at it is rejected.
   */
  lemma {:induction false} LeadingAcceptedSpec(posts: seq<ReviewComment>, accepts: (nat, ReviewComment) -> bool, n: nat)
    ensures var k := LeadingAccepted(posts, accepts, n);
      && (forall j :: 0 <= j < k ==> accepts(n + j, posts[j]))
      && (k < |posts| ==> !accepts(n + k, posts[k]))
  {
    if posts != [] && accepts(n, posts[0]) {
      LeadingAcceptedSpec(posts[1..], accepts, n + 1);
      var k := LeadingAccepted(posts, accepts, n);
      forall j | 0 <= j < k ensures accepts(n + j, posts[j]) {
        if j > 0 {
          assert posts[j] == posts[1..][j - 1];
        }
      }
    }
  }

  /**
   * Posting `a` then `b`: the count stops inside `a` at `a`'s first rejection, and
   * otherwise continues into `b`, whose first post is attempt number `n + |a|`.
   */
  lemma {:induction false} LeadingAcceptedConcat(a: seq<ReviewComment>, b: seq<ReviewComment>,
                                                 accepts: (nat, ReviewComment) -> bool, n: nat)
    ensures LeadingAccepted(a + b, accepts, n) ==
      if LeadingAccepted(a, accepts, n) < |a| then LeadingAccepted(a, accepts, n)
      else |a| + LeadingAccepted(b, accepts, n + |a|)
  {
    if a == [] {
      assert a + b == b;
    } else {
      assert (a + b)[0] == a[0];
      assert (a + b)[1..] == a[1..] + b;
      LeadingAcceptedConcat(a[1..], b, accepts, n + 1);
    }
  }

  /** GitHub accepts every post of `posts` when the first is attempt number `n`. */
  predicate AllAccepted(posts: seq<ReviewComment>, accepts: (nat, ReviewComment) -> bool, n: nat) {
    LeadingAccepted(posts, accepts, n) == |posts|
  }

  /** How a run of `processar_pr` ends. */
  datatype Outcome =
    | Completed                   // every file processed
    | PostRejected                // a comment was rejected; the HTTP error propagated
    | MissingFilename(file: nat)  // `arquivo["filename"]` raised `KeyError` at this file

  /** What a run does: the comments it attempts, those GitHub keeps, and how it ends. */
  datatype Run = Run(attempted: seq<ReviewComment>, posted: seq<ReviewComment>, outcome: Outcome)

  /**
   * The run of `processar_pr` over `files` against a pull request that has already
   * seen `n` attempts: the schedule is followed until the first rejected post.
   */
  function RunOf(files: seq<ChangedFile>, accepts: (nat, ReviewComment) -> bool, n: nat): Run {
    var s := ScheduleOf(files);
    var k := LeadingAccepted(s.posts, accepts, n);
    if k < |s.posts| then Run(s.posts[..k + 1], s.posts[..k], PostRejected)
    else Run(s.posts, s.posts, if s.missing.Some? then MissingFilename(s.missing.value) else Completed)
  }

  /**
   * The inner loop of `processar_pr`: post each finding of one file in order, stopping at
   * the first rejection (`ok == false`). Exactly the leading accepted comments are kept,
   * and the rejected one is the last attempt.
   */
  method PostFindings(pr: PullRequest, path: string, findings: seq<Finding>) returns (ok: bool)
    modifies pr
    ensures var cs := CommentsFor(path, findings);
      var k := LeadingAccepted(cs, pr.accepts, |old(pr.attempts)|);
      && ok == (k == |cs|)
      && (ok ==> pr.attempts == old(pr.attempts) + cs && pr.comments == old(pr.comments) + cs)
      && (!ok ==> pr.attempts == old(pr.attempts) + cs[..k + 1] && pr.comments == old(pr.comments) + cs[..k])
  {
    ghost var cs := CommentsFor(path, findings);
    ghost var n0 := |pr.attempts|;
    ghost var a0, c0 := pr.attempts, pr.comments;
    for j := 0 to |findings|
      invariant pr.attempts == a0 + cs[..j]
      invariant pr.comments == c0 + cs[..j]
      invariant LeadingAccepted(cs, pr.accepts, n0) == j + LeadingAccepted(cs[j..], pr.accepts, n0 + j)
    {
      assert cs[j..][0] == cs[j] && cs[j..][1..] == cs[j + 1..];
      ok := pr.AddComment(path, findings[j].position, findings[j].message);
      assert cs[..j + 1] == cs[..j] + [cs[j]];
      if !ok {
        return;
      }
    }
    assert cs[..|findings|] == cs;
    ok := true;
  }

  /**
   * `processar_pr`, given the list of changed files: for each file in order, read its
   * `filename` and its `patch` (default `""`), scan it, and post each finding in order;
   * the first failure ends the run.
   */
  method ProcessPr(files: seq<ChangedFile>, pr: PullRequest) returns (outcome: Outcome)
    modifies pr
    ensures var r := RunOf(files, pr.accepts, |old(pr.attempts)|);
      && pr.attempts == old(pr.attempts) + r.attempted
      && pr.comments == old(pr.comments) + r.posted
      && outcome == r.outcome
  {
    ghost var n0 := |pr.attempts|;
    ghost var a0, c0 := pr.attempts, pr.comments;
    ghost var done: seq<ReviewComment> := [];
    for i := 0 to |files|
      invariant ScheduleOf(files[..i]) == Schedule(done, None)
      invariant pr.attempts == a0 + done && pr.comments == c0 + done
      invariant AllAccepted(done, pr.accepts, n0)
    {
      if files[i].filename.None? {
        RunStopsAtMissingFilename(files, i, pr.accepts, n0);
        return MissingFilename(i);
      }
      var path := files[i].filename.value;
      var content := files[i].patch.GetOr("");
      var findings := ReviewCode(content);
      ghost var cs := CommentsFor(path, findings);
      ghost var m := LeadingAccepted(cs, pr.accepts, n0 + |done|);
      var ok := PostFindings(pr, path, findings);
      if !ok {
        RunStopsAtRejection(files, i, pr.accepts, n0);
        AppendAssoc(a0, done, cs[..m + 1]);
        AppendAssoc(c0, done, cs[..m]);
        return PostRejected;
      }
      ScheduleStep(files, i, pr.accepts, n0);
      AppendAssoc(a0, done, cs);
      AppendAssoc(c0, done, cs);
      done := done + cs;
    }
    assert files[..|files|] == files;
    assert RunOf(files, pr.accepts, n0) == Run(done, done, Completed);
    outcome := Completed;
  }

  lemma AppendAssoc<T>(a: seq<T>, b: seq<T>, c: seq<T>)
    ensures (a + b) + c == a + (b + c)
  {
  }

  /**
   * A prefix of the file list schedules a prefix of the posts; once a file lacks its
   * `filename`, later files change nothing.
   */
  lemma {:induction false} SchedulePrefix(files: seq<ChangedFile>, i: nat)
    requires i <= |files|
    ensures ScheduleOf(files[..i]).missing.Some? ==> ScheduleOf(files) == ScheduleOf(files[..i])
    ensures ScheduleOf(files[..i]).missing.None? ==> ScheduleOf(files[..i]).posts <= ScheduleOf(files).posts
    decreases |files| - i
  {
    if i == |files| {
      assert files[..i] == files;
    } else {
      var m := |files|;
      SchedulePrefix(files[..m - 1], i);
      assert files[..m - 1][..i] == files[..i];
    }
  }

  /** One file with a `filename` extends the schedule by its comments, and all of them are accepted. */
  lemma ScheduleStep(files: seq<ChangedFile>, i: nat, accepts: (nat, ReviewComment) -> bool, n: nat)
    requires i < |files| && files[i].filename.Some?
    requires ScheduleOf(files[..i]).missing.None? && AllAccepted(ScheduleOf(files[..i]).posts, accepts, n)
    requires AllAccepted(FileComments(files[i].filename.value, PatchText(files[i])), accepts,
                         n + |ScheduleOf(files[..i]).posts|)
    ensures ScheduleOf(files[..i + 1]) ==
      Schedule(ScheduleOf(files[..i]).posts + FileComments(files[i].filename.value, PatchText(files[i])), None)
    ensures AllAccepted(ScheduleOf(files[..i + 1]).posts, accepts, n)
  {
    assert files[..i + 1][..i] == files[..i];
    LeadingAcceptedConcat(ScheduleOf(files[..i]).posts,
                          FileComments(files[i].filename.value, PatchText(files[i])), accepts, n);
  }

  /**
   * A file without `filename`, reached with every earlier post accepted, ends the run
   * with `KeyError` after exactly the earlier files' comments.
   */
  lemma RunStopsAtMissingFilename(files: seq<ChangedFile>, i: nat, accepts: (nat, ReviewComment) -> bool, n: nat)
    requires i < |files| && files[i].filename.None?
    requires ScheduleOf(files[..i]).missing.None? && AllAccepted(ScheduleOf(files[..i]).posts, accepts, n)
    ensures var done := ScheduleOf(files[..i]).posts;
      RunOf(files, accepts, n) == Run(done, done, MissingFilename(i))
  {
    assert files[..i + 1][..i] == files[..i];
    SchedulePrefix(files, i + 1);
  }

  /**
   * A rejected post ends the run: when every comment of the files before `i` is accepted
   * and file `i` has one rejected, the run has attempted exactly those earlier comments
   * and file `i`'s comments up to and including the rejected one; nothing later in this
   * file or in any later file is attempted.
   */
  lemma RunStopsAtRejection(files: seq<ChangedFile>, i: nat, accepts: (nat, ReviewComment) -> bool, n: nat)
    requires i < |files| && files[i].filename.Some?
    requires ScheduleOf(files[..i]).missing.None? && AllAccepted(ScheduleOf(files[..i]).posts, accepts, n)
    requires !AllAccepted(FileComments(files[i].filename.value, PatchText(files[i])), accepts,
                          n + |ScheduleOf(files[..i]).posts|)
    ensures var done := ScheduleOf(files[..i]).posts;
      var cs := FileComments(files[i].filename.value, PatchText(files[i]));
      var m := LeadingAccepted(cs, accepts, n + |done|);
      && m < |cs|
      && RunOf(files, accepts, n) == Run(done + cs[..m + 1], done + cs[..m], PostRejected)
  {
    var done := ScheduleOf(files[..i]).posts;
    var cs := FileComments(files[i].filename.value, PatchText(files[i]));
    var sched := ScheduleOf(files).posts;
    assert files[..i + 1][..i] == files[..i];
    assert ScheduleOf(files[..i + 1]).posts == done + cs;
    SchedulePrefix(files, i + 1);
    assert sched == (done + cs) + sched[|done + cs|..];
    RejectionInBlock(done, cs, sched[|done + cs|..], accepts, n);
  }

  /**
   * Posting `done`, then `cs`, then `tail`, where all of `done` is accepted and some post
   * of `cs` is not: the count stops inside `cs`, at its first rejection.
   */
  lemma RejectionInBlock(done: seq<ReviewComment>, cs: seq<ReviewComment>, tail: seq<ReviewComment>,
                         accepts: (nat, ReviewComment) -> bool, n: nat)
    requires AllAccepted(done, accepts, n) && !AllAccepted(cs, accepts, n + |done|)
    ensures var m := LeadingAccepted(cs, accepts, n + |done|);
      var all := (done + cs) + tail;
      && m < |cs|
      && LeadingAccepted(all, accepts, n) == |done| + m
      && all[..|done| + m + 1] == done + cs[..m + 1]
      && all[..|done| + m] == done + cs[..m]
  {
    var m := LeadingAccepted(cs, accepts, n + |done|);
    LeadingAcceptedConcat(done, cs, accepts, n);
    LeadingAcceptedConcat(done + cs, tail, accepts, n);
    PrefixSlices(done, cs, (done + cs) + tail, m);
  }

  /** Cutting a sequence that extends `a + b` inside `b`. */
  lemma PrefixSlices<T>(a: seq<T>, b: seq<T>, s: seq<T>, m: nat)
    requires a + b <= s && m < |b|
    ensures s[..|a| + m + 1] == a + b[..m + 1]
    ensures s[..|a| + m] == a + b[..m]
  {
    assert s[..|a| + |b|] == a + b;
    assert s[..|a| + m + 1] == (a + b)[..|a| + m + 1];
    assert s[..|a| + m] == (a + b)[..|a| + m];
  }
}
