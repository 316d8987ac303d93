/** `bootstrap` and its `submit` closure (src/utterances.ts, lines 28-96):
    loading the viewer, the issue and the theme together, mounting the
    timeline, and posting comments behind the origin gate with lazy issue
    creation. Every network call is an input outcome. */
module Bootstrap {
  import opened Wrappers
  import opened GitHub
  import opened PagePlan
  import opened CommentLoader
  import opened OriginGate

  /** What the embedding page declares about itself: its origin, which issue
      holds its comments (by number, or else by search term), and the fields
      a new issue is created with. */
  datatype PageAttributes = PageAttributes(
    origin: string,
    issueNumber: Option<nat>,
    issueTerm: Option<string>,
    url: string,
    title: string,
    description: Option<string>,
    issueLabel: Option<string>)

  /** How the issue is looked up. The term is passed on as declared, even
      when absent. */
  datatype IssueRequest = ByNumber(number: nat) | ByTerm(term: Option<string>)

  /** The arguments of `createIssue`. */
  datatype NewIssue = NewIssue(term: Option<string>, url: string, title: string, description: string, issueLabel: Option<string>)

  /** The collaborator calls one submission makes, in order. */
  datatype Call = GetRepoConfig | CreateIssue(request: NewIssue) | PostComment(issueNumber: nat, markdown: string)

  /** `loadIssue()`: by number when the page names one, otherwise by term. */
  function IssueLookup(page: PageAttributes): (r: IssueRequest)
    ensures r.ByNumber? <==> page.issueNumber.Some?
    ensures r.ByNumber? ==> r.number == page.issueNumber.value
    ensures r.ByTerm? ==> r.term == page.issueTerm
  {
    match page.issueNumber
    case Some(n) => ByNumber(n)
    case None => ByTerm(page.issueTerm)
  }

  /** The `createIssue` arguments for this page: the declared term, url,
      title and label as they are, and a missing description as the empty
      string. */
  function NewIssueFor(page: PageAttributes): (r: NewIssue)
    ensures r.term == page.issueTerm && r.url == page.url && r.title == page.title
    ensures r.issueLabel == page.issueLabel
    ensures page.description.Some? ==> r.description == page.description.value
    ensures page.description.None? ==> r.description == ""
  {
    NewIssue(page.issueTerm, page.url, page.title,
             match page.description case Some(d) => d case None => "",
             page.issueLabel)
  }

  /** The settled outcomes of the bootstrap's own calls: the token load, and
      the user and theme loads that run together with the issue lookup. */
  datatype BootstrapLoads = BootstrapLoads(token: Settled<()>, user: Settled<Option<User>>, theme: Settled<()>)

  /** The state the `submit` closure works on: the issue it captured (null
      until one exists), the issue the timeline is bound to (rebound with
      `setIssue` after a lazy creation), the comments it inserted as new, and
      the text in the comment box. */
  datatype Session = Session(issue: Option<Issue>, shown: Option<Issue>, posted: seq<IssueComment>, draft: string)

  /** The mounted timeline: who it was mounted for, the issue it was mounted
      with (after a lazy creation the issue it shows is the session's
      `shown`, which supersedes this one), and the comment view
      `renderComments` produced, if it was started. */
  datatype Timeline = Timeline(user: Option<User>, issue: Option<Issue>, comments: Option<CommentsView>)

  /** What `bootstrap()` leaves behind: the completion flag, the timeline if
      mounted, the argument `enableReactions` received if it was called, and
      the submit session if the comment box was attached. */
  datatype Widget = Widget(bootstrapRun: bool, timeline: Option<Timeline>, reactions: Option<bool>, composer: Option<Session>)

  /** All three parallel loads fulfilled. */
  predicate LoadsSucceeded(loads: BootstrapLoads, issue: Settled<Option<Issue>>)
  {
    loads.user.Fulfilled? && issue.Fulfilled? && loads.theme.Fulfilled?
  }

  /** Whether a (loaded) issue is locked. */
  predicate IsLocked(issue: Option<Issue>)
  {
    issue.Some? && issue.value.locked
  }

  /** `bootstrap()`. A rejected token load escapes before anything else runs,
      so the completion flag stays unset. Otherwise the flag is set whether
      or not the parallel loads succeed; if any of them rejects nothing at all
      is mounted. On success the timeline is mounted, comments are rendered
      when the issue has some, and unless the issue is locked reactions are
      enabled (for a signed-in viewer) and the comment box is attached. */
  function Bootstrap(page: PageAttributes, loads: BootstrapLoads, lookup: IssueRequest -> Settled<Option<Issue>>,
                     pageSize: PageSize, source: PageSource): (w: Widget)
    ensures w.bootstrapRun <==> loads.token.Fulfilled?
    ensures w.timeline.Some? <==> loads.token.Fulfilled? && LoadsSucceeded(loads, lookup(IssueLookup(page)))
    ensures w.timeline.None? ==> w.reactions.None? && w.composer.None?
    ensures w.timeline.Some? ==>
      var issue := lookup(IssueLookup(page)).value;
      && w.timeline.value.user == loads.user.value
      && w.timeline.value.issue == issue
      && (w.timeline.value.comments.Some? <==> issue.Some? && issue.value.comments > 0)
      && (w.timeline.value.comments.Some? ==> w.timeline.value.comments.value == RenderComments(issue.value.comments, pageSize, source))
      && (w.composer.Some? <==> !IsLocked(issue))
      && (w.reactions.Some? <==> !IsLocked(issue))
      && (w.reactions.Some? ==> (w.reactions.value <==> loads.user.value.Some?))
      && (w.composer.Some? ==> w.composer.value == Session(issue, issue, [], ""))
  {
    if loads.token.Rejected? then Widget(false, None, None, None)
    else
      var issueResult := lookup(IssueLookup(page));
      if !LoadsSucceeded(loads, issueResult) then Widget(true, None, None, None)
      else
        var user := loads.user.value;
        var issue := issueResult.value;
        var comments := if issue.Some? && issue.value.comments > 0
                        then Some(RenderComments(issue.value.comments, pageSize, source))
                        else None;
        var timeline := Timeline(user, issue, comments);
        if IsLocked(issue) then Widget(true, Some(timeline), None, None)
        else Widget(true, Some(timeline), Some(user.Some?), Some(Session(issue, issue, [], "")))
  }

  /** The settled outcomes of the calls one submission may make. */
  datatype SubmitNetwork = SubmitNetwork(config: Settled<RepoConfig>, created: Settled<Issue>, posted: Settled<IssueComment>)

  /** One submission: the session after it, the calls it made, and whether
      it completed or rejected (and why). */
  datatype SubmitResult = SubmitResult(session: Session, calls: seq<Call>, outcome: Settled<()>)

  /** The final step of `submit`: post the text to the session's issue; on
      success insert the comment as new and clear the box. */
  function Post(s: Session, calls: seq<Call>, net: SubmitNetwork): (r: SubmitResult)
    requires s.issue.Some?
    ensures r.calls == calls + [PostComment(s.issue.value.number, s.draft)]
    ensures r.session.issue == s.issue
    ensures r.outcome.Fulfilled? <==> net.posted.Fulfilled?
    ensures r.outcome.Fulfilled? ==> r.session.posted == s.posted + [net.posted.value] && r.session.draft == ""
    ensures r.session.shown == s.shown
    ensures r.outcome.Rejected? ==> r.session == s && r.outcome.reason == net.posted.reason
  {
    var call := PostComment(s.issue.value.number, s.draft);
    match net.posted
    case Rejected(reason) => SubmitResult(s, calls + [call], Rejected(reason))
    case Fulfilled(comment) =>
      SubmitResult(s.(posted := s.posted + [comment], draft := ""), calls + [call], Fulfilled(()))
  }

  /** `submit(markdown)` with the text in the comment box: the origin gate
      first, then `createIssue` only when no issue exists yet, then
      `postComment`, which is made at most once and to the session's issue.
      The first rejection ends the submission. The box is
      cleared only when all steps succeed; a created issue is kept even if
      the post then fails. */
  function Submit(page: PageAttributes, s: Session, net: SubmitNetwork): (r: SubmitResult)
    ensures 1 <= |r.calls| <= 3 && r.calls[0] == GetRepoConfig
    ensures forall i :: 0 < i < |r.calls| ==> !r.calls[i].GetRepoConfig?
    ensures forall i, j :: 0 <= i < j < |r.calls| && r.calls[j].CreateIssue? ==> !r.calls[i].PostComment?
    ensures forall i, j :: 0 <= i < j < |r.calls| && r.calls[i].CreateIssue? ==> !r.calls[j].CreateIssue?
    ensures forall i, j :: 0 <= i < j < |r.calls| && r.calls[i].PostComment? ==> !r.calls[j].PostComment?
    ensures AssertOrigin(page.origin, net.config).Rejected? ==>
      r == SubmitResult(s, [GetRepoConfig], AssertOrigin(page.origin, net.config))
    ensures (exists c :: c in r.calls && c.PostComment?) <==>
      AssertOrigin(page.origin, net.config).Fulfilled? && (s.issue.Some? || net.created.Fulfilled?)
    ensures forall c :: c in r.calls && c.PostComment? ==>
      r.session.issue.Some? && c == PostComment(r.session.issue.value.number, s.draft)
    ensures CreateIssue(NewIssueFor(page)) in r.calls <==>
      s.issue.None? && AssertOrigin(page.origin, net.config).Fulfilled?
    ensures forall c :: c in r.calls && c.CreateIssue? ==> c == CreateIssue(NewIssueFor(page))
    ensures s.issue.Some? ==> r.session.issue == s.issue
    ensures s.issue.None? && CreateIssue(NewIssueFor(page)) in r.calls && net.created.Fulfilled? ==>
      r.session.issue == Some(net.created.value) && r.session.shown == Some(net.created.value)
    ensures !(s.issue.None? && CreateIssue(NewIssueFor(page)) in r.calls && net.created.Fulfilled?) ==>
      r.session.issue == s.issue && r.session.shown == s.shown
    ensures r.outcome.Fulfilled? <==>
      && AssertOrigin(page.origin, net.config).Fulfilled?
      && (s.issue.Some? || net.created.Fulfilled?)
      && net.posted.Fulfilled?
    ensures r.outcome.Fulfilled? ==>
      && r.session.issue.Some?
      && r.calls[|r.calls| - 1] == PostComment(r.session.issue.value.number, s.draft)
      && r.session.posted == s.posted + [net.posted.value]
      && r.session.draft == ""
    ensures r.outcome.Rejected? ==> r.session.draft == s.draft && r.session.posted == s.posted
    ensures AssertOrigin(page.origin, net.config).Fulfilled? && s.issue.None? && net.created.Rejected? ==>
      r.outcome == Rejected(net.created.reason)
    ensures AssertOrigin(page.origin, net.config).Fulfilled? && (s.issue.Some? || net.created.Fulfilled?) && net.posted.Rejected? ==>
      r.outcome == Rejected(net.posted.reason)
  {
    match AssertOrigin(page.origin, net.config)
    case Rejected(reason) => SubmitResult(s, [GetRepoConfig], Rejected(reason))
    case Fulfilled(_) =>
      if s.issue.Some? then
        var r := Post(s, [GetRepoConfig], net);
        assert r.calls[1] in r.calls;
        r
      else
        var create := CreateIssue(NewIssueFor(page));
        match net.created
        case Rejected(reason) => SubmitResult(s, [GetRepoConfig, create], Rejected(reason))
        case Fulfilled(issue) =>
          var r := Post(s.(issue := Some(issue), shown := Some(issue)), [GetRepoConfig, create], net);
          assert r.calls[2] in r.calls;
          r
  }

  /** One press of the submit button: the text typed and the outcomes of
      that submission's calls. */
  datatype Attempt = Attempt(text: string, net: SubmitNetwork)

  /** The session and the calls made over a series of submissions. */
  function SubmitAll(page: PageAttributes, s: Session, attempts: seq<Attempt>): (Session, seq<Call>)
    decreases |attempts|
  {
    if attempts == [] then (s, [])
    else
      var first := Submit(page, s.(draft := attempts[0].text), attempts[0].net);
      var rest := SubmitAll(page, first.session, attempts[1..]);
      (rest.0, first.calls + rest.1)
  }

  /** Once the session holds an issue, no later submission creates another
      one, and the issue it holds never changes. */
  lemma {:induction false} NoCreateOnceIssueExists(page: PageAttributes, s: Session, attempts: seq<Attempt>)
    requires s.issue.Some?
    ensures SubmitAll(page, s, attempts).0.issue == s.issue
    ensures forall c :: c in SubmitAll(page, s, attempts).1 ==> !c.CreateIssue?
    decreases |attempts|
  {
    if attempts != [] {
      var first := Submit(page, s.(draft := attempts[0].text), attempts[0].net);
      NoCreateOnceIssueExists(page, first.session, attempts[1..]);
    }
  }

  /** When no issue exists and the first submission passes the gate and
      creates one, that issue is the one every later submission posts to:
      over the whole series `createIssue` is called exactly once. */
  lemma {:induction false} CreatedIssueIsReused(page: PageAttributes, s: Session, attempts: seq<Attempt>)
    requires s.issue.None? && attempts != []
    requires AssertOrigin(page.origin, attempts[0].net.config).Fulfilled?
    requires attempts[0].net.created.Fulfilled?
    ensures SubmitAll(page, s, attempts).0.issue == Some(attempts[0].net.created.value)
    ensures CountCreates(SubmitAll(page, s, attempts).1) == 1
  {
    var first := Submit(page, s.(draft := attempts[0].text), attempts[0].net);
    var rest := SubmitAll(page, first.session, attempts[1..]);
    NoCreateOnceIssueExists(page, first.session, attempts[1..]);
    var created := [GetRepoConfig, CreateIssue(NewIssueFor(page))];
    var after := first.calls[2..] + rest.1;
    assert SubmitAll(page, s, attempts).1 == created + after;
    assert forall c :: c in after ==> !c.CreateIssue?;
    assert CountCreates(created[1..]) == 1;
    CountCreatesAppend(created, after);
    NoCreatesCounted(after);
  }

  /** Number of `createIssue` calls. */
  function CountCreates(calls: seq<Call>): nat
  {
    if calls == [] then 0 else (if calls[0].CreateIssue? then 1 else 0) + CountCreates(calls[1..])
  }

  /** The count adds up over concatenated call lists. */
  lemma {:induction false} CountCreatesAppend(a: seq<Call>, b: seq<Call>)
    ensures CountCreates(a + b) == CountCreates(a) + CountCreates(b)
  {
    if a == [] {
      assert a + b == b;
    } else {
      assert (a + b)[0] == a[0];
      assert (a + b)[1..] == a[1..] + b;
      CountCreatesAppend(a[1..], b);
    }
  }

  /** A call list without `createIssue` counts none. */
  lemma {:induction false} NoCreatesCounted(calls: seq<Call>)
    requires forall c :: c in calls ==> !c.CreateIssue?
    ensures CountCreates(calls) == 0
  {
    if calls != [] {
      assert calls[0] in calls;
      assert forall c :: c in calls[1..] ==> c in calls;
      NoCreatesCounted(calls[1..]);
    }
  }

  /** Across a series of submissions the timeline stays bound to the issue
      the submit closure holds: a lazily created issue is shown as soon as
      it exists. */
  lemma {:induction false} TimelineFollowsIssue(page: PageAttributes, s: Session, attempts: seq<Attempt>)
    requires s.shown == s.issue
    ensures SubmitAll(page, s, attempts).0.shown == SubmitAll(page, s, attempts).0.issue
    decreases |attempts|
  {
    if attempts != [] {
      var first := Submit(page, s.(draft := attempts[0].text), attempts[0].net);
      TimelineFollowsIssue(page, first.session, attempts[1..]);
    }
  }

  /** Bootstrap and submit together: the comment box is attached bound to the
      issue the lookup found, so when one was found no submission ever calls
      `createIssue`, every comment goes to that issue, and the timeline keeps
      showing it. */
  lemma {:induction false} FoundIssueIsNeverRecreated(page: PageAttributes, loads: BootstrapLoads,
      lookup: IssueRequest -> Settled<Option<Issue>>, pageSize: PageSize, source: PageSource, attempts: seq<Attempt>)
    requires Bootstrap(page, loads, lookup, pageSize, source).composer.Some?
    requires lookup(IssueLookup(page)).Fulfilled? && lookup(IssueLookup(page)).value.Some?
    ensures var session := Bootstrap(page, loads, lookup, pageSize, source).composer.value;
      var (final, calls) := SubmitAll(page, session, attempts);
      && final.issue == lookup(IssueLookup(page)).value
      && final.shown == final.issue
      && (forall c :: c in calls ==> !c.CreateIssue?)
  {
    var session := Bootstrap(page, loads, lookup, pageSize, source).composer.value;
    NoCreateOnceIssueExists(page, session, attempts);
    TimelineFollowsIssue(page, session, attempts);
  }
}
