/** The merge-request handler of `tsrc push`: resolve the assignee, find or
    create the merge request of the pushed branch, send one update, and accept
    it when asked. The forge is an oracle: each API call is answered by a
    function of its arguments, and every call the handler issues is recorded,
    in order, in a trace. */
module Handler {
  import opened Strings
  import opened Titles
  import opened Assignees
  import opened Remote

  /** The fields of a merge request the handler reads. */
  datatype MergeRequest = MergeRequest(iid: int, title: string, webUrl: string)

  /** Whatever an API call raises; the handler only passes it on. */
  datatype ForgeError = ForgeError(message: string)

  /** The answer to a call whose return value the handler ignores. */
  datatype Reply = Done | Refused(error: ForgeError)

  /** A value among the keyword arguments of the update call. */
  datatype Param = Text(text: string) | Nothing | Flag(flag: bool) | Number(number: int)

  type Params = map<string, Param>

  /** The calls the handler makes on the GitLab API helper. */
  datatype Call =
    | GetActiveUsers
    | GetProjectId(projectName: string)
    | FindOpened(projectId: int, sourceBranch: string)
    | Create(projectId: int, sourceBranch: string, title: string, targetBranch: string)
    | Update(mr: MergeRequest, params: Params)
    | Accept(mr: MergeRequest)

  /** The forge as the handler sees it: the answer to each call. */
  datatype Backend = Backend(
    projectIdOf: string -> Result<int, ForgeError>,
    activeUsers: Result<seq<User>, ForgeError>,
    findOpened: (int, string) -> Result<Option<MergeRequest>, ForgeError>,
    create: (int, string, string, string) -> Result<MergeRequest, ForgeError>,
    update: (MergeRequest, Params) -> Reply,
    accept: MergeRequest -> Reply)

  /** Why a run stops. `GitHubUnsupported` is the failure of the GitHub
      path, which stops before any API call. */
  datatype Error =
    | Forge(forgeError: ForgeError)
    | Assignee(assigneeError: AssigneeError)
    | GitHubUnsupported

  /** The command-line options `handle` reads. */
  datatype Args = Args(mrTitle: Option<string>, ready: bool, wip: bool, assignee: Option<string>, accept: bool)

  /** A `GitLabMRHandler`: what it was built with, and the memoised project id. */
  datatype GitLabHandler = GitLabHandler(projectName: string, sourceBranch: string, targetBranch: string, cachedProjectId: Option<int>)

  /** The calls one step issued, the handler afterwards, and its outcome. */
  datatype Step<+T> = Step(calls: seq<Call>, handler: GitLabHandler, result: Result<T, Error>)

  /** A whole run of `handle`: its calls and the merge request it reports. */
  datatype Run = Run(calls: seq<Call>, result: Result<MergeRequest, Error>)

  /** The phase of the run a call belongs to: assignee lookup, finding the
      merge request (project-id lookups included), creating it, updating it,
      accepting it. */
  function Stage(c: Call): nat {
    match c
    case GetActiveUsers => 0
    case GetProjectId(_) => 1
    case FindOpened(_, _) => 1
    case Create(_, _, _, _) => 2
    case Update(_, _) => 3
    case Accept(_) => 4
  }

  /** Call `x` may come before call `y`: an earlier phase, or two calls of the
      finding phase at least one of which is a project-id lookup. */
  predicate MayPrecede(x: Call, y: Call) {
    Stage(x) < Stage(y) || (Stage(x) == 1 && Stage(y) == 1 && (x.GetProjectId? || y.GetProjectId?))
  }

  /** The calls go through the phases in order, and apart from project-id
      lookups no kind of call occurs twice. */
  predicate InStageOrder(calls: seq<Call>) {
    forall i, j :: 0 <= i < j < |calls| ==> MayPrecede(calls[i], calls[j])
  }

  /** Two ordered traces stay ordered when every call of the first may
      precede every call of the second. */
  lemma InStageOrderConcat(a: seq<Call>, b: seq<Call>)
    requires InStageOrder(a) && InStageOrder(b)
    requires forall i, j :: 0 <= i < |a| && 0 <= j < |b| ==> MayPrecede(a[i], b[j])
    ensures InStageOrder(a + b)
  {
    var ab := a + b;
    forall i, j | 0 <= i < j < |ab|
      ensures MayPrecede(ab[i], ab[j])
    {
      if j < |a| {
        assert ab[i] == a[i] && ab[j] == a[j];
      } else if i >= |a| {
        assert ab[i] == b[i - |a|] && ab[j] == b[j - |a|];
      } else {
        assert ab[i] == a[i] && ab[j] == b[j - |a|];
      }
    }
  }

  /** `if not self._project_id`: Python treats a cached id of 0 as absent. */
  predicate HasCachedProjectId(h: GitLabHandler) {
    h.cachedProjectId.Some? && h.cachedProjectId.value != 0
  }

  /** The `project_id` property: the cached id, or one lookup that is then
      cached. Nothing but the cache changes. */
  function ProjectId(h: GitLabHandler, be: Backend): (s: Step<int>)
    ensures s.handler.(cachedProjectId := h.cachedProjectId) == h
    ensures HasCachedProjectId(h) ==> s.calls == [] && s.handler == h && s.result == Success(h.cachedProjectId.value)
    ensures !HasCachedProjectId(h) ==> s.calls == [GetProjectId(h.projectName)]
    ensures s.result.Success? ==> s.handler.cachedProjectId == Some(s.result.value)
    ensures s.result.Failure? ==> s.handler == h && s.result.error.Forge?
    ensures !HasCachedProjectId(h) ==>
              (s.result.Success? <==> be.projectIdOf(h.projectName).Success?) &&
              (s.result.Success? ==> s.result.value == be.projectIdOf(h.projectName).value) &&
              (s.result.Failure? ==> s.result.error == Forge(be.projectIdOf(h.projectName).error))
  {
    if HasCachedProjectId(h) then Step([], h, Success(h.cachedProjectId.value))
    else match be.projectIdOf(h.projectName)
      case Success(id) => Step([GetProjectId(h.projectName)], h.(cachedProjectId := Some(id)), Success(id))
      case Failure(e) => Step([GetProjectId(h.projectName)], h, Failure(Forge(e)))
  }

  /** Once a non-zero id is cached, asking again costs no call and gives the
      same id. */
  lemma ProjectIdIsMemoised(h: GitLabHandler, be: Backend)
    requires ProjectId(h, be).result.Success? && ProjectId(h, be).result.value != 0
    ensures var s := ProjectId(h, be);
            ProjectId(s.handler, be) == Step([], s.handler, s.result)
  {
  }

  /** A project whose id is 0 is looked up again on every use. */
  lemma ZeroProjectIdIsNotMemoised(h: GitLabHandler, be: Backend)
    requires !HasCachedProjectId(h) && be.projectIdOf(h.projectName) == Success(0)
    ensures var s := ProjectId(h, be);
            ProjectId(s.handler, be).calls == [GetProjectId(h.projectName)]
  {
  }

  /** `find_merge_request`: the open merge request of the source branch, if any. */
  function FindMergeRequest(h: GitLabHandler, be: Backend): (s: Step<Option<MergeRequest>>)
    ensures forall i :: 0 <= i < |s.calls| ==>
              s.calls[i] == GetProjectId(h.projectName) ||
              (s.calls[i].FindOpened? && s.calls[i].sourceBranch == h.sourceBranch && i == |s.calls| - 1)
    ensures s.result.Success? ==>
              |s.calls| >= 1 && s.calls[|s.calls| - 1].FindOpened? &&
              be.findOpened(s.calls[|s.calls| - 1].projectId, h.sourceBranch) == Success(s.result.value) &&
              s.handler.cachedProjectId == Some(s.calls[|s.calls| - 1].projectId)
    ensures s.handler.(cachedProjectId := h.cachedProjectId) == h
    ensures var p := ProjectId(h, be);
            s.handler == p.handler &&
            (p.result.Success? ==> s.calls == p.calls + [FindOpened(p.result.value, h.sourceBranch)]) &&
            (p.result.Failure? ==> s.calls == p.calls && s.result == Failure(p.result.error))
    ensures var p := ProjectId(h, be);
            p.result.Success? ==>
              (s.result.Failure? <==> be.findOpened(p.result.value, h.sourceBranch).Failure?) &&
              (s.result.Failure? ==> s.result == Failure(Forge(be.findOpened(p.result.value, h.sourceBranch).error)))
  {
    var p := ProjectId(h, be);
    match p.result
    case Failure(e) => Step(p.calls, p.handler, Failure(e))
    case Success(id) =>
      var calls := p.calls + [FindOpened(id, h.sourceBranch)];
      match be.findOpened(id, h.sourceBranch)
      case Failure(e) => Step(calls, p.handler, Failure(Forge(e)))
      case Success(found) => Step(calls, p.handler, Success(found))
  }

  /** `create_merge_request`: a new merge request from the source branch to
      the target branch, titled after the source branch. */
  function CreateMergeRequest(h: GitLabHandler, be: Backend): (s: Step<MergeRequest>)
    ensures forall i :: 0 <= i < |s.calls| ==>
              s.calls[i] == GetProjectId(h.projectName) ||
              (s.calls[i].Create? && s.calls[i] == Create(s.calls[i].projectId, h.sourceBranch, h.sourceBranch, h.targetBranch) &&
               i == |s.calls| - 1)
    ensures HasCachedProjectId(h) ==> |s.calls| == 1 && s.calls[0] == Create(h.cachedProjectId.value, h.sourceBranch, h.sourceBranch, h.targetBranch)
    ensures s.result.Success? ==>
              |s.calls| >= 1 && s.calls[|s.calls| - 1].Create? &&
              be.create(s.calls[|s.calls| - 1].projectId, h.sourceBranch, h.sourceBranch, h.targetBranch) == Success(s.result.value)
    ensures var p := ProjectId(h, be);
            (p.result.Success? ==> s.calls == p.calls + [Create(p.result.value, h.sourceBranch, h.sourceBranch, h.targetBranch)]) &&
            (p.result.Failure? ==> s.calls == p.calls && s.result == Failure(p.result.error))
    ensures var p := ProjectId(h, be);
            p.result.Success? ==>
              (s.result.Failure? <==> be.create(p.result.value, h.sourceBranch, h.sourceBranch, h.targetBranch).Failure?) &&
              (s.result.Failure? ==> s.result == Failure(Forge(be.create(p.result.value, h.sourceBranch, h.sourceBranch, h.targetBranch).error)))
  {
    var p := ProjectId(h, be);
    match p.result
    case Failure(e) => Step(p.calls, p.handler, Failure(e))
    case Success(id) =>
      var calls := p.calls + [Create(id, h.sourceBranch, h.sourceBranch, h.targetBranch)];
      match be.create(id, h.sourceBranch, h.sourceBranch, h.targetBranch)
      case Failure(e) => Step(calls, p.handler, Failure(Forge(e)))
      case Success(mr) => Step(calls, p.handler, Success(mr))
  }

  /** `ensure_merge_request`: reuse the open merge request if there is one,
      otherwise create one; a single pass, never re-checked. */
  function EnsureMergeRequest(h: GitLabHandler, be: Backend): (s: Step<MergeRequest>)
    ensures var f := FindMergeRequest(h, be);
            s.result.Success? ==>
              f.result == Success(Some(s.result.value)) ||
              (f.result == Success(None) && CreateMergeRequest(f.handler, be).result == s.result)
    ensures var f := FindMergeRequest(h, be);
            !(f.result == Success(None)) ==> s.calls == f.calls && (f.result.Failure? ==> s.result.Failure?)
    ensures var f := FindMergeRequest(h, be);
            f.result == Success(None) ==> s.calls == f.calls + CreateMergeRequest(f.handler, be).calls
  {
    var f := FindMergeRequest(h, be);
    match f.result
    case Failure(e) => Step(f.calls, f.handler, Failure(e))
    case Success(Some(mr)) => Step(f.calls, f.handler, Success(mr))
    case Success(None) =>
      var c := CreateMergeRequest(f.handler, be);
      Step(f.calls + c.calls, c.handler, c.result)
  }

  /** An `--assignee` option counts only when it is a non-empty string. */
  predicate HasPattern(assignee: Option<string>) {
    assignee.Some? && assignee.value != ""
  }

  /** `get_assignee`: no pattern means no assignee and no call; otherwise the
      active users are fetched and the pattern must pick out one of them. */
  function GetAssigneeStep(h: GitLabHandler, assignee: Option<string>, be: Backend, unidecode: Transliteration): (s: Step<Option<User>>)
    ensures s.handler == h
    ensures !HasPattern(assignee) ==> s.calls == [] && s.result == Success(None)
    ensures HasPattern(assignee) ==> s.calls == [GetActiveUsers]
    ensures s.result.Success? && HasPattern(assignee) ==>
              be.activeUsers.Success? && s.result.value.Some? &&
              Resolve(unidecode, assignee.value, be.activeUsers.value) == Success(s.result.value.value)
    ensures s.result.Failure? && be.activeUsers.Success? ==>
              HasPattern(assignee) && Resolve(unidecode, assignee.value, be.activeUsers.value).Failure? &&
              s.result.error == Assignee(Resolve(unidecode, assignee.value, be.activeUsers.value).error)
    ensures HasPattern(assignee) && be.activeUsers.Failure? ==> s.result == Failure(Forge(be.activeUsers.error))
  {
    if !HasPattern(assignee) then Step([], h, Success(None))
    else match be.activeUsers
      case Failure(e) => Step([GetActiveUsers], h, Failure(Forge(e)))
      case Success(users) =>
        match Resolve(unidecode, assignee.value, users)
        case Failure(e) => Step([GetActiveUsers], h, Failure(Assignee(e)))
        case Success(user) => Step([GetActiveUsers], h, Success(Some(user)))
  }

  /** The keyword arguments of the update call: always the title, the target
      branch and the request to remove the source branch; the assignee's id
      when there is an assignee; nothing else. */
  function UpdateParams(title: Option<string>, targetBranch: string, assignee: Option<User>): (p: Params)
    ensures p.Keys == {"title", "target_branch", "remove_source_branch"} + (if assignee.Some? then {"assignee_id"} else {})
    ensures p["title"] == (if title.Some? then Text(title.value) else Nothing)
    ensures p["target_branch"] == Text(targetBranch)
    ensures p["remove_source_branch"] == Flag(true)
    ensures assignee.Some? ==> p["assignee_id"] == Number(assignee.value.id)
  {
    var params := map["title" := (if title.Some? then Text(title.value) else Nothing),
                       "target_branch" := Text(targetBranch),
                       "remove_source_branch" := Flag(true)];
    if assignee.Some? then params["assignee_id" := Number(assignee.value.id)] else params
  }

  /** What a forge reads from the update's keyword arguments. */
  datatype UpdateRequest = UpdateRequest(title: Option<string>, targetBranch: string, removeSourceBranch: bool, assigneeId: Option<int>)

  /** Reading the keyword arguments back: `None` when a required key is
      missing or holds a value of the wrong kind. */
  function ReadUpdateParams(p: Params): (r: Option<UpdateRequest>)
    ensures r.Some? ==> "title" in p && "target_branch" in p && "remove_source_branch" in p
    ensures r.Some? ==> (r.value.assigneeId.Some? <==> "assignee_id" in p)
  {
    if "title" !in p || "target_branch" !in p || "remove_source_branch" !in p then None
    else if !(p["title"].Text? || p["title"].Nothing?) || !p["target_branch"].Text? || !p["remove_source_branch"].Flag? then None
    else if "assignee_id" in p && !p["assignee_id"].Number? then None
    else
      var title := if p["title"].Text? then Some(p["title"].text) else None;
      var assigneeId := if "assignee_id" in p then Some(p["assignee_id"].number) else None;
      Some(UpdateRequest(title, p["target_branch"].text, p["remove_source_branch"].flag, assigneeId))
  }

  /** The update carries exactly the title, the target branch, the removal of
      the source branch and, when resolved, the assignee's id. */
  lemma UpdateParamsRoundTrip(title: Option<string>, targetBranch: string, assignee: Option<User>)
    ensures ReadUpdateParams(UpdateParams(title, targetBranch, assignee)) ==
            Some(UpdateRequest(title, targetBranch, true, if assignee.Some? then Some(assignee.value.id) else None))
  {
    var p := UpdateParams(title, targetBranch, assignee);
    assert "title" in p && "target_branch" in p && "remove_source_branch" in p;
    assert "assignee_id" in p <==> assignee.Some?;
  }

  /** `handle`: assignee first, then find-or-create, then exactly one update,
      then the optional accept. The run reports the merge request it worked on. */
  function Handle(h: GitLabHandler, args: Args, be: Backend, unidecode: Transliteration): (run: Run)
    ensures run.result.Success? ==> |run.calls| >= 2
    ensures run.result.Success? ==> (args.accept <==> run.calls[|run.calls| - 1] == Accept(run.result.value))
    ensures run.result.Success? ==>
              var u := run.calls[|run.calls| - (if args.accept then 2 else 1)];
              u.Update? && u.mr == run.result.value && be.update(u.mr, u.params) == Done
  {
    var a := GetAssigneeStep(h, args.assignee, be, unidecode);
    match a.result
    case Failure(e) => Run(a.calls, Failure(e))
    case Success(assignee) =>
      var e := EnsureMergeRequest(h, be);
      match e.result
      case Failure(err) => Run(a.calls + e.calls, Failure(err))
      case Success(mr) =>
        var title := HandleTitle(args.mrTitle, args.ready, args.wip, mr.title);
        var t := UpdateThenAccept(mr, UpdateParams(title, h.targetBranch, assignee), args.accept, be);
        Run(a.calls + e.calls + t.calls, t.result)
  }

  /** The end of `handle`: one update, then the accept when asked and when
      the update went through. */
  function UpdateThenAccept(mr: MergeRequest, params: Params, accept: bool, be: Backend): (run: Run)
    ensures run.calls == [Update(mr, params)] || run.calls == [Update(mr, params), Accept(mr)]
    ensures |run.calls| == 2 <==> accept && be.update(mr, params) == Done
    ensures run.result.Success? <==> be.update(mr, params) == Done && (accept ==> be.accept(mr) == Done)
    ensures run.result.Success? ==> run.result.value == mr
  {
    match be.update(mr, params)
    case Refused(err) => Run([Update(mr, params)], Failure(Forge(err)))
    case Done =>
      if !accept then Run([Update(mr, params)], Success(mr))
      else match be.accept(mr)
        case Refused(err) => Run([Update(mr, params), Accept(mr)], Failure(Forge(err)))
        case Done => Run([Update(mr, params), Accept(mr)], Success(mr))
  }

  /** A create call is only ever issued after a find call that the forge
      answered with "nothing open". */
  ghost predicate CreatesOnlyAfterEmptyFind(calls: seq<Call>, be: Backend) {
    forall i :: 0 <= i < |calls| && calls[i].Create? ==>
      exists j :: 0 <= j < i && calls[j].FindOpened? && be.findOpened(calls[j].projectId, calls[j].sourceBranch) == Success(None)
  }

  /** Once the forge reports an open merge request, nothing is created. */
  ghost predicate NoCreateAfterFound(calls: seq<Call>, be: Backend) {
    forall j :: 0 <= j < |calls| && calls[j].FindOpened? && be.findOpened(calls[j].projectId, calls[j].sourceBranch).Success? &&
                be.findOpened(calls[j].projectId, calls[j].sourceBranch).value.Some? ==>
      forall i :: 0 <= i < |calls| ==> !calls[i].Create?
  }

  /** The merge request is the one a find call returned or the one a create
      call returned. */
  ghost predicate ComesFromForge(mr: MergeRequest, calls: seq<Call>, be: Backend) {
    exists j :: 0 <= j < |calls| &&
      ((calls[j].FindOpened? && be.findOpened(calls[j].projectId, calls[j].sourceBranch) == Success(Some(mr))) ||
       (calls[j].Create? && be.create(calls[j].projectId, calls[j].sourceBranch, calls[j].title, calls[j].targetBranch) == Success(mr)))
  }

  /** `ensure_merge_request` only looks up the project id, finds, and creates
      from the source branch, titled after it, into the target branch. */
  lemma EnsureMergeRequestCallKinds(h: GitLabHandler, be: Backend)
    ensures var s := EnsureMergeRequest(h, be);
            forall i :: 0 <= i < |s.calls| ==>
              s.calls[i] == GetProjectId(h.projectName) ||
              (s.calls[i].FindOpened? && s.calls[i].sourceBranch == h.sourceBranch) ||
              s.calls[i] == Create(s.calls[i].projectId, h.sourceBranch, h.sourceBranch, h.targetBranch)
  {
    var f := FindMergeRequest(h, be);
    if f.result.Success? && f.result.value.None? {
      var c := CreateMergeRequest(f.handler, be);
      assert EnsureMergeRequest(h, be).calls == f.calls + c.calls;
    }
  }

  /** `ensure_merge_request` finds before it creates, each at most once. */
  lemma EnsureMergeRequestInStageOrder(h: GitLabHandler, be: Backend)
    ensures InStageOrder(EnsureMergeRequest(h, be).calls)
  {
    var f := FindMergeRequest(h, be);
    assert InStageOrder(f.calls);
    if f.result.Success? && f.result.value.None? {
      var c := CreateMergeRequest(f.handler, be);
      assert InStageOrder(c.calls);
      InStageOrderConcat(f.calls, c.calls);
      assert EnsureMergeRequest(h, be).calls == f.calls + c.calls;
    }
  }

  /** `ensure_merge_request` is a single find-or-create pass: it creates only
      when the find reported nothing open, and never after a successful find. */
  lemma EnsureMergeRequestCreatesOnlyWhenNoneOpen(h: GitLabHandler, be: Backend)
    ensures CreatesOnlyAfterEmptyFind(EnsureMergeRequest(h, be).calls, be)
    ensures NoCreateAfterFound(EnsureMergeRequest(h, be).calls, be)
  {
    var f := FindMergeRequest(h, be);
    var s := EnsureMergeRequest(h, be);
    if f.result.Success? && f.result.value.None? {
      var c := CreateMergeRequest(f.handler, be);
      assert s.calls == f.calls + c.calls;
      var k := |f.calls| - 1;
      assert s.calls[k] == f.calls[k];
      assert forall i :: 0 <= i < |s.calls| && s.calls[i].Create? ==> i > k;
      assert forall j :: 0 <= j < |s.calls| && s.calls[j].FindOpened? ==> j == k;
    }
  }

  /** The merge request `ensure_merge_request` returns is the forge's answer
      to its find or to its create. */
  lemma EnsureMergeRequestResult(h: GitLabHandler, be: Backend)
    ensures var s := EnsureMergeRequest(h, be);
            s.result.Success? ==> ComesFromForge(s.result.value, s.calls, be)
  {
    var f := FindMergeRequest(h, be);
    var s := EnsureMergeRequest(h, be);
    if f.result.Success? && f.result.value.None? {
      var c := CreateMergeRequest(f.handler, be);
      assert s.calls == f.calls + c.calls;
      if s.result.Success? {
        assert s.calls[|s.calls| - 1] == c.calls[|c.calls| - 1];
      }
    } else if f.result.Success? {
      assert s.calls[|s.calls| - 1].FindOpened?;
    }
  }

  /** With a non-zero project id, `ensure_merge_request` asks for it at most
      once, even on the create path. */
  lemma EnsureMergeRequestLooksUpProjectIdOnce(h: GitLabHandler, be: Backend)
    requires HasCachedProjectId(h) || (be.projectIdOf(h.projectName).Success? && be.projectIdOf(h.projectName).value != 0)
    ensures var calls := EnsureMergeRequest(h, be).calls;
            forall i, j :: 0 <= i < j < |calls| && calls[i].GetProjectId? ==> !calls[j].GetProjectId?
  {
    var f := FindMergeRequest(h, be);
    assert |f.calls| <= 2;
    if f.result.Success? && f.result.value.None? {
      var c := CreateMergeRequest(f.handler, be);
      assert HasCachedProjectId(f.handler);
      assert EnsureMergeRequest(h, be).calls == f.calls + c.calls;
    }
  }

  /** Ordered traces whose phases do not overlap stay ordered side by side. */
  lemma InStageOrderByPhase(a: seq<Call>, b: seq<Call>, k: nat)
    requires InStageOrder(a) && InStageOrder(b)
    requires forall i :: 0 <= i < |a| ==> Stage(a[i]) <= k
    requires forall j :: 0 <= j < |b| ==> Stage(b[j]) > k
    ensures InStageOrder(a + b)
  {
    InStageOrderConcat(a, b);
  }

  /** The calls `handle` makes after `ensure_merge_request`. */
  function UpdateCalls(h: GitLabHandler, args: Args, be: Backend, unidecode: Transliteration): seq<Call>
  {
    var a := GetAssigneeStep(h, args.assignee, be, unidecode);
    var e := EnsureMergeRequest(h, be);
    if a.result.Failure? || e.result.Failure? then []
    else
      var mr := e.result.value;
      UpdateThenAccept(mr, UpdateParams(HandleTitle(args.mrTitle, args.ready, args.wip, mr.title), h.targetBranch, a.result.value),
                       args.accept, be).calls
  }

  /** After `ensure_merge_request` come only the update and the accept. */
  lemma UpdateCallsKinds(h: GitLabHandler, args: Args, be: Backend, unidecode: Transliteration)
    ensures var t := UpdateCalls(h, args, be, unidecode);
            |t| <= 2 && forall i :: 0 <= i < |t| ==> (i == 0 && t[i].Update?) || (i == 1 && t[i].Accept?)
    ensures var t := UpdateCalls(h, args, be, unidecode);
            |t| == 2 ==> args.accept && t[0] == Update(t[1].mr, t[0].params) && be.update(t[1].mr, t[0].params) == Done
  {
  }

  /** The trace of `handle` in three parts: assignee lookup, find-or-create,
      update and accept. */
  lemma HandleShape(h: GitLabHandler, args: Args, be: Backend, unidecode: Transliteration)
    ensures var a := GetAssigneeStep(h, args.assignee, be, unidecode);
            Handle(h, args, be, unidecode).calls ==
              if a.result.Failure? then a.calls else a.calls + EnsureMergeRequest(h, be).calls + UpdateCalls(h, args, be, unidecode)
  {
  }

  /** `handle` goes through the phases in order: the assignee lookup, the
      find-or-create, one update, the accept. */
  lemma HandleCallsInStageOrder(h: GitLabHandler, args: Args, be: Backend, unidecode: Transliteration)
    ensures InStageOrder(Handle(h, args, be, unidecode).calls)
  {
    HandleShape(h, args, be, unidecode);
    var a := GetAssigneeStep(h, args.assignee, be, unidecode);
    if a.result.Success? {
      var e := EnsureMergeRequest(h, be);
      var t := UpdateCalls(h, args, be, unidecode);
      EnsureMergeRequestCallKinds(h, be);
      EnsureMergeRequestInStageOrder(h, be);
      UpdateCallsKinds(h, args, be, unidecode);
      assert forall j :: 0 <= j < |e.calls| ==> 1 <= Stage(e.calls[j]) <= 2;
      ThreePhasesInStageOrder(a.calls, e.calls, t);
      assert Handle(h, args, be, unidecode).calls == a.calls + e.calls + t;
    }
  }

  /** A user lookup, then find-or-create calls in order, then an update and
      perhaps an accept, are in stage order as a whole. */
  lemma ThreePhasesInStageOrder(a: seq<Call>, e: seq<Call>, t: seq<Call>)
    requires a == [] || a == [GetActiveUsers]
    requires InStageOrder(e) && forall j :: 0 <= j < |e| ==> 1 <= Stage(e[j]) <= 2
    requires forall i :: 0 <= i < |t| ==> (i == 0 && t[i].Update?) || (i == 1 && t[i].Accept?)
    ensures InStageOrder(a + e + t)
  {
    InStageOrderByPhase(a, e, 0);
    assert forall j :: 0 <= j < |t| ==> Stage(t[j]) >= 3;
    InStageOrderByPhase(a + e, t, 2);
  }

  /** Once the assignee is resolved and the merge request found or created,
      `handle` sends exactly one update, to that merge request. */
  lemma HandleUpdatesOnce(h: GitLabHandler, args: Args, be: Backend, unidecode: Transliteration)
    requires GetAssigneeStep(h, args.assignee, be, unidecode).result.Success?
    requires EnsureMergeRequest(h, be).result.Success?
    ensures var calls := Handle(h, args, be, unidecode).calls;
            exists i :: 0 <= i < |calls| && calls[i].Update? && calls[i].mr == EnsureMergeRequest(h, be).result.value
    ensures var calls := Handle(h, args, be, unidecode).calls;
            forall i, j :: 0 <= i < |calls| && 0 <= j < |calls| && calls[i].Update? && calls[j].Update? ==> i == j
  {
    HandleShape(h, args, be, unidecode);
    HandleCallsInStageOrder(h, args, be, unidecode);
    var a := GetAssigneeStep(h, args.assignee, be, unidecode);
    var e := EnsureMergeRequest(h, be);
    var t := UpdateCalls(h, args, be, unidecode);
    var calls := Handle(h, args, be, unidecode).calls;
    assert t[0] == Update(e.result.value, t[0].params);
    UpdateAfter(a.calls + e.calls, t);
    assert calls == a.calls + e.calls + t;
    AtMostOneUpdate(calls);
  }

  /** An update that opens the tail of a trace is in the trace. */
  lemma UpdateAfter(front: seq<Call>, t: seq<Call>)
    requires |t| >= 1 && t[0].Update?
    ensures var calls := front + t;
            exists i :: 0 <= i < |calls| && calls[i].Update? && calls[i].mr == t[0].mr
  {
    assert (front + t)[|front|] == t[0];
  }

  /** A trace in stage order holds at most one update. */
  lemma AtMostOneUpdate(calls: seq<Call>)
    requires InStageOrder(calls)
    ensures forall i, j :: 0 <= i < |calls| && 0 <= j < |calls| && calls[i].Update? && calls[j].Update? ==> i == j
  {
  }

  /** An assignee pattern that does not single out one user stops the run
      after the user lookup: no merge request is looked up, created or
      changed. */
  lemma HandleStopsOnAssigneeError(h: GitLabHandler, args: Args, be: Backend, unidecode: Transliteration)
    requires HasPattern(args.assignee) && be.activeUsers.Success?
    requires Resolve(unidecode, args.assignee.value, be.activeUsers.value).Failure?
    ensures Handle(h, args, be, unidecode).calls == [GetActiveUsers]
    ensures Handle(h, args, be, unidecode).result == Failure(Assignee(Resolve(unidecode, args.assignee.value, be.activeUsers.value).error))
  {
  }

  /** Without an `--assignee` pattern the user list is never fetched and the
      update carries no assignee. */
  lemma HandleWithoutAssignee(h: GitLabHandler, args: Args, be: Backend, unidecode: Transliteration)
    requires !HasPattern(args.assignee)
    ensures var calls := Handle(h, args, be, unidecode).calls;
            forall i :: 0 <= i < |calls| ==> calls[i] != GetActiveUsers && (calls[i].Update? ==> "assignee_id" !in calls[i].params)
  {
    HandleShape(h, args, be, unidecode);
    var e := EnsureMergeRequest(h, be);
    EnsureMergeRequestCallKinds(h, be);
    var t := UpdateCalls(h, args, be, unidecode);
    UpdateCallsWithoutAssignee(h, args, be, unidecode);
    UnassignedWithoutLookup(e.calls, t);
    assert Handle(h, args, be, unidecode).calls == e.calls + t;
  }

  /** Without an assignee pattern the update names no assignee. */
  lemma UpdateCallsWithoutAssignee(h: GitLabHandler, args: Args, be: Backend, unidecode: Transliteration)
    requires !HasPattern(args.assignee)
    ensures var t := UpdateCalls(h, args, be, unidecode);
            forall i :: 0 <= i < |t| ==> t[i] != GetActiveUsers && (t[i].Update? ==> "assignee_id" !in t[i].params)
  {
  }

  /** A find-or-create trace followed by update calls without an assignee
      has no user lookup and no assignee. */
  lemma UnassignedWithoutLookup(e: seq<Call>, t: seq<Call>)
    requires forall i :: 0 <= i < |e| ==> e[i].GetProjectId? || e[i].FindOpened? || e[i].Create?
    requires forall i :: 0 <= i < |t| ==> t[i] != GetActiveUsers && (t[i].Update? ==> "assignee_id" !in t[i].params)
    ensures var calls := e + t;
            forall i :: 0 <= i < |calls| ==> calls[i] != GetActiveUsers && (calls[i].Update? ==> "assignee_id" !in calls[i].params)
  {
    var calls := e + t;
    assert forall i :: 0 <= i < |e| ==> calls[i] == e[i];
    assert forall i :: |e| <= i < |calls| ==> calls[i] == t[i - |e|];
  }

  /** Putting calls that neither find nor create around a trace keeps the
      find-or-create facts of that trace, and the branches its creates name. */
  lemma CreateFactsSurrounded(a: seq<Call>, e: seq<Call>, t: seq<Call>, be: Backend, source: string, target: string)
    requires forall i :: 0 <= i < |a| ==> !a[i].Create? && !a[i].FindOpened?
    requires forall i :: 0 <= i < |t| ==> !t[i].Create? && !t[i].FindOpened?
    requires CreatesOnlyAfterEmptyFind(e, be) && NoCreateAfterFound(e, be)
    requires forall i :: 0 <= i < |e| && e[i].Create? ==> e[i].sourceBranch == source && e[i].title == source && e[i].targetBranch == target
    ensures CreatesOnlyAfterEmptyFind(a + e + t, be) && NoCreateAfterFound(a + e + t, be)
    ensures var calls := a + e + t;
            forall i :: 0 <= i < |calls| && calls[i].Create? ==>
              calls[i].sourceBranch == source && calls[i].title == source && calls[i].targetBranch == target
  {
    var calls := a + e + t;
    var off := |a|;
    assert forall i :: 0 <= i < off ==> calls[i] == a[i];
    assert forall i :: off <= i < off + |e| ==> calls[i] == e[i - off];
    assert forall i :: off + |e| <= i < |calls| ==> calls[i] == t[i - off - |e|];
    forall i | 0 <= i < |calls| && calls[i].Create?
      ensures exists j :: 0 <= j < i && calls[j].FindOpened? && be.findOpened(calls[j].projectId, calls[j].sourceBranch) == Success(None)
    {
      var j :| 0 <= j < i - off && e[j].FindOpened? && be.findOpened(e[j].projectId, e[j].sourceBranch) == Success(None);
      assert calls[j + off] == e[j];
    }
    forall j | 0 <= j < |calls| && calls[j].FindOpened? && be.findOpened(calls[j].projectId, calls[j].sourceBranch).Success? &&
               be.findOpened(calls[j].projectId, calls[j].sourceBranch).value.Some?
      ensures forall i :: 0 <= i < |calls| ==> !calls[i].Create?
    {
    }
  }

  /** `handle` creates a merge request only after the forge reported none
      open for the branch, never after it found one, and always from the
      source branch, titled after it, into the target branch. */
  lemma HandleCreatesOnlyWhenNoneOpen(h: GitLabHandler, args: Args, be: Backend, unidecode: Transliteration)
    ensures CreatesOnlyAfterEmptyFind(Handle(h, args, be, unidecode).calls, be)
    ensures NoCreateAfterFound(Handle(h, args, be, unidecode).calls, be)
    ensures var calls := Handle(h, args, be, unidecode).calls;
            forall i :: 0 <= i < |calls| && calls[i].Create? ==>
              calls[i].sourceBranch == h.sourceBranch && calls[i].title == h.sourceBranch && calls[i].targetBranch == h.targetBranch
  {
    HandleShape(h, args, be, unidecode);
    var a := GetAssigneeStep(h, args.assignee, be, unidecode);
    var e := EnsureMergeRequest(h, be);
    var t := UpdateCalls(h, args, be, unidecode);
    EnsureMergeRequestCallKinds(h, be);
    EnsureMergeRequestCreatesOnlyWhenNoneOpen(h, be);
    UpdateCallsKinds(h, args, be, unidecode);
    CreateFactsSurrounded(a.calls, e.calls, t, be, h.sourceBranch, h.targetBranch);
    if a.result.Success? {
      assert Handle(h, args, be, unidecode).calls == a.calls + e.calls + t;
    }
  }

  /** A merge request that comes from the forge in some calls still does
      after more calls are put in front. */
  lemma ComesFromForgeAfterPrefix(mr: MergeRequest, a: seq<Call>, e: seq<Call>, be: Backend)
    requires ComesFromForge(mr, e, be)
    ensures ComesFromForge(mr, a + e, be)
  {
    var j :| 0 <= j < |e| &&
      ((e[j].FindOpened? && be.findOpened(e[j].projectId, e[j].sourceBranch) == Success(Some(mr))) ||
       (e[j].Create? && be.create(e[j].projectId, e[j].sourceBranch, e[j].title, e[j].targetBranch) == Success(mr)));
    assert (a + e)[|a| + j] == e[j];
  }

  /** An update that follows calls without updates, and is itself followed by
      none, is the only update of the trace, and it sees those calls before it. */
  lemma OnlyUpdateAt(front: seq<Call>, t: seq<Call>, i: int)
    requires forall k :: 0 <= k < |front| ==> !front[k].Update?
    requires forall k :: 0 <= k < |t| ==> (k == 0 && t[k].Update?) || (k == 1 && t[k].Accept?)
    requires 0 <= i < |front + t| && (front + t)[i].Update?
    ensures i == |front| && (front + t)[i] == t[0] && (front + t)[..i] == front
  {
    var calls := front + t;
    if i >= |front| {
      assert calls[i] == t[i - |front|];
    }
  }

  /** The update `handle` sends is about the merge request it found or
      created, and carries the title `handle_title` chose, the target branch
      and the resolved assignee. */
  lemma HandleUpdateContents(h: GitLabHandler, args: Args, be: Backend, unidecode: Transliteration)
    ensures var calls := Handle(h, args, be, unidecode).calls;
            forall i :: 0 <= i < |calls| && calls[i].Update? ==>
              ComesFromForge(calls[i].mr, calls[..i], be) &&
              GetAssigneeStep(h, args.assignee, be, unidecode).result.Success? &&
              calls[i].params == UpdateParams(HandleTitle(args.mrTitle, args.ready, args.wip, calls[i].mr.title), h.targetBranch,
                                              GetAssigneeStep(h, args.assignee, be, unidecode).result.value)
  {
    HandleShape(h, args, be, unidecode);
    var a := GetAssigneeStep(h, args.assignee, be, unidecode);
    var calls := Handle(h, args, be, unidecode).calls;
    if a.result.Failure? {
      assert forall i :: 0 <= i < |calls| ==> !calls[i].Update?;
    } else {
      var e := EnsureMergeRequest(h, be);
      var t := UpdateCalls(h, args, be, unidecode);
      EnsureMergeRequestCallKinds(h, be);
      UpdateCallsKinds(h, args, be, unidecode);
      EnsureMergeRequestResult(h, be);
      var front := a.calls + e.calls;
      assert forall k :: 0 <= k < |front| ==> !front[k].Update?;
      assert calls == front + t;
      forall i | 0 <= i < |calls| && calls[i].Update?
        ensures ComesFromForge(calls[i].mr, calls[..i], be)
        ensures calls[i].params == UpdateParams(HandleTitle(args.mrTitle, args.ready, args.wip, calls[i].mr.title), h.targetBranch, a.result.value)
      {
        OnlyUpdateAt(front, t, i);
        ComesFromForgeAfterPrefix(e.result.value, a.calls, e.calls, be);
      }
    }
  }

  /** After calls without accepts, an update followed at most by an accept of
      the same merge request puts the accept last, right after that update. */
  lemma AcceptOnlyAtEnd(front: seq<Call>, t: seq<Call>, accept: bool, be: Backend)
    requires forall i :: 0 <= i < |front| ==> !front[i].Accept?
    requires |t| <= 2 && forall i :: 0 <= i < |t| ==> (i == 0 && t[i].Update?) || (i == 1 && t[i].Accept?)
    requires |t| == 2 ==> accept && t[0] == Update(t[1].mr, t[0].params) && be.update(t[1].mr, t[0].params) == Done
    ensures var calls := front + t;
            forall i :: 0 <= i < |calls| && calls[i].Accept? ==>
              accept && i == |calls| - 1 && i >= 1 && calls[i - 1] == Update(calls[i].mr, calls[i - 1].params) &&
              be.update(calls[i].mr, calls[i - 1].params) == Done
  {
    var calls := front + t;
    assert forall i :: 0 <= i < |front| ==> calls[i] == front[i];
    forall i | 0 <= i < |calls| && calls[i].Accept?
      ensures accept && i == |calls| - 1 && i >= 1 && calls[i - 1] == Update(calls[i].mr, calls[i - 1].params) &&
              be.update(calls[i].mr, calls[i - 1].params) == Done
    {
      assert calls[i] == t[i - |front|] && calls[i - 1] == t[i - |front| - 1];
    }
  }

  /** A merge request is accepted only when `--accept` was given, as the last
      call, right after an update of the same merge request that went
      through. */
  lemma HandleAcceptsLast(h: GitLabHandler, args: Args, be: Backend, unidecode: Transliteration)
    ensures var calls := Handle(h, args, be, unidecode).calls;
            forall i :: 0 <= i < |calls| && calls[i].Accept? ==>
              args.accept && i == |calls| - 1 && i >= 1 && calls[i - 1] == Update(calls[i].mr, calls[i - 1].params) &&
              be.update(calls[i].mr, calls[i - 1].params) == Done
  {
    HandleShape(h, args, be, unidecode);
    var a := GetAssigneeStep(h, args.assignee, be, unidecode);
    var e := EnsureMergeRequest(h, be);
    var t := UpdateCalls(h, args, be, unidecode);
    EnsureMergeRequestCallKinds(h, be);
    UpdateCallsKinds(h, args, be, unidecode);
    if a.result.Failure? {
      assert forall i :: 0 <= i < |a.calls| ==> !a.calls[i].Accept?;
    } else {
      var front := a.calls + e.calls;
      assert forall i :: 0 <= i < |front| ==> !front[i].Accept?;
      AcceptOnlyAtEnd(front, t, args.accept, be);
      assert Handle(h, args, be, unidecode).calls == front + t;
    }
  }

  /** With a non-zero project id the forge is asked for it at most once per
      run: the first answer is memoised. */
  lemma HandleLooksUpProjectIdOnce(h: GitLabHandler, args: Args, be: Backend, unidecode: Transliteration)
    requires HasCachedProjectId(h) || (be.projectIdOf(h.projectName).Success? && be.projectIdOf(h.projectName).value != 0)
    ensures var calls := Handle(h, args, be, unidecode).calls;
            forall i, j :: 0 <= i < j < |calls| && calls[i].GetProjectId? ==> !calls[j].GetProjectId?
  {
    HandleShape(h, args, be, unidecode);
    var a := GetAssigneeStep(h, args.assignee, be, unidecode);
    if a.result.Success? {
      var e := EnsureMergeRequest(h, be);
      var t := UpdateCalls(h, args, be, unidecode);
      EnsureMergeRequestLooksUpProjectIdOnce(h, be);
      UpdateCallsKinds(h, args, be, unidecode);
      LookupOnceSurrounded(a.calls, e.calls, t);
      assert Handle(h, args, be, unidecode).calls == a.calls + e.calls + t;
    }
  }

  /** Putting calls without project-id lookups around a trace that looks the
      id up at most once keeps it at most once. */
  lemma LookupOnceSurrounded(a: seq<Call>, e: seq<Call>, t: seq<Call>)
    requires a == [] || a == [GetActiveUsers]
    requires forall i :: 0 <= i < |t| ==> (i == 0 && t[i].Update?) || (i == 1 && t[i].Accept?)
    requires forall i, j :: 0 <= i < j < |e| && e[i].GetProjectId? ==> !e[j].GetProjectId?
    ensures var calls := a + e + t;
            forall i, j :: 0 <= i < j < |calls| && calls[i].GetProjectId? ==> !calls[j].GetProjectId?
  {
    var calls := a + e + t;
    var off := |a|;
    assert forall i :: 0 <= i < off ==> calls[i] == a[i];
    assert forall i :: off <= i < off + |e| ==> calls[i] == e[i - off];
    assert forall i :: off + |e| <= i < |calls| ==> calls[i] == t[i - off - |e|];
  }

  /** The id a handler settles on is kept: asking again after a successful
      lookup gives the same answer, even for an id of 0 that is fetched anew. */
  lemma ProjectIdIsStable(h: GitLabHandler, be: Backend)
    requires ProjectId(h, be).result.Success?
    ensures ProjectId(ProjectId(h, be).handler, be).result == ProjectId(h, be).result
  {
    var p := ProjectId(h, be);
    if !HasCachedProjectId(p.handler) {
      assert p.handler.projectName == h.projectName;
    }
  }

  /** Every find and every create of `ensure_merge_request` is addressed to
      the project the handler's id names; when that id cannot be had, nothing
      is found or created. */
  lemma EnsureMergeRequestAddressesProject(h: GitLabHandler, be: Backend)
    ensures var p := ProjectId(h, be);
            var calls := EnsureMergeRequest(h, be).calls;
            forall i :: 0 <= i < |calls| && (calls[i].FindOpened? || calls[i].Create?) ==>
              p.result.Success? && calls[i].projectId == p.result.value
  {
    var p := ProjectId(h, be);
    var f := FindMergeRequest(h, be);
    if f.result.Success? && f.result.value.None? {
      ProjectIdIsStable(h, be);
      var c := CreateMergeRequest(f.handler, be);
      var p2 := ProjectId(f.handler, be);
      assert c.calls == p2.calls + [Create(p.result.value, h.sourceBranch, h.sourceBranch, h.targetBranch)];
      AddressedTo(p.calls + [FindOpened(p.result.value, h.sourceBranch)], p2.calls + [Create(p.result.value, h.sourceBranch, h.sourceBranch, h.targetBranch)], p.result.value);
    }
  }

  /** Two traces whose finds and creates all name project `id` make one. */
  lemma AddressedTo(x: seq<Call>, y: seq<Call>, id: int)
    requires forall i :: 0 <= i < |x| && (x[i].FindOpened? || x[i].Create?) ==> x[i].projectId == id
    requires forall i :: 0 <= i < |y| && (y[i].FindOpened? || y[i].Create?) ==> y[i].projectId == id
    ensures var calls := x + y;
            forall i :: 0 <= i < |calls| && (calls[i].FindOpened? || calls[i].Create?) ==> calls[i].projectId == id
  {
    var calls := x + y;
    assert forall i :: 0 <= i < |x| ==> calls[i] == x[i];
    assert forall i :: |x| <= i < |calls| ==> calls[i] == y[i - |x|];
  }

  /** Every find and every create of a run is addressed to the project the
      handler's id names, the cached one or the forge's answer for the
      project's name; when that id cannot be had, nothing is found or
      created. */
  lemma HandleAddressesProject(h: GitLabHandler, args: Args, be: Backend, unidecode: Transliteration)
    ensures var p := ProjectId(h, be);
            var calls := Handle(h, args, be, unidecode).calls;
            forall i :: 0 <= i < |calls| && (calls[i].FindOpened? || calls[i].Create?) ==>
              p.result.Success? && calls[i].projectId == p.result.value
  {
    HandleShape(h, args, be, unidecode);
    var a := GetAssigneeStep(h, args.assignee, be, unidecode);
    if a.result.Success? {
      var e := EnsureMergeRequest(h, be);
      var t := UpdateCalls(h, args, be, unidecode);
      EnsureMergeRequestAddressesProject(h, be);
      UpdateCallsKinds(h, args, be, unidecode);
      FindsAndCreatesSurrounded(a.calls, e.calls, t);
      assert Handle(h, args, be, unidecode).calls == a.calls + e.calls + t;
    }
  }

  /** Calls that neither find nor create, put around a trace, add no find or
      create to it. */
  lemma FindsAndCreatesSurrounded(a: seq<Call>, e: seq<Call>, t: seq<Call>)
    requires a == [] || a == [GetActiveUsers]
    requires forall i :: 0 <= i < |t| ==> (i == 0 && t[i].Update?) || (i == 1 && t[i].Accept?)
    ensures var calls := a + e + t;
            forall i :: 0 <= i < |calls| && (calls[i].FindOpened? || calls[i].Create?) ==>
              exists j :: 0 <= j < |e| && e[j] == calls[i]
  {
    var calls := a + e + t;
    var off := |a|;
    assert forall i :: 0 <= i < off ==> calls[i] == a[i];
    assert forall i :: off <= i < off + |e| ==> calls[i] == e[i - off];
    assert forall i :: off + |e| <= i < |calls| ==> calls[i] == t[i - off - |e|];
  }

  /** The error the forge answers call `c` with, or `None` when it answers
      it without one. */
  function Refusal(be: Backend, c: Call): Option<ForgeError> {
    match c
    case GetActiveUsers => if be.activeUsers.Failure? then Some(be.activeUsers.error) else None
    case GetProjectId(name) => if be.projectIdOf(name).Failure? then Some(be.projectIdOf(name).error) else None
    case FindOpened(id, source) => if be.findOpened(id, source).Failure? then Some(be.findOpened(id, source).error) else None
    case Create(id, source, title, target) =>
      if be.create(id, source, title, target).Failure? then Some(be.create(id, source, title, target).error) else None
    case Update(mr, params) => if be.update(mr, params).Refused? then Some(be.update(mr, params).error) else None
    case Accept(mr) => if be.accept(mr).Refused? then Some(be.accept(mr).error) else None
  }

  /** The forge error an outcome carries, if any. */
  function ForgeFailure<T>(r: Result<T, Error>): Option<ForgeError> {
    if r.Failure? && r.error.Forge? then Some(r.error.forgeError) else None
  }

  /** The forge answered every call but possibly the last; the last was
      refused exactly when `refusal` names an error, and with that error. */
  ghost predicate StopsAtRefusal(calls: seq<Call>, be: Backend, refusal: Option<ForgeError>) {
    (forall i :: 0 <= i < |calls| - 1 ==> Refusal(be, calls[i]).None?) &&
    (refusal.None? ==> forall i :: 0 <= i < |calls| ==> Refusal(be, calls[i]).None?) &&
    (refusal.Some? ==> |calls| > 0 && Refusal(be, calls[|calls| - 1]) == refusal)
  }

  /** A trace the forge answered in full, followed by one that stops at a
      refusal, stops at that refusal. */
  lemma StopsAtRefusalConcat(x: seq<Call>, y: seq<Call>, be: Backend, refusal: Option<ForgeError>)
    requires StopsAtRefusal(x, be, None) && StopsAtRefusal(y, be, refusal)
    ensures StopsAtRefusal(x + y, be, refusal)
  {
    var calls := x + y;
    assert forall i :: 0 <= i < |x| ==> calls[i] == x[i];
    assert forall i :: |x| <= i < |calls| ==> calls[i] == y[i - |x|];
  }

  /** The project-id lookup either costs no call or stops at its refusal. */
  lemma ProjectIdStopsAtRefusal(h: GitLabHandler, be: Backend)
    ensures var p := ProjectId(h, be);
            StopsAtRefusal(p.calls, be, ForgeFailure(p.result))
  {
  }

  /** `find_merge_request` stops at the first refused call, with its error. */
  lemma FindStopsAtRefusal(h: GitLabHandler, be: Backend)
    ensures var f := FindMergeRequest(h, be);
            StopsAtRefusal(f.calls, be, ForgeFailure(f.result))
  {
    var p := ProjectId(h, be);
    ProjectIdStopsAtRefusal(h, be);
    if p.result.Success? {
      var f := FindMergeRequest(h, be);
      StopsAtRefusalConcat(p.calls, [FindOpened(p.result.value, h.sourceBranch)], be, ForgeFailure(f.result));
    }
  }

  /** `create_merge_request` stops at the first refused call, with its error. */
  lemma CreateStopsAtRefusal(h: GitLabHandler, be: Backend)
    ensures var c := CreateMergeRequest(h, be);
            StopsAtRefusal(c.calls, be, ForgeFailure(c.result))
  {
    var p := ProjectId(h, be);
    ProjectIdStopsAtRefusal(h, be);
    if p.result.Success? {
      var c := CreateMergeRequest(h, be);
      StopsAtRefusalConcat(p.calls, [Create(p.result.value, h.sourceBranch, h.sourceBranch, h.targetBranch)], be, ForgeFailure(c.result));
    }
  }

  /** `ensure_merge_request` stops at the first refused call, and fails only
      on the forge. */
  lemma EnsureMergeRequestStopsAtRefusal(h: GitLabHandler, be: Backend)
    ensures var e := EnsureMergeRequest(h, be);
            StopsAtRefusal(e.calls, be, ForgeFailure(e.result)) && (e.result.Failure? ==> e.result.error.Forge?)
  {
    var f := FindMergeRequest(h, be);
    FindStopsAtRefusal(h, be);
    if f.result.Success? && f.result.value.None? {
      var c := CreateMergeRequest(f.handler, be);
      CreateStopsAtRefusal(f.handler, be);
      StopsAtRefusalConcat(f.calls, c.calls, be, ForgeFailure(c.result));
    }
  }

  /** Looking up the assignee stops at a refused user fetch; an unresolved
      pattern is not a refusal. */
  lemma AssigneeStopsAtRefusal(h: GitLabHandler, assignee: Option<string>, be: Backend, unidecode: Transliteration)
    ensures var a := GetAssigneeStep(h, assignee, be, unidecode);
            StopsAtRefusal(a.calls, be, ForgeFailure(a.result))
  {
  }

  /** The update and the accept stop at the first refusal, and fail only
      with it. */
  lemma UpdateThenAcceptStopsAtRefusal(mr: MergeRequest, params: Params, accept: bool, be: Backend)
    ensures var t := UpdateThenAccept(mr, params, accept, be);
            StopsAtRefusal(t.calls, be, ForgeFailure(t.result)) && (t.result.Failure? ==> t.result.error.Forge?)
  {
  }

  /** A run stops at the first call the forge refuses and fails with that
      call's error, unmodified: every earlier call was answered, a run that
      fails on the forge ends with the refused call, and a run the forge
      answered throughout either succeeds or fails on the assignee. */
  lemma HandleStopsAtRefusal(h: GitLabHandler, args: Args, be: Backend, unidecode: Transliteration)
    ensures var run := Handle(h, args, be, unidecode);
            forall i :: 0 <= i < |run.calls| - 1 ==> Refusal(be, run.calls[i]).None?
    ensures var run := Handle(h, args, be, unidecode);
            run.result.Failure? && run.result.error.Forge? ==>
              |run.calls| > 0 && Refusal(be, run.calls[|run.calls| - 1]) == Some(run.result.error.forgeError)
    ensures var run := Handle(h, args, be, unidecode);
            (forall i :: 0 <= i < |run.calls| ==> Refusal(be, run.calls[i]).None?) ==>
              run.result.Success? || run.result.error.Assignee?
    ensures var run := Handle(h, args, be, unidecode);
            (forall i :: 0 <= i < |run.calls| ==> Refusal(be, run.calls[i]).None?) &&
            (HasPattern(args.assignee) && be.activeUsers.Success? ==> Resolve(unidecode, args.assignee.value, be.activeUsers.value).Success?) ==>
              run.result.Success?
  {
    var run := Handle(h, args, be, unidecode);
    var a := GetAssigneeStep(h, args.assignee, be, unidecode);
    AssigneeStopsAtRefusal(h, args.assignee, be, unidecode);
    if a.result.Success? {
      var e := EnsureMergeRequest(h, be);
      EnsureMergeRequestStopsAtRefusal(h, be);
      if e.result.Success? {
        var mr := e.result.value;
        var t := UpdateThenAccept(mr, UpdateParams(HandleTitle(args.mrTitle, args.ready, args.wip, mr.title), h.targetBranch, a.result.value),
                                  args.accept, be);
        UpdateThenAcceptStopsAtRefusal(mr, UpdateParams(HandleTitle(args.mrTitle, args.ready, args.wip, mr.title), h.targetBranch, a.result.value),
                                       args.accept, be);
        StopsAtRefusalConcat(a.calls, e.calls, be, None);
        StopsAtRefusalConcat(a.calls + e.calls, t.calls, be, ForgeFailure(t.result));
        assert run == Run(a.calls + e.calls + t.calls, t.result);
      } else {
        StopsAtRefusalConcat(a.calls, e.calls, be, ForgeFailure(e.result));
        assert run == Run(a.calls + e.calls, e.result);
      }
    }
  }

  /** A project whose id is 0 is looked up a second time before the create,
      because the memo treats 0 as "not cached". */
  lemma ZeroProjectIdIsLookedUpTwice(h: GitLabHandler, args: Args, be: Backend, unidecode: Transliteration, mr: MergeRequest)
    requires h.cachedProjectId == None && !HasPattern(args.assignee)
    requires be.projectIdOf(h.projectName) == Success(0)
    requires be.findOpened(0, h.sourceBranch) == Success(None)
    requires be.create(0, h.sourceBranch, h.sourceBranch, h.targetBranch) == Success(mr)
    ensures Handle(h, args, be, unidecode).calls[..4] ==
            [GetProjectId(h.projectName), FindOpened(0, h.sourceBranch), GetProjectId(h.projectName),
             Create(0, h.sourceBranch, h.sourceBranch, h.targetBranch)]
  {
    var e := EnsureMergeRequest(h, be);
    assert e.calls == [GetProjectId(h.projectName), FindOpened(0, h.sourceBranch), GetProjectId(h.projectName),
                       Create(0, h.sourceBranch, h.sourceBranch, h.targetBranch)];
    var params := UpdateParams(HandleTitle(args.mrTitle, args.ready, args.wip, mr.title), h.targetBranch, None);
    var t := UpdateThenAccept(mr, params, args.accept, be);
    assert Handle(h, args, be, unidecode).calls == e.calls + t.calls;
  }

  /** With no merge request open for the branch, a fresh run creates exactly
      one, titled after the source branch, updates it once and reports it. */
  lemma NewMergeRequestRun(h: GitLabHandler, args: Args, be: Backend, unidecode: Transliteration, id: int, mr: MergeRequest)
    requires h.cachedProjectId == None && !HasPattern(args.assignee) && !args.accept
    requires be.projectIdOf(h.projectName) == Success(id) && id != 0
    requires be.findOpened(id, h.sourceBranch) == Success(None)
    requires be.create(id, h.sourceBranch, h.sourceBranch, h.targetBranch) == Success(mr)
    requires be.update(mr, UpdateParams(HandleTitle(args.mrTitle, args.ready, args.wip, mr.title), h.targetBranch, None)) == Done
    ensures Handle(h, args, be, unidecode) ==
            Run([GetProjectId(h.projectName), FindOpened(id, h.sourceBranch), Create(id, h.sourceBranch, h.sourceBranch, h.targetBranch),
                 Update(mr, UpdateParams(HandleTitle(args.mrTitle, args.ready, args.wip, mr.title), h.targetBranch, None))],
                Success(mr))
  {
    var e := EnsureMergeRequest(h, be);
    assert e.calls == [GetProjectId(h.projectName), FindOpened(id, h.sourceBranch), Create(id, h.sourceBranch, h.sourceBranch, h.targetBranch)];
  }

  /** `--ready` on an open merge request titled "WIP: add feature" sends the
      title "add feature". */
  lemma ReadyRunExample(h: GitLabHandler, args: Args, be: Backend, unidecode: Transliteration, id: int, mr: MergeRequest)
    requires HasCachedProjectId(h) && h.cachedProjectId == Some(id) && !HasPattern(args.assignee)
    requires args.mrTitle == None && args.ready
    requires mr.title == "WIP: add feature"
    requires be.findOpened(id, h.sourceBranch) == Success(Some(mr))
    ensures var calls := Handle(h, args, be, unidecode).calls;
            |calls| >= 2 && calls[1].Update? && calls[1].params["title"] == Text("add feature")
  {
    ReadyStripsMarkerExample();
    var e := EnsureMergeRequest(h, be);
    assert e.calls == [FindOpened(id, h.sourceBranch)];
    var params := UpdateParams(Some("add feature"), h.targetBranch, None);
    var t := UpdateThenAccept(mr, params, args.accept, be);
    assert Handle(h, args, be, unidecode).calls == e.calls + t.calls;
  }

  /** The GitHub path of `tsrc push` stops before any forge call. Its
      handler's methods all do nothing, `handle` passes the options to a
      `get_assignee` that takes none, and `main` reaches `tsrc.github`
      without importing it; whichever stops it first, no API call is made. */
  function HandleGitHub(): (run: Run)
    ensures run.calls == [] && run.result.Failure?
  {
    Run([], Failure(GitHubUnsupported))
  }

  /** The handler `tsrc push` runs for a remote URL: the GitHub one when the
      URL mentions "github", the GitLab one otherwise. */
  function HandleForUrl(url: string, h: GitLabHandler, args: Args, be: Backend, unidecode: Transliteration): (run: Run)
    ensures IsSubstring("github", url) ==> run.calls == [] && run.result == Failure(GitHubUnsupported)
    ensures !IsSubstring("github", url) ==> run == Handle(h, args, be, unidecode)
  {
    match GetService(url)
    case GitHub => HandleGitHub()
    case GitLab => Handle(h, args, be, unidecode)
  }
}
