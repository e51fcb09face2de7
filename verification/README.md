# tsrc push, modelled in Dafny

`tsrc push` pushes the current branch to `origin`. Then it makes sure a merge
request exists for that branch on the forge, and updates it. This project
models the decision logic of that command:

- **Titles** (`titles.dfy`). The `WIP: ` marker is added by `wipify` and
  removed by `unwipify`. `handle_title` picks the title sent with the update.
- **Remote** (`remote.dfy`). `project_name_from_url` reads the
  `namespace/name` off the remote URL, and `get_service` picks the forge.
  `git_push` builds the argument list for git.
- **Assignees** (`assignees.dfy`). `get_assignee` matches the `--assignee`
  fragment against the active users, ignoring accents and case. The fragment
  must single out exactly one user.
- **Handler** (`handler.dfy`). `MRHandler.handle` runs the sequence: resolve
  the assignee, find or create the merge request, update it once, and accept
  it if asked. `GitLabMRHandler` supplies the memoised `project_id` and the
  create and update parameters.
- **Strings** (`strings.dfy`). The small part of Python's `str` the command
  uses: `startswith`, `endswith`, `in`, `join`, `lower`. It also holds the
  Option/Result wrappers that stand for `None` returns and raised errors.

The forge is an oracle, `Handler.Backend`: each API call is answered by a
function of its arguments. A run of `handle` returns the trace of calls it
issued, in order, together with its outcome. The ordering properties are
stated over that trace. A stage order (`Handler.InStageOrder`) says the calls
go assignee lookup, then find, then create, then update, then accept. Within
the find stage only the project-id lookups may repeat.

Python truthiness is written out:

- An empty `--title` falls through to the other options (`Titles.HasExplicitTitle`).
- An empty `--assignee` means no assignee (`Handler.HasPattern`).
- A cached project id of `0` counts as absent, so it is looked up again
  (`Handler.HasCachedProjectId`).

The model follows the code wherever it departs from what the names of its
functions suggest:

- `wipify`, `unwipify` and `handle_title` return `None` when they do not
  apply; they do not pass the title through.
  - `--ready` on a title without the marker therefore sends no title.
  - With none of the title options given, no title is sent.
- `unwipify` removes one marker only. A title carrying the marker twice comes
  out of `unwipify` still marked, so `wipify` declines it and the round trip
  does not return it.
- The GitHub path never reaches the forge (`Handler.HandleGitHub`). Its
  handler's methods all do nothing. `handle` calls `get_assignee(args)`,
  but the GitHub version takes no argument. `main` also uses `tsrc.github`,
  which the module does not import. The model only states the shared
  outcome: a failure with no API call.

## Model

| member | source | states |
|---|---|---|
| Titles.Wipify | tsrc/cli/push.py:59-61 | the result is present exactly when the title lacks the marker, and is then the marker followed by the title |
| Titles.Unwipify | tsrc/cli/push.py:64-66 | the result is present exactly when the title starts with the marker, and the marker followed by the result is the title |
| Titles.UnwipifyAfterWipify | tsrc/cli/push.py:59-66 | a title without the marker survives marking then unmarking |
| Titles.WipifyAfterUnwipify | tsrc/cli/push.py:59-66 | a singly-marked title survives unmarking then marking; a doubly-marked one is declined by the second step |
| Titles.WipifyIsNotRepeated | tsrc/cli/push.py:59-66 | a marked result is never marked again; an unmarked title can always be marked |
| Titles.HandleTitle | tsrc/cli/push.py:100-110 | a non-empty explicit title wins; otherwise `--ready` strips the marker, then `--wip` adds it, each giving nothing when it does not apply; with none of them, nothing |
| Titles.HandleTitleOrigins | tsrc/cli/push.py:100-110 | any title produced is the explicit one or the current title with the marker added or removed, the latter only under `--ready` or `--wip` |
| Titles.ReadyStripsMarkerExample | tsrc/cli/push.py:100-110 | `--ready` on "WIP: add feature" gives "add feature", even with an empty `--title` |
| Strings.Contains | tsrc/cli/push.py:170 | the test is true exactly when some window of the string equals the fragment |
| Strings.Lower | tsrc/cli/push.py:161 | each character is replaced by its lower-case form, so the length is kept and no capital letter is left |
| Strings.Join | tsrc/cli/push.py:180 | every part appears in the joined text |
| Strings.LowerIgnoresCase | tsrc/cli/push.py:159-162 | lower-cased strings are equal exactly when the strings differ only in letter case |
| Remote.SplitUrl | tsrc/cli/push.py:50 | the split gives at least one piece, and no piece holds a colon or slash |
| Remote.SplitWithoutDelimiter | tsrc/cli/push.py:50 | a string without colon or slash is one piece |
| Remote.SplitAtDelimiter | tsrc/cli/push.py:50 | splitting at a delimiter gives the pieces of both sides side by side |
| Remote.LastTwo | tsrc/cli/push.py:52 | the last two pieces, or the only one |
| Remote.TrimGitSuffix | tsrc/cli/push.py:54-55 | exactly one trailing `.git` is removed when present; otherwise the text is unchanged |
| Remote.ProjectNameFromUrl | tsrc/cli/push.py:42-56 | the name holds no colon and at most one slash |
| Remote.ProjectNameOfRemote | tsrc/cli/push.py:42-56 | any URL ending in a delimiter, `group`, a delimiter, `project` (each delimiter `:` or `/`) gives `group/project` with one `.git` removed |
| Remote.ProjectNameOfTwoPieces | tsrc/cli/push.py:42-56 | a URL with a single delimiter, `group` then `project`, gives `group/project` with one `.git` removed, so `host:repo.git` gives `host/repo` |
| Remote.NameOfLastTwoPieces | tsrc/cli/push.py:50-56 | when the split ends in `group` and `project`, the name is `group/project` with one `.git` removed |
| Remote.GitSuffixOfProject | tsrc/cli/push.py:52-55 | the joined name ends in `.git` exactly when its last piece does |
| Remote.ScpRemoteExample | tsrc/cli/push.py:44-45 | `git@example.com:foo/bar.git` gives `foo/bar` |
| Remote.SshRemoteExample | tsrc/cli/push.py:46-47 | `ssh://git@example.com:8022/foo/bar.git` gives `foo/bar` |
| Remote.ProjectNameWithoutDelimiter | tsrc/cli/push.py:42-56 | a URL without delimiters comes back unchanged apart from one `.git`, and of `.git.git` only one is removed |
| Remote.GetService | tsrc/cli/push.py:35-39 | GitHub exactly when "github" occurs in the URL, GitLab exactly when it does not |
| Remote.GitPushArgs | tsrc/cli/push.py:238-243 | `push -u origin branch:branch`, with `--force` appended exactly when forced |
| Remote.PushTargetsSameBranch | tsrc/cli/push.py:240 | as git reads a refspec (split at the first colon, which is git's rule and not code of the command), the pushed refspec names a colon-free branch on both sides |
| Assignees.Sanitize | tsrc/cli/push.py:159-162 | the sanitized text is the transliteration up to letter case, with no capital letter left |
| Assignees.Matches | tsrc/cli/push.py:170 | a user matches exactly when the sanitized pattern occurs in the sanitized name |
| Assignees.Matching | tsrc/cli/push.py:168-171 | every match is a listed user whose sanitized name contains the sanitized pattern |
| Assignees.MatchingMembers | tsrc/cli/push.py:169-171 | a user is among the matches exactly when it is listed and matches |
| Assignees.MatchingConcat | tsrc/cli/push.py:168-171 | matches keep list order: the matches of a concatenation are the matches of its parts, in order |
| Assignees.MatchingIgnoresCase | tsrc/cli/push.py:159-167 | two patterns whose transliterations differ only in case select the same users |
| Assignees.Names | tsrc/cli/push.py:165 | one name per user, in list order |
| Assignees.Resolve | tsrc/cli/push.py:172-183 | success exactly when one user matches; "not found" exactly when none does, carrying the pattern and all names; otherwise "several", carrying the matched names in list order |
| Assignees.ResolvedUserIsUnique | tsrc/cli/push.py:177-183 | a resolved user is the only matching entry of the list |
| Assignees.TwoMatchesAreSeveral | tsrc/cli/push.py:177-180 | two matching entries make at least two matches |
| Assignees.GetAssignee | tsrc/cli/push.py:152-183 | the loop over users and sanitized names decides as the declarative resolution does |
| Assignees.AccentedNameExample | tsrc/cli/push.py:159-170 | "jose" picks out "José García" once accents are folded |
| Assignees.AmbiguousExample | tsrc/cli/push.py:177-180 | "ali" against "Alice Smith" and "Alicia Stone" fails, naming both in list order |
| Assignees.SeveralUsersMessage | tsrc/cli/push.py:179-180 | the message starts with "Found several users matching", the pattern and a colon, and names every matched user |
| Assignees.SeveralUsersMessageExample | tsrc/cli/push.py:179-180 | the message joins the matched names with ", " |
| Assignees.NotFoundExample | tsrc/cli/push.py:172-176 | "zzz" against "Bob Lee" fails as not found and carries the names for the hint |
| Handler.ProjectId | tsrc/cli/push.py:146-150 | a cached non-zero id costs no call; otherwise one lookup, which succeeds exactly when the forge answers for the project's name, returns and caches that answer, and otherwise fails with the forge's error; nothing but the cache changes |
| Handler.ProjectIdIsStable | tsrc/cli/push.py:146-150 | once an id is had, asking again gives the same id, also for an id of 0 that is fetched anew |
| Handler.ProjectIdIsMemoised | tsrc/cli/push.py:146-150 | after a non-zero id is fetched, asking again costs no call and gives the same id |
| Handler.ZeroProjectIdIsNotMemoised | tsrc/cli/push.py:148 | an id of 0 is fetched again on the next use |
| Handler.FindMergeRequest | tsrc/cli/push.py:188-191 | the id lookup's calls, then one find for the source branch on exactly the id `project_id` gave; fails with the lookup's error when it fails, and otherwise fails exactly when the forge refuses the find, with its error; on success the answer is the forge's reply |
| Handler.CreateMergeRequest | tsrc/cli/push.py:193-198 | the id lookup's calls, then one create on exactly the id `project_id` gave, from the source branch, titled after it, into the target branch; fails with the lookup's error when it fails, and otherwise fails exactly when the forge refuses the create, with its error; on success the answer is the forge's reply |
| Handler.EnsureMergeRequest | tsrc/cli/push.py:112-119 | a single pass: the merge request is the one the find returned, or, only when the find returned nothing, the create's reply; a create is attempted only in that case, and a failed find ends the step |
| Handler.EnsureMergeRequestCallKinds | tsrc/cli/push.py:112-119 | find-or-create only looks up the project id, finds for the source branch, and creates with the source branch as title and the target branch |
| Handler.EnsureMergeRequestInStageOrder | tsrc/cli/push.py:112-119 | find-or-create finds before it creates, each at most once |
| Handler.EnsureMergeRequestCreatesOnlyWhenNoneOpen | tsrc/cli/push.py:112-119 | a create happens only after a find that reported nothing open, and never after one that found a merge request |
| Handler.EnsureMergeRequestResult | tsrc/cli/push.py:112-119 | the merge request returned is the forge's answer to the find or to the create |
| Handler.EnsureMergeRequestLooksUpProjectIdOnce | tsrc/cli/push.py:146-150 | with a non-zero id, find-or-create asks for it at most once |
| Handler.GetAssigneeStep | tsrc/cli/push.py:152-157 | no pattern gives no assignee and no call; a pattern costs one user fetch; a refused fetch fails with the forge's own error; a fetched list succeeds exactly with the resolved user and fails with the resolution's error otherwise |
| Handler.UpdateParams | tsrc/cli/push.py:200-207 | the keys are exactly title, target branch and remove-source-branch (set to true), plus the assignee id exactly when there is an assignee |
| Handler.UpdateParamsRoundTrip | tsrc/cli/push.py:200-208 | reading the parameters back gives the title, target branch, removal flag and assignee id that went in |
| Handler.UpdateThenAccept | tsrc/cli/push.py:128-134 | one update, then an accept exactly when asked and the update went through; success exactly when both calls went through |
| Handler.Handle | tsrc/cli/push.py:121-134 | a successful run ends with the accept exactly when asked, preceded by an update of the same merge request that went through |
| Handler.HandleStopsAtRefusal | tsrc/cli/push.py:121-134 | every call but the last was answered; a run failing on the forge ends with the refused call and carries its error unmodified; a run answered throughout with a resolvable (or absent) pattern succeeds, and otherwise can fail only on the assignee |
| Handler.EnsureMergeRequestStopsAtRefusal | tsrc/cli/push.py:112-119 | find-or-create stops at the first refused call with that call's error, and fails only on the forge |
| Handler.FindStopsAtRefusal | tsrc/cli/push.py:188-191 | the find stops at the first refused call with that call's error |
| Handler.CreateStopsAtRefusal | tsrc/cli/push.py:193-198 | the create stops at the first refused call with that call's error |
| Handler.AssigneeStopsAtRefusal | tsrc/cli/push.py:152-157 | a refused user fetch is the step's forge error; an unresolved pattern is not a refusal |
| Handler.UpdateThenAcceptStopsAtRefusal | tsrc/cli/push.py:128-134 | the update and the accept stop at the first refusal and fail only with it |
| Handler.EnsureMergeRequestAddressesProject | tsrc/cli/push.py:188-198 | every find and create names the handler's project id; without an id nothing is found or created |
| Handler.HandleAddressesProject | tsrc/cli/push.py:121-134 | every find and create of a run names the project id of the remote's project; without an id the run neither finds nor creates |
| Handler.HandleCallsInStageOrder | tsrc/cli/push.py:121-134 | a run goes assignee lookup, find, create, update, accept, each at most once, with only project-id lookups repeating |
| Handler.HandleUpdatesOnce | tsrc/cli/push.py:124-131 | once the assignee is resolved and the merge request found or created, exactly one update is sent, to that merge request |
| Handler.HandleStopsOnAssigneeError | tsrc/cli/push.py:121-124 | an assignee that does not resolve stops the run after the user fetch, so nothing is found, created or updated |
| Handler.HandleWithoutAssignee | tsrc/cli/push.py:152-155 | without a pattern the users are never fetched and no update carries an assignee id |
| Handler.HandleCreatesOnlyWhenNoneOpen | tsrc/cli/push.py:112-119 | a run creates only after a find reported nothing open, never after a find succeeded, and always from the source branch, titled after it, into the target branch |
| Handler.HandleUpdateContents | tsrc/cli/push.py:124-131 | the update targets a merge request the forge returned earlier in the run, with the chosen title, the target branch and the resolved assignee |
| Handler.HandleAcceptsLast | tsrc/cli/push.py:133-134 | an accept happens only under `--accept`, as the last call, right after an update of the same merge request that went through |
| Handler.HandleLooksUpProjectIdOnce | tsrc/cli/push.py:146-150 | with a non-zero id, a run asks for it at most once |
| Handler.ZeroProjectIdIsLookedUpTwice | tsrc/cli/push.py:146-150 | a project whose id is 0 is looked up again before the create |
| Handler.NewMergeRequestRun | tsrc/cli/push.py:121-134 | with nothing open, a run looks up the id, finds nothing, creates once, updates once and reports the created merge request |
| Handler.ReadyRunExample | tsrc/cli/push.py:100-131 | `--ready` on an open "WIP: add feature" updates with the title "add feature" |
| Handler.HandleGitHub | tsrc/cli/push.py:214-235 | the GitHub path fails without any API call |
| Handler.HandleForUrl | tsrc/cli/push.py:257-268 | a URL mentioning "github" gets the failing GitHub handler; any other URL gets the GitLab run |

## Left out

- The `ui` output and the git subprocesses run by `main`, `git_push` and `get_project_url` are I/O. Only the argument list of `git_push` is modelled.
- Reading the GitLab token and URL from the configuration and the workspace manifest is file I/O and is not part of this model.
- The argument passed to `get_project_name` in `main` (a URL where a repository path is expected) is plumbing around the I/O and is not modelled. `Handler.HandleForUrl` starts from the URL.
- `unidecode` is a parameter of type `Assignees.Transliteration`, because its transliteration table is a foreign library.
- The "did you mean" hint text is not built. The not-found error carries the pattern and the user names the hint is computed from.
- The GitLab API helper and its HTTP traffic are the `Handler.Backend` oracle. The oracle is stateless: a create does not change what a later find would return. Each run issues at most one find, so this does not matter for `handle`.
- The GitHub handler methods all do nothing. Only the outcome of the GitHub path is modelled: a failure with no API call.
- Assignees.SeveralUsersMessage: the contract says every matched name appears in the message, not that the names appear in list order. That order is stated on the error's `matched` list (`Assignees.Resolve`) and checked on one message (`Assignees.SeveralUsersMessageExample`).
- Strings.Join: the contract says every part appears in the joined text, not where. The exact text for two parts is `Strings.JoinPair`.
- The Python dictionaries of users and merge requests are reduced to the fields the handler reads. A found merge request is `Some`; an empty dictionary, which Python would also treat as nothing found, is not distinguished.
- The user list cannot be changed by `get_assignee` in the model, because sequences are values.
- Lower-casing covers ASCII letters only. That is all that is left once `unidecode` has produced ASCII.
