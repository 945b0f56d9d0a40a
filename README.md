# PR reviewer service — a Dafny model of the review service core

This project models the domain layer of a pull-request reviewer service in
Dafny and proves properties of that model. The service keeps teams of users
and pull requests (PRs). It has these operations:

- create a team;
- read a team;
- switch a user's activity flag;
- open a PR with up to two random reviewers from the author's team;
- merge a PR, which is idempotent;
- list the PRs a user reviews;
- swap one reviewer of an open PR for a random eligible team member.

The model has five files:

- `model.dfy` (module `Model`) holds the entities `User`, `Team`, `PRStatus`
  and `PullRequest`. Timestamps are abstract (`Time`).
- `repo.dfy` (module `Repo`) is the store the service runs over. It is a
  class `Store` with three maps: team name to team, user id to user, and PR id
  to PR. It has the store's methods and their error values.
- `selection.dfy` (module `Selection`) holds the reviewer-selection steps:
  - the two candidate filters;
  - `chooseReviewers`, a Fisher–Yates shuffle of an array followed by a cut to
    at most `max` elements;
  - the search for a reviewer's slot;
  - the set of assigned reviewers.
- `service.dfy` (module `ReviewService`) is the class `Service` over a
  `Store`. It holds the domain error set, the renaming of store errors to
  domain errors, and the invariants every stored PR keeps (`WellFormedPR`)
  and every transition respects (`Evolves`).
- `scenarios.dfy` (module `Scenarios`) holds short call sequences over a fresh or prepared service:
  - a team created twice;
  - a merge done twice;
  - reassignment after a merge;
  - the team "core" with active A, B and C and inactive D;
  - a reassignment within a team {B, C, E};
  - a reassignment with no candidate.

Randomness is an unconstrained choice (`:|`): the swap partner of each
shuffle step, and the pick among the replacement candidates. Every contract
therefore holds for every outcome of the random source. The clock is the
parameter `now` of CreatePullRequest and MergePullRequest.

The service's `Valid()` invariant holds before and after each operation. It
says:

- the store's records sit under their own keys;
- every team member is an indexed user;
- every stored PR is well formed:
  - the author is not among its reviewers;
  - it has at most two reviewers;
  - it has a creation time;
  - it has a merge time exactly when it is merged;
  - its author and reviewers are known users.

Each state-changing operation also proves `Evolves(old, new)`: no PR
disappears, identity fields and creation time never change, and a merged PR
never changes again.

`internal/model/model.go` and `internal/service/service.go` disagree on names.
The service code uses the status constants `PRStatusOpen` and `PRStatusMerged`
and the author field `AuthorID`. `model.go` declares `PROpen`, `PRMerged` and
`AuthorId`, and does not compile (`strding`, `strind`). The model uses the
names the service code uses.

## Model

| member | source | states |
|---|---|---|
| ReviewService.NotFoundOr | internal/service/service.go:48-53 | the store's ErrNotFound becomes the domain ErrNotFound, and only it; any other store error is passed on unchanged as StoreFailure |
| ReviewService.TeamExistsOr | internal/service/service.go:36-41 | the store's ErrTeamExists becomes the domain ErrTeamExists, and only it; other store errors are passed on unchanged |
| ReviewService.PRExistsOr | internal/service/service.go:111-116 | the store's ErrPRExists becomes the domain ErrPRExists, and only it; other store errors are passed on unchanged |
| ReviewService.Service.constructor | internal/service/service.go:16-18 | the service wraps the given store, whose invariant already holds |
| ReviewService.Service.CreateTeam | internal/service/service.go:29-44 | an existing name gives ErrTeamExists and changes nothing; otherwise the team is stored and returned as given, its members are indexed as users, and no PR changes |
| ReviewService.Service.GetTeam | internal/service/service.go:46-55 | Ok exactly when the name is stored, with the stored team; otherwise ErrNotFound |
| ReviewService.Service.SetUserIsActive | internal/service/service.go:57-66 | an unknown user gives ErrNotFound; otherwise only that user's IsActive changes and the updated user is returned; teams and PRs are unchanged |
| ReviewService.Service.CreatePullRequest | internal/service/service.go:68-119 | fails exactly per CreateError: unknown author, then missing team (ErrNotFound), then a taken id (ErrPRExists), with nothing stored; on success the PR is open with the given id, name and author, created at `now`, with no merge time, and is stored under its id; its reviewers number min(2, pool size) and are drawn without repetition from the members of the author's team, as the team record stored at creation lists them, that are active in that record and are not the author; they are distinct when member ids are; the store invariants are kept |
| ReviewService.DrawnReviewers | internal/service/service.go:86-97 | ids drawn from the author's pool belong to active non-author team members and to known users, the author is not among them, and they are distinct when the members' ids are |
| ReviewService.MergeAt | internal/service/service.go:150-156 | the result is merged; a merged PR is returned as it is; an open PR gets merge time `now`; no other field changes |
| ReviewService.MergeIdempotent | internal/service/service.go:150-152 | merging twice, at any two instants, gives the result of the first merge (same merge time) |
| ReviewService.MergeKeepsWellFormed | internal/service/service.go:154-156 | a merge keeps a PR well formed |
| ReviewService.Service.MergePullRequest | internal/service/service.go:141-166 | ErrNotFound exactly for an unknown id, with nothing changed; otherwise the result is MergeAt of the stored PR and is stored; an already merged PR is returned as stored and the store is unchanged |
| ReviewService.EvolvesTransitive | internal/service/service.go:150-152 | legal evolutions of the PR map compose, so no sequence of operations reopens or alters a merged PR |
| ReviewService.PutKeepsInvariants | internal/service/service.go:256-263 | storing a well-formed PR, new or replacing an open one with the same identity, keeps all stored PRs well formed and is a legal evolution |
| ReviewService.Service.GetUserReviews | internal/service/service.go:168-183 | an unknown user gives ErrNotFound; otherwise the result holds exactly the stored PRs listing the user as reviewer, each once |
| ReviewService.ReplaceSlot | internal/service/service.go:254 | writing the new id into the old reviewer's first slot keeps the length and every other slot, keeps the author out, and keeps the list distinct with the old reviewer gone |
| ReviewService.DrawnReplacement | internal/service/service.go:230-254 | a member drawn from the replacement pool is an active team member who is neither the old reviewer nor the author and is not yet assigned; in the old slot it keeps the author out and the list distinct |
| ReviewService.Service.ReassignReviewer | internal/service/service.go:185-264 | fails exactly per ReassignError, leaving the PRs unchanged; on success only the first slot holding the old reviewer changes, to an active member of the old reviewer's team who is not the old reviewer, not the author and not already assigned; the length is kept, the author stays out, the list stays distinct and the old reviewer leaves it; the new id is returned with the PR |
| Selection.KeepMembers | internal/service/service.go:86-95 | the filtered members are exactly the members the filter admits |
| Selection.KeepIDs | internal/service/service.go:86-95 | filtering adds no id and repeats none more often than the member list does |
| Selection.AuthorPoolSpec | internal/service/service.go:86-95 | the author's pool holds exactly the active members other than the author, and its ids are a sub-multiset of the members' ids |
| Selection.ReplacementPoolSpec | internal/service/service.go:230-245 | the replacement pool holds exactly the active members who are not the old reviewer, not the author and not assigned |
| Selection.CandidatesForAuthor | internal/service/service.go:86-95 | the loop builds the author's pool, in member order |
| Selection.ReplacementCandidates | internal/service/service.go:230-245 | the loop builds the replacement pool, in member order |
| Selection.AssignedSet | internal/service/service.go:225-228 | the set holds exactly the ids on the reviewer list |
| Selection.IndexOf | internal/service/service.go:198-204 | the first position of the id, or -1 exactly when it does not occur |
| Selection.FindReviewerSlot | internal/service/service.go:198-207 | the search with break returns IndexOf of the reviewer list |
| Selection.Shuffle | internal/service/service.go:126-128 | the array after the shuffle is a permutation of the array before |
| Selection.IDsPermutation | internal/service/service.go:126-137 | permuting the candidates permutes their ids |
| Selection.ChooseReviewers | internal/service/service.go:121-139 | no candidates or max <= 0 gives no ids; otherwise min(count, max) ids, a sub-multiset of the candidates' ids, distinct when the candidates' ids are |
| Repo.IndexMembersSpec | internal/repo/repo.go:7 | after team creation the user index holds the old users plus every member, each member id mapping to a member with that id, and other users unchanged |
| Repo.Store.constructor | internal/repo/memory.go:8-10 | a new store is empty and valid |
| Repo.Store.CreateTeam | internal/repo/repo.go:7 | a taken name gives ErrTeamExists and changes nothing; otherwise the team is inserted and its members indexed; PRs are unchanged |
| Repo.Store.GetTeam | internal/repo/repo.go:8 | Ok exactly when the name is stored, with the stored team; otherwise ErrNotFound |
| Repo.Store.SetUserActive | internal/repo/repo.go:11 | an unknown user gives ErrNotFound; otherwise only that user's flag changes |
| Repo.Store.GetUserByID | internal/repo/repo.go:12 | Ok exactly when the id is stored, with the stored user; otherwise ErrNotFound |
| Repo.Store.CreatePullRequest | internal/repo/repo.go:15 | a taken id gives ErrPRExists and changes nothing; otherwise the PR is stored under its id |
| Repo.Store.GetPullRequestByID | internal/repo/repo.go:16 | Ok exactly when the id is stored, with the stored PR; otherwise ErrNotFound |
| Repo.Store.UpdatePullRequest | internal/repo/repo.go:17 | an unknown id gives ErrNotFound and changes nothing; otherwise the stored PR is replaced |
| Repo.Store.GetPullRequestsByReviewer | internal/repo/repo.go:22 | the result holds exactly the stored PRs whose reviewers include the user, each once |
| Scenarios.CreateTeamTwice | internal/service/service.go:29-44 | a second team with the same name fails with ErrTeamExists; the team stored under the name is the first call's team if that call succeeded, and the team already stored there otherwise |
| Scenarios.MergeTwice | internal/service/service.go:141-166 | two merges both succeed or both fail, and the second returns the first's merged PR with the same merge time |
| Scenarios.ReassignAfterMerge | internal/service/service.go:194-196 | after a successful merge, reassignment fails with ErrPRMerged and the merged PR is left as it is |
| Scenarios.ReviewersOfCore | internal/service/service.go:86-97 | in team core (A the author, B and C active, D inactive) the new PR gets exactly two reviewers, each B or C |
| Scenarios.ReassignWithinCore | internal/service/service.go:230-254 | with reviewers [B] and B, C and E active, reassigning B succeeds with C or E, which becomes the only reviewer |
| Scenarios.ReassignWithoutCandidate | internal/service/service.go:247-249 | with all members besides the author and B inactive, reassigning B fails with ErrNoCandidate and the stored PR stays as it was |

## Left out

- HTTP handlers, routing and the entry point (`internal/http/`, `cmd/server/main.go`): transport is outside the core, and so is the rejection of empty required fields there.
- The in-memory repository's bodies: `internal/repo/memory.go` only panics. The store is modelled from the `Repository` interface. A team is inserted and its members indexed in one call, and every read returns an independent value.
- SetReviewers and GetReviewers (`internal/repo/repo.go:20-21`): the service never calls them; the model keeps reviewers inside each PR record.
- Locking and concurrency: each operation is modelled as one sequential step. The race that CreatePullRequest's read-then-write leaves open is not modelled.
- The clock: the current time is the parameter `now`, and `Time` is an integer with no time zone.
- Selection.Shuffle: proves only that the result is a permutation, not that it is drawn uniformly; the random source is an unconstrained choice.
- ReviewService.Service.ReassignReviewer: proves that the new reviewer is some eligible candidate, not that the pick is uniform.
- Selection.ChooseReviewers: shuffles a local array copy of the candidates. The source shuffles the caller's slice in place, which only the caller's local pool can see.
- ReviewService.Service.CreatePullRequest: reviewers are distinct only when the team's member ids are. CreateTeam does not reject a team listing the same id twice, and then the same id can be drawn twice.
- ReviewService.Service.SetUserIsActive: its change never reaches the pools of CreatePullRequest or ReassignReviewer. A team keeps the member records it was created with; SetUserIsActive changes the user index only, and both pools read the team's list. The user index and the team's list are kept as independent copies; `internal/repo/memory.go` has no body that shows it either way.
- ReviewService.Service.ReassignReviewer: the ErrNotFound for an unknown old reviewer is modelled but cannot happen. Every reviewer is a known user, and users are never removed.
- StoreFailure: the passthrough of a store error the service does not rename is modelled for the store calls that return an error, but this store never produces one on those paths.
- Repo.Store.GetPullRequestsByReviewer: returns the PRs alone. The error return that `internal/repo/repo.go:22` declares, and that ReviewService.Service.GetUserReviews passes on unchanged (`internal/service/service.go:177-180`), is not modelled, since this store's scan cannot fail.
- Model.dfy's status and field names follow the service code; `internal/model/model.go` as written does not compile and is not modelled literally.
