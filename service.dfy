/**
 * The review service: domain operations over a store, with their error
 * precedence and the invariants every stored pull request keeps.
 * The clock is an input (`now`); random choices are made in Selection
 * and here with `:|`, so every contract holds for every choice.
 */
module ReviewService {
  import opened Model
  import Repo
  import opened Selection

  /** The service's error values; StoreFailure passes on a store error the service does not rename. */
  datatype Error =
    | ErrTeamExists
    | ErrNotFound
    | ErrPRExists
    | ErrPRMerged
    | ErrNotAssigned
    | ErrNoCandidate
    | StoreFailure(cause: Repo.RepoError)

  datatype Result<T> = Ok(value: T) | Err(error: Error)

  /** The number of reviewers CreatePullRequest asks chooseReviewers for. */
  const MaxReviewers := 2

  /**
   * `errors.Is(err, repo.ErrNotFound)` renamed to the service's ErrNotFound;
   * any other store error is passed on unchanged.
   */
  function NotFoundOr(e: Repo.RepoError): (r: Error)
    ensures r == ErrNotFound <==> e == Repo.ErrNotFound
    ensures r != ErrNotFound ==> r.StoreFailure? && r.cause == e
  {
    if e == Repo.ErrNotFound then ErrNotFound else StoreFailure(e)
  }

  /** The store's ErrTeamExists renamed; any other store error passed on. */
  function TeamExistsOr(e: Repo.RepoError): (r: Error)
    ensures r == ErrTeamExists <==> e == Repo.ErrTeamExists
    ensures r != ErrTeamExists ==> r.StoreFailure? && r.cause == e
  {
    if e == Repo.ErrTeamExists then ErrTeamExists else StoreFailure(e)
  }

  /** The store's ErrPRExists renamed; any other store error passed on. */
  function PRExistsOr(e: Repo.RepoError): (r: Error)
    ensures r == ErrPRExists <==> e == Repo.ErrPRExists
    ensures r != ErrPRExists ==> r.StoreFailure? && r.cause == e
  {
    if e == Repo.ErrPRExists then ErrPRExists else StoreFailure(e)
  }

  /**
   * What every stored PR satisfies: the author never reviews it, it has at
   * most two reviewers, it has a creation time, it has a merge time exactly
   * when it is merged, and its author and reviewers are known users.
   */
  ghost predicate WellFormedPR(pr: PullRequest, users: map<string, User>)
  {
    pr.AuthorID !in pr.AssignedReviewers
    && |pr.AssignedReviewers| <= MaxReviewers
    && pr.CreatedAt.Some?
    && (pr.MergedAt.Some? <==> pr.Status == PRStatusMerged)
    && pr.AuthorID in users
    && (forall r :: r in pr.AssignedReviewers ==> r in users)
  }

  /**
   * How the stored PRs may change between two states: none disappears, its
   * id, name, author and creation time stay fixed, and a merged PR stays
   * exactly as it was (no transition leaves Merged).
   */
  ghost predicate Evolves(before: map<string, PullRequest>, after: map<string, PullRequest>)
  {
    forall id :: id in before ==>
      id in after
      && after[id].ID == before[id].ID
      && after[id].Name == before[id].Name
      && after[id].AuthorID == before[id].AuthorID
      && after[id].CreatedAt == before[id].CreatedAt
      && (before[id].Status == PRStatusMerged ==> after[id] == before[id])
  }

  lemma EvolvesTransitive(a: map<string, PullRequest>, b: map<string, PullRequest>, c: map<string, PullRequest>)
    requires Evolves(a, b) && Evolves(b, c)
    ensures Evolves(a, c)
  {
  }

  /** The first failure of CreatePullRequest, in the order the checks are made. */
  ghost function CreateError(users: map<string, User>, teams: map<string, Team>,
                             prs: map<string, PullRequest>, id: string, authorID: string): Option<Error>
  {
    if authorID !in users then Some(ErrNotFound)
    else if users[authorID].TeamName !in teams then Some(ErrNotFound)
    else if id in prs then Some(ErrPRExists)
    else None
  }

  /** The PR after a merge at `now`: a merged PR is returned as it is. */
  function MergeAt(pr: PullRequest, now: Time): (m: PullRequest)
    ensures m.Status == PRStatusMerged
    ensures pr.Status == PRStatusMerged ==> m == pr
    ensures pr.Status == PRStatusOpen ==> m.MergedAt == Some(now)
    ensures m.(Status := pr.Status, MergedAt := pr.MergedAt) == pr
  {
    if pr.Status == PRStatusMerged then pr
    else pr.(Status := PRStatusMerged, MergedAt := Some(now))
  }

  /** Merging twice, at any two instants, gives what merging once gives. */
  lemma MergeIdempotent(pr: PullRequest, t1: Time, t2: Time)
    ensures MergeAt(MergeAt(pr, t1), t2) == MergeAt(pr, t1)
  {
  }

  lemma MergeKeepsWellFormed(pr: PullRequest, users: map<string, User>, now: Time)
    requires WellFormedPR(pr, users)
    ensures WellFormedPR(MergeAt(pr, now), users)
  {
  }

  /** The set of reviewer ids of a PR (the `assignedSet` of ReassignReviewer). */
  ghost function ReviewerSet(pr: PullRequest): set<string>
  {
    set r | r in pr.AssignedReviewers
  }

  /** The members that may take over `oldUserID`'s slot on `pr`. */
  ghost function Replacements(pr: PullRequest, team: Team, oldUserID: string): seq<User>
  {
    ReplacementPool(team.Members, oldUserID, pr.AuthorID, ReviewerSet(pr))
  }

  /** The first failure of ReassignReviewer, in the order the checks are made. */
  ghost function ReassignError(users: map<string, User>, teams: map<string, Team>,
                               prs: map<string, PullRequest>, prID: string, oldUserID: string): Option<Error>
  {
    if prID !in prs then Some(ErrNotFound)
    else if prs[prID].Status == PRStatusMerged then Some(ErrPRMerged)
    else if oldUserID !in prs[prID].AssignedReviewers then Some(ErrNotAssigned)
    else if oldUserID !in users then Some(ErrNotFound)
    else if users[oldUserID].TeamName !in teams then Some(ErrNotFound)
    else if Replacements(prs[prID], teams[users[oldUserID].TeamName], oldUserID) == [] then Some(ErrNoCandidate)
    else None
  }

  /**
   * Writing `newID` into the first slot that holds `oldUserID` keeps the list
   * length, changes no other slot, and keeps the author out and the ids
   * distinct when `newID` is neither the author nor already on the list.
   */
  lemma ReplaceSlot(reviewers: seq<string>, oldUserID: string, newID: string, authorID: string)
    requires oldUserID in reviewers
    requires newID !in reviewers && newID != authorID
    requires authorID !in reviewers
    ensures var i := IndexOf(reviewers, oldUserID);
      var after := reviewers[i := newID];
      |after| == |reviewers|
      && after[i] == newID
      && (forall k :: 0 <= k < |reviewers| && k != i ==> after[k] == reviewers[k])
      && authorID !in after
      && (Distinct(reviewers) ==> Distinct(after) && oldUserID !in after)
  {
    var i := IndexOf(reviewers, oldUserID);
    var after := reviewers[i := newID];
    if Distinct(reviewers) {
      forall k | 0 <= k < |after| ensures after[k] != oldUserID {
        if k != i {
          assert reviewers[k] != reviewers[i];
        }
      }
    }
  }

  /**
   * Ids drawn from the author's pool are ids of active team members other
   * than the author, known users when every member is, and distinct when the
   * members' ids are.
   */
  lemma DrawnReviewers(members: seq<User>, authorID: string, reviewers: seq<string>, users: map<string, User>)
    requires multiset(reviewers) <= multiset(IDs(AuthorPool(members, authorID)))
    requires forall i :: 0 <= i < |members| ==> members[i].ID in users
    ensures forall rid :: rid in reviewers ==> exists m :: m in members && m.ID == rid && EligibleForAuthor(m, authorID)
    ensures forall rid :: rid in reviewers ==> rid in users
    ensures authorID !in reviewers
    ensures Distinct(IDs(members)) ==> Distinct(reviewers)
  {
    var pool := AuthorPool(members, authorID);
    AuthorPoolSpec(members, authorID);
    forall rid | rid in reviewers
      ensures exists m :: m in members && m.ID == rid && EligibleForAuthor(m, authorID)
      ensures rid in users
    {
      assert multiset(reviewers)[rid] > 0;
      var k :| 0 <= k < |pool| && pool[k].ID == rid;
      assert pool[k] in pool;
      var j :| 0 <= j < |members| && members[j] == pool[k];
    }
    if Distinct(IDs(members)) {
      DistinctSub(IDs(pool), IDs(members));
      DistinctSub(reviewers, IDs(pool));
    }
  }

  /**
   * A member drawn from the replacement pool is an active member of the team,
   * is not the old reviewer or the author and is not on the PR yet; put in the
   * old reviewer's slot, it keeps the author off the list and the list distinct.
   */
  lemma DrawnReplacement(pr: PullRequest, team: Team, oldUserID: string, newReviewer: User)
    requires newReviewer in Replacements(pr, team, oldUserID)
    requires oldUserID in pr.AssignedReviewers
    requires pr.AuthorID !in pr.AssignedReviewers
    ensures newReviewer in team.Members && newReviewer.IsActive
    ensures newReviewer.ID != oldUserID && newReviewer.ID != pr.AuthorID && newReviewer.ID !in pr.AssignedReviewers
    ensures var after := pr.AssignedReviewers[IndexOf(pr.AssignedReviewers, oldUserID) := newReviewer.ID];
      |after| == |pr.AssignedReviewers|
      && pr.AuthorID !in after
      && (Distinct(pr.AssignedReviewers) ==> Distinct(after) && oldUserID !in after)
  {
    ReplacementPoolSpec(team.Members, oldUserID, pr.AuthorID, ReviewerSet(pr));
    ReplaceSlot(pr.AssignedReviewers, oldUserID, newReviewer.ID, pr.AuthorID);
  }

  /**
   * Storing a well-formed PR, new or in place of an open one with the same
   * identity, keeps every stored PR well formed and is a legal evolution.
   */
  lemma PutKeepsInvariants(prs: map<string, PullRequest>, users: map<string, User>, pr: PullRequest,
                           after: map<string, PullRequest>)
    requires after == prs[pr.ID := pr]
    requires forall k :: k in prs ==> WellFormedPR(prs[k], users)
    requires WellFormedPR(pr, users)
    requires pr.ID in prs ==>
      prs[pr.ID].Status == PRStatusOpen && prs[pr.ID].ID == pr.ID && prs[pr.ID].Name == pr.Name
      && prs[pr.ID].AuthorID == pr.AuthorID && prs[pr.ID].CreatedAt == pr.CreatedAt
    ensures forall k :: k in after ==> WellFormedPR(after[k], users)
    ensures Evolves(prs, after)
  {
  }

  class Service {
    const repo: Repo.Store

    /** The store's own invariant, and every stored PR well formed. */
    ghost predicate Valid()
      reads this, repo
    {
      repo.Valid() && forall id :: id in repo.prs ==> WellFormedPR(repo.prs[id], repo.users)
    }

    constructor (r: Repo.Store)
      requires r.Valid()
      requires forall id :: id in r.prs ==> WellFormedPR(r.prs[id], r.users)
      ensures repo == r && Valid()
    {
      repo := r;
    }

    method CreateTeam(name: string, members: seq<User>) returns (r: Result<Team>)
      requires Valid()
      modifies repo
      ensures Valid()
      ensures r == if name in old(repo.teams) then Err(ErrTeamExists) else Ok(Team(name, members))
      ensures r.Err? ==> repo.teams == old(repo.teams) && repo.users == old(repo.users)
      ensures r.Ok? ==> (repo.teams == old(repo.teams)[name := Team(name, members)]
                         && repo.users == Repo.IndexMembers(old(repo.users), members))
      ensures repo.prs == old(repo.prs)
    {
      var team := Team(name, members);
      Repo.IndexMembersSpec(repo.users, members);
      var err := repo.CreateTeam(team);
      match err {
        case Some(e) => return Err(TeamExistsOr(e));
        case None =>
      }
      return Ok(team);
    }

    method GetTeam(name: string) returns (r: Result<Team>)
      ensures r.Ok? <==> name in repo.teams
      ensures r.Ok? ==> r.value == repo.teams[name]
      ensures r.Err? ==> r.error == ErrNotFound
    {
      var t := repo.GetTeam(name);
      if t.Err? {
        return Err(NotFoundOr(t.error));
      }
      return Ok(t.value);
    }

    method SetUserIsActive(userID: string, isActive: bool) returns (r: Result<User>)
      requires Valid()
      modifies repo
      ensures Valid()
      ensures r.Ok? <==> userID in old(repo.users)
      ensures r.Err? ==> r.error == ErrNotFound && repo.users == old(repo.users)
      ensures r.Ok? ==> (r.value == old(repo.users)[userID].(IsActive := isActive)
                         && repo.users == old(repo.users)[userID := r.value])
      ensures repo.teams == old(repo.teams) && repo.prs == old(repo.prs)
    {
      var u := repo.SetUserActive(userID, isActive);
      if u.Err? {
        return Err(NotFoundOr(u.error));
      }
      return Ok(u.value);
    }

    /**
     * Creates an open PR whose reviewers are at most two active members of the
     * author's team other than the author, drawn in random order.
     */
    method CreatePullRequest(id: string, name: string, authorID: string, now: Time) returns (r: Result<PullRequest>)
      requires Valid()
      modifies repo
      ensures Valid()
      ensures Evolves(old(repo.prs), repo.prs)
      ensures repo.teams == old(repo.teams) && repo.users == old(repo.users)
      ensures r.Err? <==> CreateError(old(repo.users), old(repo.teams), old(repo.prs), id, authorID).Some?
      ensures r.Err? ==> (r.error == CreateError(old(repo.users), old(repo.teams), old(repo.prs), id, authorID).value
                          && repo.prs == old(repo.prs))
      ensures r.Ok? ==> (r.value.ID == id && r.value.Name == name && r.value.AuthorID == authorID
                         && r.value.Status == PRStatusOpen && r.value.CreatedAt == Some(now) && r.value.MergedAt == None
                         && repo.prs == old(repo.prs)[id := r.value])
      ensures r.Ok? ==>
        var members := repo.teams[repo.users[authorID].TeamName].Members;
        var reviewers := r.value.AssignedReviewers;
        var pool := AuthorPool(members, authorID);
        |reviewers| == (if |pool| > MaxReviewers then MaxReviewers else |pool|)
        && multiset(reviewers) <= multiset(IDs(pool))
        && (forall rid :: rid in reviewers ==> exists m :: m in members && m.ID == rid && EligibleForAuthor(m, authorID))
        && authorID !in reviewers
        && (Distinct(IDs(members)) ==> Distinct(reviewers))
    {
      var a := repo.GetUserByID(authorID);
      if a.Err? {
        return Err(NotFoundOr(a.error));
      }
      var author := a.value;
      var t := repo.GetTeam(author.TeamName);
      if t.Err? {
        return Err(NotFoundOr(t.error));
      }
      var members := t.value.Members;
      var candidates := CandidatesForAuthor(members, authorID);
      var reviewerIDs := ChooseReviewers(candidates, MaxReviewers);

      DrawnReviewers(members, authorID, reviewerIDs, repo.users);

      var pr := PullRequest(id, name, authorID, PRStatusOpen, reviewerIDs, Some(now), None);
      var err := repo.CreatePullRequest(pr);
      match err {
        case Some(e) => return Err(PRExistsOr(e));
        case None =>
      }
      PutKeepsInvariants(old(repo.prs), repo.users, pr, repo.prs);
      return Ok(pr);
    }

    /** Merges a PR; a PR already merged is returned as stored, with no update. */
    method MergePullRequest(prID: string, now: Time) returns (r: Result<PullRequest>)
      requires Valid()
      modifies repo
      ensures Valid()
      ensures Evolves(old(repo.prs), repo.prs)
      ensures repo.teams == old(repo.teams) && repo.users == old(repo.users)
      ensures r.Err? <==> prID !in old(repo.prs)
      ensures r.Err? ==> r.error == ErrNotFound && repo.prs == old(repo.prs)
      ensures r.Ok? ==> (r.value == MergeAt(old(repo.prs)[prID], now)
                         && repo.prs == old(repo.prs)[prID := r.value])
      ensures r.Ok? && old(repo.prs)[prID].Status == PRStatusMerged ==>
        r.value == old(repo.prs)[prID] && repo.prs == old(repo.prs)
    {
      var g := repo.GetPullRequestByID(prID);
      if g.Err? {
        return Err(NotFoundOr(g.error));
      }
      var pr := g.value;
      if pr.Status == PRStatusMerged {
        return Ok(pr);
      }
      pr := pr.(Status := PRStatusMerged, MergedAt := Some(now));
      var err := repo.UpdatePullRequest(pr);
      match err {
        case Some(e) => return Err(NotFoundOr(e));
        case None =>
      }
      PutKeepsInvariants(old(repo.prs), repo.users, pr, repo.prs);
      return Ok(pr);
    }

    /** The PRs the user reviews; an unknown user is refused before the PRs are scanned. */
    method GetUserReviews(userID: string) returns (r: Result<seq<PullRequest>>)
      requires Valid()
      ensures r.Err? <==> userID !in repo.users
      ensures r.Err? ==> r.error == ErrNotFound
      ensures r.Ok? ==> Repo.IsReviewQueue(repo.prs, userID, r.value)
    {
      var u := repo.GetUserByID(userID);
      if u.Err? {
        return Err(NotFoundOr(u.error));
      }
      var prs := repo.GetPullRequestsByReviewer(userID);
      return Ok(prs);
    }

    /**
     * Replaces `oldUserID` on an open PR by a random active member of the old
     * reviewer's team who is neither the old reviewer, nor the author, nor
     * already assigned; returns the updated PR and the new reviewer's id.
     */
    method ReassignReviewer(prID: string, oldUserID: string) returns (r: Result<(PullRequest, string)>)
      requires Valid()
      modifies repo
      ensures Valid()
      ensures Evolves(old(repo.prs), repo.prs)
      ensures repo.teams == old(repo.teams) && repo.users == old(repo.users)
      ensures r.Err? <==> ReassignError(old(repo.users), old(repo.teams), old(repo.prs), prID, oldUserID).Some?
      ensures r.Err? ==> (r.error == ReassignError(old(repo.users), old(repo.teams), old(repo.prs), prID, oldUserID).value
                          && repo.prs == old(repo.prs))
      ensures r.Ok? ==>
        var before := old(repo.prs)[prID];
        var (pr, newID) := r.value;
        var team := repo.teams[repo.users[oldUserID].TeamName];
        pr == before.(AssignedReviewers := before.AssignedReviewers[IndexOf(before.AssignedReviewers, oldUserID) := newID])
        && repo.prs == old(repo.prs)[prID := pr]
        && (exists m :: m in team.Members && m.ID == newID && m.IsActive)
        && newID != oldUserID && newID != before.AuthorID && newID !in before.AssignedReviewers
        && |pr.AssignedReviewers| == |before.AssignedReviewers|
        && pr.AuthorID !in pr.AssignedReviewers
        && (Distinct(before.AssignedReviewers) ==> Distinct(pr.AssignedReviewers) && oldUserID !in pr.AssignedReviewers)
    {
      var g := repo.GetPullRequestByID(prID);
      if g.Err? {
        return Err(NotFoundOr(g.error));
      }
      var pr := g.value;
      if pr.Status == PRStatusMerged {
        return Err(ErrPRMerged);
      }
      var idx := FindReviewerSlot(pr.AssignedReviewers, oldUserID);
      if idx == -1 {
        return Err(ErrNotAssigned);
      }
      var u := repo.GetUserByID(oldUserID);
      match u {
        case Err(e) => return Err(NotFoundOr(e));
        case Ok(_) =>
      }
      var oldUser := u.value;
      var t := repo.GetTeam(oldUser.TeamName);
      if t.Err? {
        return Err(NotFoundOr(t.error));
      }
      var team := t.value;
      var assignedIDs := AssignedSet(pr.AssignedReviewers);
      assert assignedIDs == ReviewerSet(pr);
      var candidates := ReplacementCandidates(team.Members, oldUserID, pr.AuthorID, assignedIDs);
      if |candidates| == 0 {
        return Err(ErrNoCandidate);
      }
      var newIdx :| 0 <= newIdx < |candidates|;
      var newReviewer := candidates[newIdx];

      assert newReviewer in candidates;
      DrawnReplacement(pr, team, oldUserID, newReviewer);
      var j :| 0 <= j < |team.Members| && team.Members[j] == newReviewer;
      assert newReviewer.ID in repo.users;

      pr := pr.(AssignedReviewers := pr.AssignedReviewers[idx := newReviewer.ID]);
      assert WellFormedPR(pr, repo.users);
      PutKeepsInvariants(repo.prs, repo.users, pr, repo.prs[pr.ID := pr]);
      var err := repo.UpdatePullRequest(pr);
      match err {
        case Some(e) => return Err(NotFoundOr(e));
        case None =>
      }
      return Ok((pr, newReviewer.ID));
    }
  }
}
