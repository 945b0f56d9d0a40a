/**
 * The repository the service runs over, as an in-memory store of three maps
 * (team name -> Team, user id -> User, PR id -> PullRequest). Every read
 * hands out a value, so a caller can never change stored state except through
 * a store method.
 */
module Repo {
  import opened Model

  /** The failures the store reports. */
  datatype RepoError = ErrNotFound | ErrTeamExists | ErrPRExists

  datatype Result<T> = Ok(value: T) | Err(error: RepoError)

  /**
   * The user index after indexing `members` in order over `users`: each member
   * is stored under its id, a later member overwriting an earlier one with the
   * same id.
   */
  function IndexMembers(users: map<string, User>, members: seq<User>): map<string, User>
    decreases |members|
  {
    if members == [] then users
    else
      var last := members[|members| - 1];
      IndexMembers(users, members[..|members| - 1])[last.ID := last]
  }

  lemma {:induction false} IndexMembersSpec(users: map<string, User>, members: seq<User>)
    ensures forall id :: id in IndexMembers(users, members) <==> id in users || id in IDs(members)
    ensures forall id :: id in IDs(members) ==>
      IndexMembers(users, members)[id] in members && IndexMembers(users, members)[id].ID == id
    ensures forall id :: id in users && id !in IDs(members) ==> IndexMembers(users, members)[id] == users[id]
    decreases |members|
  {
    if members != [] {
      var init := members[..|members| - 1];
      IndexMembersSpec(users, init);
      assert members == init + [members[|members| - 1]];
      assert IDs(members) == IDs(init) + [members[|members| - 1].ID];
    }
  }

  /**
   * The reviews of `userID` in `prs` are exactly the stored PRs whose reviewer
   * list contains the user, each once, in no particular order.
   */
  ghost predicate IsReviewQueue(prs: map<string, PullRequest>, userID: string, r: seq<PullRequest>)
  {
    (forall i :: 0 <= i < |r| ==> r[i].ID in prs && prs[r[i].ID] == r[i] && userID in r[i].AssignedReviewers)
    && (forall id :: id in prs && userID in prs[id].AssignedReviewers ==> prs[id] in r)
    && (forall i, j :: 0 <= i < j < |r| ==> r[i].ID != r[j].ID)
  }

  class Store {
    var teams: map<string, Team>
    var users: map<string, User>
    var prs: map<string, PullRequest>

    /** Every record sits under its own key, and every team member is indexed as a user. */
    ghost predicate Valid()
      reads this
    {
      (forall name :: name in teams ==> teams[name].Name == name)
      && (forall id :: id in users ==> users[id].ID == id)
      && (forall id :: id in prs ==> prs[id].ID == id)
      && (forall name, i :: name in teams && 0 <= i < |teams[name].Members| ==> teams[name].Members[i].ID in users)
    }

    constructor ()
      ensures Valid()
      ensures teams == map[] && users == map[] && prs == map[]
    {
      teams, users, prs := map[], map[], map[];
    }

    /**
     * Inserts a new team and indexes each of its members as a user of its own;
     * a name already present is refused and nothing changes.
     */
    method CreateTeam(team: Team) returns (err: Option<RepoError>)
      requires Valid()
      modifies this
      ensures Valid()
      ensures err == if team.Name in old(teams) then Some(ErrTeamExists) else None
      ensures err.Some? ==> teams == old(teams) && users == old(users)
      ensures err.None? ==> (teams == old(teams)[team.Name := team]
                             && users == IndexMembers(old(users), team.Members))
      ensures prs == old(prs)
    {
      if team.Name in teams {
        return Some(ErrTeamExists);
      }
      var i := 0;
      while i < |team.Members|
        invariant 0 <= i <= |team.Members|
        invariant teams == old(teams) && prs == old(prs)
        invariant users == IndexMembers(old(users), team.Members[..i])
        invariant forall id :: id in users ==> users[id].ID == id
        invariant forall id :: id in old(users) ==> id in users
        invariant forall k :: 0 <= k < i ==> team.Members[k].ID in users
      {
        var m := team.Members[i];
        assert team.Members[..i + 1][..i] == team.Members[..i];
        users := users[m.ID := m];
        i := i + 1;
      }
      assert team.Members[..i] == team.Members;
      teams := teams[team.Name := team];
      return None;
    }

    method GetTeam(name: string) returns (r: Result<Team>)
      ensures r.Ok? <==> name in teams
      ensures r.Ok? ==> r.value == teams[name]
      ensures r.Err? ==> r.error == ErrNotFound
    {
      if name !in teams {
        return Err(ErrNotFound);
      }
      return Ok(teams[name]);
    }

    /** Sets the stored user's activity flag and returns the updated user. */
    method SetUserActive(userID: string, isActive: bool) returns (r: Result<User>)
      requires Valid()
      modifies this
      ensures Valid()
      ensures r.Ok? <==> userID in old(users)
      ensures r.Err? ==> r.error == ErrNotFound && users == old(users)
      ensures r.Ok? ==> (r.value == old(users)[userID].(IsActive := isActive)
                         && users == old(users)[userID := r.value])
      ensures teams == old(teams) && prs == old(prs)
    {
      if userID !in users {
        return Err(ErrNotFound);
      }
      var u := users[userID].(IsActive := isActive);
      users := users[userID := u];
      return Ok(u);
    }

    method GetUserByID(userID: string) returns (r: Result<User>)
      ensures r.Ok? <==> userID in users
      ensures r.Ok? ==> r.value == users[userID]
      ensures r.Err? ==> r.error == ErrNotFound
    {
      if userID !in users {
        return Err(ErrNotFound);
      }
      return Ok(users[userID]);
    }

    /** Stores a new PR; an id already present is refused and nothing changes. */
    method CreatePullRequest(pr: PullRequest) returns (err: Option<RepoError>)
      requires Valid()
      modifies this
      ensures Valid()
      ensures err == if pr.ID in old(prs) then Some(ErrPRExists) else None
      ensures prs == if err.Some? then old(prs) else old(prs)[pr.ID := pr]
      ensures teams == old(teams) && users == old(users)
    {
      if pr.ID in prs {
        return Some(ErrPRExists);
      }
      prs := prs[pr.ID := pr];
      return None;
    }

    method GetPullRequestByID(id: string) returns (r: Result<PullRequest>)
      ensures r.Ok? <==> id in prs
      ensures r.Ok? ==> r.value == prs[id]
      ensures r.Err? ==> r.error == ErrNotFound
    {
      if id !in prs {
        return Err(ErrNotFound);
      }
      return Ok(prs[id]);
    }

    /** Overwrites a stored PR as a whole; an unknown id is refused and nothing changes. */
    method UpdatePullRequest(pr: PullRequest) returns (err: Option<RepoError>)
      requires Valid()
      modifies this
      ensures Valid()
      ensures err == if pr.ID in old(prs) then None else Some(ErrNotFound)
      ensures prs == if err.Some? then old(prs) else old(prs)[pr.ID := pr]
      ensures teams == old(teams) && users == old(users)
    {
      if pr.ID !in prs {
        return Some(ErrNotFound);
      }
      prs := prs[pr.ID := pr];
      return None;
    }

    /** Every stored PR whose reviewer list contains `userID`, by a scan of the PR map. */
    method GetPullRequestsByReviewer(userID: string) returns (r: seq<PullRequest>)
      requires Valid()
      ensures IsReviewQueue(prs, userID, r)
    {
      var todo := prs.Keys;
      r := [];
      while todo != {}
        invariant todo <= prs.Keys
        invariant forall i :: 0 <= i < |r| ==>
          r[i].ID in prs && r[i].ID !in todo && prs[r[i].ID] == r[i] && userID in r[i].AssignedReviewers
        invariant forall id :: id in prs && id !in todo && userID in prs[id].AssignedReviewers ==> prs[id] in r
        invariant forall i, j :: 0 <= i < j < |r| ==> r[i].ID != r[j].ID
        decreases todo
      {
        var id :| id in todo;
        if userID in prs[id].AssignedReviewers {
          r := r + [prs[id]];
        }
        todo := todo - {id};
      }
    }
  }
}
