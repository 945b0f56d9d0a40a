/**
 * Call sequences over the service, showing what a caller can conclude from
 * the operations' contracts alone.
 */
module Scenarios {
  import opened Model
  import Repo
  import opened Selection
  import opened ReviewService

  /** Creating a team under a name that exists fails with ErrTeamExists and leaves the team as it was. */
  method CreateTeamTwice(svc: Service, name: string, first: seq<User>, second: seq<User>)
    returns (r1: Result<Team>, r2: Result<Team>)
    requires svc.Valid()
    modifies svc.repo
    ensures svc.Valid()
    ensures r2 == Err(ErrTeamExists)
    ensures name in svc.repo.teams
    ensures r1.Ok? ==> svc.repo.teams[name] == Team(name, first)
    ensures r1.Err? <==> name in old(svc.repo.teams)
    ensures svc.repo.teams[name] == if r1.Ok? then Team(name, first) else old(svc.repo.teams)[name]
  {
    r1 := svc.CreateTeam(name, first);
    r2 := svc.CreateTeam(name, second);
  }

  /** Merging twice gives the same record, with the merge time of the first call. */
  method MergeTwice(svc: Service, prID: string, t1: Time, t2: Time)
    returns (r1: Result<PullRequest>, r2: Result<PullRequest>)
    requires svc.Valid()
    modifies svc.repo
    ensures svc.Valid()
    ensures r1.Ok? <==> r2.Ok?
    ensures r1.Ok? ==> r2 == r1 && r2.value.Status == PRStatusMerged && r2.value.MergedAt.Some?
  {
    r1 := svc.MergePullRequest(prID, t1);
    ghost var merged := svc.repo.prs;
    r2 := svc.MergePullRequest(prID, t2);
    if r1.Ok? {
      assert merged[prID] == r1.value;
      assert svc.repo.prs == merged;
    }
  }

  /** After a merge, reassignment fails with ErrPRMerged and the PR stays as merged. */
  method ReassignAfterMerge(svc: Service, prID: string, oldUserID: string, now: Time)
    returns (merged: Result<PullRequest>, r: Result<(PullRequest, string)>)
    requires svc.Valid()
    modifies svc.repo
    ensures svc.Valid()
    ensures merged.Ok? ==> r == Err(ErrPRMerged) && prID in svc.repo.prs && svc.repo.prs[prID] == merged.value
  {
    merged := svc.MergePullRequest(prID, now);
    r := svc.ReassignReviewer(prID, oldUserID);
  }

  /** The members of team "core": active A, B and C and inactive D. */
  function CoreMembers(): (ms: seq<User>)
    ensures |ms| == 4 && IDs(ms) == ["A", "B", "C", "D"]
  {
    [User("A", "alice", "core", true), User("B", "bob", "core", true),
     User("C", "carol", "core", true), User("D", "dave", "core", false)]
  }

  /** A fresh service holding only team "core". */
  method CoreService() returns (svc: Service)
    ensures fresh(svc.repo) && svc.Valid()
    ensures svc.repo.prs == map[]
    ensures "A" in svc.repo.users && svc.repo.users["A"] == CoreMembers()[0]
    ensures "core" in svc.repo.teams && svc.repo.teams["core"].Members == CoreMembers()
  {
    var store := new Repo.Store();
    svc := new Service(store);
    var t := svc.CreateTeam("core", CoreMembers());
    Repo.IndexMembersSpec(map[], CoreMembers());
    assert IDs(CoreMembers())[0] == "A";
  }

  /** B and C are both in the author's pool of team "core", so the pool has at least two members. */
  lemma CorePoolSize()
    ensures |AuthorPool(CoreMembers(), "A")| >= 2
  {
    var ms := CoreMembers();
    var pool := AuthorPool(ms, "A");
    AuthorPoolSpec(ms, "A");
    assert IDs(ms)[1] == "B" && IDs(ms)[2] == "C";
    assert ms[1] in pool && ms[2] in pool;
  }

  /** The first PR of A gets two reviewers, from B and C only, never the author or inactive D. */
  method ReviewersOfCore() returns (pr: Result<PullRequest>)
    ensures pr.Ok? && |pr.value.AssignedReviewers| == 2
    ensures forall rid :: rid in pr.value.AssignedReviewers ==> rid == "B" || rid == "C"
  {
    var svc := CoreService();
    pr := svc.CreatePullRequest("pr1", "feat", "A", 0);
    CorePoolSize();
    forall rid | rid in pr.value.AssignedReviewers ensures rid == "B" || rid == "C" {
      var m :| m in CoreMembers() && m.ID == rid && EligibleForAuthor(m, "A");
      assert m == CoreMembers()[1] || m == CoreMembers()[2];
    }
  }

  /** Author A, reviewer B, and C and E, who are active exactly when `othersActive` holds. */
  function ReassignMembers(othersActive: bool): (ms: seq<User>)
    ensures |ms| == 4 && IDs(ms) == ["A", "B", "C", "E"]
  {
    [User("A", "alice", "core", true), User("B", "bob", "core", true),
     User("C", "carol", "core", othersActive), User("E", "erin", "core", othersActive)]
  }

  /** The open PR "pr1" of A, reviewed by B alone. */
  function ReviewedByB(): PullRequest
  {
    PullRequest("pr1", "feat", "A", PRStatusOpen, ["B"], Some(0), None)
  }

  /** A fresh service holding team "core" of ReassignMembers and the PR ReviewedByB. */
  method ReassignService(othersActive: bool) returns (svc: Service)
    ensures fresh(svc.repo) && svc.Valid()
    ensures svc.repo.prs == map["pr1" := ReviewedByB()]
    ensures svc.repo.users.Keys == {"A", "B", "C", "E"} && svc.repo.users["B"].TeamName == "core"
    ensures svc.repo.teams == map["core" := Team("core", ReassignMembers(othersActive))]
  {
    var ms := ReassignMembers(othersActive);
    var store := new Repo.Store();
    store.teams := map["core" := Team("core", ms)];
    store.users := map["A" := ms[0], "B" := ms[1], "C" := ms[2], "E" := ms[3]];
    store.prs := map["pr1" := ReviewedByB()];
    assert IDs(ms)[0] == "A" && IDs(ms)[1] == "B" && IDs(ms)[2] == "C" && IDs(ms)[3] == "E";
    svc := new Service(store);
  }

  /** An active member of ReassignMembers(true) other than A and B is C or E. */
  lemma OtherActiveMember(newID: string)
    requires exists m :: m in ReassignMembers(true) && m.ID == newID && m.IsActive
    requires newID != "A" && newID != "B"
    ensures newID == "C" || newID == "E"
  {
    var ms := ReassignMembers(true);
    var m :| m in ms && m.ID == newID && m.IsActive;
    assert IDs(ms)[0] == "A" && IDs(ms)[1] == "B";
    assert m == ms[2] || m == ms[3];
  }

  /** With C and E active, B's slot goes to C or E and B leaves the PR. */
  method ReassignWithinCore() returns (r: Result<(PullRequest, string)>)
    ensures r.Ok? && (r.value.1 == "C" || r.value.1 == "E")
    ensures r.value.0.AssignedReviewers == [r.value.1]
  {
    var svc := ReassignService(true);
    var ms := ReassignMembers(true);
    assert ReviewerSet(ReviewedByB()) == {"B"};
    ReplacementPoolSpec(ms, "B", "A", {"B"});
    assert IDs(ms)[2] == "C";
    assert ms[2] in Replacements(ReviewedByB(), Team("core", ms), "B");
    r := svc.ReassignReviewer("pr1", "B");
    OtherActiveMember(r.value.1);
  }

  /** With C and E inactive nobody can take B's slot: NoCandidate, and the PR is left as it was. */
  method ReassignWithoutCandidate() returns (svc: Service, r: Result<(PullRequest, string)>)
    ensures r == Err(ErrNoCandidate)
    ensures svc.repo.prs == map["pr1" := ReviewedByB()]
  {
    svc := ReassignService(false);
    var ms := ReassignMembers(false);
    assert ReviewerSet(ReviewedByB()) == {"B"};
    ReplacementPoolSpec(ms, "B", "A", {"B"});
    r := svc.ReassignReviewer("pr1", "B");
  }
}
