/**
 * The entities of the review service: users, teams and pull requests.
 * Field and constant names follow the ones the service layer uses
 * (AuthorID, PRStatusOpen, PRStatusMerged).
 */
module Model {

  datatype Option<T> = None | Some(value: T)

  /** Wall-clock instants are abstract: only equality and identity matter here. */
  type Time = int

  datatype User = User(ID: string, Username: string, TeamName: string, IsActive: bool)

  /** A team and the ordered list of its members, as given at creation. */
  datatype Team = Team(Name: string, Members: seq<User>)

  datatype PRStatus = PRStatusOpen | PRStatusMerged

  datatype PullRequest = PullRequest(
    ID: string,
    Name: string,
    AuthorID: string,
    Status: PRStatus,
    AssignedReviewers: seq<string>,
    CreatedAt: Option<Time>,
    MergedAt: Option<Time>)

  /** The ids of a list of users, in the same order. */
  function IDs(us: seq<User>): (ids: seq<string>)
    ensures |ids| == |us|
    ensures forall i :: 0 <= i < |us| ==> ids[i] == us[i].ID
  {
    seq(|us|, i requires 0 <= i < |us| => us[i].ID)
  }

  lemma IDsConcat(a: seq<User>, b: seq<User>)
    ensures IDs(a + b) == IDs(a) + IDs(b)
  {
  }

  /** No id occurs twice. */
  predicate Distinct(s: seq<string>)
  {
    forall i, j :: 0 <= i < j < |s| ==> s[i] != s[j]
  }
}
