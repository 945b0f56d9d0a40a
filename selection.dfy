/**
 * The reviewer-selection steps of the review service: the candidate pools,
 * the shuffle-and-cut choice of reviewers, the search for a reviewer's slot
 * and the set of already assigned reviewers. Random choices are taken with
 * `:|`, so every contract here holds for every outcome of the random source.
 */
module Selection {
  import opened Model

  /** The members that satisfy `keep`, in their original order. */
  function Keep(members: seq<User>, keep: User -> bool): seq<User>
    decreases |members|
  {
    if members == [] then []
    else
      var rest := Keep(members[..|members| - 1], keep);
      var last := members[|members| - 1];
      if keep(last) then rest + [last] else rest
  }

  lemma {:induction false} KeepMembers(members: seq<User>, keep: User -> bool)
    ensures forall u :: u in Keep(members, keep) <==> u in members && keep(u)
    decreases |members|
  {
    if members != [] {
      var init := members[..|members| - 1];
      KeepMembers(init, keep);
      assert members == init + [members[|members| - 1]];
    }
  }

  /** Filtering never adds an id and never repeats one more often than the input does. */
  lemma {:induction false} KeepIDs(members: seq<User>, keep: User -> bool)
    ensures multiset(IDs(Keep(members, keep))) <= multiset(IDs(members))
    decreases |members|
  {
    if members != [] {
      var init := members[..|members| - 1];
      var last := members[|members| - 1];
      KeepIDs(init, keep);
      assert members == init + [last];
      IDsConcat(init, [last]);
      IDsConcat(Keep(init, keep), [last]);
      assert IDs([last]) == [last.ID];
    }
  }

  /** A member the author's PR may be given as reviewer (the pool filter of CreatePullRequest). */
  predicate EligibleForAuthor(m: User, authorID: string)
  {
    m.ID != authorID && m.IsActive
  }

  function AuthorPool(members: seq<User>, authorID: string): seq<User>
  {
    Keep(members, m => EligibleForAuthor(m, authorID))
  }

  /** A member that may take over a slot (the pool filter of ReassignReviewer). */
  predicate EligibleReplacement(m: User, oldUserID: string, authorID: string, assignedIDs: set<string>)
  {
    m.IsActive && m.ID != oldUserID && m.ID != authorID && m.ID !in assignedIDs
  }

  function ReplacementPool(members: seq<User>, oldUserID: string, authorID: string, assignedIDs: set<string>): seq<User>
  {
    Keep(members, m => EligibleReplacement(m, oldUserID, authorID, assignedIDs))
  }

  /** Each pool holds exactly the members its filter admits. */
  lemma AuthorPoolSpec(members: seq<User>, authorID: string)
    ensures forall u :: u in AuthorPool(members, authorID) <==> u in members && EligibleForAuthor(u, authorID)
    ensures multiset(IDs(AuthorPool(members, authorID))) <= multiset(IDs(members))
  {
    KeepMembers(members, m => EligibleForAuthor(m, authorID));
    KeepIDs(members, m => EligibleForAuthor(m, authorID));
  }

  lemma ReplacementPoolSpec(members: seq<User>, oldUserID: string, authorID: string, assignedIDs: set<string>)
    ensures forall u :: u in ReplacementPool(members, oldUserID, authorID, assignedIDs) <==>
      u in members && EligibleReplacement(u, oldUserID, authorID, assignedIDs)
  {
    KeepMembers(members, m => EligibleReplacement(m, oldUserID, authorID, assignedIDs));
  }

  /** A sequence without repeats has every element at most once in its multiset. */
  lemma {:induction false} DistinctCount(s: seq<string>, x: string)
    requires Distinct(s)
    ensures multiset(s)[x] <= 1
    decreases |s|
  {
    if s != [] {
      assert s == [s[0]] + s[1..];
      assert Distinct(s[1..]) by {
        forall i, j | 0 <= i < j < |s[1..]| ensures s[1..][i] != s[1..][j] {
          assert s[1..][i] == s[i + 1] && s[1..][j] == s[j + 1];
        }
      }
      DistinctCount(s[1..], x);
      if s[0] == x {
        assert x !in s[1..] by {
          forall k | 0 <= k < |s[1..]| ensures s[1..][k] != x {
            assert s[1..][k] == s[k + 1];
          }
        }
      }
    }
  }

  /** Taking some of the elements of a sequence without repeats gives no repeats. */
  lemma DistinctSub(x: seq<string>, y: seq<string>)
    requires multiset(x) <= multiset(y)
    requires Distinct(y)
    ensures Distinct(x)
  {
    forall i, j | 0 <= i < j < |x| ensures x[i] != x[j] {
      if x[i] == x[j] {
        var v := x[i];
        assert x == x[..j] + [v] + x[j + 1..];
        assert v in x[..j];
        assert multiset(x)[v] == multiset(x[..j])[v] + 1 + multiset(x[j + 1..])[v];
        DistinctCount(y, v);
        assert false;
      }
    }
  }

  /** `t` without its element at position `k`. */
  function Without(t: seq<User>, k: nat): (r: seq<User>)
    requires k < |t|
    ensures |r| == |t| - 1
  {
    t[..k] + t[k + 1..]
  }

  /** Removing the element at `k` removes one occurrence of it from the multiset. */
  lemma RemoveAt(t: seq<User>, k: nat)
    requires k < |t|
    ensures multiset(Without(t, k)) == multiset(t) - multiset{t[k]}
  {
    assert t == t[..k] + [t[k]] + t[k + 1..];
    assert multiset(t) == multiset(t[..k]) + multiset{t[k]} + multiset(t[k + 1..]);
  }

  /** Removing the user at `k` removes one occurrence of its id. */
  lemma RemoveAtIDs(t: seq<User>, k: nat)
    requires k < |t|
    ensures multiset(IDs(t)) == multiset(IDs(Without(t, k))) + multiset{t[k].ID}
  {
    assert t == t[..k] + ([t[k]] + t[k + 1..]);
    IDsConcat(t[..k], [t[k]] + t[k + 1..]);
    IDsConcat([t[k]], t[k + 1..]);
    IDsConcat(t[..k], t[k + 1..]);
    assert IDs([t[k]]) == [t[k].ID];
  }

  /**
   * The first user of `s` sits at some position `k` of its permutation `t`;
   * removing both leaves permutations of each other, and removes one occurrence
   * of that user's id on either side.
   */
  lemma PermutationHead(s: seq<User>, t: seq<User>) returns (k: nat)
    requires multiset(s) == multiset(t) && s != []
    ensures k < |t| && t[k] == s[0]
    ensures multiset(Without(s, 0)) == multiset(Without(t, k))
    ensures multiset(IDs(s)) == multiset(IDs(Without(s, 0))) + multiset{s[0].ID}
    ensures multiset(IDs(t)) == multiset(IDs(Without(t, k))) + multiset{s[0].ID}
  {
    assert s[0] in t by { assert s[0] in multiset(s); }
    k :| 0 <= k < |t| && t[k] == s[0];
    RemoveAt(t, k);
    RemoveAt(s, 0);
    RemoveAtIDs(t, k);
    RemoveAtIDs(s, 0);
  }

  /** Permuting users permutes their ids. */
  lemma {:induction false} IDsPermutation(s: seq<User>, t: seq<User>)
    requires multiset(s) == multiset(t)
    ensures multiset(IDs(s)) == multiset(IDs(t))
    decreases |s|
  {
    if s == [] {
      assert |t| == |multiset(t)| == 0;
    } else {
      var k := PermutationHead(s, t);
      IDsPermutation(Without(s, 0), Without(t, k));
    }
  }

  /** The pool filter of CreatePullRequest: team members other than the author that are active. */
  method CandidatesForAuthor(members: seq<User>, authorID: string) returns (candidates: seq<User>)
    ensures candidates == AuthorPool(members, authorID)
  {
    candidates := [];
    for i := 0 to |members|
      invariant candidates == AuthorPool(members[..i], authorID)
    {
      var m := members[i];
      assert members[..i + 1][..i] == members[..i];
      if m.ID == authorID {
        continue;
      }
      if !m.IsActive {
        continue;
      }
      candidates := candidates + [m];
    }
    assert members[..|members|] == members;
  }

  /** The pool filter of ReassignReviewer. */
  method ReplacementCandidates(members: seq<User>, oldUserID: string, authorID: string, assignedIDs: set<string>)
    returns (candidates: seq<User>)
    ensures candidates == ReplacementPool(members, oldUserID, authorID, assignedIDs)
  {
    candidates := [];
    for i := 0 to |members|
      invariant candidates == ReplacementPool(members[..i], oldUserID, authorID, assignedIDs)
    {
      var m := members[i];
      assert members[..i + 1][..i] == members[..i];
      if !m.IsActive {
        continue;
      }
      if m.ID == oldUserID {
        continue;
      }
      if m.ID == authorID {
        continue;
      }
      if m.ID in assignedIDs {
        continue;
      }
      candidates := candidates + [m];
    }
    assert members[..|members|] == members;
  }

  /** The set of ids in a reviewer list. */
  method AssignedSet(reviewers: seq<string>) returns (assignedIDs: set<string>)
    ensures forall r :: r in assignedIDs <==> r in reviewers
  {
    assignedIDs := {};
    for k := 0 to |reviewers|
      invariant forall r :: r in assignedIDs <==> r in reviewers[..k]
    {
      assert reviewers[..k + 1] == reviewers[..k] + [reviewers[k]];
      assignedIDs := assignedIDs + {reviewers[k]};
    }
    assert reviewers[..|reviewers|] == reviewers;
  }

  /** The first position of `x` in `s`, or -1 when it does not occur. */
  function IndexOf(s: seq<string>, x: string): (i: int)
    ensures -1 <= i < |s|
    ensures i == -1 <==> x !in s
    ensures 0 <= i ==> s[i] == x && forall k :: 0 <= k < i ==> s[k] != x
  {
    if s == [] then -1
    else if s[0] == x then 0
    else
      var j := IndexOf(s[1..], x);
      if j == -1 then -1 else j + 1
  }

  /** The linear search of ReassignReviewer for the slot that holds `oldUserID`. */
  method FindReviewerSlot(reviewers: seq<string>, oldUserID: string) returns (idx: int)
    ensures idx == IndexOf(reviewers, oldUserID)
  {
    idx := -1;
    for i := 0 to |reviewers|
      invariant forall k :: 0 <= k < i ==> reviewers[k] != oldUserID
    {
      if reviewers[i] == oldUserID {
        idx := i;
        break;
      }
    }
  }

  /** `rand.Shuffle`: a Fisher-Yates pass whose swap partner is any index not above the current one. */
  method Shuffle(a: array<User>)
    modifies a
    ensures multiset(a[..]) == old(multiset(a[..]))
  {
    var i := a.Length - 1;
    while i > 0
      invariant -1 <= i < a.Length
      invariant multiset(a[..]) == old(multiset(a[..]))
    {
      var j :| 0 <= j <= i;
      a[i], a[j] := a[j], a[i];
      i := i - 1;
    }
  }

  /**
   * `chooseReviewers`: shuffle the candidates, keep at most `max` of them and
   * return their ids.
   */
  method ChooseReviewers(candidates: seq<User>, max: int) returns (ids: seq<string>)
    ensures |candidates| == 0 || max <= 0 ==> ids == []
    ensures |candidates| > 0 && max > 0 ==> |ids| == if |candidates| > max then max else |candidates|
    ensures multiset(ids) <= multiset(IDs(candidates))
    ensures forall id :: id in ids ==> id in IDs(candidates)
    ensures Distinct(IDs(candidates)) ==> Distinct(ids)
  {
    if |candidates| == 0 || max <= 0 {
      return [];
    }
    var a := new User[|candidates|](i requires 0 <= i < |candidates| => candidates[i]);
    assert a[..] == candidates;
    Shuffle(a);
    var n := if a.Length > max then max else a.Length;
    ids := [];
    for i := 0 to n
      invariant ids == IDs(a[..i])
    {
      assert a[..i + 1] == a[..i] + [a[i]];
      ids := ids + [a[i].ID];
    }
    IDsPermutation(a[..], candidates);
    assert a[..] == a[..n] + a[n..];
    IDsConcat(a[..n], a[n..]);
    assert multiset(ids) <= multiset(IDs(candidates));
    forall id | id in ids ensures id in IDs(candidates) {
      assert multiset(ids)[id] > 0;
    }
    if Distinct(IDs(candidates)) {
      DistinctSub(ids, IDs(candidates));
    }
  }
}
