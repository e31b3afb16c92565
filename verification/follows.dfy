/**
 * The follow and unfollow views (app/main/views.py). The follow relation
 * itself is only seen through `is_following`, `follow` and `unfollow`,
 * whose bodies are not part of this model; they are taken to be
 * membership, insertion and removal of one edge (follower id, followed id)
 * in a set of edges.
 */
module Follows {
  import opened Wrappers
  import opened Accounts
  import opened Store

  type Edges = set<(nat, nat)>

  predicate IsFollowing(edges: Edges, follower: nat, followed: nat) {
    (follower, followed) in edges
  }

  datatype FollowOutcome =
    | InvalidUser        // "Invalid user.", back to the index
    | AlreadyFollowing   // "You are already following this user."
    | NowFollowing       // "You are now following ...", and the followed user is emailed
    | NotFollowing       // "You are not following this user."
    | NoLongerFollowing  // "You are not following ... anymore."

  datatype FollowResult = FollowResult(outcome: FollowOutcome, edges: Edges)

  /**
   * `follow(username)` for the signed-in user `current`: an unknown user
   * or an existing edge changes nothing; otherwise exactly the edge from
   * `current` to the target is added.
   */
  function FollowView(users: seq<User>, edges: Edges, current: nat, username: string): (r: FollowResult)
    ensures r.outcome == InvalidUser <==> !UsernameTaken(users, username)
    ensures r.outcome != NowFollowing ==> r.edges == edges
    ensures r.outcome == NowFollowing ==>
      var target := users[FindByUsername(users, username).value].id;
      && !IsFollowing(edges, current, target)
      && r.edges == edges + {(current, target)}
    ensures UsernameTaken(users, username) ==>
      var target := users[FindByUsername(users, username).value].id;
      && IsFollowing(r.edges, current, target)
      && (r.outcome == AlreadyFollowing <==> IsFollowing(edges, current, target))
    ensures r.outcome in {InvalidUser, AlreadyFollowing, NowFollowing}
  {
    match FindByUsername(users, username)
    case None => FollowResult(InvalidUser, edges)
    case Some(p) =>
      var target := users[p].id;
      if IsFollowing(edges, current, target) then FollowResult(AlreadyFollowing, edges)
      else FollowResult(NowFollowing, edges + {(current, target)})
  }

  /**
   * `unfollow(username)` for the signed-in user `current`: an unknown user
   * or a missing edge changes nothing; otherwise exactly the edge from
   * `current` to the target is removed. Nothing stops a user from
   * unfollowing themselves.
   */
  function UnfollowView(users: seq<User>, edges: Edges, current: nat, username: string): (r: FollowResult)
    ensures r.outcome == InvalidUser <==> !UsernameTaken(users, username)
    ensures r.outcome != NoLongerFollowing ==> r.edges == edges
    ensures r.outcome == NoLongerFollowing ==>
      var target := users[FindByUsername(users, username).value].id;
      && IsFollowing(edges, current, target)
      && r.edges == edges - {(current, target)}
    ensures UsernameTaken(users, username) ==>
      var target := users[FindByUsername(users, username).value].id;
      && !IsFollowing(r.edges, current, target)
      && (r.outcome == NotFollowing <==> !IsFollowing(edges, current, target))
    ensures r.outcome in {InvalidUser, NotFollowing, NoLongerFollowing}
  {
    match FindByUsername(users, username)
    case None => FollowResult(InvalidUser, edges)
    case Some(p) =>
      var target := users[p].id;
      if !IsFollowing(edges, current, target) then FollowResult(NotFollowing, edges)
      else FollowResult(NoLongerFollowing, edges - {(current, target)})
  }

  /** Following twice leaves the same edges as following once; the second time reports "already following". */
  lemma FollowIdempotent(users: seq<User>, edges: Edges, current: nat, username: string)
    ensures var once := FollowView(users, edges, current, username);
      var twice := FollowView(users, once.edges, current, username);
      && twice.edges == once.edges
      && (UsernameTaken(users, username) ==> twice.outcome == AlreadyFollowing)
  {
  }

  /** Unfollowing twice leaves the same edges as unfollowing once; the second time reports "not following". */
  lemma UnfollowIdempotent(users: seq<User>, edges: Edges, current: nat, username: string)
    ensures var once := UnfollowView(users, edges, current, username);
      var twice := UnfollowView(users, once.edges, current, username);
      && twice.edges == once.edges
      && (UsernameTaken(users, username) ==> twice.outcome == NotFollowing)
  {
  }

  /** Unfollowing right after a successful follow restores the edges exactly. */
  lemma UnfollowUndoesFollow(users: seq<User>, edges: Edges, current: nat, username: string)
    requires FollowView(users, edges, current, username).outcome == NowFollowing
    ensures var f := FollowView(users, edges, current, username);
      var u := UnfollowView(users, f.edges, current, username);
      u.outcome == NoLongerFollowing && u.edges == edges
  {
  }

  /** A follow or unfollow by one user never touches an edge that starts at another user. */
  lemma OnlyOwnEdgesChange(users: seq<User>, edges: Edges, current: nat, username: string, e: (nat, nat))
    requires e.0 != current
    ensures e in FollowView(users, edges, current, username).edges <==> e in edges
    ensures e in UnfollowView(users, edges, current, username).edges <==> e in edges
  {
  }
}
