/**
 * The forum's HTTP handlers (backend/internal/handlers/forum_handler.go)
 * over an in-memory picture of the database: posts and comments by id,
 * and votes keyed by (user, target) as the vote table's unique index
 * `idx_user_target` keys them. Requests arrive decoded (`None` for a body
 * that does not decode); the authenticated user id is a parameter, ""
 * when there is none.
 */
module ForumHandler {
  import opened Common

  /** The unique index of the vote table: one vote per user and target. */
  datatype VoteKey = VoteKey(user: string, target: string)

  /** The rest of a vote row. */
  datatype VoteRow = VoteRow(targetType: string, value: int)

  type Votes = map<VoteKey, VoteRow>

  datatype PostRow = PostRow(title: string, content: string, creator: string, upvotes: int)

  datatype CommentRow = CommentRow(postId: string, content: string, creator: string, upvotes: int)

  /** The body of a vote request: `target_id`, `target_type`, `value`. */
  datatype VoteRequest = VoteRequest(targetId: string, targetType: string, value: int)

  /** The value stored for a key, 0 when there is no row. */
  function StoredValue(votes: Votes, k: VoteKey): int
  {
    if k in votes then votes[k].value else 0
  }

  /**
   * The vote table after `HandleVote`'s write. A row of the requested type
   * with the same value is deleted, one with another value overwritten.
   * Without a row of that type the handler inserts one; the insert is
   * refused by the unique index when the user already has a vote of
   * another type on the target, and the handler ignores that error.
   */
  function Voted(votes: Votes, user: string, req: VoteRequest): Votes
  {
    var k := VoteKey(user, req.targetId);
    if k in votes && votes[k].targetType == req.targetType then
      if votes[k].value == req.value then votes - {k}
      else votes[k := votes[k].(value := req.value)]
    else if k in votes then votes
    else votes[k := VoteRow(req.targetType, req.value)]
  }

  /**
   * A vote touches only the caller's row for the target. When that row is
   * absent or of the requested type: with no row a row holding the value is
   * created, a row with the same value is deleted and one with another value
   * is overwritten.
   */
  lemma VotedEffect(votes: Votes, user: string, req: VoteRequest)
    ensures var v := Voted(votes, user, req);
      var k := VoteKey(user, req.targetId);
      (forall j :: j != k ==> (j in v <==> j in votes) && (j in v ==> v[j] == votes[j])) &&
      (k !in votes ==> k in v && v[k] == VoteRow(req.targetType, req.value)) &&
      (k in votes && votes[k].targetType == req.targetType && votes[k].value == req.value ==> k !in v) &&
      (k in votes && votes[k].targetType == req.targetType && votes[k].value != req.value ==>
         k in v && v[k] == VoteRow(req.targetType, req.value)) &&
      (k in votes && votes[k].targetType != req.targetType ==> v == votes)
  {
  }

  /**
   * Sending the same request twice restores the table when the caller had
   * no vote on the target or had exactly that vote; after a different vote
   * of the same type, the second request deletes the row instead.
   */
  lemma VoteTwice(votes: Votes, user: string, req: VoteRequest)
    ensures var k := VoteKey(user, req.targetId);
      (k !in votes || votes[k] == VoteRow(req.targetType, req.value)) ==>
        Voted(Voted(votes, user, req), user, req) == votes
    ensures var k := VoteKey(user, req.targetId);
      k in votes && votes[k].targetType == req.targetType && votes[k].value != req.value ==>
        Voted(Voted(votes, user, req), user, req) == votes - {k}
  {
    var k := VoteKey(user, req.targetId);
    if k !in votes {
      assert Voted(votes, user, req) == votes[k := VoteRow(req.targetType, req.value)];
      assert votes[k := VoteRow(req.targetType, req.value)] - {k} == votes;
    } else if votes[k] == VoteRow(req.targetType, req.value) {
      assert (votes - {k})[k := votes[k]] == votes;
    }
  }

  /** What the row at `k` adds to the sum for `target`. */
  function Contribution(votes: Votes, k: VoteKey, target: string): int
    requires k in votes
  {
    if k.target == target then votes[k].value else 0
  }

  /** Removing a key makes the table one row smaller. */
  lemma RemoveShrinks(votes: Votes, k: VoteKey)
    requires k in votes
    ensures |votes - {k}| == |votes| - 1
  {
    assert (votes - {k}).Keys == votes.Keys - {k};
  }

  /**
   * `SELECT SUM(value) FROM votes WHERE target_id = ?`: the sum over every
   * row for the target, of any type and any user; 0 when there is none,
   * because the NULL of an empty sum leaves the handler's `total` at 0.
   */
  ghost function Total(votes: Votes, target: string): int
    decreases |votes|
  {
    if votes == map[] then 0
    else
      var k :| k in votes;
      RemoveShrinks(votes, k);
      Contribution(votes, k, target) + Total(votes - {k}, target)
  }

  /** The sum does not depend on the order rows are visited: any row can be taken out first. */
  lemma {:induction false} TotalRemove(votes: Votes, k: VoteKey, target: string)
    requires k in votes
    ensures Total(votes, target) == Contribution(votes, k, target) + Total(votes - {k}, target)
    decreases |votes|
  {
    var j :| j in votes && Total(votes, target) == Contribution(votes, j, target) + Total(votes - {j}, target);
    if j != k {
      RemoveShrinks(votes, j);
      RemoveShrinks(votes, k);
      TotalRemove(votes - {j}, k, target);
      TotalRemove(votes - {k}, j, target);
      assert Contribution(votes - {j}, k, target) == Contribution(votes, k, target);
      assert Contribution(votes - {k}, j, target) == Contribution(votes, j, target);
      assert (votes - {j}) - {k} == (votes - {k}) - {j};
    }
  }

  /** Rows for other targets do not count towards a target's total. */
  lemma {:induction false} TotalOtherTarget(votes: Votes, k: VoteKey, r: VoteRow, target: string)
    requires k.target != target
    ensures Total(votes[k := r], target) == Total(votes, target)
    ensures k in votes ==> Total(votes - {k}, target) == Total(votes, target)
  {
    var v := votes[k := r];
    TotalRemove(v, k, target);
    if k in votes {
      assert v - {k} == votes - {k};
      TotalRemove(votes, k, target);
    } else {
      assert v - {k} == votes;
    }
  }

  /**
   * After a vote the target's total moves by exactly the change in the
   * caller's stored value, and every other target's total is unchanged.
   */
  lemma TotalAfterVote(votes: Votes, user: string, req: VoteRequest, target: string)
    ensures var k := VoteKey(user, req.targetId);
      target == req.targetId ==>
        Total(Voted(votes, user, req), target) ==
        Total(votes, target) - StoredValue(votes, k) + StoredValue(Voted(votes, user, req), k)
    ensures target != req.targetId ==> Total(Voted(votes, user, req), target) == Total(votes, target)
  {
    var k := VoteKey(user, req.targetId);
    var v := Voted(votes, user, req);
    VotedEffect(votes, user, req);
    if target == req.targetId {
      if k in votes {
        TotalRemove(votes, k, target);
      }
      if k in v {
        TotalRemove(v, k, target);
      }
      assert v - {k} == votes - {k};
      if k !in votes {
        assert votes - {k} == votes;
      }
      if k !in v {
        assert v - {k} == v;
      }
    } else if k in votes && votes[k].targetType == req.targetType && votes[k].value == req.value {
      TotalOtherTarget(votes, k, votes[k], target);
    } else if k !in votes || votes[k].targetType == req.targetType {
      TotalOtherTarget(votes, k, VoteRow(req.targetType, req.value), target);
    }
  }

  /** The stored vote `query`'s type filter admits (`None` for no filter on `target_type`). */
  predicate TypeMatches(r: VoteRow, ttype: Option<string>)
  {
    ttype.None? || r.targetType == ttype.value
  }

  /** The caller's vote on a target as hydration reports it: the stored value, 0 without a matching row. */
  function UserVoteOf(votes: Votes, user: string, target: string, ttype: Option<string>): int
  {
    var k := VoteKey(user, target);
    if k in votes && TypeMatches(votes[k], ttype) then votes[k].value else 0
  }

  /** A vote row as a query returns it. */
  datatype Row = Row(key: VoteKey, vote: VoteRow)

  /**
   * `rows` is what `WHERE user_id = ? AND target_id IN ? [AND target_type = ?]`
   * returns: stored rows of the caller for the listed targets, every such
   * row at least once, in any order.
   */
  ghost predicate QueryResult(rows: seq<Row>, votes: Votes, user: string, ids: set<string>, ttype: Option<string>)
  {
    (forall i :: 0 <= i < |rows| ==>
       rows[i].key in votes && votes[rows[i].key] == rows[i].vote && rows[i].key.user == user &&
       rows[i].key.target in ids && TypeMatches(rows[i].vote, ttype)) &&
    (forall k :: k in votes && k.user == user && k.target in ids && TypeMatches(votes[k], ttype) ==>
       exists i :: 0 <= i < |rows| && rows[i].key == k)
  }

  /** `voteMap[v.TargetID] = v.Value` over the rows in order: a later row for a target wins. */
  function VoteMapOf(rows: seq<Row>): map<string, int>
  {
    if rows == [] then map[]
    else VoteMapOf(rows[..|rows| - 1])[rows[|rows| - 1].key.target := rows[|rows| - 1].vote.value]
  }

  /** The map has an entry exactly for the targets of the rows, and each entry is the value of such a row. */
  lemma {:induction false} VoteMapEntry(rows: seq<Row>, t: string)
    ensures t in VoteMapOf(rows) <==> exists i :: 0 <= i < |rows| && rows[i].key.target == t
    ensures t in VoteMapOf(rows) ==>
      exists i :: 0 <= i < |rows| && rows[i].key.target == t && rows[i].vote.value == VoteMapOf(rows)[t]
    decreases |rows|
  {
    if rows != [] {
      var init := rows[..|rows| - 1];
      VoteMapEntry(init, t);
      if rows[|rows| - 1].key.target != t {
        if exists i :: 0 <= i < |rows| && rows[i].key.target == t {
          var i :| 0 <= i < |rows| && rows[i].key.target == t;
          assert init[i] == rows[i];
        }
        if t in VoteMapOf(init) {
          var i :| 0 <= i < |init| && init[i].key.target == t && init[i].vote.value == VoteMapOf(init)[t];
          assert rows[i] == init[i];
        }
      }
    }
  }

  /** `voteMap[id]`: Go's zero value 0 for a missing key. */
  function Lookup(m: map<string, int>, id: string): int
  {
    if id in m then m[id] else 0
  }

  /**
   * Hydration reports the stored vote: for a listed target, the vote map
   * built from the query's rows gives the caller's stored value of the
   * filtered type, or 0 when there is none.
   */
  lemma HydrationIsStoredVote(rows: seq<Row>, votes: Votes, user: string, ids: set<string>,
                              ttype: Option<string>, id: string)
    requires QueryResult(rows, votes, user, ids, ttype) && id in ids
    ensures Lookup(VoteMapOf(rows), id) == UserVoteOf(votes, user, id, ttype)
  {
    VoteMapEntry(rows, id);
    var k := VoteKey(user, id);
    if k in votes && TypeMatches(votes[k], ttype) {
      var i :| 0 <= i < |rows| && rows[i].key == k;
      assert rows[i].key.target == id;
    }
    if id in VoteMapOf(rows) {
      var i :| 0 <= i < |rows| && rows[i].key.target == id && rows[i].vote.value == VoteMapOf(rows)[id];
      assert rows[i].key == k;
    }
  }

  /** A post or comment as a handler returns it, with its `UserVote` field. */
  datatype Item = Item(id: string, upvotes: int, userVote: int)

  /** The first hydration loop: the vote map of the query's rows. */
  method BuildVoteMap(rows: seq<Row>) returns (m: map<string, int>)
    ensures m == VoteMapOf(rows)
  {
    m := map[];
    for i := 0 to |rows|
      invariant m == VoteMapOf(rows[..i])
    {
      assert rows[..i + 1][..i] == rows[..i];
      m := m[rows[i].key.target := rows[i].vote.value];
    }
    assert rows[..|rows|] == rows;
  }

  /** The second hydration loop: every item's `UserVote` is written in place from the vote map. */
  method Hydrate(items: array<Item>, rows: seq<Row>)
    modifies items
    ensures forall i :: 0 <= i < items.Length ==>
              items[i] == old(items[i]).(userVote := Lookup(VoteMapOf(rows), old(items[i]).id))
  {
    var voteMap := BuildVoteMap(rows);
    for i := 0 to items.Length
      invariant forall j :: 0 <= j < i ==> items[j] == old(items[j]).(userVote := Lookup(voteMap, old(items[j]).id))
      invariant forall j :: i <= j < items.Length ==> items[j] == old(items[j])
    {
      items[i] := items[i].(userVote := Lookup(voteMap, items[i].id));
    }
  }

  /** The sum `updateVoteCount` reads, computed row by row. */
  method SumVotes(votes: Votes, target: string) returns (total: int)
    ensures total == Total(votes, target)
  {
    total := 0;
    var rest := votes;
    while rest != map[]
      invariant total + Total(rest, target) == Total(votes, target)
      decreases |rest|
    {
      var k :| k in rest;
      TotalRemove(rest, k, target);
      RemoveShrinks(rest, k);
      total := total + Contribution(rest, k, target);
      rest := rest - {k};
    }
  }

  /** The id a new post gets: "P-" and the first eight characters of a fresh UUID. */
  function PostId(uuid: string): (id: string)
    requires |uuid| >= 8
    ensures |id| == 10 && id[..2] == "P-" && id[2..] == uuid[..8]
  {
    "P-" + uuid[..8]
  }

  /** The database behind the handlers. */
  class Store {
    var posts: map<string, PostRow>
    var comments: map<string, CommentRow>
    var votes: Votes

    constructor (posts0: map<string, PostRow>, comments0: map<string, CommentRow>, votes0: Votes)
      ensures posts == posts0 && comments == comments0 && votes == votes0
    {
      posts := posts0;
      comments := comments0;
      votes := votes0;
    }

    /**
     * `HandleCreatePost`: 401 without a user, 400 for a payload that does
     * not decode; otherwise the post is stored under "P-" and eight UUID
     * characters with the caller as creator, and 500 when that id is taken.
     * The payload's other fields are stored as sent.
     */
    method CreatePost(user: string, payload: Option<PostRow>, uuid: string) returns (status: int, id: Option<string>)
      requires |uuid| >= 8
      modifies this`posts
      ensures user == "" ==> status == 401 && id.None? && posts == old(posts)
      ensures user != "" && payload.None? ==> status == 400 && id.None? && posts == old(posts)
      ensures user != "" && payload.Some? && PostId(uuid) in old(posts) ==>
                status == 500 && id.None? && posts == old(posts)
      ensures user != "" && payload.Some? && PostId(uuid) !in old(posts) ==>
                status == 200 && id == Some(PostId(uuid)) &&
                posts == old(posts)[PostId(uuid) := payload.value.(creator := user)]
    {
      if user == "" {
        return 401, None;
      }
      if payload.None? {
        return 400, None;
      }
      var newId := PostId(uuid);
      if newId in posts {
        return 500, None;
      }
      posts := posts[newId := payload.value.(creator := user)];
      status, id := 200, Some(newId);
    }

    /**
     * `HandleDeletePost`: a request that is not a DELETE is answered 200
     * with nothing done; otherwise the post is removed when it exists and
     * the caller created it, and the answer is 403 when no row matched.
     */
    method DeletePost(isDelete: bool, postId: string, user: string) returns (status: int)
      modifies this`posts
      ensures !isDelete ==> status == 200 && posts == old(posts)
      ensures isDelete && postId in old(posts) && old(posts)[postId].creator == user ==>
                status == 200 && posts == old(posts) - {postId}
      ensures isDelete && !(postId in old(posts) && old(posts)[postId].creator == user) ==>
                status == 403 && posts == old(posts)
    {
      if !isDelete {
        return 200;
      }
      if postId in posts && posts[postId].creator == user {
        posts := posts - {postId};
        return 200;
      }
      return 403;
    }

    /** `HandleDeleteComment`: the same rule for comments. */
    method DeleteComment(isDelete: bool, commentId: string, user: string) returns (status: int)
      modifies this`comments
      ensures !isDelete ==> status == 200 && comments == old(comments)
      ensures isDelete && commentId in old(comments) && old(comments)[commentId].creator == user ==>
                status == 200 && comments == old(comments) - {commentId}
      ensures isDelete && !(commentId in old(comments) && old(comments)[commentId].creator == user) ==>
                status == 403 && comments == old(comments)
    {
      if !isDelete {
        return 200;
      }
      if commentId in comments && comments[commentId].creator == user {
        comments := comments - {commentId};
        return 200;
      }
      return 403;
    }

    /**
     * `updateVoteCount`: the target's upvotes become the sum of every vote
     * on its id; the post table is written for type "post" and the comment
     * table for any other type, and nothing when no row has the id.
     */
    method UpdateVoteCount(target: string, targetType: string)
      modifies this`posts, this`comments
      ensures targetType == "post" ==>
                comments == old(comments) &&
                posts == if target in old(posts) then old(posts)[target := old(posts)[target].(upvotes := Total(votes, target))]
                         else old(posts)
      ensures targetType != "post" ==>
                posts == old(posts) &&
                comments == if target in old(comments) then old(comments)[target := old(comments)[target].(upvotes := Total(votes, target))]
                            else old(comments)
    {
      var total := SumVotes(votes, target);
      if targetType == "post" {
        if target in posts {
          posts := posts[target := posts[target].(upvotes := total)];
        }
      } else {
        if target in comments {
          comments := comments[target := comments[target].(upvotes := total)];
        }
      }
    }

    /**
     * `HandleVote`: 401 without a user and 400 for a body that does not
     * decode, the store unchanged; otherwise the vote is written and the
     * target's total recomputed, and the answer is 200.
     */
    method HandleVote(user: string, req: Option<VoteRequest>) returns (status: int)
      modifies this`votes, this`posts, this`comments
      ensures user == "" || req.None? ==>
                status == (if user == "" then 401 else 400) &&
                votes == old(votes) && posts == old(posts) && comments == old(comments)
      ensures user != "" && req.Some? ==> status == 200 && votes == Voted(old(votes), user, req.value)
      ensures user != "" && req.Some? && req.value.targetType == "post" ==>
                comments == old(comments) &&
                posts == if req.value.targetId in old(posts)
                         then old(posts)[req.value.targetId := old(posts)[req.value.targetId].(upvotes := Total(votes, req.value.targetId))]
                         else old(posts)
      ensures user != "" && req.Some? && req.value.targetType != "post" ==>
                posts == old(posts) &&
                comments == if req.value.targetId in old(comments)
                            then old(comments)[req.value.targetId := old(comments)[req.value.targetId].(upvotes := Total(votes, req.value.targetId))]
                            else old(comments)
    {
      if user == "" {
        return 401;
      }
      if req.None? {
        return 400;
      }
      votes := Voted(votes, user, req.value);
      UpdateVoteCount(req.value.targetId, req.value.targetType);
      status := 200;
    }
  }
}
