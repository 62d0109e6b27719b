/**
 * The thread page (frontend/src/components/pages/PostDetail.tsx): votes on
 * the post and on its comments, applied to the page's copy of the post
 * before `castVote` is sent, and the comment form's guards.
 */
module PostDetail {
  import opened Common
  import opened ForumCard

  datatype Comment = Comment(id: string, upvotes: Option<int>, userVote: Option<int>)

  datatype Post = Post(id: string, upvotes: int, userVote: Option<int>, comments: seq<Comment>)

  /** The vote state of the post as `handlePostVote` reads it: `user_vote ?? 0` and `upvotes`. */
  function PostState(p: Post): VoteState
  {
    VoteState(OrZero(p.userVote), p.upvotes)
  }

  /** The vote state of a comment as `handleCommentVote` reads it: `user_vote ?? 0`, `upvotes || 0`. */
  function CommentState(c: Comment): VoteState
  {
    VoteState(OrZero(c.userVote), OrZero(c.upvotes))
  }

  /** The post `handlePostVote` shows: the new vote and the count moved by the change. */
  function PostVoted(p: Post, val: int): (q: Post)
    ensures q.id == p.id && q.comments == p.comments && q.userVote.Some?
  {
    var n := ToggledVote(OrZero(p.userVote), val);
    p.(userVote := Some(n), upvotes := p.upvotes + (n - OrZero(p.userVote)))
  }

  /** A post vote toggles exactly as a feed card's does. */
  lemma PostVoteAsCard(p: Post, val: int)
    ensures PostState(PostVoted(p, val)) == Clicked(PostState(p), val).0
  {
  }

  /** `comments.find(c => c.id === id)`: the index of the first comment with that id. */
  function FindComment(cs: seq<Comment>, id: string): (k: Option<nat>)
    ensures k.Some? ==> k.value < |cs| && cs[k.value].id == id &&
                        forall i :: 0 <= i < k.value ==> cs[i].id != id
    ensures k.None? ==> forall i :: 0 <= i < |cs| ==> cs[i].id != id
  {
    if cs == [] then None
    else if cs[0].id == id then Some(0)
    else
      var k := FindComment(cs[1..], id);
      if k.Some? then Some(k.value + 1) else None
  }

  /** The `map` of `handleCommentVote`: every comment with the id gets vote `n` and its count moved by `diff`. */
  function CommentsVoted(cs: seq<Comment>, id: string, n: int, diff: int): (ds: seq<Comment>)
    ensures |ds| == |cs|
  {
    seq(|cs|, i requires 0 <= i < |cs| =>
      if cs[i].id == id then cs[i].(userVote := Some(n), upvotes := Some(OrZero(cs[i].upvotes) + diff)) else cs[i])
  }

  /**
   * `handleCommentVote` on the page's post: nothing for an unknown id;
   * otherwise the vote is toggled from the first matching comment's vote.
   */
  function CommentVoted(p: Post, id: string, val: int): Option<Post>
  {
    match FindComment(p.comments, id)
    case None => None
    case Some(k) =>
      var before := CommentState(p.comments[k]);
      var n := ToggledVote(before.vote, val);
      Some(p.(comments := CommentsVoted(p.comments, id, n, n - before.vote)))
  }

  /** The comment ids are pairwise distinct. */
  predicate UniqueIds(cs: seq<Comment>)
  {
    forall i, j :: 0 <= i < j < |cs| ==> cs[i].id != cs[j].id
  }

  /**
   * A comment vote leaves the post's own fields and every comment with
   * another id unchanged; the voted comment toggles as a feed card does,
   * with a missing count read as 0. Unknown ids change nothing.
   */
  lemma CommentVoteLocal(p: Post, id: string, val: int)
    ensures FindComment(p.comments, id).None? <==> CommentVoted(p, id, val).None?
    ensures CommentVoted(p, id, val).Some? ==>
      var q := CommentVoted(p, id, val).value;
      var k := FindComment(p.comments, id).value;
      q.id == p.id && q.upvotes == p.upvotes && q.userVote == p.userVote && |q.comments| == |p.comments| &&
      (forall i :: 0 <= i < |p.comments| && p.comments[i].id != id ==> q.comments[i] == p.comments[i]) &&
      CommentState(q.comments[k]) == Clicked(CommentState(p.comments[k]), val).0
  {
  }

  /**
   * With distinct ids only the found comment changes: the page's comments
   * are the old ones with that single entry replaced.
   */
  lemma CommentVoteSingle(p: Post, id: string, val: int)
    requires UniqueIds(p.comments) && CommentVoted(p, id, val).Some?
    ensures var q := CommentVoted(p, id, val).value;
      var k := FindComment(p.comments, id).value;
      q.comments == p.comments[k := q.comments[k]]
  {
    var q := CommentVoted(p, id, val).value;
    var k := FindComment(p.comments, id).value;
    forall i | 0 <= i < |p.comments| && i != k
      ensures q.comments[i] == p.comments[i]
    {
      assert p.comments[i].id != p.comments[k].id by {
        if i < k {
          assert p.comments[i].id != p.comments[k].id;
        } else {
          assert p.comments[k].id != p.comments[i].id;
        }
      }
    }
  }

  /** `!text.trim()`: nothing is left once white space is trimmed. */
  predicate Blank(text: string)
  {
    Trim(text) == []
  }

  /**
   * A text is blank exactly when every character of it is JavaScript white
   * space, the no-break and ideographic spaces and the line separators
   * included; any other character keeps the comment.
   */
  lemma BlankAllSpace(text: string)
    ensures Blank(text) <==> forall i :: 0 <= i < |text| ==> IsJsSpace(text[i])
  {
    var t := TrimStart(text);
    if Blank(text) {
      forall i | 0 <= i < |text| ensures IsJsSpace(text[i]) {
        if i >= |text| - |t| {
          assert text[i] == t[i - (|text| - |t|)];
        }
      }
    }
  }

  /** The `createComment(postId, content)` call. */
  datatype NewComment = NewComment(postId: string, content: string)

  /** The state of one thread page. */
  class Detail {
    var post: Option<Post>
    var commentText: string
    var loading: bool
    var submitting: bool
    /** The `castVote` calls made, oldest first. */
    var sent: seq<CastVote>
    /** The `createComment` calls made, oldest first. */
    var posted: seq<NewComment>
    /** How many times `fetchThread` was started. */
    var fetches: nat

    /** Mounted with an id: no post, loading, an empty form, and the first `fetchThread` started. */
    constructor ()
      ensures post.None? && commentText == "" && loading && !submitting
      ensures sent == [] && posted == [] && fetches == 1
    {
      post := None;
      commentText := "";
      loading := true;
      submitting := false;
      sent := [];
      posted := [];
      fetches := 1;
    }

    /** The end of `fetchThread`: the fetched post replaces the shown one, an error keeps it; loading ends. */
    method FinishFetch(data: Option<Post>)
      modifies this`post, this`loading
      ensures data.Some? ==> post == data
      ensures data.None? ==> post == old(post)
      ensures !loading
    {
      if data.Some? {
        post := data;
      }
      loading := false;
    }

    /** `handlePostVote`: without a user or a post nothing changes; otherwise the toggled post is shown and sent. */
    method HandlePostVote(loggedIn: bool, val: int)
      modifies this`post, this`sent
      ensures !loggedIn || old(post).None? ==> post == old(post) && sent == old(sent)
      ensures loggedIn && old(post).Some? ==>
                post == Some(PostVoted(old(post).value, val)) &&
                sent == old(sent) + [CastVote(old(post).value.id, "post", post.value.userVote.value)]
    {
      if !loggedIn || post.None? {
        return;
      }
      var p := PostVoted(post.value, val);
      post := Some(p);
      sent := sent + [CastVote(p.id, "post", p.userVote.value)];
    }

    /**
     * `handleCommentVote`: without a user or a post, or for an unknown
     * comment, nothing changes; otherwise the toggled comments are shown
     * and the new vote is sent for that comment.
     */
    method HandleCommentVote(loggedIn: bool, commentId: string, val: int)
      modifies this`post, this`sent
      ensures !loggedIn || old(post).None? || CommentVoted(old(post).value, commentId, val).None? ==>
                post == old(post) && sent == old(sent)
      ensures loggedIn && old(post).Some? && CommentVoted(old(post).value, commentId, val).Some? ==>
                var k := FindComment(old(post).value.comments, commentId).value;
                post == CommentVoted(old(post).value, commentId, val) &&
                sent == old(sent) + [CastVote(commentId, "comment", ToggledVote(CommentState(old(post).value.comments[k]).vote, val))]
    {
      if !loggedIn || post.None? {
        return;
      }
      var k := FindComment(post.value.comments, commentId);
      if k.None? {
        return;
      }
      var n := ToggledVote(CommentState(post.value.comments[k.value]).vote, val);
      post := CommentVoted(post.value, commentId, val);
      sent := sent + [CastVote(commentId, "comment", n)];
    }

    /**
     * The synchronous half of `handleAddComment`: blank text or a submission
     * in progress is a no-op; otherwise `submitting` is set and the comment
     * is sent. Without a post the handler's `post.id` throws at once, so the
     * comment is not sent and the handler ends with `submitting` false.
     */
    method BeginAddComment() returns (started: bool)
      modifies this`submitting, this`posted
      ensures Blank(commentText) || old(submitting) ==> !started && submitting == old(submitting) && posted == old(posted)
      ensures !Blank(commentText) && !old(submitting) && post.None? ==> !started && !submitting && posted == old(posted)
      ensures !Blank(commentText) && !old(submitting) && post.Some? ==>
                started && submitting && posted == old(posted) + [NewComment(post.value.id, commentText)]
    {
      if Blank(commentText) || submitting {
        return false;
      }
      if post.None? {
        submitting := false;
        return false;
      }
      submitting := true;
      posted := posted + [NewComment(post.value.id, commentText)];
      started := true;
    }

    /**
     * The asynchronous half: on success the text is cleared and the thread
     * fetched again; on failure the text stays. Either way `submitting`
     * ends false.
     */
    method FinishAddComment(ok: bool)
      modifies this`commentText, this`submitting, this`fetches
      ensures ok ==> commentText == "" && fetches == old(fetches) + 1
      ensures !ok ==> commentText == old(commentText) && fetches == old(fetches)
      ensures !submitting
    {
      if ok {
        commentText := "";
        fetches := fetches + 1;
      }
      submitting := false;
    }
  }
}
