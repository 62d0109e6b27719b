/**
 * The forum feed (frontend/src/components/pages/Forum.tsx): pages of ten
 * posts fetched by offset and appended to the feed without repeating a
 * post already shown.
 */
module ForumFeed {
  import opened Common
  import opened PostDetail

  const PageSize: int := 10

  /** The ids of the posts in the feed, `new Set(prev.map(p => p.id))`. */
  function Ids(ps: seq<Post>): set<string>
  {
    set p | p in ps :: p.id
  }

  /** `incoming.filter(p => !ids.has(p.id))`. */
  function Unseen(incoming: seq<Post>, ids: set<string>): (r: seq<Post>)
    ensures forall i :: 0 <= i < |r| ==> r[i].id !in ids
  {
    if incoming == [] then []
    else (if incoming[0].id in ids then [] else [incoming[0]]) + Unseen(incoming[1..], ids)
  }

  /** The feed after a page arrives: the old feed followed by the page's posts not already in it. */
  function Merge(prev: seq<Post>, incoming: seq<Post>): seq<Post>
  {
    prev + Unseen(incoming, Ids(prev))
  }

  /** `s` is `t` with some elements dropped and the rest in their order. */
  predicate IsSubsequence(s: seq<Post>, t: seq<Post>)
    decreases |t|
  {
    if s == [] then true
    else if t == [] then false
    else (s[0] == t[0] && IsSubsequence(s[1..], t[1..])) || IsSubsequence(s, t[1..])
  }

  /** The filter keeps every unseen post, and only those, in the order the page lists them. */
  lemma {:induction false} UnseenSubsequence(incoming: seq<Post>, ids: set<string>)
    ensures IsSubsequence(Unseen(incoming, ids), incoming)
    ensures forall p :: p in incoming && p.id !in ids ==> p in Unseen(incoming, ids)
    decreases |incoming|
  {
    if incoming != [] {
      UnseenSubsequence(incoming[1..], ids);
      var rest := Unseen(incoming[1..], ids);
      if incoming[0].id in ids {
        assert Unseen(incoming, ids) == rest;
        SubsequenceDropHead(rest, incoming);
      } else {
        assert Unseen(incoming, ids) == [incoming[0]] + rest;
        assert ([incoming[0]] + rest)[1..] == rest;
      }
      forall p | p in incoming && p.id !in ids
        ensures p in Unseen(incoming, ids)
      {
        if p != incoming[0] {
          assert p in incoming[1..];
        }
      }
    }
  }

  /** A subsequence of the tail is a subsequence of the whole. */
  lemma SubsequenceDropHead(s: seq<Post>, t: seq<Post>)
    requires t != [] && IsSubsequence(s, t[1..])
    ensures IsSubsequence(s, t)
  {
  }

  /**
   * The merged feed starts with the old feed unchanged, appends no post
   * whose id was already shown, and appends the rest of the page in the
   * page's order.
   */
  lemma MergeKeepsFeed(prev: seq<Post>, incoming: seq<Post>)
    ensures var m := Merge(prev, incoming);
      |m| >= |prev| && m[..|prev|] == prev &&
      (forall i :: |prev| <= i < |m| ==> m[i].id !in Ids(prev)) &&
      IsSubsequence(m[|prev|..], incoming) &&
      (forall p :: p in incoming && p.id !in Ids(prev) ==> p in m)
  {
    var m := Merge(prev, incoming);
    assert m[|prev|..] == Unseen(incoming, Ids(prev));
    UnseenSubsequence(incoming, Ids(prev));
  }

  /** No two posts of the list share an id. */
  predicate DistinctIds(ps: seq<Post>)
  {
    forall i, j :: 0 <= i < j < |ps| ==> ps[i].id != ps[j].id
  }

  /** The ids the filter keeps come from the page. */
  lemma {:induction false} UnseenIds(incoming: seq<Post>, ids: set<string>)
    ensures Ids(Unseen(incoming, ids)) <= Ids(incoming)
    ensures DistinctIds(incoming) ==> DistinctIds(Unseen(incoming, ids))
    decreases |incoming|
  {
    if incoming != [] {
      UnseenIds(incoming[1..], ids);
      var rest := Unseen(incoming[1..], ids);
      assert Ids(incoming[1..]) <= Ids(incoming) by {
        forall p | p in incoming[1..] ensures p in incoming { }
      }
      if incoming[0].id !in ids {
        var r := [incoming[0]] + rest;
        assert Unseen(incoming, ids) == r;
        forall x | x in Ids(r) ensures x in Ids(incoming) {
          var p :| p in r && p.id == x;
          if p != incoming[0] {
            assert p in rest;
          }
        }
        if DistinctIds(incoming) {
          assert incoming[0].id !in Ids(incoming[1..]) by {
            forall p | p in incoming[1..] ensures p.id != incoming[0].id {
              var k :| 0 <= k < |incoming[1..]| && incoming[1..][k] == p;
              assert incoming[k + 1] == p;
            }
          }
          forall i, j | 0 <= i < j < |r| ensures r[i].id != r[j].id {
            if i == 0 {
              assert r[j] in rest;
            } else {
              assert r[i] == rest[i - 1] && r[j] == rest[j - 1];
            }
          }
        }
      } else {
        assert Unseen(incoming, ids) == rest;
      }
    }
  }

  /** A feed of distinct posts stays distinct when a page of distinct posts is merged into it. */
  lemma MergeDistinct(prev: seq<Post>, incoming: seq<Post>)
    requires DistinctIds(prev) && DistinctIds(incoming)
    ensures DistinctIds(Merge(prev, incoming))
  {
    var u := Unseen(incoming, Ids(prev));
    UnseenIds(incoming, Ids(prev));
    var m := prev + u;
    forall i, j | 0 <= i < j < |m| ensures m[i].id != m[j].id {
      if j >= |prev| && i < |prev| {
        assert m[j] == u[j - |prev|];
        assert m[i] in prev;
      } else if i >= |prev| {
        assert m[i] == u[i - |prev|] && m[j] == u[j - |prev|];
      }
    }
  }

  /** The state of the forum page. */
  class Feed {
    var posts: seq<Post>
    var offset: int
    var loading: bool
    var hasMore: bool
    /** The offsets passed to `getPosts`, oldest first. */
    var requests: seq<int>

    /** The offset is a whole number of pages. */
    predicate Valid()
      reads this
    {
      offset >= 0 && offset % PageSize == 0
    }

    /** An empty feed at offset 0; the mount effect's first `fetchPosts` is `BeginFetch`. */
    constructor ()
      ensures Valid()
      ensures posts == [] && offset == 0 && !loading && hasMore && requests == []
    {
      posts := [];
      offset := 0;
      loading := false;
      hasMore := true;
      requests := [];
    }

    /** The synchronous half of `fetchPosts`: nothing while a load is in progress, otherwise request the current offset. */
    method BeginFetch() returns (started: bool)
      modifies this`loading, this`requests
      ensures started <==> !old(loading)
      ensures started ==> loading && requests == old(requests) + [offset]
      ensures !started ==> loading && requests == old(requests)
    {
      if loading {
        return false;
      }
      loading := true;
      requests := requests + [offset];
      started := true;
    }

    /**
     * The asynchronous half: a page (`Some`) merges into the feed, advances
     * the offset by one page whatever was kept, and clears `hasMore` when
     * it is short; an error (`None`) keeps the feed and the offset. Either
     * way the load ends, and `hasMore` is never set back.
     */
    method FinishFetch(page: Option<seq<Post>>)
      requires Valid()
      modifies this`posts, this`offset, this`loading, this`hasMore
      ensures Valid()
      ensures page.Some? ==> posts == Merge(old(posts), page.value) && offset == old(offset) + PageSize &&
                             hasMore == (old(hasMore) && |page.value| >= PageSize)
      ensures page.None? ==> posts == old(posts) && offset == old(offset) && hasMore == old(hasMore)
      ensures !loading
    {
      if page.Some? {
        if |page.value| < PageSize {
          hasMore := false;
        }
        posts := Merge(posts, page.value);
        offset := offset + PageSize;
      }
      loading := false;
    }
  }
}
