/**
 * One post of the forum feed (frontend/src/components/forum/ForumCard.tsx):
 * the local vote and count, the optimistic toggle a click applies before
 * `castVote` answers, and the rollback when the call fails.
 */
module ForumCard {
  import opened Common

  /** `x || 0` (and `x ?? 0`) on an optional number: absent reads as 0. */
  function OrZero(v: Option<int>): int
  {
    if v.Some? then v.value else 0
  }

  /**
   * The vote a click on `val` (1 up, -1 down) asks for: clicking the vote
   * already cast clears it to 0, any other click casts `val`.
   */
  function ToggledVote(current: int, val: int): (n: int)
    ensures n == 0 || n == val
    ensures val != 0 ==> (n == 0 <==> current == val)
  {
    if current == val then 0 else val
  }

  /** The card's local state: the caller's vote and the shown count. */
  datatype VoteState = VoteState(vote: int, count: int)

  /** What a click remembers for its rollback: the vote before it and the count change it applied. */
  datatype Pending = Pending(before: int, diff: int)

  /** The optimistic state after a click on `val`, and what the click remembers. */
  function Clicked(s: VoteState, val: int): (VoteState, Pending)
  {
    var n := ToggledVote(s.vote, val);
    (VoteState(n, s.count + (n - s.vote)), Pending(s.vote, n - s.vote))
  }

  /**
   * A click keeps the count in step with the vote: the count moves by
   * exactly as much as the vote does, and the vote becomes 0 or `val`.
   */
  lemma ClickedInStep(s: VoteState, val: int)
    requires val != 0
    ensures var (t, p) := Clicked(s, val);
      t.count - s.count == t.vote - s.vote && p.before == s.vote && p.diff == t.vote - s.vote &&
      (t.vote == 0 <==> s.vote == val) && (t.vote != 0 ==> t.vote == val)
  {
  }

  /** The state after a failed `castVote`: the vote before the click, the count minus the click's change. */
  function RolledBack(s: VoteState, p: Pending): VoteState
  {
    VoteState(p.before, s.count - p.diff)
  }

  /** A click followed at once by its rollback restores the state before the click. */
  lemma RollbackRestores(s: VoteState, val: int)
    ensures var (t, p) := Clicked(s, val); RolledBack(t, p) == s
  {
  }

  /**
   * Two clicks on the same button restore vote and count exactly when the
   * vote before them was 0 or that button's vote: from -1, up then up
   * again ends at 0, not -1.
   */
  lemma ClickTwice(s: VoteState, val: int)
    requires val != 0
    ensures Clicked(Clicked(s, val).0, val).0 == s <==> s.vote == 0 || s.vote == val
  {
  }

  /** The witness: from a down-vote, two up-clicks clear the vote and add one to the count. */
  lemma ClickTwiceFromDownVote(count: int)
    ensures Clicked(Clicked(VoteState(-1, count), 1).0, 1).0 == VoteState(0, count + 1)
  {
  }

  /** The `castVote(targetId, targetType, value)` call a handler makes. */
  datatype CastVote = CastVote(targetId: string, targetType: string, value: int)

  /** One mounted `ForumCard`. */
  class Card {
    const postId: string
    var currentVote: int
    var voteCount: int
    /** The `castVote` calls made, oldest first. */
    var sent: seq<CastVote>

    function State(): VoteState
      reads this
    {
      VoteState(currentVote, voteCount)
    }

    /** The initial state: `post.user_vote || 0` and `post.upvotes || 0`. */
    constructor (id: string, userVote: Option<int>, upvotes: Option<int>)
      ensures postId == id && State() == VoteState(OrZero(userVote), OrZero(upvotes)) && sent == []
    {
      postId := id;
      currentVote := OrZero(userVote);
      voteCount := OrZero(upvotes);
      sent := [];
    }

    /** The effect on `[post.user_vote, post.upvotes]`: local state resets to the new props. */
    method SyncProps(userVote: Option<int>, upvotes: Option<int>)
      modifies this`currentVote, this`voteCount
      ensures State() == VoteState(OrZero(userVote), OrZero(upvotes))
    {
      currentVote := OrZero(userVote);
      voteCount := OrZero(upvotes);
    }

    /**
     * The synchronous half of `handleVote`: without a user nothing changes
     * and no call is made; otherwise the optimistic state is shown and the
     * new vote is sent for this post.
     */
    method BeginVote(loggedIn: bool, val: int) returns (p: Option<Pending>)
      modifies this`currentVote, this`voteCount, this`sent
      ensures !loggedIn ==> p.None? && State() == old(State()) && sent == old(sent)
      ensures loggedIn ==> p == Some(Clicked(old(State()), val).1) && State() == Clicked(old(State()), val).0 &&
                           sent == old(sent) + [CastVote(postId, "post", currentVote)]
    {
      if !loggedIn {
        return None;
      }
      var newValue := ToggledVote(currentVote, val);
      var diff := newValue - currentVote;
      p := Some(Pending(currentVote, diff));
      voteCount := voteCount + diff;
      currentVote := newValue;
      sent := sent + [CastVote(postId, "post", newValue)];
    }

    /**
     * The asynchronous half: `success` keeps the optimistic state, a false
     * result or a thrown error (`ok` false) rolls the vote back to its value
     * before the click and takes the click's change off the current count.
     */
    method FinishVote(p: Pending, ok: bool)
      modifies this`currentVote, this`voteCount
      ensures ok ==> State() == old(State())
      ensures !ok ==> State() == RolledBack(old(State()), p)
    {
      if !ok {
        voteCount := voteCount - p.diff;
        currentVote := p.before;
      }
    }
  }
}
