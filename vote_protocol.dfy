/**
 * The vote round trip between the forum pages and `HandleVote`: the client
 * toggles locally and sends the new value (frontend/src/components/forum/
 * ForumCard.tsx, frontend/src/components/pages/PostDetail.tsx); the server
 * deletes, overwrites or creates the caller's row and recomputes the total
 * (backend/internal/handlers/forum_handler.go).
 */
module VoteProtocol {
  import opened Common
  import opened ForumCard
  import opened ForumHandler

  /**
   * A client whose vote is the stored one (as hydration reports it) and
   * that clicks `val` sends a value the server stores as is: the row is
   * created or overwritten, never deleted, and the target's total moves by
   * exactly the change the client applied to its count. A client that
   * showed the stored total still shows it after the server's write.
   */
  lemma ClientServerAgree(votes: Votes, user: string, target: string, targetType: string, s: VoteState, val: int)
    requires val != 0
    requires var k := VoteKey(user, target); k !in votes || votes[k].targetType == targetType
    requires s.vote == StoredValue(votes, VoteKey(user, target))
    ensures var t := Clicked(s, val).0;
      var after := Voted(votes, user, VoteRequest(target, targetType, t.vote));
      var k := VoteKey(user, target);
      k in after && after[k] == VoteRow(targetType, t.vote) &&
      Total(after, target) - Total(votes, target) == t.count - s.count &&
      (s.count == Total(votes, target) ==> t.count == Total(after, target))
  {
    var k := VoteKey(user, target);
    var t := Clicked(s, val).0;
    var req := VoteRequest(target, targetType, t.vote);
    ClickedInStep(s, val);
    VotedEffect(votes, user, req);
    TotalAfterVote(votes, user, req, target);
    if k in votes {
      assert votes[k].value != t.vote;
    }
  }

  /**
   * The stored row of a user who clicks while in sync: after the server's
   * write the stored value is the client's new vote, so the next
   * hydration shows what the client already shows.
   */
  lemma HydratedAfterVote(votes: Votes, user: string, target: string, targetType: string, s: VoteState, val: int)
    requires val != 0
    requires var k := VoteKey(user, target); k !in votes || votes[k].targetType == targetType
    requires s.vote == StoredValue(votes, VoteKey(user, target))
    ensures var t := Clicked(s, val).0;
      UserVoteOf(Voted(votes, user, VoteRequest(target, targetType, t.vote)), user, target, Some(targetType)) == t.vote
  {
    ClientServerAgree(votes, user, target, targetType, s, val);
  }
}
