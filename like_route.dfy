/** `POST /api/recommendations/like`: authenticates the caller from the
    `token` cookie, reads `recommendationId` from the body, fetches or lazily
    creates the caller's user context, toggles the id in its
    `likedRecommendations`, writes that one field back and reports the new
    like state and the number of likes.

    The database table of user contexts is the field `contexts` of a
    `ContextStore`; token verification is the function `verify`, which gives
    the user id of a valid token and `None` where the signature check throws. */
module LikeRoute {
  import opened JsStrings
  import opened LikeToggle

  /** A row of the user context table. */
  datatype UserContext = UserContext(userId: string, preferredGenres: seq<string>,
                                     recentSearches: seq<string>, likedRecommendations: seq<string>)

  /** The row `create` inserts for a user who has none yet. */
  function NewContext(userId: string): UserContext {
    UserContext(userId, [], [], [])
  }

  /** The route's JSON response: an error with its HTTP status, or
      `{success: true, isLiked, totalLikes}`. */
  datatype LikeReply = LikeFailure(status: int, error: string) | LikeSuccess(isLiked: bool, totalLikes: nat)

  class ContextStore {
    var contexts: map<string, UserContext>

    /** Each row is stored under its own user id. */
    ghost predicate Valid()
      reads this
    {
      forall u :: u in contexts ==> contexts[u].userId == u
    }

    /** No stored list of likes holds an id twice. */
    ghost predicate LikesDistinct()
      reads this
    {
      forall u :: u in contexts ==> NoDuplicates(contexts[u].likedRecommendations)
    }

    constructor ()
      ensures contexts == map[] && Valid() && LikesDistinct()
    {
      contexts := map[];
    }

    /** The caller's row after `findUnique` and, when there was none, `create`:
        in a valid store it is the row of that very user, and a new row is
        empty. */
    function ContextOf(userId: string): (c: UserContext)
      reads this
      ensures Valid() ==> c.userId == userId
      ensures userId !in contexts ==> c.likedRecommendations == [] && c.preferredGenres == [] && c.recentSearches == []
    {
      if userId in contexts then contexts[userId] else NewContext(userId)
    }

    /** The handler. A missing token gives 401 and a token `verify` rejects
        gives 500, both before the body is looked at; a missing id then gives
        400; none of these changes the store. Otherwise the caller's row is
        created if missing, only its `likedRecommendations` is replaced by the
        toggled list, every other row stays as it was, and the reply says
        whether the id is now liked and how many ids are. */
    method Like(token: Option<string>, recommendationId: Option<string>, verify: string -> Option<string>)
      returns (reply: LikeReply)
      requires Valid()
      modifies this
      ensures Valid()
      ensures old(LikesDistinct()) ==> LikesDistinct()
      ensures token.None? || token == Some("") ==>
                reply == LikeFailure(401, "Unauthorized") && contexts == old(contexts)
      ensures token.Some? && token.value != "" && verify(token.value).None? ==>
                reply == LikeFailure(500, "Internal server error") && contexts == old(contexts)
      ensures token.Some? && token.value != "" && verify(token.value).Some?
              && (recommendationId.None? || recommendationId == Some("")) ==>
                reply == LikeFailure(400, "Recommendation ID is required") && contexts == old(contexts)
      ensures token.Some? && token.value != "" && verify(token.value).Some?
              && recommendationId.Some? && recommendationId.value != "" ==>
                var userId := verify(token.value).value;
                var id := recommendationId.value;
                var before := old(ContextOf(userId));
                var likes := Toggle(before.likedRecommendations, id);
                contexts == old(contexts)[userId := before.(likedRecommendations := likes)]
                && reply == LikeSuccess(id !in before.likedRecommendations, |likes|)
                && contexts[userId].userId == userId
                && (reply.isLiked <==> id in contexts[userId].likedRecommendations)
    {
      if token.None? || token.value == "" {
        return LikeFailure(401, "Unauthorized");
      }
      var decoded := verify(token.value);
      if decoded.None? {
        return LikeFailure(500, "Internal server error");
      }
      var userId := decoded.value;
      if recommendationId.None? || recommendationId.value == "" {
        return LikeFailure(400, "Recommendation ID is required");
      }
      var id := recommendationId.value;
      var userContext: UserContext;
      if userId in contexts {
        userContext := contexts[userId];
      } else {
        userContext := NewContext(userId);
        contexts := contexts[userId := userContext];
      }
      var isLiked := id in userContext.likedRecommendations;
      var updatedLikes := Toggle(userContext.likedRecommendations, id);
      contexts := contexts[userId := contexts[userId].(likedRecommendations := updatedLikes)];
      if old(LikesDistinct()) {
        ToggleNoDuplicates(userContext.likedRecommendations, id);
      }
      reply := LikeSuccess(!isLiked, |updatedLikes|);
    }
  }
}
