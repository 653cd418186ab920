/**
 * The like toggle of a post card, and what the card derives from its like
 * list (src/components/Post.tsx).
 *
 * The card keeps its own copy of the post's likes (`likesState`) and shares
 * the session user, whose `likes` list mirrors the user's side. `handleLike`
 * reads both, then replaces them. The remote calls become an effect log: the
 * record that `createLike` resolves with is an input, and `createLike`,
 * `deleteLike` and `sendLikeNotification` are appended to the log in the
 * order the handler issues them.
 */
module PostView {
  import opened Js
  import opened Session

  /** `like.user === user._id`. A missing user id matches no record. */
  predicate ByUser(like: Like, userId: Option<string>)
  {
    userId == Some(like.user)
  }

  /** `likes.findIndex((like) => like.user === userId)`: the index of the
      first like by the user, or -1. */
  function FindIndexByUser(likes: seq<Like>, userId: Option<string>): (i: int)
    ensures -1 <= i < |likes|
    ensures i == -1 <==> forall k :: 0 <= k < |likes| ==> !ByUser(likes[k], userId)
    ensures 0 <= i ==> ByUser(likes[i], userId)
    ensures 0 <= i ==> forall k :: 0 <= k < i ==> !ByUser(likes[k], userId)
  {
    if likes == [] then -1
    else if ByUser(likes[0], userId) then 0
    else
      var j := FindIndexByUser(likes[1..], userId);
      if j == -1 then -1 else j + 1
  }

  /** `likes.find((like) => like.user === userId)`: some like by the user, or
      `undefined` when there is none. */
  function FindByUser(likes: seq<Like>, userId: Option<string>): (r: Option<Like>)
    ensures r.Some? <==> exists k :: 0 <= k < |likes| && ByUser(likes[k], userId)
    ensures r.Some? ==> r.value in likes && ByUser(r.value, userId)
  {
    if likes == [] then None
    else if ByUser(likes[0], userId) then Some(likes[0])
    else FindByUser(likes[1..], userId)
  }

  /** `find` returns the record at the index `findIndex` returns. */
  lemma {:induction false} FindAgreesWithFindIndex(likes: seq<Like>, userId: Option<string>)
    ensures var i := FindIndexByUser(likes, userId);
      FindByUser(likes, userId) == if i == -1 then None else Some(likes[i])
  {
    if likes != [] && !ByUser(likes[0], userId) {
      FindAgreesWithFindIndex(likes[1..], userId);
    }
  }

  /** `r` keeps some of the elements of `s`, in their order in `s`. */
  ghost predicate IsSubsequence<T>(r: seq<T>, s: seq<T>)
    decreases |s|
  {
    if r == [] then true
    else if s == [] then false
    else if r[0] == s[0] then IsSubsequence(r[1..], s[1..])
    else IsSubsequence(r, s[1..])
  }

  /** `likes.filter((item) => item._id !== id)`: every record with that id is
      gone, every other record stays as often as it was there, and the order
      of what stays is kept. */
  function WithoutId(likes: seq<Like>, id: string): (r: seq<Like>)
    ensures forall x :: x in r <==> x in likes && x.id != id
    ensures forall x: Like :: x.id != id ==> multiset(r)[x] == multiset(likes)[x]
    ensures IsSubsequence(r, likes)
  {
    if likes == [] then []
    else
      assert likes == [likes[0]] + likes[1..];
      if likes[0].id != id then [likes[0]] + WithoutId(likes[1..], id)
      else WithoutId(likes[1..], id)
  }

  lemma {:induction false} WithoutIdAppend(a: seq<Like>, b: seq<Like>, id: string)
    ensures WithoutId(a + b, id) == WithoutId(a, id) + WithoutId(b, id)
  {
    if a == [] {
      assert a + b == b;
    } else {
      assert (a + b)[0] == a[0];
      assert (a + b)[1..] == a[1..] + b;
      WithoutIdAppend(a[1..], b, id);
    }
  }

  /** Filtering out an id that no record carries changes nothing. */
  lemma {:induction false} WithoutAbsentId(likes: seq<Like>, id: string)
    requires forall x :: x in likes ==> x.id != id
    ensures WithoutId(likes, id) == likes
  {
    if likes != [] {
      var rest := likes[1..];
      assert likes == [likes[0]] + rest;
      assert likes[0].id != id;
      WithoutAbsentId(rest, id);
    }
  }

  /** No two records share an id. */
  predicate DistinctIds(likes: seq<Like>)
  {
    forall i, j :: 0 <= i < j < |likes| ==> likes[i].id != likes[j].id
  }

  /** Among records with distinct ids, filtering out one record's id removes
      exactly that record. */
  lemma {:induction false} WithoutPresentDistinctId(likes: seq<Like>, k: nat)
    requires DistinctIds(likes) && k < |likes|
    ensures |WithoutId(likes, likes[k].id)| == |likes| - 1
  {
    if k == 0 {
      forall x | x in likes[1..] ensures x.id != likes[0].id {
        var j :| 0 <= j < |likes[1..]| && likes[1..][j] == x;
        assert likes[j + 1] == x;
      }
      WithoutAbsentId(likes[1..], likes[0].id);
    } else {
      assert likes[1..][k - 1] == likes[k];
      assert likes[0].id != likes[k].id;
      WithoutPresentDistinctId(likes[1..], k - 1);
    }
  }

  /** A call the handler issues. */
  datatype LikeEffect =
    | CreateLike(postId: string)
    | DeleteLike(likeId: string)
    | SendLikeNotification(likeId: string, userId: string, postId: string)

  /** What the toggle reads and writes: the card's likes, the session user,
      and the calls issued so far. */
  datatype Snapshot = Snapshot(likes: seq<Like>, user: User, effects: seq<LikeEffect>)

  /** The state after one `handleLike(postId)`. `created` is what
      `createLike(postId)` resolves with; `None` means its promise rejects,
      and the handler stops right after issuing it. `created` is not used
      when the user already likes the post. */
  function Toggled(s: Snapshot, postId: string, created: Option<Like>): Snapshot
  {
    var isLike := FindIndexByUser(s.likes, s.user.id);
    if isLike == -1 then
      var issued := s.effects + [CreateLike(postId)];
      if Lands(s, created) then
        var data := created.value;
        Snapshot(s.likes + [data],
                 s.user.(likes := Some(s.user.likes.value + [data])),
                 issued + [SendLikeNotification(data.id, s.user.id.value, postId)])
      else
        s.(effects := issued)
    else
      var target := s.likes[isLike].id;
      Snapshot(WithoutId(s.likes, target),
               if s.user.likes.Some? then s.user.(likes := Some(WithoutId(s.user.likes.value, target))) else s.user,
               s.effects + [DeleteLike(target)])
  }

  /** The add branch lands: `createLike` resolved and the user has a present
      `likes` list and a truthy id. */
  predicate Lands(s: Snapshot, created: Option<Like>)
  {
    created.Some? && s.user.likes.Some? && TruthyString(s.user.id)
  }

  /** No like in the card is the session user's. The add branch always issues
      `createLike` first; when it lands, the created record ends both lists,
      the rest of the user is unchanged, and the notification follows;
      otherwise nothing but the `createLike` call happens. */
  lemma AddBranch(s: Snapshot, postId: string, created: Option<Like>)
    requires forall k :: 0 <= k < |s.likes| ==> !ByUser(s.likes[k], s.user.id)
    ensures var r := Toggled(s, postId, created);
      && r.effects[..|s.effects|] == s.effects
      && r.effects[|s.effects|] == CreateLike(postId)
      && (r.likes != s.likes <==> Lands(s, created))
      && (r.user != s.user <==> Lands(s, created))
      && (|r.effects| == |s.effects| + 2 <==> Lands(s, created))
      && (Lands(s, created) ==>
            && r.likes == s.likes + [created.value]
            && |r.likes| == |s.likes| + 1
            && r.user == s.user.(likes := Some(s.user.likes.value + [created.value]))
            && r.effects[|s.effects| + 1] == SendLikeNotification(created.value.id, s.user.id.value, postId))
      && (!Lands(s, created) ==> r == s.(effects := s.effects + [CreateLike(postId)]))
  {
  }

  /** Some like in the card is the session user's, and `i` is the first one.
      Every record with the target's id leaves the card's list, and the
      user's list when it is present; a missing user list stays missing; the
      delete is issued either way. */
  lemma RemoveBranch(s: Snapshot, postId: string, created: Option<Like>, i: nat)
    requires i < |s.likes| && ByUser(s.likes[i], s.user.id)
    requires forall k :: 0 <= k < i ==> !ByUser(s.likes[k], s.user.id)
    ensures var r := Toggled(s, postId, created);
      var target := s.likes[i].id;
      && r.likes == WithoutId(s.likes, target)
      && (forall x :: x in r.likes ==> x.id != target)
      && (s.user.likes.Some? ==> r.user == s.user.(likes := Some(WithoutId(s.user.likes.value, target))))
      && (s.user.likes.None? ==> r.user == s.user)
      && r.effects == s.effects + [DeleteLike(target)]
  {
    var j := FindIndexByUser(s.likes, s.user.id);
    assert j == i;
  }

  /** The consistency the two lists are meant to keep: the session user's
      likes on this post are exactly the card's likes by the user. */
  ghost predicate Mirrored(s: Snapshot, postId: string)
  {
    && s.user.likes.Some?
    && forall x :: (x in s.likes && ByUser(x, s.user.id)) <==> (x in s.user.likes.value && x.post == postId)
  }

  /** A toggle keeps the two lists consistent, provided the server creates
      the like for this user and this post. */
  lemma ToggleKeepsMirror(s: Snapshot, postId: string, created: Option<Like>)
    requires Mirrored(s, postId)
    requires created.Some? && TruthyString(s.user.id) ==>
               ByUser(created.value, s.user.id) && created.value.post == postId
    ensures Mirrored(Toggled(s, postId, created), postId)
  {
  }

  /** With consistent lists whose ids are distinct, an unlike removes exactly
      one record from each list. */
  lemma UnlikeRemovesExactlyOne(s: Snapshot, postId: string, created: Option<Like>)
    requires Mirrored(s, postId)
    requires DistinctIds(s.likes) && DistinctIds(s.user.likes.value)
    requires exists k :: 0 <= k < |s.likes| && ByUser(s.likes[k], s.user.id)
    ensures var r := Toggled(s, postId, created);
      && |r.likes| == |s.likes| - 1
      && r.user.likes.Some?
      && |r.user.likes.value| == |s.user.likes.value| - 1
  {
    var i := FindIndexByUser(s.likes, s.user.id);
    var ul := s.user.likes.value;
    WithoutPresentDistinctId(s.likes, i);
    assert s.likes[i] in s.likes;
    assert s.likes[i] in ul;
    var j :| 0 <= j < |ul| && ul[j] == s.likes[i];
    WithoutPresentDistinctId(ul, j);
  }

  /** Liking and then unliking restores both lists, when the server creates
      the like for this user under an id neither list holds. */
  lemma LikeThenUnlike(s: Snapshot, postId: string, d: Like, again: Option<Like>)
    requires forall k :: 0 <= k < |s.likes| ==> !ByUser(s.likes[k], s.user.id)
    requires s.user.likes.Some? && TruthyString(s.user.id)
    requires ByUser(d, s.user.id)
    requires forall x :: x in s.likes ==> x.id != d.id
    requires forall x :: x in s.user.likes.value ==> x.id != d.id
    ensures var r := Toggled(Toggled(s, postId, Some(d)), postId, again);
      && r.likes == s.likes
      && r.user == s.user
      && r.effects == s.effects + [CreateLike(postId), SendLikeNotification(d.id, s.user.id.value, postId), DeleteLike(d.id)]
  {
    var uid := s.user.id;
    var ul := s.user.likes.value;
    var m := Snapshot(s.likes + [d], s.user.(likes := Some(ul + [d])),
                      s.effects + [CreateLike(postId), SendLikeNotification(d.id, uid.value, postId)]);
    ToggledAdds(s, postId, d);
    FirstByUserIsAppended(s.likes, d, uid);
    assert m.likes[|s.likes|] == d;
    WithoutAppended(s.likes, d);
    WithoutAppended(ul, d);
    ToggledRemoves(m, postId, again);
  }

  /** The add branch, as one snapshot. */
  lemma ToggledAdds(s: Snapshot, postId: string, d: Like)
    requires FindIndexByUser(s.likes, s.user.id) == -1
    requires s.user.likes.Some? && TruthyString(s.user.id)
    ensures Toggled(s, postId, Some(d)) ==
      Snapshot(s.likes + [d], s.user.(likes := Some(s.user.likes.value + [d])),
               s.effects + [CreateLike(postId), SendLikeNotification(d.id, s.user.id.value, postId)])
  {
  }

  /** The remove branch, as one snapshot. */
  lemma ToggledRemoves(s: Snapshot, postId: string, created: Option<Like>)
    requires FindIndexByUser(s.likes, s.user.id) != -1
    ensures var target := s.likes[FindIndexByUser(s.likes, s.user.id)].id;
      Toggled(s, postId, created) ==
        Snapshot(WithoutId(s.likes, target),
                 if s.user.likes.Some? then s.user.(likes := Some(WithoutId(s.user.likes.value, target))) else s.user,
                 s.effects + [DeleteLike(target)])
  {
  }

  /** Appending a like by the user to a list with none makes it the first. */
  lemma FirstByUserIsAppended(likes: seq<Like>, d: Like, userId: Option<string>)
    requires forall k :: 0 <= k < |likes| ==> !ByUser(likes[k], userId)
    requires ByUser(d, userId)
    ensures FindIndexByUser(likes + [d], userId) == |likes|
  {
    var l := likes + [d];
    var i := FindIndexByUser(l, userId);
    assert l[|likes|] == d;
    assert forall k :: 0 <= k < |likes| ==> l[k] == likes[k];
  }

  /** Filtering out the id of an appended record that no earlier record
      carries gives back the list before the append. */
  lemma WithoutAppended(likes: seq<Like>, d: Like)
    requires forall x :: x in likes ==> x.id != d.id
    ensures WithoutId(likes + [d], d.id) == likes
  {
    assert WithoutId([d], d.id) == [];
    WithoutIdAppend(likes, [d], d.id);
    WithoutAbsentId(likes, d.id);
  }

  /** "liked post" is shown exactly when some like in the card is the user's. */
  predicate ShowsLiked(likes: seq<Like>, userId: Option<string>)
  {
    FindByUser(likes, userId).Some?
  }

  /** After a landed like by the user, the card shows "liked post"; after an
      unlike, it still does exactly when another like by the user, under a
      different id, remains. */
  lemma IndicatorAfterToggle(s: Snapshot, postId: string, created: Option<Like>)
    ensures var r := Toggled(s, postId, created);
      var i := FindIndexByUser(s.likes, s.user.id);
      && (i == -1 && Lands(s, created) && ByUser(created.value, s.user.id) ==> ShowsLiked(r.likes, r.user.id))
      && (i != -1 ==> (ShowsLiked(r.likes, r.user.id) <==>
                         exists x :: x in s.likes && ByUser(x, s.user.id) && x.id != s.likes[i].id))
  {
    var i := FindIndexByUser(s.likes, s.user.id);
    if i == -1 && Lands(s, created) && ByUser(created.value, s.user.id) {
      ToggledAdds(s, postId, created.value);
      ShowsLikedAppended(s.likes, created.value, s.user.id);
    } else if i != -1 {
      ToggledRemoves(s, postId, created);
      ShowsLikedWithout(s.likes, s.user.id, s.likes[i].id);
    }
  }

  /** A list ending in a like by the user shows "liked post". */
  lemma ShowsLikedAppended(likes: seq<Like>, d: Like, userId: Option<string>)
    requires ByUser(d, userId)
    ensures ShowsLiked(likes + [d], userId)
  {
    assert (likes + [d])[|likes|] == d;
  }

  /** After filtering out `id`, "liked post" is shown exactly when a like by
      the user under another id was there. */
  lemma ShowsLikedWithout(likes: seq<Like>, userId: Option<string>, id: string)
    ensures ShowsLiked(WithoutId(likes, id), userId) <==> exists x :: x in likes && ByUser(x, userId) && x.id != id
  {
    var r := WithoutId(likes, id);
    if ShowsLiked(r, userId) {
      var k :| 0 <= k < |r| && ByUser(r[k], userId);
      assert r[k] in r;
    }
    if exists x :: x in likes && ByUser(x, userId) && x.id != id {
      var x :| x in likes && ByUser(x, userId) && x.id != id;
      assert x in r;
      var k :| 0 <= k < |r| && r[k] == x;
    }
  }

  /** The post card: its own like list, the shared session user, and the
      calls its handler has issued. */
  class PostCard {
    var likesState: seq<Like>
    var user: User
    var effects: seq<LikeEffect>

    constructor (likes: seq<Like>, sessionUser: User)
      ensures likesState == likes && user == sessionUser && effects == []
    {
      likesState := likes;
      user := sessionUser;
      effects := [];
    }

    function Current(): Snapshot
      reads this
    {
      Snapshot(likesState, user, effects)
    }

    /** `Likes: {likesState.length}` */
    function LikeCount(): nat
      reads this
    {
      |likesState|
    }

    /** Whether "liked post" is shown. */
    function Liked(): (b: bool)
      reads this
      ensures b <==> exists k :: 0 <= k < |likesState| && ByUser(likesState[k], user.id)
    {
      ShowsLiked(likesState, user.id)
    }

    /** `handleLike(postId)`, run to completion with `createLike` resolving to
        `created` (or rejecting, for `None`). The handler works on the values
        it read when it started: the target's id is read from the list as it
        was before the card's list is replaced. */
    method HandleLike(postId: string, created: Option<Like>)
      modifies this
      ensures Current() == Toggled(old(Current()), postId, created)
    {
      var likesRead := likesState;
      var userRead := user;
      var isLike := FindIndexByUser(likesRead, userRead.id);
      if isLike == -1 {
        effects := effects + [CreateLike(postId)];
        if created.Some? {
          var data := created.value;
          if userRead.likes.Some? && TruthyString(userRead.id) {
            likesState := likesRead + [data];
            user := userRead.(likes := Some(userRead.likes.value + [data]));
            effects := effects + [SendLikeNotification(data.id, userRead.id.value, postId)];
          }
        }
      } else {
        likesState := WithoutId(likesRead, likesRead[isLike].id);
        if userRead.likes.Some? {
          user := userRead.(likes := Some(WithoutId(userRead.likes.value, likesRead[isLike].id)));
        }
        effects := effects + [DeleteLike(likesRead[isLike].id)];
      }
    }
  }
}
