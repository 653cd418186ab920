/**
 * The comment input of a post (src/components/Comment/CommentInput.tsx): a
 * text field whose value is the `comment` state, a focus flag, and a submit
 * that checks the login token, then the input, and then runs the creation
 * steps, any of which may fail.
 *
 * `createComment` and `getMyInfo` are awaited, so their outcomes are inputs;
 * every call and toast goes to an effect log in the order it is issued.
 */
module CommentForm {
  import opened Js

  const NOTIFICATION_KIND := "COMMENT"
  /** The subject the input-required message is built with. */
  const INPUT_SUBJECT := "디깅을"

  /** A toast, by the message it shows. */
  datatype Toast = RequireLogin | RequireInput(subject: string) | CreateCommentSuccess | ServerError

  datatype Effect =
    | ShowToast(toast: Toast)
    | CreateComment(content: string, postId: string)
    | GetMyInfo
    | SendNotification(kind: string, subjectId: string, recipientId: string, postId: string)
    | FetchHandler

  /** The created comment, as far as the submit reads it: its id. */
  datatype CreatedComment = CreatedComment(id: string)

  /** The calls and toast of a submit whose steps all succeed. */
  function SuccessEffects(content: string, postId: string, authorId: string, commentId: string, hasFetchHandler: bool): (r: seq<Effect>)
    ensures |r| == if hasFetchHandler then 5 else 4
    ensures r[0] == CreateComment(content, postId) && r[1] == GetMyInfo
    ensures r[2] == SendNotification(NOTIFICATION_KIND, commentId, authorId, postId)
    ensures FetchHandler in r <==> hasFetchHandler
    ensures r[|r| - 1] == ShowToast(CreateCommentSuccess)
  {
    [CreateComment(content, postId), GetMyInfo, SendNotification(NOTIFICATION_KIND, commentId, authorId, postId)]
      + (if hasFetchHandler then [FetchHandler] else [])
      + [ShowToast(CreateCommentSuccess)]
  }

  class CommentInput {
    /** The post's `_id`, the post author's `_id`, and whether the caller
        passed a `fetchHandler`. */
    const postId: string
    const authorId: string
    const hasFetchHandler: bool
    var comment: string
    var isFocus: bool
    var effects: seq<Effect>

    constructor (postId: string, authorId: string, hasFetchHandler: bool)
      ensures this.postId == postId && this.authorId == authorId && this.hasFetchHandler == hasFetchHandler
      ensures comment == "" && !isFocus && effects == []
    {
      this.postId := postId;
      this.authorId := authorId;
      this.hasFetchHandler := hasFetchHandler;
      comment := "";
      isFocus := false;
      effects := [];
    }

    method OnInputFocus()
      modifies this
      ensures isFocus && comment == old(comment) && effects == old(effects)
    {
      isFocus := true;
    }

    method OnInputBlur()
      modifies this
      ensures !isFocus && comment == old(comment) && effects == old(effects)
    {
      isFocus := false;
    }

    /** `onChange`: the input's value becomes the comment. */
    method OnChange(value: string)
      modifies this
      ensures comment == value && isFocus == old(isFocus) && effects == old(effects)
    {
      comment := value;
    }

    /** `onSubmit(e, content, postId)` with the login token `token`;
        `created` is what `createComment` resolves with (`None`: it rejects)
        and `refreshed` whether `getMyInfo` resolves. The empty check reads
        the `comment` state; `content` is what is sent. The input is cleared
        only when every step succeeds. */
    method OnSubmit(token: Option<string>, content: string, postId: string,
                    created: Option<CreatedComment>, refreshed: bool)
      modifies this
      ensures isFocus == old(isFocus)
      ensures !TruthyString(token) ==>
        comment == old(comment) && effects == old(effects) + [ShowToast(RequireLogin)]
      ensures TruthyString(token) && old(comment) == "" ==>
        comment == old(comment) && effects == old(effects) + [ShowToast(RequireInput(INPUT_SUBJECT))]
      ensures TruthyString(token) && old(comment) != "" && created.None? ==>
        comment == old(comment) && effects == old(effects) + [CreateComment(content, postId), ShowToast(ServerError)]
      ensures TruthyString(token) && old(comment) != "" && created.Some? && !refreshed ==>
        comment == old(comment) && effects == old(effects) + [CreateComment(content, postId), GetMyInfo, ShowToast(ServerError)]
      ensures TruthyString(token) && old(comment) != "" && created.Some? && refreshed ==>
        comment == "" && effects == old(effects) + SuccessEffects(content, postId, authorId, created.value.id, hasFetchHandler)
    {
      if !TruthyString(token) {
        effects := effects + [ShowToast(RequireLogin)];
        return;
      }
      if comment == "" {
        effects := effects + [ShowToast(RequireInput(INPUT_SUBJECT))];
        return;
      }
      effects := effects + [CreateComment(content, postId)];
      if created.None? {
        effects := effects + [ShowToast(ServerError)];
        return;
      }
      var data := created.value;
      effects := effects + [GetMyInfo];
      if !refreshed {
        effects := effects + [ShowToast(ServerError)];
        return;
      }
      effects := effects + [SendNotification(NOTIFICATION_KIND, data.id, authorId, postId)];
      if hasFetchHandler {
        effects := effects + [FetchHandler];
      }
      effects := effects + [ShowToast(CreateCommentSuccess)];
      comment := "";
    }

    /** The form's submit handler: it passes the current comment and the
        post's id. A comment is created for this post exactly when there is a
        token and the comment is not empty, and then with that comment; the
        comment is cleared, and the notification sent, exactly when every
        step succeeds. */
    method Submit(token: Option<string>, created: Option<CreatedComment>, refreshed: bool)
      modifies this
      ensures isFocus == old(isFocus)
      ensures !TruthyString(token) ==>
        comment == old(comment) && effects == old(effects) + [ShowToast(RequireLogin)]
      ensures TruthyString(token) && old(comment) == "" ==>
        comment == old(comment) && effects == old(effects) + [ShowToast(RequireInput(INPUT_SUBJECT))]
      ensures TruthyString(token) && old(comment) != "" && created.None? ==>
        comment == old(comment) && effects == old(effects) + [CreateComment(old(comment), postId), ShowToast(ServerError)]
      ensures TruthyString(token) && old(comment) != "" && created.Some? && !refreshed ==>
        comment == old(comment) && effects == old(effects) + [CreateComment(old(comment), postId), GetMyInfo, ShowToast(ServerError)]
      ensures TruthyString(token) && old(comment) != "" && created.Some? && refreshed ==>
        comment == "" && effects == old(effects) + SuccessEffects(old(comment), postId, authorId, created.value.id, hasFetchHandler)
      ensures |effects| > |old(effects)| && effects[..|old(effects)|] == old(effects)
      ensures (effects[|old(effects)|] == CreateComment(old(comment), postId)) <==>
                (TruthyString(token) && old(comment) != "")
      ensures comment != old(comment) <==>
                TruthyString(token) && old(comment) != "" && created.Some? && refreshed
      ensures (exists i :: |old(effects)| <= i < |effects| && effects[i].SendNotification?) <==>
                TruthyString(token) && old(comment) != "" && created.Some? && refreshed
    {
      ghost var before := effects;
      OnSubmit(token, comment, postId, created, refreshed);
      if TruthyString(token) && old(comment) != "" && created.Some? && refreshed {
        assert effects[|before| + 2].SendNotification?;
      }
    }
  }
}
