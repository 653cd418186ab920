# Post likes, sign-up, login and comment input: a Dafny model

This project models the client-side logic of a social posting application's
UI components and proves properties of that model. Four pieces of the UI hold
the logic:

- **The like toggle of a post card** (`Post.tsx`). The card keeps its own copy
  of the post's likes. The session user, held in shared state, keeps a list of
  the user's own likes. `handleLike` looks for the first like by the session
  user. If there is none, it calls `createLike`. When the user has a `likes`
  list and a truthy `_id`, it appends the created record to both lists and
  sends a like notification. If there is one, it filters every record with
  that like's id out of both lists and calls `deleteLike`. The card shows the
  number of likes and a "liked post" marker.
- **The sign-up form** (`SignUpForm.tsx`). The form has a `required` rule on
  every field, the email pattern `/^[\w-]+@([\w-]+\.)+[\w-]{2,4}$/`, and a
  rule that the confirmation equals the password. On submit, the outcome of
  the request sets the message under the form, raises an alert, or moves to
  the login page.
- **The login form** (`LoginForm.tsx`). A submit first clears the error list.
  A successful login stores the user and token. A failed one picks the error
  messages from the error it catches.
- **The comment input** (`Comment/CommentInput.tsx`). The submit checks the
  login token first, then the input. It then creates the comment, refreshes
  the user's info, sends a notification, calls the caller's refresh handler
  when there is one, and shows a toast. The input is cleared only when every
  step succeeds.

Remote calls are not modelled as behaviour. What an awaited call resolves
with, or whether it rejects, is a parameter (`created`, `outcome`,
`refreshed`). Every call, toast, alert and navigation goes to an effect log,
in the order the component issues it. JavaScript truthiness is written out:

- a user id is falsy when it is missing or `""`;
- a like list is falsy only when it is missing (`[]` is truthy);
- a token is falsy when it is missing or `""`;
- an HTTP error's response body is falsy when it is missing or is a falsy
  value.

Layout: `js.dfy` (truthiness, the shape of a thrown error), `session.dfy`
(like and user records), `post_view.dfy`, `email_pattern.dfy`, `sign_up.dfy`,
`login.dfy`, `comment_input.dfy`.

The toggle has two forms. `PostView.PostCard.HandleLike` updates the card's
fields step by step. Its contract ties the new state to the pure function
`PostView.Toggled` applied to the old state. The lemmas are proved about
`Toggled`. The email rule `EmailPattern.Matches` reads the string once, left
to right. `EmailPattern.MatchesIffShape` proves it accepts exactly the strings
`local@l1. … .lk.last` allowed by the pattern's structure.

Three places where the behaviour one might expect differs from what the
code does; the model follows the code:

- One might expect a toggle without an authenticated user to be rejected
  before any remote call. The code calls `createLike` first and checks
  `user.likes && user._id` only afterwards (`Post.tsx:34-35`), so the model
  logs `CreateLike` in that case too.
- One might expect an unlike to remove exactly one record from each list.
  The code removes every record carrying the target's id. "Exactly one" holds
  only when the ids in a list are distinct, which is how
  `PostView.UnlikeRemovesExactlyOne` states it.
- One might expect a guard against overlapping toggles and a rollback when a
  delete fails. The code has neither, and neither does the model.

## Model

| member | source | states |
|---|---|---|
| PostView.FindIndexByUser | src/components/Post.tsx:31 | Returns -1 exactly when no like is the session user's. Otherwise it returns the index of the first like that is. A missing user id matches no like. |
| PostView.FindByUser | src/components/Post.tsx:67 | Returns a like exactly when some like is the user's, and the like it returns is one of them. |
| PostView.FindAgreesWithFindIndex | src/components/Post.tsx:67-69 | `find` returns the record at the index that `findIndex` returns, or nothing when that index is -1. |
| PostView.WithoutId | src/components/Post.tsx:44-53 | The filtered list holds no record with the id, keeps every other record as many times as before, and is a subsequence of the input, so the order is kept. |
| PostView.WithoutIdAppend | src/components/Post.tsx:44-53 | Filtering a concatenation gives the concatenation of the two filtered parts. |
| PostView.WithoutAbsentId | src/components/Post.tsx:44-53 | Filtering an id that no record carries leaves the list unchanged. |
| PostView.WithoutPresentDistinctId | src/components/Post.tsx:44-53 | When ids are distinct, filtering one record's id shortens the list by exactly one. |
| PostView.AddBranch | src/components/Post.tsx:33-42 | With no like by the user, `CreateLike(postId)` is issued first. When it resolves and the user has a present like list and a truthy id, the record goes to the end of both lists, the other user fields are unchanged, and the notification `(data._id, user._id, postId)` follows. Otherwise only `CreateLike` happens. The lists change and the notification is sent in exactly the same cases. |
| PostView.RemoveBranch | src/components/Post.tsx:43-56 | With a first like by the user at `i`, its id is filtered out of the card's list. It is also filtered out of the user's list when that list is present; a missing user list stays missing. No record with that id remains in the card's list. `DeleteLike(id)` is issued either way. |
| PostView.ToggleKeepsMirror | src/components/Post.tsx:30-57 | If the user's likes on this post are exactly the card's likes by the user, this still holds after a toggle. This assumes the server creates the like for this user and post. |
| PostView.UnlikeRemovesExactlyOne | src/components/Post.tsx:43-56 | With consistent lists and distinct ids, an unlike shortens each list by exactly one. |
| PostView.LikeThenUnlike | src/components/Post.tsx:30-57 | A like followed by an unlike gives back both original lists. The log gets CreateLike, the notification and DeleteLike(id). This needs a created record that is the user's, under an id neither list holds. |
| PostView.FirstByUserIsAppended | src/components/Post.tsx:31 | When no like in the list is the user's, a like by the user appended at the end is what `findIndex` finds. |
| PostView.WithoutAppended | src/components/Post.tsx:44-53 | Filtering out the id of an appended record whose id is new gives back the list before the append. |
| PostView.ToggledAdds | src/components/Post.tsx:33-42 | With no like by the user, a present like list and a truthy id, a toggle whose `createLike` resolves is one snapshot: the record appended to both lists and the two calls logged. |
| PostView.ToggledRemoves | src/components/Post.tsx:43-56 | With a like by the user, a toggle is one snapshot: the first match's id filtered out of the card's list and, when present, the user's list, and `DeleteLike` logged. |
| PostView.ShowsLikedWithout | src/components/Post.tsx:44-46 | After filtering out an id, the card shows "liked post" exactly when a like by the user under another id was in the list. |
| PostView.IndicatorAfterToggle | src/components/Post.tsx:66-70 | After a like by the user lands, "liked post" is shown. After an unlike, it is shown exactly when another like by the user remains under a different id. |
| PostView.PostCard.Liked | src/components/Post.tsx:66-70 | "liked post" is shown exactly when some like in the card's list is the session user's. |
| PostView.PostCard.HandleLike | src/components/Post.tsx:30-57 | One run of the handler changes the card's list, the session user and the effect log exactly as `Toggled` does for the old state. The target is read from the list as it was when the handler started. |
| PostView.PostCard.constructor | src/components/Post.tsx:18-19 | The card starts with the post's likes, the session user and an empty log. |
| EmailPattern.MatchesIffShape | src/components/SignUpForm.tsx:75 | The scanner accepts exactly `local@l1. … .lk.last`, where `local` and each `li` are non-empty runs of `[A-Za-z0-9_-]`, k is at least 1, and `last` is such a run of 2 to 4 characters. |
| EmailPattern.ScanLocalSound | src/components/SignUpForm.tsx:75 | Every string the scanner accepts splits into a local part, labels and a final label of that shape. |
| EmailPattern.ScanDomainDotted | src/components/SignUpForm.tsx:75 | The domain scanner accepts `l1. … .lk.last` exactly when `last` has 2 to 4 characters and at least one dot was read, here or earlier in the domain. |
| EmailPattern.SingleAt | src/components/SignUpForm.tsx:75 | An accepted email has only one `@`. |
| EmailPattern.NoDotInLocalPart | src/components/SignUpForm.tsx:75 | In an accepted email, every dot comes after the `@`. |
| EmailPattern.NoEmptyLabel | src/components/SignUpForm.tsx:75 | An accepted email does not start with `@` and does not end with a dot. No dot follows the `@` or another dot. |
| EmailPattern.DotAfterAt | src/components/SignUpForm.tsx:75 | An accepted email has a dot after its `@`. |
| EmailPattern.FinalLabelLength | src/components/SignUpForm.tsx:75 | In an accepted email, the label after the last dot has 2 to 4 characters. |
| EmailPattern.AcceptedExample | src/components/SignUpForm.tsx:75 | `ab@cd.ef` is accepted. |
| EmailPattern.AcceptedLabelsExample | src/components/SignUpForm.tsx:75 | `a_b-1@x.y-z.com` is accepted. |
| EmailPattern.RejectedLocalExamples | src/components/SignUpForm.tsx:75 | `a.b@cd.ef` and `a@b@cd.ef` are rejected. |
| EmailPattern.RejectedEmptyLabelExample | src/components/SignUpForm.tsx:75 | `a@b..cd` is rejected. |
| EmailPattern.RejectedNoDotExample | src/components/SignUpForm.tsx:75 | `a@bcd` is rejected. |
| EmailPattern.RejectedFinalLabelExamples | src/components/SignUpForm.tsx:75 | `a@b.c` and `a@b.cdefg` are rejected. |
| SignUp.FullNameError | src/components/SignUpForm.tsx:63-65 | The name fails exactly when it is empty, with the name-required message. |
| SignUp.EmailError | src/components/SignUpForm.tsx:72-78 | The email passes exactly when it has the pattern's shape. An empty email gets the required message. Any other failing email gets the malformed message. |
| SignUp.PasswordError | src/components/SignUpForm.tsx:86-88 | The password fails exactly when it is empty, with the password-required message. |
| SignUp.ConfirmPasswordError | src/components/SignUpForm.tsx:96-100 | The confirmation passes exactly when it is non-empty and equals the password. An empty one gets the required message. One that differs gets the mismatch message. |
| SignUp.FieldsPassIff | src/components/SignUpForm.tsx:58-102 | The form passes exactly when the name and password are non-empty, the confirmation equals the password, and the email matches the pattern. |
| SignUp.SignUpForm.OnSubmit | src/components/SignUpForm.tsx:35-55 | The request is issued first, with email, password and name. Success clears the message, alerts and moves to `/login`. The duplicate-email response sets the duplicate message. Any other failure leaves the message as it was. A failure without a response body also alerts. The message is always empty or the duplicate message. |
| SignUp.SignUpForm.HandleSubmit | src/components/SignUpForm.tsx:58 | When a field fails, nothing is sent and nothing changes. Otherwise the submit runs as OnSubmit states. |
| SignUp.SignUpForm.ShownOnlyDuplicate | src/components/SignUpForm.tsx:103 | In any state a submit can reach, a message is rendered under the form exactly when it is the duplicate-email message. |
| SignUp.SignUpForm.constructor | src/components/SignUpForm.tsx:17 | The form starts with an empty message. |
| Login.RequiredError | src/components/LoginForm.tsx:59-70 | A field fails exactly when it is empty, with its required message. |
| Login.MessagesAfter | src/components/LoginForm.tsx:38-50 | The list is empty exactly after a success, or after an Axios error whose truthy body is not the mismatch string. It holds the two mismatch messages, in order, exactly after the mismatch body. It holds the single server-error message exactly after any other error or a falsy body. |
| Login.ErrorBlockAfterSubmit | src/components/LoginForm.tsx:72 | After a submit, the error block shows exactly when the login failed without a body, or with the mismatch body. |
| Login.LoginForm.OnSubmit | src/components/LoginForm.tsx:32-51 | The `login` request is logged with the submitted email and password. The error list afterwards does not depend on what it held before; it is `MessagesAfter(outcome)`. A success stores the returned user and token. A failure leaves both unchanged. |
| Login.LoginForm.HandleSubmit | src/components/LoginForm.tsx:54-71 | With an empty email or password nothing is sent and nothing changes. Otherwise the request carries both fields, and the submit runs as OnSubmit states. |
| Login.LoginForm.constructor | src/components/LoginForm.tsx:19 | The form starts with an empty error list and an empty log. |
| CommentForm.SuccessEffects | src/components/Comment/CommentInput.tsx:48-53 | A fully successful submit logs CreateComment, GetMyInfo, the `COMMENT` notification with the new comment's id, the author's id and the post id, FetchHandler only when a handler was passed, and then the success toast. |
| CommentForm.CommentInput.OnSubmit | src/components/Comment/CommentInput.tsx:38-58 | Without a token, only the login-required toast is shown. With a token and an empty comment, only the input-required toast is shown. If `createComment` or `getMyInfo` fails, the server-error toast is shown without a notification or handler call. Every case except full success keeps the comment; full success logs `SuccessEffects` in order and clears the comment. |
| CommentForm.CommentInput.Submit | src/components/Comment/CommentInput.tsx:62 | The form submits the current comment for this post. The five cases of OnSubmit hold with that comment as the content: the login-required toast, the input-required toast, the server-error toast after a failed `createComment` or `getMyInfo` (the comment kept in each), and on full success `SuccessEffects` in order with the comment cleared to `""`. A comment is created exactly when there is a token and the comment is non-empty. The comment changes, and a notification is sent, exactly when every step succeeds. |
| CommentForm.CommentInput.OnChange | src/components/Comment/CommentInput.tsx:34-36 | The comment becomes the input's value, and nothing else changes. |
| CommentForm.CommentInput.OnInputFocus | src/components/Comment/CommentInput.tsx:30 | Focus sets the flag, and nothing else changes. |
| CommentForm.CommentInput.OnInputBlur | src/components/Comment/CommentInput.tsx:32 | Blur clears the flag, and nothing else changes. |
| CommentForm.CommentInput.constructor | src/components/Comment/CommentInput.tsx:24-28 | The input starts empty and unfocused. |

## Left out

- Rendering, markup and styling in every component: presentation only. The like count is `|likesState|` (`PostView.PostCard.LikeCount`). No contract is stated for it beyond that.
- Share and navigate-to-detail on the post card (`Post.tsx:22-28`): these use the clipboard and the router.
- What the remote calls do: `createLike`, `deleteLike`, `sendLikeNotification`, `createComment`, `getMyInfo`, `sendNotification`, `signUp` and `login`. Each is an entry in an effect log plus an input outcome.
- Outcomes of calls that are not awaited: `deleteLike`, `sendLikeNotification`, `sendNotification` and `fetchHandler()`. They are logged as issued. A failure there does not change the modelled state.
- Concurrency: overlapping toggles, and state changes while a call is pending. One handler runs to completion at a time.
- Sharing the session user between several post cards: each `PostCard` holds its own copy of the user.
- States shown while a call is pending. For example, the login form's list is cleared before `login` settles; only the settled state is modelled.
- Console logging (`Post.tsx:32`, `LoginForm.tsx:39`, `CommentInput.tsx:55`) and `e.preventDefault()`.
- The texts of the comment toasts: `src/utils/messages` is not part of this model, so toasts are named by kind.
- The form library's timing (`mode: 'all'`, `isSubmitting`, `isValid`, `resetField`): only its rules are modelled, as predicates, and its gate on submit as `HandleSubmit`.
- Non-string bodies of an HTTP error response: only whether they are truthy is kept. Strict equality with a message string never matches them.
- The search bar and the page components: these only handle layout, fetching and wiring.
