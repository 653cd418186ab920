/**
 * The records the API returns and the application keeps in its shared
 * user state.
 */
module Session {
  import opened Js

  /** A like: its own server-assigned id, the id of the user who likes, and
      the id of the liked post (`_id`, `user`, `post`). */
  datatype Like = Like(id: string, user: string, post: string)

  /** The session user held in the shared user state. `id` is `_id`, which
      may be missing; `likes` may be missing too, while an empty list is a
      present (truthy) list. */
  datatype User = User(id: Option<string>, fullName: string, likes: Option<seq<Like>>)
}
