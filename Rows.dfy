/**
 * The rows of the three SQLite tables the blog keeps (sm.py:10-28), the
 * NULL-aware comparison its WHERE clauses use, and the rowid SQLite hands
 * out to a new INTEGER PRIMARY KEY row.
 */
module Rows {

  datatype Option<T> = None | Some(value: T)

  /** A row of `posts`. `userId` is NULL when the session held no user id. */
  datatype Post = Post(
    id: int,
    userId: Option<int>,
    title: string,
    content: string,
    category: Option<string>,
    tags: Option<string>,
    likes: int,
    createdAt: string)

  /** A row of `users`; `verified` is the INTEGER flag, never set to 1. */
  datatype User = User(
    id: int,
    username: string,
    email: string,
    password: string,
    role: string,
    verified: int,
    profilePicture: Option<string>,
    bio: Option<string>)

  /** A row of `comments`; `parentId` is stored but never read back. */
  datatype Comment = Comment(
    id: int,
    postId: int,
    userId: Option<int>,
    parentId: Option<int>,
    body: string,
    createdAt: string)

  /** `column = ?` in a WHERE clause: a NULL on either side matches nothing. */
  predicate Matches(column: Option<int>, param: Option<int>)
    ensures param == None ==> !Matches(column, param)
    ensures column == None ==> !Matches(column, param)
    ensures column.Some? && param.Some? ==> (Matches(column, param) <==> column.value == param.value)
  {
    column.Some? && column == param
  }

  /** The largest of a non-empty sequence of ids. */
  function MaxId(ids: seq<int>): (m: int)
    requires ids != []
    ensures m in ids
    ensures forall i | 0 <= i < |ids| :: ids[i] <= m
  {
    if |ids| == 1 then ids[0]
    else
      var rest := MaxId(ids[1..]);
      if ids[0] >= rest then ids[0] else rest
  }

  /**
   * The rowid SQLite gives a new row of a table declared with
   * INTEGER PRIMARY KEY (no AUTOINCREMENT): one more than the largest rowid
   * present, or 1 in an empty table. It is larger than every id present.
   */
  function NextId(ids: seq<int>): (r: int)
    ensures forall i | 0 <= i < |ids| :: ids[i] < r
    ensures ids == [] ==> r == 1
    ensures ids != [] ==> r - 1 in ids
  {
    if ids == [] then 1 else MaxId(ids) + 1
  }

  function PostIds(posts: seq<Post>): seq<int> {
    seq(|posts|, i requires 0 <= i < |posts| => posts[i].id)
  }

  function UserIds(users: seq<User>): seq<int> {
    seq(|users|, i requires 0 <= i < |users| => users[i].id)
  }

  function CommentIds(comments: seq<Comment>): seq<int> {
    seq(|comments|, i requires 0 <= i < |comments| => comments[i].id)
  }

  /** PRIMARY KEY: no two rows share an id. */
  predicate UniqueIds(ids: seq<int>) {
    forall i, j | 0 <= i < j < |ids| :: ids[i] != ids[j]
  }

  /** The UNIQUE constraints on `username` and on `email` (sm.py:19). */
  predicate UniqueAccounts(users: seq<User>) {
    forall i, j | 0 <= i < j < |users| ::
      users[i].username != users[j].username && users[i].email != users[j].email
  }

  /** Every like counter starts at 0 and is only ever incremented. */
  predicate LikesNonNegative(posts: seq<Post>) {
    forall i | 0 <= i < |posts| :: posts[i].likes >= 0
  }

  /**
   * What the schema and the application keep true of the three tables: the
   * PRIMARY KEY and UNIQUE constraints (sm.py:11-20) and counters that only
   * ever grow from 0. In a valid table an id, a username or an email names
   * at most one row.
   */
  predicate TablesValid(posts: seq<Post>, users: seq<User>, comments: seq<Comment>)
    ensures TablesValid(posts, users, comments) ==>
      forall i, j | 0 <= i < |posts| && 0 <= j < |posts| && i != j :: posts[i].id != posts[j].id
    ensures TablesValid(posts, users, comments) ==>
      forall i, j | 0 <= i < |users| && 0 <= j < |users| && i != j ::
        users[i].username != users[j].username && users[i].email != users[j].email
  {
    DistinctRows(posts, users);
    && UniqueIds(PostIds(posts))
    && UniqueIds(UserIds(users))
    && UniqueIds(CommentIds(comments))
    && UniqueAccounts(users)
    && LikesNonNegative(posts)
  }

  /** Unique ids and accounts, stated row by row in either order. */
  lemma DistinctRows(posts: seq<Post>, users: seq<User>)
    ensures UniqueIds(PostIds(posts)) ==>
      forall i, j | 0 <= i < |posts| && 0 <= j < |posts| && i != j :: posts[i].id != posts[j].id
    ensures UniqueAccounts(users) ==>
      forall i, j | 0 <= i < |users| && 0 <= j < |users| && i != j ::
        users[i].username != users[j].username && users[i].email != users[j].email
  {
    if UniqueIds(PostIds(posts)) {
      forall i, j | 0 <= i < |posts| && 0 <= j < |posts| && i != j ensures posts[i].id != posts[j].id {
        if i < j {
          assert PostIds(posts)[i] != PostIds(posts)[j];
        } else {
          assert PostIds(posts)[j] != PostIds(posts)[i];
        }
      }
    }
  }

  /** Appending the row SQLite numbers NextId keeps the ids unique. */
  lemma FreshIdKeepsUnique(ids: seq<int>)
    requires UniqueIds(ids)
    ensures UniqueIds(ids + [NextId(ids)])
  {
  }
}
