/**
 * The SELECT statements of sm.py as functions of the tables they read:
 * get_all_posts, get_user_posts, get_comments_for_post, authenticate and
 * get_user_info.
 */
module Queries {
  import opened Rows
  import opened Text

  /** Newest first, by SQLite's ordering of `created_at` text. */
  predicate NewestFirst(posts: seq<Post>) {
    forall i, j | 0 <= i < j < |posts| :: TextLeq(posts[j].createdAt, posts[i].createdAt)
  }

  /** Places `p` ahead of the first post that is not newer than it. */
  function InsertByDate(p: Post, posts: seq<Post>): (r: seq<Post>)
    ensures multiset(r) == multiset(posts) + multiset{p}
  {
    if posts == [] then [p]
    else if TextLeq(posts[0].createdAt, p.createdAt) then [p] + posts
    else
      assert posts == [posts[0]] + posts[1..];
      [posts[0]] + InsertByDate(p, posts[1..])
  }

  lemma {:induction false} InsertKeepsNewestFirst(p: Post, posts: seq<Post>)
    requires NewestFirst(posts)
    ensures NewestFirst(InsertByDate(p, posts))
  {
    if posts == [] {
    } else if TextLeq(posts[0].createdAt, p.createdAt) {
      var r := [p] + posts;
      forall i, j | 0 <= i < j < |r|
        ensures TextLeq(r[j].createdAt, r[i].createdAt)
      {
        if i == 0 && j > 1 {
          TextLeqTransitive(posts[j - 1].createdAt, posts[0].createdAt, p.createdAt);
        }
      }
    } else {
      var tail := posts[1..];
      var t := InsertByDate(p, tail);
      InsertKeepsNewestFirst(p, tail);
      TextLeqTotal(posts[0].createdAt, p.createdAt);
      forall j | 0 <= j < |t|
        ensures TextLeq(t[j].createdAt, posts[0].createdAt)
      {
        assert t[j] in multiset(t);
        if t[j] != p {
          assert t[j] in multiset(tail);
          var k :| 0 <= k < |tail| && tail[k] == t[j];
          assert posts[k + 1] == t[j];
        }
      }
      var r := [posts[0]] + t;
      forall i, j | 0 <= i < j < |r|
        ensures TextLeq(r[j].createdAt, r[i].createdAt)
      {
        assert r[j] == t[j - 1];
        if i > 0 {
          assert r[i] == t[i - 1];
        }
      }
    }
  }

  /**
   * get_all_posts (sm.py:49-51): `SELECT * FROM posts ORDER BY created_at DESC`
   * returns every row once, newest first. Rows with equal `created_at` keep
   * their table order here.
   */
  function GetAllPosts(posts: seq<Post>): (r: seq<Post>)
    ensures multiset(r) == multiset(posts)
    ensures NewestFirst(r)
  {
    if posts == [] then []
    else
      var rest := GetAllPosts(posts[1..]);
      InsertKeepsNewestFirst(posts[0], rest);
      assert posts == [posts[0]] + posts[1..];
      InsertByDate(posts[0], rest)
  }

  /** The first row of the listing is a newest post of the table. */
  lemma NewestListedFirst(posts: seq<Post>, k: nat)
    requires k < |posts|
    ensures GetAllPosts(posts) != []
    ensures TextLeq(posts[k].createdAt, GetAllPosts(posts)[0].createdAt)
  {
    var r := GetAllPosts(posts);
    assert posts[k] in multiset(posts);
    assert posts[k] in multiset(r);
    var j :| 0 <= j < |r| && r[j] == posts[k];
    if j == 0 {
      TextLeqTotal(r[0].createdAt, r[0].createdAt);
    }
  }

  /**
   * get_user_posts (sm.py:148-150): `SELECT * FROM posts WHERE user_id=?`
   * returns exactly the rows owned by that user, each as often as the table
   * holds it, and no others.
   */
  function GetUserPosts(posts: seq<Post>, userId: Option<int>): (r: seq<Post>)
    ensures forall p :: multiset(r)[p] == if Matches(p.userId, userId) then multiset(posts)[p] else 0
    ensures forall p :: p in r <==> p in posts && Matches(p.userId, userId)
  {
    if posts == [] then []
    else
      assert posts == [posts[0]] + posts[1..];
      (if Matches(posts[0].userId, userId) then [posts[0]] else []) + GetUserPosts(posts[1..], userId)
  }

  /**
   * get_comments_for_post (sm.py:131-133): `SELECT * FROM comments WHERE
   * post_id=?` returns exactly the comments on that post. There is no
   * ORDER BY, so only which rows come back is promised.
   */
  function GetCommentsForPost(comments: seq<Comment>, postId: int): (r: seq<Comment>)
    ensures forall c :: multiset(r)[c] == if c.postId == postId then multiset(comments)[c] else 0
    ensures forall c :: c in r <==> c in comments && c.postId == postId
  {
    if comments == [] then []
    else
      assert comments == [comments[0]] + comments[1..];
      (if comments[0].postId == postId then [comments[0]] else []) + GetCommentsForPost(comments[1..], postId)
  }

  /**
   * authenticate (sm.py:170-174): true exactly when some row has this
   * username and this plaintext password.
   */
  function Authenticate(users: seq<User>, username: string, password: string): (ok: bool)
    ensures ok <==> exists i | 0 <= i < |users| :: users[i].username == username && users[i].password == password
  {
    if users == [] then false
    else if users[0].username == username && users[0].password == password then true
    else
      var ok := Authenticate(users[1..], username, password);
      assert ok ==> exists i | 0 <= i < |users| :: users[i].username == username && users[i].password == password by {
        if ok {
          var i :| 0 <= i < |users[1..]| && users[1..][i].username == username && users[1..][i].password == password;
          assert users[i + 1] == users[1..][i];
        }
      }
      assert (exists i | 0 <= i < |users| :: users[i].username == username && users[i].password == password) ==> ok by {
        if exists i | 0 <= i < |users| :: users[i].username == username && users[i].password == password {
          var i :| 0 <= i < |users| && users[i].username == username && users[i].password == password;
          assert i > 0;
          assert users[1..][i - 1] == users[i];
        }
      }
      ok
  }

  /**
   * Usernames are unique, so a login with an existing username succeeds
   * exactly when the password is that account's password.
   */
  lemma AuthenticateChecksTheAccount(users: seq<User>, k: nat, password: string)
    requires UniqueAccounts(users)
    requires k < |users|
    ensures Authenticate(users, users[k].username, password) <==> password == users[k].password
  {
    if Authenticate(users, users[k].username, password) {
      var i :| 0 <= i < |users| && users[i].username == users[k].username && users[i].password == password;
    }
  }

  /**
   * get_user_info (sm.py:293-295): `fetchone()` of `SELECT * FROM users
   * WHERE id=?`: a row with that id when there is one, None otherwise
   * (always None for a NULL id).
   */
  function GetUserInfo(users: seq<User>, userId: Option<int>): (r: Option<User>)
    ensures r.Some? <==> exists i | 0 <= i < |users| :: Matches(Some(users[i].id), userId)
    ensures r.Some? ==> r.value in users && Matches(Some(r.value.id), userId)
  {
    if users == [] then None
    else if Matches(Some(users[0].id), userId) then Some(users[0])
    else
      var r := GetUserInfo(users[1..], userId);
      assert r.Some? ==> exists i | 0 <= i < |users| :: Matches(Some(users[i].id), userId) by {
        if r.Some? {
          var i :| 0 <= i < |users[1..]| && Matches(Some(users[1..][i].id), userId);
          assert users[i + 1] == users[1..][i];
        }
      }
      assert (exists i | 0 <= i < |users| :: Matches(Some(users[i].id), userId)) ==> r.Some? by {
        if exists i | 0 <= i < |users| :: Matches(Some(users[i].id), userId) {
          var i :| 0 <= i < |users| && Matches(Some(users[i].id), userId);
          assert users[1..][i - 1] == users[i];
        }
      }
      r
  }

  /** With ids unique, the row returned is the one row with that id. */
  lemma {:induction false} GetUserInfoFindsTheRow(users: seq<User>, k: nat)
    requires UniqueIds(UserIds(users))
    requires k < |users|
    ensures GetUserInfo(users, Some(users[k].id)) == Some(users[k])
  {
    if k > 0 {
      assert UserIds(users)[0] != UserIds(users)[k];
      var tail := users[1..];
      assert UniqueIds(UserIds(tail)) by {
        forall i, j | 0 <= i < j < |tail| ensures UserIds(tail)[i] != UserIds(tail)[j] {
          assert UserIds(users)[i + 1] != UserIds(users)[j + 1];
        }
      }
      assert tail[k - 1] == users[k];
      GetUserInfoFindsTheRow(tail, k - 1);
    }
  }
}
