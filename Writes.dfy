/**
 * The UPDATE and DELETE statements of sm.py as functions from the old table
 * to the new one, with what each keeps and what each changes; the row
 * register_user inserts; and lemmas showing that the rows the INSERT
 * statements append keep the tables valid. The class in App.dfy assigns
 * these to its tables and performs the appends itself.
 */
module Writes {
  import opened Rows
  import opened Queries

  // ----- posts -----

  /** The row `p` after `likes = likes + 1` when its id is `postId`. */
  function Bump(p: Post, postId: int): Post {
    if p.id == postId then p.(likes := p.likes + 1) else p
  }

  /**
   * `UPDATE posts SET likes = likes + 1 WHERE id=?` (sm.py:127): the likes
   * of each row with that id go up by one; nothing else changes.
   */
  function LikeAdded(posts: seq<Post>, postId: int): (r: seq<Post>)
    ensures |r| == |posts|
    ensures forall i | 0 <= i < |posts| ::
      && r[i].likes == posts[i].likes + (if posts[i].id == postId then 1 else 0)
      && r[i] == posts[i].(likes := r[i].likes)
  {
    if posts == [] then []
    else [Bump(posts[0], postId)] + LikeAdded(posts[1..], postId)
  }

  /** The sum of the like counters of a table. */
  function TotalLikes(posts: seq<Post>): int {
    if posts == [] then 0 else posts[0].likes + TotalLikes(posts[1..])
  }

  /** How many rows carry id `postId`. */
  function CountId(posts: seq<Post>, postId: int): nat {
    if posts == [] then 0 else (if posts[0].id == postId then 1 else 0) + CountId(posts[1..], postId)
  }

  /** A like adds one to the table's total for each row it matches. */
  lemma {:induction false} LikeAddedTotal(posts: seq<Post>, postId: int)
    ensures TotalLikes(LikeAdded(posts, postId)) == TotalLikes(posts) + CountId(posts, postId)
  {
    if posts != [] {
      LikeAddedTotal(posts[1..], postId);
      assert LikeAdded(posts, postId)[1..] == LikeAdded(posts[1..], postId);
    }
  }

  /** A table with unique ids keeps them without its first row, whose id is nowhere else. */
  lemma UniqueIdsTail(posts: seq<Post>)
    requires UniqueIds(PostIds(posts)) && posts != []
    ensures UniqueIds(PostIds(posts[1..]))
    ensures forall i | 0 <= i < |posts| - 1 :: posts[1..][i].id != posts[0].id
  {
    var tail := posts[1..];
    forall i, j | 0 <= i < j < |tail| ensures PostIds(tail)[i] != PostIds(tail)[j] {
      assert PostIds(posts)[i + 1] != PostIds(posts)[j + 1];
    }
    forall i | 0 <= i < |tail| ensures tail[i].id != posts[0].id {
      assert PostIds(posts)[0] != PostIds(posts)[i + 1];
    }
  }

  /** Ids are unique, so an id present once is counted once. */
  lemma {:induction false} CountIdOfUnique(posts: seq<Post>, k: nat)
    requires UniqueIds(PostIds(posts))
    requires k < |posts|
    ensures CountId(posts, posts[k].id) == 1
  {
    var tail := posts[1..];
    UniqueIdsTail(posts);
    if k == 0 {
      CountIdAbsent(tail, posts[0].id);
    } else {
      assert PostIds(posts)[0] != PostIds(posts)[k];
      assert tail[k - 1] == posts[k];
      CountIdOfUnique(tail, k - 1);
    }
  }

  lemma {:induction false} CountIdAbsent(posts: seq<Post>, postId: int)
    requires forall i | 0 <= i < |posts| :: posts[i].id != postId
    ensures CountId(posts, postId) == 0
  {
    if posts != [] {
      CountIdAbsent(posts[1..], postId);
    }
  }

  /**
   * With the ids unique, liking a post that exists raises the total likes of
   * the table by exactly one; liking an id that is not present changes
   * nothing at all.
   */
  lemma LikeRaisesTotalByOne(posts: seq<Post>, k: nat)
    requires UniqueIds(PostIds(posts))
    requires k < |posts|
    ensures TotalLikes(LikeAdded(posts, posts[k].id)) == TotalLikes(posts) + 1
  {
    LikeAddedTotal(posts, posts[k].id);
    CountIdOfUnique(posts, k);
  }

  lemma LikeOfAbsentIdChangesNothing(posts: seq<Post>, postId: int)
    requires forall i | 0 <= i < |posts| :: posts[i].id != postId
    ensures LikeAdded(posts, postId) == posts
  {
  }

  /** `n` successive likes of one post. */
  function LikeAddedTimes(posts: seq<Post>, postId: int, n: nat): seq<Post> {
    if n == 0 then posts else LikeAdded(LikeAddedTimes(posts, postId, n - 1), postId)
  }

  /**
   * Liking a post `n` times raises its counter by `n` and leaves every other
   * field and every other row as it was.
   */
  lemma {:induction false} LikedTimes(posts: seq<Post>, postId: int, n: nat)
    ensures |LikeAddedTimes(posts, postId, n)| == |posts|
    ensures forall i | 0 <= i < |posts| ::
      && LikeAddedTimes(posts, postId, n)[i].likes == posts[i].likes + (if posts[i].id == postId then n else 0)
      && LikeAddedTimes(posts, postId, n)[i] == posts[i].(likes := LikeAddedTimes(posts, postId, n)[i].likes)
  {
    if n > 0 {
      LikedTimes(posts, postId, n - 1);
    }
  }

  /** Liking keeps the ids and the non-negative counters. */
  lemma LikeKeepsTableValid(posts: seq<Post>, postId: int)
    requires UniqueIds(PostIds(posts)) && LikesNonNegative(posts)
    ensures PostIds(LikeAdded(posts, postId)) == PostIds(posts)
    ensures LikesNonNegative(LikeAdded(posts, postId))
  {
  }

  /**
   * `DELETE FROM posts WHERE id=?` (sm.py:155): every row with that id goes,
   * every other row stays, in its order.
   */
  function Deleted(posts: seq<Post>, postId: int): (r: seq<Post>)
    ensures |r| <= |posts|
    ensures forall i | 0 <= i < |r| :: r[i].id != postId
  {
    if posts == [] then []
    else (if posts[0].id == postId then [] else [posts[0]]) + Deleted(posts[1..], postId)
  }

  /** The rows a delete keeps: exactly those with another id, as often as before. */
  lemma {:induction false} DeletedRows(posts: seq<Post>, postId: int)
    ensures forall p :: multiset(Deleted(posts, postId))[p] == if p.id == postId then 0 else multiset(posts)[p]
    ensures forall p :: p in Deleted(posts, postId) <==> p in posts && p.id != postId
  {
    if posts != [] {
      DeletedRows(posts[1..], postId);
      assert posts == [posts[0]] + posts[1..];
    }
  }

  /** Deleting an id that is not present leaves the table as it was. */
  lemma {:induction false} DeleteAbsent(posts: seq<Post>, postId: int)
    requires forall i | 0 <= i < |posts| :: posts[i].id != postId
    ensures Deleted(posts, postId) == posts
  {
    if posts != [] {
      DeleteAbsent(posts[1..], postId);
    }
  }

  /** Deleting the same id a second time is a no-op. */
  lemma DeleteTwiceIsDeleteOnce(posts: seq<Post>, postId: int)
    ensures Deleted(Deleted(posts, postId), postId) == Deleted(posts, postId)
  {
    var r := Deleted(posts, postId);
    DeletedRows(posts, postId);
    forall i | 0 <= i < |r| ensures r[i].id != postId {
      assert r[i] in r;
    }
    DeleteAbsent(r, postId);
  }

  /**
   * With the ids unique, deleting the id of row `k` removes that row and
   * only that row.
   */
  lemma {:induction false} DeleteRemovesOneRow(posts: seq<Post>, k: nat)
    requires UniqueIds(PostIds(posts))
    requires k < |posts|
    ensures Deleted(posts, posts[k].id) == posts[..k] + posts[k + 1..]
  {
    var tail := posts[1..];
    UniqueIdsTail(posts);
    if k == 0 {
      assert Deleted(posts, posts[0].id) == Deleted(tail, posts[0].id);
      DeleteAbsent(tail, posts[0].id);
    } else {
      assert PostIds(posts)[0] != PostIds(posts)[k];
      assert tail[k - 1] == posts[k];
      assert Deleted(posts, posts[k].id) == [posts[0]] + Deleted(tail, posts[k].id);
      DeleteRemovesOneRow(tail, k - 1);
      assert posts[..k] == [posts[0]] + tail[..k - 1];
      assert posts[k + 1..] == tail[k..];
    }
  }

  /** Every row a delete keeps was in the table. */
  lemma {:induction false} DeletedSubset(posts: seq<Post>, postId: int)
    ensures forall i | 0 <= i < |Deleted(posts, postId)| :: Deleted(posts, postId)[i] in posts
  {
    if posts != [] {
      DeletedSubset(posts[1..], postId);
    }
  }

  /** Deleting keeps the ids unique and the counters non-negative. */
  lemma {:induction false} DeleteKeepsTableValid(posts: seq<Post>, postId: int)
    requires UniqueIds(PostIds(posts)) && LikesNonNegative(posts)
    ensures UniqueIds(PostIds(Deleted(posts, postId)))
    ensures LikesNonNegative(Deleted(posts, postId))
  {
    var r := Deleted(posts, postId);
    DeletedSubset(posts, postId);
    forall i | 0 <= i < |r| ensures r[i].likes >= 0 {
      var m :| 0 <= m < |posts| && posts[m] == r[i];
    }
    if posts != [] {
      var tail := posts[1..];
      UniqueIdsTail(posts);
      DeleteKeepsTableValid(tail, postId);
      var t := Deleted(tail, postId);
      DeletedSubset(tail, postId);
      if posts[0].id != postId {
        assert r == [posts[0]] + t;
        forall j | 0 <= j < |t| ensures t[j].id != posts[0].id {
          var m :| 0 <= m < |tail| && tail[m] == t[j];
        }
        forall i, j | 0 <= i < j < |r| ensures PostIds(r)[i] != PostIds(r)[j] {
          if i > 0 {
            assert PostIds(t)[i - 1] != PostIds(t)[j - 1];
          }
        }
      } else {
        assert r == t;
      }
    }
  }

  /** Appending a post numbered by NextId keeps the table valid. */
  lemma AppendPostKeepsTableValid(posts: seq<Post>, p: Post)
    requires UniqueIds(PostIds(posts)) && LikesNonNegative(posts)
    requires p.id == NextId(PostIds(posts)) && p.likes == 0
    ensures UniqueIds(PostIds(posts + [p])) && LikesNonNegative(posts + [p])
  {
    FreshIdKeepsUnique(PostIds(posts));
    assert PostIds(posts + [p]) == PostIds(posts) + [p.id];
  }

  // ----- comments -----

  lemma AppendCommentKeepsIdsUnique(comments: seq<Comment>, c: Comment)
    requires UniqueIds(CommentIds(comments))
    requires c.id == NextId(CommentIds(comments))
    ensures UniqueIds(CommentIds(comments + [c]))
  {
    FreshIdKeepsUnique(CommentIds(comments));
    assert CommentIds(comments + [c]) == CommentIds(comments) + [c.id];
  }

  // ----- users -----

  /** An existing row already holds this username or this email. */
  predicate Conflicts(users: seq<User>, username: string, email: string) {
    exists i | 0 <= i < |users| :: users[i].username == username || users[i].email == email
  }

  /** The row register_user inserts (sm.py:161-164). */
  function NewUser(users: seq<User>, username: string, email: string, password: string,
                   picture: Option<string>): (u: User)
    ensures forall i | 0 <= i < |users| :: users[i].id < u.id
    ensures u.username == username && u.email == email && u.password == password
    ensures u.profilePicture == picture
    ensures u.id == NextId(UserIds(users))
    ensures u.role == "user" && u.verified == 0 && u.bio == None
  {
    assert forall i | 0 <= i < |users| :: UserIds(users)[i] == users[i].id;
    User(NextId(UserIds(users)), username, email, password, "user", 0, picture, None)
  }

  /**
   * A registration that passes the UNIQUE constraints keeps the users table
   * valid, and the new account can then log in with its password.
   */
  lemma RegistrationKeepsAccountsValid(users: seq<User>, username: string, email: string,
                                       password: string, picture: Option<string>)
    requires UniqueIds(UserIds(users)) && UniqueAccounts(users)
    requires !Conflicts(users, username, email)
    ensures UniqueIds(UserIds(users + [NewUser(users, username, email, password, picture)]))
    ensures UniqueAccounts(users + [NewUser(users, username, email, password, picture)])
    ensures Authenticate(users + [NewUser(users, username, email, password, picture)], username, password)
  {
    var u := NewUser(users, username, email, password, picture);
    var r := users + [u];
    FreshIdKeepsUnique(UserIds(users));
    assert UserIds(r) == UserIds(users) + [u.id];
    forall i, j | 0 <= i < j < |r| ensures r[i].username != r[j].username && r[i].email != r[j].email {
      if j == |users| {
        assert r[i] == users[i];
      }
    }
    assert r[|users|].username == username && r[|users|].password == password;
  }

  /** `UPDATE users SET bio=? WHERE id=?` (sm.py:300). */
  function BioSet(users: seq<User>, userId: Option<int>, bio: string): (r: seq<User>)
    ensures |r| == |users|
    ensures forall i | 0 <= i < |users| ::
      && r[i] == users[i].(bio := r[i].bio)
      && r[i].bio == (if Matches(Some(users[i].id), userId) then Some(bio) else users[i].bio)
  {
    seq(|users|, i requires 0 <= i < |users| =>
      if Matches(Some(users[i].id), userId) then users[i].(bio := Some(bio)) else users[i])
  }

  /** `UPDATE users SET profile_picture=? WHERE id=?` (sm.py:304-307). */
  function PictureSet(users: seq<User>, userId: Option<int>, path: string): (r: seq<User>)
    ensures |r| == |users|
    ensures forall i | 0 <= i < |users| ::
      && r[i] == users[i].(profilePicture := r[i].profilePicture)
      && r[i].profilePicture == (if Matches(Some(users[i].id), userId) then Some(path) else users[i].profilePicture)
  {
    seq(|users|, i requires 0 <= i < |users| =>
      if Matches(Some(users[i].id), userId) then users[i].(profilePicture := Some(path)) else users[i])
  }

  /**
   * update_user_profile (sm.py:298-308): the bio is written only for a
   * non-empty `newBio`, the picture only when a new one was saved.
   */
  function ProfileUpdated(users: seq<User>, userId: Option<int>, newBio: string,
                          newPicture: Option<string>): (r: seq<User>)
    ensures |r| == |users|
    ensures forall i | 0 <= i < |users| ::
      r[i] == users[i].(bio := r[i].bio, profilePicture := r[i].profilePicture)
  {
    var afterBio := if newBio != [] then BioSet(users, userId, newBio) else users;
    if newPicture.Some? then PictureSet(afterBio, userId, newPicture.value) else afterBio
  }

  /**
   * A profile update rewrites at most the bio and the picture of the rows
   * with that id, each only when a new value is given, and touches no other
   * row and no other field.
   */
  lemma ProfileUpdateChangesOnlyBioAndPicture(users: seq<User>, userId: Option<int>,
                                              newBio: string, newPicture: Option<string>)
    ensures |ProfileUpdated(users, userId, newBio, newPicture)| == |users|
    ensures forall i | 0 <= i < |users| ::
      var old_ := users[i];
      var new_ := ProfileUpdated(users, userId, newBio, newPicture)[i];
      if Matches(Some(old_.id), userId) then
        new_ == old_.(bio := if newBio != [] then Some(newBio) else old_.bio,
                      profilePicture := if newPicture.Some? then newPicture else old_.profilePicture)
      else new_ == old_
  {
  }

  /** A profile update keeps the ids and the accounts unique. */
  lemma ProfileUpdateKeepsTableValid(users: seq<User>, userId: Option<int>, newBio: string,
                                     newPicture: Option<string>)
    requires UniqueIds(UserIds(users)) && UniqueAccounts(users)
    ensures UniqueIds(UserIds(ProfileUpdated(users, userId, newBio, newPicture)))
    ensures UniqueAccounts(ProfileUpdated(users, userId, newBio, newPicture))
  {
    var r := ProfileUpdated(users, userId, newBio, newPicture);
    assert UserIds(r) == UserIds(users);
  }

  /** A profile update leaves every login result as it was. */
  lemma ProfileUpdateKeepsLogins(users: seq<User>, userId: Option<int>, newBio: string,
                                 newPicture: Option<string>, username: string, password: string)
    ensures Authenticate(ProfileUpdated(users, userId, newBio, newPicture), username, password)
        == Authenticate(users, username, password)
  {
    var r := ProfileUpdated(users, userId, newBio, newPicture);
    if Authenticate(users, username, password) {
      var i :| 0 <= i < |users| && users[i].username == username && users[i].password == password;
      assert r[i].username == username && r[i].password == password;
    }
    if Authenticate(r, username, password) {
      var i :| 0 <= i < |r| && r[i].username == username && r[i].password == password;
      assert users[i].username == username && users[i].password == password;
    }
  }

  // ----- uploads -----

  /**
   * A file received from the upload widget, by its client-side name. Its
   * bytes are written to disk in the source; the model has no file system.
   */
  datatype Upload = Upload(name: string)

  /**
   * The path save_uploaded_image returns (sm.py:284-290):
   * `os.path.join("uploads", name)` on POSIX, which keeps an absolute name
   * as it is and otherwise puts the name under `uploads/`.
   */
  function SavedImagePath(upload: Upload): (path: string)
    ensures |upload.name| <= |path| && path[|path| - |upload.name|..] == upload.name
    ensures (upload.name == [] || upload.name[0] != '/') ==> |path| >= 8 && path[..8] == "uploads/"
  {
    if upload.name != [] && upload.name[0] == '/' then upload.name
    else "uploads/" + upload.name
  }
}
