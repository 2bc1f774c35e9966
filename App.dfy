/**
 * The blog as the running script sees it: the three tables, updated in place
 * by each statement, and the session fields `authenticated`, `user_id` and
 * the per-post "liked" flags that guard what a visitor may do.
 */
module App {
  import opened Rows
  import opened Text
  import opened Queries
  import opened Writes

  /** How a press of the Register button ends (sm.py:342-351). */
  datatype Registration =
    | PasswordsDiffer   // "Passwords do not match."
    | Rejected          // the INSERT broke a UNIQUE constraint
    | Registered

  class Blog {
    var posts: seq<Post>
    var users: seq<User>
    var comments: seq<Comment>

    /** `st.session_state.authenticated` */
    var authenticated: bool
    /** `st.session_state.user_id`; None before login and after logout */
    var userId: Option<int>
    /** The ids whose `like_button_<id>` flag is set in this session */
    var liked: set<int>

    ghost predicate Valid()
      reads this
    {
      TablesValid(posts, users, comments) && (authenticated ==> userId.Some?)
    }

    /**
     * A new session over the tables already in blog.db: nobody is logged in
     * (sm.py:356-357) and no post has been liked yet.
     */
    constructor (posts: seq<Post>, users: seq<User>, comments: seq<Comment>)
      requires TablesValid(posts, users, comments)
      ensures Valid()
      ensures this.posts == posts && this.users == users && this.comments == comments
      ensures !authenticated && userId == None && liked == {}
    {
      this.posts := posts;
      this.users := users;
      this.comments := comments;
      authenticated := false;
      userId := None;
      liked := {};
    }

    /**
     * create_post (sm.py:35-45): without a login nothing changes; with one,
     * exactly one row is appended, with a fresh id, the given author, title
     * and content, no category or tags, no likes and the time `now`.
     */
    method CreatePost(title: string, content: string, author: Option<int>, now: string)
      requires Valid()
      modifies this`posts
      ensures Valid()
      ensures !authenticated ==> posts == old(posts)
      ensures authenticated ==>
        posts == old(posts) + [Post(NextId(PostIds(old(posts))), author, title, content, None, None, 0, now)]
    {
      if !authenticated {
        return;
      }
      var p := Post(NextId(PostIds(posts)), author, title, content, None, None, 0, now);
      AppendPostKeepsTableValid(posts, p);
      posts := posts + [p];
    }

    /**
     * The Create button (sm.py:206-221): a post is created, for the session's
     * user, exactly when someone is logged in and neither the title nor the
     * content is blank after stripping.
     */
    method SubmitPost(title: string, content: string, now: string) returns (created: bool)
      requires Valid()
      modifies this`posts
      ensures Valid()
      ensures created <==> authenticated && !IsBlank(title) && !IsBlank(content)
      ensures created ==>
        posts == old(posts) + [Post(NextId(PostIds(old(posts))), userId, title, content, None, None, 0, now)]
      ensures !created ==> posts == old(posts)
    {
      created := false;
      if authenticated {
        if Strip(title) != [] && Strip(content) != [] {
          CreatePost(title, content, userId, now);
          created := true;
        }
      }
    }

    /** increment_like (sm.py:126-128). */
    method IncrementLike(postId: int)
      requires Valid()
      modifies this`posts
      ensures Valid()
      ensures posts == LikeAdded(old(posts), postId)
    {
      LikeKeepsTableValid(posts, postId);
      posts := LikeAdded(posts, postId);
    }

    /**
     * A press of a post's Like button (sm.py:80-89): the first press in a
     * session likes the post and sets its flag; any later press in the same
     * session changes nothing.
     */
    method PressLike(postId: int) returns (counted: bool)
      requires Valid()
      modifies this`posts, this`liked
      ensures Valid()
      ensures counted <==> postId !in old(liked)
      ensures posts == if counted then LikeAdded(old(posts), postId) else old(posts)
      ensures liked == old(liked) + {postId}
    {
      counted := postId !in liked;
      if counted {
        IncrementLike(postId);
        liked := liked + {postId};
      }
    }

    /**
     * create_comment (sm.py:137-144): appends exactly one row, with a fresh id
     * and the time `now`.
     */
    method CreateComment(postId: int, author: Option<int>, parentId: Option<int>, body: string, now: string)
      requires Valid()
      modifies this`comments
      ensures Valid()
      ensures comments == old(comments) + [Comment(NextId(CommentIds(old(comments))), postId, author, parentId, body, now)]
    {
      var c := Comment(NextId(CommentIds(comments)), postId, author, parentId, body, now);
      AppendCommentKeepsIdsUnique(comments, c);
      comments := comments + [c];
    }

    /** delete_post (sm.py:154-156). */
    method DeletePost(postId: int)
      requires Valid()
      modifies this`posts
      ensures Valid()
      ensures posts == Deleted(old(posts), postId)
    {
      DeleteKeepsTableValid(posts, postId);
      posts := Deleted(posts, postId);
    }

    /**
     * register_user (sm.py:160-166): when the username or the email is taken
     * the insert fails and the table is unchanged; otherwise one row is
     * appended with role "user", verified 0 and no bio.
     */
    method RegisterUser(username: string, email: string, password: string, picture: Option<string>)
      returns (ok: bool)
      requires Valid()
      modifies this`users
      ensures Valid()
      ensures ok <==> !Conflicts(old(users), username, email)
      ensures ok ==> users == old(users) + [NewUser(old(users), username, email, password, picture)]
      ensures !ok ==> users == old(users)
    {
      ok := !Conflicts(users, username, email);
      if ok {
        RegistrationKeepsAccountsValid(users, username, email, password, picture);
        users := users + [NewUser(users, username, email, password, picture)];
      }
    }

    /**
     * The Register button (sm.py:342-351): mismatched passwords stop the
     * registration; otherwise an uploaded picture is saved first and its
     * path stored with the new account.
     */
    method SubmitRegistration(username: string, email: string, password: string, confirm: string,
                              upload: Option<Upload>)
      returns (outcome: Registration)
      requires Valid()
      modifies this`users
      ensures Valid()
      ensures outcome == PasswordsDiffer <==> password != confirm
      ensures outcome == Rejected <==> password == confirm && Conflicts(old(users), username, email)
      ensures outcome == Registered ==>
        users == old(users) + [NewUser(old(users), username, email, password,
                                       if upload.Some? then Some(SavedImagePath(upload.value)) else None)]
      ensures outcome != Registered ==> users == old(users)
    {
      if password != confirm {
        return PasswordsDiffer;
      }
      var picture := if upload.Some? then Some(SavedImagePath(upload.value)) else None;
      var ok := RegisterUser(username, email, password, picture);
      outcome := if ok then Registered else Rejected;
    }

    /**
     * The Login button (sm.py:323-331): on a match the session is marked
     * logged in with user id 1, whichever account matched; otherwise the
     * session is left as it was.
     */
    method Login(username: string, password: string) returns (ok: bool)
      requires Valid()
      modifies this`authenticated, this`userId
      ensures Valid()
      ensures ok == Authenticate(users, username, password)
      ensures ok ==> authenticated && userId == Some(1)
      ensures !ok ==> authenticated == old(authenticated) && userId == old(userId)
    {
      ok := Authenticate(users, username, password);
      if ok {
        authenticated := true;
        userId := Some(1);
      }
    }

    /** logout (sm.py:181-184). */
    method Logout()
      requires Valid()
      modifies this`authenticated, this`userId
      ensures Valid()
      ensures !authenticated && userId == None
    {
      authenticated := false;
      userId := None;
    }

    /**
     * update_user_profile (sm.py:298-309): a non-empty bio and an uploaded
     * picture's saved path are written to the rows with that id.
     */
    method UpdateUserProfile(target: Option<int>, newBio: string, upload: Option<Upload>)
      requires Valid()
      modifies this`users
      ensures Valid()
      ensures users == ProfileUpdated(old(users), target, newBio,
                                      if upload.Some? then Some(SavedImagePath(upload.value)) else None)
    {
      var picture := if upload.Some? then Some(SavedImagePath(upload.value)) else None;
      ProfileUpdateKeepsTableValid(users, target, newBio, picture);
      if newBio != [] {
        users := BioSet(users, target, newBio);
      }
      if upload.Some? {
        users := PictureSet(users, target, SavedImagePath(upload.value));
      }
    }
  }
}
