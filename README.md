# Blog store and session, modelled in Dafny

This project models the core of `sm.py`, a single-file blog web application.
The application keeps three SQLite tables: `posts`, `users` and `comments`.
Each operation is one parameterised SQL statement. The model has three parts:

- **Rows.dfy**: the rows of the three tables, and the SQL `=` test against a
  possibly NULL parameter.
  - It also has the rowid SQLite gives a new `INTEGER PRIMARY KEY` row: the
    largest id present plus one, or 1 in an empty table.
  - It states what the schema and the application keep true: unique ids,
    unique usernames and emails, and like counters that are never negative.
- **Text.dfy**: two string operations.
  - Python's `str.strip()` decides whether a title or a post body is blank.
  - SQLite's BINARY collation orders `created_at`.
- **Queries.dfy**: the SELECT statements as functions of the tables they read.
  These are `get_all_posts`, `get_user_posts`, `get_comments_for_post`,
  `authenticate` and `get_user_info`.
- **Writes.dfy**: the UPDATE and DELETE statements as functions from the old
  table to the new one, with lemmas about what each keeps and what each changes.
  - The UPDATE statements are `increment_like` and `update_user_profile`.
  - The DELETE statement is `delete_post`.
  - This file also holds the path `save_uploaded_image` returns.
- **Pagination.dfy**: the slice bounds and page count of `display_posts`.
- **App.dfy**: a class `Blog` holding the three tables and the session fields.
  - The session fields are `authenticated`, `user_id` and the per-post "liked"
    flags.
  - Its methods are the store operations: each INSERT, UPDATE or DELETE
    reassigns a table.
  - Its other methods are the guarded UI actions: creating a post, pressing
    Like, registering, logging in, logging out and updating a profile.

Some of the source's behaviour is kept as written:

- Login sets the session's user id to 1 whichever account matched
  (`App.Blog.Login`).
- `create_post` itself checks only the login. The blank-title check lives in
  the Create button's handler (`App.Blog.SubmitPost`), not in `create_post`.
- `WHERE ... = ?` against a NULL session user id matches no row. Every such
  comparison goes through `Rows.Matches`: `Queries.GetUserPosts`,
  `Queries.GetUserInfo`, `Writes.BioSet` and `Writes.PictureSet`.
- The clock reading `datetime.now()` is passed in as the parameter `now`.

## Model

| member | source | states |
|---|---|---|
| Rows.NextId | sm.py:11-12 | a new INTEGER PRIMARY KEY row gets an id larger than every id present, one more than the largest, or 1 in an empty table |
| Rows.Matches | sm.py:149 | `column = ?` matches when both sides are non-NULL exactly if their values are equal; a NULL parameter or a NULL column matches no row |
| Rows.TablesValid | sm.py:11-20 | in tables that keep the PRIMARY KEY and UNIQUE constraints, two different rows never share a post id, a username or an email |
| Rows.FreshIdKeepsUnique | sm.py:11-12 | appending a row numbered this way keeps the primary key unique |
| Text.TrimStart | sm.py:214-215 | `lstrip()` drops only leading whitespace (Python's `isspace` set), and what is left starts with a non-space |
| Text.TrimEnd | sm.py:214-215 | `rstrip()` drops only trailing whitespace, and what is left ends with a non-space |
| Text.Strip | sm.py:215 | `strip()` never lengthens a string, leaves no whitespace at either end, and returns a string with none there unchanged |
| Text.StripKeepsMiddle | sm.py:215 | `strip()` returns the middle of the string, with only whitespace dropped before and after it |
| Text.IsBlank | sm.py:215 | `not s.strip()` holds exactly when every character of `s` is whitespace (proved by `Text.BlankIffAllSpace`) |
| Text.BlankIffAllSpace | sm.py:214-219 | `s.strip()` is empty exactly when every character of `s` is whitespace |
| Text.TextLeqTotal | sm.py:50 | any two `created_at` texts are comparable under SQLite's BINARY collation |
| Text.TextLeqTransitive | sm.py:50 | the collation order is transitive |
| Queries.InsertKeepsNewestFirst | sm.py:50 | inserting a row into a newest-first list keeps it newest-first |
| Queries.GetAllPosts | sm.py:49-51 | the listing is a permutation of the posts table, newest `created_at` first |
| Queries.NewestListedFirst | sm.py:49-51 | the first row listed is at least as recent as every post in the table |
| Queries.GetUserPosts | sm.py:148-150 | exactly the rows whose `user_id` equals the parameter, each as often as in the table; none for a NULL parameter |
| Queries.GetCommentsForPost | sm.py:131-133 | exactly the comments whose `post_id` is the given one, with their multiplicity; order not promised |
| Queries.Authenticate | sm.py:170-174 | true iff some row has exactly that username and that plaintext password |
| Queries.AuthenticateChecksTheAccount | sm.py:170-174 | with usernames unique, logging in with an existing username succeeds iff the password is that account's password |
| Queries.GetUserInfo | sm.py:293-295 | a row with that id if one exists, None otherwise (always None for a NULL id) |
| Queries.GetUserInfoFindsTheRow | sm.py:293-295 | with ids unique, the row returned is the one row carrying that id |
| Writes.LikeAdded | sm.py:126-128 | every row with that id has its likes raised by one, and no other field or row changes |
| Writes.LikeAddedTotal | sm.py:126-128 | the table's total of likes rises by the number of rows the UPDATE matches |
| Writes.LikeRaisesTotalByOne | sm.py:126-128 | with ids unique, liking an existing post raises the total of likes by exactly one |
| Writes.LikeOfAbsentIdChangesNothing | sm.py:126-128 | liking an id no row has leaves the table unchanged |
| Writes.LikedTimes | sm.py:126-128 | `n` likes of a post raise its counter by exactly `n` and change nothing else |
| Writes.LikeKeepsTableValid | sm.py:126-128 | liking keeps the ids and keeps every counter non-negative |
| Writes.Deleted | sm.py:155 | after `DELETE FROM posts WHERE id=?` no row carries that id and the table has not grown; `Writes.DeletedRows` states exactly which rows stay |
| Writes.DeletedRows | sm.py:154-156 | a delete keeps exactly the rows with a different id, as often as before |
| Writes.DeleteAbsent | sm.py:154-156 | deleting an id that no row has leaves the table unchanged |
| Writes.DeleteTwiceIsDeleteOnce | sm.py:154-156 | deleting the same id a second time is a no-op |
| Writes.DeleteRemovesOneRow | sm.py:154-156 | with ids unique, deleting row k's id removes row k and only row k, keeping the order of the rest |
| Writes.DeleteKeepsTableValid | sm.py:154-156 | a delete keeps the ids unique and the counters non-negative |
| Writes.AppendPostKeepsTableValid | sm.py:40-43 | the inserted post, freshly numbered with 0 likes, keeps the posts table valid |
| Writes.AppendCommentKeepsIdsUnique | sm.py:139-142 | the inserted comment, freshly numbered, keeps the comment ids unique |
| Writes.NewUser | sm.py:161-164 | the inserted row gets the next rowid, above every id present; the given username, email, plaintext password and picture path; role "user", `verified` 0 by the schema default and a NULL bio |
| Writes.RegistrationKeepsAccountsValid | sm.py:160-165 | a registration that passes the UNIQUE checks keeps ids, usernames and emails unique, and the new account can then log in |
| Writes.BioSet | sm.py:300 | `SET bio=? WHERE id=?` keeps the row count, sets the bio of exactly the rows whose id matches, and changes no other field |
| Writes.PictureSet | sm.py:304-307 | `SET profile_picture=? WHERE id=?` keeps the row count, sets the picture of exactly the rows whose id matches, and changes no other field |
| Writes.ProfileUpdated | sm.py:298-308 | the profile update keeps the row count and changes at most the bio and the picture of each row; `Writes.ProfileUpdateChangesOnlyBioAndPicture` says which rows and when |
| Writes.ProfileUpdateChangesOnlyBioAndPicture | sm.py:298-308 | only the rows with that id change: bio only for a non-empty new bio, picture only when a new one is given |
| Writes.ProfileUpdateKeepsTableValid | sm.py:298-308 | a profile update keeps the user ids, usernames and emails unique |
| Writes.ProfileUpdateKeepsLogins | sm.py:298-308 | a profile update leaves every login result unchanged, for any username and password |
| Writes.SavedImagePath | sm.py:284-290 | the saved path ends with the upload's file name and lies under `uploads/` unless the name is absolute |
| Pagination.PageOf | sm.py:59-61 | `posts[start_index:end_index]` holds at most `page_size` posts: the slice from `page*size` to `min((page+1)*size, n)` when the page starts inside the list, nothing otherwise |
| Pagination.TotalPages | sm.py:111 | `(n-1)//size + 1` is never negative, is 0 exactly for an empty list, and never exceeds the number of posts |
| Pagination.TotalPagesIsCeiling | sm.py:111 | `(n-1)//size + 1` is ceil(n/size): the last page starts below n and the pages reach n; 0 pages for no posts |
| Pagination.PageExistsIffStartsInside | sm.py:59-61 | a page number is below the page count iff the page's start index is inside the list |
| Pagination.PageContents | sm.py:59-61 | a page holds at most `size` posts; a page below the count is the non-empty slice `[page*size, min((page+1)*size, n))`; later pages are empty |
| Pagination.IndexOnExactlyOnePage | sm.py:59-61 | every index lies on exactly one page, page `i // size`, and that page is below the page count |
| Pagination.PagesFromAreSuffix | sm.py:59-61 | the pages from a given page on, put together, are the rest of the list |
| Pagination.PagesPartitionPosts | sm.py:59-61 | all the pages put together give back the whole list, in order |
| App.Blog.constructor | sm.py:355-357 | a new session over valid tables: nobody is logged in and nothing has been liked |
| App.Blog.CreatePost | sm.py:35-45 | without a login the posts table is unchanged; with one, exactly one post is appended with a fresh id, the given author, title and content, null category and tags, 0 likes and the given time |
| App.Blog.SubmitPost | sm.py:206-221 | a post is created iff someone is logged in and neither title nor content is blank after stripping; it is owned by the session's user id |
| App.Blog.IncrementLike | sm.py:126-128 | the posts table becomes `LikeAdded` of the old one; the tables stay valid |
| App.Blog.PressLike | sm.py:79-90 | the first press in a session likes the post and sets its flag; a later press changes nothing |
| App.Blog.CreateComment | sm.py:137-144 | exactly one comment is appended, with a fresh id, the given fields and the given time |
| App.Blog.DeletePost | sm.py:154-156 | the posts table becomes `Deleted` of the old one; the tables stay valid |
| App.Blog.RegisterUser | sm.py:160-166 | fails and leaves users unchanged iff the username or the email is taken; otherwise appends one user with role "user", verified 0 and null bio |
| App.Blog.SubmitRegistration | sm.py:333-351 | mismatched passwords stop the registration; otherwise the account is registered with the saved picture's path, or rejected on a duplicate |
| App.Blog.Login | sm.py:319-331 | succeeds iff `authenticate` does; success marks the session logged in with user id 1; failure leaves the session as it was |
| App.Blog.Logout | sm.py:181-184 | afterwards `authenticated` is false and `user_id` is None |
| App.Blog.UpdateUserProfile | sm.py:298-309 | the users table becomes `ProfileUpdated` of the old one, with the saved picture's path; the tables stay valid |

## Left out

- The Streamlit rendering and widgets (headings, columns, expanders, buttons
  as widgets, `st.experimental_rerun`) are not modelled. Neither are the page
  links at sm.py:117-121, which call a private widget-cache API. The model
  starts from the button press each handler reacts to.
- The SQLite connection, the cursor, the commits and the `CREATE TABLE IF NOT
  EXISTS` statements are not modelled, and neither are the startup `print`
  notices. The tables are values handed to the `Blog` constructor.
- `datetime.now()` and its `"%Y-%m-%d %H:%M:%S"` format are not modelled. The
  time is the parameter `now`, and its format is not checked.
- File I/O in `save_uploaded_image` is not modelled: creating `uploads/`,
  writing the bytes, write errors, and one upload overwriting another with the
  same name. Only the returned path is modelled. A picture saved before a
  registration that is then rejected stays on disk in the source. The model
  has no file system, so this is not captured.
- Rows.NextId: SQLite picks a random free rowid once the largest rowid reaches
  2^63-1. That case is not modelled, and ids are unbounded.
- Writes.LikeAdded: SQLite integers are 64-bit and `likes + 1` on the largest
  one becomes a REAL. Here the counter is unbounded.
- Queries.GetAllPosts: SQLite leaves the order of posts with equal
  `created_at` unspecified. The model keeps their table order, and the
  contract promises only a newest-first permutation.
- Queries.GetCommentsForPost and Queries.GetUserPosts promise which rows come
  back, not their order: the source has no ORDER BY.
- `display_posts` is modelled only for a positive page size and a
  non-negative page number. The source always passes page size 5 and page 0.
  A page size of 0 would raise ZeroDivisionError there.
- The "Delete Posts" page (sm.py:231-249) is not modelled as its own action.
  It offers the user's own posts in a select box, and its button calls
  `delete_post`, which is `App.Blog.DeletePost`.
- The "Profile" page display (sm.py:251-270) and the menu navigation of `main`
  are not modelled.
- App.Blog.PressLike: the model treats the "liked" flag as a plain session
  boolean. In the source, the flag's key `like_button_<id>` (sm.py:80) is also
  the Like button's widget key (sm.py:84). So the read at sm.py:81 sees the
  button's own click value, and the widget framework refuses the assignment
  to a widget's key at sm.py:89. Neither widget behaviour is modelled.
- App.Blog.RegisterUser: a taken username or email raises
  `sqlite3.IntegrityError` at sm.py:161. The source never catches it, so the
  error propagates and "Registration successful!" (sm.py:166) is not shown.
  The model returns the failure as a result (`ok == false`, or the `Rejected`
  outcome of `App.Blog.SubmitRegistration`) and leaves the users table
  unchanged. It does not model the propagation of the exception.
- Database errors other than the UNIQUE violation are not modelled: locking,
  disk errors, and reading `user_id` before it was ever set.
