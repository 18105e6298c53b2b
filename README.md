# Blog backend: post interactions, profile update and login validation

This project models the parts of a small Express/Mongoose blog backend and its
React client that hold logic of their own, and proves properties of them in
Dafny. The document store is an in-memory map from id to record, with a
sequence of ids beside it for the collection's natural order (the order in
which queries return documents).

- `Posts` (`posts.dfy`): the post controller. The pure part covers the record
  `createPost` saves, the query filter `{ isDelete: false }` with or without an
  author, the stable newest-first sort of the feed, the like toggle, the reply
  of `likePost`, and how comments accumulate. `PostStore` is a class whose
  methods change the stored posts the way the handlers do: `CreatePost`,
  `LikePost`, `PostComment` and `DeletePost`.
- `Users` (`users.dfy`): the user controller. `Decide` is the profile update's
  decision for a found user: save a merged record, or answer with an error.
  `UserStore.UpdateUser` performs that update step by step, then saves only
  when no other user holds the same username or e-mail address.
  `GetUser` and `GetUsers` are the two reads.
- `Text` (`text.dfy`): JavaScript's `String.prototype.trim` over the exact
  ECMAScript whitespace and line-terminator set.
- `LoginForm` (`login_form.dfy`): the login schema. It lists the messages of
  every rule a value breaks. It also models the username pattern
  `/^[a-z0-9A_Z ]+$/` and the unanchored `/[A-Z]/`-style searches, and counts
  password length in UTF-16 code units.
- `Common` (`common.dfy`): `Option`, the `Reply` sent by a handler (a status
  with a value, a status with an error body, or no response at all), and the
  natural-order view of a map.

Behaviour of the code that the model keeps as written:

- `likePost` answers with the first live post of the liked post's author,
  which need not be the liked post (`Posts.LikeReplyCanBeAnotherPost`).
- The character class `[a-z0-9A_Z ]` lists `A`, `_` and `Z` on their own, so
  "Bob" is not a username (`LoginForm.CapitalisedUsernameRejected`).
- Toggling twice restores the likes only while every stored flag is `true`.
  `PostStore.Valid` keeps that invariant, and `Posts.ToggleTwiceWithFalseFlag`
  shows what a stored `false` would do.
- `updateUser` sends no response at all when the user id is unknown.
- Calling `trim` on a missing field throws, and so does hashing a missing
  confirmation password. The catch reports both as 404 "Email or Username
  Already Exists!".
- `deletePost` answers with the live posts in natural order, not sorted.
- `getUserPosts` does not sort.

Where the documented behaviour and the code differ, the model follows the code:

- The documentation orders an author's posts newest first, but the code does
  not sort them.
- The documentation says the soft delete returns the feed, but the code returns
  the unsorted live list.
- The documentation gives a comment as `{text, authorId}`, but the code stores
  `{coment, author}`.
- The documentation uses different error kinds for a wrong old password and for
  a mismatched confirmation, but the code answers both with 400.
- The documentation removes a like when the user id is present, but the code
  removes it when the stored flag is truthy.

## Model

| member | source | states |
|---|---|---|
| Posts.NewPost | server/controllers/posts.js:12-28 | a new post has the requester as author, `content` equal to `description`, empty likes and comments, is not deleted, and has `image`/`imagePath` exactly when a file was uploaded (the URL from the object store and the file name) |
| Posts.Find | server/controllers/posts.js:58 | the query result holds exactly the documents that are not deleted and, if an author is given, belong to that author, each as often as in the collection |
| Posts.FindAppend | server/controllers/posts.js:55-64 | querying a concatenation gives the two parts' results one after the other, so a query, and `getUserPosts`, which applies no sort, keeps the collection's order |
| Posts.FindFirst | server/controllers/posts.js:86-91 | the first query result is the first document of the collection that matches the filter |
| Posts.InsertAddsOne | server/controllers/posts.js:47 | one insertion step of the sort adds exactly the inserted post |
| Posts.InsertKeepsOrder | server/controllers/posts.js:47 | one insertion step keeps a newest-first sequence newest-first |
| Posts.SortNewestFirst | server/controllers/posts.js:47 | the sort is a permutation of its input and `createdAt` never increases between adjacent posts |
| Posts.InsertKeepsTies | server/controllers/posts.js:47 | an insertion step keeps the relative order of the posts created at any one time |
| Posts.SortKeepsTies | server/controllers/posts.js:47 | the sort is stable: for every creation time, the posts created then keep their order |
| Posts.Feed | server/controllers/posts.js:44-52 | the feed is a permutation of exactly the non-deleted posts, newest first |
| Posts.FeedKeepsTies | server/controllers/posts.js:46-47 | posts created at the same time appear in the feed in the collection's order |
| Posts.UserPosts | server/controllers/posts.js:55-64 | an author's list holds exactly that author's non-deleted posts, each as often as in the collection; it is the query's result as it stands, whose order `Posts.FindAppend` states |
| Posts.DeletedNeverListed | server/controllers/posts.js:46-58 | a soft-deleted post is in neither the feed nor any author's list |
| Posts.Toggle | server/controllers/posts.js:72-79 | a truthy entry for the user is removed, otherwise the user maps to `true`; every other key and value is unchanged |
| Posts.ToggleKeepsAllTrue | server/controllers/posts.js:72-79 | the toggle keeps every like flag `true` |
| Posts.ToggleTwice | server/controllers/posts.js:72-79 | when every flag is `true`, toggling twice for the same user restores the likes map |
| Posts.ToggleTwiceWithFalseFlag | server/controllers/posts.js:72-79 | a stored `false` flag is turned into `true` and then removed, so two toggles do not restore it |
| Posts.ToggleCount | server/controllers/posts.js:72-79 | when every flag is `true`, a toggle changes the like count by exactly one, down if the user liked the post and up otherwise |
| Posts.LikeReply | server/controllers/posts.js:86-91 | the like reply is a live post by the liked post's author, and no live post of that author comes before it in the collection's natural order (`populatedPost[0]`); it is missing exactly when that author has no live post |
| Posts.LikeReplyCanBeAnotherPost | server/controllers/posts.js:86-91 | with two live posts by one author, liking the second answers with the first |
| Posts.AfterComments | server/controllers/posts.js:103 | each `unshift` call adds one comment, and after any non-empty run of calls the first comment is the latest call's |
| Posts.AfterCommentsReverses | server/controllers/posts.js:103 | comments prepended one call at a time end up in reverse call order in front of the old ones |
| Posts.LatestCommentFirst | server/controllers/posts.js:103 | after N comments, entry 0 is the latest call's, entry N-1 the earliest call's, and the old comments follow unchanged |
| Posts.PostStore.CreatePost | server/controllers/posts.js:10-39 | a failed upload answers 404 and saves nothing; otherwise the new post is stored under a fresh id, appended to the natural order, and returned with 201 |
| Posts.PostStore.LikePost | server/controllers/posts.js:67-95 | a missing post answers 404 and changes nothing; otherwise only that post's likes change, by the toggle, the all-`true` invariant holds, and the reply is the first live post of its author |
| Posts.PostStore.PostComment | server/controllers/posts.js:98-113 | a missing post answers 404; otherwise only that post changes, `{coment, author}` is put in front, the old comments follow shifted by one, and the reply is the post unless it is deleted |
| Posts.PostStore.DeletePost | server/controllers/posts.js:115-124 | only the target's `isDelete` flag is set (nothing at all changes for an unknown id), and the reply is the unsorted live list, which excludes the target |
| Text.Trim | server/controllers/users.js:43-46 | the trimmed string is no longer than the input and, when non-empty, does not end with whitespace |
| Text.TrimStart | server/controllers/users.js:43-46 | the result is a suffix of the input that does not start with whitespace, and everything removed is whitespace |
| Text.TrimEnd | server/controllers/users.js:43-46 | the result is a prefix of the input that does not end with whitespace, and everything removed is whitespace |
| Text.TrimIsInfix | server/controllers/users.js:43-46 | the trimmed string is the infix after the leading whitespace, and everything cut from either end is whitespace |
| Text.TrimEndsNonBlank | server/controllers/users.js:43-46 | a non-empty trimmed string starts and ends with a non-whitespace character |
| Text.TrimEmptyIffBlank | server/controllers/users.js:43-46 | trimming gives the empty string exactly when the input is all whitespace |
| Text.TrimIdempotent | server/controllers/users.js:43-46 | trimming twice equals trimming once |
| Users.MergeField | server/controllers/users.js:43-46 | the merged value is either the trimmed input or the stored value, and a non-empty stored value is never replaced by an empty one |
| Users.MergeFieldMeaning | server/controllers/users.js:43-46 | a blank input keeps the stored value; any other input is replaced by its non-empty trimmed form |
| Users.Decide | server/controllers/users.js:41-67 | an error decision carries status 400 or 404; a save needs all four text fields and keeps the picture path; the stored password changes only after a truthy old password matched the stored hash |
| Users.SavedFieldsMerged | server/controllers/users.js:43-46 | a saved record has each of username, name, bio and email set to the trimmed input when that is non-empty and to the stored value otherwise, and keeps the picture path |
| Users.BlankFormKeepsUser | server/controllers/users.js:43-47 | blank text fields and no old password save the record unchanged |
| Users.ProfileEditIdempotent | server/controllers/users.js:43-46 | applying the same edit without a password change a second time changes nothing more |
| Users.PasswordKeptWithoutOldPassword | server/controllers/users.js:47 | without a truthy old password the record is saved and the stored hash is kept |
| Users.WrongOldPasswordRejected | server/controllers/users.js:47-50 | an old password that does not match the stored hash is answered 400 "Invalid Old Password. " and nothing is saved |
| Users.PasswordChanged | server/controllers/users.js:52-55 | a matching old password and equal new and confirmed passwords store the confirmed password's hash, which that password then matches |
| Users.MismatchedConfirmationRejected | server/controllers/users.js:56-60 | a matching old password with a differing confirmation is answered 400 and nothing is saved |
| Users.SaveKeepsUnique | server/controllers/users.js:63-67 | saving a record that conflicts with no other user keeps usernames and e-mails unique |
| Users.UserStore.GetUser | server/controllers/users.js:5-16 | the reply is 200 with the user, or 200 with nothing exactly when the id is unknown |
| Users.UserStore.GetUsers | server/controllers/users.js:19-26 | the reply is 200 with every stored user and nothing else, one entry per id |
| Users.UserStore.UpdateUser | server/controllers/users.js:28-69 | an unknown id gets no response and nothing changes; an error decision answers with its status and message and saves nothing; a save that would duplicate a username or e-mail answers 404 "Email or Username Already Exists!" and saves nothing; otherwise the decided record is stored, returned with 200, and uniqueness is kept |
| LoginForm.Utf16Length | client/src/scenes/loginPage/Form.jsx:37-38 | the JavaScript length lies between the number of characters and twice that, and equals it when every character is in the Basic Multilingual Plane |
| LoginForm.MatchesUsernamePattern | client/src/scenes/loginPage/Form.jsx:29 | a match is non-empty and starts with a class character, and a single character matches exactly when it is in the class |
| LoginForm.Search | client/src/scenes/loginPage/Form.jsx:39-41 | an unanchored search fails on the empty string and succeeds when the first character is in the class |
| LoginForm.IdentifierErrors | client/src/scenes/loginPage/Form.jsx:22-33 | "Email or username is required" is reported exactly for the empty value, "Please enter a valid email or username" exactly when the value is neither an e-mail nor a username, and an empty non-e-mail value gets both in declaration order |
| LoginForm.PasswordErrors | client/src/scenes/loginPage/Form.jsx:34-41 | "required" is reported exactly for the empty password, the length messages exactly when the UTF-16 length is below 6 or above 20 (never both), and at most five messages appear |
| LoginForm.LoginAccepted | client/src/scenes/loginPage/Form.jsx:21-42 | an accepted form has a non-empty identifier and a password of 3 to 20 characters (a character outside the Basic Multilingual Plane counts twice towards the limit of 6 to 20) |
| LoginForm.UsernamePatternMeaning | client/src/scenes/loginPage/Form.jsx:29 | the pattern matches exactly the non-empty strings whose characters are all in a–z, 0–9, `A`, `_`, `Z` or space |
| LoginForm.SearchMeaning | client/src/scenes/loginPage/Form.jsx:39-41 | an unanchored one-class pattern matches exactly when some character is in the class |
| LoginForm.PasswordAcceptedIff | client/src/scenes/loginPage/Form.jsx:34-41 | a password is accepted exactly when it is 6 to 20 code units long and holds an upper-case letter, a lower-case letter and a digit |
| LoginForm.EmptyPasswordRequired | client/src/scenes/loginPage/Form.jsx:36-37 | an empty password breaks "required" first, and the minimum length too |
| LoginForm.IdentifierAcceptedIff | client/src/scenes/loginPage/Form.jsx:22-33 | the identifier is accepted exactly when it is non-empty and is an e-mail or a string of `[a-z0-9A_Z ]` characters |
| LoginForm.CapitalisedUsernameRejected | client/src/scenes/loginPage/Form.jsx:29 | "Bob" does not match the username pattern while "bob" and "A_Z" do, so "Bob" is rejected unless it is an e-mail |

## Left out

- Database access through Mongoose (`findById`, `save`, `findByIdAndUpdate`, `find`) is replaced by the in-memory maps. The natural order of a collection is taken to be insertion order.
- Joining each post to its author's profile (`fetchFindData`, `fetchFindByIdData`) is not part of this model. Replies carry the stored post, and these helpers are modelled only by their filters.
- The image upload to the object store is the parameter `upload`. It returns the secure URL, or nothing when the upload throws. How the upload works is not modelled.
- Password hashing is the parameter `hash`. A password matches a stored hash when hashing it gives that hash. Salting (`genSalt`) is not modelled, and neither is a stored record without a password, where the comparison itself would throw.
- The e-mail check of the schema library is the parameter `isEmail`.
- LoginForm.IdentifierErrors: the model lists every broken rule's message. Which single message the form shows depends on the form library and is not modelled.
- Post and user ids, and creation times, are supplied by the store. `CreatePost` takes a fresh id and the current time as parameters.
- Ids that are not valid database ids make the real handlers throw (404). The model's ids are plain strings and cannot be malformed.
- The read-modify-write race between two concurrent `likePost` requests is not modelled. Requests run one after another.
- HTTP plumbing is reduced to a status and a value or an error body. The text of runtime exception messages is not modelled (`Thrown`).
- The Mongoose schemas are not part of this model. Their defaults (an empty comment list and a cleared delete flag on a new post) are taken as given, and so is the uniqueness of usernames and e-mails, which the user schema is documented to enforce.
- Missing request fields in the post handlers are not modelled: `CreatePost`, `LikePost` and `PostComment` take `description`, `userId` and `comment` as strings. A body without `userId` makes `likePost` toggle the entry for `undefined`, and a body without `comment` or `userId` makes `postComment` store `{coment: undefined, author: undefined}`; neither is captured. (`updateUser`'s missing fields are modelled, as `Option`.)
- Strings are sequences of Unicode scalar values, so a JavaScript string holding a lone surrogate cannot be represented; `.length`, `.trim()` and the regular-expression tests are modelled only on well-formed strings.
- The React UI (rendering, the submit handler, the profile page), the client entry point, the route table and the authentication controllers are outside this model.
