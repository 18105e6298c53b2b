/** The post controller: creating posts, reading the feed and an author's
    posts, toggling likes, prepending comments and soft-deleting. The
    document store is an in-memory map from post id to post record, with the
    collection's natural order kept beside it. */
module Posts {
  import opened Common

  type UserId = string
  type PostId = string

  /** One entry of a post's comments; the field name `coment` is the stored one. */
  datatype Comment = Comment(coment: string, author: UserId)

  /** A stored post document. `likes` maps a user id to a flag whose
      truthiness says that the user likes the post. */
  datatype Post = Post(
    id: PostId,
    content: string,
    explanation: Option<string>,
    author: UserId,
    image: Option<string>,
    imagePath: Option<string>,
    likes: map<UserId, bool>,
    comments: seq<Comment>,
    isDelete: bool,
    createdAt: int)

  /** An uploaded file: where it was written locally and its stored file name. */
  datatype Upload = Upload(path: string, filename: string)

  /** The image of a new post: the URL the object store returned and the file name. */
  datatype HostedImage = HostedImage(url: string, filename: string)

  // ---------------------------------------------------------------------------
  // Creation

  /** The record `createPost` saves: content from `description`, the
      requester as author, no likes, and the image fields only when a file
      was uploaded. The store adds the id, the creation time, an empty
      comment list and a cleared delete flag. */
  function NewPost(id: PostId, author: UserId, description: string, explanation: Option<string>,
                   image: Option<HostedImage>, createdAt: int): (p: Post)
    ensures p.id == id && p.author == author && p.createdAt == createdAt
    ensures p.content == description && p.explanation == explanation
    ensures p.likes == map[] && p.comments == [] && !p.isDelete
    ensures p.image.Some? <==> image.Some?
    ensures p.imagePath.Some? <==> image.Some?
    ensures image.Some? ==> p.image.value == image.value.url && p.imagePath.value == image.value.filename
  {
    Post(id, description, explanation, author,
         if image.Some? then Some(image.value.url) else None,
         if image.Some? then Some(image.value.filename) else None,
         map[], [], false, createdAt)
  }

  // ---------------------------------------------------------------------------
  // Reads

  /** The filter of a `fetchFindData` query: `isDelete: false`, and, when
      given, a fixed author. */
  datatype Query = Query(author: Option<UserId>)

  predicate Matches(p: Post, q: Query)
  {
    !p.isDelete && (q.author.Some? ==> p.author == q.author.value)
  }

  /** The documents matching `q`, in the collection's natural order. */
  function Find(docs: seq<Post>, q: Query): (r: seq<Post>)
    ensures forall p :: p in r <==> p in docs && Matches(p, q)
    ensures forall p :: multiset(r)[p] == if Matches(p, q) then multiset(docs)[p] else 0
  {
    if docs == [] then []
    else
      assert docs == [docs[0]] + docs[1..];
      (if Matches(docs[0], q) then [docs[0]] else []) + Find(docs[1..], q)
  }

  /** Querying a concatenation gives the two queries' results one after the
      other: the result keeps the collection's order. */
  lemma {:induction false} FindAppend(a: seq<Post>, b: seq<Post>, q: Query)
    ensures Find(a + b, q) == Find(a, q) + Find(b, q)
  {
    if a == [] {
      assert a + b == b;
    } else {
      assert (a + b)[1..] == a[1..] + b;
      FindAppend(a[1..], b, q);
    }
  }

  /** `docs[i]` is the first document of the collection that matches `q`. */
  predicate FirstMatchAt(docs: seq<Post>, q: Query, i: int)
  {
    0 <= i < |docs| && Matches(docs[i], q) && forall j :: 0 <= j < i ==> !Matches(docs[j], q)
  }

  /** A first match in the tail after a non-matching head is the first match one place later. */
  lemma FirstMatchShift(docs: seq<Post>, q: Query, i: int)
    requires docs != [] && !Matches(docs[0], q) && FirstMatchAt(docs[1..], q, i)
    ensures FirstMatchAt(docs, q, i + 1) && docs[i + 1] == docs[1..][i]
  {
    assert forall j :: 1 <= j <= i ==> docs[j] == docs[1..][j - 1];
  }

  /** The first result is the first matching document of the collection. */
  lemma {:induction false} FindFirst(docs: seq<Post>, q: Query)
    requires Find(docs, q) != []
    ensures exists i :: FirstMatchAt(docs, q, i) && docs[i] == Find(docs, q)[0]
  {
    if Matches(docs[0], q) {
      assert FirstMatchAt(docs, q, 0);
    } else {
      var tail := docs[1..];
      assert Find(docs, q) == [] + Find(tail, q);
      FindFirst(tail, q);
      var i :| FirstMatchAt(tail, q, i) && tail[i] == Find(tail, q)[0];
      FirstMatchShift(docs, q, i);
    }
  }

  /** Adjacent posts never go from older to newer. */
  predicate NewestFirst(s: seq<Post>)
  {
    forall i :: 0 <= i < |s| - 1 ==> s[i].createdAt >= s[i + 1].createdAt
  }

  /** The posts of `s` created at time `t`, in their order in `s`. */
  function CreatedAt(s: seq<Post>, t: int): seq<Post>
  {
    if s == [] then [] else (if s[0].createdAt == t then [s[0]] else []) + CreatedAt(s[1..], t)
  }

  /** One step of a stable sort by `createdAt` descending: `p` goes in front
      of the first post that is not newer than it. */
  function InsertNewestFirst(p: Post, s: seq<Post>): seq<Post>
  {
    if s == [] || p.createdAt >= s[0].createdAt then [p] + s
    else [s[0]] + InsertNewestFirst(p, s[1..])
  }

  /** Inserting adds exactly the one post. */
  lemma {:induction false} InsertAddsOne(p: Post, s: seq<Post>)
    ensures multiset(InsertNewestFirst(p, s)) == multiset(s) + multiset{p}
  {
    if s != [] && p.createdAt < s[0].createdAt {
      InsertAddsOne(p, s[1..]);
      assert s == [s[0]] + s[1..];
    }
  }

  /** Inserting into a newest-first sequence keeps it newest-first. */
  lemma {:induction false} InsertKeepsOrder(p: Post, s: seq<Post>)
    requires NewestFirst(s)
    ensures NewestFirst(InsertNewestFirst(p, s))
    ensures InsertNewestFirst(p, s)[0] == p || InsertNewestFirst(p, s)[0] == s[0]
  {
    if s != [] && p.createdAt < s[0].createdAt {
      InsertKeepsOrder(p, s[1..]);
      var rest := InsertNewestFirst(p, s[1..]);
      assert rest[0].createdAt <= s[0].createdAt;
      assert InsertNewestFirst(p, s) == [s[0]] + rest;
    }
  }

  /** `posts.sort((a, b) => b.createdAt - a.createdAt)`: the array sort is
      stable, so posts created at the same time keep their relative order. */
  function SortNewestFirst(s: seq<Post>): (r: seq<Post>)
    ensures multiset(r) == multiset(s)
    ensures NewestFirst(r)
  {
    if s == [] then []
    else
      var rest := SortNewestFirst(s[1..]);
      InsertAddsOne(s[0], rest);
      InsertKeepsOrder(s[0], rest);
      assert s == [s[0]] + s[1..];
      InsertNewestFirst(s[0], rest)
  }

  /** `getFeedPosts`: every live post, newest first. */
  function Feed(docs: seq<Post>): (r: seq<Post>)
    ensures forall p :: p in r <==> p in docs && !p.isDelete
    ensures forall p :: multiset(r)[p] == if p.isDelete then 0 else multiset(docs)[p]
    ensures NewestFirst(r)
  {
    var live := Find(docs, Query(None));
    var r := SortNewestFirst(live);
    assert forall p :: p in r <==> p in live by {
      forall p ensures p in r <==> p in live {
        assert p in r <==> multiset(r)[p] > 0;
        assert p in live <==> multiset(live)[p] > 0;
      }
    }
    r
  }

  /** `getUserPosts`: the live posts of one author, in natural order (no sort). */
  function UserPosts(docs: seq<Post>, userId: UserId): (r: seq<Post>)
    ensures forall p :: p in r <==> p in docs && p.author == userId && !p.isDelete
    ensures forall p :: multiset(r)[p] == if p.author == userId && !p.isDelete then multiset(docs)[p] else 0
  {
    Find(docs, Query(Some(userId)))
  }

  /** A soft-deleted post is listed neither in the feed nor under any author. */
  lemma DeletedNeverListed(docs: seq<Post>, p: Post, userId: UserId)
    requires p.isDelete
    ensures p !in Feed(docs) && p !in UserPosts(docs, userId)
  {
  }

  lemma CreatedAtCons(x: Post, s: seq<Post>, t: int)
    ensures CreatedAt([x] + s, t) == (if x.createdAt == t then [x] else []) + CreatedAt(s, t)
  {
    assert ([x] + s)[1..] == s;
  }

  /** Inserting one post does not reorder the posts created at any one time. */
  lemma {:induction false} InsertKeepsTies(p: Post, s: seq<Post>, t: int)
    ensures CreatedAt(InsertNewestFirst(p, s), t) == (if p.createdAt == t then [p] else []) + CreatedAt(s, t)
  {
    if s == [] || p.createdAt >= s[0].createdAt {
      CreatedAtCons(p, s, t);
    } else {
      var head, tail := s[0], s[1..];
      var rest := InsertNewestFirst(p, tail);
      assert InsertNewestFirst(p, s) == [head] + rest;
      assert s == [head] + tail;
      InsertKeepsTies(p, tail, t);
      CreatedAtCons(head, rest, t);
      CreatedAtCons(head, tail, t);
      var h: seq<Post> := if head.createdAt == t then [head] else [];
      var q: seq<Post> := if p.createdAt == t then [p] else [];
      var c := CreatedAt(tail, t);
      assert CreatedAt(InsertNewestFirst(p, s), t) == h + (q + c);
      assert CreatedAt(s, t) == h + c;
      if p.createdAt == t {
        assert h == [];
        assert h + (q + c) == q + c == q + (h + c);
      } else {
        assert q == [];
        assert h + (q + c) == h + c == q + (h + c);
      }
    }
  }

  /** The sort is stable. */
  lemma {:induction false} SortKeepsTies(s: seq<Post>, t: int)
    ensures CreatedAt(SortNewestFirst(s), t) == CreatedAt(s, t)
  {
    if s != [] {
      SortKeepsTies(s[1..], t);
      InsertKeepsTies(s[0], SortNewestFirst(s[1..]), t);
    }
  }

  /** Posts created at the same time appear in the feed in the order the
      collection returned them. */
  lemma FeedKeepsTies(docs: seq<Post>, t: int)
    ensures CreatedAt(Feed(docs), t) == CreatedAt(Find(docs, Query(None)), t)
  {
    SortKeepsTies(Find(docs, Query(None)), t);
  }

  // ---------------------------------------------------------------------------
  // Likes

  /** `post.likes.get(userId)` is truthy: the key is present and maps to true. */
  predicate Liked(likes: map<UserId, bool>, userId: UserId)
  {
    userId in likes && likes[userId]
  }

  /** Every stored like flag is true: nothing but `true` is ever written. */
  predicate AllTrue(likes: map<UserId, bool>)
  {
    forall u :: u in likes ==> likes[u]
  }

  /** The like toggle: a truthy entry is deleted, anything else becomes `true`. */
  function Toggle(likes: map<UserId, bool>, userId: UserId): (r: map<UserId, bool>)
    ensures Liked(likes, userId) ==> userId !in r
    ensures !Liked(likes, userId) ==> userId in r && r[userId]
    ensures forall u :: u != userId ==> (u in r <==> u in likes)
    ensures forall u :: u != userId && u in likes ==> r[u] == likes[u]
  {
    if Liked(likes, userId) then likes - {userId} else likes[userId := true]
  }

  /** The toggle keeps every flag true. */
  lemma ToggleKeepsAllTrue(likes: map<UserId, bool>, userId: UserId)
    requires AllTrue(likes)
    ensures AllTrue(Toggle(likes, userId))
  {
  }

  /** With every flag true, toggling twice for the same user restores the map. */
  lemma ToggleTwice(likes: map<UserId, bool>, userId: UserId)
    requires AllTrue(likes)
    ensures Toggle(Toggle(likes, userId), userId) == likes
  {
    var once := Toggle(likes, userId);
    var twice := Toggle(once, userId);
    assert twice.Keys == likes.Keys;
  }

  /** A stored `false` flag breaks the involution: it is turned into `true`
      and then removed, so the map does not come back. */
  lemma ToggleTwiceWithFalseFlag()
    ensures Toggle(Toggle(map["u1" := false], "u1"), "u1") == map[]
  {
    assert Toggle(map["u1" := false], "u1") == map["u1" := true];
  }

  /** With every flag true, a toggle changes the like count by exactly one. */
  lemma ToggleCount(likes: map<UserId, bool>, userId: UserId)
    requires AllTrue(likes)
    ensures userId in likes ==> |Toggle(likes, userId)| == |likes| - 1
    ensures userId !in likes ==> |Toggle(likes, userId)| == |likes| + 1
  {
    var r := Toggle(likes, userId);
    if userId in likes {
      assert r.Keys == likes.Keys - {userId};
    } else {
      assert r.Keys == likes.Keys + {userId};
    }
  }

  /** The post `likePost` answers with: the first live post of the liked
      post's author, in natural order, or nothing when there is none. */
  function LikeReply(docs: seq<Post>, author: UserId): (r: Option<Post>)
    ensures r.Some? ==> r.value in docs && r.value.author == author && !r.value.isDelete
    ensures r.None? <==> UserPosts(docs, author) == []
    ensures r.Some? ==>
      exists i :: 0 <= i < |docs| && docs[i] == r.value && forall j :: 0 <= j < i ==> docs[j].author != author || docs[j].isDelete
  {
    var mine := UserPosts(docs, author);
    if mine == [] then None
    else
      FindFirst(docs, Query(Some(author)));
      Some(mine[0])
  }

  /** The reply to a like need not be the liked post: with two live posts by
      the same author, liking the second answers with the first. */
  lemma LikeReplyCanBeAnotherPost()
    ensures
      var first := Post("p1", "a", None, "alice", None, None, map[], [], false, 1);
      var second := Post("p2", "b", None, "alice", None, None, map["u1" := true], [], false, 2);
      LikeReply([first, second], "alice") == Some(first) && first != second
  {
    var first := Post("p1", "a", None, "alice", None, None, map[], [], false, 1);
    var second := Post("p2", "b", None, "alice", None, None, map["u1" := true], [], false, 2);
    assert Find([first, second], Query(Some("alice")))[0] == first;
  }

  // ---------------------------------------------------------------------------
  // Comments

  /** The comments after `incoming` were prepended one by one, oldest call first. */
  function AfterComments(comments: seq<Comment>, incoming: seq<Comment>): (r: seq<Comment>)
    ensures |r| == |comments| + |incoming|
    ensures incoming != [] ==> r[0] == incoming[|incoming| - 1]
    decreases |incoming|
  {
    if incoming == [] then comments
    else AfterComments([incoming[0]] + comments, incoming[1..])
  }

  function Reversed(s: seq<Comment>): (r: seq<Comment>)
    ensures |r| == |s|
  {
    if s == [] then [] else Reversed(s[1..]) + [s[0]]
  }

  /** Prepending N comments puts them in front of the old ones, newest first. */
  lemma {:induction false} AfterCommentsReverses(comments: seq<Comment>, incoming: seq<Comment>)
    ensures AfterComments(comments, incoming) == Reversed(incoming) + comments
    decreases |incoming|
  {
    if incoming != [] {
      AfterCommentsReverses([incoming[0]] + comments, incoming[1..]);
      assert Reversed(incoming) == Reversed(incoming[1..]) + [incoming[0]];
    }
  }

  lemma {:induction false} ReversedAt(s: seq<Comment>, k: nat)
    requires k < |s|
    ensures Reversed(s)[k] == s[|s| - 1 - k]
  {
    if k < |s| - 1 {
      ReversedAt(s[1..], k);
    }
  }

  /** After N comments, the first entry is the latest call's and entry N-1 the
      earliest call's; older comments follow unchanged. */
  lemma LatestCommentFirst(comments: seq<Comment>, incoming: seq<Comment>)
    requires incoming != []
    ensures var r := AfterComments(comments, incoming);
      && |r| == |incoming| + |comments|
      && r[0] == incoming[|incoming| - 1]
      && r[|incoming| - 1] == incoming[0]
      && r[|incoming|..] == comments
  {
    AfterCommentsReverses(comments, incoming);
    ReversedAt(incoming, 0);
    ReversedAt(incoming, |incoming| - 1);
  }

  // ---------------------------------------------------------------------------
  // The store

  class PostStore {
    var posts: map<PostId, Post>
    /** The collection's natural order, in which queries return documents. */
    var order: seq<PostId>

    ghost predicate Valid()
      reads this
    {
      && (forall i :: 0 <= i < |order| ==> order[i] in posts)
      && (forall id :: id in posts ==> id in order)
      && (forall i, j :: 0 <= i < j < |order| ==> order[i] != order[j])
      && (forall id :: id in posts ==> posts[id].id == id)
      && (forall id :: id in posts ==> AllTrue(posts[id].likes))
    }

    /** The stored posts in natural order. */
    function Docs(): (r: seq<Post>)
      reads this
      requires Valid()
      ensures |r| == |order|
      ensures forall i :: 0 <= i < |order| ==> r[i] == posts[order[i]]
    {
      Collect(order, posts)
    }

    constructor ()
      ensures Valid() && posts == map[] && order == []
    {
      posts := map[];
      order := [];
    }

    /** `createPost`: upload the file if there is one, then save the new
        post under a fresh id and answer 201 with it. A failed upload throws
        before anything is saved. */
    method CreatePost(author: UserId, description: string, explanation: Option<string>,
                      file: Option<Upload>, upload: string -> Option<string>,
                      id: PostId, now: int) returns (reply: Reply<Post>)
      requires Valid() && id !in posts
      modifies this
      ensures Valid()
      ensures file.Some? && upload(file.value.path).None? ==>
        reply == Err(404, Thrown) && posts == old(posts) && order == old(order)
      ensures !(file.Some? && upload(file.value.path).None?) ==>
        var image := if file.Some? then Some(HostedImage(upload(file.value.path).value, file.value.filename)) else None;
        var p := NewPost(id, author, description, explanation, image, now);
        && posts == old(posts)[id := p]
        && order == old(order) + [id]
        && reply == Ok(201, p)
    {
      var image: Option<HostedImage> := None;
      if file.Some? {
        var url := upload(file.value.path);
        if url.None? {
          return Err(404, Thrown);
        }
        image := Some(HostedImage(url.value, file.value.filename));
      }
      var p := NewPost(id, author, description, explanation, image, now);
      posts := posts[id := p];
      order := order + [id];
      reply := Ok(201, p);
    }

    /** `likePost`: toggle the user's like on the post, then answer with the
        first live post of the same author. A missing post throws. */
    method LikePost(id: PostId, userId: UserId) returns (reply: Reply<Option<Post>>)
      requires Valid()
      modifies this
      ensures Valid() && order == old(order)
      ensures id !in old(posts) ==> reply == Err(404, Thrown) && posts == old(posts)
      ensures id in old(posts) ==>
        var p := old(posts)[id];
        && posts == old(posts)[id := p.(likes := Toggle(p.likes, userId))]
        && reply == Ok(200, LikeReply(Docs(), p.author))
    {
      if id !in posts {
        return Err(404, Thrown);
      }
      var post := posts[id];
      ToggleKeepsAllTrue(post.likes, userId);
      post := post.(likes := Toggle(post.likes, userId));
      posts := posts[id := post];
      reply := Ok(200, LikeReply(Docs(), post.author));
    }

    /** `postComment`: put the comment at the front of the post's comments
        and answer with the post while it is live. A missing post throws. */
    method PostComment(id: PostId, comment: string, userId: UserId) returns (reply: Reply<Option<Post>>)
      requires Valid()
      modifies this
      ensures Valid() && order == old(order)
      ensures id !in old(posts) ==> reply == Err(404, Thrown) && posts == old(posts)
      ensures id in old(posts) ==>
        var p := old(posts)[id];
        var q := p.(comments := [Comment(comment, userId)] + p.comments);
        && posts == old(posts)[id := q]
        && |q.comments| == |p.comments| + 1
        && q.comments[1..] == p.comments
        && reply == Ok(200, if q.isDelete then None else Some(q))
    {
      if id !in posts {
        return Err(404, Thrown);
      }
      var post := posts[id];
      post := post.(comments := [Comment(comment, userId)] + post.comments);
      posts := posts[id := post];
      reply := Ok(200, if post.isDelete then None else Some(post));
    }

    /** `deletePost`: set the delete flag of the post, if there is one, and
        answer with the live posts in natural order (not sorted). */
    method DeletePost(id: PostId) returns (reply: Reply<seq<Post>>)
      requires Valid()
      modifies this
      ensures Valid() && order == old(order)
      ensures id in old(posts) ==> posts == old(posts)[id := old(posts)[id].(isDelete := true)]
      ensures id !in old(posts) ==> posts == old(posts)
      ensures reply == Ok(200, Find(Docs(), Query(None)))
      ensures forall p :: p in reply.value ==> p.id != id
    {
      if id in posts {
        posts := posts[id := posts[id].(isDelete := true)];
      }
      var live := Find(Docs(), Query(None));
      forall p | p in live ensures p.id != id {
        var i :| 0 <= i < |Docs()| && Docs()[i] == p;
        assert p == posts[order[i]];
      }
      reply := Ok(200, live);
    }
  }
}
