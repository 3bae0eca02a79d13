/** `find_tweets_for_paper` of `social.py`: the search query built from a
    paper title, and the post-processing of the recent-search response
    (author lookup, like filter, defaults, ordering). The HTTP request is a
    function from the query to the response. */
module Social {
  import opened Common
  import opened Records
  import opened StableSort

  // ---------------------------------------------------------------------
  // Title sanitisation and the query
  // ---------------------------------------------------------------------

  /** `s` without any occurrence of `c`. */
  function Without(s: string, c: char): string
  {
    if s == [] then [] else (if s[0] == c then [] else [s[0]]) + Without(s[1..], c)
  }

  /** `title.replace('"', '').replace("'", "")`. */
  function CleanTitle(title: string): string
  {
    ReplaceAll(ReplaceAll(title, "\"", ""), "'", "")
  }

  const QuerySuffix := "\" -is:retweet lang:en"

  /** `f'"{clean_title}" -is:retweet lang:en'`. */
  function Query(title: string): string
  {
    "\"" + CleanTitle(title) + QuerySuffix
  }

  /** Replacing a character by nothing deletes every occurrence of it and
      keeps every other character in order. */
  lemma {:induction false} ReplaceCharByNothing(s: string, c: char)
    ensures ReplaceAll(s, [c], "") == Without(s, c)
    decreases |s|
  {
    match IndexOf(s, [c])
    case None =>
      NoCharAnywhere(s, c);
      WithoutAbsent(s, c);
    case Some(i) =>
      ReplaceStep(s, c, i);
      ReplaceCharByNothing(s[i + 1..], c);
      NoCharBefore(s, c, i);
      WithoutAround(s, c, i);
  }

  lemma NoCharAnywhere(s: string, c: char)
    requires IndexOf(s, [c]).None?
    ensures forall k :: 0 <= k < |s| ==> s[k] != c
  {
    forall k | 0 <= k < |s| ensures s[k] != c {
      OccursAtSingle(s, c, k);
    }
  }

  lemma ReplaceStep(s: string, c: char, i: nat)
    requires IndexOf(s, [c]) == Some(i)
    ensures i < |s| && s[i] == c
    ensures ReplaceAll(s, [c], "") == s[..i] + ReplaceAll(s[i + 1..], [c], "")
  {
    OccursAtSingle(s, c, i);
    ReplaceFirst(s, [c], "", i);
    assert s[..i] + "" == s[..i];
  }

  lemma NoCharBefore(s: string, c: char, i: nat)
    requires IndexOf(s, [c]) == Some(i)
    ensures Without(s[..i], c) == s[..i]
  {
    forall k | 0 <= k < i ensures s[..i][k] != c {
      OccursAtSingle(s, c, k);
    }
    WithoutAbsent(s[..i], c);
  }

  lemma WithoutAround(s: string, c: char, i: nat)
    requires i < |s| && s[i] == c
    ensures Without(s, c) == Without(s[..i], c) + Without(s[i + 1..], c)
  {
    assert s == s[..i] + ([c] + s[i + 1..]);
    WithoutAppend(s[..i], [c] + s[i + 1..], c);
    assert ([c] + s[i + 1..])[1..] == s[i + 1..];
  }

  lemma {:induction false} WithoutAbsent(s: string, c: char)
    requires forall k :: 0 <= k < |s| ==> s[k] != c
    ensures Without(s, c) == s
  {
    if s != [] {
      WithoutAbsent(s[1..], c);
    }
  }

  lemma {:induction false} WithoutAppend(a: string, b: string, c: char)
    ensures Without(a + b, c) == Without(a, c) + Without(b, c)
  {
    if a == [] {
      assert a + b == b;
    } else {
      assert (a + b)[0] == a[0] && (a + b)[1..] == a[1..] + b;
      WithoutAppend(a[1..], b, c);
    }
  }

  lemma {:induction false} WithoutRemoves(s: string, c: char)
    ensures c !in Without(s, c)
    ensures forall d :: d != c && d in s ==> d in Without(s, c)
  {
    if s != [] {
      WithoutRemoves(s[1..], c);
      assert forall d :: d in s ==> d == s[0] || d in s[1..];
    }
  }

  /** The cleaned title is the title with both quote characters deleted and
      nothing else changed. */
  lemma CleanTitleRemovesQuotes(title: string)
    ensures CleanTitle(title) == Without(Without(title, '"'), '\'')
    ensures '"' !in CleanTitle(title) && '\'' !in CleanTitle(title)
    ensures forall d :: d != '"' && d != '\'' && d in title ==> d in CleanTitle(title)
  {
    ReplaceCharByNothing(title, '"');
    assert "\"" == ['"'] && "'" == ['\''];
    ReplaceCharByNothing(Without(title, '"'), '\'');
    WithoutRemoves(title, '"');
    WithoutRemoves(Without(title, '"'), '\'');
    var once := Without(title, '"');
    forall k | 0 <= k < |once| ensures once[k] != '"' {
      assert once[k] in once;
    }
    KeepsAbsentChar(once, '\'', '"');
  }

  lemma {:induction false} KeepsAbsentChar(s: string, c: char, d: char)
    requires d !in s
    ensures d !in Without(s, c)
  {
    if s != [] {
      KeepsAbsentChar(s[1..], c, d);
    }
  }

  /** The query quotes the whole cleaned title: its only double quotes are
      the two delimiters around it. */
  lemma QueryQuotesTitle(title: string)
    ensures var q := Query(title); var clean := CleanTitle(title);
      q[0] == '"' && q[1..|clean| + 1] == clean && q[|clean| + 1..] == QuerySuffix &&
      forall k :: 0 <= k < |q| && q[k] == '"' ==> k == 0 || k == |clean| + 1
  {
    CleanTitleRemovesQuotes(title);
    QuotedShape(CleanTitle(title));
  }

  lemma QuotedShape(clean: string)
    requires '"' !in clean
    ensures var q := "\"" + clean + QuerySuffix;
      q[0] == '"' && q[1..|clean| + 1] == clean && q[|clean| + 1..] == QuerySuffix &&
      forall k :: 0 <= k < |q| && q[k] == '"' ==> k == 0 || k == |clean| + 1
  {
    var q := "\"" + clean + QuerySuffix;
    assert forall k :: 0 < k <= |clean| ==> q[k] == clean[k - 1];
    assert forall k :: |clean| + 1 < k < |q| ==> q[k] == QuerySuffix[k - |clean| - 1];
    assert forall k :: 0 < k < |QuerySuffix| ==> QuerySuffix[k] != '"';
  }

  // ---------------------------------------------------------------------
  // The response
  // ---------------------------------------------------------------------

  /** An entry of `includes.users`; a field is `None` when the key is missing. */
  datatype XUser = XUser(id: Option<string>, username: Option<string>, name: Option<string>)

  /** An entry of `data`; `likeCount` is `None` when `public_metrics` or its
      `like_count` is missing. */
  datatype XPost = XPost(
    id: Option<string>,
    text: Option<string>,
    authorId: Option<string>,
    likeCount: Option<int>,
    retweetCount: Option<int>)

  /** The outcome of the request: it raised (connection or JSON decoding),
      or a status and a body whose `data` may be missing. `users` is empty
      when `includes` or `includes.users` is missing. */
  datatype XReply = XRaised | XReply(status: int, data: Option<seq<XPost>>, users: seq<XUser>)

  const MinLikes := 2
  const UnknownHandle := "unknown"
  const UnknownName := "Unknown"
  const PostUrlPrefix := "https://x.com/"

  function IntOr(field: Option<int>, default: int): int
  {
    match field
    case Some(v) => v
    case None => default
  }

  function TextOr(field: Option<string>, default: string): string
  {
    match field
    case Some(v) => v
    case None => default
  }

  /** The f-string rendering of `tweet.get('id')`. */
  function IdText(id: Option<string>): string
  {
    TextOr(id, "None")
  }

  /** Building `users` raises unless every user has an `id`. */
  predicate AllUsersIdentified(users: seq<XUser>)
  {
    forall k :: 0 <= k < |users| ==> users[k].id.Some?
  }

  /** `users[user["id"]] = user` for each user in order. */
  function UserLookup(users: seq<XUser>): map<string, XUser>
    requires AllUsersIdentified(users)
  {
    if users == [] then map[]
    else
      var last := users[|users| - 1];
      UserLookup(users[..|users| - 1])[last.id.value := last]
  }

  /** `users.get(author_id, {})`: the author record, if known. */
  function AuthorOf(post: XPost, lookup: map<string, XUser>): Option<XUser>
  {
    match post.authorId
    case Some(a) => if a in lookup then Some(lookup[a]) else None
    case None => None
  }

  function LikesOf(post: XPost): int
  {
    IntOr(post.likeCount, 0)
  }

  /** The result dictionary for one kept post. */
  function ToTweet(post: XPost, lookup: map<string, XUser>): Tweet
  {
    var author := AuthorOf(post, lookup);
    var handle := if author.Some? then TextOr(author.value.username, UnknownHandle) else UnknownHandle;
    var name := if author.Some? then TextOr(author.value.name, UnknownName) else UnknownName;
    Tweet(TextOr(post.text, ""), name, handle, LikesOf(post), IntOr(post.retweetCount, 0),
          PostUrlPrefix + handle + "/status/" + IdText(post.id))
  }

  /** `results` before sorting: the posts with at least two likes, in
      response order. */
  function Kept(posts: seq<XPost>, lookup: map<string, XUser>): seq<Tweet>
  {
    if posts == [] then []
    else
      var n := |posts| - 1;
      var init := Kept(posts[..n], lookup);
      if LikesOf(posts[n]) < MinLikes then init else init + [ToTweet(posts[n], lookup)]
  }

  /** `results.sort(key=lambda x: x['likes'], reverse=True)` is a stable
      sort on the negated likes. */
  function ByLikes(t: Tweet): int
  {
    -t.likes
  }

  /** The results of a completed request. */
  function TweetsFrom(reply: XReply): seq<Tweet>
  {
    if reply.XRaised? || reply.status != 200 || reply.data.None? then []
    else if !AllUsersIdentified(reply.users) then []
    else SortBy(Kept(reply.data.value, UserLookup(reply.users)), ByLikes)
  }

  /** `not bearer_token`. */
  predicate NoToken(token: Option<string>)
  {
    token.None? || token.value == ""
  }

  // ---------------------------------------------------------------------
  // find_tweets_for_paper
  // ---------------------------------------------------------------------

  /** `find_tweets_for_paper(paper_title, bearer_token)`; `search` answers
      the recent-search request for a query. */
  method FindTweetsForPaper(title: string, token: Option<string>, search: string -> XReply)
    returns (results: seq<Tweet>)
    ensures NoToken(token) ==> results == []
    ensures !NoToken(token) ==> results == TweetsFrom(search(Query(title)))
  {
    if NoToken(token) {
      return [];
    }
    var reply := search(Query(title));
    if reply.XRaised? || reply.status != 200 || reply.data.None? {
      return [];
    }
    var ok, users := BuildUsers(reply.users);
    if !ok {
      return [];
    }
    results := KeepLiked(reply.data.value, users);
    results := SortBy(results, ByLikes);
  }

  /** The loop of lines 48-49; `ok` is false when a user without `id`
      makes it raise. */
  method BuildUsers(entries: seq<XUser>) returns (ok: bool, users: map<string, XUser>)
    ensures ok == AllUsersIdentified(entries)
    ensures ok ==> users == UserLookup(entries)
  {
    users := map[];
    for i := 0 to |entries|
      invariant AllUsersIdentified(entries[..i]) && users == UserLookup(entries[..i])
    {
      var user := entries[i];
      if user.id.None? {
        return false, users;
      }
      assert entries[..i + 1][..i] == entries[..i];
      users := users[user.id.value := user];
    }
    assert entries[..|entries|] == entries;
    ok := true;
  }

  /** The loop of lines 52-71. */
  method KeepLiked(posts: seq<XPost>, users: map<string, XUser>) returns (results: seq<Tweet>)
    ensures results == Kept(posts, users)
  {
    results := [];
    for i := 0 to |posts|
      invariant results == Kept(posts[..i], users)
    {
      assert posts[..i + 1][..i] == posts[..i];
      var post := posts[i];
      var likes := LikesOf(post);
      if likes < MinLikes {
        continue;
      }
      results := results + [ToTweet(post, users)];
    }
    assert posts[..|posts|] == posts;
  }

  // ---------------------------------------------------------------------
  // What the post-processing promises
  // ---------------------------------------------------------------------

  /** Every kept tweet comes from a post with at least two likes, and there
      are no more tweets than posts. */
  lemma {:induction false} KeptFacts(posts: seq<XPost>, lookup: map<string, XUser>)
    ensures |Kept(posts, lookup)| <= |posts|
    ensures forall t :: t in Kept(posts, lookup) ==>
      t.likes >= MinLikes && exists k :: 0 <= k < |posts| && t == ToTweet(posts[k], lookup)
  {
    if posts != [] {
      var n := |posts| - 1;
      KeptFacts(posts[..n], lookup);
      forall t | t in Kept(posts[..n], lookup)
        ensures exists k :: 0 <= k < |posts| && t == ToTweet(posts[k], lookup)
      {
        var k :| 0 <= k < n && t == ToTweet(posts[..n][k], lookup);
        assert posts[..n][k] == posts[k];
      }
    }
  }

  /** Every post with at least two likes is kept. */
  lemma {:induction false} KeptComplete(posts: seq<XPost>, lookup: map<string, XUser>, k: nat)
    requires k < |posts| && LikesOf(posts[k]) >= MinLikes
    ensures ToTweet(posts[k], lookup) in Kept(posts, lookup)
  {
    var n := |posts| - 1;
    if k < n {
      assert posts[..n][k] == posts[k];
      KeptComplete(posts[..n], lookup, k);
    }
  }

  /** A failed, refused or empty response gives no results. */
  lemma FailedSearchGivesNothing(reply: XReply)
    requires reply.XRaised? || reply.status != 200 || reply.data.None? || !AllUsersIdentified(reply.users)
    ensures TweetsFrom(reply) == []
  {
  }

  /** Every result has at least two likes and comes from a post of the
      response; there are no more results than posts. */
  lemma ResultsComeFromLikedPosts(reply: XReply)
    requires reply.XReply? && reply.status == 200 && reply.data.Some? && AllUsersIdentified(reply.users)
    ensures var posts := reply.data.value;
      |TweetsFrom(reply)| <= |posts| &&
      forall t :: t in TweetsFrom(reply) ==>
        t.likes >= MinLikes && exists k :: 0 <= k < |posts| && t == ToTweet(posts[k], UserLookup(reply.users))
  {
    var kept := Kept(reply.data.value, UserLookup(reply.users));
    KeptFacts(reply.data.value, UserLookup(reply.users));
    forall t | t in TweetsFrom(reply) ensures t in kept {
      assert t in multiset(TweetsFrom(reply));
    }
    assert |multiset(TweetsFrom(reply))| == |multiset(kept)|;
  }

  /** Results are in non-increasing order of likes. */
  lemma ResultsByLikes(reply: XReply)
    requires reply.XReply? && reply.status == 200 && reply.data.Some? && AllUsersIdentified(reply.users)
    ensures var r := TweetsFrom(reply);
      forall i, j :: 0 <= i < j < |r| ==> r[i].likes >= r[j].likes
  {
    var key := ByLikes;
    var r := SortBy(Kept(reply.data.value, UserLookup(reply.users)), key);
    assert TweetsFrom(reply) == r;
    forall i, j | 0 <= i < j < |r| ensures r[i].likes >= r[j].likes {
      assert key(r[i]) <= key(r[j]);
    }
  }

  /** Results with equal likes keep their response order: for every sort
      key `k` (a like count negated), the results carrying it are the kept
      posts carrying it, in the same order. */
  lemma ResultsKeepResponseOrder(reply: XReply, k: int)
    requires reply.XReply? && reply.status == 200 && reply.data.Some? && AllUsersIdentified(reply.users)
    ensures WithKey(TweetsFrom(reply), ByLikes, k) ==
      WithKey(Kept(reply.data.value, UserLookup(reply.users)), ByLikes, k)
  {
    SortByStable(Kept(reply.data.value, UserLookup(reply.users)), ByLikes, k);
  }

  /** When a user id repeats in `includes.users`, the later record is used. */
  lemma {:induction false} LaterUserWins(users: seq<XUser>, id: string, k: nat)
    requires AllUsersIdentified(users) && k < |users| && users[k].id == Some(id)
    requires forall j :: k < j < |users| ==> users[j].id != Some(id)
    ensures id in UserLookup(users) && UserLookup(users)[id] == users[k]
  {
    var n := |users| - 1;
    if k < n {
      var init := users[..n];
      assert init[k] == users[k];
      LaterUserWins(init, id, k);
    }
  }

  /** A post by an author missing from the lookup gets the placeholder
      handle and name; a known author's username and name are used when
      present. The url names the handle and the post id. */
  lemma TweetAuthorDefaults(post: XPost, lookup: map<string, XUser>)
    ensures var t := ToTweet(post, lookup);
      (AuthorOf(post, lookup).None? ==> t.authorHandle == UnknownHandle && t.authorName == UnknownName) &&
      (AuthorOf(post, lookup).Some? && AuthorOf(post, lookup).value.username.Some? ==>
         t.authorHandle == AuthorOf(post, lookup).value.username.value) &&
      t.url == PostUrlPrefix + t.authorHandle + "/status/" + IdText(post.id)
  {
  }

  /** A handle without `/` can be read back from the url. */
  lemma TweetUrlNamesHandle(post: XPost, lookup: map<string, XUser>)
    requires '/' !in ToTweet(post, lookup).authorHandle
    ensures var t := ToTweet(post, lookup);
      FirstPiece(t.url[|PostUrlPrefix|..], "/") == t.authorHandle
  {
    var t := ToTweet(post, lookup);
    var tail := "status/" + IdText(post.id);
    assert t.url == PostUrlPrefix + (t.authorHandle + "/" + tail);
    HandleBeforeSlash(t.authorHandle, tail);
  }

  lemma HandleBeforeSlash(h: string, tail: string)
    requires '/' !in h
    ensures FirstPiece(h + "/" + tail, "/") == h
  {
    var s := h + "/" + tail;
    assert OccursAt(s, "/", |h|);
    forall k | 0 <= k < |h| ensures !OccursAt(s, "/", k) {
      assert s[k] == h[k];
    }
    FirstPieceAt(s, "/", |h|);
  }

  lemma FirstPieceAt(s: string, sep: string, i: nat)
    requires sep != [] && OccursAt(s, sep, i)
    requires forall k :: 0 <= k < i ==> !OccursAt(s, sep, k)
    ensures FirstPiece(s, sep) == s[..i]
  {
    assert IndexOf(s, sep) == Some(i);
  }
}
