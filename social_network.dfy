/** The objects of social_network_analysis.py: posts that learn their reposters in
    a linking pass over the id-keyed table, and the recursive follower count.
    Each result is tied to the value-level definitions of RepostTable. */
module SocialNetwork {
  import RepostTable

  /** A post or repost. Only its list of reposters changes after construction. */
  class Post {
    const postId: int
    const repostId: int
    const followers: int
    var reposters: seq<Post>

    constructor (postId: int, repostId: int, followers: int)
      ensures this.postId == postId && this.repostId == repostId && this.followers == followers
      ensures reposters == []
    {
      this.postId := postId;
      this.repostId := repostId;
      this.followers := followers;
      reposters := [];
    }

    /** `add_reposter`: appends one reposter and changes nothing else. */
    method AddReposter(repost: Post)
      modifies this
      ensures reposters == old(reposters) + [repost]
    {
      reposters := reposters + [repost];
    }

    /** `num_followers`: this post's followers plus what each of its reposters
        reaches, in reposter order. */
    method NumFollowers(ghost ps: seq<Post>, ghost height: map<int, nat>) returns (total: int)
      requires this in ps && WellLinked(ps, height)
      ensures total == PostReach(this, ps, height)
      decreases height[postId]
    {
      total := followers;
      var i := 0;
      while i < |reposters|
        invariant 0 <= i <= |reposters|
        invariant total == followers + ReposterReach(reposters[..i], ps, height, height[postId])
      {
        var n := reposters[i].NumFollowers(ps, height);
        assert reposters[..i + 1][..i] == reposters[..i];
        total := total + n;
        i := i + 1;
      }
      assert reposters[..i] == reposters;
    }
  }

  /** Every post of `ps` has a height, and each reposter it lists is in `ps` at a
      strictly smaller height: following reposters never comes back round. */
  ghost predicate WellLinked(ps: seq<Post>, height: map<int, nat>)
    reads ps
  {
    forall p :: p in ps ==>
      p.postId in height &&
      forall r :: r in p.reposters ==> r in ps && r.postId in height && height[r.postId] < height[p.postId]
  }

  /** The viewers `p` reaches through the reposters lists of the current heap. */
  ghost function PostReach(p: Post, ps: seq<Post>, height: map<int, nat>): int
    reads ps
    requires p in ps && WellLinked(ps, height)
    decreases height[p.postId], 1
  {
    p.followers + ReposterReach(p.reposters, ps, height, height[p.postId])
  }

  ghost function ReposterReach(rs: seq<Post>, ps: seq<Post>, height: map<int, nat>, bound: nat): int
    reads ps
    requires WellLinked(ps, height)
    requires forall r :: r in rs ==> r in ps && r.postId in height && height[r.postId] < bound
    decreases bound, 0, |rs|
  {
    if rs == [] then 0
    else ReposterReach(rs[..|rs| - 1], ps, height, bound) + PostReach(rs[|rs| - 1], ps, height)
  }

  function RowOf(p: Post): RepostTable.Row {
    RepostTable.Row(p.postId, p.repostId, p.followers)
  }

  function RowsOf(ps: seq<Post>): seq<RepostTable.Row> {
    seq(|ps|, i requires 0 <= i < |ps| => RowOf(ps[i]))
  }

  /** The posts of the table in its iteration order. */
  function PostsOf(allPosts: map<int, Post>, keys: seq<int>): seq<Post>
    requires forall i :: 0 <= i < |keys| ==> keys[i] in allPosts
  {
    seq(|keys|, i requires 0 <= i < |keys| => allPosts[keys[i]])
  }

  /** The reposts of `id` among `ps`, in order: what the linking pass appends to
      the reposters of post `id`. */
  function LinkedReposters(ps: seq<Post>, id: int): (rs: seq<Post>)
    ensures forall i :: 0 <= i < |rs| ==> rs[i] in ps && rs[i].repostId != RepostTable.Original && rs[i].repostId == id
    ensures forall i :: 0 <= i < |ps| && ps[i].repostId != RepostTable.Original && ps[i].repostId == id ==> ps[i] in rs
  {
    if ps == [] then []
    else
      var init, last := ps[..|ps| - 1], ps[|ps| - 1];
      assert ps == init + [last];
      LinkedReposters(init, id) + (if last.repostId != RepostTable.Original && last.repostId == id then [last] else [])
  }

  /** The original posts among `ps`, in order: the values of `originalPosts`. */
  function OriginalPosts(ps: seq<Post>): (os: seq<Post>)
    ensures forall i :: 0 <= i < |os| ==> os[i] in ps && os[i].repostId == RepostTable.Original
  {
    if ps == [] then []
    else
      var init, last := ps[..|ps| - 1], ps[|ps| - 1];
      assert ps == init + [last];
      OriginalPosts(init) + (if last.repostId == RepostTable.Original then [last] else [])
  }

  /** A repost whose target is not a key of the table: looking it up raises KeyError. */
  predicate Dangling(allPosts: map<int, Post>, p: Post) {
    p.repostId != RepostTable.Original && p.repostId !in allPosts
  }

  /** Every post of `ps` lists as reposters exactly the reposts of it among `ps`. */
  ghost predicate Linked(ps: seq<Post>)
    reads ps
  {
    forall p :: p in ps ==> p.reposters == LinkedReposters(ps, p.postId)
  }

  /** The result of `sumFollowers`: `(id, reach)` for each original post, or the
      KeyError raised by a repost of a missing post. */
  datatype Analysis = Report(pairs: seq<(int, int)>) | KeyError(key: int)

  /** How far the linking pass over `ps` gets: the index of the first repost of a
      post missing from the table, or `|ps|` when there is none. */
  function LinkedPrefix(allPosts: map<int, Post>, ps: seq<Post>): (n: nat)
    ensures n <= |ps|
    ensures forall j :: 0 <= j < n ==> !Dangling(allPosts, ps[j])
    ensures n < |ps| ==> Dangling(allPosts, ps[n])
  {
    if ps == [] then 0
    else if Dangling(allPosts, ps[0]) then 0
    else
      var n := 1 + LinkedPrefix(allPosts, ps[1..]);
      assert forall j :: 1 <= j < |ps| ==> ps[j] == ps[1..][j - 1];
      n
  }

  /** What one more post of the pass adds to the reposters and originals. */
  lemma LinkStep(ps: seq<Post>, i: nat)
    requires i < |ps|
    ensures forall k ::
              LinkedReposters(ps[..i + 1], k) ==
              LinkedReposters(ps[..i], k) + (if ps[i].repostId != RepostTable.Original && ps[i].repostId == k then [ps[i]] else [])
    ensures OriginalPosts(ps[..i + 1]) ==
      OriginalPosts(ps[..i]) + (if ps[i].repostId == RepostTable.Original then [ps[i]] else [])
  {
    assert ps[..i + 1][..i] == ps[..i];
  }

  /** A post the linking pass gets past extends the prefix it gets through. */
  lemma LinkedPrefixStep(allPosts: map<int, Post>, ps: seq<Post>, i: nat)
    requires i <= LinkedPrefix(allPosts, ps) && i < |ps| && !Dangling(allPosts, ps[i])
    ensures i + 1 <= LinkedPrefix(allPosts, ps)
  {
  }

  /** `sumFollowers`: link every repost into its target's reposters in table order,
      then report the reach of each original post, or raise KeyError at the first
      repost of a post that is not in the table. The table maps each post's id to
      that post; `keys` is its iteration order; `height` witnesses that reposting
      is acyclic. */
  method SumFollowers(allPosts: map<int, Post>, keys: seq<int>, ghost height: map<int, nat>) returns (outcome: Analysis)
    requires forall i :: 0 <= i < |keys| ==> keys[i] in allPosts
    requires forall k :: k in allPosts ==> k in keys
    requires forall i, j :: 0 <= i < j < |keys| ==> keys[i] != keys[j]
    requires forall k :: k in allPosts ==> allPosts[k].postId == k && allPosts[k].reposters == []
    requires RepostTable.Ranked(RowsOf(PostsOf(allPosts, keys)), height)
    modifies allPosts.Values
    ensures outcome.Report? <==> forall k :: k in allPosts ==> !Dangling(allPosts, allPosts[k])
    ensures var n := LinkedPrefix(allPosts, PostsOf(allPosts, keys));
      forall k :: k in allPosts ==> allPosts[k].reposters == LinkedReposters(PostsOf(allPosts, keys)[..n], k)
    ensures outcome.KeyError? ==>
      var n := LinkedPrefix(allPosts, PostsOf(allPosts, keys));
      n < |keys| && outcome.key == allPosts[keys[n]].repostId
    ensures outcome.Report? ==> outcome.pairs == RepostTable.Report(RowsOf(PostsOf(allPosts, keys)), height)
  {
    ghost var ps := PostsOf(allPosts, keys);
    var originals, linked := Link(allPosts, keys);
    if linked < |keys| {
      var post := allPosts[keys[linked]];
      assert post == ps[linked];
      return KeyError(post.repostId);
    }
    assert ps[..linked] == ps;
    LinkedNoneDangling(allPosts, keys);
    var pairs := ReportOriginals(allPosts, keys, originals, height);
    outcome := Report(pairs);
  }

  /** The loop of `sumFollowers`: each repost is appended to the reposters of
      the post it reposts and each original is collected, in table order, until
      the first repost of a missing post; `linked` is how many posts it got
      through. */
  method Link(allPosts: map<int, Post>, keys: seq<int>) returns (originals: seq<Post>, linked: nat)
    requires forall i :: 0 <= i < |keys| ==> keys[i] in allPosts
    requires forall k :: k in allPosts ==> k in keys
    requires forall k :: k in allPosts ==> allPosts[k].postId == k && allPosts[k].reposters == []
    modifies allPosts.Values
    ensures linked == LinkedPrefix(allPosts, PostsOf(allPosts, keys))
    ensures originals == OriginalPosts(PostsOf(allPosts, keys)[..linked])
    ensures forall k :: k in allPosts ==> allPosts[k].reposters == LinkedReposters(PostsOf(allPosts, keys)[..linked], k)
  {
    ghost var ps := PostsOf(allPosts, keys);
    ghost var n := LinkedPrefix(allPosts, ps);
    originals := [];
    var i := 0;
    while i < |keys|
      invariant i <= n
      invariant originals == OriginalPosts(ps[..i])
      invariant forall k :: k in allPosts ==> allPosts[k].reposters == LinkedReposters(ps[..i], k)
    {
      var post := allPosts[keys[i]];
      assert post == ps[i];
      if post.repostId != RepostTable.Original {
        if post.repostId !in allPosts {
          return originals, i;
        }
        var target := allPosts[post.repostId];
        target.AddReposter(post);
        forall k | k in allPosts
          ensures allPosts[k].reposters == LinkedReposters(ps[..i], k) + (if k == target.postId then [post] else [])
        {
          assert allPosts[k].postId == k;
        }
      } else {
        originals := originals + [post];
      }
      LinkStep(ps, i);
      LinkedPrefixStep(allPosts, ps, i);
      i := i + 1;
    }
    linked := i;
  }

  /** The table `sumFollowers` is given has unique ids, and when no repost
      dangles every repost names a post of it, so the table-level facts
      (ReportIds, ReportConservesFollowers, ReportBoundedByTotal) apply. */
  lemma TableWellFormed(allPosts: map<int, Post>, keys: seq<int>)
    requires forall i :: 0 <= i < |keys| ==> keys[i] in allPosts
    requires forall k :: k in allPosts ==> k in keys
    requires forall i, j :: 0 <= i < j < |keys| ==> keys[i] != keys[j]
    requires forall k :: k in allPosts ==> allPosts[k].postId == k
    ensures RepostTable.UniqueIds(RowsOf(PostsOf(allPosts, keys)))
    ensures (forall k :: k in allPosts ==> !Dangling(allPosts, allPosts[k])) ==>
      RepostTable.Resolved(RowsOf(PostsOf(allPosts, keys)))
  {
    var rows := RowsOf(PostsOf(allPosts, keys));
    assert forall i :: 0 <= i < |rows| ==> rows[i].postId == keys[i];
    if forall k :: k in allPosts ==> !Dangling(allPosts, allPosts[k]) {
      forall r | r in rows && RepostTable.IsRepost(r)
        ensures exists t :: t in rows && t.postId == r.repostId
      {
        var i :| 0 <= i < |rows| && rows[i] == r;
        assert r.repostId in allPosts;
        var m :| 0 <= m < |keys| && keys[m] == r.repostId;
        assert rows[m] in rows;
      }
    }
  }

  /** A linking pass that got through the whole table met no dangling repost. */
  lemma LinkedNoneDangling(allPosts: map<int, Post>, keys: seq<int>)
    requires forall i :: 0 <= i < |keys| ==> keys[i] in allPosts
    requires forall k :: k in allPosts ==> k in keys
    requires LinkedPrefix(allPosts, PostsOf(allPosts, keys)) == |keys|
    ensures forall k :: k in allPosts ==> !Dangling(allPosts, allPosts[k])
  {
    var ps := PostsOf(allPosts, keys);
    forall k | k in allPosts
      ensures !Dangling(allPosts, allPosts[k])
    {
      var j :| 0 <= j < |keys| && keys[j] == k;
      assert ps[j] == allPosts[k];
    }
  }

  /** After the whole linking pass every post lists its own reposts. */
  lemma LinkedAll(allPosts: map<int, Post>, keys: seq<int>)
    requires forall i :: 0 <= i < |keys| ==> keys[i] in allPosts
    requires forall k :: k in allPosts ==> allPosts[k].postId == k
    requires forall k :: k in allPosts ==> allPosts[k].reposters == LinkedReposters(PostsOf(allPosts, keys), k)
    ensures Linked(PostsOf(allPosts, keys))
  {
    var ps := PostsOf(allPosts, keys);
    forall p | p in ps
      ensures p.reposters == LinkedReposters(ps, p.postId)
    {
      var j :| 0 <= j < |ps| && ps[j] == p;
      var k := keys[j];
      assert k in allPosts && p == allPosts[k];
      assert p.postId == k;
    }
  }

  /** The reaches computed over a linked table are its report. */
  lemma ReportMatches(ps: seq<Post>, height: map<int, nat>, pairs: seq<(int, int)>)
    requires Linked(ps) && RepostTable.Ranked(RowsOf(ps), height) && WellLinked(ps, height)
    requires |pairs| == |OriginalPosts(ps)|
    requires forall j :: 0 <= j < |pairs| ==>
      pairs[j] == (OriginalPosts(ps)[j].postId, PostReach(OriginalPosts(ps)[j], ps, height))
    ensures pairs == RepostTable.Report(RowsOf(ps), height)
  {
    var originals := OriginalPosts(ps);
    ReportOfOriginals(ps, height);
    forall j | 0 <= j < |pairs|
      ensures pairs[j] == RepostTable.Report(RowsOf(ps), height)[j]
    {
      ReachAgrees(ps, height, originals[j]);
    }
  }

  /** The report of `sumFollowers` once the whole table is linked: over the
      linked objects, `num_followers` computes the table's reaches. */
  method ReportOriginals(allPosts: map<int, Post>, keys: seq<int>, originals: seq<Post>, ghost height: map<int, nat>)
    returns (pairs: seq<(int, int)>)
    requires forall i :: 0 <= i < |keys| ==> keys[i] in allPosts
    requires forall k :: k in allPosts ==> allPosts[k].postId == k
    requires forall k :: k in allPosts ==> allPosts[k].reposters == LinkedReposters(PostsOf(allPosts, keys), k)
    requires originals == OriginalPosts(PostsOf(allPosts, keys))
    requires RepostTable.Ranked(RowsOf(PostsOf(allPosts, keys)), height)
    ensures pairs == RepostTable.Report(RowsOf(PostsOf(allPosts, keys)), height)
  {
    ghost var ps := PostsOf(allPosts, keys);
    LinkedAll(allPosts, keys);
    LinkedIsWellLinked(ps, height);
    pairs := ReportReaches(originals, ps, height);
    ReportMatches(ps, height, pairs);
  }

  /** The list comprehension of `sumFollowers`: each original's id with its
      `num_followers`. */
  method ReportReaches(originals: seq<Post>, ghost ps: seq<Post>, ghost height: map<int, nat>) returns (pairs: seq<(int, int)>)
    requires forall j :: 0 <= j < |originals| ==> originals[j] in ps
    requires WellLinked(ps, height)
    ensures |pairs| == |originals|
    ensures forall j :: 0 <= j < |originals| ==> pairs[j] == (originals[j].postId, PostReach(originals[j], ps, height))
  {
    pairs := [];
    var j := 0;
    while j < |originals|
      invariant 0 <= j <= |originals|
      invariant |pairs| == j
      invariant forall i :: 0 <= i < j ==> pairs[i] == (originals[i].postId, PostReach(originals[i], ps, height))
    {
      var n := originals[j].NumFollowers(ps, height);
      pairs := pairs + [(originals[j].postId, n)];
      j := j + 1;
    }
  }

  // ----- The objects compute what the table defines -----

  lemma RowOfIn(ps: seq<Post>, p: Post)
    requires p in ps
    ensures RowOf(p) in RowsOf(ps)
  {
    var i :| 0 <= i < |ps| && ps[i] == p;
    assert RowsOf(ps)[i] == RowOf(p);
  }

  lemma RowsOfSnoc(ps: seq<Post>)
    requires ps != []
    ensures RowsOf(ps) == RowsOf(ps[..|ps| - 1]) + [RowOf(ps[|ps| - 1])]
  {
  }

  lemma RowsOfAppend(a: seq<Post>, b: seq<Post>)
    ensures RowsOf(a + b) == RowsOf(a) + RowsOf(b)
  {
  }

  /** Linking by objects picks out the reposts the table picks out. */
  lemma {:induction false} RowsOfLinked(ps: seq<Post>, id: int)
    ensures RowsOf(LinkedReposters(ps, id)) == RepostTable.Reposts(RowsOf(ps), id)
  {
    if ps != [] {
      var init, last := ps[..|ps| - 1], ps[|ps| - 1];
      RowsOfLinked(init, id);
      assert ps == init + [last];
      RowsOfAppend(init, [last]);
      RepostTable.RepostsSnoc(RowsOf(init), RowOf(last), id);
      var tail := if last.repostId != RepostTable.Original && last.repostId == id then [last] else [];
      RowsOfAppend(LinkedReposters(init, id), tail);
    }
  }

  /** The originals collected by the linking pass are the table's roots. */
  lemma {:induction false} RowsOfOriginals(ps: seq<Post>)
    ensures RowsOf(OriginalPosts(ps)) == RepostTable.Roots(RowsOf(ps))
  {
    if ps != [] {
      var init, last := ps[..|ps| - 1], ps[|ps| - 1];
      RowsOfOriginals(init);
      assert ps == init + [last];
      RowsOfAppend(init, [last]);
      RepostTable.RootsSnoc(RowsOf(init), RowOf(last));
      var tail := if last.repostId == RepostTable.Original then [last] else [];
      RowsOfAppend(OriginalPosts(init), tail);
    }
  }

  /** An acyclic table, once linked, gives acyclic reposters lists. */
  lemma LinkedIsWellLinked(ps: seq<Post>, height: map<int, nat>)
    requires Linked(ps) && RepostTable.Ranked(RowsOf(ps), height)
    ensures WellLinked(ps, height)
  {
    forall p | p in ps
      ensures p.postId in height
      ensures forall r :: r in p.reposters ==> r in ps && r.postId in height && height[r.postId] < height[p.postId]
    {
      RowOfIn(ps, p);
      forall r | r in p.reposters
        ensures r in ps && r.postId in height && height[r.postId] < height[p.postId]
      {
        assert r in LinkedReposters(ps, p.postId);
        RowOfIn(ps, r);
      }
    }
  }

  /** In the linked state `num_followers` of a post is the table reach of its row. */
  lemma {:induction false} ReachAgrees(ps: seq<Post>, height: map<int, nat>, p: Post)
    requires Linked(ps) && RepostTable.Ranked(RowsOf(ps), height) && WellLinked(ps, height)
    requires p in ps
    ensures PostReach(p, ps, height) == RepostTable.ReachOrZero(RowsOf(ps), height, RowOf(p))
    decreases height[p.postId], 1
  {
    var rows := RowsOf(ps);
    RowOfIn(ps, p);
    var cs := RepostTable.Reposts(rows, p.postId);
    RowsOfLinked(ps, p.postId);
    RepostTable.ReachSumIsSum(rows, height, cs, height[p.postId]);
    SumAgrees(ps, height, p.reposters, height[p.postId]);
  }

  lemma {:induction false} SumAgrees(ps: seq<Post>, height: map<int, nat>, rs: seq<Post>, bound: nat)
    requires Linked(ps) && RepostTable.Ranked(RowsOf(ps), height) && WellLinked(ps, height)
    requires forall r :: r in rs ==> r in ps && r.postId in height && height[r.postId] < bound
    ensures ReposterReach(rs, ps, height, bound) ==
      RepostTable.SumOf(r => RepostTable.ReachOrZero(RowsOf(ps), height, r), RowsOf(rs))
    decreases bound, 0, |rs|
  {
    if rs != [] {
      var init, last := rs[..|rs| - 1], rs[|rs| - 1];
      SumAgrees(ps, height, init, bound);
      ReachAgrees(ps, height, last);
      RowsOfSnoc(rs);
      RepostTable.SumOfSnoc(r => RepostTable.ReachOrZero(RowsOf(ps), height, r), RowsOf(init), RowOf(last));
    }
  }

  /** The table's report lists the originals of the table, in table order, with
      their reaches. */
  lemma ReportOfOriginals(ps: seq<Post>, height: map<int, nat>)
    requires RepostTable.Ranked(RowsOf(ps), height)
    ensures |RepostTable.Report(RowsOf(ps), height)| == |OriginalPosts(ps)|
    ensures forall i :: 0 <= i < |OriginalPosts(ps)| ==>
      RepostTable.Report(RowsOf(ps), height)[i] ==
        (OriginalPosts(ps)[i].postId, RepostTable.ReachOrZero(RowsOf(ps), height, RowOf(OriginalPosts(ps)[i])))
  {
    RowsOfOriginals(ps);
    var roots := RepostTable.Roots(RowsOf(ps));
    forall i | 0 <= i < |roots|
      ensures roots[i] in RowsOf(ps)
    {
      assert roots[i] in roots;
    }
  }
}
