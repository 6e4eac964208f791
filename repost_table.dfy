/** The repost table of social_network_analysis.py as a value: one row per post
    (its id, the id it reposts or -1, its poster's followers), the reach of a post
    over that table, and the report of every original post's reach. The objects
    and the linking pass that compute the same numbers are in SocialNetwork. */
module RepostTable {

  /** The repostId that marks an original post. */
  const Original: int := -1

  datatype Row = Row(postId: int, repostId: int, followers: int)

  predicate IsRepost(r: Row) {
    r.repostId != Original
  }

  /** `height` witnesses that reposting is acyclic: every repost sits strictly
      below the post it reposts. Only termination depends on it (see
      ReachHeightIrrelevant). */
  predicate Ranked(rows: seq<Row>, height: map<int, nat>) {
    forall r :: r in rows ==>
      r.postId in height &&
      (IsRepost(r) ==> r.repostId in height && height[r.postId] < height[r.repostId])
  }

  /** No two rows carry the same id, as in the id-keyed table of posts. */
  predicate UniqueIds(rows: seq<Row>) {
    forall i, j :: 0 <= i < j < |rows| ==> rows[i].postId != rows[j].postId
  }

  /** Every repost names a post of the table. (The trigger keeps the witness
      `t` from instantiating the quantifier again.) */
  predicate Resolved(rows: seq<Row>) {
    forall r {:trigger IsRepost(r)} :: r in rows && IsRepost(r) ==> exists t :: t in rows && t.postId == r.repostId
  }

  predicate NonNegative(rows: seq<Row>) {
    forall r :: r in rows ==> r.followers >= 0
  }

  /** The rows that repost `id`, in table order. */
  function Reposts(rows: seq<Row>, id: int): (cs: seq<Row>)
    ensures forall c {:trigger c in cs} :: c in cs <==> c in rows && IsRepost(c) && c.repostId == id
  {
    if rows == [] then []
    else
      var init, last := rows[..|rows| - 1], rows[|rows| - 1];
      assert rows == init + [last];
      Reposts(init, id) + (if IsRepost(last) && last.repostId == id then [last] else [])
  }

  /** The original rows, in table order. */
  function Roots(rows: seq<Row>): (rs: seq<Row>)
    ensures forall r {:trigger r in rs} :: r in rs <==> r in rows && !IsRepost(r)
  {
    if rows == [] then []
    else
      var init, last := rows[..|rows| - 1], rows[|rows| - 1];
      assert rows == init + [last];
      Roots(init) + (if IsRepost(last) then [] else [last])
  }

  /** The reach of `x`: its own followers plus the reach of every post reposting it. */
  function Reach(rows: seq<Row>, height: map<int, nat>, x: Row): int
    requires Ranked(rows, height) && x in rows
    decreases height[x.postId], 1
  {
    x.followers + ReachSum(rows, height, Reposts(rows, x.postId), height[x.postId])
  }

  /** The summed reach of `cs`, whose heights all lie below `bound`. */
  function ReachSum(rows: seq<Row>, height: map<int, nat>, cs: seq<Row>, bound: nat): int
    requires Ranked(rows, height)
    requires forall c :: c in cs ==> c in rows && c.postId in height && height[c.postId] < bound
    decreases bound, 0, |cs|
  {
    if cs == [] then 0
    else ReachSum(rows, height, cs[..|cs| - 1], bound) + Reach(rows, height, cs[|cs| - 1])
  }

  /** Each row of `xs` paired with its reach. */
  function Pairs(rows: seq<Row>, height: map<int, nat>, xs: seq<Row>): (ps: seq<(int, int)>)
    requires Ranked(rows, height)
    requires forall x :: x in xs ==> x in rows
  {
    seq(|xs|, i requires 0 <= i < |xs| => (xs[i].postId, Reach(rows, height, xs[i])))
  }

  /** What the analysis reports: `(id, reach)` for every original post, in table order. */
  function Report(rows: seq<Row>, height: map<int, nat>): seq<(int, int)>
    requires Ranked(rows, height)
  {
    Pairs(rows, height, Roots(rows))
  }

  // ----- Reach is at least the post's own followers -----

  lemma {:induction false} ReachAtLeastFollowers(rows: seq<Row>, height: map<int, nat>, x: Row)
    requires Ranked(rows, height) && x in rows && NonNegative(rows)
    ensures Reach(rows, height, x) >= x.followers >= 0
    decreases height[x.postId], 1
  {
    ReachSumNonNegative(rows, height, Reposts(rows, x.postId), height[x.postId]);
  }

  lemma {:induction false} ReachSumNonNegative(rows: seq<Row>, height: map<int, nat>, cs: seq<Row>, bound: nat)
    requires Ranked(rows, height) && NonNegative(rows)
    requires forall c :: c in cs ==> c in rows && c.postId in height && height[c.postId] < bound
    ensures ReachSum(rows, height, cs, bound) >= 0
    decreases bound, 0, |cs|
  {
    if cs != [] {
      ReachSumNonNegative(rows, height, cs[..|cs| - 1], bound);
      ReachAtLeastFollowers(rows, height, cs[|cs| - 1]);
    }
  }

  // ----- The height is only a termination witness -----

  lemma {:induction false} ReachHeightIrrelevant(rows: seq<Row>, h1: map<int, nat>, h2: map<int, nat>, x: Row)
    requires Ranked(rows, h1) && Ranked(rows, h2) && x in rows
    ensures Reach(rows, h1, x) == Reach(rows, h2, x)
    decreases h1[x.postId], 1
  {
    ReachSumHeightIrrelevant(rows, h1, h2, Reposts(rows, x.postId), h1[x.postId], h2[x.postId]);
  }

  lemma {:induction false} ReachSumHeightIrrelevant(rows: seq<Row>, h1: map<int, nat>, h2: map<int, nat>,
                                                    cs: seq<Row>, b1: nat, b2: nat)
    requires Ranked(rows, h1) && Ranked(rows, h2)
    requires forall c :: c in cs ==> c in rows && c.postId in h1 && h1[c.postId] < b1
    requires forall c :: c in cs ==> c in rows && c.postId in h2 && h2[c.postId] < b2
    ensures ReachSum(rows, h1, cs, b1) == ReachSum(rows, h2, cs, b2)
    decreases b1, 0, |cs|
  {
    if cs != [] {
      ReachSumHeightIrrelevant(rows, h1, h2, cs[..|cs| - 1], b1, b2);
      ReachHeightIrrelevant(rows, h1, h2, cs[|cs| - 1]);
    }
  }

  // ----- Which ids the report lists -----

  lemma SameIdSameRow(rows: seq<Row>, r: Row, t: Row)
    requires UniqueIds(rows) && r in rows && t in rows && r.postId == t.postId
    ensures r == t
  {
    var i :| 0 <= i < |rows| && rows[i] == r;
    var j :| 0 <= j < |rows| && rows[j] == t;
    assert !(i < j) && !(j < i);
  }

  lemma {:induction false} RootsUniqueIds(rows: seq<Row>)
    requires UniqueIds(rows)
    ensures UniqueIds(Roots(rows))
  {
    if rows != [] {
      var init, last := rows[..|rows| - 1], rows[|rows| - 1];
      assert UniqueIds(init);
      RootsUniqueIds(init);
      forall r | r in Roots(init)
        ensures r.postId != last.postId
      {
        var i :| 0 <= i < |init| && init[i] == r;
        assert rows[i] == r;
      }
    }
  }

  /** A table with unique ids reports every original post's id exactly once and
      no repost's id. */
  lemma ReportIds(rows: seq<Row>, height: map<int, nat>)
    requires Ranked(rows, height) && UniqueIds(rows)
    ensures forall r :: r in rows ==>
      ((exists i :: 0 <= i < |Report(rows, height)| && Report(rows, height)[i].0 == r.postId) <==> !IsRepost(r))
    ensures forall i, j :: 0 <= i < j < |Report(rows, height)| ==>
      Report(rows, height)[i].0 != Report(rows, height)[j].0
  {
    var roots := Roots(rows);
    var report := Report(rows, height);
    RootsUniqueIds(rows);
    forall r | r in rows
      ensures (exists i :: 0 <= i < |report| && report[i].0 == r.postId) <==> !IsRepost(r)
    {
      if !IsRepost(r) {
        assert r in roots;
        var i :| 0 <= i < |roots| && roots[i] == r;
        assert report[i].0 == r.postId;
      }
      if i :| 0 <= i < |report| && report[i].0 == r.postId {
        assert roots[i] in roots;
        SameIdSameRow(rows, r, roots[i]);
      }
    }
  }

  // ----- A table of original posts only -----

  lemma {:induction false} RepostsNone(rows: seq<Row>, id: int)
    requires forall r :: r in rows ==> !IsRepost(r)
    ensures Reposts(rows, id) == []
  {
    if rows != [] {
      RepostsNone(rows[..|rows| - 1], id);
    }
  }

  lemma {:induction false} RootsAll(rows: seq<Row>)
    requires forall r :: r in rows ==> !IsRepost(r)
    ensures Roots(rows) == rows
  {
    if rows != [] {
      var init := rows[..|rows| - 1];
      RootsAll(init);
      assert rows == init + [rows[|rows| - 1]];
    }
  }

  /** When every post is original, each is reported with its own followers, in
      table order. */
  lemma AllOriginal(rows: seq<Row>, height: map<int, nat>)
    requires Ranked(rows, height)
    requires forall r :: r in rows ==> !IsRepost(r)
    ensures Report(rows, height) == seq(|rows|, i requires 0 <= i < |rows| => (rows[i].postId, rows[i].followers))
  {
    RootsAll(rows);
    forall i | 0 <= i < |rows|
      ensures Reach(rows, height, rows[i]) == rows[i].followers
    {
      RepostsNone(rows, rows[i].postId);
    }
  }

  // ----- A chain of reposts -----

  /** Posts 0 .. n-1, each reposting its predecessor, each with f followers. */
  function Chain(n: nat, f: int): seq<Row> {
    seq(n, k => Row(k, k - 1, f))
  }

  /** The ids 0 .. n-1. */
  function ChainIds(n: nat): (ids: seq<int>)
    ensures forall k :: k in ids <==> 0 <= k < n
  {
    var ids := seq(n, k => k);
    forall k | k in ids
      ensures 0 <= k < n
    {
      var i :| 0 <= i < n && ids[i] == k;
    }
    forall k | 0 <= k < n
      ensures k in ids
    {
      assert ids[k] == k;
    }
    ids
  }

  function ChainHeight(n: nat): map<int, nat> {
    map k | k in ChainIds(n) :: n - 1 - k
  }

  lemma ChainRanked(n: nat, f: int)
    ensures Ranked(Chain(n, f), ChainHeight(n))
  {
    forall r | r in Chain(n, f)
      ensures r.postId in ChainHeight(n)
      ensures IsRepost(r) ==> r.repostId in ChainHeight(n) &&
                              ChainHeight(n)[r.postId] < ChainHeight(n)[r.repostId]
    {
      var k :| 0 <= k < n && Chain(n, f)[k] == r;
    }
  }

  lemma {:induction false} ChainReposts(m: nat, f: int, k: int)
    requires 0 <= k
    ensures Reposts(Chain(m, f), k) == if k + 1 < m then [Row(k + 1, k, f)] else []
  {
    if m > 0 {
      assert Chain(m, f) == Chain(m - 1, f) + [Row(m - 1, m - 2, f)];
      RepostsSnoc(Chain(m - 1, f), Row(m - 1, m - 2, f), k);
      ChainReposts(m - 1, f, k);
    }
  }

  lemma {:induction false} ChainRoots(m: nat, f: int)
    ensures Roots(Chain(m, f)) == if m == 0 then [] else [Row(0, Original, f)]
  {
    if m > 0 {
      assert Chain(m, f)[..m - 1] == Chain(m - 1, f);
      ChainRoots(m - 1, f);
    }
  }

  /** The reach of a post that nobody reposts is its own followers. */
  lemma ReachOfLeaf(rows: seq<Row>, height: map<int, nat>, x: Row)
    requires Ranked(rows, height) && x in rows
    requires Reposts(rows, x.postId) == []
    ensures Reach(rows, height, x) == x.followers
  {
  }

  /** The reach of a post reposted once is its followers plus that repost's reach. */
  lemma ReachOfSingleRepost(rows: seq<Row>, height: map<int, nat>, x: Row, c: Row)
    requires Ranked(rows, height) && x in rows
    requires Reposts(rows, x.postId) == [c]
    ensures c in rows
    ensures Reach(rows, height, x) == x.followers + Reach(rows, height, c)
  {
    assert c in Reposts(rows, x.postId);
    assert [c][..0] == [];
    var bound := height[x.postId];
    assert Reach(rows, height, x) == x.followers + ReachSum(rows, height, [c], bound);
    assert ReachSum(rows, height, [c], bound) == ReachSum(rows, height, [], bound) + Reach(rows, height, c);
  }

  lemma {:induction false} ChainReach(n: nat, f: int, k: nat)
    requires k < n
    ensures Ranked(Chain(n, f), ChainHeight(n))
    ensures Row(k, k - 1, f) in Chain(n, f)
    ensures Reach(Chain(n, f), ChainHeight(n), Row(k, k - 1, f)) == Times(n - k, f)
    decreases n - k
  {
    var rows, height := Chain(n, f), ChainHeight(n);
    ChainRanked(n, f);
    assert rows[k] == Row(k, k - 1, f);
    ChainReposts(n, f, k);
    if k + 1 < n {
      var x, c := Row(k, k - 1, f), Row(k + 1, k, f);
      ChainReach(n, f, k + 1);
      ReachOfSingleRepost(rows, height, x, c);
      assert Times(n - k, f) == Times(n - (k + 1), f) + f;
    } else {
      ReachOfLeaf(rows, height, Row(k, k - 1, f));
    }
  }

  /** A chain of n posts with f followers each reports only its root, id 0, with
      reach n * f; an empty chain reports nothing. */
  lemma ChainReport(n: nat, f: int)
    ensures Ranked(Chain(n, f), ChainHeight(n))
    ensures Report(Chain(n, f), ChainHeight(n)) == if n == 0 then [] else [(0, n * f)]
  {
    ChainRanked(n, f);
    ChainRoots(n, f);
    if n > 0 {
      ChainReach(n, f, 0);
      TimesIsProduct(n, f);
    }
  }

  // ----- The worked example of the module docstring -----

  /** The nine-post table of the docstring, in file order. */
  function Example(): seq<Row> {
    [Row(1, Original, 120), Row(2, 1, 60), Row(3, 1, 30), Row(4, 2, 90), Row(5, 3, 40),
     Row(6, 4, 10), Row(7, Original, 240), Row(8, 7, 190), Row(9, 7, 50)]
  }

  /** Every repost in Example has a larger id than the post it reposts. */
  function ExampleHeight(): map<int, nat> {
    map[1 := 9, 2 := 8, 3 := 7, 4 := 6, 5 := 5, 6 := 4, 7 := 3, 8 := 2, 9 := 1]
  }

  /** The reposts of `id` among the first k + 1 rows extend those among the first k. */
  lemma RepostsPrefix(rows: seq<Row>, k: nat, id: int)
    requires k < |rows|
    ensures Reposts(rows[..k + 1], id) ==
      Reposts(rows[..k], id) + (if IsRepost(rows[k]) && rows[k].repostId == id then [rows[k]] else [])
  {
    assert rows[..k + 1] == rows[..k] + [rows[k]];
    RepostsSnoc(rows[..k], rows[k], id);
  }

  lemma RootsPrefix(rows: seq<Row>, k: nat)
    requires k < |rows|
    ensures Roots(rows[..k + 1]) == Roots(rows[..k]) + (if IsRepost(rows[k]) then [] else [rows[k]])
  {
    assert rows[..k + 1] == rows[..k] + [rows[k]];
    RootsSnoc(rows[..k], rows[k]);
  }

  /** The reposts of `id` in Example, built up one row at a time. */
  lemma ExampleReposts(id: int)
    ensures Reposts(Example(), id) ==
      if id == 1 then [Row(2, 1, 60), Row(3, 1, 30)]
      else if id == 2 then [Row(4, 2, 90)]
      else if id == 3 then [Row(5, 3, 40)]
      else if id == 4 then [Row(6, 4, 10)]
      else if id == 7 then [Row(8, 7, 190), Row(9, 7, 50)]
      else []
  {
    var t := Example();
    assert t[..0] == [];
    RepostsPrefix(t, 0, id);
    RepostsPrefix(t, 1, id);
    RepostsPrefix(t, 2, id);
    RepostsPrefix(t, 3, id);
    RepostsPrefix(t, 4, id);
    RepostsPrefix(t, 5, id);
    RepostsPrefix(t, 6, id);
    RepostsPrefix(t, 7, id);
    RepostsPrefix(t, 8, id);
    assert t[..9] == t;
  }

  lemma ExampleRoots()
    ensures Roots(Example()) == [Row(1, Original, 120), Row(7, Original, 240)]
  {
    var t := Example();
    assert t[..0] == [];
    RootsPrefix(t, 0);
    RootsPrefix(t, 1);
    RootsPrefix(t, 2);
    RootsPrefix(t, 3);
    RootsPrefix(t, 4);
    RootsPrefix(t, 5);
    RootsPrefix(t, 6);
    RootsPrefix(t, 7);
    RootsPrefix(t, 8);
    assert t[..9] == t;
  }

  /** The reach of a post reposted twice is its followers plus both reposts' reaches. */
  lemma ReachOfTwoReposts(rows: seq<Row>, height: map<int, nat>, x: Row, c: Row, d: Row)
    requires Ranked(rows, height) && x in rows
    requires Reposts(rows, x.postId) == [c, d]
    ensures c in rows && d in rows
    ensures Reach(rows, height, x) == x.followers + Reach(rows, height, c) + Reach(rows, height, d)
  {
    assert c in Reposts(rows, x.postId) && d in Reposts(rows, x.postId);
    assert [c, d][..1] == [c] && [c][..0] == [];
    var bound := height[x.postId];
    assert ReachSum(rows, height, [c, d], bound) == ReachSum(rows, height, [c], bound) + Reach(rows, height, d);
    assert ReachSum(rows, height, [c], bound) == ReachSum(rows, height, [], bound) + Reach(rows, height, c);
  }

  lemma ExampleRanked()
    ensures Ranked(Example(), ExampleHeight())
  {
    var t, h := Example(), ExampleHeight();
    forall r | r in t
      ensures r.postId in h && (IsRepost(r) ==> r.repostId in h && h[r.postId] < h[r.repostId])
    {
      var i :| 0 <= i < |t| && t[i] == r;
      assert 1 <= r.postId <= 9 && h[r.postId] == 10 - r.postId;
      assert IsRepost(r) ==> 1 <= r.repostId < r.postId && h[r.repostId] == 10 - r.repostId;
    }
  }

  /** Post 1 reaches its 120 followers, 60 + 90 + 10 through post 2 and 30 + 40
      through post 3. */
  lemma ExampleReachOne()
    ensures Ranked(Example(), ExampleHeight()) && Row(1, Original, 120) in Example()
    ensures Reach(Example(), ExampleHeight(), Row(1, Original, 120)) == 350
  {
    var t, h := Example(), ExampleHeight();
    ExampleRanked();
    ExampleReposts(1);
    ExampleReposts(2);
    ExampleReposts(3);
    ExampleReposts(4);
    ExampleReposts(5);
    ExampleReposts(6);
    ReachOfLeaf(t, h, Row(5, 3, 40));
    ReachOfLeaf(t, h, Row(6, 4, 10));
    ReachOfSingleRepost(t, h, Row(4, 2, 90), Row(6, 4, 10));
    ReachOfSingleRepost(t, h, Row(3, 1, 30), Row(5, 3, 40));
    ReachOfSingleRepost(t, h, Row(2, 1, 60), Row(4, 2, 90));
    ReachOfTwoReposts(t, h, Row(1, Original, 120), Row(2, 1, 60), Row(3, 1, 30));
  }

  /** Post 7 reaches its 240 followers plus 190 and 50 through posts 8 and 9. */
  lemma ExampleReachSeven()
    ensures Ranked(Example(), ExampleHeight()) && Row(7, Original, 240) in Example()
    ensures Reach(Example(), ExampleHeight(), Row(7, Original, 240)) == 480
  {
    var t, h := Example(), ExampleHeight();
    ExampleRanked();
    ExampleReposts(7);
    ExampleReposts(8);
    ExampleReposts(9);
    ReachOfLeaf(t, h, Row(8, 7, 190));
    ReachOfLeaf(t, h, Row(9, 7, 50));
    ReachOfTwoReposts(t, h, Row(7, Original, 240), Row(8, 7, 190), Row(9, 7, 50));
  }

  /** The docstring's table reports post 1 with reach 350 and post 7 with reach
      480, in that order. */
  lemma ExampleReport()
    ensures Ranked(Example(), ExampleHeight())
    ensures Report(Example(), ExampleHeight()) == [(1, 350), (7, 480)]
  {
    var t, h := Example(), ExampleHeight();
    var one, seven := Row(1, Original, 120), Row(7, Original, 240);
    ExampleRoots();
    ExampleReachOne();
    ExampleReachSeven();
    assert Report(t, h) == Pairs(t, h, [one, seven]);
    PairsOfTwo(t, h, one, seven);
  }

  lemma PairsOfTwo(rows: seq<Row>, height: map<int, nat>, x: Row, y: Row)
    requires Ranked(rows, height) && x in rows && y in rows
    ensures Pairs(rows, height, [x, y]) == [(x.postId, Reach(rows, height, x)), (y.postId, Reach(rows, height, y))]
  {
  }

  // ----- Conservation: the roots' reaches add up to all followers -----

  lemma {:induction false} TimesIsProduct(n: nat, r: int)
    ensures Times(n, r) == n * r
  {
    if n > 0 {
      TimesIsProduct(n - 1, r);
      assert n * r == (n - 1) * r + r;
    }
  }

  function TotalFollowers(xs: seq<Row>): int {
    if xs == [] then 0 else TotalFollowers(xs[..|xs| - 1]) + xs[|xs| - 1].followers
  }

  function ReportTotal(report: seq<(int, int)>): int {
    if report == [] then 0 else ReportTotal(report[..|report| - 1]) + report[|report| - 1].1
  }

  /** The reach of `r` as a total function: 0 outside the table. */
  function ReachOrZero(rows: seq<Row>, height: map<int, nat>, r: Row): int {
    if Ranked(rows, height) && r in rows then Reach(rows, height, r) else 0
  }

  /** `g` summed over `xs`. */
  function SumOf(g: Row -> int, xs: seq<Row>): int {
    if xs == [] then 0 else SumOf(g, xs[..|xs| - 1]) + g(xs[|xs| - 1])
  }

  lemma SumOfSnoc(g: Row -> int, xs: seq<Row>, c: Row)
    ensures SumOf(g, xs + [c]) == SumOf(g, xs) + g(c)
  {
    assert (xs + [c])[..|xs|] == xs;
  }

  /** How many rows of `xs` carry the id `id`. */
  function Count(xs: seq<Row>, id: int): nat {
    if xs == [] then 0
    else Count(xs[..|xs| - 1], id) + (if xs[|xs| - 1].postId == id then 1 else 0)
  }

  /** `n` copies of `r` added up. */
  function Times(n: nat, r: int): int {
    if n == 0 then 0 else Times(n - 1, r) + r
  }

  /** `g` summed over the reposts of each row of `xs`, counting only the reposts in `cs`. */
  function ChildSum(g: Row -> int, xs: seq<Row>, cs: seq<Row>): int {
    if xs == [] then 0
    else ChildSum(g, xs[..|xs| - 1], cs) + SumOf(g, Reposts(cs, xs[|xs| - 1].postId))
  }

  /** The same sum taken the other way round: `g` of each repost of `cs`, once for
      every row of `xs` that it reposts. */
  function Weighted(g: Row -> int, xs: seq<Row>, cs: seq<Row>): int {
    if cs == [] then 0
    else
      var c := cs[|cs| - 1];
      Weighted(g, xs, cs[..|cs| - 1]) + (if IsRepost(c) then Times(Count(xs, c.repostId), g(c)) else 0)
  }

  lemma {:induction false} ChildSumNone(g: Row -> int, xs: seq<Row>)
    ensures ChildSum(g, xs, []) == 0
  {
    if xs != [] {
      ChildSumNone(g, xs[..|xs| - 1]);
    }
  }

  lemma RootsSnoc(cs: seq<Row>, c: Row)
    ensures Roots(cs + [c]) == Roots(cs) + (if IsRepost(c) then [] else [c])
  {
    assert (cs + [c])[..|cs|] == cs;
  }

  lemma RepostsSnoc(cs: seq<Row>, c: Row, id: int)
    ensures Reposts(cs + [c], id) == Reposts(cs, id) + (if IsRepost(c) && c.repostId == id then [c] else [])
  {
    assert (cs + [c])[..|cs|] == cs;
  }

  /** Adding the repost `c` to `cs` adds `g(c)` once for every row of `xs` it reposts. */
  lemma {:induction false} ChildSumSnoc(g: Row -> int, xs: seq<Row>, cs: seq<Row>, c: Row)
    ensures ChildSum(g, xs, cs + [c]) ==
      ChildSum(g, xs, cs) + (if IsRepost(c) then Times(Count(xs, c.repostId), g(c)) else 0)
  {
    if xs != [] {
      var init, x := xs[..|xs| - 1], xs[|xs| - 1];
      ChildSumSnoc(g, init, cs, c);
      RepostsSnoc(cs, c, x.postId);
      var n := Count(init, c.repostId);
      if IsRepost(c) && c.repostId == x.postId {
        assert Reposts(cs + [c], x.postId) == Reposts(cs, x.postId) + [c];
        SumOfSnoc(g, Reposts(cs, x.postId), c);
        assert Count(xs, c.repostId) == n + 1;
        assert Times(n + 1, g(c)) == Times(n, g(c)) + g(c);
      } else {
        assert Reposts(cs + [c], x.postId) == Reposts(cs, x.postId);
        assert IsRepost(c) ==> Count(xs, c.repostId) == n;
      }
    }
  }

  lemma {:induction false} ChildSumWeighted(g: Row -> int, xs: seq<Row>, cs: seq<Row>)
    ensures ChildSum(g, xs, cs) == Weighted(g, xs, cs)
  {
    if cs == [] {
      ChildSumNone(g, xs);
    } else {
      var init, c := cs[..|cs| - 1], cs[|cs| - 1];
      ChildSumWeighted(g, xs, init);
      assert cs == init + [c];
      ChildSumSnoc(g, xs, init, c);
    }
  }

  lemma {:induction false} CountAbsent(xs: seq<Row>, id: int)
    requires forall t :: t in xs ==> t.postId != id
    ensures Count(xs, id) == 0
  {
    if xs != [] {
      CountAbsent(xs[..|xs| - 1], id);
    }
  }

  lemma {:induction false} CountUnique(xs: seq<Row>, t: Row)
    requires UniqueIds(xs) && t in xs
    ensures Count(xs, t.postId) == 1
  {
    var init, last := xs[..|xs| - 1], xs[|xs| - 1];
    assert UniqueIds(init);
    if last.postId == t.postId {
      forall u | u in init
        ensures u.postId != t.postId
      {
        var i :| 0 <= i < |init| && init[i] == u;
        assert xs[i] == u;
      }
      CountAbsent(init, t.postId);
    } else {
      assert xs == init + [last];
      CountUnique(init, t);
    }
  }

  /** In a resolved table with unique ids every repost is counted once, so the
      weighted sum is `g` of the reposts alone. */
  lemma {:induction false} WeightedReposts(g: Row -> int, rows: seq<Row>, cs: seq<Row>)
    requires UniqueIds(rows) && Resolved(rows)
    requires forall c :: c in cs ==> c in rows
    ensures Weighted(g, rows, cs) + SumOf(g, Roots(cs)) == SumOf(g, cs)
  {
    if cs != [] {
      var init, c := cs[..|cs| - 1], cs[|cs| - 1];
      WeightedReposts(g, rows, init);
      assert cs == init + [c];
      SumOfSnoc(g, init, c);
      RootsSnoc(init, c);
      if IsRepost(c) {
        var t :| t in rows && t.postId == c.repostId;
        CountUnique(rows, t);
        assert Times(1, g(c)) == g(c);
        assert Weighted(g, rows, cs) == Weighted(g, rows, init) + g(c);
        assert Roots(cs) == Roots(init);
      } else {
        SumOfSnoc(g, Roots(init), c);
        assert Weighted(g, rows, cs) == Weighted(g, rows, init);
      }
    }
  }

  lemma {:induction false} ReachSumIsSum(rows: seq<Row>, height: map<int, nat>, cs: seq<Row>, bound: nat)
    requires Ranked(rows, height)
    requires forall c :: c in cs ==> c in rows && c.postId in height && height[c.postId] < bound
    ensures ReachSum(rows, height, cs, bound) == SumOf(r => ReachOrZero(rows, height, r), cs)
  {
    if cs != [] {
      ReachSumIsSum(rows, height, cs[..|cs| - 1], bound);
    }
  }

  /** Unfolding Reach once over the rows `xs`. */
  lemma {:induction false} ReachUnfold(rows: seq<Row>, height: map<int, nat>, xs: seq<Row>)
    requires Ranked(rows, height)
    requires forall x :: x in xs ==> x in rows
    ensures SumOf(r => ReachOrZero(rows, height, r), xs) ==
      TotalFollowers(xs) + ChildSum(r => ReachOrZero(rows, height, r), xs, rows)
  {
    if xs != [] {
      var x := xs[|xs| - 1];
      ReachUnfold(rows, height, xs[..|xs| - 1]);
      ReachSumIsSum(rows, height, Reposts(rows, x.postId), height[x.postId]);
    }
  }

  lemma {:induction false} PairsTotal(rows: seq<Row>, height: map<int, nat>, xs: seq<Row>)
    requires Ranked(rows, height)
    requires forall x :: x in xs ==> x in rows
    ensures ReportTotal(Pairs(rows, height, xs)) == SumOf(r => ReachOrZero(rows, height, r), xs)
  {
    if xs != [] {
      var init := xs[..|xs| - 1];
      assert Pairs(rows, height, xs)[..|xs| - 1] == Pairs(rows, height, init);
      PairsTotal(rows, height, init);
    }
  }

  /** The reported reaches add up to the followers of the whole table: each post
      is counted under exactly one original. */
  lemma ReportConservesFollowers(rows: seq<Row>, height: map<int, nat>)
    requires Ranked(rows, height) && UniqueIds(rows) && Resolved(rows)
    ensures ReportTotal(Report(rows, height)) == TotalFollowers(rows)
  {
    var g := r => ReachOrZero(rows, height, r);
    ReachUnfold(rows, height, rows);
    ChildSumWeighted(g, rows, rows);
    WeightedReposts(g, rows, rows);
    PairsTotal(rows, height, Roots(rows));
  }

  lemma {:induction false} SumOfAtLeast(g: Row -> int, xs: seq<Row>, i: nat)
    requires forall x :: x in xs ==> g(x) >= 0
    requires i < |xs|
    ensures g(xs[i]) <= SumOf(g, xs)
  {
    var init := xs[..|xs| - 1];
    if i < |xs| - 1 {
      assert xs[i] == init[i];
      SumOfAtLeast(g, init, i);
    } else {
      SumOfNonNegative(g, init);
    }
  }

  lemma {:induction false} SumOfNonNegative(g: Row -> int, xs: seq<Row>)
    requires forall x :: x in xs ==> g(x) >= 0
    ensures SumOf(g, xs) >= 0
  {
    if xs != [] {
      SumOfNonNegative(g, xs[..|xs| - 1]);
    }
  }

  /** With non-negative follower counts no original reaches more viewers than the
      table has followers in all. */
  lemma ReportBoundedByTotal(rows: seq<Row>, height: map<int, nat>)
    requires Ranked(rows, height) && UniqueIds(rows) && Resolved(rows) && NonNegative(rows)
    ensures forall i :: 0 <= i < |Report(rows, height)| ==> Report(rows, height)[i].1 <= TotalFollowers(rows)
  {
    var roots := Roots(rows);
    var g := r => ReachOrZero(rows, height, r);
    ReportConservesFollowers(rows, height);
    PairsTotal(rows, height, roots);
    forall x | x in roots
      ensures g(x) >= 0
    {
      ReachAtLeastFollowers(rows, height, x);
    }
    forall i | 0 <= i < |roots|
      ensures Report(rows, height)[i].1 <= TotalFollowers(rows)
    {
      SumOfAtLeast(g, roots, i);
    }
  }
}
