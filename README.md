# Repost reach and array diff, modelled in Dafny

This project models two small programs. Both are coding-test answers.

- **Social network analysis** (`social_network_analysis.py`). A table holds
  posts. Each post has an id, the id of the post it reposts (`-1` for an
  original) and its poster's follower count. `sumFollowers` does one linking
  pass over the id-keyed table: it appends every repost to the `reposters` of
  the post it reposts and collects the originals. It then reports, for each
  original, `num_followers`: the post's own followers plus, recursively, what
  its reposters reach.
- **Array diff** (`array_diff.py`). `array_diff(current, target)` returns the
  additions, `set(target) - set(current)`, and the deletions,
  `set(current) - set(target)`, each as a list.

The model has three modules:

- `ArrayDiff` (`array_diff.dfy`). The set difference as pure functions over
  `seq<int>`, with its algebra.
- `RepostTable` (`repost_table.dfy`). The table as a value: a sequence of
  `Row`s.
  - It defines the reach of a post and the report, as pure functions.
  - It proves the report facts: which ids are reported, the all-original and
    chain cases, and conservation of followers.
- `SocialNetwork` (`social_network.dfy`). The program's own imperative form.
  - `class Post` has `const` id fields and a mutable `reposters` sequence.
  - `AddReposter` is a method with `modifies this`.
  - `NumFollowers` is a recursive method that loops over `reposters`.
  - `SumFollowers` is a method that mutates the posts of the table through
    `modifies allPosts.Values`.
  - Lemmas show that, once linked, the objects compute exactly the reaches
    and the report that `RepostTable` defines. Every table-level property
    therefore carries over to the method's result.

Python's dict is modelled as a `map<int, Post>` plus the sequence `keys` of
its keys in insertion order, which is the dict's iteration order. The model
requires the whole table to be acyclic. The caller witnesses this with a ghost
`height` map in which every repost sits strictly below the post it reposts.
The height is the termination measure of the recursive reach, and
`ReachHeightIrrelevant` shows the reach does not depend on which witness is
chosen.

## Model

| member | source | states |
|---|---|---|
| SocialNetwork.Post.constructor | social_network_analysis.py:41-46 | A new post carries the given id, repost id and follower count, with no reposters. |
| SocialNetwork.Post.AddReposter | social_network_analysis.py:48-49 | `reposters` becomes its old value with exactly one element, the new repost, appended at the end. No other object or field changes. |
| SocialNetwork.Post.NumFollowers | social_network_analysis.py:51-55 | The loop's total is the post's followers plus the reach of each reposter in list order. This is `PostReach` of the current heap; `ReachAgrees` equates it with the table reach. |
| SocialNetwork.SumFollowers | social_network_analysis.py:61-69 | The outcome is a report exactly when no post reposts a missing id; otherwise raises KeyError on the first such repost, in key order. Each post's `reposters` becomes the reposts processed before that point, in key order. A report equals `RepostTable.Report` of the table: one `(id, reach)` pair per original, in key order. |
| SocialNetwork.Link | social_network_analysis.py:63-68 | The loop stops at the first repost of a missing post, or runs through all keys. Every post's `reposters` is its reposts, in table order, among the posts processed. `originals` is the original posts among them, in order. |
| SocialNetwork.ReportOriginals | social_network_analysis.py:69 | Over the fully linked table, the list comprehension's pairs are the table's report. |
| SocialNetwork.ReportReaches | social_network_analysis.py:69 | One pair per original, in order: its id with its `num_followers`. |
| SocialNetwork.PostReach | social_network_analysis.py:51-55 | Defines `num_followers` over the heap: a post's followers plus the reach of each post in its `reposters` list, in list order. It is a definition without its own contract; `NumFollowers` is proved to compute it and `ReachAgrees` equates it with `RepostTable.Reach`. |
| SocialNetwork.Dangling | social_network_analysis.py:65-66 | Defines when the lookup `allPosts[post.repostId]` raises KeyError: the post is a repost and the id it reposts is not a key. It is a definition without its own contract; `LinkedPrefix` and `SumFollowers` state where it stops the pass. |
| SocialNetwork.LinkedReposters | social_network_analysis.py:64-66 | Every post it lists reposts `id`. Every post of the table that reposts `id` (repost id not -1) is listed, so after linking each repost is in the `reposters` of the post it reposts. |
| SocialNetwork.OriginalPosts | social_network_analysis.py:67-68 | Only posts with repost id -1 are collected into `originalPosts`. |
| SocialNetwork.LinkedPrefix | social_network_analysis.py:64-66 | The posts before the returned index all resolve. The post at the index, if any, reposts an id that is not a key, so the lookup raises KeyError there. |
| SocialNetwork.LinkedIsWellLinked | social_network_analysis.py:51-66 | Linking an acyclic table gives acyclic `reposters` lists, so `num_followers` terminates. |
| SocialNetwork.ReachAgrees | social_network_analysis.py:51-55 | In the linked state, `num_followers` of a post equals `RepostTable.Reach` of its row. |
| SocialNetwork.SumAgrees | social_network_analysis.py:53-54 | The loop sum over a reposters list equals the sum of the table reaches of their rows. |
| SocialNetwork.RowsOfLinked | social_network_analysis.py:64-66 | The reposters the pass links to a post are the table's reposts of it, in table order. |
| SocialNetwork.RowsOfOriginals | social_network_analysis.py:62-68 | The originals the pass collects are the table's original rows, in table order. |
| SocialNetwork.ReportMatches | social_network_analysis.py:69 | Pairing each original with its object-level reach yields the table's report. |
| SocialNetwork.ReportOfOriginals | social_network_analysis.py:69 | The table's report has one entry per collected original, in order, with its id and reach. |
| SocialNetwork.TableWellFormed | social_network_analysis.py:61-66 | A table keyed by each post's own id has unique ids. If no repost dangles, every repost names a row of the table, so the table-level lemmas apply to the result of `SumFollowers`. |
| SocialNetwork.LinkedNoneDangling | social_network_analysis.py:64-66 | A pass that got through every key met no repost of a missing post. |
| RepostTable.Reach | social_network_analysis.py:51-55 | Defines the reach of a post: its followers plus the reach of every row that reposts it, in table order. It is a definition without its own contract; `ReachAgrees` ties it to `num_followers`, and `ReachAtLeastFollowers`, `ReachOfLeaf` and `ReachOfSingleRepost` state its properties. |
| RepostTable.Report | social_network_analysis.py:69 | Defines the result of `sumFollowers`: `(id, reach)` for each original row, in table order. It is a definition without its own contract; `ReportIds`, `ReportConservesFollowers`, `ReportBoundedByTotal` and `ExampleReport` state its properties. |
| RepostTable.Reposts | social_network_analysis.py:64-66 | A row is listed exactly when it is a repost of `id`. |
| RepostTable.Roots | social_network_analysis.py:67-68 | A row is listed exactly when it is an original post. |
| RepostTable.ReachAtLeastFollowers | social_network_analysis.py:51-55 | With non-negative follower counts, a post's reach is at least its own followers, which are at least 0. |
| RepostTable.ReachHeightIrrelevant | social_network_analysis.py:51-55 | The reach is the same under any two acyclicity witnesses. |
| RepostTable.ReportIds | social_network_analysis.py:61-69 | With unique ids, a row's id appears in the report exactly when the row is original. No id is reported twice. |
| RepostTable.AllOriginal | social_network_analysis.py:98-105 | When no post is a repost, the report lists every post in table order with its own followers. |
| RepostTable.ChainReach | social_network_analysis.py:107-129 | In the chain of n posts, each reposting its predecessor with f followers, post k reaches (n - k) copies of f. |
| RepostTable.ChainReport | social_network_analysis.py:107-129 | The chain's report is the single pair `(0, n * f)`; an empty chain reports nothing. |
| RepostTable.ChainReposts | social_network_analysis.py:107-129 | In the chain, post k is reposted only by post k + 1. |
| RepostTable.ChainRoots | social_network_analysis.py:107-129 | In the chain, post 0 is the only original. |
| RepostTable.ReachOfLeaf | social_network_analysis.py:51-55 | A post nobody reposts reaches its own followers. |
| RepostTable.ReachOfSingleRepost | social_network_analysis.py:51-55 | A post reposted once reaches its followers plus that repost's reach. |
| RepostTable.ReportConservesFollowers | social_network_analysis.py:131-144 | For an acyclic table with unique ids in which every repost names a post of the table, the reported reaches add up to the total followers of all posts. |
| RepostTable.ReportBoundedByTotal | social_network_analysis.py:131-144 | With non-negative counts, no original reaches more than the total followers of all posts. |
| RepostTable.ReachOfTwoReposts | social_network_analysis.py:51-55 | A post reposted twice reaches its followers plus both reposts' reaches. |
| RepostTable.ExampleReachOne | social_network_analysis.py:12-21 | In the docstring's nine-post table, post 1 reaches 350 viewers. |
| RepostTable.ExampleReachSeven | social_network_analysis.py:12-21 | In the docstring's nine-post table, post 7 reaches 480 viewers. |
| RepostTable.ExampleReport | social_network_analysis.py:146-149 | The docstring's nine-post table reports exactly `(1, 350)` and then `(7, 480)`, the output the docstring promises and the provided test asserts. |
| RepostTable.ReachUnfold | social_network_analysis.py:51-55 | The summed reach of some rows is their followers plus the summed reach of all their reposts. |
| RepostTable.ChildSumWeighted | social_network_analysis.py:51-55 | Summing over each row's reposts equals summing over the reposts, each weighted by how many rows carry the id it reposts. |
| RepostTable.WeightedReposts | social_network_analysis.py:64-68 | With unique, resolved ids, each repost is counted once, so reposts plus originals give every row exactly once. |
| RepostTable.CountUnique | social_network_analysis.py:64-66 | In a table with unique ids, a present id occurs exactly once. |
| RepostTable.PairsTotal | social_network_analysis.py:69 | The reaches in the report add up to the summed reach of the originals. |
| RepostTable.TimesIsProduct | social_network_analysis.py:128 | n copies of r add up to n * r. |
| ArrayDiff.Elements | array_diff.py:50-51 | `set(xs)` holds exactly the values occurring in `xs`. |
| ArrayDiff.Distinct | array_diff.py:50-51 | `list(set(xs) - excluded)` holds exactly the values of `xs` outside `excluded`, with no duplicates. |
| ArrayDiff.Diff | array_diff.py:49-52 | Additions are exactly the values in target and not in current. Deletions are exactly the values in current and not in target. Neither list has duplicates, and the two share no element. The set of current, plus the additions, minus the deletions, is the set of target. |
| ArrayDiff.FullAddition | array_diff.py:75-79 | From an empty current, the additions are a permutation of a duplicate-free target, and the deletions are empty. |
| ArrayDiff.FullDeletion | array_diff.py:81-85 | To an empty target, the additions are empty, and the deletions are a permutation of a duplicate-free current. |
| ArrayDiff.NothingToAdd | array_diff.py:87-93 | When every target value is in current, the additions are empty. |
| ArrayDiff.NothingToDelete | array_diff.py:95-101 | When every current value is in target, the deletions are empty. |
| ArrayDiff.ProvidedAdditions | array_diff.py:57-66 | For current [1,3,5,6,8,9] and target [1,2,5,7,9], the additions are exactly {2, 7}. |
| ArrayDiff.ProvidedDeletions | array_diff.py:57-66 | For the same lists, the deletions are exactly {3, 6, 8}. |
| ArrayDiff.SameElementsPermutation | array_diff.py:75-85 | Two duplicate-free lists with the same values are permutations of each other. |

## Left out

- `performAnalysis`, which reads the CSV file with `csv.DictReader`: file I/O. `SumFollowers` takes the table it would build.
- `splitConvertLiteral`: a call into Python's `ast.literal_eval`. Ids and follower counts are plain integers in the model.
- The string formatting `"<id> : <reach>"` of the result: the report is a sequence of `(id, reach)` pairs. `ExampleReport` states the pairs behind `1 : 350` and `7 : 480`, not the strings.
- The unittest harness and the `random` test generator. Their checks appear as lemmas: `AllOriginal`, `ChainReport`, `ReportBoundedByTotal`, `ExampleReport`, and the `ArrayDiff` lemmas.
- The commented-out naive versions of `array_diff`: they are string literals, not code.
- SumFollowers: the table must be keyed by each post's own id, as `performAnalysis` builds it.
  - This rules out two keys sharing one `Post` object.
  - Every post must start with no reposters, as the constructor leaves it. Called twice, the source would link each repost twice.
- SumFollowers: the whole table must be acyclic, witnessed by the ghost `height`.
  - This excludes tables with a repost cycle that no original reaches, such as `{1: Post(1, 2, 10), 2: Post(2, 1, 10), 3: Post(3, -1, 5)}`. The source handles such a table: it reports `3 : 5`, and the cycle's followers count towards no reach.
  - In an id-keyed table of fresh posts, no cycle can be reached from an original, since posts with repost id -1 are never appended as reposters. So the source's recursion always ends.
  - The source's one recursion failure is Python's recursion limit, about 1000 frames, on a deep acyclic chain. The model does not capture it.
- SumFollowers: on KeyError, the linking loop (`Link`) stops at the offending post and `SumFollowers` then returns the error. The source raises inside the loop. The posts are left in the same state.
- Post: `postId`, `repostId` and `followers` are `const`. The source never assigns them after `__init__`.
- Iteration order of Python sets: `Distinct` keeps first occurrences in list order, and no `ArrayDiff` contract depends on that order. The dict order used by `SumFollowers` is insertion order, as in Python 3.7 and later.
- FullAddition and FullDeletion: state a permutation, not the list equality `additions == target` that the tests assert. That equality relies on CPython enumerating sets of small integers in ascending order.
- Integers are unbounded, like Python's.
