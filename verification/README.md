# Graphs: directed graphs, a social network and a family tree in Dafny

This project models the three small graph programs of the Graphs
repository and proves what their documentation promises about them.

- `Graphs` (graph.dfy) models the class `Graph` of
  `projects/graph/graph.py`. It is a directed graph stored as a map from
  each vertex to the set of its out-neighbours. It can add vertices and
  edges and look up neighbours. It has six traversals:
  - breadth-first and depth-first traversals (`bft`, `dft`,
    `dft_recursive`), which list vertices;
  - breadth-first and depth-first searches (`bfs`, `dfs`,
    `dfs_recursive`), which look for a destination vertex.
- `Social` (social.dfy) models the class `SocialGraph` of
  `projects/social/social.py`:
  - users with sequential ids and two-way friendships;
  - `populate_graph`, which creates n users and takes the first
    `avg * n // 2` pairs of a shuffled list of every possible friendship;
  - `get_all_social_paths`, which maps every user in one user's extended
    network to a shortest friendship path from that user.
- `Ancestry` (ancestor.dfy) models `earliest_ancestor` of
  `projects/ancestor/ancestor.py`. It takes a family tree given as
  (parent, child) pairs and returns the lowest-id member of the most
  distant generation of ancestors, or -1 when the person has no parents.
- `Reach` (reach.dfy) holds the shared graph theory:
  - walks and reachability;
  - breadth-first layers (`Within`): the vertices within n edges of a start;
  - shortest walks.
- `Seqs` (seqs.dfy) holds list facts: distinct lists and their item sets.
- `Wrappers` (wrappers.dfy) holds `Option` and `Result`.

The two classes keep their state in fields that the methods update, as
the Python objects do. The traversal loops are `while` loops. Each loop
carries the invariant that explains why the traversal is correct.

The state of each traversal is modelled as follows:
- The queue and stack of the traversals are sequences.
- The colour dictionaries are maps to `White`, `Gray` or `Black`.
- The traversal's output list is a sequence. The Python code prints that
  list; the model returns it.

Python raises `KeyError` (or `Exception` in `add_edge`) when it looks up a
vertex or user that has no entry. The model returns an `Err` for each of
those cases, with the same conditions as the code.

Python iterates sets in an order the program does not control, and
dictionaries in the order their keys were inserted. The model treats both
as arbitrary: each such iteration picks any next element
(`var x :| x in S`). Every contract therefore holds for every iteration
order, the insertion order of a dictionary included.

## Model

| member | source | states |
|---|---|---|
| Graphs.Graph.constructor | projects/graph/graph.py:12-13 | a new graph has no vertices |
| Graphs.Graph.AddVertex | projects/graph/graph.py:15-19 | the vertex is present with no out-edges, even if it was present before; no other vertex changes |
| Graphs.Graph.AddEdge | projects/graph/graph.py:21-30 | fails naming v1 when v1 is absent, else naming v2 when v2 is absent, and the graph is unchanged; otherwise exactly v2 is added to v1's out-neighbours |
| Graphs.Graph.GetNeighbors | projects/graph/graph.py:32-36 | fails exactly when the vertex is absent; otherwise yields its out-neighbours, all of which are vertices |
| Graphs.AllWhite | projects/graph/graph.py:46-47 | the colour dictionary has an entry for exactly the vertices of the graph, and every entry is white |
| Graphs.Graph.EnqueueWhiteNeighbors | projects/graph/graph.py:57-61 | appends each white out-neighbour of the head once and marks each appended vertex grey; after the call every out-neighbour is listed and the listed vertices stay distinct |
| Graphs.Graph.Bft | projects/graph/graph.py:38-66 | fails exactly when the start is absent; otherwise lists the start first, each vertex once, exactly the vertices reachable from the start, and in breadth-first order: no vertex is listed after one that is strictly closer to the start |
| Graphs.BftComplete | projects/graph/graph.py:54-64 | once the queue is empty, the list holds exactly the vertices the start reaches, in breadth-first order |
| Graphs.Graph.Dft | projects/graph/graph.py:68-97 | fails exactly when the start is absent; otherwise lists the start first, each vertex once, and exactly the vertices reachable from it, in depth-first order: each later vertex is an out-neighbour of an earlier one, and every vertex listed between the two already has all its out-neighbours listed |
| Graphs.PushNeighbors | projects/graph/graph.py:91-93 | the stack keeps its old items below and gains every out-neighbour exactly once on top, and nothing else |
| Graphs.DepthFirstExample | projects/graph/graph.py:68-72 | on the graph 1 -> 2, 1 -> 3, 2 -> 4 the order [1, 2, 4, 3] is depth-first and the breadth-first order [1, 2, 3, 4] is not |
| Graphs.Graph.DftVisit | projects/graph/graph.py:117-129 | appends the visited vertex and then only vertices discovered depth-first within this visit; every appended vertex ends black with all its out-neighbours listed; vertices already grey or black keep their colour |
| Graphs.Graph.DftRecursive | projects/graph/graph.py:99-133 | lists every vertex of the graph exactly once; each listed vertex either is discovered depth-first from an earlier one or starts a new tree after every out-neighbour of the earlier ones is listed |
| Graphs.Graph.Bfs | projects/graph/graph.py:135-154 | fails exactly when the start is absent and differs from the destination; finds a path exactly when the destination is reachable; the path found is a walk from start to destination with no shorter one |
| Graphs.AppendPaths | projects/graph/graph.py:151-154 | the queue keeps its old paths in front and gains exactly one path per out-neighbour: for each out-neighbour, the current path extended by it, and nothing else |
| Reach.ShortestIsMinimal | projects/graph/graph.py:135-140 | a walk that is shortest in the sense of `Bfs` is no longer than any other walk between the same two vertices |
| Reach.ReachableIffWithin | projects/graph/graph.py:141-154 | a vertex is reachable exactly when it lies in some breadth-first layer around the start |
| Graphs.Graph.Dfs | projects/graph/graph.py:156-186 | fails exactly when the start is absent; returns a list exactly when the destination is reachable; that list is the search's visit order: it starts at the start, ends at the destination, repeats no vertex, and is in depth-first order, but it need not be a walk |
| Graphs.DfsVisitOrderNotPath | projects/graph/graph.py:173-184 | on the graph 1 -> 2, 1 -> 3, the list [1, 3, 2] for a search from 1 to 2 is allowed by the contract of `Dfs`, and the source returns it when 3 is popped first; it is not a walk |
| Graphs.Graph.DfsPath | projects/graph/graph.py:156-186 | the search with the intended result: it fails exactly when the start is absent and finds a walk from start to destination exactly when the destination is reachable; the walk repeats no vertex |
| Graphs.Graph.DfsVisit | projects/graph/graph.py:197-211 | a visit marks its vertex visited and fails only on an absent vertex that is not the destination; a result extends the current path by the vertex and is a walk to the destination without repeats; with no result, every newly visited vertex has all its out-neighbours visited and the destination is not visited |
| Graphs.Graph.DfsRecursive | projects/graph/graph.py:188-211 | fails exactly when the start is absent and differs from the destination; finds a path exactly when the destination is reachable; the path is a walk from start to destination without repeats |
| Social.IdsUpTo | projects/social/social.py:28-34 | the ids handed out after n additions are exactly 1 to n |
| Social.Max0 | projects/social/social.py:52 | how many times `range(n)` iterates: n when n is positive and 0 otherwise |
| Social.IdsUpToCount | projects/social/social.py:52-53 | n additions give as many users as `range(n)` has steps |
| Social.SocialGraph.constructor | projects/social/social.py:11-14 | a new network has no users, no friendships and last id 0 |
| Social.SocialGraph.AddUser | projects/social/social.py:28-34 | the new user gets the next id, which was not in use, and has no friends; all other friendships are unchanged; friendship stays two-way and irreflexive |
| Social.SocialGraph.AddFriendship | projects/social/social.py:16-26 | a user and themself give the self warning; otherwise an id without an entry fails, the user id checked first; an existing friendship gives the duplicate warning and changes nothing; otherwise each user is added to the other's friends and nothing else changes |
| Social.ListRow | projects/social/social.py:54-55 | appends the pairs (a, b) for b from a + 1 to n, in that order |
| Social.AllPairsMembers | projects/social/social.py:51-55 | the possible friendships are exactly the pairs (a, b) with 1 <= a < b <= n |
| Social.AllPairsDistinct | projects/social/social.py:51-55 | no possible friendship is listed twice |
| Social.AllPairsCount | projects/social/social.py:51-55 | n users have n * (n - 1) / 2 possible friendships |
| Social.Permute | projects/social/social.py:56 | the shuffled list has the same length, its k-th item is the item the shuffle moved to place k, and it holds the same items as many times each as before |
| Social.RearrangeMultiset | projects/social/social.py:56 | taking the item at each position of a list once, in any order, keeps every item as many times as it occurred |
| Social.SliceStop | projects/social/social.py:64 | the number of items Python's slice `[:stop]` keeps is at most the length, and an index is kept exactly when it lies before `stop`, or before `len + stop` for a negative `stop` |
| Social.ChosenPairs | projects/social/social.py:51-64 | every friendship `populate_graph` takes links two different users with ids from 1 to n |
| Social.ChosenCount | projects/social/social.py:58-64 | the chosen friendships are distinct, as many as the slice keeps, and so `avg * n // 2` of them whenever that many are possible |
| Social.ChosenAll | projects/social/social.py:56-64 | when `avg * n // 2` is at least the number of possible friendships, every pair of users becomes friends, whatever the shuffle |
| Social.FriendsOfSymmetric | projects/social/social.py:16-26 | friendships formed from pairs a < b are two-way and never link a user to themself |
| Social.SocialGraph.BefriendAll | projects/social/social.py:64-65 | starting with no friendships, adding the chosen pairs in order leaves each user's friends exactly their partners in those pairs |
| Social.SocialGraph.PopulateGraph | projects/social/social.py:36-65 | resets the network to users 1 to n, n of them, and each user's friends are exactly their partners among the first `avg * n // 2` pairs of the shuffled possible friendships |
| Social.RecordFriends | projects/social/social.py:85-87 | each friend not yet recorded gets the user's path extended by that friend; recorded paths do not change |
| Social.SocialGraph.ExpandRound | projects/social/social.py:81-88 | one pass over the remaining users moves the search from the users within r friendships to those within r + 1, keeps every recorded path shortest, and finishes at least one more user |
| Social.RoundShrinks | projects/social/social.py:80-88 | each round finishes a user that was not finished, so the loop ends |
| Social.SocialComplete | projects/social/social.py:80-90 | when no user remains, the recorded users are exactly the extended network |
| Social.SocialGraph.GetAllSocialPaths | projects/social/social.py:67-90 | fails exactly when the user has no entry; otherwise maps exactly the users reachable from them, each to a shortest friendship path from them |
| Ancestry.Relationships | projects/ancestor/ancestor.py:4-12 | builds the map from every person mentioned to the set of their parents |
| Ancestry.ParentMapPairs | projects/ancestor/ancestor.py:4-12 | p is listed as a parent of c exactly when the pair (p, c) is in the input |
| Ancestry.ParentMapClosed | projects/ancestor/ancestor.py:8-11 | every parent has an entry of their own |
| Ancestry.NextGeneration | projects/ancestor/ancestor.py:16-20 | the next generation is exactly the set of parents of the previous one |
| Ancestry.AddEach | projects/ancestor/ancestor.py:19-20 | adds every parent of a member to the next generation |
| Ancestry.GenerationWalk | projects/ancestor/ancestor.py:14-22 | generation n holds exactly the people reached by n child-to-parent steps |
| Ancestry.GenerationBound | projects/ancestor/ancestor.py:15-22 | when no line of ancestry from the person repeats anyone, a non-empty generation n has n below the number of people, so the loop ends |
| Ancestry.MinOf | projects/ancestor/ancestor.py:23-26 | the least id of a non-empty generation |
| Ancestry.StartNotLater | projects/ancestor/ancestor.py:23-24 | when no line of ancestry from the person repeats anyone, the person is in no generation after their own |
| Ancestry.AncestryOutcome | projects/ancestor/ancestor.py:21-26 | in the last non-empty generation, the least id is the person exactly when they have no parents, and otherwise it is an earliest ancestor |
| Ancestry.EarliestAncestor | projects/ancestor/ancestor.py:2-26 | for a person none of whose lines of ancestry repeats anyone: fails exactly when no pair mentions the person; returns -1 when they have no parents, and otherwise the lowest id of their most distant generation of ancestors |
| Ancestry.EarliestIsMostDistant | projects/ancestor/ancestor.py:14-26 | an earliest ancestor is a true ancestor, and no line of ancestry from the person has more generations than theirs |
| Ancestry.CycleNeverEnds | projects/ancestor/ancestor.py:14-22 | when a line of ancestry from the person repeats someone, every generation is non-empty, so the `while True` loop never ends |
| Ancestry.CycleElsewhereExample | projects/ancestor/ancestor.py:2-26 | the pairs [(1, 2), (3, 4), (4, 3)] hold the cycle 3 -> 4 -> 3, yet no line of ancestry from 2 repeats anyone, so `EarliestAncestor` accepts a search from 2 |

## Left out

- Printing is not modelled. `bft`, `dft` and `dft_recursive` print
  their list; `Bft`, `Dft` and `DftRecursive` return it. The warnings of
  `add_friendship` are the outcomes `SelfFriendship` and `AlreadyFriends`.
  The demonstrations under `__main__` are left out.
- `Stack` and `Queue` come from `util`, which is not part of this model.
  They are modelled as sequences with pop and enqueue.
- `random.shuffle` becomes the parameter `order` of `PopulateGraph`. It
  says which original position lands at each place. The model does not
  capture randomness or the uniform distribution of orders.
- The script's use of `statistics.mean` is left out.
- `User` objects and their names are left out. `users` keeps only the ids.
- The parent dictionaries that `dft`, `dft_recursive` and `dfs` fill in
  are never read, so they are left out.
- Graphs.Graph.DftRecursive: it has no `starting_vertex` parameter. The
  source ignores that argument and visits from every vertex in the
  dictionary's insertion order; the model allows any order.
- Graphs.Graph.DftVisit, Graphs.Graph.DfsVisit: Python stops a recursion
  deeper than its recursion limit (1000 frames by default) with
  `RecursionError`. The model has no such limit, so on a long enough chain
  of vertices `dft_recursive` and `dfs_recursive` raise where the model
  returns a result.
- Graphs.Graph.GetNeighbors returns the set of out-neighbours as a value.
  The source returns the graph's own set object, so a caller that changed
  it would change the graph; no modelled caller changes it.
- Graphs.Graph.DfsRecursive: the `visited` set that the recursive calls
  share and update in place is modelled as a value. The model threads it
  through the calls and returns it.
- Graphs.Graph.Bfs, Graphs.Graph.Dfs, Graphs.Graph.Dft: iteration order
  is arbitrary, so the contracts do not fix which path or order a given
  CPython run returns.
- Social.SocialGraph.GetAllSocialPaths: the source's `remaining` list
  is modelled as a set. Its order changes which shortest path is
  recorded, but not the contract.
- Social.SocialGraph.GetAllSocialPaths requires only that every friend
  has an entry (`Closed`). That is what its lookups need, and `Valid`
  implies it.
- Social.SocialGraph.PopulateGraph requires `order` to be a permutation
  of the positions (`ShuffleOf`): it lists each position exactly once, as
  the result of `random.shuffle` does.
- Ancestry.EarliestAncestor requires that no line of ancestry going up
  from the person repeats anyone (`AcyclicFrom`). Cycles elsewhere in the
  list are allowed (`CycleElsewhereExample`). When such a line does repeat
  someone, every generation is non-empty (`CycleNeverEnds`), so the
  source's `while True` loop never ends.
- Ancestry.EarliestAncestor: it fails on a person no pair mentions,
  including every person when the list is empty. That is the `KeyError`
  of the code.
- Ancestry.EarliestAncestor returns -1 for "no parents". It cannot tell
  that result apart from an ancestor whose id is -1; the source has the
  same ambiguity.
- Integer widths do not arise: Python integers are unbounded, and so are
  Dafny's. `avg * n // 2` uses floor division by 2, which agrees with
  Dafny's `/` on every integer.

## Findings

| source | as written | input that shows it | evidently intended | confidence | as-written member | corrected member |
|---|---|---|---|---|---|---|
| projects/graph/graph.py:173-184 | `dfs` returns `dfs_path`, the list of vertices in the order the search visited them | the graph 1 -> 2, 1 -> 3 and `dfs(1, 2)`: if 3 is popped first, the result is [1, 3, 2], which has no edge 3 -> 2 | its documentation promises "a path from starting_vertex to destination_vertex": a walk along edges | not executed; with CPython's usual set order, 3 is pushed last and popped first | Graphs.Graph.Dfs, Graphs.DfsVisitOrderNotPath | Graphs.Graph.DfsPath |
