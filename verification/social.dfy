/**
 * A social network of users with sequential ids and two-way friendships,
 * populated from a shuffled list of all possible friendships, with the
 * shortest friendship path from one user to every user in their extended
 * network (projects/social/social.py).
 */
module Social {
  import opened Wrappers
  import opened Seqs
  import opened Reach

  /** What add_friendship does when it does not fail: the two warnings and the addition. */
  datatype FriendshipOutcome = Added | SelfFriendship | AlreadyFriends

  /** The error social.py raises (a KeyError) when a user id has no friendship entry. */
  datatype SocialError = MissingUser(id: int)

  /** The user ids 1 to n. */
  function IdsUpTo(n: int): (ids: set<int>)
    ensures forall u :: u in ids <==> 1 <= u <= n
    decreases n
  {
    if n <= 0 then {} else IdsUpTo(n - 1) + {n}
  }

  /** There are as many ids 1 to n as range(n) has steps. */
  lemma {:induction false} IdsUpToCount(n: int)
    ensures |IdsUpTo(n)| == Max0(n)
    decreases n
  {
    if n > 0 {
      IdsUpToCount(n - 1);
      var prev := IdsUpTo(n - 1);
      assert n !in prev && IdsUpTo(n) == prev + {n};
      assert |prev + {n}| == |prev| + 1;
    }
  }

  class SocialGraph {
    /** The id given to the most recently added user. */
    var lastId: nat
    /** The ids of the users. */
    var users: set<int>
    /** Each user's id mapped to the ids of their friends. */
    var friendships: Adjacency

    /**
     * The users are exactly 1 to lastId, each has a friendship entry, and
     * friendship is two-way and never links a user with themself.
     */
    ghost predicate Valid()
      reads this
    {
      && users == IdsUpTo(lastId)
      && friendships.Keys == users
      && (forall u, v :: u in friendships && v in friendships[u] ==> v in friendships && u in friendships[v])
      && (forall u :: u in friendships ==> u !in friendships[u])
    }

    constructor ()
      ensures Valid() && lastId == 0 && users == {} && friendships == map[]
    {
      lastId := 0;
      users := {};
      friendships := map[];
    }

    /** Adds a user with the next id and no friends. */
    method AddUser()
      requires Valid()
      modifies this
      ensures Valid()
      ensures lastId == old(lastId) + 1 && lastId !in old(users)
      ensures users == old(users) + {lastId}
      ensures friendships == old(friendships)[lastId := {}]
    {
      lastId := lastId + 1;
      users := users + {lastId};
      friendships := friendships[lastId := {}];
    }

    /**
     * Makes userId and friendId friends of each other. Only warns, changing
     * nothing, when the two ids are equal or the two are already friends;
     * fails when an id it looks up has no entry (userId first).
     */
    method AddFriendship(userId: int, friendId: int) returns (r: Result<FriendshipOutcome, SocialError>)
      requires Valid()
      modifies this
      ensures Valid() && lastId == old(lastId) && users == old(users)
      ensures userId == friendId ==> r == Ok(SelfFriendship)
      ensures userId != friendId && userId !in old(friendships) ==> r == Err(MissingUser(userId))
      ensures userId != friendId && userId in old(friendships) && friendId !in old(friendships) ==>
                r == Err(MissingUser(friendId))
      ensures userId != friendId && userId in old(friendships) && friendId in old(friendships) ==>
                (r == Ok(AlreadyFriends) <==> friendId in old(friendships)[userId])
                && (r == Ok(Added) <==> friendId !in old(friendships)[userId])
      ensures r != Ok(Added) ==> friendships == old(friendships)
      ensures r == Ok(Added) ==>
                friendships == old(friendships)[userId := old(friendships)[userId] + {friendId}]
                                               [friendId := old(friendships)[friendId] + {userId}]
    {
      if userId == friendId {
        r := Ok(SelfFriendship);
      } else if userId !in friendships {
        r := Err(MissingUser(userId));
      } else if friendId in friendships[userId] {
        r := Ok(AlreadyFriends);
      } else if friendId !in friendships {
        r := Err(MissingUser(friendId));
      } else if userId in friendships[friendId] {
        r := Ok(AlreadyFriends);
      } else {
        friendships := friendships[userId := friendships[userId] + {friendId}];
        friendships := friendships[friendId := friendships[friendId] + {userId}];
        r := Ok(Added);
      }
    }

    /**
     * Replaces the network with numUsers users (ids 1 to numUsers) and
     * befriends the first (avgFriendships * numUsers) // 2 of all possible
     * pairs, taken in the shuffled order. The shuffle is the permutation
     * order: the k-th pair taken is the order[k]-th pair in listing order.
     */
    method PopulateGraph(numUsers: int, avgFriendships: int, order: seq<nat>)
      requires ShuffleOf(order, PairCount(numUsers))
      modifies this
      ensures Valid() && lastId == Max0(numUsers) && |users| == Max0(numUsers)
      ensures forall u :: u in friendships ==>
                friendships[u] == FriendsOf(Elems(Chosen(numUsers, avgFriendships, order)), u)
    {
      lastId := 0;
      users := {};
      friendships := map[];
      var possible: seq<(int, int)> := [];
      for i := 0 to Max0(numUsers)
        invariant Valid() && lastId == i
        invariant forall u :: u in friendships ==> friendships[u] == {}
        invariant possible == PairsUpTo(numUsers, i)
      {
        AddUser();
        possible := ListRow(numUsers, lastId, possible);
      }
      AllPairsCount(numUsers);
      var shuffled := Permute(possible, order);
      // Python's // floors; with the positive divisor 2 Dafny's / agrees.
      var number := (avgFriendships * numUsers) / 2;
      var chosen := shuffled[..SliceStop(|shuffled|, number)];
      assert chosen == Chosen(numUsers, avgFriendships, order);
      ChosenPairs(numUsers, avgFriendships, order);
      BefriendAll(chosen);
      IdsUpToCount(numUsers);
    }

    /** Calls add_friendship on each pair of chosen in turn. */
    method BefriendAll(chosen: seq<(int, int)>)
      requires Valid()
      requires forall p :: p in chosen ==> 1 <= p.0 < p.1 <= lastId
      requires forall u :: u in friendships ==> friendships[u] == {}
      modifies this
      ensures Valid() && lastId == old(lastId)
      ensures forall u :: u in friendships ==> friendships[u] == FriendsOf(Elems(chosen), u)
    {
      FriendsOfNone(friendships);
      for k := 0 to |chosen|
        invariant Valid() && lastId == old(lastId)
        invariant forall u :: u in friendships ==> friendships[u] == FriendsOf(Elems(chosen[..k]), u)
      {
        ghost var before := friendships;
        var outcome := AddFriendship(chosen[k].0, chosen[k].1);
        PopulateStep(chosen, k, before, outcome == Ok(Added), friendships);
      }
      assert chosen[..|chosen|] == chosen;
    }

    /**
     * Every user in userId's extended network mapped to a shortest
     * friendship path from userId to them; fails when userId has no entry.
     * It needs only that every friend has an entry, which Valid ensures.
     */
    method GetAllSocialPaths(userId: int) returns (r: Result<map<int, seq<int>>, SocialError>)
      requires Closed(friendships)
      ensures r.Err? <==> userId !in friendships
      ensures r.Err? ==> r.error == MissingUser(userId)
      ensures r.Ok? ==> SocialPaths(friendships, userId, r.value)
    {
      if userId !in friendships {
        return Err(MissingUser(userId));
      }
      var visited := map[userId := [userId]];
      var finished: seq<int> := [];
      ghost var round: nat := 0;
      RoundInit(friendships, userId);
      while true
        invariant RoundState(friendships, userId, round, visited, finished)
        decreases friendships.Keys - Elems(finished)
      {
        // The recorded users not yet finished, in any order.
        var remaining := set key | key in visited && key !in finished;
        if remaining == {} {
          break;
        }
        visited, finished := ExpandRound(userId, round, remaining, visited, finished);
        round := round + 1;
      }
      SocialComplete(friendships, userId, round, visited, finished);
      return Ok(visited);
    }

    /**
     * One round of the search: records a path to every unrecorded friend of
     * each remaining user and marks those users finished.
     */
    method ExpandRound(ghost s: int, ghost round: nat, remaining: set<int>,
                       visited: map<int, seq<int>>, finished: seq<int>)
      returns (visited': map<int, seq<int>>, finished': seq<int>)
      requires RoundState(friendships, s, round, visited, finished)
      requires remaining == visited.Keys - Elems(finished) && remaining != {}
      ensures RoundState(friendships, s, round + 1, visited', finished')
      ensures friendships.Keys - Elems(finished') < friendships.Keys - Elems(finished)
    {
      visited', finished' := visited, finished;
      RoundStart(friendships, s, round, remaining, visited, finished);
      var todo := remaining;
      while todo != {}
        invariant InRound(friendships, s, round, remaining, todo, visited', finished')
        decreases todo
      {
        var user: int :| user in todo;
        ghost var visited0, finished0 := visited', finished';
        visited' := RecordFriends(user, friendships[user], visited');
        finished' := finished' + [user];
        RoundStep(friendships, s, round, remaining, todo, visited0, finished0, user, visited');
        todo := todo - {user};
      }
      RoundEnd(friendships, s, round, remaining, visited', finished');
      RoundShrinks(friendships.Keys, Elems(finished), remaining, Elems(finished'));
    }
  }

  /** The larger of n and 0: how many times range(n) iterates. */
  function Max0(n: int): (m: nat)
    ensures m >= n && (m == n || m == 0)
  {
    if n > 0 then n else 0
  }

  /** n * (n - 1) / 2, the number of unordered pairs of n users. */
  function PairCount(n: int): nat
  {
    if n <= 0 then 0 else n * (n - 1) / 2
  }

  /**
   * order lists each index below n exactly once: the outcome of shuffling
   * an n-item list, the k-th item ending up where order[k] was.
   */
  ghost predicate ShuffleOf(order: seq<nat>, n: nat)
  {
    && |order| == n
    && (forall k :: 0 <= k < |order| ==> order[k] < n)
    && Distinct(order)
  }

  /** The list s rearranged so that its k-th item is s[order[k]]: the same items, moved. */
  function Permute<T>(s: seq<T>, order: seq<nat>): (r: seq<T>)
    requires ShuffleOf(order, |s|)
    ensures |r| == |s| && forall k :: 0 <= k < |r| ==> r[k] == s[order[k]]
    ensures multiset(r) == multiset(s)
  {
    var r := seq(|s|, k requires 0 <= k < |s| => s[order[k]]);
    RearrangeMultiset(s, order, r);
    r
  }

  /** Taking item order[k] of s for each k, with no index taken twice, keeps every item. */
  lemma {:induction false} RearrangeMultiset<T>(s: seq<T>, order: seq<nat>, r: seq<T>)
    requires ShuffleOf(order, |s|) && |r| == |s|
    requires forall k :: 0 <= k < |r| ==> r[k] == s[order[k]]
    ensures multiset(r) == multiset(s)
  {
    if s != [] {
      var m := |s| - 1;
      var j := order[m];
      // s without its item j, and order renumbered to index it
      var s' := s[..j] + s[j + 1..];
      var order' := seq(m, k requires 0 <= k < m => if order[k] > j then order[k] - 1 else order[k]);
      var r' := r[..m];
      forall k | 0 <= k < m
        ensures order'[k] < m && r'[k] == s'[order'[k]]
      {
        assert order[k] != order[m];
      }
      forall x, y | 0 <= x < y < m
        ensures order'[x] != order'[y]
      {
        assert order[x] != order[m] && order[y] != order[m] && order[x] != order[y];
      }
      RearrangeMultiset(s', order', r');
      assert r == r' + [r[m]];
      assert s == s[..j] + [s[j]] + s[j + 1..];
    }
  }

  /** Whether Python's slice [:stop] of a list of len items keeps the item at index i. */
  ghost predicate SliceKeeps(len: nat, stop: int, i: int)
  {
    if stop >= 0 then i < stop else i < len + stop
  }

  /** How many items the Python slice s[:stop] keeps of a list of len items. */
  function SliceStop(len: nat, stop: int): (n: nat)
    ensures n <= len
    ensures forall i :: 0 <= i < len ==> (i < n <==> SliceKeeps(len, stop, i))
  {
    if stop >= 0 then (if stop <= len then stop else len)
    else if len + stop >= 0 then len + stop else 0
  }

  /** The pairs (a, b) for b from a + 1 to n: the friendships user a can start. */
  ghost function RowPairs(n: int, a: int): seq<(int, int)>
  {
    seq(if n > a then n - a else 0, k => (a, a + 1 + k))
  }

  /** The rows of users 1 to i of the possible friendships, in listing order. */
  ghost function PairsUpTo(n: int, i: nat): seq<(int, int)>
  {
    if i == 0 then [] else PairsUpTo(n, i - 1) + RowPairs(n, i)
  }

  /** Every possible friendship among users 1 to n, before the shuffle. */
  ghost function AllPairs(n: int): seq<(int, int)>
  {
    PairsUpTo(n, Max0(n))
  }

  /** The friendships populate_graph creates, given the shuffle. */
  ghost function Chosen(n: int, avg: int, order: seq<nat>): seq<(int, int)>
    requires ShuffleOf(order, PairCount(n))
  {
    AllPairsCount(n);
    var shuffled := Permute(AllPairs(n), order);
    shuffled[..SliceStop(|shuffled|, (avg * n) / 2)]
  }

  /** The friends of u when the friendships are the pairs P. */
  ghost function FriendsOf(P: set<(int, int)>, u: int): set<int>
  {
    (set p | p in P && p.0 == u :: p.1) + (set p | p in P && p.1 == u :: p.0)
  }

  lemma {:induction false} PairsUpToMembers(n: int, i: nat)
    ensures forall p :: p in PairsUpTo(n, i) <==> 1 <= p.0 <= i && p.0 < p.1 <= n
  {
    if i > 0 {
      PairsUpToMembers(n, i - 1);
      var row := RowPairs(n, i);
      forall p: (int, int) | 1 <= p.0 <= i && p.0 < p.1 <= n
        ensures p in PairsUpTo(n, i)
      {
        if p.0 == i {
          assert row[p.1 - i - 1] == p;
        }
      }
    }
  }

  /** The possible friendships are exactly the pairs a < b of users 1 to n. */
  lemma AllPairsMembers(n: int)
    ensures forall p :: p in AllPairs(n) <==> 1 <= p.0 < p.1 <= n
  {
    PairsUpToMembers(n, Max0(n));
  }

  lemma {:induction false} PairsUpToDistinct(n: int, i: nat)
    ensures Distinct(PairsUpTo(n, i))
  {
    if i > 0 {
      PairsUpToDistinct(n, i - 1);
      PairsUpToMembers(n, i - 1);
      var s, row := PairsUpTo(n, i - 1), RowPairs(n, i);
      forall x, y | 0 <= x < y < |s + row|
        ensures (s + row)[x] != (s + row)[y]
      {
        if y >= |s| && x < |s| {
          assert (s + row)[y] == row[y - |s|];
          assert (s + row)[x] in s;
        }
      }
    }
  }

  /** No possible friendship is listed twice. */
  lemma AllPairsDistinct(n: int)
    ensures Distinct(AllPairs(n))
  {
    PairsUpToDistinct(n, Max0(n));
  }

  lemma {:induction false} PairsUpToLength(n: int, i: nat)
    requires i <= n
    ensures 2 * |PairsUpTo(n, i)| == i * (2 * n - i - 1)
  {
    if i > 0 {
      PairsUpToLength(n, i - 1);
      assert |RowPairs(n, i)| == n - i;
      calc {
        2 * |PairsUpTo(n, i)|;
        2 * |PairsUpTo(n, i - 1)| + 2 * (n - i);
        (i - 1) * (2 * n - i) + 2 * (n - i);
        i * (2 * n - i - 1);
      }
    }
  }

  /** There are n * (n - 1) / 2 possible friendships. */
  lemma AllPairsCount(n: int)
    ensures |AllPairs(n)| == PairCount(n)
  {
    if n > 0 {
      PairsUpToLength(n, n);
      assert 2 * |AllPairs(n)| == n * (n - 1);
    }
  }

  /**
   * When the shuffle is a true permutation, populate_graph creates exactly
   * (avg * n) // 2 distinct friendships between users a < b, as long as
   * that many are possible; the Python slice rules cover the other cases.
   */
  lemma ChosenCount(n: int, avg: int, order: seq<nat>)
    requires ShuffleOf(order, PairCount(n))
    ensures Distinct(Chosen(n, avg, order))
    ensures |Elems(Chosen(n, avg, order))| == SliceStop(PairCount(n), (avg * n) / 2)
    ensures 0 <= (avg * n) / 2 <= PairCount(n) ==> |Elems(Chosen(n, avg, order))| == (avg * n) / 2
  {
    AllPairsCount(n);
    AllPairsDistinct(n);
    AllPairsMembers(n);
    var all := AllPairs(n);
    var c := Chosen(n, avg, order);
    forall x, y | 0 <= x < y < |c|
      ensures c[x] != c[y]
    {
      assert c[x] == all[order[x]] && c[y] == all[order[y]];
    }
    DistinctCard(c);
  }

  /**
   * When at least as many friendships are asked for as are possible, the
   * shuffle does not matter: every pair of users becomes friends.
   */
  lemma ChosenAll(n: int, avg: int, order: seq<nat>)
    requires ShuffleOf(order, PairCount(n)) && (avg * n) / 2 >= PairCount(n)
    ensures forall p :: p in Chosen(n, avg, order) <==> 1 <= p.0 < p.1 <= n
  {
    AllPairsCount(n);
    AllPairsMembers(n);
    var all := AllPairs(n);
    var shuffled := Permute(all, order);
    assert Chosen(n, avg, order) == shuffled;
    forall p
      ensures p in shuffled <==> p in all
    {
      assert p in shuffled <==> p in multiset(shuffled);
      assert p in all <==> p in multiset(all);
    }
  }

  /** Friendship from pairs is two-way and, for pairs a < b, never reflexive. */
  lemma FriendsOfSymmetric(P: set<(int, int)>, u: int, v: int)
    requires forall p :: p in P ==> p.0 < p.1
    ensures v in FriendsOf(P, u) <==> u in FriendsOf(P, v)
    ensures u !in FriendsOf(P, u)
  {
    if v in FriendsOf(P, u) {
      if p :| p in P && p.0 == u && p.1 == v {
        assert p in P && p.1 == v;
      } else {
        var p :| p in P && p.1 == u && p.0 == v;
        assert p in P && p.0 == v;
      }
    }
    if u in FriendsOf(P, v) {
      if p :| p in P && p.0 == v && p.1 == u {
        assert p in P && p.1 == u;
      } else {
        var p :| p in P && p.1 == v && p.0 == u;
        assert p in P && p.0 == u;
      }
    }
  }

  lemma FriendsOfAdd(P: set<(int, int)>, a: int, b: int, u: int)
    ensures FriendsOf(P + {(a, b)}, u)
         == FriendsOf(P, u) + (if u == a then {b} else {}) + (if u == b then {a} else {})
  {
    var Q := P + {(a, b)};
    if u == a {
      assert (a, b) in Q && (a, b).0 == u;
    }
    if u == b {
      assert (a, b) in Q && (a, b).1 == u;
    }
  }

  /** Every pair populate_graph takes is a possible friendship. */
  lemma ChosenPairs(n: int, avg: int, order: seq<nat>)
    requires ShuffleOf(order, PairCount(n))
    ensures forall p :: p in Chosen(n, avg, order) ==> 1 <= p.0 < p.1 <= n
  {
    AllPairsCount(n);
    AllPairsMembers(n);
    var all, c := AllPairs(n), Chosen(n, avg, order);
    forall p | p in c
      ensures 1 <= p.0 < p.1 <= n
    {
      var x :| 0 <= x < |c| && c[x] == p;
      assert p == all[order[x]];
    }
  }

  lemma FriendsOfNone(m: Adjacency)
    requires forall u :: u in m ==> m[u] == {}
    ensures forall u :: u in m ==> m[u] == FriendsOf({}, u)
  {
  }

  /** One friendship of the populate loop: the map follows the pairs taken so far. */
  lemma PopulateStep(chosen: seq<(int, int)>, k: nat, before: Adjacency, added: bool, after: Adjacency)
    requires k < |chosen| && forall p :: p in chosen ==> p.0 < p.1
    requires forall u :: u in before ==> before[u] == FriendsOf(Elems(chosen[..k]), u)
    requires chosen[k].0 in before && chosen[k].1 in before
    requires !added ==> chosen[k].1 in before[chosen[k].0] && after == before
    requires added ==> after == before[chosen[k].0 := before[chosen[k].0] + {chosen[k].1}]
                                      [chosen[k].1 := before[chosen[k].1] + {chosen[k].0}]
    ensures forall u :: u in after ==> after[u] == FriendsOf(Elems(chosen[..k + 1]), u)
  {
    var P := Elems(chosen[..k]);
    var (a, b) := chosen[k];
    assert chosen[..k + 1] == chosen[..k] + [chosen[k]];
    assert Elems(chosen[..k + 1]) == P + {(a, b)};
    assert forall p :: p in P ==> p.0 < p.1 by {
      forall p | p in P
        ensures p.0 < p.1
      {
        var i :| 0 <= i < k && chosen[..k][i] == p;
        assert chosen[i] == p;
      }
    }
    if !added {
      assert b in FriendsOf(P, a);
      assert (a, b) in P by {
        var p :| p in P && p.0 == a && p.1 == b;
      }
      assert P + {(a, b)} == P;
    }
    forall u | u in after
      ensures after[u] == FriendsOf(P + {(a, b)}, u)
    {
      FriendsOfAdd(P, a, b, u);
    }
  }

  /**
   * paths maps exactly the users reachable from s, each to a shortest
   * friendship path from s to them.
   */
  ghost predicate SocialPaths(g: Adjacency, s: int, paths: map<int, seq<int>>)
  {
    && (forall v :: v in paths <==> Reachable(g, s, v))
    && (forall v :: v in paths ==> ShortestWalk(g, paths[v], s, v))
  }

  /** The users finished before round r: those within r - 1 friendships of s. */
  ghost function Prev(g: Adjacency, s: int, r: nat): set<int>
  {
    if r == 0 then {} else Within(g, s, r - 1)
  }

  /** Every recorded path is a shortest path to its key and holds at most n users. */
  ghost predicate PathsShortest(g: Adjacency, s: int, visited: map<int, seq<int>>, n: nat)
  {
    forall v :: v in visited ==> ShortestWalk(g, visited[v], s, v) && |visited[v]| <= n
  }

  /**
   * At the start of round r, the recorded users are those within r
   * friendships of s and the finished ones those within r - 1.
   */
  ghost predicate RoundState(g: Adjacency, s: int, r: nat, visited: map<int, seq<int>>, finished: seq<int>)
  {
    && Closed(g) && s in g
    && visited.Keys == Within(g, s, r) && visited.Keys <= g.Keys
    && Elems(finished) == Prev(g, s, r)
    && PathsShortest(g, s, visited, r + 1)
  }

  /** Round r, with the users todo of the remaining users R still to expand. */
  ghost predicate InRound(g: Adjacency, s: int, r: nat, R: set<int>, todo: set<int>,
                          visited: map<int, seq<int>>, finished: seq<int>)
  {
    && Closed(g) && s in g
    && Within(g, s, r) <= g.Keys
    && R == Within(g, s, r) - Prev(g, s, r) && todo <= R
    && visited.Keys == Within(g, s, r) + Succ(g, R - todo)
    && Elems(finished) == Prev(g, s, r) + (R - todo)
    && PathsShortest(g, s, visited, r + 2)
    && (forall v :: v in visited && v in Within(g, s, r) ==> |visited[v]| <= r + 1)
  }

  lemma RoundInit(g: Adjacency, s: int)
    requires Closed(g) && s in g
    ensures RoundState(g, s, 0, map[s := [s]], [])
  {
    assert Within(g, s, 0) == {s};
  }

  /** Finishing a non-empty set of unfinished users shrinks the unfinished part of K. */
  lemma RoundShrinks(K: set<int>, F: set<int>, R: set<int>, F': set<int>)
    requires R != {} && R <= K && R !! F && F' == F + R
    ensures K - F' < K - F
  {
    var x := Witness(R);
    assert x in K - F && x !in K - F';
  }

  lemma RoundStart(g: Adjacency, s: int, r: nat, R: set<int>, visited: map<int, seq<int>>, finished: seq<int>)
    requires RoundState(g, s, r, visited, finished)
    requires R == visited.Keys - Elems(finished)
    ensures InRound(g, s, r, R, R, visited, finished)
  {
    WithinKeys(g, s, r);
    assert Succ(g, R - R) == {};
  }

  /** A remaining user's recorded path holds exactly r + 1 users. */
  lemma RoundLength(g: Adjacency, s: int, r: nat, p: seq<int>, u: int)
    requires r > 0 ==> u !in Within(g, s, r - 1)
    requires PathFromTo(g, p, s, u) && |p| <= r + 1
    ensures |p| == r + 1
  {
    WalkInWithin(g, p);
    if |p| <= r {
      WithinMono(g, s, |p| - 1, r - 1);
    }
  }

  /** Expanding user adds its friends to the recorded users. */
  lemma StepKeys(g: Adjacency, W: set<int>, R: set<int>, todo: set<int>, user: int, K: set<int>, K': set<int>)
    requires user in todo && todo <= R && user in g
    requires K == W + Succ(g, R - todo) && K' == K + g[user]
    ensures K' == W + Succ(g, R - (todo - {user}))
  {
    assert R - (todo - {user}) == (R - todo) + {user};
    SuccAdd(g, R - todo, user);
  }

  /** The paths recorded for user's friends extend user's shortest path by one friendship. */
  lemma StepPaths(g: Adjacency, s: int, r: nat, visited: map<int, seq<int>>, user: int,
                  visited': map<int, seq<int>>)
    requires PathsShortest(g, s, visited, r + 2)
    requires user in visited && user in g && |visited[user]| == r + 1
    requires Within(g, s, r) <= visited.Keys
    requires visited'.Keys == visited.Keys + g[user]
    requires forall v :: v in visited ==> visited'[v] == visited[v]
    requires forall v :: v in g[user] && v !in visited ==> visited'[v] == visited[user] + [v]
    ensures PathsShortest(g, s, visited', r + 2)
  {
    var p := visited[user];
    forall v | v in visited'
      ensures ShortestWalk(g, visited'[v], s, v) && |visited'[v]| <= r + 2
    {
      if v !in visited {
        WalkAppend(g, p, v);
      }
    }
  }

  /** Expanding one remaining user keeps the round's invariant. */
  lemma RoundStep(g: Adjacency, s: int, r: nat, R: set<int>, todo: set<int>,
                  visited: map<int, seq<int>>, finished: seq<int>, user: int,
                  visited': map<int, seq<int>>)
    requires InRound(g, s, r, R, todo, visited, finished) && user in todo
    requires visited'.Keys == visited.Keys + g[user]
    requires forall v :: v in visited ==> visited'[v] == visited[v]
    requires forall v :: v in g[user] && v !in visited ==> visited'[v] == visited[user] + [v]
    ensures InRound(g, s, r, R, todo - {user}, visited', finished + [user])
  {
    RoundLength(g, s, r, visited[user], user);
    StepKeys(g, Within(g, s, r), R, todo, user, visited.Keys, visited'.Keys);
    StepPaths(g, s, r, visited, user, visited');
    ElemsAppend(finished, user);
  }

  /** Within r + 1 is within r plus the friends of the users first reached in round r. */
  lemma RoundClose(g: Adjacency, s: int, r: nat, R: set<int>)
    requires R == Within(g, s, r) - Prev(g, s, r)
    ensures Within(g, s, r) + Succ(g, R) == Within(g, s, r + 1)
  {
    var W := Within(g, s, r);
    forall w | w in Succ(g, W)
      ensures w in W + Succ(g, R)
    {
      var u :| u in W && u in g && w in g[u];
      if u in R {
        SuccIntro(g, R, u, w);
      } else {
        SuccIntro(g, Within(g, s, r - 1), u, w);
      }
    }
    forall w | w in Succ(g, R)
      ensures w in Succ(g, W)
    {
      var u :| u in R && u in g && w in g[u];
      SuccIntro(g, W, u, w);
    }
  }

  lemma RoundEnd(g: Adjacency, s: int, r: nat, R: set<int>, visited: map<int, seq<int>>, finished: seq<int>)
    requires InRound(g, s, r, R, {}, visited, finished)
    ensures RoundState(g, s, r + 1, visited, finished)
  {
    RoundClose(g, s, r, R);
    WithinKeys(g, s, r + 1);
    if r > 0 {
      WithinMono(g, s, r - 1, r);
    }
  }

  /** When no recorded user is unfinished, the recorded users are exactly those reachable. */
  lemma SocialComplete(g: Adjacency, s: int, r: nat, visited: map<int, seq<int>>, finished: seq<int>)
    requires RoundState(g, s, r, visited, finished)
    requires visited.Keys - Elems(finished) == {}
    ensures SocialPaths(g, s, visited)
  {
    assert Within(g, s, 0) == {s};
    assert r > 0;
    assert Within(g, s, r) == Within(g, s, r - 1) by {
      forall v: int | v in Within(g, s, r)
        ensures v in Elems(finished)
      {
        assert v in visited.Keys;
        assert v !in visited.Keys - Elems(finished);
      }
      WithinMono(g, s, r - 1, r);
    }
    forall v
      ensures v in visited <==> Reachable(g, s, v)
    {
      ReachableIffWithin(g, s, v);
      if Reachable(g, s, v) {
        var n: nat :| v in Within(g, s, n);
        if n <= r {
          WithinMono(g, s, n, r);
        } else {
          WithinStable(g, s, r - 1, n);
        }
      } else if v in visited {
        WithinReachable(g, s, v, r);
      }
    }
  }

  /**
   * Records the path visited[user] + [v] for every friend v of user that
   * has no path yet.
   */
  method RecordFriends(user: int, friends: set<int>, visited: map<int, seq<int>>)
    returns (visited': map<int, seq<int>>)
    requires user in visited
    ensures visited'.Keys == visited.Keys + friends
    ensures forall v :: v in visited ==> visited'[v] == visited[v]
    ensures forall v :: v in friends && v !in visited ==> visited'[v] == visited[user] + [v]
  {
    visited' := visited;
    var todo := friends;
    while todo != {}
      invariant todo <= friends
      invariant visited'.Keys == visited.Keys + (friends - todo)
      invariant forall v :: v in visited ==> visited'[v] == visited[v]
      invariant forall v :: v in visited' && v !in visited ==> visited'[v] == visited[user] + [v]
      decreases todo
    {
      ghost var some := Witness(todo);
      var friend: int :| friend in todo;
      if friend !in visited' {
        visited' := visited'[friend := visited'[user] + [friend]];
      }
      todo := todo - {friend};
    }
  }

  /** Appends the pairs (a, j + 1) for j from a to n - 1: user a's row of possible friendships. */
  method ListRow(n: int, a: int, possible: seq<(int, int)>) returns (possible': seq<(int, int)>)
    requires a <= n
    ensures possible' == possible + RowPairs(n, a)
  {
    possible' := possible;
    for j := a to n
      invariant possible' == possible + RowPairs(n, a)[..j - a]
    {
      possible' := possible' + [(a, j + 1)];
    }
  }
}
