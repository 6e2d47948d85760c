/**
 * The earliest ancestor of a person in a family tree given as
 * (parent, child) pairs: the member of the most distant generation of
 * ancestors with the lowest id, or -1 when the person has no parents
 * (projects/ancestor/ancestor.py).
 */
module Ancestry {
  import opened Wrappers
  import opened Seqs
  import opened Reach

  /** A person id that no pair mentions: the Python code's dictionary lookup raises KeyError on it. */
  datatype AncestryError = MissingPerson(id: int)

  /** Every id a (parent, child) pair mentions. */
  ghost function Ids(ancestors: seq<(int, int)>): set<int>
  {
    (set p | p in ancestors :: p.0) + (set p | p in ancestors :: p.1)
  }

  /** The parents the pairs give to child. */
  ghost function ParentsOf(ancestors: seq<(int, int)>, child: int): set<int>
  {
    set p | p in ancestors && p.1 == child :: p.0
  }

  /** Each mentioned person mapped to their parents. */
  ghost function ParentMap(ancestors: seq<(int, int)>): Adjacency
  {
    map c | c in Ids(ancestors) :: ParentsOf(ancestors, c)
  }

  /**
   * No cycle lies above s: no line of ancestry from s meets the same person
   * twice. Other people's ancestry may hold cycles.
   */
  ghost predicate AcyclicFrom(g: Adjacency, s: int)
  {
    forall p :: IsWalk(g, p) && p[0] == s ==> Distinct(p)
  }

  /** The people n generations back from s: the ends of walks of exactly n steps. */
  ghost function Generation(g: Adjacency, s: int, n: nat): set<int>
  {
    if n == 0 then {s} else Succ(g, Generation(g, s, n - 1))
  }

  /**
   * x is an earliest ancestor of s: it belongs to the most distant
   * non-empty generation n >= 1 and has the lowest id there.
   */
  ghost predicate Earliest(g: Adjacency, s: int, x: int)
  {
    exists n: nat :: EarliestAt(g, s, x, n)
  }

  ghost predicate EarliestAt(g: Adjacency, s: int, x: int, n: nat)
  {
    && n >= 1
    && x in Generation(g, s, n)
    && Generation(g, s, n + 1) == {}
    && forall y :: y in Generation(g, s, n) ==> x <= y
  }

  /**
   * Builds the map from each mentioned person to their parents, giving
   * every parent and child an entry.
   */
  method Relationships(ancestors: seq<(int, int)>) returns (rel: Adjacency)
    ensures rel == ParentMap(ancestors)
  {
    rel := map[];
    for k := 0 to |ancestors|
      invariant rel.Keys == Ids(ancestors[..k])
      invariant forall c :: c in rel ==> rel[c] == ParentsOf(ancestors[..k], c)
    {
      ghost var rel0 := rel;
      var (parent, child) := ancestors[k];
      if parent !in rel {
        rel := rel[parent := {}];
      }
      if child !in rel {
        rel := rel[child := {}];
      }
      rel := rel[child := rel[child] + {parent}];
      ParentMapStep(ancestors, k, rel0, rel);
    }
    assert ancestors[..|ancestors|] == ancestors;
    assert rel == ParentMap(ancestors);
  }

  /** The parents of every member of prev, gathered member by member. */
  method NextGeneration(rel: Adjacency, prev: set<int>) returns (next: set<int>)
    requires prev <= rel.Keys
    ensures next == Succ(rel, prev)
  {
    next := {};
    var todo := prev;
    while todo != {}
      invariant todo <= prev
      invariant next == Succ(rel, prev - todo)
      decreases todo
    {
      ghost var some := Witness(todo);
      var member: int :| member in todo;
      if |rel[member]| > 0 {
        next := AddEach(next, rel[member]);
      }
      SuccAdd(rel, prev - todo, member);
      assert prev - (todo - {member}) == (prev - todo) + {member};
      todo := todo - {member};
    }
  }

  /** Adds each of items to next, one at a time. */
  method AddEach(next: set<int>, items: set<int>) returns (next': set<int>)
    ensures next' == next + items
  {
    next' := next;
    var todo := items;
    while todo != {}
      invariant todo <= items
      invariant next' == next + (items - todo)
      decreases todo
    {
      ghost var one := Witness(todo);
      var item: int :| item in todo;
      next' := next' + {item};
      todo := todo - {item};
    }
  }

  /** The lowest id in a non-empty set. */
  method MinOf(S: set<int>) returns (m: int)
    requires S != {}
    ensures m in S && forall y :: y in S ==> m <= y
  {
    ghost var some := Witness(S);
    m :| m in S;
    var rest := S - {m};
    while rest != {}
      invariant rest <= S && m in S
      invariant forall z :: z in S && z !in rest ==> m <= z
      decreases rest
    {
      ghost var one := Witness(rest);
      var y: int :| y in rest;
      if y < m {
        m := y;
      }
      rest := rest - {y};
    }
  }

  /**
   * Walks back one generation at a time from starting until a generation
   * has no parents; answers -1 when that is the first step, otherwise the
   * lowest id of the last non-empty generation. Fails when starting is not
   * mentioned in any pair.
   */
  method EarliestAncestor(ancestors: seq<(int, int)>, starting: int) returns (r: Result<int, AncestryError>)
    requires AcyclicFrom(ParentMap(ancestors), starting)
    ensures r.Err? <==> starting !in Ids(ancestors)
    ensures r.Err? ==> r.error == MissingPerson(starting)
    ensures r.Ok? && ParentsOf(ancestors, starting) == {} ==> r.value == -1
    ensures r.Ok? && ParentsOf(ancestors, starting) != {} ==> Earliest(ParentMap(ancestors), starting, r.value)
  {
    var relationships := Relationships(ancestors);
    // The first lookup of the loop below is the only one that can fail:
    // every later generation consists of parents, which all have entries.
    if starting !in relationships {
      return Err(MissingPerson(starting));
    }
    ParentMapClosed(ancestors);
    var previous := {starting};
    ghost var n: nat := 0;
    GenerationBound(relationships, starting, 0);
    while true
      invariant previous == Generation(relationships, starting, n) && previous != {}
      invariant previous <= relationships.Keys && n < |relationships.Keys|
      decreases |relationships.Keys| - n
    {
      var next := NextGeneration(relationships, previous);
      if next != {} {
        GenerationBound(relationships, starting, n + 1);
        GenerationKeys(relationships, starting, n + 1);
        previous := next;
        n := n + 1;
      } else {
        var lowest := MinOf(previous);
        AncestryOutcome(ancestors, starting, n, lowest);
        if lowest == starting {
          return Ok(-1);
        } else {
          return Ok(lowest);
        }
      }
    }
  }

  /** The result of the final generation: -1 exactly when starting has no parents. */
  lemma AncestryOutcome(ancestors: seq<(int, int)>, s: int, n: nat, lowest: int)
    requires AcyclicFrom(ParentMap(ancestors), s) && s in ParentMap(ancestors)
    requires Generation(ParentMap(ancestors), s, n + 1) == {}
    requires lowest in Generation(ParentMap(ancestors), s, n)
    requires forall y :: y in Generation(ParentMap(ancestors), s, n) ==> lowest <= y
    ensures lowest == s <==> ParentsOf(ancestors, s) == {}
    ensures lowest != s ==> EarliestAt(ParentMap(ancestors), s, lowest, n)
  {
    var g := ParentMap(ancestors);
    assert Generation(g, s, 1) == g[s] by {
      assert Generation(g, s, 0) == {s};
      SuccIntroAll(g, {s}, s);
    }
    if n == 0 {
      assert Generation(g, s, 0) == {s};
    } else {
      StartNotLater(g, s, n);
      GenerationNonEmpty(g, s, 1, n);
    }
  }

  /** One pair folded into the map: the map follows the pairs read so far. */
  lemma ParentMapStep(ancestors: seq<(int, int)>, k: nat, rel0: Adjacency, rel: Adjacency)
    requires k < |ancestors|
    requires rel0.Keys == Ids(ancestors[..k])
    requires forall c :: c in rel0 ==> rel0[c] == ParentsOf(ancestors[..k], c)
    requires var (parent, child) := ancestors[k];
             var rel1 := if parent in rel0 then rel0 else rel0[parent := {}];
             var rel2 := if child in rel1 then rel1 else rel1[child := {}];
             rel == rel2[child := rel2[child] + {parent}]
    ensures rel.Keys == Ids(ancestors[..k + 1])
    ensures forall c :: c in rel ==> rel[c] == ParentsOf(ancestors[..k + 1], c)
  {
    var a, b := ancestors[..k], ancestors[..k + 1];
    var (parent, child) := ancestors[k];
    assert b == a + [(parent, child)];
    assert (parent, child) in b;
    assert Ids(b) == Ids(a) + {parent, child};
    forall c | c in rel
      ensures rel[c] == ParentsOf(b, c)
    {
      assert ParentsOf(b, c) == if c == child then ParentsOf(a, c) + {parent} else ParentsOf(a, c);
    }
  }

  /** Every parent has an entry of its own. */
  lemma ParentMapClosed(ancestors: seq<(int, int)>)
    ensures Closed(ParentMap(ancestors))
  {
    var g := ParentMap(ancestors);
    forall c, p | c in g && p in g[c]
      ensures p in g
    {
      var q :| q in ancestors && q.1 == c && q.0 == p;
      assert q.0 in Ids(ancestors);
    }
  }

  /** The map records exactly the given pairs. */
  lemma ParentMapPairs(ancestors: seq<(int, int)>, parent: int, child: int)
    ensures child in ParentMap(ancestors) && parent in ParentMap(ancestors)[child]
        <==> (parent, child) in ancestors
  {
    if (parent, child) in ancestors {
      assert child in Ids(ancestors);
      assert parent in ParentsOf(ancestors, child);
    }
  }

  /** Generation n holds exactly the ends of walks of n steps from s. */
  lemma {:induction false} GenerationWalk(g: Adjacency, s: int, n: nat, v: int)
    ensures v in Generation(g, s, n) <==> exists p :: PathFromTo(g, p, s, v) && |p| == n + 1
  {
    if n == 0 {
      if v in Generation(g, s, 0) {
        assert PathFromTo(g, [s], s, v);
      }
    } else {
      if v in Generation(g, s, n) {
        var u :| u in Generation(g, s, n - 1) && u in g && v in g[u];
        GenerationWalk(g, s, n - 1, u);
        var p :| PathFromTo(g, p, s, u) && |p| == n;
        WalkAppend(g, p, v);
        assert PathFromTo(g, p + [v], s, v);
      }
      if exists p :: PathFromTo(g, p, s, v) && |p| == n + 1 {
        var p :| PathFromTo(g, p, s, v) && |p| == n + 1;
        var q := p[..n];
        assert IsWalk(g, q) by {
          forall i | 0 <= i < |q| - 1
            ensures q[i] in g && q[i + 1] in g[q[i]]
          {
            assert q[i] == p[i] && q[i + 1] == p[i + 1];
          }
        }
        assert PathFromTo(g, q, s, p[n - 1]);
        GenerationWalk(g, s, n - 1, p[n - 1]);
        SuccIntro(g, Generation(g, s, n - 1), p[n - 1], v);
      }
    }
  }

  /** A walk from a person with an entry stays among the people with entries. */
  lemma WalkKeys(g: Adjacency, p: seq<int>)
    requires Closed(g) && IsWalk(g, p) && p[0] in g
    ensures Elems(p) <= g.Keys
  {
    forall x | x in Elems(p)
      ensures x in g
    {
      var i :| 0 <= i < |p| && p[i] == x;
      if i > 0 {
        var j := i - 1;
        assert p[j] in g && p[j + 1] in g[p[j]];
        ClosedNeighbors(g, p[j]);
      }
    }
  }

  /** Every member of a generation has an entry. */
  lemma GenerationKeys(g: Adjacency, s: int, n: nat)
    requires Closed(g) && s in g
    ensures Generation(g, s, n) <= g.Keys
  {
    forall v | v in Generation(g, s, n)
      ensures v in g
    {
      GenerationWalk(g, s, n, v);
      var p :| PathFromTo(g, p, s, v) && |p| == n + 1;
      WalkKeys(g, p);
      assert p[n] in Elems(p);
    }
  }

  /**
   * With no cycle above s, a non-empty generation n is reached by a line
   * of n + 1 distinct people, so n is below the number of people.
   */
  lemma GenerationBound(g: Adjacency, s: int, n: nat)
    requires AcyclicFrom(g, s) && Closed(g) && s in g
    requires Generation(g, s, n) != {}
    ensures n < |g.Keys|
  {
    var v := Witness(Generation(g, s, n));
    GenerationWalk(g, s, n, v);
    var p :| PathFromTo(g, p, s, v) && |p| == n + 1;
    WalkKeys(g, p);
    DistinctBound(p, g.Keys);
  }

  /** With no cycle above s, s is not among their own ancestors. */
  lemma StartNotLater(g: Adjacency, s: int, n: nat)
    requires AcyclicFrom(g, s) && n >= 1
    ensures s !in Generation(g, s, n)
  {
    GenerationWalk(g, s, n, s);
  }

  /** Once a generation is empty, every earlier one is non-empty up to it. */
  lemma {:induction false} GenerationNonEmpty(g: Adjacency, s: int, m: nat, n: nat)
    requires m <= n && Generation(g, s, n) != {}
    ensures Generation(g, s, m) != {}
  {
    if m < n {
      var v := Witness(Generation(g, s, n));
      var u :| u in Generation(g, s, n - 1) && u in g && v in g[u];
      GenerationNonEmpty(g, s, m, n - 1);
    }
  }

  /**
   * The earliest ancestor's generation is the most distant one: every line
   * of ancestry from s has at most n + 1 people, and the ancestor is not s.
   */
  lemma EarliestIsMostDistant(g: Adjacency, s: int, x: int, n: nat)
    requires AcyclicFrom(g, s) && EarliestAt(g, s, x, n)
    ensures Reachable(g, s, x) && x != s
    ensures forall p :: IsWalk(g, p) && p[0] == s ==> |p| <= n + 1
  {
    GenerationWalk(g, s, n, x);
    StartNotLater(g, s, n);
    forall p | IsWalk(g, p) && p[0] == s
      ensures |p| <= n + 1
    {
      if |p| > n + 1 {
        var q := p[..n + 2];
        assert IsWalk(g, q) by {
          forall i | 0 <= i < |q| - 1
            ensures q[i] in g && q[i + 1] in g[q[i]]
          {
            assert q[i] == p[i] && q[i + 1] == p[i + 1];
          }
        }
        GenerationWalk(g, s, n + 1, q[n + 1]);
        assert PathFromTo(g, q, s, q[n + 1]);
      }
    }
  }

  /** The n-th person on a line of ancestry from p[0] belongs to generation n. */
  lemma {:induction false} WalkInGeneration(g: Adjacency, p: seq<int>, n: nat)
    requires IsWalk(g, p) && n < |p|
    ensures p[n] in Generation(g, p[0], n)
  {
    if n > 0 {
      WalkInGeneration(g, p, n - 1);
      SuccIntro(g, Generation(g, p[0], n - 1), p[n - 1], p[n]);
    }
  }

  /** Once a line of ancestry has reached a cycle p[a..b], every later generation meets the cycle. */
  lemma {:induction false} CycleInGeneration(g: Adjacency, p: seq<int>, a: nat, b: nat, n: nat)
    requires IsWalk(g, p) && a < b < |p| && p[a] == p[b] && a <= n
    ensures exists t :: a <= t < b && p[t] in Generation(g, p[0], n)
    decreases n
  {
    if n == a {
      WalkInGeneration(g, p, a);
    } else {
      CycleInGeneration(g, p, a, b, n - 1);
      var t :| a <= t < b && p[t] in Generation(g, p[0], n - 1);
      SuccIntro(g, Generation(g, p[0], n - 1), p[t], p[t + 1]);
      if t + 1 < b {
        assert p[t + 1] in Generation(g, p[0], n);
      } else {
        assert p[a] in Generation(g, p[0], n);
      }
    }
  }

  /**
   * When a cycle lies above s, no generation is ever empty, so the search
   * for an earliest ancestor never stops: AcyclicFrom excludes exactly the
   * people for whom it does not return.
   */
  lemma CycleNeverEnds(g: Adjacency, s: int, n: nat)
    requires !AcyclicFrom(g, s)
    ensures Generation(g, s, n) != {}
  {
    var p :| IsWalk(g, p) && p[0] == s && !Distinct(p);
    var a, b :| 0 <= a < b < |p| && p[a] == p[b];
    if n < a {
      WalkInGeneration(g, p, n);
    } else {
      CycleInGeneration(g, p, a, b, n);
    }
  }

  /**
   * A cycle elsewhere in the tree does not matter: with the pairs
   * (1, 2), (3, 4), (4, 3), person 2 has the ancestor 1 only, although 3
   * and 4 are each other's parents.
   */
  lemma CycleElsewhereExample()
    ensures var g := ParentMap([(1, 2), (3, 4), (4, 3)]);
            AcyclicFrom(g, 2) && IsWalk(g, [3, 4, 3])
  {
    var a := [(1, 2), (3, 4), (4, 3)];
    var g := ParentMap(a);
    assert a[0] == (1, 2) && a[1] == (3, 4) && a[2] == (4, 3);
    assert Ids(a) == {1, 2, 3, 4};
    assert ParentsOf(a, 2) == {1};
    assert ParentsOf(a, 1) == {};
    assert ParentsOf(a, 3) == {4} && ParentsOf(a, 4) == {3};
    forall p | IsWalk(g, p) && p[0] == 2
      ensures Distinct(p)
    {
      if |p| > 1 {
        assert p[1] in g[p[0]];
        assert p[1] == 1 && g[p[1]] == {};
        WalkEdge(g, p, 1);
        assert |p| == 2;
      }
    }
    assert IsWalk(g, [3, 4, 3]);
  }
}
