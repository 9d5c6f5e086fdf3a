/**
 * The ancestor walk run for every published branch: a work list `tosee`
 * used as a stack and a `seen` list, starting from the head's parents.
 * `DfsOrder` follows that loop step for step, so `seen` at the end of the
 * loop is `Walk(parents, head)`; the lemmas relate it to the ancestor
 * relation defined independently by parent chains.
 */
module History {
  import opened Repo

  type Parents = map<CommitId, seq<CommitId>>

  function Elems(s: seq<CommitId>): set<CommitId> {
    set c | c in s
  }

  /** Every commit listed is present in the graph. */
  predicate InGraph(parents: Parents, s: seq<CommitId>) {
    forall c :: c in s ==> c in parents
  }

  predicate Distinct(s: seq<CommitId>) {
    forall i, j :: 0 <= i < j < |s| ==> s[i] != s[j]
  }

  /** The candidates, in order, that are not in `seen`. */
  function Unseen(cands: seq<CommitId>, seen: seq<CommitId>): (r: seq<CommitId>)
    ensures |r| <= |cands|
  {
    if cands == [] then []
    else
      var last := cands[|cands| - 1];
      Unseen(cands[..|cands| - 1], seen) + (if last in seen then [] else [last])
  }

  /** `Unseen` keeps exactly the candidates outside `seen`. */
  lemma {:induction false} UnseenMembers(cands: seq<CommitId>, seen: seq<CommitId>)
    ensures forall q :: q in Unseen(cands, seen) <==> q in cands && q !in seen
  {
    if cands != [] {
      var init := cands[..|cands| - 1];
      UnseenMembers(init, seen);
      assert cands == init + [cands[|cands| - 1]];
    }
  }

  /** Pushing the unseen parents of a present commit keeps the work list inside a closed graph. */
  lemma UnseenInGraph(parents: Parents, sha: CommitId, seen: seq<CommitId>, rest: seq<CommitId>)
    requires ParentsClosed(parents) && sha in parents && InGraph(parents, rest)
    ensures InGraph(parents, rest + Unseen(parents[sha], seen))
  {
    UnseenMembers(parents[sha], seen);
  }

  /**
   * The final `seen` list of the walk loop when it is resumed with work
   * list `tosee` and seen list `seen`. Each step pops the last work item;
   * an item already seen is dropped; otherwise it is appended to `seen`
   * and its parents not yet seen are pushed. The pair (commits not yet
   * seen, length of the work list) decreases lexicographically. A commit
   * missing from the graph is treated as having no parents; in a closed
   * graph that case never arises.
   */
  function DfsOrder(parents: Parents, tosee: seq<CommitId>, seen: seq<CommitId>): seq<CommitId>
    decreases parents.Keys - Elems(seen), |tosee|
  {
    if tosee == [] then seen
    else
      var sha := tosee[|tosee| - 1];
      var rest := tosee[..|tosee| - 1];
      if sha in seen then DfsOrder(parents, rest, seen)
      else
        var seen' := seen + [sha];
        assert Elems(seen') == Elems(seen) + {sha};
        if sha in parents then DfsOrder(parents, rest + Unseen(parents[sha], seen'), seen')
        else DfsOrder(parents, rest, seen')
  }

  /** The walk only ever extends the seen list. */
  lemma {:induction false} DfsExtends(parents: Parents, tosee: seq<CommitId>, seen: seq<CommitId>)
    ensures var r := DfsOrder(parents, tosee, seen);
      |seen| <= |r| && r[..|seen|] == seen
    decreases parents.Keys - Elems(seen), |tosee|
  {
    if tosee != [] {
      var sha := tosee[|tosee| - 1];
      var rest := tosee[..|tosee| - 1];
      if sha in seen {
        DfsExtends(parents, rest, seen);
      } else {
        var seen' := seen + [sha];
        assert Elems(seen') == Elems(seen) + {sha};
        var next := if sha in parents then rest + Unseen(parents[sha], seen') else rest;
        DfsExtends(parents, next, seen');
        var r := DfsOrder(parents, next, seen');
        assert r[..|seen|] == r[..|seen'|][..|seen|];
      }
    }
  }

  /** One step of the walk on a work item already seen: it is dropped. */
  lemma DfsPopSeen(parents: Parents, tosee: seq<CommitId>, seen: seq<CommitId>)
    requires tosee != [] && tosee[|tosee| - 1] in seen
    ensures DfsOrder(parents, tosee, seen) == DfsOrder(parents, tosee[..|tosee| - 1], seen)
  {
  }

  /** One step of the walk on a new work item: it is seen and its unseen parents are pushed. */
  lemma DfsPopUnseen(parents: Parents, tosee: seq<CommitId>, seen: seq<CommitId>)
    requires tosee != [] && tosee[|tosee| - 1] !in seen && tosee[|tosee| - 1] in parents
    ensures var sha := tosee[|tosee| - 1];
      DfsOrder(parents, tosee, seen)
        == DfsOrder(parents, tosee[..|tosee| - 1] + Unseen(parents[sha], seen + [sha]), seen + [sha])
  {
  }

  /** In a closed graph the walk only lists commits of the graph. */
  lemma {:induction false} DfsInGraph(parents: Parents, tosee: seq<CommitId>, seen: seq<CommitId>)
    requires ParentsClosed(parents) && InGraph(parents, tosee) && InGraph(parents, seen)
    ensures InGraph(parents, DfsOrder(parents, tosee, seen))
    decreases parents.Keys - Elems(seen), |tosee|
  {
    if tosee != [] {
      var sha := tosee[|tosee| - 1];
      var rest := tosee[..|tosee| - 1];
      if sha in seen {
        DfsInGraph(parents, rest, seen);
      } else {
        var seen' := seen + [sha];
        assert Elems(seen') == Elems(seen) + {sha};
        UnseenInGraph(parents, sha, seen', rest);
        DfsInGraph(parents, rest + Unseen(parents[sha], seen'), seen');
      }
    }
  }

  /**
   * The ancestors the walk publishes for a head, in publication order. A
   * head missing from the graph has no parents to start from.
   */
  function Walk(parents: Parents, head: CommitId): seq<CommitId> {
    if head in parents then DfsOrder(parents, Unseen(parents[head], []), []) else []
  }

  /** `p` is a path that steps from each commit to one of its parents. */
  ghost predicate IsChain(parents: Parents, p: seq<CommitId>) {
    |p| >= 1 && forall i :: 0 <= i < |p| - 1 ==> p[i] in parents && p[i + 1] in parents[p[i]]
  }

  /** `c` is reached from `a` in one or more parent steps. */
  ghost predicate IsAncestor(parents: Parents, a: CommitId, c: CommitId) {
    exists p :: IsChain(parents, p) && |p| >= 2 && p[0] == a && p[|p| - 1] == c
  }

  /** `c` is one of `roots` or reached from one of them by parent steps. */
  ghost predicate ReachableFrom(parents: Parents, roots: seq<CommitId>, c: CommitId) {
    exists p :: IsChain(parents, p) && p[0] in roots && p[|p| - 1] == c
  }

  /** No commit is its own ancestor. */
  ghost predicate Acyclic(parents: Parents) {
    forall c :: !IsAncestor(parents, c, c)
  }

  lemma ChainStep(parents: Parents, roots: seq<CommitId>, a: CommitId, b: CommitId)
    requires ReachableFrom(parents, roots, a) && a in parents && b in parents[a]
    ensures ReachableFrom(parents, roots, b)
  {
    var p :| IsChain(parents, p) && p[0] in roots && p[|p| - 1] == a;
    var p' := p + [b];
    assert IsChain(parents, p');
  }

  /** Every commit the walk adds is reachable from the initial work list. */
  lemma {:induction false} DfsSound(parents: Parents, tosee: seq<CommitId>, seen: seq<CommitId>, roots: seq<CommitId>)
    requires forall t :: t in tosee ==> ReachableFrom(parents, roots, t)
    ensures forall x :: x in DfsOrder(parents, tosee, seen) ==> x in seen || ReachableFrom(parents, roots, x)
    decreases parents.Keys - Elems(seen), |tosee|
  {
    if tosee != [] {
      var sha := tosee[|tosee| - 1];
      var rest := tosee[..|tosee| - 1];
      assert forall t :: t in rest ==> t in tosee;
      if sha in seen {
        DfsSound(parents, rest, seen, roots);
      } else {
        var seen' := seen + [sha];
        assert Elems(seen') == Elems(seen) + {sha};
        if sha in parents {
          var next := rest + Unseen(parents[sha], seen');
          UnseenMembers(parents[sha], seen');
          forall t | t in next ensures ReachableFrom(parents, roots, t) {
            if t !in rest {
              ChainStep(parents, roots, sha, t);
            }
          }
          DfsSound(parents, next, seen', roots);
        } else {
          DfsSound(parents, rest, seen', roots);
        }
      }
    }
  }

  /**
   * If every parent of a seen commit is seen or waiting, the walk ends
   * with a list that holds every parent of every commit it lists.
   */
  lemma {:induction false} DfsComplete(parents: Parents, tosee: seq<CommitId>, seen: seq<CommitId>)
    requires forall x, q :: x in seen && x in parents && q in parents[x] ==> q in seen || q in tosee
    ensures forall x, q :: x in DfsOrder(parents, tosee, seen) && x in parents && q in parents[x] ==> q in DfsOrder(parents, tosee, seen)
    decreases parents.Keys - Elems(seen), |tosee|
  {
    if tosee != [] {
      var sha := tosee[|tosee| - 1];
      var rest := tosee[..|tosee| - 1];
      assert tosee == rest + [sha];
      if sha in seen {
        DfsComplete(parents, rest, seen);
      } else {
        var seen' := seen + [sha];
        assert Elems(seen') == Elems(seen) + {sha};
        if sha in parents {
          var next := rest + Unseen(parents[sha], seen');
          UnseenMembers(parents[sha], seen');
          DfsComplete(parents, next, seen');
        } else {
          DfsComplete(parents, rest, seen');
        }
      }
    }
  }

  /** Everything seen or waiting ends up in the walk. */
  lemma {:induction false} DfsKeeps(parents: Parents, tosee: seq<CommitId>, seen: seq<CommitId>)
    ensures forall t :: t in seen || t in tosee ==> t in DfsOrder(parents, tosee, seen)
    decreases parents.Keys - Elems(seen), |tosee|
  {
    if tosee != [] {
      var sha := tosee[|tosee| - 1];
      var rest := tosee[..|tosee| - 1];
      assert tosee == rest + [sha];
      if sha in seen {
        DfsKeeps(parents, rest, seen);
      } else {
        var seen' := seen + [sha];
        assert Elems(seen') == Elems(seen) + {sha};
        if sha in parents {
          DfsKeeps(parents, rest + Unseen(parents[sha], seen'), seen');
        } else {
          DfsKeeps(parents, rest, seen');
        }
      }
    }
  }

  /** The walk never appends a commit it has already seen. */
  lemma {:induction false} DfsDistinct(parents: Parents, tosee: seq<CommitId>, seen: seq<CommitId>)
    requires Distinct(seen)
    ensures Distinct(DfsOrder(parents, tosee, seen))
    decreases parents.Keys - Elems(seen), |tosee|
  {
    if tosee != [] {
      var sha := tosee[|tosee| - 1];
      var rest := tosee[..|tosee| - 1];
      if sha in seen {
        DfsDistinct(parents, rest, seen);
      } else {
        var seen' := seen + [sha];
        assert Elems(seen') == Elems(seen) + {sha};
        if sha in parents {
          DfsDistinct(parents, rest + Unseen(parents[sha], seen'), seen');
        } else {
          DfsDistinct(parents, rest, seen');
        }
      }
    }
  }

  /** A set of commits closed under parents that holds the roots holds all they reach. */
  lemma {:induction false} ClosedHoldsReachable(parents: Parents, s: seq<CommitId>, p: seq<CommitId>)
    requires forall x, q :: x in s && x in parents && q in parents[x] ==> q in s
    requires IsChain(parents, p) && p[0] in s
    ensures p[|p| - 1] in s
    decreases |p|
  {
    if |p| > 1 {
      var init := p[..|p| - 1];
      assert IsChain(parents, init) by {
        forall i | 0 <= i < |init| - 1 ensures init[i] in parents && init[i + 1] in parents[init[i]] {
          assert init[i] == p[i] && init[i + 1] == p[i + 1];
        }
      }
      ClosedHoldsReachable(parents, s, init);
      assert p[|p| - 2] in parents && p[|p| - 1] in parents[p[|p| - 2]];
    }
  }

  /** Being an ancestor of `head` is being reachable from one of its parents. */
  lemma AncestorIsReachableFromParents(parents: Parents, head: CommitId, c: CommitId)
    requires head in parents
    ensures IsAncestor(parents, head, c) <==> ReachableFrom(parents, parents[head], c)
  {
    if IsAncestor(parents, head, c) {
      var p :| IsChain(parents, p) && |p| >= 2 && p[0] == head && p[|p| - 1] == c;
      var tail := p[1..];
      assert IsChain(parents, tail) by {
        forall i | 0 <= i < |tail| - 1 ensures tail[i] in parents && tail[i + 1] in parents[tail[i]] {
          assert tail[i] == p[i + 1] && tail[i + 1] == p[i + 2];
        }
      }
      assert p[0] in parents && p[1] in parents[p[0]];
    }
    if ReachableFrom(parents, parents[head], c) {
      var p :| IsChain(parents, p) && p[0] in parents[head] && p[|p| - 1] == c;
      var whole := [head] + p;
      assert IsChain(parents, whole) by {
        forall i | 0 <= i < |whole| - 1 ensures whole[i] in parents && whole[i + 1] in parents[whole[i]] {
          if i > 0 {
            assert whole[i] == p[i - 1] && whole[i + 1] == p[i];
          }
        }
      }
      assert whole[|whole| - 1] == c;
    }
  }

  /** In a closed graph the walk from a head lists only commits of the graph. */
  lemma WalkInGraph(parents: Parents, head: CommitId)
    requires ParentsClosed(parents) && head in parents
    ensures InGraph(parents, Walk(parents, head))
  {
    UnseenInGraph(parents, head, [], []);
    assert [] + Unseen(parents[head], []) == Unseen(parents[head], []);
    DfsInGraph(parents, Unseen(parents[head], []), []);
  }

  /** The walk from a head never lists a commit twice. */
  lemma WalkDistinct(parents: Parents, head: CommitId)
    requires head in parents
    ensures Distinct(Walk(parents, head))
  {
    DfsDistinct(parents, Unseen(parents[head], []), []);
  }

  /**
   * The walk from a head lists each commit reachable from it in one or
   * more parent steps, and nothing else, exactly once.
   */
  lemma WalkIsAncestors(parents: Parents, head: CommitId)
    requires ParentsClosed(parents) && head in parents
    ensures Distinct(Walk(parents, head))
    ensures forall c :: c in Walk(parents, head) <==> IsAncestor(parents, head, c)
  {
    WalkDistinct(parents, head);
    var roots := parents[head];
    var tosee := Unseen(roots, []);
    var r := Walk(parents, head);
    UnseenMembers(roots, []);
    forall t | t in tosee ensures ReachableFrom(parents, roots, t) {
      assert IsChain(parents, [t]);
    }
    DfsSound(parents, tosee, [], roots);
    DfsComplete(parents, tosee, []);
    DfsKeeps(parents, tosee, []);
    forall c ensures c in r <==> IsAncestor(parents, head, c) {
      AncestorIsReachableFromParents(parents, head, c);
      if ReachableFrom(parents, roots, c) {
        var p :| IsChain(parents, p) && p[0] in roots && p[|p| - 1] == c;
        ClosedHoldsReachable(parents, r, p);
      }
    }
  }

  /** The head is listed among its own ancestors only if it lies on a cycle. */
  lemma WalkListsHeadOnlyOnCycle(parents: Parents, head: CommitId)
    requires ParentsClosed(parents) && head in parents
    ensures head in Walk(parents, head) <==> IsAncestor(parents, head, head)
    ensures Acyclic(parents) ==> head !in Walk(parents, head)
  {
    WalkIsAncestors(parents, head);
  }
}
