/**
 * The frontiers of the four searches in maze_solver/maze.py: a list used as
 * a stack, a deque used as a queue, and a heapq list ordered by Python's
 * comparison of (key, (row, col), path) tuples. The heap is modelled by the
 * element it yields, not by its layout.
 */
module Frontier {
  import opened Geometry

  datatype Strategy = Dfs | Bfs | Gbfs | AStar

  /** A frontier entry: a priority key (unused by Dfs and Bfs), a position and the path that led to it. */
  datatype Record = Record(key: int, pos: Pos, path: seq<Pos>)

  predicate IsHeap(s: Strategy)
  {
    s.Gbfs? || s.AStar?
  }

  function Manhattan(a: Pos, b: Pos): nat
  {
    Abs(a.0 - b.0) + Abs(a.1 - b.1)
  }

  /** Key of the seed record (start, []). */
  function InitialKey(s: Strategy, start: Pos, end: Pos): int
  {
    if IsHeap(s) then Manhattan(start, end) else 0
  }

  /**
   * Key of every child pushed while expanding `expanded`, whose path
   * `path` already ends with `expanded`: its distance to `end`, plus the
   * path's length for A*.
   */
  function ChildKey(s: Strategy, end: Pos, expanded: Pos, path: seq<Pos>): int
  {
    match s
    case Gbfs => Manhattan(expanded, end)
    case AStar => Manhattan(expanded, end) + |path|
    case _ => 0
  }

  /** Tuple order on positions: row, then column. */
  predicate PosBelow(a: Pos, b: Pos)
  {
    a.0 < b.0 || (a.0 == b.0 && a.1 < b.1)
  }

  /** List order on paths: the first differing position decides; a proper prefix comes first. */
  predicate PathBelow(p: seq<Pos>, q: seq<Pos>)
  {
    if p == [] then q != []
    else if q == [] then false
    else PosBelow(p[0], q[0]) || (p[0] == q[0] && PathBelow(p[1..], q[1..]))
  }

  /** Tuple order on records: key, then position, then path. */
  predicate RecordBelow(x: Record, y: Record)
  {
    x.key < y.key ||
    (x.key == y.key && (PosBelow(x.pos, y.pos) || (x.pos == y.pos && PathBelow(x.path, y.path))))
  }

  predicate RecordAtMost(x: Record, y: Record)
  {
    x == y || RecordBelow(x, y)
  }

  lemma {:induction false} PathBelowIrreflexive(p: seq<Pos>)
    ensures !PathBelow(p, p)
  {
    if p != [] {
      PathBelowIrreflexive(p[1..]);
    }
  }

  lemma {:induction false} PathBelowTransitive(p: seq<Pos>, q: seq<Pos>, r: seq<Pos>)
    requires PathBelow(p, q) && PathBelow(q, r)
    ensures PathBelow(p, r)
  {
    if p != [] && q != [] && r != [] && p[0] == q[0] == r[0] {
      PathBelowTransitive(p[1..], q[1..], r[1..]);
    }
  }

  /** Two different paths are always ordered one way or the other. */
  lemma {:induction false} PathBelowTotal(p: seq<Pos>, q: seq<Pos>)
    requires p != q
    ensures PathBelow(p, q) || PathBelow(q, p)
  {
    if p != [] && q != [] && p[0] == q[0] {
      assert p == [p[0]] + p[1..] && q == [q[0]] + q[1..];
      PathBelowTotal(p[1..], q[1..]);
    }
  }

  /** The record order is a strict total order, so a minimum is unique. */
  lemma RecordOrder(x: Record, y: Record, z: Record)
    ensures !RecordBelow(x, x)
    ensures RecordBelow(x, y) && RecordBelow(y, z) ==> RecordBelow(x, z)
    ensures x != y ==> RecordBelow(x, y) || RecordBelow(y, x)
  {
    PathBelowIrreflexive(x.path);
    if RecordBelow(x, y) && RecordBelow(y, z) && x.key == y.key == z.key && x.pos == y.pos == z.pos {
      PathBelowTransitive(x.path, y.path, z.path);
    }
    if x != y && x.key == y.key && x.pos == y.pos {
      PathBelowTotal(x.path, y.path);
    }
  }

  /** heappop's choice: the index of a least record under the tuple order. */
  method MinIndex(f: seq<Record>) returns (k: nat)
    requires |f| > 0
    ensures k < |f|
    ensures forall j :: 0 <= j < |f| ==> RecordAtMost(f[k], f[j])
  {
    k := 0;
    var i := 1;
    while i < |f|
      invariant k < i <= |f|
      invariant forall j :: 0 <= j < i ==> RecordAtMost(f[k], f[j])
    {
      RecordOrder(f[i], f[k], f[i]);
      if RecordBelow(f[i], f[k]) {
        forall j | 0 <= j < i
          ensures RecordAtMost(f[i], f[j])
        {
          RecordOrder(f[i], f[k], f[j]);
        }
        k := i;
      }
      i := i + 1;
    }
  }

  /**
   * Removes one record from the frontier: list.pop() for Dfs, popleft() for
   * Bfs, heappop for Gbfs and A*, as PoppedBy states each of them.
   */
  method Pop(s: Strategy, f: seq<Record>) returns (rec: Record, rest: seq<Record>)
    requires |f| > 0
    ensures PoppedBy(s, f, rec, rest) && |rest| == |f| - 1
  {
    match s
    case Dfs =>
      rec, rest := f[|f| - 1], f[..|f| - 1];
      assert f == rest + [rec];
    case Bfs =>
      rec, rest := f[0], f[1..];
      assert f == [rec] + rest;
    case _ =>
      var k := MinIndex(f);
      rec, rest := f[k], f[..k] + f[k + 1..];
      RemoveAt(f, k);
  }

  /**
   * One pop of the frontier: the record taken and the records left make up
   * the frontier; DFS takes the last record and BFS the first, leaving the
   * others in order, and the heap strategies take a least record.
   */
  predicate PoppedBy(s: Strategy, frontier: seq<Record>, popped: Record, rest: seq<Record>)
    requires frontier != []
  {
    multiset(rest) + multiset{popped} == multiset(frontier) &&
    (s.Dfs? ==> popped == frontier[|frontier| - 1] && rest == frontier[..|frontier| - 1]) &&
    (s.Bfs? ==> popped == frontier[0] && rest == frontier[1..]) &&
    (IsHeap(s) ==> forall x :: x in frontier ==> RecordAtMost(popped, x))
  }

  /** The membership view of a pop: the record taken was in the frontier, and the rest holds every other record and nothing new. */
  predicate Popped(before: seq<Record>, rec: Record, rest: seq<Record>)
  {
    rec in before && (forall x :: x in rest ==> x in before) &&
    (forall x :: x in before && x != rec ==> x in rest)
  }

  /** Every pop in the sense of PoppedBy is one by membership. */
  lemma PoppedByIsPopped(s: Strategy, before: seq<Record>, rec: Record, rest: seq<Record>)
    requires before != [] && PoppedBy(s, before, rec, rest)
    ensures Popped(before, rec, rest)
  {
    forall x | x in before && x != rec
      ensures x in rest
    {
      assert x in multiset(before);
    }
    forall x | x in rest
      ensures x in before
    {
      assert x in multiset(rest);
      assert x in multiset(rest) + multiset{rec};
    }
    assert rec in multiset(before);
  }

  /** Taking out the record at index `k` leaves the others, as a multiset and by membership. */
  lemma RemoveAt(f: seq<Record>, k: nat)
    requires k < |f|
    ensures var rest := f[..k] + f[k + 1..];
      multiset(rest) + multiset{f[k]} == multiset(f) && |rest| == |f| - 1 &&
      forall x :: x in rest ==> x in f
  {
    assert f == f[..k] + [f[k]] + f[k + 1..];
  }
}
