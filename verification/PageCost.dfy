/**
  How many pages it takes to map a range of virtual pages in an Sv39 tree: one
  for each page, and one for each table that is missing on the way to one of them.
 */
module PageCost {
  import opened Sv39

  /** The node of the middle level on the way to page v. */
  function MidNode(v: nat): nat {
    1 + v / FANOUT / FANOUT
  }

  /** The nodes below the root on the way to page v. */
  ghost function PathOf(v: nat): set<nat> {
    {MidNode(v), LowNode(v)}
  }

  /** The nodes on the ways to the n pages from lo on. */
  ghost function Nodes(lo: nat, n: nat): set<nat> {
    if n == 0 then {} else Nodes(lo, n - 1) + PathOf(lo + n - 1)
  }

  /** How many of the nodes have no table yet. */
  ghost function Missing(t: Tables, nodes: set<nat>): nat {
    |nodes - t.Keys|
  }

  /** The pages it takes to map n pages from lo on. */
  ghost function Needed(t: Tables, lo: nat, n: nat): nat {
    n + Missing(t, Nodes(lo, n))
  }

  /** The tree gained exactly the nodes, and the free list lost a page for each new one and n more. */
  ghost predicate Costs(free: nat, t: Tables, free': nat, t': Tables, nodes: set<nat>, n: nat) {
    t'.Keys == t.Keys + nodes && free == free' + n + Missing(t, nodes)
  }

  lemma Union(a: set<nat>, b: set<nat>, c: set<nat>)
    requires c == a + b && a !! b
    ensures |c| == |a| + |b|
  {
  }

  lemma CostsNothing(free: nat, t: Tables)
    ensures Costs(free, t, free, t, {}, 0)
  {
    assert {} - t.Keys == {};
  }

  /** Taking one page for a node that has no table. */
  lemma CostsOne(free: nat, t: Tables, id: nat, f: nat)
    requires id !in t && free > 0
    ensures Costs(free, t, free - 1, t[id := f], {id}, 0)
  {
    assert {id} - t.Keys == {id};
  }

  lemma CostsNone(free: nat, t: Tables, id: nat)
    requires id in t
    ensures Costs(free, t, free, t, {id}, 0)
  {
    assert {id} - t.Keys == {};
  }

  lemma MissingSum(t: Tables, t1: Tables, p: set<nat>, q: set<nat>)
    requires t1.Keys == t.Keys + p
    ensures Missing(t, p + q) == Missing(t, p) + Missing(t1, q)
  {
    Union(p - t.Keys, q - t1.Keys, p + q - t.Keys);
  }

  lemma CostsAdd(f: nat, t: Tables, f1: nat, t1: Tables, p: set<nat>, n: nat, f2: nat, t2: Tables, q: set<nat>, m: nat)
    requires Costs(f, t, f1, t1, p, n) && Costs(f1, t1, f2, t2, q, m)
    ensures Costs(f, t, f2, t2, p + q, n + m)
  {
    MissingSum(t, t1, p, q);
  }

  lemma NodesMore(lo: nat, n: nat)
    ensures Nodes(lo, n + 1) == Nodes(lo, n) + PathOf(lo + n)
  {
  }

  lemma OnePath(v: nat)
    ensures Nodes(v, 1) == PathOf(v)
  {
    assert Nodes(v, 0) == {};
  }

  /** A page taken before the tables on its path. */
  lemma CostsPage(f: nat, t: Tables, f1: nat, t1: Tables, v: nat)
    requires f > 0 && Costs(f - 1, t, f1, t1, Nodes(v, 1), 0)
    ensures Costs(f, t, f1, t1, PathOf(v), 1)
  {
    hide Missing;
    OnePath(v);
  }

  /** A walk that finds the free list empty stops for want of the tables on its path. */
  lemma StopsShort(t: Tables, t1: Tables, p: set<nat>, path: set<nat>, id: nat)
    requires t1.Keys == t.Keys + p && id !in t1 && p + {id} <= path
    ensures Missing(t, p) < Missing(t, path)
  {
    hide Missing;
    MissingSum(t, t1, p, path);
    assert p + path == path;
    SomeMissing(t1, path, id);
  }

  lemma SomeMissing(t: Tables, nodes: set<nat>, id: nat)
    requires id in nodes && id !in t
    ensures Missing(t, nodes) > 0
  {
    assert id in nodes - t.Keys;
  }

  lemma MissingMore(t: Tables, p: set<nat>, q: set<nat>)
    ensures Missing(t, p) <= Missing(t, p + q)
  {
    Union(p - t.Keys, q - t.Keys - p, p + q - t.Keys);
  }

  /** One page more takes itself and the tables still missing on its path. */
  lemma NeededMore(t: Tables, t1: Tables, lo: nat, n: nat)
    requires t1.Keys == t.Keys + Nodes(lo, n)
    ensures Needed(t, lo, n + 1) == Needed(t, lo, n) + 1 + Missing(t1, PathOf(lo + n))
  {
    MissingSum(t, t1, Nodes(lo, n), PathOf(lo + n));
  }

  lemma RunsOut(f: nat, t: Tables, f1: nat, t1: Tables, lo: nat, n: nat, extra: nat)
    requires Costs(f, t, f1, t1, Nodes(lo, n), extra) && f1 < Missing(t1, PathOf(lo + n))
    ensures f < extra + Missing(t, Nodes(lo, n + 1))
  {
    hide Missing;
    MissingSum(t, t1, Nodes(lo, n), PathOf(lo + n));
  }

  lemma {:induction false} NeededGrows(t: Tables, lo: nat, m: nat, n: nat)
    requires m < n
    ensures Needed(t, lo, m) < Needed(t, lo, n)
    decreases n
  {
    hide Missing, PathOf;
    MissingMore(t, Nodes(lo, n - 1), PathOf(lo + n - 1));
    if m < n - 1 { NeededGrows(t, lo, m, n - 1); }
  }
}
