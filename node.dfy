/**
 * smoother/node.py: nodes of a Bayesian network and the order in which to estimate
 * them.
 *
 * `SortNodes` is `sort_nodes`, a depth-first topological sort.  It gives every input
 * node an `added` flag, lets `SortFrom` (the inner `sort_nodes_`) append each node after
 * its in-nodes, and then deletes the flags.  Python's attribute that may be absent is
 * `added: Flag`, with `Absent` for "no attribute".  A node's `in_nodes` never
 * change in this code, so they are a `const`.  The graph must be acyclic.  That is
 * stated with a ranking `rank` that decreases along every in-node edge; the ranking is
 * ghost and drives the termination proof.
 *
 * `Rvs` and `ClearRvs` are the memoisation of samples in `frozen_rvs`.  The
 * distribution's sampler, and `predict` for conditional distributions, are abstract:
 * the caller passes them as one function `sample`.
 */
module Nodes {
  import opened Wrappers
  import opened Sorting
  import Grid

  /** What a node's `distribution` holds: nothing (`None`), a number that fixes the
      node's value, or a distribution to sample from. */
  datatype Source = Unset | Fixed(value: real) | Random

  /** The `added` attribute of a node: absent, `False` or `True`. */
  datatype Flag = Absent | Unmarked | Marked

  /** `sample(node, given, size)`: what the node's distribution draws.  `given` holds
      the in-nodes' samples, one sequence per in-node, and is empty for a node without
      in-nodes. */
  type Sampler = (Node, seq<seq<real>>, nat) -> seq<real>

  class Node {
    const inNodes: seq<Node>
    const name: Option<string>
    const distribution: Source
    var frozen: Option<seq<real>>
    var added: Flag

    /** `Node(in_nodes=[], distribution=None, name=None)`: nothing frozen yet, and no
        `added` attribute. */
    constructor (inNodes: seq<Node> := [], distribution: Source := Unset, name: Option<string> := None)
      ensures this.inNodes == inNodes && this.distribution == distribution && this.name == name
      ensures frozen.None? && added == Absent
    {
      this.inNodes := inNodes;
      this.name := name;
      this.distribution := distribution;
      frozen := None;
      added := Absent;
    }

    /** `rvs(size)`.  A numeric distribution freezes `[value] * size` on every call.
        Otherwise a frozen sample is returned as it is, whatever `size` is; only when
        nothing is frozen are the in-nodes sampled (freezing theirs) and a fresh
        sample drawn and frozen.  The source asserts that a node it has to draw from
        has a distribution; `Ready` is that assertion for every node of the graph.
        Exactly the nodes of `Draws` change, and each then holds what `rvs` freezes
        for it. */
    method Rvs(size: nat, sample: Sampler, ghost G: set<Node>, ghost rank: map<Node, nat>) returns (r: seq<real>)
      requires this in G && Closed(G) && Ranked(G, rank) && Ready(G)
      modifies G`frozen
      ensures frozen == Some(r)
      ensures distribution.Fixed? ==> r == Grid.Const(distribution.value, size)
      ensures !distribution.Fixed? && old(frozen).Some? ==> r == old(frozen).value
      ensures !distribution.Fixed? && old(frozen).None? ==>
        (forall m :: m in inNodes ==> m.frozen.Some?) && r == sample(this, FrozenOf(inNodes), size)
      ensures Ready(G)
      ensures forall n :: n in G && old(n.frozen).Some? ==> Kept(n, old(n.frozen), size)
      ensures forall n :: n in G && n !in Ancestors(this, G, rank) ==> n.frozen == old(n.frozen)
      ensures forall n :: n in G && n !in Draws(this, G, rank, old(FrozenIn(G))) ==> n.frozen == old(n.frozen)
      ensures forall n :: n in Draws(this, G, rank, old(FrozenIn(G))) ==> Sampled(n, size, sample)
      decreases rank[this], 2
    {
      ghost var F := FrozenIn(G);
      ReachInAncestors(this, G, rank, F, FixedIn(G));
      if distribution.Fixed? {
        frozen := Some(Grid.Const(distribution.value, size));
      }
      if frozen.Some? {
        r := frozen.value;
        return;
      }
      var given: seq<seq<real>> := [];
      if |inNodes| > 0 {
        given := GivenRvs(size, sample, G, rank);
      }
      assert given == FrozenOf(inNodes);
      ghost var D := DrawsOf(inNodes, G, rank, F, rank[this]);
      label drawn:
      frozen := Some(sample(this, given, size));
      r := frozen.value;
      forall n | n in D ensures Sampled(n, size, sample) {
        assert n != this && this !in n.inNodes;
        assert old@drawn(Sampled(n, size, sample));
      }
      forall n | n in G && old(n.frozen).Some? ensures Kept(n, old(n.frozen), size) {
        if n in D {
          assert n in FixedIn(G);
        }
      }
    }

    /** `given_rvs(size)`: `rvs(size)` of every in-node, in order, one sequence per
        in-node; each in-node's sample is frozen afterwards.  Exactly the nodes of
        `DrawsOf` the in-nodes change, and each then holds what `rvs` freezes for it. */
    method GivenRvs(size: nat, sample: Sampler, ghost G: set<Node>, ghost rank: map<Node, nat>)
      returns (given: seq<seq<real>>)
      requires this in G && Closed(G) && Ranked(G, rank) && Ready(G) && frozen.None?
      requires |inNodes| > 0
      modifies G`frozen
      ensures |given| == |inNodes| && frozen.None? && Ready(G)
      ensures forall j :: 0 <= j < |inNodes| ==> inNodes[j].frozen == Some(given[j])
      ensures forall n :: n in G && old(n.frozen).Some? ==> Kept(n, old(n.frozen), size)
      ensures forall n :: n in G && n !in Ancestors(this, G, rank) ==> n.frozen == old(n.frozen)
      ensures forall n :: n in G && n !in DrawsOf(inNodes, G, rank, old(FrozenIn(G)), rank[this]) ==>
        n.frozen == old(n.frozen)
      ensures forall n :: n in DrawsOf(inNodes, G, rank, old(FrozenIn(G)), rank[this]) ==> Sampled(n, size, sample)
      decreases rank[this], 1
    {
      ghost var F := FrozenIn(G);
      ghost var L := FixedIn(G);
      ghost var S: set<Node> := {};
      given := [];
      for i := 0 to |inNodes|
        invariant |given| == i
        invariant frozen.None? && Ready(G)
        invariant S == DrawsOf(inNodes[..i], G, rank, F, rank[this])
        invariant forall j :: 0 <= j < i ==> inNodes[j].frozen == Some(given[j])
        invariant forall j :: 0 <= j < i ==> inNodes[j] in S || (inNodes[j] in F && inNodes[j] !in L)
        invariant forall n :: n in G && n !in S ==> n.frozen == old(n.frozen)
        invariant forall n :: n in S ==> Sampled(n, size, sample)
      {
        DrawnSoFar(G, S, F);
        given := RvsOfInNode(i, given, size, sample, G, rank, F, S);
        ReachOfSnoc(inNodes, i, G, rank, F, L, rank[this]);
        S := S + Reach(inNodes[i], G, rank, F, L);
      }
      ReachOfInAncestors(inNodes, G, rank, F, L, rank[this]);
      assert inNodes[..|inNodes|] == inNodes;
      forall n | n in G && old(n.frozen).Some? ensures Kept(n, old(n.frozen), size) {
        if n in DrawsOf(inNodes, G, rank, F, rank[this]) {
          assert n in L;
        }
      }
    }

    /** One step of `given_rvs(size)`: `rvs(size)` of in-node `i`, appended to the
        samples `given` of the in-nodes before it, which have drawn the nodes of `S`;
        the nodes of `F` were frozen before any of them.  It keeps those draws and the
        frozen samples of `F` that are not numbers, and adds the draws of in-node `i`. */
    method RvsOfInNode(i: nat, given: seq<seq<real>>, size: nat, sample: Sampler, ghost G: set<Node>,
                       ghost rank: map<Node, nat>, ghost F: set<Node>, ghost S: set<Node>)
      returns (r: seq<seq<real>>)
      requires this in G && Closed(G) && Ranked(G, rank) && Ready(G) && i < |inNodes| && |given| == i
      requires F <= G && S == DrawsOf(inNodes[..i], G, rank, F, rank[this]) && FrozenIn(G) == F + S
      requires forall n :: n in S ==> Sampled(n, size, sample)
      requires forall j :: 0 <= j < i ==> inNodes[j].frozen == Some(given[j])
      requires forall j :: 0 <= j < i ==> inNodes[j] in S || (inNodes[j] in F && inNodes[j] !in FixedIn(G))
      modifies G`frozen
      ensures |r| == i + 1 && r[..i] == given && frozen == old(frozen) && Ready(G)
      ensures forall j :: 0 <= j <= i ==> inNodes[j].frozen == Some(r[j])
      ensures forall j :: 0 <= j <= i ==>
        inNodes[j] in S + Draws(inNodes[i], G, rank, F) || (inNodes[j] in F && inNodes[j] !in FixedIn(G))
      ensures forall n :: n in G && n !in S + Draws(inNodes[i], G, rank, F) ==> n.frozen == old(n.frozen)
      ensures forall n :: n in S + Draws(inNodes[i], G, rank, F) ==> Sampled(n, size, sample)
      decreases rank[this], 0, 0
    {
      var m := inNodes[i];
      ghost var L := FixedIn(G);
      ReachOfClosedUnder(inNodes[..i], {}, G, rank, F, L, rank[this]);
      ReachAfter(m, S, G, rank, F, L, rank[this]);
      ghost var R := Draws(m, G, rank, F + S);
      ghost var T := Draws(m, G, rank, F);
      ghost var was := Snapshot(G);
      SnapshotSampled(S, G, was, size, sample);
      var drawn := m.Rvs(size, sample, G, rank);
      SampledKept(S, R, G, rank, F, L, rank[this], was, size, sample);
      r := given + [drawn];
      forall j | 0 <= j <= i ensures inNodes[j].frozen == Some(r[j]) {
        if j < i {
          assert r[j] == given[j];
        }
      }
      forall j | 0 <= j <= i ensures inNodes[j] in S + T || (inNodes[j] in F && inNodes[j] !in L) {
        if j == i && (m in L || m !in F) {
          assert m in T;
        }
      }
    }

    /** `clear_rvs()`.  A node with frozen values clears them and then its in-nodes;
        one without leaves everything as it is.  Exactly the nodes of `Clears` are
        cleared.  It returns the node itself. */
    method ClearRvs(ghost G: set<Node>, ghost rank: map<Node, nat>) returns (self: Node)
      requires this in G && Closed(G) && Ranked(G, rank)
      modifies G`frozen
      ensures self == this && frozen.None?
      ensures forall n :: n in G ==> n.frozen.None? || n.frozen == old(n.frozen)
      ensures old(frozen).None? ==> forall n :: n in G ==> n.frozen == old(n.frozen)
      ensures forall n :: n in G && old(n.frozen).Some? && n.frozen.None? ==>
        forall m :: m in n.inNodes ==> m.frozen.None?
      ensures forall n :: n in G && n !in Ancestors(this, G, rank) ==> n.frozen == old(n.frozen)
      ensures forall n :: n in G ==>
        n.frozen == if n in Clears(this, G, rank, old(FrozenIn(G))) then None else old(n.frozen)
      decreases rank[this]
    {
      ghost var Stop := G - FrozenIn(G);
      ReachInAncestors(this, G, rank, Stop, {});
      if frozen.Some? {
        frozen := None;
        for i := 0 to |inNodes|
          invariant forall n :: n in G ==>
            n.frozen == if n in {this} + ReachOf(inNodes[..i], G, rank, Stop, {}, rank[this]) then None else old(n.frozen)
        {
          var c := inNodes[i];
          ghost var S := {this} + ReachOf(inNodes[..i], G, rank, Stop, {}, rank[this]);
          ReachOfClosedUnder(inNodes[..i], {this}, G, rank, Stop, {}, rank[this]);
          ReachAfter(c, S, G, rank, Stop, {}, rank[this]);
          ReachOfSnoc(inNodes, i, G, rank, Stop, {}, rank[this]);
          ClearedSoFar(G, S, old(FrozenIn(G)));
          var _ := c.ClearRvs(G, rank);
        }
        assert inNodes[..|inNodes|] == inNodes;
      }
      forall n, m | n in G && old(n.frozen).Some? && n.frozen.None? && m in n.inNodes
        ensures m.frozen.None?
      {
        ReachClosed(this, n, m, G, rank, Stop, {});
      }
      self := this;
    }
  }

  /** `n` holds what `rvs(size)` freezes for it: `[value] * size` for a number, and
      otherwise a draw given its in-nodes' samples as they now are. */
  ghost predicate Sampled(n: Node, size: nat, sample: Sampler)
    reads n, set m | m in n.inNodes
  {
    n.frozen == Some(if n.distribution.Fixed? then Grid.Const(n.distribution.value, size)
                     else sample(n, FrozenOf(n.inNodes), size))
  }

  /** Once the calls so far have cleared the nodes of `S`, the nodes without a frozen
      sample are the stops and `S`. */
  lemma {:induction false} ClearedSoFar(G: set<Node>, S: set<Node>, F: set<Node>)
    requires S <= G
    requires forall n :: n in G ==> (n.frozen.Some? <==> n in F && n !in S)
    ensures G - FrozenIn(G) == (G - F) + S
  {
  }

  /** Once the calls so far have drawn the nodes of `S`, the frozen nodes are those
      frozen before and `S`. */
  lemma {:induction false} DrawnSoFar(G: set<Node>, S: set<Node>, F: set<Node>)
    requires S <= G && F <= G
    requires forall n :: n in G ==> (n.frozen.Some? <==> n in F || n in S)
    ensures FrozenIn(G) == F + S
  {
  }

  /** The frozen samples of the nodes of `G`, as a value. */
  ghost function Snapshot(G: set<Node>): map<Node, Option<seq<real>>>
    reads G
  {
    map n | n in G :: n.frozen
  }

  /** `FrozenOf` read from a snapshot. */
  ghost function FrozenOfIn(s: seq<Node>, was: map<Node, Option<seq<real>>>): seq<seq<real>>
    requires forall k :: k in s ==> k in was
  {
    seq(|s|, i requires 0 <= i < |s| => if was[s[i]].Some? then was[s[i]].value else [])
  }

  /** `Sampled` read from a snapshot. */
  ghost predicate SampledIn(n: Node, was: map<Node, Option<seq<real>>>, size: nat, sample: Sampler)
    requires n in was && forall k :: k in n.inNodes ==> k in was
  {
    was[n] == Some(if n.distribution.Fixed? then Grid.Const(n.distribution.value, size)
                   else sample(n, FrozenOfIn(n.inNodes, was), size))
  }

  /** Where the snapshot agrees with the node and its in-nodes, it tells whether the
      node holds its draw. */
  lemma {:induction false} SampledAsSnapshot(n: Node, was: map<Node, Option<seq<real>>>, size: nat, sample: Sampler)
    requires n in was && (forall k :: k in n.inNodes ==> k in was)
    requires was[n] == n.frozen && forall k :: k in n.inNodes ==> was[k] == k.frozen
    ensures Sampled(n, size, sample) <==> SampledIn(n, was, size, sample)
  {
    assert FrozenOf(n.inNodes) == FrozenOfIn(n.inNodes, was);
  }

  /** A snapshot of a graph whose nodes of `S` hold their draws records that. */
  lemma {:induction false} SnapshotSampled(S: set<Node>, G: set<Node>, was: map<Node, Option<seq<real>>>, size: nat, sample: Sampler)
    requires Closed(G) && S <= G && was == Snapshot(G)
    requires forall n :: n in S ==> Sampled(n, size, sample)
    ensures forall n :: n in S ==> SampledIn(n, was, size, sample)
  {
    forall n | n in S ensures SampledIn(n, was, size, sample) {
      SampledAsSnapshot(n, was, size, sample);
    }
  }

  /** A later call that changes only the nodes of `R`, each a number or a node that
      was not frozen, and leaves each of them holding its draw, keeps what the
      earlier calls drew into the closed set `S`. */
  lemma {:induction false} SampledKept(S: set<Node>, R: set<Node>, G: set<Node>, rank: map<Node, nat>, F: set<Node>, L: set<Node>,
                                      top: nat, was: map<Node, Option<seq<real>>>, size: nat, sample: Sampler)
    requires Closed(G) && Ranked(G, rank) && ClosedUnder(S, G, rank, F, L, top) && L == FixedIn(G)
    requires S <= G && F <= G && G <= was.Keys
    requires forall n :: n in S ==> rank[n] < top && (n in L || n !in F) && SampledIn(n, was, size, sample)
    requires forall n :: n in G && n !in R ==> n.frozen == was[n]
    requires forall n :: n in R ==> Sampled(n, size, sample) && (n in L || n !in F + S)
    ensures forall n :: n in S || (n in F && n !in L) ==> n.frozen == was[n]
    ensures forall n :: n in S ==> Sampled(n, size, sample)
  {
    forall n | n in S ensures Sampled(n, size, sample) {
      if n !in R && n !in L {
        forall k | k in n.inNodes ensures was[k] == k.frozen {
          if k in R {
            assert k in S && k in L;
          }
        }
        SampledAsSnapshot(n, was, size, sample);
      }
    }
  }

  /** The frozen samples of `s`, one per node (empty where none is frozen). */
  function FrozenOf(s: seq<Node>): (r: seq<seq<real>>)
    reads set n | n in s
    ensures |r| == |s| && forall i :: 0 <= i < |s| && s[i].frozen.Some? ==> r[i] == s[i].frozen.value
  {
    seq(|s|, i requires 0 <= i < |s| reads s => if s[i].frozen.Some? then s[i].frozen.value else [])
  }

  /** A frozen sample survives a later `rvs(size)`, except that a numeric node freezes
      `[value] * size` again. */
  ghost predicate Kept(n: Node, before: Option<seq<real>>, size: nat)
    reads n
  {
    n.frozen == before || (n.distribution.Fixed? && n.frozen == Some(Grid.Const(n.distribution.value, size)))
  }

  /** Every node that `rvs` may have to draw from has a distribution. */
  ghost predicate Ready(G: set<Node>)
    reads G
  {
    forall n :: n in G ==> n.distribution != Unset || n.frozen.Some?
  }

  // ------------------------------------------------------------------ the graph

  /** Every in-node of a node of `G` is in `G`. */
  ghost predicate Closed(G: set<Node>)
  {
    forall n, m :: n in G && m in n.inNodes ==> m in G
  }

  /** `rank` decreases along every in-node edge of `G`: the graph is acyclic. */
  ghost predicate Ranked(G: set<Node>, rank: map<Node, nat>)
  {
    (forall n :: n in G ==> n in rank) &&
    forall n, m :: n in G && m in n.inNodes ==> m in rank && rank[m] < rank[n]
  }

  /** `n` and, through `inNodes`, every node it depends on: what `rvs` and `clear_rvs`
      on `n` may reach. */
  ghost function Ancestors(n: Node, G: set<Node>, rank: map<Node, nat>): (a: set<Node>)
    requires n in G && Closed(G) && Ranked(G, rank)
    ensures n in a
    ensures forall m :: m in a ==> m in G && (m == n || rank[m] < rank[n])
    decreases rank[n], 1, 0
  {
    {n} + AncestorsOf(n.inNodes, G, rank, rank[n])
  }

  /** The ancestors of the nodes of `s`, all of rank below `top`. */
  ghost function AncestorsOf(s: seq<Node>, G: set<Node>, rank: map<Node, nat>, top: nat): (a: set<Node>)
    requires Closed(G) && Ranked(G, rank)
    requires forall m :: m in s ==> m in G && rank[m] < top
    ensures forall m :: m in a ==> m in G && rank[m] < top
    decreases top, 0, |s|
  {
    if |s| == 0 then {}
    else AncestorsOf(s[..|s| - 1], G, rank, top) + Ancestors(s[|s| - 1], G, rank)
  }

  /** An in-node's ancestors are ancestors of the node. */
  lemma {:induction false} InNodeAncestors(n: Node, m: Node, G: set<Node>, rank: map<Node, nat>)
    requires n in G && Closed(G) && Ranked(G, rank) && m in n.inNodes
    ensures Ancestors(m, G, rank) <= Ancestors(n, G, rank)
  {
    InSeqAncestors(n.inNodes, m, G, rank, rank[n]);
  }

  lemma {:induction false} InSeqAncestors(s: seq<Node>, m: Node, G: set<Node>, rank: map<Node, nat>, top: nat)
    requires Closed(G) && Ranked(G, rank) && m in s
    requires forall k :: k in s ==> k in G && rank[k] < top
    ensures Ancestors(m, G, rank) <= AncestorsOf(s, G, rank, top)
    decreases |s|
  {
    if s[|s| - 1] != m {
      assert m in s[..|s| - 1] by {
        var k :| 0 <= k < |s| && s[k] == m;
        assert s[..|s| - 1][k] == m;
      }
      InSeqAncestors(s[..|s| - 1], m, G, rank, top);
    }
  }

  // ----------------------------------------------------- what rvs and clear_rvs reach

  /** The nodes of `G` that hold a frozen sample. */
  ghost function FrozenIn(G: set<Node>): set<Node>
    reads G
  {
    set n | n in G && n.frozen.Some?
  }

  /** The nodes of `G` whose distribution is a number. */
  ghost function FixedIn(G: set<Node>): set<Node>
  {
    set n | n in G && n.distribution.Fixed?
  }

  /** What `rvs` on a node of `s`, all of rank below `top`, draws or freezes. */
  ghost function DrawsOf(s: seq<Node>, G: set<Node>, rank: map<Node, nat>, F: set<Node>, top: nat): set<Node>
    requires Closed(G) && Ranked(G, rank)
    requires forall m :: m in s ==> m in G && rank[m] < top
  {
    ReachOf(s, G, rank, F, FixedIn(G), top)
  }

  /** The nodes a recursive call on `n` touches when it stops at the nodes of `Stop`
      and, at the nodes of `Leaf`, touches the node but not its in-nodes. */
  ghost function Reach(n: Node, G: set<Node>, rank: map<Node, nat>, Stop: set<Node>, Leaf: set<Node>): (a: set<Node>)
    requires n in G && Closed(G) && Ranked(G, rank)
    ensures forall m :: m in a ==> m in G && (m in Leaf || m !in Stop) && (m == n || rank[m] < rank[n])
    decreases rank[n], 1, 0
  {
    if n in Leaf then {n}
    else if n in Stop then {}
    else {n} + ReachOf(n.inNodes, G, rank, Stop, Leaf, rank[n])
  }

  /** What the calls on the nodes of `s`, all of rank below `top`, touch together. */
  ghost function ReachOf(s: seq<Node>, G: set<Node>, rank: map<Node, nat>, Stop: set<Node>, Leaf: set<Node>, top: nat): (a: set<Node>)
    requires Closed(G) && Ranked(G, rank)
    requires forall m :: m in s ==> m in G && rank[m] < top
    ensures forall m :: m in a ==> m in G && (m in Leaf || m !in Stop) && rank[m] < top
    decreases top, 0, |s|
  {
    if |s| == 0 then {}
    else ReachOf(s[..|s| - 1], G, rank, Stop, Leaf, top) + Reach(s[|s| - 1], G, rank, Stop, Leaf)
  }

  /** The nodes `rvs` on `n` draws or, for a number, freezes, when the nodes of `F`
      hold frozen samples: it stops at a number and at a frozen node. */
  ghost function Draws(n: Node, G: set<Node>, rank: map<Node, nat>, F: set<Node>): set<Node>
    requires n in G && Closed(G) && Ranked(G, rank)
  {
    Reach(n, G, rank, F, FixedIn(G))
  }

  /** The nodes `clear_rvs` on `n` clears when the nodes of `F` hold frozen samples:
      it stops at a node with nothing frozen. */
  ghost function Clears(n: Node, G: set<Node>, rank: map<Node, nat>, F: set<Node>): set<Node>
    requires n in G && Closed(G) && Ranked(G, rank)
  {
    Reach(n, G, rank, G - F, {})
  }

  /** Below rank `top`, a node of `S` that is neither a leaf nor a stop has every
      in-node in `S` or among the stops. */
  ghost predicate ClosedUnder(S: set<Node>, G: set<Node>, rank: map<Node, nat>, Stop: set<Node>, Leaf: set<Node>, top: nat)
    requires Ranked(G, rank)
  {
    forall n, m :: n in S && n in G && rank[n] < top && n !in Leaf && n !in Stop && m in n.inNodes ==>
      m in S || (m in Stop && m !in Leaf)
  }

  /** A node the call reaches is reached through each of its in-nodes that is not a
      stop. */
  lemma {:induction false} ReachClosed(c: Node, n: Node, m: Node, G: set<Node>, rank: map<Node, nat>, Stop: set<Node>, Leaf: set<Node>)
    requires c in G && Closed(G) && Ranked(G, rank)
    requires n in Reach(c, G, rank, Stop, Leaf) && n !in Leaf && n !in Stop && m in n.inNodes
    ensures m in Reach(c, G, rank, Stop, Leaf) || (m in Stop && m !in Leaf)
    decreases rank[c], 1
  {
    if n == c {
      if m in Leaf || m !in Stop {
        InSeqReach(c.inNodes, m, G, rank, Stop, Leaf, rank[c]);
      }
    } else {
      ReachOfClosed(c.inNodes, n, m, G, rank, Stop, Leaf, rank[c]);
    }
  }

  lemma {:induction false} ReachOfClosed(s: seq<Node>, n: Node, m: Node, G: set<Node>, rank: map<Node, nat>, Stop: set<Node>, Leaf: set<Node>, top: nat)
    requires Closed(G) && Ranked(G, rank)
    requires forall k :: k in s ==> k in G && rank[k] < top
    requires n in ReachOf(s, G, rank, Stop, Leaf, top) && n !in Leaf && n !in Stop && m in n.inNodes
    ensures m in ReachOf(s, G, rank, Stop, Leaf, top) || (m in Stop && m !in Leaf)
    decreases top, 0, |s|
  {
    var init, last := s[..|s| - 1], s[|s| - 1];
    if n in Reach(last, G, rank, Stop, Leaf) {
      ReachClosed(last, n, m, G, rank, Stop, Leaf);
    } else {
      ReachOfClosed(init, n, m, G, rank, Stop, Leaf, top);
    }
  }

  /** What the call on a member of `s` touches, the calls on `s` touch. */
  lemma {:induction false} InSeqReach(s: seq<Node>, m: Node, G: set<Node>, rank: map<Node, nat>, Stop: set<Node>, Leaf: set<Node>, top: nat)
    requires Closed(G) && Ranked(G, rank) && m in s
    requires forall k :: k in s ==> k in G && rank[k] < top
    ensures Reach(m, G, rank, Stop, Leaf) <= ReachOf(s, G, rank, Stop, Leaf, top)
    decreases |s|
  {
    if s[|s| - 1] != m {
      assert m in s[..|s| - 1] by {
        var k :| 0 <= k < |s| && s[k] == m;
        assert s[..|s| - 1][k] == m;
      }
      InSeqReach(s[..|s| - 1], m, G, rank, Stop, Leaf, top);
    }
  }

  /** The calls on a prefix and then on one more node touch what the calls on the
      longer prefix touch. */
  lemma {:induction false} ReachOfSnoc(s: seq<Node>, i: nat, G: set<Node>, rank: map<Node, nat>, Stop: set<Node>, Leaf: set<Node>, top: nat)
    requires Closed(G) && Ranked(G, rank) && i < |s|
    requires forall k :: k in s ==> k in G && rank[k] < top
    ensures ReachOf(s[..i + 1], G, rank, Stop, Leaf, top) ==
      ReachOf(s[..i], G, rank, Stop, Leaf, top) + Reach(s[i], G, rank, Stop, Leaf)
  {
    assert s[..i + 1][..i] == s[..i];
  }

  /** The calls on the nodes of `s` touch a closed set, also with nodes of rank `top`
      or more added. */
  lemma {:induction false} ReachOfClosedUnder(s: seq<Node>, X: set<Node>, G: set<Node>, rank: map<Node, nat>, Stop: set<Node>, Leaf: set<Node>, top: nat)
    requires Closed(G) && Ranked(G, rank)
    requires forall k :: k in s ==> k in G && rank[k] < top
    requires forall x :: x in X && x in G ==> rank[x] >= top
    ensures ClosedUnder(X + ReachOf(s, G, rank, Stop, Leaf, top), G, rank, Stop, Leaf, top)
    ensures ClosedUnder(ReachOf(s, G, rank, Stop, Leaf, top), G, rank, Stop, Leaf, top)
  {
    forall n, m | n in X + ReachOf(s, G, rank, Stop, Leaf, top) && n in G && rank[n] < top && n !in Leaf && n !in Stop && m in n.inNodes
      ensures m in X + ReachOf(s, G, rank, Stop, Leaf, top) || (m in Stop && m !in Leaf)
    {
      ReachOfClosed(s, n, m, G, rank, Stop, Leaf, top);
    }
  }

  /** From a node of a closed set `S`, the call touches nothing outside `S`. */
  lemma {:induction false} ReachInClosed(c: Node, S: set<Node>, G: set<Node>, rank: map<Node, nat>, Stop: set<Node>, Leaf: set<Node>, top: nat)
    requires c in G && Closed(G) && Ranked(G, rank) && ClosedUnder(S, G, rank, Stop, Leaf, top)
    requires rank[c] < top && (c in S || (c in Stop && c !in Leaf))
    ensures Reach(c, G, rank, Stop, Leaf) <= S
    decreases rank[c], 1
  {
    if c !in Leaf && c !in Stop {
      ReachOfInClosed(c.inNodes, S, G, rank, Stop, Leaf, top, rank[c]);
    }
  }

  lemma {:induction false} ReachOfInClosed(s: seq<Node>, S: set<Node>, G: set<Node>, rank: map<Node, nat>, Stop: set<Node>, Leaf: set<Node>, top: nat, t: nat)
    requires Closed(G) && Ranked(G, rank) && ClosedUnder(S, G, rank, Stop, Leaf, top) && t <= top
    requires forall k :: k in s ==> k in G && rank[k] < t && (k in S || (k in Stop && k !in Leaf))
    ensures ReachOf(s, G, rank, Stop, Leaf, t) <= S
    decreases t, 0, |s|
  {
    if |s| > 0 {
      ReachOfInClosed(s[..|s| - 1], S, G, rank, Stop, Leaf, top, t);
      ReachInClosed(s[|s| - 1], S, G, rank, Stop, Leaf, top);
    }
  }

  /** Once the nodes of a closed set `S` count as stops too, a later call touches,
      together with `S`, exactly what it would have touched before. */
  lemma {:induction false} ReachAfter(c: Node, S: set<Node>, G: set<Node>, rank: map<Node, nat>, Stop: set<Node>, Leaf: set<Node>, top: nat)
    requires c in G && Closed(G) && Ranked(G, rank) && ClosedUnder(S, G, rank, Stop, Leaf, top) && rank[c] < top
    ensures S + Reach(c, G, rank, Stop + S, Leaf) == S + Reach(c, G, rank, Stop, Leaf)
    decreases rank[c], 1
  {
    if c !in Leaf {
      if c in S {
        ReachInClosed(c, S, G, rank, Stop, Leaf, top);
      } else if c !in Stop {
        ReachOfAfter(c.inNodes, S, G, rank, Stop, Leaf, top, rank[c]);
      }
    }
  }

  lemma {:induction false} ReachOfAfter(s: seq<Node>, S: set<Node>, G: set<Node>, rank: map<Node, nat>, Stop: set<Node>, Leaf: set<Node>, top: nat, t: nat)
    requires Closed(G) && Ranked(G, rank) && ClosedUnder(S, G, rank, Stop, Leaf, top) && t <= top
    requires forall k :: k in s ==> k in G && rank[k] < t
    ensures S + ReachOf(s, G, rank, Stop + S, Leaf, t) == S + ReachOf(s, G, rank, Stop, Leaf, t)
    decreases t, 0, |s|
  {
    if |s| > 0 {
      ReachOfAfter(s[..|s| - 1], S, G, rank, Stop, Leaf, top, t);
      ReachAfter(s[|s| - 1], S, G, rank, Stop, Leaf, top);
    }
  }

  /** What a call touches are ancestors of the node. */
  lemma {:induction false} ReachInAncestors(c: Node, G: set<Node>, rank: map<Node, nat>, Stop: set<Node>, Leaf: set<Node>)
    requires c in G && Closed(G) && Ranked(G, rank)
    ensures Reach(c, G, rank, Stop, Leaf) <= Ancestors(c, G, rank)
    decreases rank[c], 1
  {
    if c !in Leaf && c !in Stop {
      ReachOfInAncestors(c.inNodes, G, rank, Stop, Leaf, rank[c]);
    }
  }

  lemma {:induction false} ReachOfInAncestors(s: seq<Node>, G: set<Node>, rank: map<Node, nat>, Stop: set<Node>, Leaf: set<Node>, t: nat)
    requires Closed(G) && Ranked(G, rank)
    requires forall k :: k in s ==> k in G && rank[k] < t
    ensures ReachOf(s, G, rank, Stop, Leaf, t) <= AncestorsOf(s, G, rank, t)
    decreases t, 0, |s|
  {
    if |s| > 0 {
      ReachOfInAncestors(s[..|s| - 1], G, rank, Stop, Leaf, t);
      ReachInAncestors(s[|s| - 1], G, rank, Stop, Leaf);
    }
  }

  /** One more than the largest rank in `s`. */
  ghost function Bound(s: seq<Node>, rank: map<Node, nat>): (b: nat)
    requires forall n :: n in s ==> n in rank
    ensures forall n :: n in s ==> rank[n] < b
  {
    if |s| == 0 then 0
    else
      var b := Bound(s[..|s| - 1], rank);
      var last := s[|s| - 1];
      assert forall n :: n in s ==> n in s[..|s| - 1] || n == last;
      if rank[last] < b then b else rank[last] + 1
  }

  lemma {:induction false} BoundAtMost(s: seq<Node>, rank: map<Node, nat>, c: nat)
    requires forall n :: n in s ==> n in rank && rank[n] < c
    ensures Bound(s, rank) <= c
  {
    if |s| > 0 {
      BoundAtMost(s[..|s| - 1], rank, c);
    }
  }

  predicate NoDuplicates(s: seq<Node>)
  {
    forall i, j :: 0 <= i < j < |s| ==> s[i] != s[j]
  }

  ghost function Members(s: seq<Node>): set<Node>
  {
    set n | n in s
  }

  /** Every node of `r` comes after each of its in-nodes, unless that in-node is in
      `done` (already placed before `r` started). */
  ghost predicate AfterInNodes(r: seq<Node>, done: set<Node>)
  {
    forall i, m :: 0 <= i < |r| && m in r[i].inNodes ==> m in done || m in r[..i]
  }

  // --------------------------------------------------------------- the flags

  /** The nodes of `G` whose `added` flag is set. */
  ghost function Added(G: set<Node>): set<Node>
    reads G
  {
    set n | n in G && n.added == Marked
  }

  /** Every node of `G` has an `added` attribute. */
  ghost predicate Flagged(G: set<Node>)
    reads G
  {
    forall n :: n in G ==> n.added != Absent
  }

  // ----------------------------------------------------------------- presort

  /** `[node for node in nodes if not node.added]`; reading the flag needs it to
      exist. */
  function Pending(list: seq<Node>): (p: seq<Node>)
    requires forall n :: n in list ==> n.added != Absent
    reads set n | n in list
    ensures forall i :: 0 <= i < |p| ==> p[i] in list && p[i].added == Unmarked
    ensures forall i :: 0 <= i < |list| && list[i].added == Unmarked ==> list[i] in p
  {
    if |list| == 0 then []
    else
      var init := list[..|list| - 1];
      var last := list[|list| - 1];
      var q := Pending(init);
      var p := q + (if last.added == Marked then [] else [last]);
      assert forall i :: 0 <= i < |p| ==> p[i] in list && p[i].added == Unmarked by {
        forall i | 0 <= i < |p| ensures p[i] in list && p[i].added == Unmarked {
          if i < |q| {
            assert p[i] == q[i];
            InPrefix(list, |list| - 1, q[i]);
          } else {
            assert p[i] == last;
          }
        }
      }
      assert forall i :: 0 <= i < |list| - 1 ==> list[i] == init[i];
      p
  }

  /** The positions in `list` of the unflagged nodes, in increasing order. */
  ghost function PendingIndices(list: seq<Node>): seq<nat>
    requires forall n :: n in list ==> n.added != Absent
    reads set n | n in list
  {
    if |list| == 0 then []
    else
      var init := list[..|list| - 1];
      assert forall i :: 0 <= i < |list| - 1 ==> list[i] == init[i];
      PendingIndices(init) + (if list[|list| - 1].added == Marked then [] else [|list| - 1])
  }

  /** `Pending` keeps exactly the unflagged entries of the list, in list order: it reads
      the list at strictly increasing positions, and these are all the positions of
      unflagged nodes. */
  lemma {:induction false} PendingIsFilter(list: seq<Node>)
    requires forall n :: n in list ==> n.added != Absent
    ensures var idx, p := PendingIndices(list), Pending(list);
      |idx| == |p| &&
      (forall k :: 0 <= k < |idx| ==> idx[k] < |list| && p[k] == list[idx[k]]) &&
      (forall k, l :: 0 <= k < l < |idx| ==> idx[k] < idx[l]) &&
      (forall i :: 0 <= i < |list| && list[i].added == Unmarked ==> i in idx)
  {
    if |list| > 0 {
      var init := list[..|list| - 1];
      var last := list[|list| - 1];
      PendingIsFilter(init);
      var q, pi := PendingIndices(init), Pending(init);
      var idx, p := PendingIndices(list), Pending(list);
      assert forall i :: 0 <= i < |list| - 1 ==> list[i] == init[i];
      assert idx == q + (if last.added == Marked then [] else [|list| - 1]);
      assert p == pi + (if last.added == Marked then [] else [last]);
      forall k | 0 <= k < |idx| ensures idx[k] < |list| && p[k] == list[idx[k]] {
        if k < |q| {
          assert idx[k] == q[k] && p[k] == pi[k];
        }
      }
      forall i | 0 <= i < |list| && list[i].added == Unmarked ensures i in idx {
        if i < |list| - 1 {
          assert list[i] == init[i];
          assert i in q;
        }
      }
    }
  }

  lemma {:induction false} InPrefix(s: seq<Node>, k: nat, x: Node)
    requires k <= |s| && x in s[..k]
    ensures x in s
  {
    var j :| 0 <= j < k && s[..k][j] == x;
    assert s[j] == x;
  }

  /** The presort key: the number of in-nodes, negated when sorting in reverse. */
  function PresortKey(n: Node, reverse: bool): (k: int)
    ensures (if reverse then -k else k) == |n.inNodes|
  {
    if reverse then -|n.inNodes| else |n.inNodes|
  }

  function KeyedBy(p: seq<Node>, reverse: bool): (r: seq<Keyed<Node>>)
    ensures |r| == |p| && forall i :: 0 <= i < |p| ==> r[i] == Keyed(PresortKey(p[i], reverse), p[i])
  {
    seq(|p|, i requires 0 <= i < |p| => Keyed(PresortKey(p[i], reverse), p[i]))
  }

  /** `presort_nodes`, with the key the `reverse` flag evidently means (the shuffle is
      left out): the pending nodes, stably sorted by in-node count when `presort` is
      set, from most to fewest with `reverse` and from fewest to most without. */
  function Presort(list: seq<Node>, presort: bool, reverse: bool): (r: seq<Node>)
    requires forall n :: n in list ==> n.added != Absent
    reads set n | n in list
    ensures forall i :: 0 <= i < |r| ==> r[i] in list && r[i].added == Unmarked
    ensures forall i :: 0 <= i < |list| && list[i].added == Unmarked ==> list[i] in r
    ensures multiset(r) == multiset(Pending(list))
  {
    var p := Pending(list);
    if presort then
      var keyed := KeyedBy(p, reverse);
      var r := Items(SortByKey(keyed));
      assert Items(keyed) == p;
      SortItems(keyed);
      SameMembers(r, p);
      r
    else p
  }

  lemma {:induction false} SameMembers(a: seq<Node>, b: seq<Node>)
    requires multiset(a) == multiset(b)
    ensures forall i :: 0 <= i < |a| ==> a[i] in b
    ensures forall i :: 0 <= i < |b| ==> b[i] in a
  {
    forall i | 0 <= i < |a| ensures a[i] in b { assert a[i] in multiset(a); }
    forall i | 0 <= i < |b| ensures b[i] in a { assert b[i] in multiset(b); }
  }

  /** With `presort` the nodes come out ordered by in-node count: nonincreasing with
      `reverse`, nondecreasing without. */
  lemma {:induction false} PresortOrdered(list: seq<Node>, reverse: bool)
    requires forall n :: n in list ==> n.added != Absent
    ensures var r := Presort(list, true, reverse);
      forall i, j :: 0 <= i < j < |r| ==>
        if reverse then |r[i].inNodes| >= |r[j].inNodes| else |r[i].inNodes| <= |r[j].inNodes|
  {
    var p := Pending(list);
    var keyed := KeyedBy(p, reverse);
    var s := SortByKey(keyed);
    SortedKeys(keyed, reverse);
    var r := Items(s);
    assert Presort(list, true, reverse) == r;
    forall i, j | 0 <= i < j < |r|
      ensures if reverse then |r[i].inNodes| >= |r[j].inNodes| else |r[i].inNodes| <= |r[j].inNodes|
    {
      assert r[i] == s[i].item && r[j] == s[j].item;
      assert s[i].key == PresortKey(s[i].item, reverse) && s[j].key == PresortKey(s[j].item, reverse);
      assert s[i].key <= s[j].key;
    }
  }

  /** Every entry's key is the presort key of its node. */
  predicate KeyedByPresort(s: seq<Keyed<Node>>, reverse: bool)
  {
    forall k :: 0 <= k < |s| ==> s[k].key == PresortKey(s[k].item, reverse)
  }

  /** Sorting keeps every entry's key the presort key of its node. */
  lemma {:induction false} SortedKeys(keyed: seq<Keyed<Node>>, reverse: bool)
    requires KeyedByPresort(keyed, reverse)
    ensures KeyedByPresort(SortByKey(keyed), reverse)
  {
    var s := SortByKey(keyed);
    forall k | 0 <= k < |s| ensures s[k].key == PresortKey(s[k].item, reverse) {
      assert s[k] in multiset(keyed);
    }
  }

  /** The nodes of `s` with exactly `c` in-nodes, in their order in `s`. */
  function WithInCount(s: seq<Node>, c: nat): seq<Node>
  {
    if |s| == 0 then []
    else WithInCount(s[..|s| - 1], c) + (if |s[|s| - 1].inNodes| == c then [s[|s| - 1]] else [])
  }

  /** The presort is stable: nodes with the same number of in-nodes keep the order
      they have in the list. */
  lemma {:induction false} PresortStable(list: seq<Node>, reverse: bool, c: nat)
    requires forall n :: n in list ==> n.added != Absent
    ensures WithInCount(Presort(list, true, reverse), c) == WithInCount(Pending(list), c)
  {
    var p := Pending(list);
    var keyed := KeyedBy(p, reverse);
    var s := SortByKey(keyed);
    var key: int := if reverse then -(c as int) else c;
    SortedKeys(keyed, reverse);
    SortStable(keyed, key);
    KeyedWithInCount(s, reverse, c);
    KeyedWithInCount(keyed, reverse, c);
    assert Items(keyed) == p;
    assert Presort(list, true, reverse) == Items(s);
  }

  /** When every key is its node's presort key, the entries with the key of count `c`
      are the nodes with `c` in-nodes. */
  lemma {:induction false} KeyedWithInCount(s: seq<Keyed<Node>>, reverse: bool, c: nat)
    requires KeyedByPresort(s, reverse)
    ensures Items(WithKey(s, if reverse then -(c as int) else c)) == WithInCount(Items(s), c)
  {
    var key: int := if reverse then -(c as int) else c;
    if |s| > 0 {
      var init, last := s[..|s| - 1], s[|s| - 1];
      KeyedWithInCount(init, reverse, c);
      var tail := if last.key == key then [last] else [];
      assert Items(WithKey(init, key) + tail) == Items(WithKey(init, key)) + Items(tail);
      assert Items(s)[..|s| - 1] == Items(init);
      assert last.key == key <==> |last.item.inNodes| == c;
    }
  }

  /** `presort_nodes` as written.  Its key with `reverse=False` is
      `lambda node: (lambda node: len(node.in_nodes))`, a function returning a
      function, so `sorted` has to compare two functions and raises `TypeError` as soon
      as two nodes are pending.  `None` stands for that error. */
  function PresortAsWritten(list: seq<Node>, presort: bool, reverse: bool): (r: Option<seq<Node>>)
    requires forall n :: n in list ==> n.added != Absent
    reads set n | n in list
    ensures r.Some? ==> r.value == Presort(list, presort, reverse)
  {
    if presort && !reverse && |Pending(list)| >= 2 then None
    else Some(Presort(list, presort, reverse))
  }

  /** The counterexample: with `presort=True, reverse=False` and two pending nodes the
      code as written fails, while the intended presort orders them by in-node count. */
  lemma {:induction false} AscendingPresortFails(list: seq<Node>)
    requires forall n :: n in list ==> n.added != Absent
    requires exists i, j ::
      0 <= i < j < |list| && list[i] != list[j] && list[i].added == Unmarked && list[j].added == Unmarked
    ensures PresortAsWritten(list, true, false).None?
    ensures var r := Presort(list, true, false);
      |r| >= 2 && forall i, j :: 0 <= i < j < |r| ==> |r[i].inNodes| <= |r[j].inNodes|
  {
    var i, j :| 0 <= i < j < |list| && list[i] != list[j] &&
      list[i].added == Unmarked && list[j].added == Unmarked;
    var p := Pending(list);
    assert list[i] in p && list[j] in p;
    assert |p| >= 2;
    PresortOrdered(list, false);
  }

  // -------------------------------------------------------------------- sorting

  /** `sort_nodes_(list)`: appends, in presorted order, every pending node after
      (recursively) its pending in-nodes, setting each appended node's flag.
      The result is exactly the nodes flagged by this call, each once; every node of
      `list` ends up flagged; and each node comes after its in-nodes unless they were
      flagged before the call.  A flagged node's in-nodes are always flagged. */
  method SortFrom(list: seq<Node>, presort: bool, reverse: bool, ghost G: set<Node>, ghost rank: map<Node, nat>)
    returns (r: seq<Node>)
    requires Closed(G) && Ranked(G, rank) && Flagged(G) && Closed(Added(G))
    requires forall n :: n in list ==> n in G
    modifies G`added
    ensures Flagged(G) && Closed(Added(G))
    ensures Added(G) == old(Added(G)) + Members(r) && old(Added(G)) !! Members(r)
    ensures NoDuplicates(r)
    ensures forall n :: n in list ==> n in Added(G)
    ensures forall n :: n in r ==> n in G && rank[n] < Bound(list, rank)
    ensures AfterInNodes(r, old(Added(G)))
    decreases Bound(list, rank), 1
  {
    var cands := Presort(list, presort, reverse);
    ghost var done := Added(G);
    forall i | 0 <= i < |list| ensures list[i] in cands || list[i] in done {
      assert list[i] in G;
      if list[i].added == Unmarked {
        assert list[i] in cands;
      } else {
        assert list[i] in done;
      }
    }
    r := [];
    for k := 0 to |cands|
      invariant Flagged(G) && Closed(Added(G))
      invariant Added(G) == done + Members(r) && done !! Members(r)
      invariant NoDuplicates(r) && AfterInNodes(r, done)
      invariant forall n :: n in r ==> n in G && rank[n] < Bound(list, rank)
      invariant forall j :: 0 <= j < k ==> cands[j] in Added(G)
    {
      r := Visit(cands[k], r, done, presort, reverse, G, rank, Bound(list, rank));
    }
  }

  /** One turn of the loop in `sort_nodes_`: an unflagged node gets its unflagged
      in-nodes sorted first, then is flagged and appended. */
  method Visit(node: Node, r0: seq<Node>, ghost done: set<Node>, presort: bool, reverse: bool,
               ghost G: set<Node>, ghost rank: map<Node, nat>, ghost bound: nat)
    returns (r: seq<Node>)
    requires Closed(G) && Ranked(G, rank) && Flagged(G) && Closed(Added(G))
    requires node in G && rank[node] < bound
    requires Added(G) == done + Members(r0) && done !! Members(r0)
    requires NoDuplicates(r0) && AfterInNodes(r0, done)
    requires forall n :: n in r0 ==> n in G && rank[n] < bound
    modifies G`added
    ensures Flagged(G) && Closed(Added(G))
    ensures Added(G) == done + Members(r) && done !! Members(r)
    ensures NoDuplicates(r) && AfterInNodes(r, done)
    ensures forall n :: n in r ==> n in G && rank[n] < bound
    ensures node in Added(G) && old(Added(G)) <= Added(G)
    decreases rank[node] + 1, 0
  {
    r := r0;
    if node.added != Marked {
      if !(forall m | m in node.inNodes :: m.added == Marked) {
        BoundAtMost(node.inNodes, rank, rank[node]);
        var sub := SortFrom(node.inNodes, presort, reverse, G, rank);
        AppendAfter(r, sub, done);
        r := r + sub;
      }
      r := Append(node, r, done, G, rank, bound);
    }
  }

  /** `node.added = True; sorted_nodes.append(node)`, once every in-node is flagged. */
  method Append(node: Node, r0: seq<Node>, ghost done: set<Node>,
                ghost G: set<Node>, ghost rank: map<Node, nat>, ghost bound: nat)
    returns (r: seq<Node>)
    requires Ranked(G, rank) && Flagged(G) && Closed(Added(G))
    requires node in G && rank[node] < bound && node !in Added(G)
    requires forall m :: m in node.inNodes ==> m in Added(G)
    requires Added(G) == done + Members(r0) && done !! Members(r0)
    requires NoDuplicates(r0) && AfterInNodes(r0, done)
    requires forall n :: n in r0 ==> n in G && rank[n] < bound
    modifies node`added
    ensures r == r0 + [node]
    ensures Flagged(G) && Closed(Added(G))
    ensures Added(G) == done + Members(r) && done !! Members(r)
    ensures NoDuplicates(r) && AfterInNodes(r, done)
    ensures forall n :: n in r ==> n in G && rank[n] < bound
    ensures node in Added(G) && old(Added(G)) <= Added(G)
  {
    PlaceNode(r0, node, done);
    ghost var before := Added(G);
    node.added := Marked;
    assert Added(G) == before + {node};
    r := r0 + [node];
  }

  lemma {:induction false} AppendAfter(r: seq<Node>, sub: seq<Node>, done: set<Node>)
    requires AfterInNodes(r, done) && AfterInNodes(sub, done + Members(r))
    requires NoDuplicates(r) && NoDuplicates(sub) && Members(r) !! Members(sub)
    ensures AfterInNodes(r + sub, done)
    ensures Members(r + sub) == Members(r) + Members(sub)
    ensures NoDuplicates(r + sub)
  {
    forall i, j | 0 <= i < j < |r + sub| ensures (r + sub)[i] != (r + sub)[j] {
      if i < |r| && j >= |r| {
        assert (r + sub)[i] in Members(r);
        assert (r + sub)[j] in Members(sub);
      }
    }
    var s := r + sub;
    forall i, m | 0 <= i < |s| && m in s[i].inNodes ensures m in done || m in s[..i] {
      if i >= |r| {
        var k := i - |r|;
        assert s[i] == sub[k];
        assert m in done + Members(r) || m in sub[..k];
        if m in sub[..k] {
          var j :| 0 <= j < k && sub[..k][j] == m;
          assert s[..i][|r| + j] == m;
        } else if m in Members(r) {
          var j :| 0 <= j < |r| && r[j] == m;
          assert s[..i][j] == m;
        }
      } else {
        assert s[..i] == r[..i];
      }
    }
    assert forall n :: n in s <==> n in r || n in sub;
  }

  lemma {:induction false} PlaceNode(r: seq<Node>, node: Node, done: set<Node>)
    requires AfterInNodes(r, done) && NoDuplicates(r) && node !in Members(r)
    requires forall m :: m in node.inNodes ==> m in done + Members(r)
    ensures AfterInNodes(r + [node], done)
    ensures Members(r + [node]) == Members(r) + {node}
    ensures NoDuplicates(r + [node])
  {
    var s := r + [node];
    assert s[..|r|] == r;
    forall i | 0 <= i < |r| ensures s[..i] == r[..i] {
    }
    assert forall n :: n in s <==> n in r || n == node;
  }

  /** `sort_nodes(nodes, presort=presort, reverse=reverse)` (without shuffling): every
      input node exactly once, each after all of its in-nodes, and no `added`
      attribute left behind.  The source needs every in-node to be in `nodes` (reading
      a missing flag raises), no node listed twice (the second `del node.added`
      raises) and no cycle (the recursion would not end). */
  method SortNodes(nodes: seq<Node>, presort: bool, reverse: bool, ghost rank: map<Node, nat>) returns (r: seq<Node>)
    requires NoDuplicates(nodes)
    requires Closed(Members(nodes)) && Ranked(Members(nodes), rank)
    modifies Members(nodes)`added
    ensures forall n :: n in nodes ==> n.added == Absent
    ensures NoDuplicates(r) && Members(r) == Members(nodes) && |r| == |nodes|
    ensures forall i, m :: 0 <= i < |r| && m in r[i].inNodes ==> m in r[..i]
  {
    ghost var G := Members(nodes);
    ResetFlags(nodes);
    r := SortFrom(nodes, presort, reverse, G, rank);
    DeleteFlags(nodes);
    SameMembersSameLength(r, nodes);
  }

  /** `for node in nodes: node.added = False`. */
  method ResetFlags(nodes: seq<Node>)
    modifies Members(nodes)`added
    ensures forall n :: n in nodes ==> n.added == Unmarked
    ensures Flagged(Members(nodes)) && Added(Members(nodes)) == {}
  {
    for i := 0 to |nodes|
      invariant forall j :: 0 <= j < i ==> nodes[j].added == Unmarked
    {
      nodes[i].added := Unmarked;
    }
  }

  /** `for node in nodes: del node.added`.  Deleting needs the attribute to be there,
      which fails on the second visit of a node listed twice. */
  method DeleteFlags(nodes: seq<Node>)
    requires NoDuplicates(nodes) && forall n :: n in nodes ==> n.added != Absent
    modifies Members(nodes)`added
    ensures forall n :: n in nodes ==> n.added == Absent
  {
    for i := 0 to |nodes|
      invariant forall j :: 0 <= j < i ==> nodes[j].added == Absent
      invariant forall j :: i <= j < |nodes| ==> nodes[j].added != Absent
    {
      nodes[i].added := Absent;
    }
  }

  lemma {:induction false} SameMembersSameLength(a: seq<Node>, b: seq<Node>)
    requires NoDuplicates(a) && NoDuplicates(b) && Members(a) == Members(b)
    ensures |a| == |b|
  {
    MembersCount(a);
    MembersCount(b);
  }

  /** A sequence without duplicates has as many members as entries. */
  lemma {:induction false} MembersCount(s: seq<Node>)
    requires NoDuplicates(s)
    ensures |Members(s)| == |s|
  {
    if |s| > 0 {
      var init := s[..|s| - 1];
      MembersCount(init);
      assert Members(s) == Members(init) + {s[|s| - 1]};
    }
  }
}
