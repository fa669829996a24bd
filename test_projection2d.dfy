/** `remove_blobs` (img/src/TestProjection2D.cxx): copies a cluster graph
    without some of its blob vertices, or with only some of them, and
    with the edges whose two ends survive. */
module TestProjection2D {

  /** A graph as `boost::adjacency_list` with vertex vector storage: the
      vertex descriptors are the node indices, and the edges are listed
      in iteration order as (source, target) pairs. */
  datatype Graph<P> = Graph(nodes: seq<Node<P>>, edges: seq<(nat, nat)>)

  /** A cluster graph node: its type code and what it points to. */
  datatype Node<P> = Node(code: char, ptr: P)

  /** The code of a cluster graph node marking a blob. */
  const BlobCode := 'b'

  /** Vertex `v` is copied: it is not a blob, or it is a blob and, in
      removal mode, not in `blobs` or, in keep mode, in `blobs`. */
  predicate Keeps<P>(g: Graph<P>, blobs: set<nat>, removalMode: bool, v: nat)
    requires v < |g.nodes|
  {
    g.nodes[v].code != BlobCode || (v in blobs) != removalMode
  }

  /** The copied vertices among the first `n`, in order. */
  function KeptIdx<P>(g: Graph<P>, blobs: set<nat>, removalMode: bool, n: nat): (k: seq<nat>)
    requires n <= |g.nodes|
    ensures forall i | 0 <= i < |k| :: k[i] < n
  {
    if n == 0 then []
    else KeptIdx(g, blobs, removalMode, n - 1)
         + (if Keeps(g, blobs, removalMode, n - 1) then [n - 1] else [])
  }

  /** The copied vertices come in increasing order, and they are exactly
      the vertices `Keeps` selects. */
  lemma {:induction false} KeptIdxSpec<P>(g: Graph<P>, blobs: set<nat>, removalMode: bool, n: nat)
    requires n <= |g.nodes|
    ensures forall i, j | 0 <= i < j < |KeptIdx(g, blobs, removalMode, n)| ::
              KeptIdx(g, blobs, removalMode, n)[i] < KeptIdx(g, blobs, removalMode, n)[j]
    ensures forall i | 0 <= i < |KeptIdx(g, blobs, removalMode, n)| ::
              Keeps(g, blobs, removalMode, KeptIdx(g, blobs, removalMode, n)[i])
    ensures forall v | 0 <= v < n && Keeps(g, blobs, removalMode, v) ::
              v in KeptIdx(g, blobs, removalMode, n)
  {
    if n > 0 {
      KeptIdxSpec(g, blobs, removalMode, n - 1);
      var k0 := KeptIdx(g, blobs, removalMode, n - 1);
      var k := KeptIdx(g, blobs, removalMode, n);
      assert forall i | 0 <= i < |k0| :: k[i] == k0[i];
      assert |k| > |k0| ==> k[|k0|] == n - 1;
      forall v | 0 <= v < n && Keeps(g, blobs, removalMode, v) ensures v in k {
        if v == n - 1 {
          assert k[|k| - 1] == v;
        } else {
          var i :| 0 <= i < |k0| && k0[i] == v;
          assert k[i] == v;
        }
      }
    }
  }

  /** Every non-blob is copied; a blob is copied exactly when it is not in
      `blobs` (removal mode) or when it is in `blobs` (keep mode). */
  lemma KeptVertices<P>(g: Graph<P>, blobs: set<nat>, removalMode: bool, v: nat)
    requires v < |g.nodes|
    ensures g.nodes[v].code != BlobCode ==> v in KeptIdx(g, blobs, removalMode, |g.nodes|)
    ensures g.nodes[v].code == BlobCode && removalMode ==>
              (v in KeptIdx(g, blobs, removalMode, |g.nodes|) <==> v !in blobs)
    ensures g.nodes[v].code == BlobCode && !removalMode ==>
              (v in KeptIdx(g, blobs, removalMode, |g.nodes|) <==> v in blobs)
  {
    KeptIdxSpec(g, blobs, removalMode, |g.nodes|);
  }

  /** The number of non-blob vertices among the first `n`. */
  function NonBlobs<P>(g: Graph<P>, n: nat): nat
    requires n <= |g.nodes|
  {
    if n == 0 then 0 else NonBlobs(g, n - 1) + (if g.nodes[n - 1].code != BlobCode then 1 else 0)
  }

  /** The number of copied blob vertices among the first `n`: the
      `nblobs` counter. */
  function KeptBlobs<P>(g: Graph<P>, blobs: set<nat>, removalMode: bool, n: nat): nat
    requires n <= |g.nodes|
  {
    if n == 0 then 0
    else KeptBlobs(g, blobs, removalMode, n - 1)
         + (if g.nodes[n - 1].code == BlobCode && Keeps(g, blobs, removalMode, n - 1) then 1 else 0)
  }

  /** The output has one vertex per non-blob plus one per copied blob. */
  lemma {:induction false} KeptCount<P>(g: Graph<P>, blobs: set<nat>, removalMode: bool, n: nat)
    requires n <= |g.nodes|
    ensures |KeptIdx(g, blobs, removalMode, n)| == NonBlobs(g, n) + KeptBlobs(g, blobs, removalMode, n)
  {
    if n > 0 {
      KeptCount(g, blobs, removalMode, n - 1);
    }
  }

  /** Both ends of `e` are renumbered by `old2new`. */
  predicate Survives(e: (nat, nat), old2new: map<nat, nat>)
  {
    e.0 in old2new && e.1 in old2new
  }

  /** The edge `e` with its ends renumbered. */
  function Image(e: (nat, nat), old2new: map<nat, nat>): (nat, nat)
    requires Survives(e, old2new)
  {
    (old2new[e.0], old2new[e.1])
  }

  /** The edges among `edges` whose two ends are in `old2new`, in order,
      with their ends renumbered. */
  function KeptEdges(edges: seq<(nat, nat)>, old2new: map<nat, nat>): seq<(nat, nat)>
  {
    if edges == [] then []
    else
      var e := edges[|edges| - 1];
      KeptEdges(edges[..|edges| - 1], old2new) + (if Survives(e, old2new) then [Image(e, old2new)] else [])
  }

  /** The indices of the edges of `edges` whose two ends survive, in order. */
  function Survivors(edges: seq<(nat, nat)>, old2new: map<nat, nat>): (r: seq<nat>)
    ensures forall i | 0 <= i < |r| :: r[i] < |edges|
  {
    if edges == [] then []
    else
      var n := |edges| - 1;
      Survivors(edges[..n], old2new) + (if Survives(edges[n], old2new) then [n] else [])
  }

  /** An edge is copied exactly when both its ends are, in input order:
      the `i`-th copied edge is the renumbered image of the `i`-th input
      edge whose ends both survive, and every such input edge is one of
      them. */
  lemma KeptEdgesSpec(edges: seq<(nat, nat)>, old2new: map<nat, nat>)
    ensures |KeptEdges(edges, old2new)| == |Survivors(edges, old2new)|
    ensures forall i | 0 <= i < |Survivors(edges, old2new)| ::
              && Survives(edges[Survivors(edges, old2new)[i]], old2new)
              && KeptEdges(edges, old2new)[i] == Image(edges[Survivors(edges, old2new)[i]], old2new)
    ensures forall i, i' | 0 <= i < i' < |Survivors(edges, old2new)| ::
              Survivors(edges, old2new)[i] < Survivors(edges, old2new)[i']
    ensures forall j | 0 <= j < |edges| && Survives(edges[j], old2new) :: j in Survivors(edges, old2new)
  {
    KeptEdgesLength(edges, old2new);
    forall i | 0 <= i < |Survivors(edges, old2new)|
      ensures Survives(edges[Survivors(edges, old2new)[i]], old2new)
      ensures KeptEdges(edges, old2new)[i] == Image(edges[Survivors(edges, old2new)[i]], old2new)
    {
      KeptEdgesAt(edges, old2new, i);
    }
    SurvivorsIncreasing(edges, old2new);
    forall j | 0 <= j < |edges| && Survives(edges[j], old2new) ensures j in Survivors(edges, old2new) {
      SurvivorsCover(edges, old2new, j);
    }
  }

  lemma {:induction false} KeptEdgesLength(edges: seq<(nat, nat)>, old2new: map<nat, nat>)
    ensures |KeptEdges(edges, old2new)| == |Survivors(edges, old2new)|
  {
    if edges != [] {
      KeptEdgesLength(edges[..|edges| - 1], old2new);
    }
  }

  /** The `i`-th kept edge is the image of the `i`-th surviving input edge. */
  lemma {:induction false} KeptEdgesAt(edges: seq<(nat, nat)>, old2new: map<nat, nat>, i: nat)
    requires i < |Survivors(edges, old2new)|
    ensures |KeptEdges(edges, old2new)| == |Survivors(edges, old2new)|
    ensures Survives(edges[Survivors(edges, old2new)[i]], old2new)
    ensures KeptEdges(edges, old2new)[i] == Image(edges[Survivors(edges, old2new)[i]], old2new)
  {
    KeptEdgesLength(edges, old2new);
    var n := |edges| - 1;
    var init := edges[..n];
    KeptEdgesLength(init, old2new);
    var s0 := Survivors(init, old2new);
    if i < |s0| {
      KeptEdgesAt(init, old2new, i);
      assert Survivors(edges, old2new)[i] == s0[i];
      assert KeptEdges(edges, old2new)[i] == KeptEdges(init, old2new)[i];
      assert init[s0[i]] == edges[s0[i]];
    } else {
      assert Survivors(edges, old2new)[i] == n;
    }
  }

  lemma {:induction false} SurvivorsIncreasing(edges: seq<(nat, nat)>, old2new: map<nat, nat>)
    ensures forall i, i' | 0 <= i < i' < |Survivors(edges, old2new)| ::
              Survivors(edges, old2new)[i] < Survivors(edges, old2new)[i']
  {
    if edges != [] {
      var n := |edges| - 1;
      SurvivorsIncreasing(edges[..n], old2new);
    }
  }

  lemma {:induction false} SurvivorsCover(edges: seq<(nat, nat)>, old2new: map<nat, nat>, j: nat)
    requires j < |edges| && Survives(edges[j], old2new)
    ensures j in Survivors(edges, old2new)
  {
    var n := |edges| - 1;
    var init := edges[..n];
    var s0 := Survivors(init, old2new);
    if j < n {
      assert init[j] == edges[j];
      SurvivorsCover(init, old2new, j);
      var i :| 0 <= i < |s0| && s0[i] == j;
      assert Survivors(edges, old2new)[i] == j;
    } else {
      assert Survivors(edges, old2new)[|s0|] == n;
    }
  }

  /** `remove_blobs(cg, blobs, removal_mode)`. Alongside the new graph it
      returns `old2new`, the renumbering of the copied vertices. */
  method RemoveBlobs<P>(g: Graph<P>, blobs: set<nat>, removalMode: bool)
    returns (out: Graph<P>, old2new: map<nat, nat>)
    ensures Copied(g, blobs, removalMode, |g.nodes|, out.nodes, old2new)
    ensures out.edges == KeptEdges(g.edges, old2new)
  {
    var nodes;
    nodes, old2new := CopyVertices(g, blobs, removalMode);
    var edges := CopyEdges(g.edges, old2new);
    out := Graph(nodes, edges);
  }

  /** `nodes` and `old2new` hold the first `v` vertices' copies. */
  ghost predicate Copied<P>(g: Graph<P>, blobs: set<nat>, removalMode: bool, v: nat,
                            nodes: seq<Node<P>>, old2new: map<nat, nat>)
    requires v <= |g.nodes|
  {
    var k := KeptIdx(g, blobs, removalMode, v);
    && |nodes| == |k|
    && (forall i | 0 <= i < |k| :: nodes[i] == g.nodes[k[i]])
    && (forall i | 0 <= i < |k| :: k[i] in old2new && old2new[k[i]] == i)
    && (forall u: nat :: u in old2new <==> u < v && Keeps(g, blobs, removalMode, u))
  }

  /** One turn of the vertex loop: a kept vertex is appended and mapped to
      its new index. */
  function CopyOne<P>(g: Graph<P>, blobs: set<nat>, removalMode: bool, v: nat,
                      nodes: seq<Node<P>>, old2new: map<nat, nat>): (seq<Node<P>>, map<nat, nat>)
    requires v < |g.nodes|
  {
    if Keeps(g, blobs, removalMode, v) then (nodes + [g.nodes[v]], old2new[v := |nodes|]) else (nodes, old2new)
  }

  /** A turn of the vertex loop extends the copy by one vertex. */
  lemma CopyStep<P>(g: Graph<P>, blobs: set<nat>, removalMode: bool, v: nat,
                    nodes: seq<Node<P>>, old2new: map<nat, nat>)
    requires v < |g.nodes| && Copied(g, blobs, removalMode, v, nodes, old2new)
    ensures var (nodes', old2new') := CopyOne(g, blobs, removalMode, v, nodes, old2new);
            Copied(g, blobs, removalMode, v + 1, nodes', old2new')
  {
    var k := KeptIdx(g, blobs, removalMode, v);
    if Keeps(g, blobs, removalMode, v) {
      var k' := KeptIdx(g, blobs, removalMode, v + 1);
      assert k' == k + [v];
      var nodes' := nodes + [g.nodes[v]];
      var old2new' := old2new[v := |nodes|];
      forall i | 0 <= i < |k'| ensures nodes'[i] == g.nodes[k'[i]] && k'[i] in old2new' && old2new'[k'[i]] == i {
        if i < |k| {
          assert k'[i] == k[i] && k[i] < v;
        }
      }
    }
  }

  /** The first loop of `remove_blobs`: copies the kept vertices in order,
      recording where each one goes in `old2new`, and counts the copied
      blobs in `nblobs`. */
  method CopyVertices<P>(g: Graph<P>, blobs: set<nat>, removalMode: bool)
    returns (nodes: seq<Node<P>>, old2new: map<nat, nat>)
    ensures Copied(g, blobs, removalMode, |g.nodes|, nodes, old2new)
  {
    nodes := [];
    old2new := map[];
    var nblobs := 0;
    var v := 0;
    while v < |g.nodes|
      invariant 0 <= v <= |g.nodes|
      invariant Copied(g, blobs, removalMode, v, nodes, old2new)
      invariant nblobs == KeptBlobs(g, blobs, removalMode, v)
    {
      CopyStep(g, blobs, removalMode, v, nodes, old2new);
      ghost var next := CopyOne(g, blobs, removalMode, v, nodes, old2new);
      var node := g.nodes[v];
      if node.code == BlobCode {
        var removal := v in blobs;
        if !removalMode {
          removal := !removal;
        }
        if !removal {
          nblobs := nblobs + 1;
          old2new := old2new[v := |nodes|];
          nodes := nodes + [node];
        }
      } else {
        old2new := old2new[v := |nodes|];
        nodes := nodes + [node];
      }
      assert (nodes, old2new) == next;
      v := v + 1;
    }
  }

  /** The second loop of `remove_blobs`: copies each edge whose two ends
      were copied, renumbered. */
  method CopyEdges(es: seq<(nat, nat)>, old2new: map<nat, nat>) returns (edges: seq<(nat, nat)>)
    ensures edges == KeptEdges(es, old2new)
  {
    edges := [];
    var e := 0;
    while e < |es|
      invariant 0 <= e <= |es|
      invariant edges == KeptEdges(es[..e], old2new)
    {
      assert es[..e + 1][..e] == es[..e];
      var (tail, head) := es[e];
      if tail in old2new && head in old2new {
        edges := edges + [(old2new[tail], old2new[head])];
      }
      assert Survives(es[e], old2new) <==> tail in old2new && head in old2new;
      e := e + 1;
    }
    assert es[..e] == es;
  }
}
