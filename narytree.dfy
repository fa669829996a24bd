/** The N-ary tree of NaryTree.h, with its nodes held in an arena.

    Node `c` of a `Forest` is the index `c`: its payload is `value[c]`, the
    node that owns it is `parent[c]` (None for a root), its position in the
    parent's child list (the C++ sibling iterator) is `sibling[c]`, and its
    own child list is `children[c]`.  A null node pointer is `None`.

    Two ghost fields record that the tree is well formed: `rank`
    decreases from a parent to its children (no cycles), and `root[c]` is
    the root of the tree that holds `c`.  The C++ types do not rule a
    cycle out; `InsertNode` requires that no insertion makes one. */
module NaryTree {
  import opened Wrappers

  /** The depth-first iterator `depth_iter`: the node it stands on, or None
      for the end iterator. */
  datatype DepthIter = DepthIter(node: Option<nat>)

  /** The default-constructed iterator, which is the end: it stands on no
      node, and is `equal` to exactly the iterators that stand on none. */
  function End(): (e: DepthIter)
    ensures e.node.None?
    ensures forall it: DepthIter :: Equal(e, it) <==> it.node.None?
  {
    DepthIter(None)
  }

  /** `equal`: two iterators are equal iff they stand on the same node, so
      iterator equality is value equality and the end is equal only to
      the end. */
  function Equal(a: DepthIter, b: DepthIter): (r: bool)
    ensures r <==> a == b
    ensures r && a.node.None? ==> b.node.None?
  {
    a.node == b.node
  }

  /** No two positions of `s` hold the same node. */
  ghost predicate Distinct(s: seq<nat>)
  {
    forall i, j | 0 <= i < j < |s| :: s[i] != s[j]
  }

  /** The first position of `x` in `s`. */
  function IndexOf(s: seq<nat>, x: nat): (i: nat)
    requires x in s
    ensures i < |s| && s[i] == x
    ensures forall k | 0 <= k < i :: s[k] != x
  {
    if s[0] == x then 0 else 1 + IndexOf(s[1..], x)
  }

  lemma DistinctConcat(a: seq<nat>, b: seq<nat>)
    requires Distinct(a) && Distinct(b)
    requires forall x | x in a :: x !in b
    ensures Distinct(a + b)
  {
    forall i, j | 0 <= i < j < |a + b|
      ensures (a + b)[i] != (a + b)[j]
    {
      if j < |a| {
      } else if i >= |a| {
        assert (a + b)[i] == b[i - |a|] && (a + b)[j] == b[j - |a|];
      } else {
        assert (a + b)[i] in a && (a + b)[j] == b[j - |a|];
      }
    }
  }

  class Forest<V> {
    var value: seq<V>
    var parent: seq<Option<nat>>
    var sibling: seq<nat>
    var children: seq<seq<nat>>
    ghost var rank: seq<nat>
    ghost var root: seq<nat>

    /** Every child records its parent and its position; every non-root
        node's parent lists it at the recorded position; parents outrank
        their children and share their root. */
    ghost predicate Valid()
      reads this
    {
      ValidFields(|value|, parent, sibling, children, rank, root)
    }

    /** An empty arena. */
    constructor ()
      ensures Valid()
      ensures value == [] && parent == [] && sibling == [] && children == []
    {
      value, parent, sibling, children := [], [], [], [];
      rank, root := [], [];
    }

    /** `Node(value)`: a new parentless node holding `v`, with no children. */
    method NewNode(v: V) returns (n: nat)
      requires Valid()
      modifies this
      ensures Valid()
      ensures n == |old(value)|
      ensures value == old(value) + [v] && parent == old(parent) + [None]
      ensures children == old(children) + [[]] && sibling == old(sibling) + [0]
      ensures root == old(root) + [n]
    {
      n := |value|;
      value := value + [v];
      parent := parent + [None];
      sibling := sibling + [0];
      children := children + [[]];
      rank := rank + [0];
      root := root + [n];
    }

    /** `insert(owned_ptr)`: parentless node `n`, with its whole subtree,
        becomes the last child of `p`.  The C++ checks nothing here; the
        model requires `p` to lie outside `n`'s tree, as it does for a
        freshly made node, since inserting a node under its own subtree
        makes an ownership cycle. */
    method InsertNode(p: nat, n: nat)
      requires Valid() && p < |value| && n < |value|
      requires parent[n].None? && root[p] != n
      modifies this
      ensures Valid()
      ensures value == old(value)
      ensures parent == old(parent)[n := Some(p)]
      ensures children == old(children)[p := old(children[p]) + [n]]
      ensures sibling == old(sibling)[n := |old(children[p])|]
      ensures Last(p) == Some(n) && children[p][sibling[n]] == n
    {
      ghost var N := |value|;
      ghost var rk, rt := rank, root;
      rank := Reranked(rk, rt, n);
      root := Rerooted(rt, p, n);
      parent := parent[n := Some(p)];
      sibling := sibling[n := |children[p]|];
      children := children[p := children[p] + [n]];
      InsertNodeValid(old(parent), old(sibling), old(children), rk, rt, p, n);
    }

    /** The ranks after tree `n` is grafted on: the nodes of that tree move
        down by one more than the old rank of `n`. */
    static ghost function Reranked(rk: seq<nat>, rt: seq<nat>, n: nat): (r: seq<nat>)
      requires |rk| == |rt| && n < |rk|
      ensures |r| == |rk|
      ensures forall x | 0 <= x < |rk| :: r[x] == if rt[x] == n then rk[x] else rk[x] + rk[n] + 1
    {
      seq(|rk|, x requires 0 <= x < |rk| => if rt[x] == n then rk[x] else rk[x] + rk[n] + 1)
    }

    /** The roots after tree `n` is grafted under `p`. */
    static ghost function Rerooted(rt: seq<nat>, p: nat, n: nat): (r: seq<nat>)
      requires p < |rt|
      ensures |r| == |rt|
      ensures forall x | 0 <= x < |rt| :: r[x] == if rt[x] == n then rt[p] else rt[x]
    {
      seq(|rt|, x requires 0 <= x < |rt| => if rt[x] == n then rt[p] else rt[x])
    }

    /** The invariant survives `InsertNode`, stated on the old and new
        field values. */
    static lemma InsertNodeValid(par: seq<Option<nat>>, sib: seq<nat>, ch: seq<seq<nat>>,
                                 rk: seq<nat>, rt: seq<nat>, p: nat, n: nat)
      requires |par| == |sib| == |ch| == |rk| == |rt|
      requires p < |par| && n < |par| && par[n].None? && rt[p] != n
      requires ValidFields(|par|, par, sib, ch, rk, rt)
      ensures ValidFields(|par|, par[n := Some(p)], sib[n := |ch[p]|], ch[p := ch[p] + [n]],
                          Reranked(rk, rt, n), Rerooted(rt, p, n))
    {
      InsertChildLinks(par, sib, ch, p, n);
      InsertParentLinks(par, sib, ch, rk, rt, p, n);
      InsertRootLinks(par, sib, ch, rk, rt, p, n);
    }

    static lemma InsertChildLinks(par: seq<Option<nat>>, sib: seq<nat>, ch: seq<seq<nat>>, p: nat, n: nat)
      requires |par| == |sib| == |ch|
      requires p < |par| && n < |par| && par[n].None?
      requires ChildLinks(|par|, par, sib, ch)
      ensures ChildLinks(|par|, par[n := Some(p)], sib[n := |ch[p]|], ch[p := ch[p] + [n]])
    {
      var N := |par|;
      var par', sib', ch' := par[n := Some(p)], sib[n := |ch[p]|], ch[p := ch[p] + [n]];
      forall c, i | 0 <= c < N && 0 <= i < |ch'[c]|
        ensures ch'[c][i] < N && par'[ch'[c][i]] == Some(c) && sib'[ch'[c][i]] == i
      {
        if c == p && i == |ch[p]| {
        } else {
          assert ch'[c][i] == ch[c][i];
          assert ch[c][i] != n;
        }
      }
    }

    static lemma InsertParentLinks(par: seq<Option<nat>>, sib: seq<nat>, ch: seq<seq<nat>>,
                                   rk: seq<nat>, rt: seq<nat>, p: nat, n: nat)
      requires |par| == |sib| == |ch| == |rk| == |rt|
      requires p < |par| && n < |par| && par[n].None? && rt[p] != n
      requires ValidFields(|par|, par, sib, ch, rk, rt)
      ensures ParentLinks(|par|, par[n := Some(p)], sib[n := |ch[p]|], ch[p := ch[p] + [n]],
                          Reranked(rk, rt, n), Rerooted(rt, p, n))
    {
      var N := |par|;
      var par', sib', ch' := par[n := Some(p)], sib[n := |ch[p]|], ch[p := ch[p] + [n]];
      var rk', rt' := Reranked(rk, rt, n), Rerooted(rt, p, n);
      assert rt[rt[p]] == rt[p];
      forall c | 0 <= c < N && par'[c].Some?
        ensures par'[c].value < N && sib'[c] < |ch'[par'[c].value]|
                && ch'[par'[c].value][sib'[c]] == c
                && rk'[c] < rk'[par'[c].value] && rt'[c] == rt'[par'[c].value]
      {
        if c == n {
        } else {
          var q := par[c].value;
          assert par'[c] == par[c];
          if q == p {
            assert ch'[q][sib[c]] == ch[q][sib[c]];
          }
        }
      }
    }

    static lemma InsertRootLinks(par: seq<Option<nat>>, sib: seq<nat>, ch: seq<seq<nat>>,
                                 rk: seq<nat>, rt: seq<nat>, p: nat, n: nat)
      requires |par| == |sib| == |ch| == |rk| == |rt|
      requires p < |par| && n < |par| && par[n].None? && rt[p] != n
      requires ValidFields(|par|, par, sib, ch, rk, rt)
      ensures RootLinks(|par|, par[n := Some(p)], Reranked(rk, rt, n), Rerooted(rt, p, n))
    {
      var N := |par|;
      var par' := par[n := Some(p)];
      var rk', rt' := Reranked(rk, rt, n), Rerooted(rt, p, n);
      assert rt[rt[p]] == rt[p];
      forall c | 0 <= c < N
        ensures rt'[c] < N && par'[rt'[c]].None? && rk'[c] <= rk'[rt'[c]]
                && (par'[c].None? ==> rt'[c] == c)
      {
        if rt[c] == n {
          assert rk[c] <= rk[n];
        } else {
          assert rt[rt[c]] == rt[c];
        }
      }
    }

    /** Valid(), stated over field values rather than the heap. */
    static ghost predicate ValidFields(N: nat, par: seq<Option<nat>>, sib: seq<nat>, ch: seq<seq<nat>>,
                                       rk: seq<nat>, rt: seq<nat>)
    {
      && |par| == N && |sib| == N && |ch| == N && |rk| == N && |rt| == N
      && ChildLinks(N, par, sib, ch) && ParentLinks(N, par, sib, ch, rk, rt) && RootLinks(N, par, rk, rt)
    }

    /** Every listed child points back at its parent and its position. */
    static ghost predicate ChildLinks(N: nat, par: seq<Option<nat>>, sib: seq<nat>, ch: seq<seq<nat>>)
      requires |par| == N && |sib| == N
    {
      forall c, i | 0 <= c < |ch| && 0 <= i < |ch[c]| ::
        ch[c][i] < N && par[ch[c][i]] == Some(c) && sib[ch[c][i]] == i
    }

    /** Every node with a parent is listed by it, outranks it, and shares
        its root. */
    static ghost predicate ParentLinks(N: nat, par: seq<Option<nat>>, sib: seq<nat>, ch: seq<seq<nat>>,
                                       rk: seq<nat>, rt: seq<nat>)
      requires |par| == N && |sib| == N && |ch| == N && |rk| == N && |rt| == N
    {
      forall c | 0 <= c < |par| && par[c].Some? ::
        par[c].value < N && sib[c] < |ch[par[c].value]|
        && ch[par[c].value][sib[c]] == c
        && rk[c] < rk[par[c].value] && rt[c] == rt[par[c].value]
    }

    /** Every node's root is a parentless node, and a parentless node is its
        own root. */
    static ghost predicate RootLinks(N: nat, par: seq<Option<nat>>, rk: seq<nat>, rt: seq<nat>)
      requires |par| == N && |rk| == N && |rt| == N
    {
      forall c | 0 <= c < |rt| ::
        rt[c] < N && par[rt[c]].None? && rk[c] <= rk[rt[c]]
        && (par[c].None? ==> rt[c] == c)
    }

    /** `insert(const Value&)` and `insert(Value&&)`: a new node holding
        `v` becomes the last child of `p`; earlier children keep their
        order. */
    method InsertValue(p: nat, v: V) returns (n: nat)
      requires Valid() && p < |value|
      modifies this
      ensures Valid()
      ensures n == |old(value)|
      ensures value == old(value) + [v]
      ensures parent == old(parent) + [Some(p)]
      ensures children == old(children)[p := old(children[p]) + [n]] + [[]]
      ensures sibling == old(sibling) + [|old(children[p])|]
      ensures Last(p) == Some(n) && children[p][sibling[n]] == n
    {
      n := NewNode(v);
      InsertNode(p, n);
    }

    /** `first()`: null exactly when there are no children, else the
        front child, which points back at `c` from position 0. */
    function First(c: nat): (r: Option<nat>)
      reads this
      requires Valid() && c < |value|
      ensures r.None? <==> children[c] == []
      ensures r.Some? ==> r.value < |value| && r.value == children[c][0]
                          && parent[r.value] == Some(c) && sibling[r.value] == 0
    {
      if children[c] == [] then None else Some(children[c][0])
    }

    /** `last()`: null exactly when there are no children, else the back
        child, which points back at `c` from the last position. */
    function Last(c: nat): (r: Option<nat>)
      reads this
      requires Valid() && c < |value|
      ensures r.None? <==> children[c] == []
      ensures r.Some? ==> r.value < |value| && r.value == children[c][|children[c]| - 1]
                          && parent[r.value] == Some(c) && sibling[r.value] == |children[c]| - 1
    {
      if children[c] == [] then None else Some(children[c][|children[c]| - 1])
    }

    /** `prev()`: null for a root or a first child, otherwise the sibling
        just before `c` under the same parent. */
    function Prev(c: nat): (r: Option<nat>)
      reads this
      requires Valid() && c < |value|
      ensures r.None? <==> parent[c].None? || sibling[c] == 0
      ensures r.Some? ==> r.value < |value| && parent[r.value] == parent[c]
                          && sibling[r.value] + 1 == sibling[c]
    {
      if parent[c].None? then None
      else
        var sibs := children[parent[c].value];
        if sibling[c] == 0 then None
        else Some(sibs[sibling[c] - 1])
    }

    /** `next()`: null for a root or a last child, otherwise the sibling
        just after `c` under the same parent. */
    function Next(c: nat): (r: Option<nat>)
      reads this
      requires Valid() && c < |value|
      ensures r.None? <==> parent[c].None? || sibling[c] + 1 == |children[parent[c].value]|
      ensures r.Some? ==> r.value < |value| && parent[r.value] == parent[c]
                          && sibling[r.value] == sibling[c] + 1
    {
      if parent[c].None? then None
      else
        var sibs := children[parent[c].value];
        if sibling[c] + 1 == |sibs| then None
        else Some(sibs[sibling[c] + 1])
    }

    /** `prev` undoes `next` and `next` undoes `prev`. */
    lemma PrevNext(c: nat)
      requires Valid() && c < |value|
      ensures Next(c).Some? ==> Prev(Next(c).value) == Some(c)
      ensures Prev(c).Some? ==> Next(Prev(c).value) == Some(c)
    {
      if Next(c).Some? {
        var s, q := Next(c).value, parent[c].value;
        assert children[q][sibling[s] - 1] == children[q][sibling[c]];
      }
      if Prev(c).Some? {
        var s, q := Prev(c).value, parent[c].value;
        assert children[q][sibling[s] + 1] == children[q][sibling[c]];
      }
    }

    /** The node a preorder step reaches from a node without children: its
        next sibling, or else the next sibling of the nearest ancestor that
        has one, or else the end. */
    ghost function Climb(c: nat): (r: Option<nat>)
      reads this
      requires Valid() && c < |value|
      ensures r.Some? ==> r.value < |value|
      decreases rank[root[c]] - rank[c]
    {
      match Next(c)
      case Some(s) => Some(s)
      case None => if parent[c].None? then None else Climb(parent[c].value)
    }

    /** The node `increment` moves to from `c`. */
    ghost function Succ(c: nat): (r: Option<nat>)
      reads this
      requires Valid() && c < |value|
      ensures r.Some? ==> r.value < |value|
    {
      if children[c] != [] then Some(children[c][0]) else Climb(c)
    }

    /** `depth()`: the iterator that starts the walk at `c`; it is not the
        end, and it dereferences to the payload of `c`. */
    function Begin(c: nat): (it: DepthIter)
      reads this
      requires Valid() && c < |value|
      ensures it.node == Some(c) && !Equal(it, End())
      ensures Dereference(it) == value[c]
    {
      DepthIter(Some(c))
    }

    /** `dereference()`: the payload of the node the iterator stands on. */
    function Dereference(it: DepthIter): (v: V)
      reads this
      requires Valid() && it.node.Some? && it.node.value < |value|
      ensures v == value[it.node.value]
    {
      value[it.node.value]
    }

    /** `depth_iter::increment`: the end stays at the end; otherwise go to
        the first child, or climb to the first next sibling found. */
    method Increment(it: DepthIter) returns (next: DepthIter)
      requires Valid() && (it.node.Some? ==> it.node.value < |value|)
      ensures it.node.None? ==> next == End()
      ensures it.node.Some? ==> next.node == Succ(it.node.value)
    {
      if it.node.None? {
        return it;
      }
      var node: nat := it.node.value;
      var first := First(node);
      if first.Some? {
        return DepthIter(first);
      }
      while true
        invariant node < |value|
        invariant Climb(node) == Succ(it.node.value)
        decreases rank[root[node]] - rank[node]
      {
        var sib := Next(node);
        if sib.Some? {
          return DepthIter(sib);
        }
        if parent[node].Some? {
          node := parent[node].value;
          continue;
        }
        break;
      }
      next := DepthIter(None);
    }

    /** Preorder of the subtree of `c`: `c`, then its children's subtrees
        from left to right. */
    ghost function Preorder(c: nat): seq<nat>
      reads this
      requires Valid() && c < |value|
      decreases rank[c], 1, 0
    {
      [c] + PreorderFrom(c, 0)
    }

    /** The preorders of `children[p][j..]`, concatenated. */
    ghost function PreorderFrom(p: nat, j: nat): seq<nat>
      reads this
      requires Valid() && p < |value| && j <= |children[p]|
      decreases rank[p], 0, |children[p]| - j
    {
      if j == |children[p]| then [] else Preorder(children[p][j]) + PreorderFrom(p, j + 1)
    }

    /** `x` lies in the subtree of `c`: `c` is `x` or one of its ancestors. */
    ghost predicate IsDesc(x: nat, c: nat)
      reads this
      requires Valid() && x < |value|
      decreases rank[root[x]] - rank[x]
    {
      x == c || (parent[x].Some? && IsDesc(parent[x].value, c))
    }

    /** How depth is counted: the number of nodes on the path from the root
        down to `c`, so a root has depth 1. */
    function Depth(c: nat): (d: nat)
      reads this
      requires Valid() && c < |value|
      ensures d >= 1
      ensures parent[c].None? <==> d == 1
      decreases rank[root[c]] - rank[c]
    {
      if parent[c].None? then 1 else 1 + Depth(parent[c].value)
    }

    /** `path` is a parent chain: it starts at a root and each entry is a
        child of the one before it. */
    ghost predicate IsPath(path: seq<nat>)
      reads this
      requires Valid()
    {
      && path != []
      && (forall i | 0 <= i < |path| :: path[i] < |value|)
      && parent[path[0]].None?
      && forall i | 0 < i < |path| :: parent[path[i]] == Some(path[i - 1])
    }

    /** A parent chain from a root down to a node is as long as the node's
        depth. */
    lemma {:induction false} PathDepth(path: seq<nat>)
      requires Valid() && IsPath(path)
      ensures |path| == Depth(path[|path| - 1])
      decreases |path|
    {
      if |path| > 1 {
        var pre := path[..|path| - 1];
        assert IsPath(pre);
        PathDepth(pre);
      }
    }

    // ---------------------------------------------------------------
    // The preorder walk.

    /** `increment` steps from each node of `s` to the next one. */
    ghost predicate Chain(s: seq<nat>)
      reads this
      requires Valid()
    {
      && (forall i | 0 <= i < |s| :: s[i] < |value|)
      && (forall i | 0 <= i < |s| - 1 :: Succ(s[i]) == Some(s[i + 1]))
    }

    lemma ChainConcat(a: seq<nat>, b: seq<nat>)
      requires Valid() && Chain(a) && Chain(b) && a != [] && b != []
      requires Succ(a[|a| - 1]) == Some(b[0])
      ensures Chain(a + b)
    {
      var s := a + b;
      forall i | 0 <= i < |s| - 1
        ensures Succ(s[i]) == Some(s[i + 1])
      {
        if i < |a| - 1 {
          assert s[i] == a[i] && s[i + 1] == a[i + 1];
        } else if i == |a| - 1 {
          assert s[i] == a[i] && s[i + 1] == b[0];
        } else {
          assert s[i] == b[i - |a|] && s[i + 1] == b[i - |a| + 1];
        }
      }
    }

    /** Inside the subtree of `c`, `increment` steps through `Preorder(c)`
        in order, and from its last node it goes where climbing out of
        `c` goes. */
    /** `s` starts at `first`, `increment` steps through it in order, and
        from its last node `increment` goes to `out`. */
    ghost predicate Walks(s: seq<nat>, first: nat, out: Option<nat>)
      reads this
      requires Valid()
    {
      s != [] && s[0] == first && Chain(s) && Succ(s[|s| - 1]) == out
    }

    lemma {:induction false} PreorderSucc(c: nat)
      requires Valid() && c < |value|
      ensures Walks(Preorder(c), c, Climb(c))
      decreases rank[c], 1, 0
    {
      var P := Preorder(c);
      if children[c] == [] {
        assert PreorderFrom(c, 0) == [];
        assert P == [c];
      } else {
        PreorderFromSucc(c, 0);
        var S := PreorderFrom(c, 0);
        assert P == [c] + S;
        ChainConcat([c], S);
        assert P[|P| - 1] == S[|S| - 1];
      }
    }

    /** Inside `PreorderFrom(p, j)`, `increment` steps in order, and from
        the last node it goes where climbing out of `p` goes. */
    lemma {:induction false} PreorderFromSucc(p: nat, j: nat)
      requires Valid() && p < |value| && j < |children[p]|
      ensures Walks(PreorderFrom(p, j), children[p][j], Climb(p))
      decreases rank[p], 0, |children[p]| - j
    {
      PreorderSucc(children[p][j]);
      if j + 1 == |children[p]| {
        PreorderFromLast(p, j);
      } else {
        PreorderFromSucc(p, j + 1);
        PreorderFromStep(p, j);
      }
    }

    /** `PreorderFromSucc` for the last child. */
    lemma PreorderFromLast(p: nat, j: nat)
      requires Valid() && p < |value| && j + 1 == |children[p]|
      requires Walks(Preorder(children[p][j]), children[p][j], Climb(children[p][j]))
      ensures Walks(PreorderFrom(p, j), children[p][j], Climb(p))
    {
      var k := children[p][j];
      assert PreorderFrom(p, j + 1) == [];
      assert Next(k).None?;
      assert PreorderFrom(p, j) == Preorder(k);
    }

    /** `PreorderFromSucc` for child `j` from that for child `j + 1`. */
    lemma PreorderFromStep(p: nat, j: nat)
      requires Valid() && p < |value| && j + 1 < |children[p]|
      requires Walks(Preorder(children[p][j]), children[p][j], Climb(children[p][j]))
      requires Walks(PreorderFrom(p, j + 1), children[p][j + 1], Climb(p))
      ensures Walks(PreorderFrom(p, j), children[p][j], Climb(p))
    {
      var k := children[p][j];
      assert Climb(k) == Some(children[p][j + 1]) by {
        assert Next(k) == Some(children[p][j + 1]);
      }
      WalksConcat(Preorder(k), PreorderFrom(p, j + 1), k, children[p][j + 1], Climb(p));
      assert PreorderFrom(p, j) == Preorder(k) + PreorderFrom(p, j + 1);
    }

    /** A walk that ends by stepping onto the start of another walk
        continues as that walk. */
    lemma WalksConcat(a: seq<nat>, b: seq<nat>, first: nat, second: nat, out: Option<nat>)
      requires Valid() && Walks(a, first, Some(second)) && Walks(b, second, out)
      ensures Walks(a + b, first, out)
    {
      ChainConcat(a, b);
      assert (a + b)[|a + b| - 1] == b[|b| - 1];
    }

    /** An ancestor outranks its descendants and shares their root. */
    lemma {:induction false} DescRank(x: nat, c: nat)
      requires Valid() && x < |value| && IsDesc(x, c)
      ensures c < |value| && rank[x] <= rank[c] && root[x] == root[c]
      decreases rank[root[x]] - rank[x]
    {
      if x != c {
        DescRank(parent[x].value, c);
      }
    }

    /** Every node lies in the subtree of its root. */
    lemma {:induction false} DescOfRoot(x: nat)
      requires Valid() && x < |value|
      ensures IsDesc(x, root[x])
      decreases rank[root[x]] - rank[x]
    {
      if parent[x].Some? {
        DescOfRoot(parent[x].value);
      }
    }

    /** A proper descendant of `c` lies in the subtree of one child of `c`. */
    lemma {:induction false} DescStep(x: nat, c: nat) returns (j: nat)
      requires Valid() && x < |value| && c < |value| && IsDesc(x, c) && x != c
      ensures j < |children[c]| && IsDesc(x, children[c][j])
      decreases rank[root[x]] - rank[x]
    {
      var y := parent[x].value;
      if y == c {
        j := sibling[x];
      } else {
        j := DescStep(y, c);
      }
    }

    /** The subtrees of two different children of one node do not meet. */
    lemma {:induction false} DescUnique(x: nat, a: nat, b: nat)
      requires Valid() && x < |value| && a < |value| && b < |value|
      requires parent[a].Some? && parent[a] == parent[b]
      requires IsDesc(x, a) && IsDesc(x, b)
      ensures a == b
      decreases rank[root[x]] - rank[x]
    {
      var q := parent[a].value;
      if x == a {
        if a != b {
          DescRank(q, b);
        }
      } else if x == b {
        DescRank(q, a);
      } else {
        DescUnique(parent[x].value, a, b);
      }
    }

    /** A node of `PreorderFrom(p, j0)` lies in the subtree of one of the
        children `children[p][j0..]`. */
    lemma {:induction false} FromMember(p: nat, j0: nat, x: nat) returns (j: nat)
      requires Valid() && p < |value| && j0 <= |children[p]| && x in PreorderFrom(p, j0)
      ensures j0 <= j < |children[p]| && x in Preorder(children[p][j])
      decreases |children[p]| - j0
    {
      if x in Preorder(children[p][j0]) {
        j := j0;
      } else {
        j := FromMember(p, j0 + 1, x);
      }
    }

    /** `PreorderFrom(p, j0)` contains the subtree of every later child. */
    lemma {:induction false} FromContains(p: nat, j0: nat, j: nat, x: nat)
      requires Valid() && p < |value| && j0 <= j < |children[p]|
      requires x in Preorder(children[p][j])
      ensures x in PreorderFrom(p, j0)
      decreases j - j0
    {
      if j0 < j {
        FromContains(p, j0 + 1, j, x);
      }
    }

    /** `Preorder(c)` holds exactly the subtree of `c`. */
    lemma {:induction false} PreorderMember(c: nat, x: nat)
      requires Valid() && c < |value| && x < |value|
      ensures x in Preorder(c) <==> IsDesc(x, c)
      decreases rank[c]
    {
      if x in Preorder(c) && x != c {
        assert x in PreorderFrom(c, 0);
        var j := FromMember(c, 0, x);
        var k := children[c][j];
        PreorderMember(k, x);
        DescTrans(x, k, c);
      }
      if IsDesc(x, c) && x != c {
        var j := DescStep(x, c);
        PreorderMember(children[c][j], x);
        FromContains(c, 0, j, x);
      }
    }

    /** Being in the subtree of a child of `c` puts a node in the subtree
        of `c`. */
    lemma {:induction false} DescTrans(x: nat, k: nat, c: nat)
      requires Valid() && x < |value| && k < |value| && parent[k] == Some(c)
      requires IsDesc(x, k)
      ensures IsDesc(x, c)
      decreases rank[root[x]] - rank[x]
    {
      if x == k {
        assert IsDesc(c, c);
      } else {
        DescTrans(parent[x].value, k, c);
      }
    }

    /** Every node of a preorder lies in the subtree of its first node. */
    lemma PreorderInSubtree(c: nat)
      requires Valid() && c < |value|
      ensures forall x | x in Preorder(c) :: x < |value| && IsDesc(x, c)
    {
      PreorderSucc(c);
      forall x | x in Preorder(c)
        ensures x < |value| && IsDesc(x, c)
      {
        PreorderMember(c, x);
      }
    }

    /** A preorder visits no node twice. */
    lemma {:induction false} PreorderDistinct(c: nat)
      requires Valid() && c < |value|
      ensures Distinct(Preorder(c))
      decreases rank[c], 1, 0
    {
      PreorderFromDistinct(c, 0);
      forall x | x in PreorderFrom(c, 0)
        ensures x != c
      {
        var j := FromMember(c, 0, x);
        var k := children[c][j];
        PreorderInSubtree(k);
        DescRank(x, k);
      }
      DistinctConcat([c], PreorderFrom(c, 0));
    }

    lemma {:induction false} PreorderFromDistinct(p: nat, j: nat)
      requires Valid() && p < |value| && j <= |children[p]|
      ensures Distinct(PreorderFrom(p, j))
      decreases rank[p], 0, |children[p]| - j
    {
      if j < |children[p]| {
        var k := children[p][j];
        PreorderDistinct(k);
        PreorderFromDistinct(p, j + 1);
        forall x | x in Preorder(k)
          ensures x !in PreorderFrom(p, j + 1)
        {
          if x in PreorderFrom(p, j + 1) {
            var m := FromMember(p, j + 1, x);
            PreorderInSubtree(k);
            PreorderInSubtree(children[p][m]);
            DescUnique(x, k, children[p][m]);
            assert false;
          }
        }
        DistinctConcat(Preorder(k), PreorderFrom(p, j + 1));
      }
    }

    /** What `depth()` started at `c` visits: the preorder of the whole tree
        holding `c`, from `c` onwards.  Each step is an `increment`, and the
        last one reaches the end. */
    ghost function Walk(c: nat): (w: seq<nat>)
      reads this
      requires Valid() && c < |value|
      ensures w != [] && w[0] == c && Chain(w) && Distinct(w)
      ensures Succ(w[|w| - 1]).None?
    {
      var P := Preorder(root[c]);
      WalkFromRoot(root[c]);
      DescOfRoot(c);
      PreorderMember(root[c], c);
      var k := IndexOf(P, c);
      ChainSuffix(P, k);
      P[k..]
    }

    /** A suffix of a chain is a chain, and keeps its last node. */
    lemma ChainSuffix(s: seq<nat>, k: nat)
      requires Valid() && Chain(s) && Distinct(s) && k < |s|
      ensures Chain(s[k..]) && Distinct(s[k..]) && s[k..][|s| - k - 1] == s[|s| - 1]
    {
      var w := s[k..];
      forall i | 0 <= i < |w| - 1
        ensures Succ(w[i]) == Some(w[i + 1])
      {
        assert w[i] == s[k + i] && w[i + 1] == s[k + i + 1];
      }
    }

    lemma ChainAt(s: seq<nat>, i: nat)
      requires Valid() && Chain(s) && i < |s| - 1
      ensures Succ(s[i]) == Some(s[i + 1])
    {
    }

    /** Two walks that start on the same node agree for as long as the
        shorter one, which must end first. */
    lemma {:induction false} ChainsAgree(a: seq<nat>, b: seq<nat>)
      requires Valid() && Chain(a) && Chain(b) && a != [] && b != [] && a[0] == b[0]
      requires Succ(a[|a| - 1]).None?
      ensures |b| <= |a| && a[..|b|] == b
    {
      var k := 0;
      while k < |b| - 1 && k < |a| - 1
        invariant 0 <= k < |a| && k < |b| && a[k] == b[k]
        invariant a[..k + 1] == b[..k + 1]
        decreases |b| - k
      {
        assert Succ(a[k]) == Some(a[k + 1]) && Succ(b[k]) == Some(b[k + 1]);
        k := k + 1;
        assert a[..k + 1] == a[..k] + [a[k]] && b[..k + 1] == b[..k] + [b[k]];
      }
      if k < |b| - 1 {
        ChainAt(b, k);
        assert false;
      }
      assert b[..|b|] == b;
    }

    /** The walk from `c` is not confined to the subtree of `c`: it first
        visits that subtree in preorder, then goes on to the node `Climb`
        gives (the next sibling of `c` or of its nearest ancestor that has
        one) and the rest of the tree after it. */
    lemma WalkLeavesSubtree(c: nat)
      requires Valid() && c < |value|
      ensures |Preorder(c)| <= |Walk(c)| && Walk(c)[..|Preorder(c)|] == Preorder(c)
      ensures Climb(c).None? <==> |Walk(c)| == |Preorder(c)|
      ensures Climb(c).Some? ==> Walk(c)[|Preorder(c)|] == Climb(c).value
    {
      PreorderSucc(c);
      assert Walk(c) != [] && Walk(c)[0] == c;
      assert Chain(Walk(c));
      assert Succ(Walk(c)[|Walk(c)| - 1]).None?;
      assert Walks(Preorder(c), c, Climb(c));
      PrefixWalk(Walk(c), Preorder(c), c, Climb(c));
    }

    /** A walk to the end that starts where walk `p` starts runs through
        `p` and then on to where `p` leaves off. */
    lemma PrefixWalk(w: seq<nat>, p: seq<nat>, first: nat, out: Option<nat>)
      requires Valid()
      requires w != [] && w[0] == first
      requires Chain(w)
      requires Succ(w[|w| - 1]).None?
      requires Walks(p, first, out)
      ensures |p| <= |w| && w[..|p|] == p
      ensures out.None? <==> |w| == |p|
      ensures out.Some? ==> w[|p|] == out.value
    {
      ChainsAgree(w, p);
      assert w[|p| - 1] == p[|p| - 1] by {
        assert w[..|p|][|p| - 1] == w[|p| - 1];
      }
      if |w| > |p| {
        assert Succ(w[|p| - 1]) == Some(w[|p|]);
      }
    }

    /** The walk from a root: `increment` visits `Preorder(r)` in order and
        then reaches the end, every node of the tree of `r` occurs in it,
        no other node does, and none occurs twice. */
    lemma WalkFromRoot(r: nat)
      requires Valid() && r < |value| && parent[r].None?
      ensures |Preorder(r)| >= 1 && Preorder(r)[0] == r && Chain(Preorder(r))
      ensures Succ(Preorder(r)[|Preorder(r)| - 1]).None?
      ensures Distinct(Preorder(r))
      ensures forall x | 0 <= x < |value| :: x in Preorder(r) <==> root[x] == r
    {
      PreorderSucc(r);
      PreorderDistinct(r);
      forall x | 0 <= x < |value|
        ensures x in Preorder(r) <==> root[x] == r
      {
        PreorderMember(r, x);
        if IsDesc(x, r) {
          DescRank(x, r);
        }
        if root[x] == r {
          DescOfRoot(x);
        }
      }
    }
  }
}
