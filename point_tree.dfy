/** The point-cloud tree of PointTree.cxx: a `Scope` names a view across
    the tree (a point-cloud name, coordinate array names and a depth
    limit), and a `Points` object attached to a node caches, per scope, the
    disjoint dataset gathered from the node's walk and the k-d index over
    it.

    A node's payload is its map of local point clouds.  Depth is counted as
    the number of nodes on the path from the tree root down to a node, so a
    root has depth 1 (`Forest.PathDepth` ties this to the length of a
    parent chain, such as the `path` of `on_insert`); a depth limit of 0
    means no limit. */
module PointTree {
  import opened Wrappers
  import opened NaryTree
  import opened Disjoint

  /** `size_t`. */
  type Size = x: int | 0 <= x < 0x1_0000_0000_0000_0000

  /** The local point clouds of one node, by name. */
  type LocalPcs = map<string, Dataset>

  datatype Scope = Scope(pcname: string, coords: seq<string>, depth: Size)

  /** A default-constructed scope: no name, no coordinates, no depth
      limit, so a node is in it exactly when it has a cloud named `""`,
      at any depth. */
  function DefaultScope(): (s: Scope)
    ensures s.coords == [] && s.depth == 0
    ensures forall lpcs: LocalPcs, depth: nat :: InScope(s, lpcs, depth) <==> "" in lpcs
  {
    Scope("", [], 0)
  }

  // ---------------------------------------------------------------
  // Equality and hash.

  /** What `operator==` compares: depth, name, the coordinate count and
      the coordinates position by position. */
  predicate SameScope(a: Scope, b: Scope)
  {
    && a.depth == b.depth && a.pcname == b.pcname && |a.coords| == |b.coords|
    && forall i | 0 <= i < |a.coords| :: a.coords[i] == b.coords[i]
  }

  /** `operator==`: depth, then name, then the coordinate count, then the
      coordinates one by one; this is structural equality, so it is
      sensitive to coordinate order. */
  method Equals(a: Scope, b: Scope) returns (r: bool)
    ensures r <==> a == b
    ensures r <==> SameScope(a, b)
  {
    if a.depth != b.depth {
      return false;
    }
    if a.pcname != b.pcname {
      return false;
    }
    if |a.coords| != |b.coords| {
      return false;
    }
    for ind := 0 to |a.coords|
      invariant a.coords[..ind] == b.coords[..ind]
    {
      if a.coords[ind] != b.coords[ind] {
        return false;
      }
    }
    assert a.coords == a.coords[..|a.coords|];
    assert b.coords == b.coords[..|b.coords|];
    return true;
  }

  /** `operator!=`: the negation of `==`. */
  method NotEquals(a: Scope, b: Scope) returns (r: bool)
    ensures r <==> a != b
  {
    var eq := Equals(a, b);
    if eq {
      return false;
    }
    return true;
  }

  /** The two Boost primitives `Scope::hash()` is built from: the hash of
      a string and `hash_combine`, whose mixing step differs between Boost
      releases. Unsigned arithmetic wraps around at 64 bits. */
  datatype Hasher = Hasher(str: string -> bv64, combine: (bv64, bv64) -> bv64)

  function HashCoords(seed: bv64, coords: seq<string>, hs: Hasher): bv64
    decreases |coords|
  {
    if coords == [] then seed
    else HashCoords(hs.combine(seed, hs.str(coords[0])), coords[1..], hs)
  }

  /** The seed after the first two combinations: 0, combined with the
      name, then with the depth (an integer hashes to itself). */
  function HashStart(s: Scope, hs: Hasher): bv64
  {
    hs.combine(hs.combine(0, hs.str(s.pcname)), s.depth as bv64)
  }

  /** The hash of a scope: the name, then the depth, then the coordinates
      in order. */
  function HashOf(s: Scope, hs: Hasher): bv64
  {
    HashCoords(HashStart(s, hs), s.coords, hs)
  }

  /** `Scope::hash()`: the loop computes `HashOf`. */
  method Hash(s: Scope, hs: Hasher) returns (h: bv64)
    ensures h == HashOf(s, hs)
  {
    h := HashStart(s, hs);
    assert s.coords[0..] == s.coords;
    for i := 0 to |s.coords|
      invariant HashCoords(h, s.coords[i..], hs) == HashOf(s, hs)
    {
      HashCoordsStep(h, s.coords, i, hs);
      h := hs.combine(h, hs.str(s.coords[i]));
    }
    assert s.coords[|s.coords|..] == [];
  }

  lemma HashCoordsStep(h: bv64, coords: seq<string>, i: nat, hs: Hasher)
    requires i < |coords|
    ensures HashCoords(h, coords[i..], hs) ==
            HashCoords(hs.combine(h, hs.str(coords[i])), coords[i + 1..], hs)
  {
    assert coords[i..][1..] == coords[i + 1..];
  }

  /** The hash agrees with `operator==`: scopes it calls equal hash
      alike, whatever the hasher is. */
  lemma HashRespectsEquality(a: Scope, b: Scope, hs: Hasher)
    requires SameScope(a, b)
    ensures HashOf(a, hs) == HashOf(b, hs)
  {
    assert a.coords == b.coords;
  }

  // ---------------------------------------------------------------
  // Which nodes a scope takes points from.

  /** What `in_scope` decides: the node is within the depth limit, has a
      local point cloud of the scope's name, and that cloud has every
      coordinate array of the scope. */
  function InScope(scope: Scope, lpcs: LocalPcs, depth: nat): bool
  {
    && (scope.depth == 0 || depth <= scope.depth)
    && scope.pcname in lpcs
    && forall c | c in scope.coords :: c in lpcs[scope.pcname].keys
  }

  /** `in_scope`: the depth test, the name lookup, then one lookup per
      coordinate with an early return. */
  method InScopeCheck(scope: Scope, lpcs: LocalPcs, depth: nat) returns (r: bool)
    ensures r == InScope(scope, lpcs, depth)
  {
    if scope.depth > 0 && depth > scope.depth {
      return false;
    }
    if scope.pcname !in lpcs {
      return false;
    }
    var ds := lpcs[scope.pcname];
    for i := 0 to |scope.coords|
      invariant forall c | c in scope.coords[..i] :: c in ds.keys
    {
      if scope.coords[i] !in ds.keys {
        return false;
      }
    }
    assert scope.coords[..|scope.coords|] == scope.coords;
    return true;
  }

  /** The coordinate test of `scoped_pc`: the sorted array names are
      intersected with the sorted wanted coordinates, and the test passes
      when the intersection is as long as the wanted list.  A name occurs
      once among the keys, so each wanted name counts at most once. */
  function CoordsComplete(keys: set<string>, coords: seq<string>): bool
  {
    |multiset(keys) * multiset(coords)| == |coords|
  }

  /** `coords` names no array twice. */
  predicate NoDuplicates(coords: seq<string>)
  {
    forall i, j | 0 <= i < j < |coords| :: coords[i] != coords[j]
  }

  lemma IntersectionFull(a: multiset<string>, b: multiset<string>)
    ensures |a * b| == |b| <==> b <= a
  {
    var i := a * b;
    assert i <= b;
    var rest := b - i;
    assert b == i + rest;
    if b <= a {
      assert i == b;
    }
    if |i| == |b| {
      assert rest == multiset{};
    }
  }

  lemma {:induction false} NoDuplicatesMultiset(coords: seq<string>, x: string)
    requires NoDuplicates(coords)
    ensures multiset(coords)[x] == if x in coords then 1 else 0
  {
    if coords != [] {
      var t := coords[1..];
      assert coords == [coords[0]] + t;
      assert NoDuplicates(t) by {
        forall i, j | 0 <= i < j < |t| ensures t[i] != t[j] {
          assert t[i] == coords[i + 1] && t[j] == coords[j + 1];
        }
      }
      NoDuplicatesMultiset(t, x);
      assert coords[0] !in t by {
        forall i | 0 <= i < |t| ensures t[i] != coords[0] {
          assert t[i] == coords[i + 1];
        }
      }
    }
  }

  lemma RepeatCounted(s: seq<string>, i: nat, j: nat)
    requires i < j < |s|
    ensures s[i] == s[j] ==> multiset(s)[s[i]] >= 2
  {
    assert s == s[..j] + [s[j]] + s[j + 1..];
    assert s[..j][i] == s[i];
  }

  /** The coordinate test passes exactly when every wanted coordinate is an
      array of the dataset and no coordinate is wanted twice. */
  lemma CoordsCompleteIff(keys: set<string>, coords: seq<string>)
    ensures CoordsComplete(keys, coords) <==>
              (forall c | c in coords :: c in keys) && NoDuplicates(coords)
  {
    IntersectionFull(multiset(keys), multiset(coords));
    if CoordsComplete(keys, coords) {
      forall c | c in coords ensures c in keys {
        assert multiset(coords)[c] <= multiset(keys)[c];
      }
      forall i, j | 0 <= i < j < |coords| ensures coords[i] != coords[j] {
        RepeatCounted(coords, i, j);
        assert multiset(coords)[coords[i]] <= multiset(keys)[coords[i]];
      }
    } else if (forall c | c in coords :: c in keys) && NoDuplicates(coords) {
      forall x ensures multiset(coords)[x] <= multiset(keys)[x] {
        NoDuplicatesMultiset(coords, x);
      }
      assert false;
    }
  }

  /** A wanted coordinate listed twice makes `scoped_pc` fail on a node that
      `in_scope` accepts. */
  lemma DuplicateCoordsRejected()
    ensures InScope(Scope("pc", ["x", "x"], 0), map["pc" := Dataset({"x"}, 1)], 1)
    ensures !CoordsComplete({"x"}, ["x", "x"])
  {
    CoordsCompleteIff({"x"}, ["x", "x"]);
    assert !NoDuplicates(["x", "x"]) by {
      assert ["x", "x"][0] == ["x", "x"][1];
    }
  }

  // ---------------------------------------------------------------
  // Building a scope's dataset.

  /** The outcome of a first `scoped_pc`: the dataset gathered, or the
      partial dataset left behind when a node lacks a coordinate. */
  datatype Build = Built(dds: DisjointDataset) | Lacking(partial: DisjointDataset)

  function EmptyDds(): DisjointDataset
  {
    DisjointDataset([])
  }

  /** The body of the `scoped_pc` loop, over the payloads of the visited
      nodes in walk order: skip a node without the named cloud, append it
      when it has every coordinate, stop otherwise. */
  function Collect(scope: Scope, pcs: seq<LocalPcs>, acc: DisjointDataset): Build
    decreases |pcs|
  {
    if pcs == [] then Built(acc)
    else if scope.pcname !in pcs[0] then Collect(scope, pcs[1..], acc)
    else if CoordsComplete(pcs[0][scope.pcname].keys, scope.coords) then
      Collect(scope, pcs[1..], Append(acc, pcs[0][scope.pcname]))
    else Lacking(acc)
  }

  /** The named clouds of the visited payloads, in order. */
  function Selected(scope: Scope, pcs: seq<LocalPcs>): seq<Dataset>
  {
    if pcs == [] then []
    else (if scope.pcname in pcs[0] then [pcs[0][scope.pcname]] else []) + Selected(scope, pcs[1..])
  }

  /** The position of the first payload whose named cloud lacks a wanted
      coordinate, or `|pcs|` when there is none. */
  function FirstLacking(scope: Scope, pcs: seq<LocalPcs>): (k: nat)
    ensures k <= |pcs|
    ensures k < |pcs| ==> scope.pcname in pcs[k] && !CoordsComplete(pcs[k][scope.pcname].keys, scope.coords)
    ensures forall i | 0 <= i < k :: scope.pcname in pcs[i] ==> CoordsComplete(pcs[i][scope.pcname].keys, scope.coords)
  {
    if pcs == [] then 0
    else if scope.pcname in pcs[0] && !CoordsComplete(pcs[0][scope.pcname].keys, scope.coords) then 0
    else 1 + FirstLacking(scope, pcs[1..])
  }

  /** What a first build yields: when no visited cloud lacks a coordinate,
      the named clouds of the visited nodes appended in walk order, with as
      many points as they have together; otherwise an IndexError, leaving
      the clouds before the first lacking one. */
  lemma {:induction false} CollectSpec(scope: Scope, pcs: seq<LocalPcs>, acc: DisjointDataset)
    ensures var k := FirstLacking(scope, pcs);
            var got := DisjointDataset(acc.datasets + Selected(scope, pcs[..k]));
            Collect(scope, pcs, acc) == (if k == |pcs| then Built(got) else Lacking(got))
    ensures Collect(scope, pcs, acc).Built? ==>
              NPoints(Collect(scope, pcs, acc).dds) == NPoints(acc) + SumSizes(Selected(scope, pcs))
    decreases |pcs|
  {
    var k := FirstLacking(scope, pcs);
    if pcs == [] {
      assert acc.datasets + [] == acc.datasets;
    } else if !(scope.pcname in pcs[0] && !CoordsComplete(pcs[0][scope.pcname].keys, scope.coords)) {
      var t := pcs[1..];
      var head := if scope.pcname in pcs[0] then [pcs[0][scope.pcname]] else [];
      var acc' := DisjointDataset(acc.datasets + head);
      assert head == [] ==> acc' == acc;
      assert Collect(scope, pcs, acc) == Collect(scope, t, acc');
      CollectSpec(scope, t, acc');
      assert pcs[..k][1..] == t[..k - 1];
      assert Selected(scope, pcs[..k]) == head + Selected(scope, t[..k - 1]);
      assert acc'.datasets + Selected(scope, t[..k - 1]) == acc.datasets + Selected(scope, pcs[..k]);
    } else {
      assert acc.datasets + [] == acc.datasets;
    }
    assert pcs[..|pcs|] == pcs;
    SumConcat(acc.datasets, Selected(scope, pcs));
  }

  lemma {:induction false} SumConcat(a: seq<Dataset>, b: seq<Dataset>)
    ensures SumSizes(a + b) == SumSizes(a) + SumSizes(b)
    decreases |b|
  {
    if b != [] {
      var b' := b[..|b| - 1];
      assert (a + b)[..|a + b| - 1] == a + b';
      SumConcat(a, b');
    } else {
      assert a + b == a;
    }
  }

  /** The test tree: a root with no clouds and two children that each have
      a 3-d cloud give a dataset of two segments. */
  lemma TwoChildrenTwoDatasets(ds1: Dataset, ds2: Dataset)
    requires {"x", "y", "z"} <= ds1.keys && {"x", "y", "z"} <= ds2.keys
    ensures var scope := Scope("3d", ["x", "y", "z"], 0);
            var pcs: seq<LocalPcs> := [map[], map["3d" := ds1], map["3d" := ds2]];
            Collect(scope, pcs, EmptyDds()) == Built(DisjointDataset([ds1, ds2]))
  {
    var scope := Scope("3d", ["x", "y", "z"], 0);
    var pcs: seq<LocalPcs> := [map[], map["3d" := ds1], map["3d" := ds2]];
    CoordsCompleteIff(ds1.keys, scope.coords);
    CoordsCompleteIff(ds2.keys, scope.coords);
    assert NoDuplicates(scope.coords);
    var a1 := Append(EmptyDds(), ds1);
    var a2 := Append(a1, ds2);
    assert pcs[1..] == [pcs[1], pcs[2]] && pcs[1..][1..] == [pcs[2]] && pcs[1..][1..][1..] == [];
    assert Collect(scope, [pcs[2]], a1) == Collect(scope, [], a2);
    assert Collect(scope, pcs[1..], EmptyDds()) == Collect(scope, [pcs[2]], a1);
    assert Collect(scope, pcs, EmptyDds()) == Collect(scope, pcs[1..], EmptyDds());
    assert a2.datasets == [ds1, ds2];
  }

  // ---------------------------------------------------------------
  // Keeping the caches up to date on insertion.

  /** Each cached k-d index covers its scope's cached dataset exactly. */
  ghost predicate Agrees(dds: map<Scope, DisjointDataset>, kds: map<Scope, KdIndex>)
  {
    forall s | s in kds :: s in dds && Covers(kds[s], NPoints(dds[s]))
  }

  /** The cached datasets part way through the insertion loop, once the
      scopes in `done` have been visited. */
  function PartialDds(dds: map<Scope, DisjointDataset>, lpcs: LocalPcs, depth: nat,
                      done: set<Scope>): map<Scope, DisjointDataset>
  {
    map s | s in dds :: DdsEntry(dds, lpcs, depth, s, s in done)
  }

  /** One scope's cached dataset, before (`visited` false) or after the
      loop has visited it. */
  function DdsEntry(dds: map<Scope, DisjointDataset>, lpcs: LocalPcs, depth: nat, s: Scope,
                    visited: bool): DisjointDataset
    requires s in dds
  {
    if visited && InScope(s, lpcs, depth) then Append(dds[s], lpcs[s.pcname]) else dds[s]
  }

  /** The k-d indices part way through the insertion loop. */
  function PartialKds(dds: map<Scope, DisjointDataset>, kds: map<Scope, KdIndex>, lpcs: LocalPcs,
                      depth: nat, done: set<Scope>): map<Scope, KdIndex>
  {
    map s | s in kds :: KdsEntry(dds, kds, lpcs, depth, s, s in done)
  }

  /** One scope's k-d index, before or after the loop has visited it. */
  function KdsEntry(dds: map<Scope, DisjointDataset>, kds: map<Scope, KdIndex>, lpcs: LocalPcs,
                    depth: nat, s: Scope, visited: bool): KdIndex
    requires s in kds
  {
    if visited && s in dds && InScope(s, lpcs, depth)
    then AddPoints(kds[s], NPoints(dds[s]), NPoints(dds[s]) + lpcs[s.pcname].size)
    else kds[s]
  }

  /** Visiting one more scope changes that scope's entries alone: they get
      the insertion when the node is in the scope, and stay otherwise. */
  lemma DdsStep(dds: map<Scope, DisjointDataset>, lpcs: LocalPcs, depth: nat, done: set<Scope>, s: Scope)
    requires s in dds && s !in done
    ensures InScope(s, lpcs, depth) ==>
              PartialDds(dds, lpcs, depth, done + {s}) ==
              PartialDds(dds, lpcs, depth, done)[s := Append(dds[s], lpcs[s.pcname])]
    ensures !InScope(s, lpcs, depth) ==> PartialDds(dds, lpcs, depth, done + {s}) == PartialDds(dds, lpcs, depth, done)
  {
  }

  lemma KdsStep(dds: map<Scope, DisjointDataset>, kds: map<Scope, KdIndex>, lpcs: LocalPcs,
                depth: nat, done: set<Scope>, s: Scope)
    requires s in dds && s !in done
    ensures InScope(s, lpcs, depth) && s in kds ==>
              PartialKds(dds, kds, lpcs, depth, done + {s}) ==
              PartialKds(dds, kds, lpcs, depth, done)[s := AddPoints(kds[s], NPoints(dds[s]),
                                                                     NPoints(dds[s]) + lpcs[s.pcname].size)]
    ensures !(InScope(s, lpcs, depth) && s in kds) ==>
              PartialKds(dds, kds, lpcs, depth, done + {s}) == PartialKds(dds, kds, lpcs, depth, done)
  {
  }

  /** What one pass of the `on_insert` loop does to the k-d indices, given
      the cached dataset it reads the old point count from. */
  function KdStep(s: Scope, lpcs: LocalPcs, depth: nat, dds: map<Scope, DisjointDataset>,
                  kd: map<Scope, KdIndex>): map<Scope, KdIndex>
    requires s in dds
  {
    if InScope(s, lpcs, depth) && s in kd
    then kd[s := AddPoints(kd[s], NPoints(dds[s]), NPoints(dds[s]) + lpcs[s.pcname].size)]
    else kd
  }

  /** `KdsStep` phrased by the scopes still to visit. */
  lemma KdsTodoStep(dds: map<Scope, DisjointDataset>, kds: map<Scope, KdIndex>, lpcs: LocalPcs,
                    depth: nat, todo: set<Scope>, s: Scope)
    requires s in todo && todo <= dds.Keys
    ensures PartialKds(dds, kds, lpcs, depth, dds.Keys - (todo - {s}))
            == KdStep(s, lpcs, depth, dds, PartialKds(dds, kds, lpcs, depth, dds.Keys - todo))
  {
    KdsStep(dds, kds, lpcs, depth, dds.Keys - todo, s);
    assert dds.Keys - (todo - {s}) == (dds.Keys - todo) + {s};
    var k := PartialKds(dds, kds, lpcs, depth, dds.Keys - todo);
    assert s in k <==> s in kds;
    assert s in k ==> k[s] == kds[s];
  }

  /** What one pass of the insertion loop does to the two caches. */
  function InsertStep(scope: Scope, lpcs: LocalPcs, depth: nat, d: map<Scope, DisjointDataset>,
                      kd: map<Scope, KdIndex>): (map<Scope, DisjointDataset>, map<Scope, KdIndex>)
    requires scope in d
  {
    if !InScope(scope, lpcs, depth) then (d, kd)
    else
      var n := NPoints(d[scope]);
      var ds := lpcs[scope.pcname];
      (d[scope := Append(d[scope], ds)], if scope in kd then kd[scope := AddPoints(kd[scope], n, n + ds.size)] else kd)
  }

  /** A pass over a scope not yet visited takes the caches from the state
      after `done` to the state after `done` and that scope. */
  lemma LoopStep(dds: map<Scope, DisjointDataset>, kds: map<Scope, KdIndex>, lpcs: LocalPcs, depth: nat,
                 done: set<Scope>, s: Scope)
    requires s in dds && s !in done
    ensures s in PartialDds(dds, lpcs, depth, done)
    ensures InsertStep(s, lpcs, depth, PartialDds(dds, lpcs, depth, done), PartialKds(dds, kds, lpcs, depth, done))
            == (PartialDds(dds, lpcs, depth, done + {s}), PartialKds(dds, kds, lpcs, depth, done + {s}))
  {
    var d, kd := PartialDds(dds, lpcs, depth, done), PartialKds(dds, kds, lpcs, depth, done);
    DdsStep(dds, lpcs, depth, done, s);
    KdsStep(dds, kds, lpcs, depth, done, s);
    assert d[s] == dds[s];
    assert s in kd ==> kd[s] == kds[s];
  }

  /** `LoopStep` phrased by the scopes still to visit. */
  lemma TodoStep(dds: map<Scope, DisjointDataset>, kds: map<Scope, KdIndex>, lpcs: LocalPcs, depth: nat,
                 todo: set<Scope>, s: Scope)
    requires s in todo && todo <= dds.Keys
    ensures s in PartialDds(dds, lpcs, depth, dds.Keys - todo)
    ensures InsertStep(s, lpcs, depth, PartialDds(dds, lpcs, depth, dds.Keys - todo),
                       PartialKds(dds, kds, lpcs, depth, dds.Keys - todo))
            == (PartialDds(dds, lpcs, depth, dds.Keys - (todo - {s})),
                PartialKds(dds, kds, lpcs, depth, dds.Keys - (todo - {s})))
  {
    LoopStep(dds, kds, lpcs, depth, dds.Keys - todo, s);
    assert dds.Keys - (todo - {s}) == (dds.Keys - todo) + {s};
  }

  /** Before the loop nothing is visited; after it every cached scope is. */
  lemma PartialEnds(dds: map<Scope, DisjointDataset>, kds: map<Scope, KdIndex>, lpcs: LocalPcs, depth: nat)
    ensures PartialDds(dds, lpcs, depth, {}) == dds && PartialKds(dds, kds, lpcs, depth, {}) == kds
    ensures PartialDds(dds, lpcs, depth, dds.Keys) == InsertedDds(dds, lpcs, depth)
    ensures PartialKds(dds, kds, lpcs, depth, dds.Keys) == InsertedKds(dds, kds, lpcs, depth)
    ensures dds.Keys - {} == dds.Keys
  {
    PartialDdsEnds(dds, lpcs, depth);
    PartialKdsEnds(dds, kds, lpcs, depth);
  }

  lemma PartialDdsEnds(dds: map<Scope, DisjointDataset>, lpcs: LocalPcs, depth: nat)
    ensures PartialDds(dds, lpcs, depth, {}) == dds
    ensures PartialDds(dds, lpcs, depth, dds.Keys) == InsertedDds(dds, lpcs, depth)
  {
  }

  lemma PartialKdsEnds(dds: map<Scope, DisjointDataset>, kds: map<Scope, KdIndex>, lpcs: LocalPcs, depth: nat)
    ensures PartialKds(dds, kds, lpcs, depth, {}) == kds
    ensures PartialKds(dds, kds, lpcs, depth, dds.Keys) == InsertedKds(dds, kds, lpcs, depth)
  {
  }

  /** The cached datasets after a node at depth `depth` with clouds `lpcs`
      is inserted: every cached scope the node is in gets the node's named
      cloud appended. */
  function InsertedDds(dds: map<Scope, DisjointDataset>, lpcs: LocalPcs, depth: nat): map<Scope, DisjointDataset>
  {
    map s | s in dds :: if InScope(s, lpcs, depth) then Append(dds[s], lpcs[s.pcname]) else dds[s]
  }

  /** The k-d indices after the same insertion: for a cached scope the node
      is in, the index gets the range from the old point count to the old
      count plus the node's points. */
  function InsertedKds(dds: map<Scope, DisjointDataset>, kds: map<Scope, KdIndex>, lpcs: LocalPcs,
                       depth: nat): map<Scope, KdIndex>
  {
    map s | s in kds :: if s in dds && InScope(s, lpcs, depth)
                        then AddPoints(kds[s], NPoints(dds[s]), NPoints(dds[s]) + lpcs[s.pcname].size)
                        else kds[s]
  }

  /** Insertion keeps the two caches in agreement, creates no scope, and
      grows a scope's point count by exactly the new node's points when the
      node is in the scope (and not at all otherwise). */
  lemma InsertKeepsAgreement(dds: map<Scope, DisjointDataset>, kds: map<Scope, KdIndex>, lpcs: LocalPcs, depth: nat)
    requires Agrees(dds, kds)
    ensures Agrees(InsertedDds(dds, lpcs, depth), InsertedKds(dds, kds, lpcs, depth))
    ensures InsertedDds(dds, lpcs, depth).Keys == dds.Keys
    ensures InsertedKds(dds, kds, lpcs, depth).Keys == kds.Keys
    ensures forall s | s in dds :: NPoints(InsertedDds(dds, lpcs, depth)[s]) ==
              NPoints(dds[s]) + (if InScope(s, lpcs, depth) then lpcs[s.pcname].size else 0)
  {
    forall s | s in InsertedKds(dds, kds, lpcs, depth)
      ensures s in InsertedDds(dds, lpcs, depth)
      ensures Covers(InsertedKds(dds, kds, lpcs, depth)[s], NPoints(InsertedDds(dds, lpcs, depth)[s]))
    {
      InsertKeepsCover(dds, kds, lpcs, depth, s);
    }
  }

  /** `InsertKeepsAgreement` for one indexed scope. */
  lemma InsertKeepsCover(dds: map<Scope, DisjointDataset>, kds: map<Scope, KdIndex>, lpcs: LocalPcs, depth: nat,
                         s: Scope)
    requires Agrees(dds, kds) && s in kds
    ensures s in InsertedDds(dds, lpcs, depth) && s in InsertedKds(dds, kds, lpcs, depth)
    ensures Covers(InsertedKds(dds, kds, lpcs, depth)[s], NPoints(InsertedDds(dds, lpcs, depth)[s]))
  {
    if InScope(s, lpcs, depth) {
      CoversAddPoints(kds[s], NPoints(dds[s]), lpcs[s.pcname].size);
    }
  }

  /** The insertion as written: the `for (auto [scope,dds] : m_dds)` loop
      binds a copy of each cache entry, so the append is lost and the
      cached datasets stay as they were, while the k-d indices are still
      extended. */
  function InsertedAsWritten(dds: map<Scope, DisjointDataset>, kds: map<Scope, KdIndex>, lpcs: LocalPcs,
                             depth: nat): (map<Scope, DisjointDataset>, map<Scope, KdIndex>)
  {
    (dds, InsertedKds(dds, kds, lpcs, depth))
  }

  /** With a scope cached and indexed over no points, inserting a node with
      one point leaves the cache at zero points and the index at one: the
      two no longer agree.  A second such insertion would add the same
      range `[0, 1)` again. */
  lemma InsertedAsWrittenDisagrees()
    ensures var s := Scope("pc", [], 0);
            var dds := map[s := EmptyDds()];
            var kds := map[s := BuildKd(0)];
            var lpcs := map["pc" := Dataset({}, 1)];
            var after := InsertedAsWritten(dds, kds, lpcs, 1);
            Agrees(dds, kds) && !Agrees(after.0, after.1)
  {
    var s := Scope("pc", [], 0);
    var dds := map[s := EmptyDds()];
    var kds := map[s := BuildKd(0)];
    var lpcs := map["pc" := Dataset({}, 1)];
    assert InScope(s, lpcs, 1);
    var after := InsertedAsWritten(dds, kds, lpcs, 1);
    assert after.1[s] == AddPoints(BuildKd(0), 0, 1);
    CoversAddPoints(BuildKd(0), 0, 0);
    assert NPoints(after.0[s]) == 0;
    assert !Covers(after.1[s], 0);
  }

  // ---------------------------------------------------------------
  // The Points object.

  /** `Tree::Points`: the node it is attached to (None before
      `on_construct`), the dataset cache and the k-d index cache. */
  class Points {
    const tree: Forest<LocalPcs>
    var node: Option<nat>
    var dds: map<Scope, DisjointDataset>
    var kds: map<Scope, KdIndex>

    ghost predicate Valid()
      reads this`node, tree
    {
      tree.Valid() && (node.Some? ==> node.value < |tree.value|)
    }

    constructor (t: Forest<LocalPcs>)
      requires t.Valid()
      ensures Valid()
      ensures tree == t && node == None && dds == map[] && kds == map[]
    {
      tree := t;
      node := None;
      dds := map[];
      kds := map[];
    }

    /** `on_construct`: attach to a node. */
    method OnConstruct(n: nat)
      requires Valid() && n < |tree.value|
      modifies this
      ensures Valid()
      ensures node == Some(n) && dds == old(dds) && kds == old(kds)
    {
      node := Some(n);
    }

    /** The payloads of the nodes of walk `w` from position `k` on that
        are within depth `limit`, in walk order. */
    ghost function InDepth(w: seq<nat>, k: nat, limit: Size): seq<LocalPcs>
      reads tree
      requires tree.Valid() && k <= |w| && forall i | 0 <= i < |w| :: w[i] < |tree.value|
      decreases |w| - k
    {
      if k == |w| then []
      else (if limit == 0 || tree.Depth(w[k]) <= limit then [tree.value[w[k]]] else []) + InDepth(w, k + 1, limit)
    }

    /** The payloads `scoped_pc` visits for depth limit `limit`: the walk
        from the attached node, filtered by depth; nothing when detached. */
    ghost function Visits(limit: Size): seq<LocalPcs>
      reads this`node, tree
      requires Valid()
    {
      if node.None? then [] else InDepth(tree.Walk(node.value), 0, limit)
    }

    /** One step of the walk in the `scoped_pc` loop, at position `k` of
        walk `w`: a node deeper than the limit or without the named cloud
        is passed over, a complete cloud is appended, an incomplete one
        ends the build. */
    lemma CollectStep(scope: Scope, w: seq<nat>, k: nat, acc: DisjointDataset)
      requires tree.Valid() && k < |w| && forall i | 0 <= i < |w| :: w[i] < |tree.value|
      ensures var v := tree.value[w[k]];
              var here := Collect(scope, InDepth(w, k, scope.depth), acc);
              var next := InDepth(w, k + 1, scope.depth);
              && (!(scope.depth == 0 || tree.Depth(w[k]) <= scope.depth) || scope.pcname !in v ==>
                    here == Collect(scope, next, acc))
              && ((scope.depth == 0 || tree.Depth(w[k]) <= scope.depth) && scope.pcname in v ==>
                    here == if CoordsComplete(v[scope.pcname].keys, scope.coords)
                            then Collect(scope, next, Append(acc, v[scope.pcname]))
                            else Lacking(acc))
    {
      var rest := InDepth(w, k + 1, scope.depth);
      if scope.depth == 0 || tree.Depth(w[k]) <= scope.depth {
        var pcs := [tree.value[w[k]]] + rest;
        assert InDepth(w, k, scope.depth) == pcs;
        assert pcs[0] == tree.value[w[k]] && pcs[1..] == rest;
      } else {
        assert InDepth(w, k, scope.depth) == rest;
      }
    }

    /** The loop of `scoped_pc`: walk from the attached node, pass over
        nodes deeper than the limit and nodes without the named cloud,
        append each complete cloud, and stop at the first incomplete one
        with what was gathered before it. */
    method Gather(scope: Scope) returns (b: Build)
      requires Valid()
      ensures b == Collect(scope, Visits(scope.depth), EmptyDds())
    {
      var acc := EmptyDds();
      ghost var W: seq<nat> := if node.Some? then tree.Walk(node.value) else [];
      ghost var goal := Collect(scope, Visits(scope.depth), EmptyDds());
      ghost var k := 0;
      var it := if node.Some? then tree.Begin(node.value) else End();
      while it.node.Some?
        invariant k <= |W| && it.node == (if k < |W| then Some(W[k]) else None)
        invariant goal == Collect(scope, InDepth(W, k, scope.depth), acc)
        decreases |W| - k
      {
        var c := it.node.value;
        CollectStep(scope, W, k, acc);
        if scope.depth == 0 || tree.Depth(c) <= scope.depth {
          var nv := tree.value[c];
          if scope.pcname in nv {
            var ds := nv[scope.pcname];
            if CoordsComplete(ds.keys, scope.coords) {
              acc := Append(acc, ds);
            } else {
              return Lacking(acc);
            }
          }
        }
        if k < |W| - 1 {
          tree.ChainAt(W, k);
        }
        it := tree.Increment(it);
        k := k + 1;
      }
      return Built(acc);
    }

    /** `scoped_pc`: a cached scope is returned as it is; otherwise the
        walk's clouds are gathered into a new cache entry, and a cloud that
        lacks a coordinate raises IndexError, leaving the entry with what
        was appended before it. */
    method ScopedPc(scope: Scope) returns (r: Result<DisjointDataset>)
      requires Valid()
      modifies this`dds
      ensures scope in old(dds) ==> r == Ok(old(dds)[scope]) && dds == old(dds)
      ensures scope !in old(dds) ==>
                match Collect(scope, Visits(scope.depth), EmptyDds())
                case Built(d) => r == Ok(d) && dds == old(dds)[scope := d]
                case Lacking(d) => r == Err(IndexError) && dds == old(dds)[scope := d]
      ensures old(Agrees(dds, kds)) ==> Agrees(dds, kds)
    {
      if scope in dds {
        return Ok(dds[scope]);
      }
      var b := Gather(scope);
      match b
      case Built(d) =>
        dds := dds[scope := d];
        return Ok(d);
      case Lacking(d) =>
        dds := dds[scope := d];
        return Err(IndexError);
    }

    /** `on_insert` as written: only the k-d indices change (see
        `InsertedAsWritten`). */
    method OnInsertAsWritten(path: seq<nat>) returns (ok: bool)
      requires Valid() && path != [] && path[|path| - 1] < |tree.value|
      modifies this`kds
      ensures ok
      ensures (dds, kds) == InsertedAsWritten(old(dds), old(kds), tree.value[path[|path| - 1]], |path|)
    {
      var lpcs := tree.value[path[|path| - 1]];
      var depth := |path|;
      var d, k := dds, kds;
      var todo := d.Keys;
      PartialEnds(d, k, lpcs, depth);
      while todo != {}
        invariant todo <= d.Keys
        invariant k == PartialKds(d, old(kds), lpcs, depth, d.Keys - todo)
        decreases todo
      {
        var scope :| scope in todo;
        KdsTodoStep(d, old(kds), lpcs, depth, todo, scope);
        k := WrittenOne(scope, lpcs, depth, d, k);
        todo := todo - {scope};
      }
      kds := k;
      return true;
    }

    /** One pass of the `on_insert` loop as written: the append goes to a
        copy of the cache entry, and only the k-d index keeps the change. */
    static method WrittenOne(scope: Scope, lpcs: LocalPcs, depth: nat, d: map<Scope, DisjointDataset>,
                             k: map<Scope, KdIndex>) returns (k': map<Scope, KdIndex>)
      requires scope in d
      ensures k' == KdStep(scope, lpcs, depth, d, k)
    {
      k' := k;
      var copy := d[scope];
      var inScope := InScopeCheck(scope, lpcs, depth);
      if !inScope {
        return;
      }
      var ds := lpcs[scope.pcname];
      var beg := NPoints(copy);
      copy := Append(copy, ds);
      var end := NPoints(copy);
      if scope !in k' {
        return;
      }
      k' := k'[scope := AddPoints(k'[scope], beg, end)];
    }

    /** `on_insert` with the cache entry bound by reference: every cached
        scope the new node is in gets the node's cloud appended, and its k-d
        index, if any, the range of the appended points. */
    method OnInsert(path: seq<nat>) returns (ok: bool)
      requires Valid() && path != [] && path[|path| - 1] < |tree.value|
      modifies this`dds, this`kds
      ensures ok
      ensures dds == InsertedDds(old(dds), tree.value[path[|path| - 1]], |path|)
      ensures kds == InsertedKds(old(dds), old(kds), tree.value[path[|path| - 1]], |path|)
      ensures old(Agrees(dds, kds)) ==> Agrees(dds, kds)
    {
      var lpcs := tree.value[path[|path| - 1]];
      var depth := |path|;
      ghost var dds0, kds0 := dds, kds;
      dds, kds := InsertAll(dds, kds, lpcs, depth);
      if Agrees(dds0, kds0) {
        InsertKeepsAgreement(dds0, kds0, lpcs, depth);
      }
      return true;
    }

    /** The loop of `on_insert` over the cached scopes, in any order. */
    static method InsertAll(dds0: map<Scope, DisjointDataset>, kds0: map<Scope, KdIndex>, lpcs: LocalPcs, depth: nat)
      returns (d: map<Scope, DisjointDataset>, kd: map<Scope, KdIndex>)
      ensures d == InsertedDds(dds0, lpcs, depth) && kd == InsertedKds(dds0, kds0, lpcs, depth)
    {
      d, kd := dds0, kds0;
      var todo := dds0.Keys;
      PartialEnds(dds0, kds0, lpcs, depth);
      while todo != {}
        invariant todo <= dds0.Keys
        invariant d == PartialDds(dds0, lpcs, depth, dds0.Keys - todo)
        invariant kd == PartialKds(dds0, kds0, lpcs, depth, dds0.Keys - todo)
        decreases todo
      {
        var scope :| scope in todo;
        d, kd := InsertPass(dds0, kds0, lpcs, depth, todo, scope, d, kd);
        todo := todo - {scope};
      }
    }

    /** A pass of the loop over one scope not yet visited. */
    static method InsertPass(dds0: map<Scope, DisjointDataset>, kds0: map<Scope, KdIndex>, lpcs: LocalPcs, depth: nat,
                             todo: set<Scope>, scope: Scope, d: map<Scope, DisjointDataset>, kd: map<Scope, KdIndex>)
      returns (d': map<Scope, DisjointDataset>, kd': map<Scope, KdIndex>)
      requires scope in todo && todo <= dds0.Keys
      requires d == PartialDds(dds0, lpcs, depth, dds0.Keys - todo)
      requires kd == PartialKds(dds0, kds0, lpcs, depth, dds0.Keys - todo)
      ensures d' == PartialDds(dds0, lpcs, depth, dds0.Keys - (todo - {scope}))
      ensures kd' == PartialKds(dds0, kds0, lpcs, depth, dds0.Keys - (todo - {scope}))
    {
      TodoStep(dds0, kds0, lpcs, depth, todo, scope);
      d', kd' := InsertOne(scope, lpcs, depth, d, kd);
    }

    /** One pass of the `on_insert` loop, for one cached scope: when the new
        node is in the scope, its cloud is appended to the scope's dataset,
        and the appended range is added to the scope's k-d index if there
        is one. */
    static method InsertOne(scope: Scope, lpcs: LocalPcs, depth: nat, d: map<Scope, DisjointDataset>,
                            kd: map<Scope, KdIndex>)
      returns (d': map<Scope, DisjointDataset>, kd': map<Scope, KdIndex>)
      requires scope in d
      ensures (d', kd') == InsertStep(scope, lpcs, depth, d, kd)
    {
      d', kd' := d, kd;
      var inScope := InScopeCheck(scope, lpcs, depth);
      if !inScope {
        return;
      }
      var ds := lpcs[scope.pcname];
      var beg := NPoints(d'[scope]);
      d' := d'[scope := Append(d'[scope], ds)];
      var end := NPoints(d'[scope]);
      if scope !in kd' {
        return;
      }
      kd' := kd'[scope := AddPoints(kd'[scope], beg, end)];
    }

    /** `on_remove`: removal is not implemented and always raises
        ValueError. */
    method OnRemove(path: seq<nat>) returns (r: Result<bool>)
      ensures r == Err(ValueError)
    {
      return Err(ValueError);
    }
  }
}
