/** A trie over the nibbles of names, in a growable array whose edges are 16-bit indices. */
module Trie {
  import opened Words
  import opened Wrappers

  type letter = x: int | 0 < x < 256 witness 1
  type Name = seq<letter>
  type Path = seq<int>
  type InfoRef = nat

  datatype Node = Node(next: seq<int>, idx: int, id: int)

  const NAME_LIMIT: nat := 1024
  const EDGE_LIMIT: nat := 0x8000
  const NODE_LIMIT: nat := 0x1_0000
  const NO_ID: int := -1
  const NO_EDGES: seq<int> := [0, 0, 0, 0, 0, 0, 0, 0, 0, 0, 0, 0, 0, 0, 0, 0]

  function High(c: letter): (n: int)
    ensures 0 <= n < 16
  {
    c / 16
  }

  function Low(c: letter): (n: int)
    ensures 0 <= n < 16
  {
    c % 16
  }

  /** The way to a name: two nibbles for each character. */
  function Nibbles(s: Name): (p: Path)
    ensures |p| == 2 * |s| && forall k :: 0 <= k < |p| ==> 0 <= p[k] < 16
  {
    if s == [] then [] else
      var m := |s| - 1;
      Nibbles(s[..m]) + [High(s[m]), Low(s[m])]
  }

  /** Only the first 1024 characters of a name are entered. */
  function Key(s: Name): Name {
    if |s| <= NAME_LIMIT then s else s[..NAME_LIMIT]
  }

  lemma LetterFromNibbles(c: letter, d: letter)
    ensures High(c) == High(d) && Low(c) == Low(d) <==> c == d
  {
    assert c == 16 * High(c) + Low(c) && d == 16 * High(d) + Low(d);
  }

  lemma SnocInjective(p: Path, q: Path, a: int, b: int, c: int, d: int)
    requires |p| == |q| && p + [a, b] == q + [c, d]
    ensures p == q && a == c && b == d
  {
    assert (p + [a, b])[..|p|] == p && (q + [c, d])[..|p|] == q;
    assert (p + [a, b])[|p|] == a && (q + [c, d])[|p|] == c;
    assert (p + [a, b])[|p| + 1] == b && (q + [c, d])[|p| + 1] == d;
  }

  lemma {:induction false} NibblesInjective(s: Name, t: Name)
    requires Nibbles(s) == Nibbles(t)
    ensures s == t
  {
    assert |s| == |t|;
    if s != [] {
      var m := |s| - 1;
      SnocInjective(Nibbles(s[..m]), Nibbles(t[..m]), High(s[m]), Low(s[m]), High(t[m]), Low(t[m]));
      NibblesInjective(s[..m], t[..m]);
      LetterFromNibbles(s[m], t[m]);
      assert s == s[..m] + [s[m]] && t == t[..m] + [t[m]];
    }
  }

  lemma NibblesSnoc(s: Name, i: nat)
    requires i < |s|
    ensures Nibbles(s[..i + 1]) == (Nibbles(s[..i]) + [High(s[i])]) + [Low(s[i])]
  {
    assert s[..i + 1][..i] == s[..i];
  }

  lemma {:induction false} NibblesAt(s: Name, k: nat)
    requires k < |s|
    ensures Nibbles(s)[2 * k] == High(s[k]) && Nibbles(s)[2 * k + 1] == Low(s[k])
    decreases |s|
  {
    var m := |s| - 1;
    if k < m {
      NibblesAt(s[..m], k);
    }
  }

  // ----- the tree: each node by the way that leads to it

  ghost predicate HasParent(paths: seq<Path>, j: nat)
    requires j < |paths|
  {
    paths[j] != [] && paths[j][..|paths[j]| - 1] in paths[..j]
  }

  /** Every way but the empty one is one nibble longer than an earlier one. */
  ghost predicate Grown(paths: seq<Path>) {
    && |paths| > 0 && paths[0] == []
    && forall j {:trigger HasParent(paths, j)} :: 0 < j < |paths| ==> HasParent(paths, j)
  }

  /** The node a way leads to, or -1. */
  ghost function Locate(paths: seq<Path>, p: Path): (j: int)
    ensures j == -1 || (0 <= j < |paths| && paths[j] == p)
    ensures j == -1 <==> p !in paths
  {
    if p in paths then var j :| 0 <= j < |paths| && paths[j] == p; j else -1
  }

  /** No way leads to two nodes. */
  ghost predicate Distinct(paths: seq<Path>) {
    forall i {:trigger Locate(paths, paths[i])} :: 0 <= i < |paths| ==> Locate(paths, paths[i]) == i
  }

  lemma SameNode(paths: seq<Path>, i: nat, j: nat)
    requires Distinct(paths) && i < |paths| && j < |paths|
    ensures paths[i] == paths[j] <==> i == j
  {
    assert Locate(paths, paths[i]) == i && Locate(paths, paths[j]) == j;
  }

  /** The edge the 16-bit field holds. */
  ghost function Edge(paths: seq<Path>, p: Path): int {
    if p in paths then Short(Locate(paths, p)) else 0
  }

  ghost predicate Edges(ns: seq<Node>, paths: seq<Path>)
    requires |ns| == |paths|
  {
    && (forall i :: 0 <= i < |ns| ==> |ns[i].next| == 16)
    && forall i, c {:trigger Edge(paths, paths[i] + [c])} ::
         0 <= i < |ns| && 0 <= c < 16 ==> ns[i].next[c] == Edge(paths, paths[i] + [c])
  }

  ghost predicate Shape(ns: seq<Node>, paths: seq<Path>) {
    |ns| == |paths| && Distinct(paths) && Grown(paths) && Edges(ns, paths)
  }

  lemma EdgeIs(ns: seq<Node>, paths: seq<Path>, i: nat, c: int)
    requires Shape(ns, paths) && i < |ns| && 0 <= c < 16
    ensures ns[i].next[c] == Edge(paths, paths[i] + [c])
  {
  }

  /** An edge that is not negative leads from a node to a later one, so no node has two parents and none is its own
      ancestor. */
  lemma EdgesGoUp(ns: seq<Node>, paths: seq<Path>, i: nat, c: nat)
    requires Shape(ns, paths) && |ns| <= NODE_LIMIT && i < |ns| && c < 16 && ns[i].next[c] > 0
    ensures i < ns[i].next[c] < |ns| && paths[ns[i].next[c]] == paths[i] + [c]
  {
    var p := paths[i] + [c];
    var j := Locate(paths, p);
    EdgeIs(ns, paths, i, c);
    assert p[..|p| - 1] == paths[i];
    Parent(paths, j, i);
  }

  lemma Parent(paths: seq<Path>, j: nat, i: nat)
    requires Distinct(paths) && Grown(paths) && j < |paths| && i < |paths|
    requires paths[j] != [] && paths[i] == paths[j][..|paths[j]| - 1]
    ensures i < j
  {
    assert HasParent(paths, j);
    var k :| 0 <= k < |paths[..j]| && paths[..j][k] == paths[i];
    assert paths[k] == paths[i];
    SameNode(paths, k, i);
  }

  /** No two edges are the same, not even where they do not fit. */
  lemma OneParent(ns: seq<Node>, paths: seq<Path>, i: nat, c: nat, k: nat, d: nat)
    requires Shape(ns, paths) && |ns| <= NODE_LIMIT && i < |ns| && k < |ns| && c < 16 && d < 16
    requires ns[i].next[c] == ns[k].next[d] != 0
    ensures i == k && c == d
  {
    EdgeIs(ns, paths, i, c);
    EdgeIs(ns, paths, k, d);
    assert Locate(paths, paths[i] + [c]) == Locate(paths, paths[k] + [d]);
    assert (paths[i] + [c])[..|paths[i]|] == paths[i] && (paths[k] + [d])[..|paths[k]|] == paths[k];
    assert (paths[i] + [c])[|paths[i]|] == c && (paths[k] + [d])[|paths[k]|] == d;
    assert paths[i] == paths[k];
    SameNode(paths, i, k);
  }

  /** A way into the tree passes only through nodes of the tree. */
  lemma {:induction false} PrefixClosed(paths: seq<Path>, p: Path, k: nat)
    requires Grown(paths) && p in paths && k <= |p|
    ensures p[..k] in paths
    decreases |p|
  {
    if k == |p| {
      assert p[..k] == p;
    } else {
      var j :| 0 <= j < |paths| && paths[j] == p;
      var q := p[..|p| - 1];
      assert HasParent(paths, j);
      PrefixClosed(paths, q, k);
      assert q[..k] == p[..k];
    }
  }

  lemma Missing(paths: seq<Path>, q: Path, p: Path)
    requires Grown(paths) && q !in paths && q <= p
    ensures p !in paths
  {
    assert p[..|q|] == q;
    if p in paths {
      PrefixClosed(paths, p, |q|);
    }
  }

  // ----- following edges

  datatype Reach = At(i: nat) | Absent | Outside

  /** Where the edges lead from node `i`; `Outside` when an index is not one of a node. */
  ghost function Follow(ns: seq<Node>, i: nat, p: Path): (r: Reach)
    requires i < |ns| && (forall j :: 0 <= j < |ns| ==> |ns[j].next| == 16)
    requires forall k :: 0 <= k < |p| ==> 0 <= p[k] < 16
    ensures r.At? ==> r.i < |ns|
    decreases |p|
  {
    if p == [] then At(i)
    else
      var e := ns[i].next[p[0]];
      if e == 0 then Absent else if 0 < e < |ns| then Follow(ns, e, p[1..]) else Outside
  }

  /** The indices of all nodes on the way `p` fit the edges. */
  ghost predicate WayFits(paths: seq<Path>, p: Path) {
    forall k {:trigger p[..k]} :: 0 <= k <= |p| ==> Locate(paths, p[..k]) < EDGE_LIMIT
  }

  lemma WayFitsAt(paths: seq<Path>, p: Path, q: Path)
    requires WayFits(paths, p) && q <= p
    ensures Locate(paths, q) < EDGE_LIMIT
  {
    assert p[..|q|] == q;
  }

  /** Following edges finds exactly the nodes there are, while the indices on the way fit. */
  lemma {:induction false} FollowFinds(ns: seq<Node>, paths: seq<Path>, i: nat, p: Path)
    requires Shape(ns, paths) && |ns| <= NODE_LIMIT && i < |ns| && forall k :: 0 <= k < |p| ==> 0 <= p[k] < 16
    requires WayFits(paths, paths[i] + p)
    ensures Follow(ns, i, p) == if paths[i] + p in paths then At(Locate(paths, paths[i] + p)) else Absent
    decreases |p|
  {
    hide WayFits;
    if p == [] {
      assert paths[i] + p == paths[i];
      assert Locate(paths, paths[i]) == i;
    } else {
      var q := paths[i] + [p[0]];
      assert q + p[1..] == paths[i] + p;
      ZeroEdge(ns, paths, i, p[0]);
      if ns[i].next[p[0]] == 0 {
        Missing(paths, q, paths[i] + p);
      } else {
        WayFitsAt(paths, paths[i] + p, q);
        EdgeIs(ns, paths, i, p[0]);
        EdgesGoUp(ns, paths, i, p[0]);
        FollowFinds(ns, paths, ns[i].next[p[0]], p[1..]);
      }
    }
  }

  lemma ZeroEdge(ns: seq<Node>, paths: seq<Path>, i: nat, c: int)
    requires Shape(ns, paths) && |ns| <= NODE_LIMIT && i < |ns| && 0 <= c < 16
    ensures ns[i].next[c] == 0 <==> paths[i] + [c] !in paths
  {
    EdgeIs(ns, paths, i, c);
    if paths[i] + [c] in paths {
      assert Locate(paths, paths[i] + [c]) != 0;
    }
  }

  /** They lead outside the array as soon as an index on the way does not fit. */
  lemma {:induction false} FollowFails(ns: seq<Node>, paths: seq<Path>, i: nat, p: Path)
    requires Shape(ns, paths) && |ns| <= NODE_LIMIT && i < |ns| && forall k :: 0 <= k < |p| ==> 0 <= p[k] < 16
    requires WayFits(paths, paths[i]) && !WayFits(paths, paths[i] + p)
    ensures Follow(ns, i, p) == Outside
    decreases |p|
  {
    assert paths[i] + [] == paths[i];
    var q := paths[i] + [p[0]];
    assert q + p[1..] == paths[i] + p;
    EdgeIs(ns, paths, i, p[0]);
    if q !in paths {
      WayEnds(paths, paths[i], p);
    } else if Locate(paths, q) < EDGE_LIMIT {
      WayMore(paths, paths[i], p[0]);
      ZeroEdge(ns, paths, i, p[0]);
      FollowFails(ns, paths, Locate(paths, q), p[1..]);
    }
  }

  lemma WayMore(paths: seq<Path>, p: Path, c: int)
    requires WayFits(paths, p) && Locate(paths, p + [c]) < EDGE_LIMIT
    ensures WayFits(paths, p + [c])
  {
    var q := p + [c];
    forall k | 0 <= k <= |q| ensures Locate(paths, q[..k]) < EDGE_LIMIT {
      if k <= |p| {
        assert q[..k] == p[..k];
      } else {
        assert q[..k] == q;
      }
    }
  }

  /** Nothing lies beyond a missing node. */
  lemma WayEnds(paths: seq<Path>, p: Path, r: Path)
    requires Grown(paths) && WayFits(paths, p) && r != [] && p + [r[0]] !in paths
    ensures WayFits(paths, p + r)
  {
    var q := p + r;
    forall k | 0 <= k <= |q| ensures Locate(paths, q[..k]) < EDGE_LIMIT {
      if k <= |p| {
        assert q[..k] == p[..k];
      } else {
        assert p + [r[0]] <= q[..k];
        Missing(paths, p + [r[0]], q[..k]);
      }
    }
  }

  lemma RootFits(paths: seq<Path>)
    requires Grown(paths) && Distinct(paths)
    ensures WayFits(paths, [])
  {
    assert Locate(paths, paths[0]) == 0;
    var p: Path := [];
    assert forall k :: 0 <= k <= |p| ==> p[..k] == [];
  }

  lemma {:induction false} Ancestor(paths: seq<Path>, j: nat, t: nat)
    requires Distinct(paths) && Grown(paths) && j < |paths| && t < |paths| && paths[j] < paths[t]
    ensures j < t
    decreases |paths[t]|
  {
    var q := paths[t][..|paths[t]| - 1];
    assert HasParent(paths, t);
    var k :| 0 <= k < |paths[..t]| && paths[..t][k] == q;
    if paths[j] == q {
      Parent(paths, t, j);
    } else {
      assert paths[j] <= q;
      Ancestor(paths, j, k);
    }
  }

  /** As later nodes have larger indices, it is enough that the last node on the way fits. */
  lemma WayToNode(paths: seq<Path>, i: nat)
    requires Distinct(paths) && Grown(paths) && i < |paths|
    ensures WayFits(paths, paths[i]) <==> i < EDGE_LIMIT
  {
    var p := paths[i];
    assert Locate(paths, paths[i]) == i && p[..|p|] == p;
    forall k | 0 <= k <= |p| ensures Locate(paths, p[..k]) <= i {
      PrefixClosed(paths, p, k);
      if k < |p| {
        Ancestor(paths, Locate(paths, p[..k]), i);
      } else {
        assert p[..k] == p;
      }
    }
  }

  // ----- growing

  lemma FreshChild(paths: seq<Path>, p: Path, c: int)
    requires Grown(paths) && p !in paths
    ensures p + [c] !in paths + [p]
  {
    Missing(paths, p, p + [c]);
  }

  lemma LocateMore(paths: seq<Path>, p: Path, q: Path)
    requires Distinct(paths) && Distinct(paths + [p])
    ensures Locate(paths + [p], q) == if q == p then |paths| else Locate(paths, q)
  {
    var more := paths + [p];
    if q == p {
      assert Locate(more, more[|paths|]) == |paths|;
      assert more[|paths|] == p;
    } else if q in paths {
      assert more[Locate(paths, q)] == q;
      assert Locate(more, more[Locate(paths, q)]) == Locate(paths, q);
    }
  }

  lemma DistinctMore(paths: seq<Path>, p: Path, i: nat, j: nat)
    requires Distinct(paths) && p !in paths && i <= |paths| && j <= |paths| && (paths + [p])[i] == (paths + [p])[j]
    ensures i == j
  {
    if i < |paths| && j < |paths| {
      SameNode(paths, i, j);
    }
  }

  lemma GrownMore(paths: seq<Path>, p: Path)
    requires Distinct(paths) && Grown(paths) && p !in paths && p != [] && p[..|p| - 1] in paths
    ensures Distinct(paths + [p]) && Grown(paths + [p])
  {
    var more := paths + [p];
    forall j | 0 < j < |more| ensures HasParent(more, j) {
      if j < |paths| {
        assert HasParent(paths, j) && more[..j] == paths[..j];
      } else {
        assert more[..j] == paths;
      }
    }
    forall i | 0 <= i < |more| ensures Locate(more, more[i]) == i {
      DistinctMore(paths, p, i, Locate(more, more[i]));
    }
  }

  /** Storing the edge to a new last node keeps the shape. */
  lemma ShapeMore(ns: seq<Node>, ns': seq<Node>, paths: seq<Path>, i: nat, c: int)
    requires Shape(ns, paths) && i < |ns| && 0 <= c < 16 && paths[i] + [c] !in paths
    requires |ns'| == |ns| + 1 && ns'[|ns|].next == NO_EDGES && ns'[i].next == ns[i].next[c := Short(|ns|)]
    requires forall k :: 0 <= k < |ns| && k != i ==> ns'[k].next == ns[k].next
    ensures Shape(ns', paths + [paths[i] + [c]])
  {
    var p := paths[i] + [c];
    var more := paths + [p];
    assert p[..|p| - 1] == paths[i];
    GrownMore(paths, p);
    forall k, d | 0 <= k < |ns'| && 0 <= d < 16 ensures ns'[k].next[d] == Edge(more, more[k] + [d]) {
      if k == |ns| {
        FreshChild(paths, p, d);
      } else {
        LocateMore(paths, p, more[k] + [d]);
        EdgeMore(ns, ns', paths, i, c, k, d);
      }
    }
  }

  lemma EdgeMore(ns: seq<Node>, ns': seq<Node>, paths: seq<Path>, i: nat, c: int, k: nat, d: int)
    requires Shape(ns, paths) && i < |ns| && k < |ns| && 0 <= c < 16 && 0 <= d < 16
    requires |ns'| == |ns| + 1 && ns'[i].next == ns[i].next[c := Short(|ns|)] && (k != i ==> ns'[k].next == ns[k].next)
    requires var more := paths + [paths[i] + [c]];
             Locate(more, paths[k] + [d])
             == if paths[k] + [d] == paths[i] + [c] then |paths| else Locate(paths, paths[k] + [d])
    ensures ns'[k].next[d] == Edge(paths + [paths[i] + [c]], paths[k] + [d])
  {
    assert (paths[k] + [d])[..|paths[k]|] == paths[k] && (paths[i] + [c])[..|paths[i]|] == paths[i];
    assert (paths[k] + [d])[|paths[k]|] == d && (paths[i] + [c])[|paths[i]|] == c;
    assert paths[k] + [d] == paths[i] + [c] <==> paths[k] == paths[i] && c == d;
    SameNode(paths, k, i);
    EdgeIs(ns, paths, k, d);
  }

  /** The node made last has no children. */
  lemma LastIsLeaf(paths: seq<Path>, i: nat, c: int)
    requires Distinct(paths) && Grown(paths) && i == |paths| - 1
    ensures paths[i] + [c] !in paths
  {
    var p := paths[i] + [c];
    var j := Locate(paths, p);
    assert p[..|p| - 1] == paths[i];
    if j >= 0 {
      Parent(paths, j, i);
    }
  }

  /** How many nodes entering the way `p` takes. */
  ghost function Needed(paths: seq<Path>, p: Path): nat {
    if p == [] then 0
    else Needed(paths, p[..|p| - 1]) + if p in paths then 0 else 1
  }

  /** `paths` is `was` with the missing parts of the way `p`. */
  ghost predicate Entered(was: seq<Path>, paths: seq<Path>, p: Path) {
    && was <= paths && |paths| == |was| + Needed(was, p)
    && forall j :: |was| <= j < |paths| ==> paths[j] <= p
  }

  lemma EnteredMore(was: seq<Path>, paths: seq<Path>, paths': seq<Path>, p: Path, c: int)
    requires Entered(was, paths, p)
    requires paths' == if p + [c] in paths then paths else paths + [p + [c]]
    ensures Entered(was, paths', p + [c])
  {
    assert (p + [c])[..|p|] == p;
    assert p + [c] in paths <==> p + [c] in was;
  }

  /** Nodes that were there keep their indices. */
  lemma LocateKept(was: seq<Path>, paths: seq<Path>, q: Path)
    requires was <= paths && Distinct(paths) && q in was
    ensures Locate(paths, q) == Locate(was, q)
  {
    assert paths[Locate(was, q)] == q;
    assert Locate(paths, paths[Locate(was, q)]) == Locate(was, q);
  }

  /** So what could be followed to a node still can. */
  lemma WayKept(was: seq<Path>, paths: seq<Path>, q: Path)
    requires was <= paths && Distinct(paths) && Grown(was) && q in was && WayFits(was, q)
    ensures WayFits(paths, q)
  {
    forall k | 0 <= k <= |q| ensures Locate(paths, q[..k]) < EDGE_LIMIT {
      PrefixClosed(was, q, k);
      LocateKept(was, paths, q[..k]);
    }
  }

  /** A way just entered can be followed if nothing was missing of it, or all indices fit. */
  lemma WayEntered(was: seq<Path>, paths: seq<Path>, p: Path, idx: nat)
    requires Distinct(was) && Grown(was) && WayFits(was, p) && Distinct(paths) && Grown(paths) && Entered(was, paths, p)
    requires idx < |paths| && paths[idx] == p && (idx < EDGE_LIMIT || idx == |paths| - 1)
    ensures WayFits(paths, p) <==> Needed(was, p) == 0 || |paths| <= EDGE_LIMIT
  {
    WayToNode(paths, idx);
    if Needed(was, p) == 0 {
      NoneNeeded(was, p);
      assert paths == was;
      WayFitsAt(was, p, p);
    } else if |paths| > EDGE_LIMIT {
      LastEntered(was, paths, p, idx);
    }
  }

  lemma {:induction false} NoneNeeded(was: seq<Path>, p: Path)
    requires Grown(was) && Needed(was, p) == 0
    ensures p in was
  {
    if p == [] {
      assert was[0] == p;
    }
  }

  /** If any node was made, the last of them is the end of the way. */
  lemma LastEntered(was: seq<Path>, paths: seq<Path>, p: Path, idx: nat)
    requires Distinct(paths) && Grown(paths) && Entered(was, paths, p) && Needed(was, p) > 0
    requires idx < |paths| && paths[idx] == p
    ensures idx == |paths| - 1
  {
    var last := |paths| - 1;
    assert paths[last] <= p;
    if paths[last] != p {
      Ancestor(paths, last, idx);
    } else {
      SameNode(paths, last, idx);
    }
  }

  // ----- names and what they carry

  /** Nodes with an identifier are where names end, and carry what those names were given last. */
  ghost predicate Ids(ns: seq<Node>, paths: seq<Path>, infos: seq<InfoRef>, held: map<Path, InfoRef>)
    requires |ns| == |paths|
  {
    && (forall i :: 0 <= i < |ns| ==> NO_ID <= ns[i].id < |infos|)
    && (forall i :: 0 <= i < |ns| && ns[i].id != NO_ID ==> paths[i] in held && held[paths[i]] == infos[ns[i].id])
    && forall p :: p in held ==> p in paths && ns[Locate(paths, p)].id != NO_ID
  }

  /** The same, by names. */
  ghost predicate Tied(held: map<Path, InfoRef>, contents: map<Name, InfoRef>) {
    && (forall s {:trigger s in contents} :: s in contents ==> Nibbles(s) in held && held[Nibbles(s)] == contents[s])
    && forall s {:trigger s in contents} :: Nibbles(s) in held ==> s in contents
  }

  lemma TiedSet(held: map<Path, InfoRef>, contents: map<Name, InfoRef>, s: Name, info: InfoRef)
    requires Tied(held, contents)
    ensures Tied(held[Nibbles(s) := info], contents[s := info])
  {
    forall t: Name | Nibbles(t) == Nibbles(s) ensures t == s {
      NibblesInjective(s, t);
    }
  }

  /** What a lookup answers: the empty name is never found. */
  ghost function Answer(contents: map<Name, InfoRef>, s: Name): Option<InfoRef> {
    if s != [] && s in contents then Some(contents[s]) else None
  }

  /** Nodes keep their identifiers, and later ones have none. */
  ghost predicate SameIds(ns: seq<Node>, ns': seq<Node>) {
    |ns| <= |ns'| && forall k :: 0 <= k < |ns'| ==> ns'[k].id == if k < |ns| then ns[k].id else NO_ID
  }

  lemma IdsMore(ns: seq<Node>, ns': seq<Node>, paths: seq<Path>, paths': seq<Path>, infos: seq<InfoRef>,
        held: map<Path, InfoRef>)
    requires |ns| == |paths| && |ns'| == |paths'| && paths <= paths' && Distinct(paths') && SameIds(ns, ns')
    requires Ids(ns, paths, infos, held)
    ensures Ids(ns', paths', infos, held)
  {
    forall p | p in held ensures p in paths' && Locate(paths', p) == Locate(paths, p) {
      assert paths'[Locate(paths, p)] == p;
      assert Locate(paths', paths'[Locate(paths, p)]) == Locate(paths, p);
    }
  }

  /** Giving a node a new identifier. */
  lemma IdsSet(ns: seq<Node>, ns': seq<Node>, paths: seq<Path>, infos: seq<InfoRef>, held: map<Path, InfoRef>,
        i: nat, info: InfoRef)
    requires |ns| == |paths| == |ns'| && Distinct(paths) && Ids(ns, paths, infos, held)
    requires i < |ns| && ns'[i].id == |infos| && forall k :: 0 <= k < |ns| && k != i ==> ns'[k].id == ns[k].id
    ensures Ids(ns', paths, infos + [info], held[paths[i] := info])
  {
    assert Locate(paths, paths[i]) == i;
    forall k | 0 <= k < |ns| && k != i ensures paths[k] != paths[i] {
      assert k < i || k > i;
    }
  }

  lemma ShapeSame(ns: seq<Node>, ns': seq<Node>, paths: seq<Path>)
    requires Shape(ns, paths) && |ns'| == |ns| && forall k :: 0 <= k < |ns| ==> ns'[k].next == ns[k].next
    ensures Shape(ns', paths)
  {
  }

  // ----- the whole trie, seen as a value

  datatype View = View(ns: seq<Node>, paths: seq<Path>, infos: seq<InfoRef>, held: map<Path, InfoRef>,
                       contents: map<Name, InfoRef>)

  datatype Aspect = Tree | Marks | Names

  ghost predicate Sound(v: View, a: Aspect) {
    match a
    case Tree => Shape(v.ns, v.paths)
    case Marks => |v.ns| == |v.paths| && Ids(v.ns, v.paths, v.infos, v.held)
    case Names => Tied(v.held, v.contents)
  }

  ghost predicate Good(v: View) {
    && 0 < |v.ns| == |v.paths| && v.paths[0] == [] && (forall i :: 0 <= i < |v.ns| ==> |v.ns[i].next| == 16)
    && forall a {:trigger Sound(v, a)} :: Sound(v, a)
  }

  lemma Aspects(v: View)
    requires Good(v)
    ensures Shape(v.ns, v.paths) && Ids(v.ns, v.paths, v.infos, v.held) && Tied(v.held, v.contents)
  {
    assert Sound(v, Tree) && Sound(v, Marks) && Sound(v, Names);
  }

  /** A trie with only the root. */
  ghost function Bare(): (v: View)
    ensures Good(v)
  {
    var paths: seq<Path> := [[]];
    assert paths[0] == [];
    View([Node(NO_EDGES, 0, NO_ID)], paths, [], map[], map[])
  }

  type GoodView = v: View | Good(v) ghost witness Bare()

  /** A new child of node `i`. */
  ghost function WithChild(v: View, i: nat, c: int): (w: View)
    requires Good(v) && i < |v.ns| && 0 <= c < 16 && v.paths[i] + [c] !in v.paths
    ensures Good(w)
  {
    var n := |v.ns|;
    var ns := v.ns[i := v.ns[i].(next := v.ns[i].next[c := Short(n)])] + [Node(NO_EDGES, n, NO_ID)];
    var paths := v.paths + [v.paths[i] + [c]];
    Aspects(v);
    ShapeMore(v.ns, ns, v.paths, i, c);
    IdsMore(v.ns, ns, v.paths, paths, v.infos, v.held);
    View(ns, paths, v.infos, v.held, v.contents)
  }

  /** Name `key`, which ends at node `i`, gets `what`. */
  ghost function WithInfo(v: View, i: nat, key: Name, what: InfoRef): (w: View)
    requires Good(v) && i < |v.ns| && v.paths[i] == Nibbles(key)
    ensures Good(w)
  {
    var ns := v.ns[i := v.ns[i].(id := |v.infos|)];
    Aspects(v);
    ShapeSame(v.ns, ns, v.paths);
    IdsSet(v.ns, ns, v.paths, v.infos, v.held, i, what);
    TiedSet(v.held, v.contents, key, what);
    View(ns, v.paths, v.infos + [what], v.held[Nibbles(key) := what], v.contents[key := what])
  }

  /** A lookup reads outside the array exactly when an index on the way does not fit. */
  lemma OutsideIff(v: View, p: Path)
    requires Good(v) && |v.ns| <= NODE_LIMIT && forall k :: 0 <= k < |p| ==> 0 <= p[k] < 16
    ensures Follow(v.ns, 0, p) == Outside <==> !WayFits(v.paths, p)
  {
    Aspects(v);
    RootFits(v.paths);
    assert v.paths[0] + p == p;
    if WayFits(v.paths, p) {
      FollowFinds(v.ns, v.paths, 0, p);
    } else {
      FollowFails(v.ns, v.paths, 0, p);
    }
  }

  lemma AfterAdding(was: View, v: View, p: Path, idx: nat)
    requires Good(was) && Good(v) && |v.ns| <= NODE_LIMIT && forall k :: 0 <= k < |p| ==> 0 <= p[k] < 16
    requires Entered(was.paths, v.paths, p) && WayFits(was.paths, p)
    requires idx < |v.paths| && v.paths[idx] == p && (idx < EDGE_LIMIT || idx == |v.paths| - 1)
    ensures Follow(v.ns, 0, p) != Outside <==> Needed(was.paths, p) == 0 || |v.paths| <= EDGE_LIMIT
    ensures forall t: Name {:trigger t in was.contents} ::
      t in was.contents && WayFits(was.paths, Nibbles(t)) ==> WayFits(v.paths, Nibbles(t))
  {
    Aspects(was);
    Aspects(v);
    WayEntered(was.paths, v.paths, p, idx);
    OutsideIff(v, p);
    forall t: Name | t in was.contents && WayFits(was.paths, Nibbles(t)) ensures WayFits(v.paths, Nibbles(t)) {
      WayKept(was.paths, v.paths, Nibbles(t));
    }
  }

  /** The node a lookup returns. */
  ghost function NodeFor(v: View, s: Name): Option<nat>
    requires Good(v)
  {
    match Follow(v.ns, 0, Nibbles(s))
    case At(i) => if s != [] && v.ns[i].id != NO_ID then Some(i) else None
    case _ => None
  }

  /** While the indices on its way fit, looking up a name answers by the names added. */
  lemma FollowAnswers(v: View, s: Name)
    requires Good(v) && |v.ns| <= NODE_LIMIT && WayFits(v.paths, Nibbles(s))
    ensures Follow(v.ns, 0, Nibbles(s)) != Outside
    ensures var node := NodeFor(v, s);
            match node
            case Some(i) =>
              0 <= i < |v.ns| && 0 <= v.ns[i].id < |v.infos| && Answer(v.contents, s) == Some(v.infos[v.ns[i].id])
            case None => Answer(v.contents, s) == None
  {
    hide Follow, Nibbles, WayFits;
    Aspects(v);
    assert v.paths[0] + Nibbles(s) == Nibbles(s);
    FollowFinds(v.ns, v.paths, 0, Nibbles(s));
  }

  lemma ShorterPrefix(p: Path, c: int, q: Path)
    requires p + [c] <= q
    ensures p <= q
  {
    assert p == q[..|p|];
  }

  /** Both ways that character `i` adds fit. */
  lemma NibblesFit(paths: seq<Path>, s: Name, i: nat)
    requires i < |s| && WayFits(paths, Nibbles(s))
    ensures Locate(paths, Nibbles(s[..i]) + [High(s[i])]) < EDGE_LIMIT
    ensures Locate(paths, Nibbles(s[..i]) + [High(s[i])] + [Low(s[i])]) < EDGE_LIMIT
  {
    hide Nibbles, High, Low, WayFits, Locate;
    NibblesSnoc(s, i);
    NibblesPrefix(s, i + 1);
    ShorterPrefix(Nibbles(s[..i]) + [High(s[i])], Low(s[i]), Nibbles(s));
    WayFitsAt(paths, Nibbles(s), Nibbles(s[..i]) + [High(s[i])]);
    WayFitsAt(paths, Nibbles(s), Nibbles(s[..i]) + [High(s[i])] + [Low(s[i])]);
  }

  lemma {:induction false} NibblesPrefix(s: Name, i: nat)
    requires i <= |s|
    ensures Nibbles(s[..i]) <= Nibbles(s)
    decreases |s|
  {
    if i == |s| {
      assert s[..i] == s;
    } else {
      var m := |s| - 1;
      assert s[..m][..i] == s[..i];
      NibblesPrefix(s[..m], i);
    }
  }

  lemma TwoSteps(ns: seq<Node>, i: nat, p: Path)
    requires i < |ns| && (forall j :: 0 <= j < |ns| ==> |ns[j].next| == 16) && |p| >= 2
    requires forall k :: 0 <= k < |p| ==> 0 <= p[k] < 16
    ensures var e := ns[i].next[p[0]];
            Follow(ns, i, p) == if e == 0 then Absent else if !(0 < e < |ns|) then Outside
                                else var f := ns[e].next[p[1]];
                                     if f == 0 then Absent else if !(0 < f < |ns|) then Outside
                                     else Follow(ns, f, p[2..])
  {
    assert p[1..][0] == p[1] && p[1..][1..] == p[2..];
  }

  class Trie {
    var infoCount: nat
    var infoUsed: nat
    var info: array<InfoRef>
    var nodeCount: nat
    var nodeUsed: nat
    var nodes: array<Node>
    ghost var view: GoodView

    /** The arrays hold these nodes and infos; nodes not in use have no edges. */
    ghost predicate Holds(ns: seq<Node>, infos: seq<InfoRef>)
      reads this, nodes, info
    {
      && 0 < infoCount == info.Length && infoUsed == |infos| <= infoCount && info[..infoUsed] == infos
      && 0 < nodeCount == nodes.Length && nodeUsed == |ns| <= nodeCount && nodes[..nodeUsed] == ns
      && forall i :: nodeUsed <= i < nodeCount ==> nodes[i].next == NO_EDGES
    }

    ghost predicate Valid()
      reads this, nodes, info
    {
      Holds(view.ns, view.infos)
    }

    /** All indices fit the edges. */
    ghost predicate Fits()
      reads this
    {
      |view.ns| <= EDGE_LIMIT
    }

    constructor (nodeCount: nat, infoCount: nat)
      ensures Valid() && Fits() && view.contents == map[] && |view.ns| == 1 && fresh(nodes) && fresh(info)
    {
      var n := if nodeCount != 0 then nodeCount else 900;
      var m := if infoCount != 0 then infoCount else 80;
      this.nodeCount, this.infoCount := n, m;
      nodes := new Node[n](_ => Node(NO_EDGES, 0, 0));
      info := new InfoRef[m](_ => 0);
      infoUsed, nodeUsed := 0, 1;
      view := Bare();
      new;
      nodes[0] := nodes[0].(idx := 0, id := NO_ID);
    }

    method GetNode() returns (idx: nat)
      requires Valid()
      modifies this`nodeCount, this`nodes, this`nodeUsed, nodes
      ensures Holds(view.ns + [Node(NO_EDGES, idx, NO_ID)], view.infos) && idx == |view.ns|
      ensures nodes == old(nodes) || fresh(nodes)
    {
      if nodeUsed >= nodeCount {
        var bigger := new Node[nodeCount * 2](_ => Node(NO_EDGES, 0, 0));
        forall i | 0 <= i < nodeCount {
          bigger[i] := nodes[i];
        }
        nodes := bigger;
        nodeCount := nodeCount * 2;
      }
      idx := nodeUsed;
      nodeUsed := nodeUsed + 1;
      nodes[idx] := nodes[idx].(idx := idx, id := NO_ID);
    }

    method MakeChild(idx: nat, c: int) returns (next: nat)
      requires Valid() && idx < nodeUsed && 0 <= c < 16 && view.paths[idx] + [c] !in view.paths
      modifies this`nodeCount, this`nodes, this`nodeUsed, this`view, nodes
      ensures Valid() && (nodes == old(nodes) || fresh(nodes))
      ensures next == |old(view).ns| && view == WithChild(old(view), idx, c)
    {
      hide Short;
      next := GetNode();
      nodes[idx] := nodes[idx].(next := nodes[idx].next[c := Short(next)]);
      view := WithChild(view, idx, c);
    }

    /** Where a way is being entered: `was` are the ways from before. */
    ghost predicate Entering(was: View, idx: int, p: Path)
      reads this`view
    {
      && 0 <= idx < |view.ns| && view.paths[idx] == p && (idx < EDGE_LIMIT || idx == |view.ns| - 1)
      && Entered(was.paths, view.paths, p) && view.contents == was.contents && view.infos == was.infos
    }

    /** The child of node `idx` for nibble `c`, made if there is none; a node past the limit was made last. */
    method Child(idx: nat, c: int, ghost was: View, ghost p: Path) returns (next: int)
      requires Valid() && Good(was) && Entering(was, idx, p) && nodeUsed < NODE_LIMIT && 0 <= c < 16
      requires Locate(was.paths, p + [c]) < EDGE_LIMIT
      modifies this`nodeCount, this`nodes, this`nodeUsed, this`view, nodes
      ensures Valid() && Entering(was, next, p + [c])
      ensures nodeUsed <= old(nodeUsed) + 1 && (nodes == old(nodes) || fresh(nodes))
    {
      ghost var paths := view.paths;
      Aspects(view);
      EnteredMore(was.paths, paths, if p + [c] in paths then paths else paths + [p + [c]], p, c);
      ZeroEdge(view.ns, paths, idx, c);
      EdgeIs(view.ns, paths, idx, c);
      if idx == |view.ns| - 1 {
        LastIsLeaf(paths, idx, c);
      } else if view.ns[idx].next[c] != 0 {
        LocateKept(was.paths, paths, p + [c]);
        EdgesGoUp(view.ns, paths, idx, c);
      }
      assert nodes[idx] == view.ns[idx];
      next := nodes[idx].next[c];
      if next == 0 {
        next := MakeChild(idx, c);
      }
    }

    /** Entering all of `key`, each character by both its nibbles. */
    method EnterAll(key: Name) returns (idx: int)
      requires Valid() && WayFits(view.paths, Nibbles(key)) && |view.ns| + 2 * |key| <= NODE_LIMIT
      modifies this`nodeCount, this`nodes, this`nodeUsed, this`view, nodes
      ensures Valid() && Entering(old(view), idx, Nibbles(key)) && nodeUsed <= NODE_LIMIT
      ensures nodes == old(nodes) || fresh(nodes)
    {
      ghost var was := view;
      idx := 0;
      for i := 0 to |key|
        invariant Valid() && Entering(was, idx, Nibbles(key[..i])) && nodeUsed <= |was.ns| + 2 * i
        invariant nodes == old(nodes) || fresh(nodes)
      {
        NibblesSnoc(key, i);
        NibblesFit(was.paths, key, i);
        ghost var p := Nibbles(key[..i]);
        idx := Child(idx, High(key[i]), was, p);
        idx := Child(idx, Low(key[i]), was, p + [High(key[i])]);
      }
      assert key[..|key|] == key;
    }

    method GrowInfo()
      requires Valid()
      modifies this`info, this`infoCount
      ensures Valid() && infoUsed < infoCount && (info == old(info) || fresh(info))
    {
      if infoUsed >= infoCount {
        var bigger := new InfoRef[infoCount * 2](_ => 0);
        forall i | 0 <= i < infoCount {
          bigger[i] := info[i];
        }
        info := bigger;
        infoCount := infoCount * 2;
      }
    }

    method StoreId(idx: nat, what: InfoRef)
      requires Valid() && infoUsed < infoCount && idx < nodeUsed
      modifies this`infoUsed, nodes, info
      ensures Holds(view.ns[idx := view.ns[idx].(id := |view.infos|)], view.infos + [what])
    {
      var actId := infoUsed;
      infoUsed := infoUsed + 1;
      nodes[idx] := nodes[idx].(id := actId);
      info[actId] := what;
    }

    /** Giving name `key`, which ends at node `idx`, a new identifier. */
    method Mark(idx: nat, key: Name, what: InfoRef)
      requires Valid() && infoUsed < infoCount && idx < nodeUsed && view.paths[idx] == Nibbles(key)
      modifies this`infoUsed, this`view, nodes, info
      ensures Valid() && view == WithInfo(old(view), idx, key, what)
    {
      StoreId(idx, what);
      view := WithInfo(view, idx, key, what);
    }

    /** Adding name `s` with `what`. The name is then found again exactly if it needed no node or the new nodes fit
        the edges; names found before still are. */
    method AddInfo(s: Name, what: InfoRef)
      requires Valid() && WayFits(view.paths, Nibbles(Key(s))) && |view.ns| + 2 * NAME_LIMIT <= NODE_LIMIT
      modifies this, nodes, info
      ensures Valid() && view.contents == old(view).contents[Key(s) := what]
      ensures Entered(old(view).paths, view.paths, Nibbles(Key(s))) && |view.ns| == |view.paths| <= NODE_LIMIT
      ensures (nodes == old(nodes) || fresh(nodes)) && (info == old(info) || fresh(info))
      ensures var needed := Needed(old(view).paths, Nibbles(Key(s)));
              Follow(view.ns, 0, Nibbles(Key(s))) != Outside
              <==> needed == 0 || |old(view).paths| + needed <= EDGE_LIMIT
      ensures forall t: Name {:trigger t in old(view).contents} ::
        t in old(view).contents && WayFits(old(view).paths, Nibbles(t)) ==> WayFits(view.paths, Nibbles(t))
    {
      hide Follow, Needed, WayFits, Nibbles;
      GrowInfo();
      var len := if |s| <= NAME_LIMIT then |s| else NAME_LIMIT;
      var key := s[..len];
      assert key == Key(s);
      ghost var was := view;
      var idx := EnterAll(key);
      Mark(idx, key, what);
      AfterAdding(was, view, Nibbles(key), idx);
    }

    /** The node name `s` leads to; `Outside` would be a read outside the array. */
    method FindNode(s: Name) returns (r: Option<nat>)
      requires Valid() && Follow(view.ns, 0, Nibbles(s)) != Outside
      ensures r == NodeFor(view, s)
    {
      var node, idx := 0, 0;
      var i := 0;
      ghost var p := Nibbles(s);
      while i < |s|
        invariant 0 <= i <= |s| && 0 <= node < nodeUsed && (i > 0 ==> idx == node > 0) && (i == 0 ==> idx == node == 0)
        invariant Follow(view.ns, 0, p) == Follow(view.ns, node, p[2 * i..])
      {
        NibblesAt(s, i);
        TwoSteps(view.ns, node, p[2 * i..]);
        assert p[2 * i..][2..] == p[2 * (i + 1)..];
        idx := nodes[node].next[High(s[i])];
        if idx == 0 {
          break;
        }
        node := idx;
        idx := nodes[node].next[Low(s[i])];
        if idx == 0 {
          break;
        }
        node := idx;
        i := i + 1;
      }
      r := if idx == 0 || nodes[node].id == NO_ID then None else Some(node);
    }

    /** What name `s` was given last, if all indices on its way fit the edges. */
    method GetInfo(s: Name) returns (r: Option<InfoRef>)
      requires Valid() && |view.ns| <= NODE_LIMIT && WayFits(view.paths, Nibbles(s))
      ensures r == Answer(view.contents, s)
    {
      FollowAnswers(view, s);
      var node := FindNode(s);
      r := if node.Some? && nodes[node.value].id >= 0 then Some(info[nodes[node.value].id]) else None;
    }
  }

  // ----- sixteen long names are enough to outgrow the edges

  function LongName(k: int): (s: Name)
    requires 0 <= k < 16
    ensures |s| == NAME_LIMIT && forall i :: 0 <= i < |s| ==> s[i] == 16 * k + 1
  {
    seq(NAME_LIMIT, _ => 16 * k + 1)
  }

  /** A way whose parts are all missing takes a node for each. */
  lemma {:induction false} NeedsAll(paths: seq<Path>, p: Path)
    requires forall n :: 0 < n <= |p| ==> p[..n] !in paths
    ensures Needed(paths, p) == |p|
  {
    if p != [] {
      var q := p[..|p| - 1];
      assert p[..|p|] == p;
      forall n | 0 < n <= |q| ensures q[..n] !in paths {
        assert q[..n] == p[..n];
      }
      NeedsAll(paths, q);
    }
  }

  /** All ways but the empty one begin with a nibble below `k`. */
  ghost predicate BeginBelow(paths: seq<Path>, k: int) {
    forall j :: 0 <= j < |paths| && paths[j] != [] ==> paths[j][0] < k
  }

  lemma NeedsAllNew(paths: seq<Path>, k: int)
    requires 0 <= k < 16 && BeginBelow(paths, k)
    ensures Needed(paths, Nibbles(LongName(k))) == 2 * NAME_LIMIT
  {
    var p := Nibbles(LongName(k));
    NibblesAt(LongName(k), 0);
    forall n | 0 < n <= |p| ensures p[..n] !in paths {
      assert p[..n][0] == p[0] == k;
    }
    NeedsAll(paths, p);
  }

  lemma FitsAllNew(v: View, k: int)
    requires 0 <= k < 16 && Good(v) && BeginBelow(v.paths, k)
    ensures WayFits(v.paths, Nibbles(LongName(k)))
  {
    var p := Nibbles(LongName(k));
    NibblesAt(LongName(k), 0);
    Aspects(v);
    RootFits(v.paths);
    assert [] + p == p;
    assert [] + [p[0]] == [p[0]];
    assert forall j :: 0 <= j < |v.paths| ==> v.paths[j] != [p[0]];
    WayEnds(v.paths, [], p);
  }

  lemma BeginMore(was: seq<Path>, paths: seq<Path>, k: int)
    requires 0 <= k < 16 && BeginBelow(was, k) && Entered(was, paths, Nibbles(LongName(k)))
    ensures BeginBelow(paths, k + 1)
  {
    NibblesAt(LongName(k), 0);
    forall j | 0 <= j < |paths| && paths[j] != [] ensures paths[j][0] < k + 1 {
      if j < |was| {
        assert paths[j] == was[j];
      }
    }
  }

  method AddLong(trie: Trie, k: nat)
    requires k < 16 && trie.Valid() && |trie.view.paths| == 1 + 2 * NAME_LIMIT * k && BeginBelow(trie.view.paths, k)
    modifies trie, trie.nodes, trie.info
    ensures trie.Valid() && (trie.nodes == old(trie.nodes) || fresh(trie.nodes))
    ensures trie.info == old(trie.info) || fresh(trie.info)
    ensures |trie.view.paths| == 1 + 2 * NAME_LIMIT * (k + 1) && BeginBelow(trie.view.paths, k + 1)
    ensures LongName(k) in trie.view.contents
    ensures Follow(trie.view.ns, 0, Nibbles(LongName(k))) == Outside <==> k == 15
  {
    hide Follow, BeginBelow, Needed, WayFits, Nibbles, LongName;
    ghost var was := trie.view.paths;
    KeyOfLong(k);
    NeedsAllNew(was, k);
    FitsAllNew(trie.view, k);
    trie.AddInfo(LongName(k), k);
    BeginMore(was, trie.view.paths, k);
  }

  lemma KeyOfLong(k: int)
    requires 0 <= k < 16
    ensures Key(LongName(k)) == LongName(k)
  {
  }

  /** After sixteen names of 1024 characters, the last one can no longer be looked up. */
  method Outgrow() returns (trie: Trie)
    ensures fresh(trie) && trie.Valid() && !trie.Fits()
    ensures LongName(15) in trie.view.contents && Follow(trie.view.ns, 0, Nibbles(LongName(15))) == Outside
  {
    trie := new Trie(0, 0);
    for k := 0 to 15
      invariant trie.Valid() && fresh(trie) && fresh(trie.nodes) && fresh(trie.info)
      invariant |trie.view.paths| == 1 + 2 * NAME_LIMIT * k && BeginBelow(trie.view.paths, k)
    {
      AddLong(trie, k);
    }
    AddLong(trie, 15);
  }
}
