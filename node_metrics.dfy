/**
 * Node bucketing of antenna-pair correlations (hera_qm/node_metrics.py).
 *
 * Antennas are numbered; every antenna hangs off one node, given by the
 * read-only hookup lookup `nodeOf`. Per polarization, a correlation matrix
 * holds one value per ordered pair of antenna indices. Every ordered pair of
 * distinct antennas files its value under the nodes of its two antennas:
 * twice into the `intra` bucket when they share a node, once into each
 * node's `inter` bucket otherwise. Each bucket is then reduced by a median.
 */
module NodeMetrics {
  import opened Wrappers

  type Node = string
  type Pol = string
  /** A matrix as a sequence of rows. */
  type Matrix = seq<seq<real>>

  /** The 'inter' and 'intra' keys of the per-node dictionaries. */
  datatype Kind = Inter | Intra

  /** The key path nodeCorrs[node][kind][pol] of the source's nested dictionaries, as one key. */
  datatype Slot = Slot(node: Node, kind: Kind, pol: Pol)

  /** nodeCorrs: slot -> list of correlation values. */
  type Buckets = map<Slot, seq<real>>
  /** nodeMeans: slot -> median of that slot's list. */
  type Means = map<Slot, real>

  predicate NoDups<T(==)>(s: seq<T>) {
    forall i, j :: 0 <= i < j < |s| ==> s[i] != s[j]
  }

  /** The node of every antenna, in the order of `antnums`. */
  function NodesOf(antnums: seq<int>, nodeOf: int -> Node): (ns: seq<Node>)
    ensures |ns| == |antnums|
    ensures forall i :: 0 <= i < |antnums| ==> ns[i] == nodeOf(antnums[i])
  {
    seq(|antnums|, i requires 0 <= i < |antnums| => nodeOf(antnums[i]))
  }

  /** The position of the first occurrence of `x` in `s`. */
  function FirstIndex<T(==)>(s: seq<T>, x: T): (k: nat)
    requires x in s
    ensures k < |s| && s[k] == x && x !in s[..k]
  {
    if s[0] == x then 0
    else
      var k := 1 + FirstIndex(s[1..], x);
      assert s[..k] == [s[0]] + s[1..][..k - 1];
      k
  }

  // ---------------------------------------------------------------------
  // get_nodes
  // ---------------------------------------------------------------------

  /**
   * The nodes hosting the given antennas, each once, in the order in which
   * the scan over `antnums` first meets them.
   */
  method GetNodes(antnums: seq<int>, nodeOf: int -> Node) returns (nodes: seq<Node>)
    ensures NoDups(nodes)
    ensures forall n :: n in nodes <==> n in NodesOf(antnums, nodeOf)
    ensures |nodes| <= |antnums|
    ensures forall i, j :: 0 <= i < j < |nodes| ==>
      FirstIndex(NodesOf(antnums, nodeOf), nodes[i]) < FirstIndex(NodesOf(antnums, nodeOf), nodes[j])
  {
    ghost var ns := NodesOf(antnums, nodeOf);
    nodes := [];
    for k := 0 to |antnums|
      invariant forall n :: n in nodes <==> n in ns[..k]
      invariant forall n :: n in nodes ==> n in ns
      invariant NoDups(nodes)
      invariant |nodes| <= k
      invariant forall i :: 0 <= i < |nodes| ==> FirstIndex(ns, nodes[i]) < k
      invariant forall i, j :: 0 <= i < j < |nodes| ==> FirstIndex(ns, nodes[i]) < FirstIndex(ns, nodes[j])
    {
      var n := nodeOf(antnums[k]);
      assert ns[..k + 1] == ns[..k] + [n];
      if n in nodes {
        continue;
      }
      assert FirstIndex(ns, n) == k;
      nodes := nodes + [n];
    }
    assert ns[..|antnums|] == ns;
  }

  // ---------------------------------------------------------------------
  // The bucket dictionaries
  // ---------------------------------------------------------------------

  /** One entry per node, 'inter'/'intra' kind and pol: the slot nodeCorrs[node][kind][pol]. */
  ghost predicate Shaped<V>(c: map<Slot, V>, nodes: seq<Node>, pols: seq<Pol>) {
    forall s :: s in c <==> s.node in nodes && s.pol in pols
  }

  /** The list in slot s, or the empty list where there is none. */
  function Bucket(c: Buckets, s: Slot): seq<real> {
    if s in c then c[s] else []
  }

  lemma SlotCases(s: Slot)
    ensures s == Slot(s.node, Inter, s.pol) || s == Slot(s.node, Intra, s.pol)
  {
    match s.kind
    case Inter =>
    case Intra =>
  }

  /** Every list is empty. */
  predicate AllEmpty(c: Buckets) {
    forall s :: s in c ==> c[s] == []
  }

  /**
   * What one visit of an ordered pair with nodes n1, n2 and value v adds to
   * the bucket of node n and kind k: two copies to the shared node's
   * 'intra' list, or one copy to the 'inter' list of each of the two nodes.
   */
  function Contribution(n1: Node, n2: Node, v: real, n: Node, k: Kind): seq<real> {
    if n1 == n2 then (if k == Intra && n == n1 then [v, v] else [])
    else if k == Inter && (n == n1 || n == n2) then [v] else []
  }

  /** Both lists of node n exist for pol p. */
  predicate Ready(c: Buckets, n: Node, p: Pol) {
    Slot(n, Inter, p) in c && Slot(n, Intra, p) in c
  }

  /** The two appends the pair loop makes for one pol (lines 103-108). */
  function FilePair(c: Buckets, n1: Node, n2: Node, p: Pol, v: real): (r: Buckets)
    ensures Ready(c, n1, p) && Ready(c, n2, p) ==> r.Keys == c.Keys
  {
    if n1 == n2 then c[Slot(n1, Intra, p) := Bucket(c, Slot(n1, Intra, p)) + [v] + [v]]
    else c[Slot(n1, Inter, p) := Bucket(c, Slot(n1, Inter, p)) + [v]][Slot(n2, Inter, p) := Bucket(c, Slot(n2, Inter, p)) + [v]]
  }

  /** What the two appends add to any one slot. */
  lemma FilePairBucket(c: Buckets, n1: Node, n2: Node, p: Pol, v: real, s: Slot)
    ensures Bucket(FilePair(c, n1, n2, p, v), s) == Bucket(c, s) + (if s.pol == p then Contribution(n1, n2, v, s.node, s.kind) else [])
  {
    SlotCases(s);
  }

  /**
   * A pair on one node appends its value twice to that node's 'intra' list
   * and leaves every 'inter' list alone; a pair across two nodes appends it
   * once to each node's 'inter' list and leaves every 'intra' list alone.
   */
  lemma FilePairCases(c: Buckets, n1: Node, n2: Node, p: Pol, v: real)
    ensures n1 == n2 ==> Bucket(FilePair(c, n1, n2, p, v), Slot(n1, Intra, p)) == Bucket(c, Slot(n1, Intra, p)) + [v, v]
    ensures n1 == n2 ==> forall s: Slot {:trigger Bucket(c, s)} :: s.kind == Inter ==> Bucket(FilePair(c, n1, n2, p, v), s) == Bucket(c, s)
    ensures n1 != n2 ==> Bucket(FilePair(c, n1, n2, p, v), Slot(n1, Inter, p)) == Bucket(c, Slot(n1, Inter, p)) + [v]
    ensures n1 != n2 ==> Bucket(FilePair(c, n1, n2, p, v), Slot(n2, Inter, p)) == Bucket(c, Slot(n2, Inter, p)) + [v]
    ensures n1 != n2 ==> forall s: Slot {:trigger Bucket(c, s)} :: s.kind == Intra ==> Bucket(FilePair(c, n1, n2, p, v), s) == Bucket(c, s)
  {
    FilePairBucket(c, n1, n2, p, v, Slot(n1, Intra, p));
    FilePairBucket(c, n1, n2, p, v, Slot(n1, Inter, p));
    FilePairBucket(c, n1, n2, p, v, Slot(n2, Inter, p));
    forall s: Slot {
      FilePairBucket(c, n1, n2, p, v, s);
    }
  }

  // ---------------------------------------------------------------------
  // Counting
  // ---------------------------------------------------------------------

  /** The number of values held for pol p over the given nodes, both kinds. */
  function Total(c: Buckets, nodes: seq<Node>, p: Pol): nat {
    if nodes == [] then 0
    else
      var n := nodes[|nodes| - 1];
      Total(c, nodes[..|nodes| - 1], p) + |Bucket(c, Slot(n, Inter, p))| + |Bucket(c, Slot(n, Intra, p))|
  }

  lemma {:induction false} TotalAfterFilePair(c: Buckets, nodes: seq<Node>, n1: Node, n2: Node, p0: Pol, v: real, p: Pol)
    ensures Total(FilePair(c, n1, n2, p0, v), nodes, p) ==
      Total(c, nodes, p) + (if p == p0 then multiset(nodes)[n1] + multiset(nodes)[n2] else 0)
  {
    if nodes != [] {
      var init, n := nodes[..|nodes| - 1], nodes[|nodes| - 1];
      assert nodes == init + [n];
      assert multiset(nodes) == multiset(init) + multiset{n};
      TotalAfterFilePair(c, init, n1, n2, p0, v, p);
      var r := FilePair(c, n1, n2, p0, v);
      FilePairBucket(c, n1, n2, p0, v, Slot(n, Inter, p));
      FilePairBucket(c, n1, n2, p0, v, Slot(n, Intra, p));
      assert |Bucket(r, Slot(n, Inter, p))| + |Bucket(r, Slot(n, Intra, p))| ==
        |Bucket(c, Slot(n, Inter, p))| + |Bucket(c, Slot(n, Intra, p))|
        + (if p == p0 then (if n == n1 then 1 else 0) + (if n == n2 then 1 else 0) else 0);
    }
  }

  lemma {:induction false} TotalOfEmpty(c: Buckets, nodes: seq<Node>, p: Pol)
    requires AllEmpty(c)
    ensures Total(c, nodes, p) == 0
  {
    if nodes != [] {
      TotalOfEmpty(c, nodes[..|nodes| - 1], p);
    }
  }

  lemma {:induction false} CountOnce<T>(s: seq<T>, x: T)
    requires NoDups(s) && x in s
    ensures multiset(s)[x] == 1
  {
    assert s == [s[0]] + s[1..];
    if s[0] == x {
      assert x !in s[1..];
    } else {
      CountOnce(s[1..], x);
    }
  }

  /** The pair (i, j) joins two different antenna numbers: the only pairs the pair loop files (line 96). */
  predicate DistinctAt(antnums: seq<int>, i: nat, j: nat) {
    i < |antnums| && j < |antnums| && antnums[i] != antnums[j]
  }

  /** How many j' < j make (i, j') a pair of different antenna numbers. */
  function RowPairs(antnums: seq<int>, i: nat, j: nat): nat {
    if j == 0 then 0
    else RowPairs(antnums, i, j - 1) + (if DistinctAt(antnums, i, j - 1) then 1 else 0)
  }

  /** How many ordered index pairs in the rows before i join two different antenna numbers. */
  function PairsBefore(antnums: seq<int>, i: nat): nat {
    if i == 0 then 0 else PairsBefore(antnums, i - 1) + RowPairs(antnums, i - 1, |antnums|)
  }

  /** The ordered pairs the pair loop files: those with two different antenna numbers. */
  function DistinctPairs(antnums: seq<int>): nat {
    PairsBefore(antnums, |antnums|)
  }

  lemma {:induction false} RowPairsNoDups(antnums: seq<int>, i: nat, j: nat)
    requires NoDups(antnums) && i < |antnums| && j <= |antnums|
    ensures RowPairs(antnums, i, j) == j - (if i < j then 1 else 0)
  {
    if j > 0 {
      RowPairsNoDups(antnums, i, j - 1);
    }
  }

  lemma {:induction false} PairsBeforeNoDups(antnums: seq<int>, i: nat)
    requires NoDups(antnums) && i <= |antnums|
    ensures PairsBefore(antnums, i) == i * (|antnums| - 1)
  {
    if i > 0 {
      PairsBeforeNoDups(antnums, i - 1);
      RowPairsNoDups(antnums, i - 1, |antnums|);
    }
  }

  /** With n distinct antenna numbers, the pair loop files n(n-1) pairs. */
  lemma DistinctPairsCount(antnums: seq<int>)
    requires NoDups(antnums)
    ensures DistinctPairs(antnums) == |antnums| * (|antnums| - 1)
  {
    PairsBeforeNoDups(antnums, |antnums|);
  }

  // ---------------------------------------------------------------------
  // What the buckets hold once every pair has been visited
  // ---------------------------------------------------------------------

  /** A matrix with at least n rows of at least n entries. */
  predicate Covers(m: Matrix, n: nat) {
    |m| >= n && forall i :: 0 <= i < n ==> |m[i]| >= n
  }

  /** An n-by-n matrix. */
  predicate IsSquare(m: Matrix, n: nat) {
    |m| == n && forall i :: 0 <= i < n ==> |m[i]| == n
  }

  function Repeat(s: seq<real>, m: nat): seq<real> {
    if m == 0 then [] else Repeat(s, m - 1) + s
  }

  /** k added up n times: the count after n visits that add k each. */
  function Times(n: nat, k: nat): nat {
    if n == 0 then 0 else Times(n - 1, k) + k
  }

  lemma {:induction false} TimesAdd(a: nat, b: nat, k: nat)
    ensures Times(a + b, k) == Times(a, k) + Times(b, k)
  {
    if b > 0 {
      TimesAdd(a, b - 1, k);
    }
  }

  lemma {:induction false} TimesIsProduct(n: nat, k: nat)
    ensures Times(n, k) == n * k
  {
    if n > 0 {
      TimesIsProduct(n - 1, k);
    }
  }

  lemma ConcatAssoc(a: seq<real>, b: seq<real>, c: seq<real>)
    ensures (a + b) + c == a + (b + c)
  {
  }

  lemma {:induction false} RepeatMembers(s: seq<real>, m: nat, v: real)
    requires v in Repeat(s, m)
    ensures v in s
  {
    if m > 0 && v !in s {
      RepeatMembers(s, m - 1, v);
    }
  }

  /** How many times p occurs in pols: the number of visits the pol loop makes to p. */
  function Occ(pols: seq<Pol>, p: Pol): nat {
    if pols == [] then 0
    else Occ(pols[..|pols| - 1], p) + (if pols[|pols| - 1] == p then 1 else 0)
  }

  lemma {:induction false} OccPositive(pols: seq<Pol>, p: Pol)
    requires p in pols
    ensures Occ(pols, p) > 0
  {
    var init := pols[..|pols| - 1];
    if pols[|pols| - 1] != p {
      assert pols == init + [pols[|pols| - 1]];
      OccPositive(init, p);
    }
  }

  lemma {:induction false} OccAbsent(pols: seq<Pol>, p: Pol)
    requires p !in pols
    ensures Occ(pols, p) == 0
  {
    if pols != [] {
      var init := pols[..|pols| - 1];
      assert forall x :: x in init ==> x in pols;
      OccAbsent(init, p);
    }
  }

  /** corr_matrix[p][i, j], or 0.0 where corr_matrix has no such cell. */
  function Cell(corr: map<Pol, Matrix>, p: Pol, i: nat, j: nat): real {
    if p in corr && i < |corr[p]| && j < |corr[p][i]| then corr[p][i][j] else 0.0
  }

  /** What one visit of the pair (i, j) with nodes n1, n2 adds to slot b. */
  function Share(n1: Node, n2: Node, i: nat, j: nat, corr: map<Pol, Matrix>, b: Slot): seq<real> {
    Contribution(n1, n2, Cell(corr, b.pol, i, j), b.node, b.kind)
  }

  /** The read-only inputs of the pair loop. */
  datatype Survey = Survey(antnums: seq<int>, nodeOf: int -> Node, corr: map<Pol, Matrix>, pols: seq<Pol>)
  {
    /** corr_matrix holds an nants-by-nants matrix for every requested pol. */
    predicate Valid() {
      forall p :: p in pols ==> p in corr && Covers(corr[p], |antnums|)
    }

    /** What visiting pair (i, j) adds, over all entries of pols, to slot b; nothing for a self-pair. */
    function PairShare(i: nat, j: nat, b: Slot): seq<real> {
      if DistinctAt(antnums, i, j) then Repeat(Share(nodeOf(antnums[i]), nodeOf(antnums[j]), i, j, corr, b), Occ(pols, b.pol))
      else []
    }

    /** What the pairs (i, 0) .. (i, j - 1) add to slot b. */
    function RowShare(i: nat, j: nat, b: Slot): seq<real> {
      if j == 0 then [] else RowShare(i, j - 1, b) + PairShare(i, j - 1, b)
    }

    /** What the rows 0 .. i - 1 add to slot b. */
    function RowsShare(i: nat, b: Slot): seq<real> {
      if i == 0 then [] else RowsShare(i - 1, b) + RowShare(i - 1, |antnums|, b)
    }

    /** The list in slot b once every ordered pair has been visited. */
    function Expected(b: Slot): seq<real> {
      RowsShare(|antnums|, b)
    }

    /** v is the correlation of the pair (i, j) of distinct antennas, and that pair belongs in slot b. */
    predicate Classified(i: int, j: int, b: Slot, v: real) {
      && 0 <= i < |antnums| && 0 <= j < |antnums|
      && antnums[i] != antnums[j]
      && v == Cell(corr, b.pol, i, j)
      && (b.kind == Intra ==> nodeOf(antnums[i]) == b.node && nodeOf(antnums[j]) == b.node)
      && (b.kind == Inter ==>
            nodeOf(antnums[i]) != nodeOf(antnums[j]) && (nodeOf(antnums[i]) == b.node || nodeOf(antnums[j]) == b.node))
    }
  }

  // Each inductive lemma below closes both of its cases with a one-step
  // lemma, which keeps each proof obligation small.

  lemma RowShareUnfold(s: Survey, i: nat, j: nat, b: Slot)
    ensures s.RowShare(i, j + 1, b) == s.RowShare(i, j, b) + s.PairShare(i, j, b)
  {
  }

  lemma RowsShareUnfold(s: Survey, i: nat, b: Slot)
    ensures s.RowsShare(i + 1, b) == s.RowsShare(i, b) + s.RowShare(i, |s.antnums|, b)
  {
  }

  lemma InEither(x: seq<real>, y: seq<real>, v: real)
    ensures v in x + y <==> v in x || v in y
  {
  }

  /** A value in the share of the pair (i, j) is that pair's correlation, and the pair belongs in slot b. */
  lemma PairShareMembers(s: Survey, i: nat, j: nat, b: Slot, v: real)
    requires v in s.PairShare(i, j, b)
    ensures s.Classified(i, j, b, v)
  {
    if DistinctAt(s.antnums, i, j) {
      RepeatMembers(Share(s.nodeOf(s.antnums[i]), s.nodeOf(s.antnums[j]), i, j, s.corr, b), Occ(s.pols, b.pol), v);
    }
  }

  lemma {:induction false} RowShareMembers(s: Survey, i: nat, j: nat, b: Slot, v: real)
    requires v in s.RowShare(i, j, b)
    ensures exists j' :: 0 <= j' < j && s.Classified(i, j', b, v)
  {
    if j > 0 {
      var k := j - 1;
      RowShareUnfold(s, i, k, b);
      InEither(s.RowShare(i, k, b), s.PairShare(i, k, b), v);
      if v in s.RowShare(i, k, b) {
        RowShareMembers(s, i, k, b, v);
      } else {
        PairShareMembers(s, i, k, b, v);
      }
    }
  }

  lemma {:induction false} RowsShareMembers(s: Survey, i: nat, b: Slot, v: real)
    requires v in s.RowsShare(i, b)
    ensures exists i' :: 0 <= i' < i && v in s.RowShare(i', |s.antnums|, b)
  {
    if i > 0 {
      var k := i - 1;
      RowsShareUnfold(s, k, b);
      InEither(s.RowsShare(k, b), s.RowShare(k, |s.antnums|, b), v);
      if v in s.RowsShare(k, b) {
        RowsShareMembers(s, k, b, v);
      }
    }
  }

  /**
   * Every value in a bucket comes from an ordered pair of distinct antennas
   * that belongs there: both on the slot's node for 'intra'; on two
   * different nodes, one of them the slot's, for 'inter'.
   */
  lemma ExpectedMembers(s: Survey, b: Slot, v: real)
    requires v in s.Expected(b)
    ensures exists i, j :: s.Classified(i, j, b, v)
  {
    RowsShareMembers(s, |s.antnums|, b, v);
    var i :| 0 <= i < |s.antnums| && v in s.RowShare(i, |s.antnums|, b);
    RowShareMembers(s, i, |s.antnums|, b, v);
  }

  /** For a requested pol, the share of a pair that belongs in slot b holds that pair's correlation. */
  lemma PairShareIncludes(s: Survey, i: nat, j: nat, b: Slot)
    requires b.pol in s.pols
    requires s.Classified(i, j, b, Cell(s.corr, b.pol, i, j))
    ensures Cell(s.corr, b.pol, i, j) in s.PairShare(i, j, b)
  {
    var c := Share(s.nodeOf(s.antnums[i]), s.nodeOf(s.antnums[j]), i, j, s.corr, b);
    OccPositive(s.pols, b.pol);
    assert Repeat(c, Occ(s.pols, b.pol)) == Repeat(c, Occ(s.pols, b.pol) - 1) + c;
  }

  lemma RowShareGrows(s: Survey, i: nat, j: nat, b: Slot, v: real)
    requires v in s.RowShare(i, j, b) || v in s.PairShare(i, j, b)
    ensures v in s.RowShare(i, j + 1, b)
  {
    RowShareUnfold(s, i, j, b);
    InEither(s.RowShare(i, j, b), s.PairShare(i, j, b), v);
  }

  lemma {:induction false} RowShareIncludes(s: Survey, i: nat, j: nat, j': nat, b: Slot, v: real)
    requires j' < j
    requires v in s.PairShare(i, j', b)
    ensures v in s.RowShare(i, j, b)
  {
    var k := j - 1;
    if j' < k {
      RowShareIncludes(s, i, k, j', b, v);
    }
    RowShareGrows(s, i, k, b, v);
  }

  lemma RowsShareGrows(s: Survey, i: nat, b: Slot, v: real)
    requires v in s.RowsShare(i, b) || v in s.RowShare(i, |s.antnums|, b)
    ensures v in s.RowsShare(i + 1, b)
  {
    RowsShareUnfold(s, i, b);
    InEither(s.RowsShare(i, b), s.RowShare(i, |s.antnums|, b), v);
  }

  lemma {:induction false} RowsShareIncludes(s: Survey, i: nat, i': nat, b: Slot, v: real)
    requires i' < i
    requires v in s.RowShare(i', |s.antnums|, b)
    ensures v in s.RowsShare(i, b)
  {
    var k := i - 1;
    if i' < k {
      RowsShareIncludes(s, k, i', b, v);
    }
    RowsShareGrows(s, k, b, v);
  }

  /** Conversely, for a requested pol, the value of every ordered pair of distinct antennas reaches each slot it belongs in. */
  lemma ExpectedIncludes(s: Survey, i: nat, j: nat, b: Slot)
    requires b.pol in s.pols
    requires s.Classified(i, j, b, Cell(s.corr, b.pol, i, j))
    ensures Cell(s.corr, b.pol, i, j) in s.Expected(b)
  {
    PairShareIncludes(s, i, j, b);
    RowShareIncludes(s, i, |s.antnums|, j, b, Cell(s.corr, b.pol, i, j));
    RowsShareIncludes(s, |s.antnums|, i, b, Cell(s.corr, b.pol, i, j));
  }

  /** corr and corr' agree wherever the two antenna numbers differ. */
  ghost predicate AgreeOffSelfPairs(antnums: seq<int>, pols: seq<Pol>, corr: map<Pol, Matrix>, corr': map<Pol, Matrix>) {
    forall p, i, j :: p in pols && 0 <= i < |antnums| && 0 <= j < |antnums| && antnums[i] != antnums[j] ==>
      Cell(corr, p, i, j) == Cell(corr', p, i, j)
  }

  /** t is s with a correlation matrix that agrees with s's off the self-pairs. */
  ghost predicate SameOffSelfPairs(s: Survey, t: Survey) {
    && t.antnums == s.antnums && t.nodeOf == s.nodeOf && t.pols == s.pols
    && AgreeOffSelfPairs(s.antnums, s.pols, s.corr, t.corr)
  }

  lemma PairShareAgree(s: Survey, t: Survey, i: nat, j: nat, b: Slot)
    requires SameOffSelfPairs(s, t)
    ensures s.PairShare(i, j, b) == t.PairShare(i, j, b)
  {
    if b.pol !in s.pols {
      OccAbsent(s.pols, b.pol);
    }
  }

  lemma {:induction false} RowShareAgree(s: Survey, t: Survey, i: nat, j: nat, b: Slot)
    requires SameOffSelfPairs(s, t)
    ensures s.RowShare(i, j, b) == t.RowShare(i, j, b)
  {
    if j > 0 {
      var k := j - 1;
      RowShareAgree(s, t, i, k, b);
      PairShareAgree(s, t, i, k, b);
      RowShareAgreeStep(s, t, i, k, b);
    }
  }

  lemma RowShareAgreeStep(s: Survey, t: Survey, i: nat, j: nat, b: Slot)
    requires s.RowShare(i, j, b) == t.RowShare(i, j, b)
    requires s.PairShare(i, j, b) == t.PairShare(i, j, b)
    ensures s.RowShare(i, j + 1, b) == t.RowShare(i, j + 1, b)
  {
    RowShareUnfold(s, i, j, b);
    RowShareUnfold(t, i, j, b);
  }

  lemma {:induction false} RowsShareAgree(s: Survey, t: Survey, i: nat, b: Slot)
    requires SameOffSelfPairs(s, t)
    ensures s.RowsShare(i, b) == t.RowsShare(i, b)
  {
    if i > 0 {
      var k := i - 1;
      RowsShareAgree(s, t, k, b);
      RowShareAgree(s, t, k, |s.antnums|, b);
      RowsShareAgreeStep(s, t, k, b);
    }
  }

  lemma RowsShareAgreeStep(s: Survey, t: Survey, i: nat, b: Slot)
    requires t.antnums == s.antnums
    requires s.RowsShare(i, b) == t.RowsShare(i, b)
    requires s.RowShare(i, |s.antnums|, b) == t.RowShare(i, |s.antnums|, b)
    ensures s.RowsShare(i + 1, b) == t.RowsShare(i + 1, b)
  {
    RowsShareUnfold(s, i, b);
    RowsShareUnfold(t, i, b);
  }

  /** Self-pairs are never filed: what corr_matrix holds on them cannot change any bucket. */
  lemma SelfPairsIgnored(s: Survey, corr': map<Pol, Matrix>, b: Slot)
    requires AgreeOffSelfPairs(s.antnums, s.pols, s.corr, corr')
    ensures s.Expected(b) == s.(corr := corr').Expected(b)
  {
    RowsShareAgree(s, s.(corr := corr'), |s.antnums|, b);
  }

  // ---------------------------------------------------------------------
  // get_internode_correlations
  // ---------------------------------------------------------------------

  /** The initialisation loop (lines 80-91): an empty list for every node, kind and pol. */
  method InitBuckets(nodes: seq<Node>, pols: seq<Pol>) returns (nodeCorrs: Buckets)
    ensures Shaped(nodeCorrs, nodes, pols)
    ensures AllEmpty(nodeCorrs)
  {
    nodeCorrs := map[];
    for t := 0 to |nodes|
      invariant Shaped(nodeCorrs, nodes[..t], pols)
      invariant AllEmpty(nodeCorrs)
    {
      var node := nodes[t];
      assert nodes[..t + 1] == nodes[..t] + [node];
      for q := 0 to |pols|
        invariant forall s :: s in nodeCorrs <==> (s.node in nodes[..t] && s.pol in pols) || (s.node == node && s.pol in pols[..q])
        invariant AllEmpty(nodeCorrs)
      {
        var pol := pols[q];
        assert pols[..q + 1] == pols[..q] + [pol];
        nodeCorrs := nodeCorrs[Slot(node, Inter, pol) := []];
        nodeCorrs := nodeCorrs[Slot(node, Intra, pol) := []];
        forall s: Slot
          ensures s in nodeCorrs <==> (s.node in nodes[..t] && s.pol in pols) || (s.node == node && s.pol in pols[..q + 1])
        {
          SlotCases(s);
        }
      }
      assert pols[..|pols|] == pols;
    }
    assert nodes[..|nodes|] == nodes;
  }

  // The pair loop, first as functions of its inputs (what the buckets hold
  // after each prefix of the loops), then as the loops themselves.

  /** Both lists of the nodes n1 and n2 exist for every requested pol. */
  predicate PairReady(c: Buckets, n1: Node, n2: Node, pols: seq<Pol>) {
    forall p :: p in pols ==> Ready(c, n1, p) && Ready(c, n2, p)
  }

  /** Both lists of every antenna's node exist for every requested pol. */
  predicate AllReady(c: Buckets, s: Survey) {
    forall k, p :: 0 <= k < |s.antnums| && p in s.pols ==> Ready(c, s.nodeOf(s.antnums[k]), p)
  }

  /** The buckets once the pol loop of the pair (i, j), with nodes n1 and n2, has handled the pols in pols. */
  function PolsF(c: Buckets, n1: Node, n2: Node, i: nat, j: nat, corr: map<Pol, Matrix>, pols: seq<Pol>): Buckets {
    if pols == [] then c
    else
      var p := pols[|pols| - 1];
      FilePair(PolsF(c, n1, n2, i, j, corr, pols[..|pols| - 1]), n1, n2, p, Cell(corr, p, i, j))
  }

  /** The buckets once the pair (i, j) has been visited: a self-pair is skipped (line 96). */
  function VisitF(c: Buckets, s: Survey, i: nat, j: nat): Buckets {
    if DistinctAt(s.antnums, i, j) then PolsF(c, s.nodeOf(s.antnums[i]), s.nodeOf(s.antnums[j]), i, j, s.corr, s.pols)
    else c
  }

  /** The buckets once row i of the pair loop has handled the pairs (i, 0) .. (i, j - 1). */
  function RowF(c: Buckets, s: Survey, i: nat, j: nat): Buckets {
    if j == 0 then c else VisitF(RowF(c, s, i, j - 1), s, i, j - 1)
  }

  /** The buckets once the rows 0 .. i - 1 of the pair loop are done. */
  function RowsF(c: Buckets, s: Survey, i: nat): Buckets {
    if i == 0 then c else RowF(RowsF(c, s, i - 1), s, i - 1, |s.antnums|)
  }

  /** One more visit of a pol adds one more copy of share to a bucket, and a visit of another pol adds nothing. */
  lemma SlotStep(x0: seq<real>, x: seq<real>, x': seq<real>, share: seq<real>, m: nat, hit: bool)
    requires x == x0 + Repeat(share, m)
    requires x' == x + (if hit then share else [])
    ensures x' == x0 + Repeat(share, m + (if hit then 1 else 0))
  {
    if hit {
      assert Repeat(share, m + 1) == Repeat(share, m) + share;
      ConcatAssoc(x0, Repeat(share, m), share);
    } else {
      assert x' == x;
    }
  }

  lemma PolsBucketStep(c: Buckets, n1: Node, n2: Node, i: nat, j: nat, corr: map<Pol, Matrix>, pols: seq<Pol>, b: Slot)
    requires pols != []
    requires Bucket(PolsF(c, n1, n2, i, j, corr, pols[..|pols| - 1]), b) ==
      Bucket(c, b) + Repeat(Share(n1, n2, i, j, corr, b), Occ(pols[..|pols| - 1], b.pol))
    ensures Bucket(PolsF(c, n1, n2, i, j, corr, pols), b) ==
      Bucket(c, b) + Repeat(Share(n1, n2, i, j, corr, b), Occ(pols, b.pol))
  {
    var init, p := pols[..|pols| - 1], pols[|pols| - 1];
    var r := PolsF(c, n1, n2, i, j, corr, init);
    FilePairBucket(r, n1, n2, p, Cell(corr, p, i, j), b);
    SlotStep(Bucket(c, b), Bucket(r, b), Bucket(PolsF(c, n1, n2, i, j, corr, pols), b), Share(n1, n2, i, j, corr, b),
             Occ(init, b.pol), p == b.pol);
  }

  /** After the pol loop has handled pols, slot b holds one share of the pair's value per visit of b's pol. */
  lemma {:induction false} PolsBucket(c: Buckets, n1: Node, n2: Node, i: nat, j: nat, corr: map<Pol, Matrix>, pols: seq<Pol>,
                                      b: Slot)
    ensures Bucket(PolsF(c, n1, n2, i, j, corr, pols), b) ==
      Bucket(c, b) + Repeat(Share(n1, n2, i, j, corr, b), Occ(pols, b.pol))
  {
    if pols == [] {
      assert Bucket(c, b) + [] == Bucket(c, b);
    } else {
      PolsBucket(c, n1, n2, i, j, corr, pols[..|pols| - 1], b);
      PolsBucketStep(c, n1, n2, i, j, corr, pols, b);
    }
  }

  lemma PolsTotalStep(c: Buckets, n1: Node, n2: Node, i: nat, j: nat, corr: map<Pol, Matrix>, pols: seq<Pol>,
                      nodes: seq<Node>, p: Pol)
    requires pols != []
    requires NoDups(nodes) && n1 in nodes && n2 in nodes
    requires Total(PolsF(c, n1, n2, i, j, corr, pols[..|pols| - 1]), nodes, p) ==
      Total(c, nodes, p) + 2 * Occ(pols[..|pols| - 1], p)
    ensures Total(PolsF(c, n1, n2, i, j, corr, pols), nodes, p) == Total(c, nodes, p) + 2 * Occ(pols, p)
  {
    var init, q := pols[..|pols| - 1], pols[|pols| - 1];
    CountOnce(nodes, n1);
    CountOnce(nodes, n2);
    TotalAfterFilePair(PolsF(c, n1, n2, i, j, corr, init), nodes, n1, n2, q, Cell(corr, q, i, j), p);
  }

  /** Each visit of pol p by the pol loop adds two values under p, whatever the nodes. */
  lemma {:induction false} PolsTotal(c: Buckets, n1: Node, n2: Node, i: nat, j: nat, corr: map<Pol, Matrix>, pols: seq<Pol>,
                                     nodes: seq<Node>, p: Pol)
    requires NoDups(nodes) && n1 in nodes && n2 in nodes
    ensures Total(PolsF(c, n1, n2, i, j, corr, pols), nodes, p) == Total(c, nodes, p) + 2 * Occ(pols, p)
  {
    if pols != [] {
      PolsTotal(c, n1, n2, i, j, corr, pols[..|pols| - 1], nodes, p);
      PolsTotalStep(c, n1, n2, i, j, corr, pols, nodes, p);
    }
  }

  /** Visiting the pair (i, j) adds PairShare(i, j, b) to slot b; a self-pair is skipped. */
  lemma PairBucket(r: Buckets, s: Survey, i: nat, j: nat, b: Slot)
    ensures Bucket(VisitF(r, s, i, j), b) == Bucket(r, b) + s.PairShare(i, j, b)
  {
    if DistinctAt(s.antnums, i, j) {
      PolsBucket(r, s.nodeOf(s.antnums[i]), s.nodeOf(s.antnums[j]), i, j, s.corr, s.pols, b);
    } else {
      assert Bucket(r, b) + [] == Bucket(r, b);
    }
  }

  lemma RowBucketStep(c: Buckets, s: Survey, i: nat, j: nat, b: Slot)
    requires Bucket(RowF(c, s, i, j), b) == Bucket(c, b) + s.RowShare(i, j, b)
    ensures Bucket(RowF(c, s, i, j + 1), b) == Bucket(c, b) + s.RowShare(i, j + 1, b)
  {
    PairBucket(RowF(c, s, i, j), s, i, j, b);
    RowShareUnfold(s, i, j, b);
    ConcatAssoc(Bucket(c, b), s.RowShare(i, j, b), s.PairShare(i, j, b));
  }

  /** After row i has handled the pairs (i, 0) .. (i, j - 1), every slot b has gained RowShare(i, j, b). */
  lemma {:induction false} RowBucket(c: Buckets, s: Survey, i: nat, j: nat, b: Slot)
    ensures Bucket(RowF(c, s, i, j), b) == Bucket(c, b) + s.RowShare(i, j, b)
  {
    if j == 0 {
      assert Bucket(c, b) + [] == Bucket(c, b);
    } else {
      var k := j - 1;
      RowBucket(c, s, i, k, b);
      RowBucketStep(c, s, i, k, b);
    }
  }

  lemma RowsBucketStep(c: Buckets, s: Survey, i: nat, b: Slot)
    requires Bucket(RowsF(c, s, i), b) == Bucket(c, b) + s.RowsShare(i, b)
    ensures Bucket(RowsF(c, s, i + 1), b) == Bucket(c, b) + s.RowsShare(i + 1, b)
  {
    RowBucket(RowsF(c, s, i), s, i, |s.antnums|, b);
    RowsShareUnfold(s, i, b);
    ConcatAssoc(Bucket(c, b), s.RowsShare(i, b), s.RowShare(i, |s.antnums|, b));
  }

  /** After the rows 0 .. i - 1, every slot b has gained RowsShare(i, b). */
  lemma {:induction false} RowsBucket(c: Buckets, s: Survey, i: nat, b: Slot)
    ensures Bucket(RowsF(c, s, i), b) == Bucket(c, b) + s.RowsShare(i, b)
  {
    if i == 0 {
      assert Bucket(c, b) + [] == Bucket(c, b);
    } else {
      var k := i - 1;
      RowsBucket(c, s, k, b);
      RowsBucketStep(c, s, k, b);
    }
  }

  /** Every antenna's node is one of nodes, and nodes has no repeats. */
  predicate NodesCover(s: Survey, nodes: seq<Node>) {
    NoDups(nodes) && forall k :: 0 <= k < |s.antnums| ==> s.nodeOf(s.antnums[k]) in nodes
  }

  /** Visiting a pair of different antenna numbers adds two values per visit of pol p; a self-pair adds none. */
  lemma VisitTotal(r: Buckets, s: Survey, i: nat, j: nat, nodes: seq<Node>, p: Pol)
    requires NodesCover(s, nodes)
    ensures Total(VisitF(r, s, i, j), nodes, p) ==
      Total(r, nodes, p) + (if DistinctAt(s.antnums, i, j) then 2 * Occ(s.pols, p) else 0)
  {
    if DistinctAt(s.antnums, i, j) {
      var n1, n2 := s.nodeOf(s.antnums[i]), s.nodeOf(s.antnums[j]);
      assert n1 in nodes && n2 in nodes;
      PolsTotal(r, n1, n2, i, j, s.corr, s.pols, nodes, p);
    }
  }

  lemma RowTotalStep(c: Buckets, s: Survey, i: nat, j: nat, nodes: seq<Node>, p: Pol)
    requires NodesCover(s, nodes)
    requires Total(RowF(c, s, i, j), nodes, p) == Total(c, nodes, p) + Times(RowPairs(s.antnums, i, j), 2 * Occ(s.pols, p))
    ensures Total(RowF(c, s, i, j + 1), nodes, p) == Total(c, nodes, p) + Times(RowPairs(s.antnums, i, j + 1), 2 * Occ(s.pols, p))
  {
    VisitTotal(RowF(c, s, i, j), s, i, j, nodes, p);
  }

  lemma {:induction false} RowTotal(c: Buckets, s: Survey, i: nat, j: nat, nodes: seq<Node>, p: Pol)
    requires NodesCover(s, nodes)
    ensures Total(RowF(c, s, i, j), nodes, p) == Total(c, nodes, p) + Times(RowPairs(s.antnums, i, j), 2 * Occ(s.pols, p))
  {
    if j > 0 {
      var k := j - 1;
      RowTotal(c, s, i, k, nodes, p);
      RowTotalStep(c, s, i, k, nodes, p);
    }
  }

  lemma RowsTotalStep(c: Buckets, s: Survey, i: nat, nodes: seq<Node>, p: Pol)
    requires NodesCover(s, nodes)
    requires Total(RowsF(c, s, i), nodes, p) == Total(c, nodes, p) + Times(PairsBefore(s.antnums, i), 2 * Occ(s.pols, p))
    ensures Total(RowsF(c, s, i + 1), nodes, p) == Total(c, nodes, p) + Times(PairsBefore(s.antnums, i + 1), 2 * Occ(s.pols, p))
  {
    RowTotal(RowsF(c, s, i), s, i, |s.antnums|, nodes, p);
    TimesAdd(PairsBefore(s.antnums, i), RowPairs(s.antnums, i, |s.antnums|), 2 * Occ(s.pols, p));
  }

  lemma {:induction false} RowsTotal(c: Buckets, s: Survey, i: nat, nodes: seq<Node>, p: Pol)
    requires NodesCover(s, nodes)
    ensures Total(RowsF(c, s, i), nodes, p) == Total(c, nodes, p) + Times(PairsBefore(s.antnums, i), 2 * Occ(s.pols, p))
  {
    if i > 0 {
      var k := i - 1;
      RowsTotal(c, s, k, nodes, p);
      RowsTotalStep(c, s, k, nodes, p);
    }
  }

  /** Starting from empty lists, the pair loop leaves in every slot exactly the values that belong there. */
  lemma FiledBuckets(c: Buckets, s: Survey, b: Slot)
    requires AllEmpty(c)
    ensures Bucket(RowsF(c, s, |s.antnums|), b) == s.Expected(b)
  {
    RowsBucket(c, s, |s.antnums|, b);
  }

  /**
   * Starting from empty lists, the pair loop files 2 * k * d values under
   * pol p, where k is the number of times p is requested and d the number of
   * ordered pairs of distinct antennas: n * (n - 1) for n distinct antennas.
   */
  lemma FiledTotal(c: Buckets, s: Survey, nodes: seq<Node>, p: Pol)
    requires AllEmpty(c) && NodesCover(s, nodes)
    ensures Total(RowsF(c, s, |s.antnums|), nodes, p) == 2 * Occ(s.pols, p) * DistinctPairs(s.antnums)
    ensures NoDups(s.antnums) ==>
      Total(RowsF(c, s, |s.antnums|), nodes, p) == 2 * Occ(s.pols, p) * (|s.antnums| * (|s.antnums| - 1))
  {
    TotalOfEmpty(c, nodes, p);
    RowsTotal(c, s, |s.antnums|, nodes, p);
    TimesIsProduct(DistinctPairs(s.antnums), 2 * Occ(s.pols, p));
    if NoDups(s.antnums) {
      DistinctPairsCount(s.antnums);
    }
  }

  /** The pol loop of one ordered pair (lines 101-108). */
  method FileAcrossPols(c0: Buckets, n1: Node, n2: Node, i: nat, j: nat, corr: map<Pol, Matrix>, pols: seq<Pol>)
    returns (c: Buckets)
    requires forall p :: p in pols ==> p in corr && i < |corr[p]| && j < |corr[p][i]|
    requires PairReady(c0, n1, n2, pols)
    ensures c == PolsF(c0, n1, n2, i, j, corr, pols)
    ensures c.Keys == c0.Keys
  {
    c := c0;
    for q := 0 to |pols|
      invariant c == PolsF(c0, n1, n2, i, j, corr, pols[..q])
      invariant c.Keys == c0.Keys
    {
      var pol := pols[q];
      assert Ready(c0, n1, pol) && Ready(c0, n2, pol);
      assert pols[..q + 1][..q] == pols[..q];
      c := FilePair(c, n1, n2, pol, Cell(corr, pol, i, j));
    }
    assert pols[..|pols|] == pols;
  }

  /** One row of the pair loop (lines 93-108): the pairs (i, 0) .. (i, nants - 1), self-pairs skipped (line 96). */
  method FileRow(c0: Buckets, i: nat, antnums: seq<int>, nodeOf: int -> Node, corr: map<Pol, Matrix>, pols: seq<Pol>)
    returns (c: Buckets)
    requires Survey(antnums, nodeOf, corr, pols).Valid() && i < |antnums|
    requires AllReady(c0, Survey(antnums, nodeOf, corr, pols))
    ensures c == RowF(c0, Survey(antnums, nodeOf, corr, pols), i, |antnums|)
    ensures c.Keys == c0.Keys
  {
    ghost var s := Survey(antnums, nodeOf, corr, pols);
    c := c0;
    for j := 0 to |antnums|
      invariant c == RowF(c0, s, i, j)
      invariant c.Keys == c0.Keys
    {
      var ant1 := antnums[i];
      var ant2 := antnums[j];
      if ant1 != ant2 {
        var n1 := nodeOf(ant1);
        var n2 := nodeOf(ant2);
        c := FileAcrossPols(c, n1, n2, i, j, corr, pols);
      }
    }
  }

  /** The pair loop (lines 92-108): every ordered pair of distinct antennas filed under its nodes. */
  method FilePairs(antnums: seq<int>, nodeOf: int -> Node, corr: map<Pol, Matrix>, pols: seq<Pol>, c0: Buckets)
    returns (c: Buckets)
    requires Survey(antnums, nodeOf, corr, pols).Valid()
    requires AllReady(c0, Survey(antnums, nodeOf, corr, pols))
    ensures c == RowsF(c0, Survey(antnums, nodeOf, corr, pols), |antnums|)
    ensures c.Keys == c0.Keys
  {
    ghost var s := Survey(antnums, nodeOf, corr, pols);
    c := c0;
    for i := 0 to |antnums|
      invariant c == RowsF(c0, s, i)
      invariant c.Keys == c0.Keys
    {
      c := FileRow(c, i, antnums, nodeOf, corr, pols);
    }
  }

  /** The median loop (lines 109-112). */
  method NodeMedians(c: Buckets, nodes: seq<Node>, pols: seq<Pol>, median: seq<real> -> real)
    returns (nodeMeans: Means)
    requires Shaped(c, nodes, pols)
    ensures Shaped(nodeMeans, nodes, pols)
    ensures forall b :: b in nodeMeans ==> nodeMeans[b] == median(c[b])
  {
    nodeMeans := map[];
    for t := 0 to |nodes|
      invariant Shaped(nodeMeans, nodes[..t], pols)
      invariant forall b :: b in nodeMeans ==> nodeMeans[b] == median(c[b])
    {
      var node := nodes[t];
      assert nodes[..t + 1] == nodes[..t] + [node];
      for q := 0 to |pols|
        invariant forall b :: b in nodeMeans <==> (b.node in nodes[..t] && b.pol in pols) || (b.node == node && b.pol in pols[..q])
        invariant forall b :: b in nodeMeans ==> nodeMeans[b] == median(c[b])
      {
        var pol := pols[q];
        assert pols[..q + 1] == pols[..q] + [pol];
        nodeMeans := nodeMeans[Slot(node, Inter, pol) := median(c[Slot(node, Inter, pol)])];
        nodeMeans := nodeMeans[Slot(node, Intra, pol) := median(c[Slot(node, Intra, pol)])];
        forall b: Slot
          ensures b in nodeMeans <==> (b.node in nodes[..t] && b.pol in pols) || (b.node == node && b.pol in pols[..q + 1])
        {
          SlotCases(b);
        }
      }
      assert pols[..|pols|] == pols;
    }
    assert nodes[..|nodes|] == nodes;
  }

  /**
   * get_internode_correlations: for every node hosting one of the antennas,
   * kind and requested pol, the median of the values of the ordered pairs
   * that belong in that slot.
   */
  method GetInternodeCorrelations(antnums: seq<int>, nodeOf: int -> Node, corr: map<Pol, Matrix>, pols: seq<Pol>,
                                  median: seq<real> -> real)
    returns (nodeMeans: Means)
    requires Survey(antnums, nodeOf, corr, pols).Valid()
    ensures Shaped(nodeMeans, NodesOf(antnums, nodeOf), pols)
    ensures forall b :: b in nodeMeans ==> nodeMeans[b] == median(Survey(antnums, nodeOf, corr, pols).Expected(b))
  {
    var nodes := GetNodes(antnums, nodeOf);
    forall a | a in antnums ensures nodeOf(a) in nodes {
      var i :| 0 <= i < |antnums| && antnums[i] == a;
      assert NodesOf(antnums, nodeOf)[i] == nodeOf(a);
    }
    var nodeCorrs := InitBuckets(nodes, pols);
    ghost var s := Survey(antnums, nodeOf, corr, pols);
    ghost var c0 := nodeCorrs;
    nodeCorrs := FilePairs(antnums, nodeOf, corr, pols, nodeCorrs);
    forall b | b in nodeCorrs ensures nodeCorrs[b] == s.Expected(b) {
      FiledBuckets(c0, s, b);
    }
    nodeMeans := NodeMedians(nodeCorrs, nodes, pols, median);
  }

  // ---------------------------------------------------------------------
  // calculate_correlation_matrix
  // ---------------------------------------------------------------------

  /**
   * calculate_correlation_matrix: None when the sum and diff data start at
   * different times; otherwise, for every pol, the nants-by-nants matrix
   * whose cell (i, j) is the correlation `cell` computes for that pol and
   * the antennas at positions i and j.
   */
  method CalculateCorrelationMatrix(smTimes: seq<real>, dfTimes: seq<real>, antnums: seq<int>, pols: seq<Pol>,
                                    cell: (Pol, int, int) -> real)
    returns (r: Option<map<Pol, Matrix>>)
    requires |smTimes| > 0 && |dfTimes| > 0
    ensures r.None? <==> smTimes[0] != dfTimes[0]
    ensures r.Some? ==> forall p :: p in r.value <==> p in pols
    ensures r.Some? ==> forall p :: p in r.value ==>
      && IsSquare(r.value[p], |antnums|)
      && forall i, j :: 0 <= i < |antnums| && 0 <= j < |antnums| ==> r.value[p][i][j] == cell(p, antnums[i], antnums[j])
  {
    if smTimes[0] != dfTimes[0] {
      return None;
    }
    var nants := |antnums|;
    var corrMatrix: map<Pol, Matrix> := map[];
    for t := 0 to |pols|
      invariant forall p :: p in corrMatrix <==> p in pols[..t]
      invariant forall p :: p in corrMatrix ==>
        && IsSquare(corrMatrix[p], nants)
        && forall i, j :: 0 <= i < nants && 0 <= j < nants ==> corrMatrix[p][i][j] == cell(p, antnums[i], antnums[j])
    {
      var pol := pols[t];
      assert pols[..t + 1] == pols[..t] + [pol];
      var m: Matrix := seq(nants, _ => seq(nants, _ => 0.0));
      for i := 0 to nants
        invariant IsSquare(m, nants)
        invariant forall i', j :: 0 <= i' < i && 0 <= j < nants ==> m[i'][j] == cell(pol, antnums[i'], antnums[j])
      {
        for j := 0 to nants
          invariant IsSquare(m, nants)
          invariant forall i', j' :: 0 <= i' < i && 0 <= j' < nants ==> m[i'][j'] == cell(pol, antnums[i'], antnums[j'])
          invariant forall j' :: 0 <= j' < j ==> m[i][j'] == cell(pol, antnums[i], antnums[j'])
        {
          m := m[i := m[i][j := cell(pol, antnums[i], antnums[j])]];
        }
      }
      corrMatrix := corrMatrix[pol := m];
    }
    assert pols[..|pols|] == pols;
    r := Some(corrMatrix);
  }
}
