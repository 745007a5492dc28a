/** The data behind the knowledge graph: one node per module, coloured by status, and one
    link for every pair of modules that share a tag, weighted by the number of shared tags. */
module KnowledgeGraph {
  import opened Seqs
  import opened Types

  datatype GraphNode = GraphNode(id: string, name: string, val: real, group: int, color: string)

  datatype Link = Link(source: string, target: string, value: nat)

  /** Group 1 for `final`, 2 for `überarbeitung`, 3 for anything else. */
  function Group(s: Status): (g: int)
    ensures 1 <= g <= 3
    ensures g == 1 <==> s == Final
    ensures g == 2 <==> s == Ueberarbeitung
  {
    if s == Final then 1 else if s == Ueberarbeitung then 2 else 3
  }

  /** Green, amber and red, chosen by the same case split as the group. */
  function Color(s: Status): (c: string)
    ensures c == "#10B981" <==> s == Final
    ensures c == "#F59E0B" <==> s == Ueberarbeitung
    ensures c == "#EF4444" <==> s != Final && s != Ueberarbeitung
  {
    if s == Final then "#10B981" else if s == Ueberarbeitung then "#F59E0B" else "#EF4444"
  }

  /** The node of a module: its id and title, a size growing with its text, and the group and
      colour of its status. */
  function ToNode(m: Module): (n: GraphNode)
    ensures n.id == m.id && n.name == m.title && n.val >= 1.0
    ensures n.group == Group(m.status) && n.color == Color(m.status)
  {
    GraphNode(m.id, m.title, (|m.content| as real) / 1000.0 + 1.0, Group(m.status), Color(m.status))
  }

  /** `modules.map(m => ({ ... }))`: a node per module, in order, of size at least 1. */
  function Nodes(modules: seq<Module>): (nodes: seq<GraphNode>)
    ensures |nodes| == |modules|
    ensures forall i :: 0 <= i < |nodes| ==>
      nodes[i].id == modules[i].id && nodes[i].name == modules[i].title && nodes[i].val >= 1.0
  {
    seq(|modules|, i requires 0 <= i < |modules| => ToNode(modules[i]))
  }

  /** A node's group and colour always agree: each colour belongs to exactly one group. */
  lemma GroupColorAgree(m: Module)
    ensures var n := ToNode(m);
      && (n.group == 1 <==> n.color == "#10B981")
      && (n.group == 2 <==> n.color == "#F59E0B")
      && (n.group == 3 <==> n.color == "#EF4444")
  {
    assert "#10B981" != "#F59E0B" by { assert "#10B981"[1] != "#F59E0B"[1]; }
    assert "#10B981" != "#EF4444" by { assert "#10B981"[1] != "#EF4444"[1]; }
    assert "#F59E0B" != "#EF4444" by { assert "#F59E0B"[1] != "#EF4444"[1]; }
  }

  /** `m1.tags.filter(t => m2.tags.includes(t))`. */
  function SharedTags(t1: seq<string>, t2: seq<string>): (r: seq<string>)
    ensures |r| <= |t1|
    ensures forall i :: 0 <= i < |r| ==> r[i] in t1 && r[i] in t2
  {
    Filter(t1, t => t in t2)
  }

  /** Some tag is shared exactly when the two lists have a tag in common; so whether two
      modules are linked does not depend on their order. */
  lemma SharesIffCommonTag(t1: seq<string>, t2: seq<string>)
    ensures |SharedTags(t1, t2)| > 0 <==> exists t :: t in t1 && t in t2
    ensures |SharedTags(t1, t2)| > 0 <==> |SharedTags(t2, t1)| > 0
  {
    if exists t :: t in t1 && t in t2 {
      var t :| t in t1 && t in t2;
      var i :| 0 <= i < |t1| && t1[i] == t;
      var j :| 0 <= j < |t2| && t2[j] == t;
      assert t in SharedTags(t1, t2);
      assert t in SharedTags(t2, t1);
    }
  }

  /** The weight counts repeated tags of the first module: it is not symmetric. */
  lemma SharedCountNotSymmetric()
    ensures |SharedTags(["x", "x"], ["x"])| == 2
    ensures |SharedTags(["x"], ["x", "x"])| == 1
  {
    assert ["x", "x"][1..] == ["x"];
  }

  /** Modules `i` and `j` share a tag. */
  predicate Shares(modules: seq<Module>, i: nat, j: nat)
    requires i < |modules| && j < |modules|
  {
    |SharedTags(modules[i].tags, modules[j].tags)| > 0
  }

  /** The test of the inner loop as a relation on index pairs: the two modules exist and
      share a tag. The pair enumeration below is stated for any such relation. */
  function Linked(modules: seq<Module>): ((nat, nat)) -> bool {
    (p: (nat, nat)) => p.0 < |modules| && p.1 < |modules| && Shares(modules, p.0, p.1)
  }

  /** Every pair joins an earlier index to a later one below `n`. */
  predicate Forward(n: nat, pairs: seq<(nat, nat)>) {
    forall k :: 0 <= k < |pairs| ==> pairs[k].0 < pairs[k].1 < n
  }

  /** The pairs `(i, j')` with `i < j' < j` in the relation, by increasing `j'`. */
  function Row(linked: ((nat, nat)) -> bool, i: nat, j: nat): (r: seq<(nat, nat)>)
    requires i < j
    ensures forall k :: 0 <= k < |r| ==> i == r[k].0 < r[k].1 < j
    decreases j
  {
    if j == i + 1 then []
    else Row(linked, i, j - 1) + (if linked((i, j - 1)) then [(i, j - 1)] else [])
  }

  /** The rows of the first `k` indices below `n`, one after another. */
  function Upto(n: nat, linked: ((nat, nat)) -> bool, k: nat): (r: seq<(nat, nat)>)
    requires k <= n
    ensures forall m :: 0 <= m < |r| ==> r[m].0 < k && r[m].0 < r[m].1 < n
  {
    if k == 0 then [] else Upto(n, linked, k - 1) + Row(linked, k - 1, n)
  }

  /** The pairs of module indices that get a link, in the order the loops create them. */
  function LinkPairs(modules: seq<Module>): (r: seq<(nat, nat)>)
    ensures Forward(|modules|, r)
  {
    Upto(|modules|, Linked(modules), |modules|)
  }

  /** The link between the modules at `p`, weighted by the tags of the first that the second
      also has. */
  function ToLink(modules: seq<Module>, p: (nat, nat)): (l: Link)
    requires p.0 < |modules| && p.1 < |modules|
    ensures l.source == modules[p.0].id && l.target == modules[p.1].id
  {
    Link(modules[p.0].id, modules[p.1].id, |SharedTags(modules[p.0].tags, modules[p.1].tags)|)
  }

  /** The link of each pair, in order. */
  function ToLinks(modules: seq<Module>, pairs: seq<(nat, nat)>): (r: seq<Link>)
    requires Forward(|modules|, pairs)
    ensures |r| == |pairs|
  {
    seq(|pairs|, k requires 0 <= k < |pairs| => ToLink(modules, pairs[k]))
  }

  lemma ToLinksPush(modules: seq<Module>, p: seq<(nat, nat)>, x: (nat, nat))
    requires Forward(|modules|, p) && x.0 < x.1 < |modules|
    ensures Forward(|modules|, p + [x])
    ensures ToLinks(modules, p + [x]) == ToLinks(modules, p) + [ToLink(modules, x)]
  {
  }

  /** One more column of row `i`: the pair `(i, j)` joins when it is in the relation. */
  lemma RowStep(linked: ((nat, nat)) -> bool, i: nat, j: nat, u: seq<(nat, nat)>)
    requires i < j
    ensures u + Row(linked, i, j + 1) == (u + Row(linked, i, j)) + (if linked((i, j)) then [(i, j)] else [])
  {
  }

  /** One pass of the inner loop: the pair and its link are added exactly when the modules
      share a tag. */
  lemma LinkStep(modules: seq<Module>, i: nat, j: nat, before: seq<(nat, nat)>, pairs: seq<(nat, nat)>)
    requires i < j < |modules|
    requires Forward(|modules|, pairs) && pairs == before + Row(Linked(modules), i, j)
    ensures var next := pairs + (if Shares(modules, i, j) then [(i, j)] else []);
      && next == before + Row(Linked(modules), i, j + 1)
      && Forward(|modules|, next)
      && ToLinks(modules, next) == ToLinks(modules, pairs) + (if Shares(modules, i, j) then [ToLink(modules, (i, j))] else [])
  {
    RowStep(Linked(modules), i, j, before);
    if Shares(modules, i, j) {
      ToLinksPush(modules, pairs, (i, j));
    } else {
      assert pairs + [] == pairs;
    }
  }

  /** The nested loops of the graph component: for every `i < j` whose modules share a tag,
      push a link from module `i` to module `j` weighted by the number of shared tags. */
  method BuildLinks(modules: seq<Module>) returns (links: seq<Link>)
    ensures links == ToLinks(modules, LinkPairs(modules))
  {
    links := [];
    var i := 0;
    while i < |modules|
      invariant 0 <= i <= |modules|
      invariant links == ToLinks(modules, Upto(|modules|, Linked(modules), i))
    {
      links := LinkRow(modules, i, links);
      i := i + 1;
    }
  }

  /** The inner loop for module `i`: one link for each later module sharing a tag with it. */
  method LinkRow(modules: seq<Module>, i: nat, links0: seq<Link>) returns (links: seq<Link>)
    requires i < |modules| && links0 == ToLinks(modules, Upto(|modules|, Linked(modules), i))
    ensures links == ToLinks(modules, Upto(|modules|, Linked(modules), i + 1))
  {
    ghost var before := Upto(|modules|, Linked(modules), i);
    links := links0;
    var j := i + 1;
    ghost var pairs := before;
    assert pairs + Row(Linked(modules), i, j) == pairs;
    while j < |modules|
      invariant i + 1 <= j <= |modules|
      invariant pairs == before + Row(Linked(modules), i, j) && Forward(|modules|, pairs)
      invariant links == ToLinks(modules, pairs)
    {
      var m1, m2 := modules[i], modules[j];
      var sharedTags := SharedTags(m1.tags, m2.tags);
      LinkStep(modules, i, j, before, pairs);
      if |sharedTags| > 0 {
        links := links + [Link(m1.id, m2.id, |sharedTags|)];
        pairs := pairs + [(i, j)];
      }
      j := j + 1;
    }
  }

  /** Row `i` holds exactly the pairs `(i, j')`, `i < j' < j`, of the relation. */
  lemma {:induction false} RowMembers(linked: ((nat, nat)) -> bool, i: nat, j: nat, p: (nat, nat))
    requires i < j
    ensures p in Row(linked, i, j) <==> p.0 == i && i < p.1 < j && linked(p)
    decreases j
  {
    if j > i + 1 {
      RowMembers(linked, i, j - 1, p);
      var u := Row(linked, i, j - 1);
      var x: (nat, nat) := (i, j - 1);
      if linked(x) {
        assert Row(linked, i, j) == u + [x];
        assert p in u + [x] <==> p in u || p == x;
      } else {
        assert Row(linked, i, j) == u;
      }
    }
  }

  lemma {:induction false} UptoMembers(n: nat, linked: ((nat, nat)) -> bool, k: nat, p: (nat, nat))
    requires k <= n
    ensures p in Upto(n, linked, k) <==> p.0 < k && p.0 < p.1 < n && linked(p)
  {
    if k > 0 {
      UptoMembers(n, linked, k - 1, p);
      RowMembers(linked, k - 1, n, p);
      var u, w := Upto(n, linked, k - 1), Row(linked, k - 1, n);
      assert Upto(n, linked, k) == u + w;
      assert p in u + w <==> p in u || p in w;
    }
  }

  /** The linked pairs are exactly the pairs `i < j` of modules that share a tag. */
  lemma LinkPairsMembers(modules: seq<Module>, i: nat, j: nat)
    ensures (i, j) in LinkPairs(modules) <==> i < j < |modules| && Shares(modules, i, j)
  {
    UptoMembers(|modules|, Linked(modules), |modules|, (i, j));
  }

  /** `(i, j)` comes before `(i', j')` in row-major order. */
  predicate Before(p: (nat, nat), q: (nat, nat)) {
    p.0 < q.0 || (p.0 == q.0 && p.1 < q.1)
  }

  /** Each pair comes before every later one. */
  predicate RowMajor(r: seq<(nat, nat)>) {
    forall a, b :: 0 <= a < b < |r| ==> Before(r[a], r[b])
  }

  lemma {:induction false} RowOrdered(linked: ((nat, nat)) -> bool, i: nat, j: nat)
    requires i < j
    ensures RowMajor(Row(linked, i, j))
    decreases j
  {
    if j > i + 1 {
      RowOrdered(linked, i, j - 1);
      var u := Row(linked, i, j - 1);
      var x: (nat, nat) := (i, j - 1);
      if linked(x) {
        var r := u + [x];
        assert Row(linked, i, j) == r;
        forall a, b | 0 <= a < b < |r| ensures Before(r[a], r[b]) {
          if b < |u| {
            assert r[a] == u[a] && r[b] == u[b];
          } else {
            assert r[a] == u[a] && r[b] == x;
          }
        }
      } else {
        assert Row(linked, i, j) == u;
      }
    }
  }

  lemma {:induction false} UptoOrdered(n: nat, linked: ((nat, nat)) -> bool, k: nat)
    requires k <= n
    ensures RowMajor(Upto(n, linked, k))
  {
    if k > 0 {
      UptoOrdered(n, linked, k - 1);
      RowOrdered(linked, k - 1, n);
      var u, w := Upto(n, linked, k - 1), Row(linked, k - 1, n);
      var r := u + w;
      assert r == Upto(n, linked, k);
      forall a, b | 0 <= a < b < |r| ensures Before(r[a], r[b]) {
        if b < |u| {
          assert r[a] == u[a] && r[b] == u[b];
        } else if a < |u| {
          assert r[a] == u[a] && r[b] == w[b - |u|];
          assert u[a].0 < k - 1 && w[b - |u|].0 == k - 1;
        } else {
          assert r[a] == w[a - |u|] && r[b] == w[b - |u|];
        }
      }
    }
  }

  /** The links come out in row-major order of their index pairs, hence without repeats. */
  lemma LinkPairsDistinct(modules: seq<Module>)
    ensures var r := LinkPairs(modules); forall a, b :: 0 <= a < b < |r| ==> r[a] != r[b]
  {
    UptoOrdered(|modules|, Linked(modules), |modules|);
  }

  /** Row `i` has at most one pair for each later index. */
  lemma {:induction false} RowLength(linked: ((nat, nat)) -> bool, i: nat, j: nat)
    requires i < j
    ensures |Row(linked, i, j)| <= j - i - 1
    decreases j
  {
    if j > i + 1 {
      RowLength(linked, i, j - 1);
    }
  }

  /** Twice the number of pairs `i < j < n` with `i < k`: the rows of the first `k` indices
      have `n - 1`, `n - 2`, ... places. */
  function PairBound(n: int, k: nat): int {
    if k == 0 then 0 else PairBound(n, k - 1) + 2 * (n - k)
  }

  lemma {:induction false} PairBoundClosed(n: int, k: nat)
    ensures PairBound(n, k) == k * (2 * n - k - 1)
  {
    if k > 0 {
      PairBoundClosed(n, k - 1);
      var c := 2 * n - k - 1;
      assert k * c == (k - 1) * c + c;
      assert (k - 1) * (c + 1) == (k - 1) * c + (k - 1);
    }
  }

  lemma {:induction false} UptoLength(n: nat, linked: ((nat, nat)) -> bool, k: nat)
    requires k <= n
    ensures 2 * |Upto(n, linked, k)| <= PairBound(n, k)
  {
    if k > 0 {
      UptoLength(n, linked, k - 1);
      RowLength(linked, k - 1, n);
      assert Upto(n, linked, k) == Upto(n, linked, k - 1) + Row(linked, k - 1, n);
    }
  }

  /** At most one link per unordered pair: no more than `n(n-1)/2` links. */
  lemma LinkCountBound(modules: seq<Module>)
    ensures 2 * |LinkPairs(modules)| <= |modules| * (|modules| - 1)
  {
    UptoLength(|modules|, Linked(modules), |modules|);
    PairBoundClosed(|modules|, |modules|);
  }

  /** Every link joins an earlier module to a later one and weighs at least one. */
  lemma LinksWellFormed(modules: seq<Module>)
    ensures var pairs := LinkPairs(modules); var links := ToLinks(modules, pairs);
      forall k :: 0 <= k < |links| ==>
        && links[k].source == modules[pairs[k].0].id
        && links[k].target == modules[pairs[k].1].id
        && pairs[k].0 < pairs[k].1
        && 1 <= links[k].value <= |modules[pairs[k].0].tags|
  {
    var pairs := LinkPairs(modules);
    forall k | 0 <= k < |pairs| ensures Shares(modules, pairs[k].0, pairs[k].1) {
      UptoMembers(|modules|, Linked(modules), |modules|, pairs[k]);
    }
  }
}
