/** Routes as a map from prefixes, and the longest-prefix answer that the trie must give. */
module PrefixMaps {
  import opened Bytes
  import opened Sequences

  type Octets = seq<byte>

  /** A destination and the longest number it serves. */
  datatype Target = Target(destination: string, maxLength: nat)

  type Routes = map<Octets, Target>

  /** The length of the longest prefix of `q[..k]` that is a key, or -1. */
  function BestLength(routes: Routes, q: Octets, k: nat): int
    requires k <= |q|
  {
    if q[..k] in routes then k else if k == 0 then -1 else BestLength(routes, q, k - 1)
  }

  lemma {:induction false} BestLengthIsLongest(routes: Routes, q: Octets, k: nat)
    requires k <= |q|
    ensures var b := BestLength(routes, q, k);
            && -1 <= b <= k
            && (b >= 0 ==> q[..b] in routes)
            && forall l :: 0 <= l <= k && l > b ==> q[..l] !in routes
  {
    if q[..k] !in routes && k > 0 {
      BestLengthIsLongest(routes, q, k - 1);
    }
  }

  /** Whoever has these two properties is the best length. */
  lemma BestLengthUnique(routes: Routes, q: Octets, b: int)
    requires -1 <= b <= |q| && (b >= 0 ==> q[..b] in routes)
    requires forall l :: 0 <= l <= |q| && l > b ==> q[..l] !in routes
    ensures BestLength(routes, q, |q|) == b
  {
    BestLengthIsLongest(routes, q, |q|);
  }

  /** The routes after adding a list: what is there first stays. */
  function Merged(routes: Routes, list: seq<(Octets, Target)>): Routes {
    if list == [] then routes
    else
      var m := Merged(routes, list[..|list| - 1]);
      var (w, t) := list[|list| - 1];
      if w in m then m else m[w := t]
  }

  /** No prefix of the list had a route when its turn came. */
  predicate AllNew(routes: Routes, list: seq<(Octets, Target)>) {
    list == [] || (AllNew(routes, list[..|list| - 1]) && list[|list| - 1].0 !in Merged(routes, list[..|list| - 1]))
  }

  /** Old routes survive a merge, and the first of equal prefixes in the list wins. */
  lemma {:induction false} MergedIsFirst(routes: Routes, list: seq<(Octets, Target)>, w: Octets)
    ensures w in routes ==> w in Merged(routes, list) && Merged(routes, list)[w] == routes[w]
    ensures w !in routes ==> (w in Merged(routes, list) <==> exists i :: 0 <= i < |list| && list[i].0 == w)
    ensures w !in routes && w in Merged(routes, list) ==>
              exists i :: 0 <= i < |list| && list[i] == (w, Merged(routes, list)[w]) &&
                          forall j :: 0 <= j < i ==> list[j].0 != w
  {
    if list != [] {
      var init := list[..|list| - 1];
      MergedIsFirst(routes, init, w);
      assert forall i :: 0 <= i < |init| ==> init[i] == list[i];
    }
  }

  /** That is: no prefix of the list has a route before, or stands in the list twice. */
  lemma {:induction false} AllNewIff(routes: Routes, list: seq<(Octets, Target)>)
    ensures AllNew(routes, list) <==>
            forall i :: 0 <= i < |list| ==> list[i].0 !in routes && forall j :: 0 <= j < i ==> list[j].0 != list[i].0
  {
    if list != [] {
      var init, w := list[..|list| - 1], list[|list| - 1].0;
      AllNewIff(routes, init);
      MergedIsFirst(routes, init, w);
      assert forall i :: 0 <= i < |init| ==> init[i] == list[i];
      assert w in Merged(routes, init) <==> w in routes || exists i :: 0 <= i < |init| && init[i].0 == w;
    }
  }

  /** A number begins with `p`, or read from its end without its first digit it does. */
  ghost predicate BeginsWith(number: Octets, p: Octets, reverse: bool) {
    && (!reverse ==> |p| <= |number| && forall i :: 0 <= i < |p| ==> p[i] == number[i])
    && (reverse ==> (p == [] || |p| < |number|) && forall i :: 0 <= i < |p| ==> p[i] == number[|number| - 1 - i])
  }

  ghost predicate LongestMatch(routes: Routes, number: Octets, p: Octets, reverse: bool) {
    && p in routes && BeginsWith(number, p, reverse)
    && forall r :: r in routes && BeginsWith(number, r, reverse) ==> |r| <= |p|
  }

  /** A lookup gives the destination of the longest route that the number begins with, if that admits a
      number of this length. */
  ghost predicate Found(routes: Routes, number: Octets, reverse: bool, answer: string) {
    && (forall p :: LongestMatch(routes, number, p, reverse) ==>
          answer == if |number| <= routes[p].maxLength then routes[p].destination else "")
    && ((forall p :: p in routes ==> !BeginsWith(number, p, reverse)) ==> answer == "")
  }

  lemma KeyBegins(number: Octets, p: Octets, reverse: bool)
    ensures BeginsWith(number, p, reverse) <==> p <= Key(number, reverse)
  {
    var q := Key(number, reverse);
    if reverse && number != [] {
      assert forall i :: 0 <= i < |q| ==> q[i] == number[|number| - 1 - i];
    }
    if BeginsWith(number, p, reverse) {
      assert forall i :: 0 <= i < |p| ==> p[i] == q[i];
      assert q[..|p|] == p;
    }
  }

  lemma LookupFinds(routes: Routes, number: Octets, reverse: bool)
    ensures Found(routes, number, reverse, Lookup(routes, number, reverse))
  {
    hide Key, BeginsWith;
    var q := Key(number, reverse);
    var b := BestLength(routes, q, |q|);
    BestLengthIsLongest(routes, q, |q|);
    forall p ensures BeginsWith(number, p, reverse) <==> p <= q {
      KeyBegins(number, p, reverse);
    }
    if b >= 0 {
      assert q[..b] <= q && q[..b] in routes;
    }
    forall p | LongestMatch(routes, number, p, reverse) ensures b >= 0 && p == q[..b] {
      assert q[..|p|] == p;
      if b >= 0 {
        assert BeginsWith(number, q[..b], reverse);
      }
    }
  }

  /** What a lookup walks along: the number itself, or the number backwards without its first digit. */
  function Key(number: Octets, reverse: bool): Octets {
    if !reverse then number else if number == [] then [] else Reversed(number[1..])
  }

  /** The destination of the longest matching prefix, subject to its length limit. */
  function Lookup(routes: Routes, number: Octets, reverse: bool): string {
    var q := Key(number, reverse);
    var b := BestLength(routes, q, |q|);
    BestLengthIsLongest(routes, q, |q|);
    if b < 0 then ""
    else if routes[q[..b]].maxLength < |number| then ""
    else routes[q[..b]].destination
  }

  /** The length of the longest prefix of `q[..k]` whose route admits a number of length `n`, or -1. */
  function AdmittingLength(routes: Routes, q: Octets, k: nat, n: nat): int
    requires k <= |q|
  {
    if q[..k] in routes && routes[q[..k]].maxLength >= n then k
    else if k == 0 then -1
    else AdmittingLength(routes, q, k - 1, n)
  }

  lemma {:induction false} AdmittingIsLongest(routes: Routes, q: Octets, k: nat, n: nat)
    requires k <= |q|
    ensures var a := AdmittingLength(routes, q, k, n);
            && -1 <= a <= BestLength(routes, q, k) <= k
            && (a >= 0 ==> q[..a] in routes && routes[q[..a]].maxLength >= n)
            && (forall l :: 0 <= l <= k && l > a ==> q[..l] !in routes || routes[q[..l]].maxLength < n)
  {
    BestLengthIsLongest(routes, q, k);
    if k > 0 && !(q[..k] in routes && routes[q[..k]].maxLength >= n) {
      AdmittingIsLongest(routes, q, k - 1, n);
      BestLengthIsLongest(routes, q, k - 1);
    }
  }

  /** The destination of the longest match among the routes that admit the number. */
  function WithFallback(routes: Routes, number: Octets, reverse: bool): string {
    var q := Key(number, reverse);
    var a := AdmittingLength(routes, q, |q|, |number|);
    AdmittingIsLongest(routes, q, |q|, |number|);
    if a < 0 then "" else routes[q[..a]].destination
  }

  /** A lookup finds what a search with fallback would find exactly if nothing matches, the longest match
      admits the number, or there is nothing to fall back on. */
  lemma FallbackIff(routes: Routes, number: Octets, reverse: bool)
    ensures var q := Key(number, reverse);
            var b := BestLength(routes, q, |q|);
            && -1 <= b <= |q| && (b >= 0 ==> q[..b] in routes)
            && (Lookup(routes, number, reverse) == WithFallback(routes, number, reverse) <==>
                b < 0 || routes[q[..b]].maxLength >= |number| || WithFallback(routes, number, reverse) == "")
  {
    hide Key;
    var q := Key(number, reverse);
    BestLengthIsLongest(routes, q, |q|);
    AdmittingIsLongest(routes, q, |q|, |number|);
  }

  /** Without its first digit, a number finds backwards what all of it would find, exactly if all of it
      backwards is no route itself. */
  lemma FirstDigitUnread(routes: Routes, number: Octets)
    requires number != []
    ensures var whole, q := Reversed(number), Key(number, true);
            BestLength(routes, q, |q|) == BestLength(routes, whole, |whole|) <==> whole !in routes
  {
    var whole, q := Reversed(number), Key(number, true);
    assert whole == q + [number[0]] && whole[..|q|] == q && whole[..|whole|] == whole;
    BestLengthIsLongest(routes, q, |q|);
    SameBest(routes, q, whole, |q|);
  }

  lemma {:induction false} SameBest(routes: Routes, q: Octets, whole: Octets, k: nat)
    requires k <= |q| && q <= whole
    ensures BestLength(routes, q, k) == BestLength(routes, whole, k)
  {
    assert q[..k] == whole[..k];
    if k > 0 {
      SameBest(routes, q, whole, k - 1);
    }
  }

  /** The limit belongs to the longest match alone: a shorter match with a laxer limit is not tried. */
  lemma NoFallback(number: Octets, short: Target, long: Target)
    requires |number| >= 2 && long.maxLength < |number| && short.destination != ""
    requires short.maxLength >= |number|
    ensures Lookup(map[number[..1] := short, number[..2] := long], number, false) == ""
  {
    var routes := map[number[..1] := short, number[..2] := long];
    assert |number[..1]| == 1 && |number[..2]| == 2;
    forall l | 0 <= l <= |number| && l > 2 ensures number[..l] !in routes {
      assert |number[..l]| == l;
    }
    BestLengthUnique(routes, number, 2);
  }
}

/** The routing trie with parent links, child counts and pruning. */
module RouteMappers {
  import opened Bytes
  import opened PrefixMaps

  class CharNode {
    ghost const path: Octets
    const index: int
    const depth: nat
    const parent: CharNode?
    const childs: array<CharNode?>
    var destination: string
    var maxLength: nat
    var hasValueFlag: bool
    var numberOfChilds: nat

    constructor (depth: nat, parent: CharNode?, index: int, ghost path: Octets)
      ensures this.path == path && this.depth == depth && this.parent == parent && this.index == index
      ensures fresh(childs) && childs.Length == 256 && forall i :: 0 <= i < 256 ==> childs[i] == null
      ensures !hasValueFlag && numberOfChilds == 0
    {
      this.path, this.depth, this.parent, this.index := path, depth, parent, index;
      childs := new CharNode?[256](_ => null);
      destination, maxLength, hasValueFlag, numberOfChilds := "", 0, false, 0;
    }

    /** Lets go of all children. */
    method CleanNode()
      requires childs.Length == 256
      modifies childs, this`numberOfChilds
      ensures numberOfChilds == 0 && forall i :: 0 <= i < 256 ==> childs[i] == null
    {
      for i := 0 to 256
        invariant forall j :: 0 <= j < i ==> childs[j] == null
      {
        childs[i] := null;
      }
      numberOfChilds := 0;
    }
  }

  type Nodes = map<Octets, CharNode>

  /** The edges that leave `w`. */
  ghost function Kids(nodes: Nodes, w: Octets): set<byte> {
    set c: byte | w + [c] in nodes
  }

  /** The table of the node at `w` holds the nodes one byte further on. */
  ghost predicate TableTells(w: Octets, table: seq<CharNode?>, nodes: Nodes) {
    |table| == 256 &&
    forall c: byte {:trigger table[c]} {:trigger w + [c]} ::
      table[c] == if w + [c] in nodes then nodes[w + [c]] else null
  }

  /** Every node but the root hangs below its parent and knows it. */
  ghost predicate LinksTell(nodes: Nodes) {
    && (forall w, c: byte {:trigger w + [c]} :: w + [c] in nodes ==>
          w in nodes && nodes[w + [c]].parent == nodes[w] && nodes[w + [c]].index == c)
    && (forall w :: w in nodes ==> nodes[w].path == w && nodes[w].depth == |w|)
  }

  /** Value and flag of a node agree with the routes. */
  ghost predicate ValueTells(w: Octets, flag: bool, destination: string, maxLength: nat, routes: Routes) {
    && (flag <==> w in routes)
    && (flag ==> routes[w] == Target(destination, maxLength))
  }

  /** Every node but the root and `except` has a route or a child. */
  ghost predicate Canonical(nodes: Nodes, routes: Routes, except: Octets) {
    forall w :: w in nodes && w != [] && w != except ==> w in routes || Kids(nodes, w) != {}
  }

  /** No two nodes share a table. */
  ghost predicate TablesApart(nodes: Nodes, owner: map<array<CharNode?>, Octets>) {
    forall w :: w in nodes ==> nodes[w].childs in owner && owner[nodes[w].childs] == w
  }

  // What a new node below `w` changes.

  lemma WordStep(u: Octets, d: byte, w: Octets, c: byte)
    ensures u + [d] == w + [c] <==> u == w && d == c
  {
    assert (u + [d])[..|u|] == u && (w + [c])[..|w|] == w;
    assert (u + [d])[|u|] == d && (w + [c])[|w|] == c;
  }

  lemma GrownLinks(nodes: Nodes, w: Octets, c: byte, child: CharNode)
    requires LinksTell(nodes) && w in nodes && w + [c] !in nodes
    requires child.parent == nodes[w] && child.index == c && child.path == w + [c] && child.depth == |w| + 1
    ensures LinksTell(nodes[w + [c] := child])
  {
    forall u, d: byte | u + [d] == w + [c] ensures u == w && d == c {
      WordStep(u, d, w, c);
    }
  }

  lemma GrownKids(nodes: Nodes, w: Octets, c: byte, child: CharNode)
    requires LinksTell(nodes) && w in nodes && w + [c] !in nodes
    ensures forall u :: u != w ==> Kids(nodes[w + [c] := child], u) == Kids(nodes, u)
    ensures Kids(nodes[w + [c] := child], w) == Kids(nodes, w) + {c} && c !in Kids(nodes, w)
    ensures Kids(nodes[w + [c] := child], w + [c]) == {}
  {
    forall u, d: byte | u + [d] == w + [c] ensures u == w && d == c {
      WordStep(u, d, w, c);
    }
    forall u | u != w ensures Kids(nodes[w + [c] := child], u) == Kids(nodes, u) {
      forall d: byte ensures d in Kids(nodes[w + [c] := child], u) <==> d in Kids(nodes, u) {
        WordStep(u, d, w, c);
      }
    }
    forall d: byte ensures d in Kids(nodes[w + [c] := child], w) <==> d in Kids(nodes, w) || d == c {
      WordStep(w, d, w, c);
    }
    forall d: byte ensures w + [c] + [d] !in nodes {}
  }

  lemma GrownTable(nodes: Nodes, w: Octets, c: byte, child: CharNode, u: Octets, table: seq<CharNode?>)
    requires LinksTell(nodes) && w in nodes && w + [c] !in nodes && TableTells(u, table, nodes)
    ensures u != w ==> TableTells(u, table, nodes[w + [c] := child])
    ensures u == w ==> TableTells(u, table[c := child], nodes[w + [c] := child])
  {
    forall d: byte ensures u + [d] == w + [c] <==> u == w && d == c {
      WordStep(u, d, w, c);
    }
  }

  lemma NewTable(nodes: Nodes, w: Octets, c: byte, child: CharNode, table: seq<CharNode?>)
    requires LinksTell(nodes) && w + [c] !in nodes
    requires |table| == 256 && forall i :: 0 <= i < 256 ==> table[i] == null
    ensures TableTells(w + [c], table, nodes[w + [c] := child])
  {
    forall d: byte ensures w + [c] + [d] !in nodes[w + [c] := child] {
      assert |w + [c] + [d]| > |w + [c]|;
    }
  }

  lemma GrownApart(nodes: Nodes, owner: map<array<CharNode?>, Octets>, v: Octets, child: CharNode)
    requires TablesApart(nodes, owner) && child.childs !in owner
    ensures TablesApart(nodes[v := child], owner[child.childs := v])
  {}

  lemma GrownCanonical(nodes: Nodes, routes: Routes, w: Octets, c: byte, child: CharNode)
    requires LinksTell(nodes) && w in nodes && w + [c] !in nodes && Canonical(nodes, routes, w)
    ensures Canonical(nodes[w + [c] := child], routes, w + [c])
  {
    hide LinksTell, Kids;
    GrownKids(nodes, w, c, child);
  }

  // What the removal of a node without children changes.

  /** A node without children is a leaf of the tree. */
  lemma NoKids(nodes: Nodes, v: Octets)
    requires |Kids(nodes, v)| == 0
    ensures forall d: byte {:trigger v + [d]} :: v + [d] !in nodes
  {
    assert Kids(nodes, v) == {};
    forall d: byte {:trigger v + [d]} ensures v + [d] !in nodes {
      assert d !in Kids(nodes, v);
    }
  }

  lemma ShrunkLinks(nodes: Nodes, v: Octets)
    requires LinksTell(nodes) && forall d: byte {:trigger v + [d]} :: v + [d] !in nodes
    ensures LinksTell(nodes - {v})
  {}

  lemma ShrunkKids(nodes: Nodes, w: Octets, c: byte)
    requires w + [c] in nodes
    ensures forall u :: u != w ==> Kids(nodes - {w + [c]}, u) == Kids(nodes, u)
    ensures Kids(nodes - {w + [c]}, w) == Kids(nodes, w) - {c} && c in Kids(nodes, w)
    ensures |Kids(nodes, w)| > 0
  {
    assert c in Kids(nodes, w);
    forall u | u != w ensures Kids(nodes - {w + [c]}, u) == Kids(nodes, u) {
      forall d: byte ensures d in Kids(nodes - {w + [c]}, u) <==> d in Kids(nodes, u) {
        WordStep(u, d, w, c);
      }
    }
    forall d: byte ensures d in Kids(nodes - {w + [c]}, w) <==> d in Kids(nodes, w) && d != c {
      WordStep(w, d, w, c);
    }
  }

  lemma ShrunkTable(nodes: Nodes, w: Octets, c: byte, u: Octets, table: seq<CharNode?>)
    requires TableTells(u, table, nodes)
    ensures u != w ==> TableTells(u, table, nodes - {w + [c]})
    ensures u == w ==> TableTells(u, table[c := null], nodes - {w + [c]})
  {
    forall d: byte ensures u + [d] == w + [c] <==> u == w && d == c {
      WordStep(u, d, w, c);
    }
  }

  lemma ShrunkApart(nodes: Nodes, owner: map<array<CharNode?>, Octets>, v: Octets)
    requires TablesApart(nodes, owner)
    ensures TablesApart(nodes - {v}, owner)
  {}

  lemma ShrunkCanonical(nodes: Nodes, routes: Routes, w: Octets, c: byte)
    requires w + [c] in nodes && Canonical(nodes, routes, w + [c])
    ensures Canonical(nodes - {w + [c]}, routes, w)
  {
    hide Kids;
    ShrunkKids(nodes, w, c);
  }

  /** The node below the root on a non-empty path hangs where the path says. */
  lemma ParentOf(nodes: Nodes, v: Octets) returns (w: Octets, c: byte)
    requires LinksTell(nodes) && v in nodes && v != []
    ensures v == w + [c] && w in nodes && nodes[v].parent == nodes[w] && nodes[v].index == c
  {
    w, c := v[..|v| - 1], v[|v| - 1];
    assert v == w + [c];
  }

  /** A node that gets a route needs no exception any more. */
  lemma ValuedCanonical(nodes: Nodes, routes: Routes, w: Octets, t: Target)
    requires Canonical(nodes, routes, w)
    ensures Canonical(nodes, routes[w := t], [])
  {}

  /** The links of one node. */
  lemma PathOf(nodes: Nodes, w: Octets)
    requires LinksTell(nodes) && w in nodes
    ensures nodes[w].path == w && nodes[w].depth == |w|
  {}

  lemma TablesKept(nodes: Nodes, owner: map<array<CharNode?>, Octets>, w: Octets)
    requires TablesApart(nodes, owner) && w in nodes
    ensures nodes[w].childs in owner && owner[nodes[w].childs] == w
  {}

  /** A tree of a root alone is in order. */
  lemma SoleNode(root: CharNode, owner: map<array<CharNode?>, Octets>, routes: Routes, table: seq<CharNode?>)
    requires root.path == [] && root.depth == 0 && root.childs in owner && owner[root.childs] == []
    requires |table| == 256 && forall i :: 0 <= i < 256 ==> table[i] == null
    ensures var nodes := map[[] := root];
            LinksTell(nodes) && TablesApart(nodes, owner) && Kids(nodes, []) == {} &&
            TableTells([], table, nodes) && Canonical(nodes, routes, [])
  {}

  /** Every route has its node. */
  ghost predicate RoutesStand(nodes: Nodes, routes: Routes) {
    forall r :: r in routes ==> r in nodes
  }

  /** The nodes are the root and the beginnings of the routes. */
  ghost predicate JustBeginnings(nodes: Nodes, routes: Routes) {
    forall w :: w in nodes <==> w == [] || exists r :: r in routes && w <= r
  }

  /** In a canonical tree no node is there for nothing, and none is missing. */
  lemma CanonicalIsJust(nodes: Nodes, routes: Routes)
    requires [] in nodes && LinksTell(nodes) && Canonical(nodes, routes, []) && RoutesStand(nodes, routes)
    ensures JustBeginnings(nodes, routes)
  {
    hide LinksTell, Canonical;
    forall w ensures w in nodes <==> w == [] || exists r :: r in routes && w <= r {
      if w in nodes && w != [] {
        var r := RouteBelow(nodes, routes, w);
      }
      if r :| r in routes && w <= r {
        BeginningStands(nodes, r, |w|);
        assert r[..|w|] == w;
      }
    }
  }

  /** Below every node but the root there is a route. */
  lemma {:induction false} RouteBelow(nodes: Nodes, routes: Routes, w: Octets) returns (r: Octets)
    requires Canonical(nodes, routes, []) && w in nodes && w != []
    ensures r in routes && w <= r
    decreases |NodesBelow(nodes, w)|
  {
    if w in routes {
      r := w;
    } else {
      var c :| c in Kids(nodes, w);
      assert NodesBelow(nodes, w + [c]) <= NodesBelow(nodes, w);
      assert w + [c] in NodesBelow(nodes, w) - NodesBelow(nodes, w + [c]);
      SmallerSet(NodesBelow(nodes, w + [c]), NodesBelow(nodes, w), w + [c]);
      r := RouteBelow(nodes, routes, w + [c]);
    }
  }

  ghost function NodesBelow(nodes: Nodes, w: Octets): set<Octets> {
    set u | u in nodes && w < u
  }

  lemma SmallerSet(a: set<Octets>, b: set<Octets>, x: Octets)
    requires a <= b && x in b && x !in a
    ensures |a| < |b|
  {
    assert |b| == |b - a| + |a|;
    assert x in b - a;
  }

  /** The beginnings of a node's path are nodes. */
  lemma {:induction false} BeginningStands(nodes: Nodes, r: Octets, k: nat)
    requires LinksTell(nodes) && r in nodes && k <= |r|
    ensures r[..k] in nodes
    decreases |r| - k
  {
    if k < |r| {
      BeginningStands(nodes, r, k + 1);
      assert r[..k + 1] == r[..k] + [r[k]];
    } else {
      assert r[..k] == r;
    }
  }

  lemma TablesDiffer(nodes: Nodes, owner: map<array<CharNode?>, Octets>, u: Octets, w: Octets)
    requires TablesApart(nodes, owner) && u in nodes && w in nodes && u != w
    ensures nodes[u].childs != nodes[w].childs
  {}

  class RouteMapper {
    const treeRoot: CharNode

    ghost var routes: Routes                      // what the mapper stands for
    ghost var nodes: Nodes                        // every node, by the word that leads to it
    ghost var owner: map<array<CharNode?>, Octets>  // whose table is whose
    ghost var heap: set<object>

    ghost predicate Valid()
      reads this, heap
    {
      Shape() && Canonical(nodes, routes, [])
    }

    /** Between calls the tree is as small as it can be. */
    lemma NoSpareNodes()
      requires Valid()
      ensures JustBeginnings(nodes, routes)
    {
      hide LinksTell, Canonical, TablesApart;
      CanonicalIsJust(nodes, routes);
    }

    /** Everything but canonicity. */
    ghost predicate Shape()
      reads this, heap
    {
      && Books()
      && (forall w :: w in nodes ==> NodeOk(w))
    }

    /** What the ghost records say about each other. */
    ghost predicate Books()
      reads this
    {
      && this !in heap
      && [] in nodes && nodes[[]] == treeRoot && treeRoot.parent == null
      && LinksTell(nodes)
      && TablesApart(nodes, owner)
      && (forall w :: w in routes ==> w in nodes)
    }

    ghost predicate NodeOk(w: Octets)
      requires w in nodes
      reads this, heap
    {
      var n := nodes[w];
      && n in heap && n.childs in heap && n.childs.Length == 256
      && TableTells(w, n.childs[..], nodes)
      && n.numberOfChilds == |Kids(nodes, w)|
      && ValueTells(w, n.hasValueFlag, n.destination, n.maxLength, routes)
    }

    constructor ()
      ensures Valid() && routes == map[] && fresh(heap)
    {
      var root := new CharNode(0, null, -1, []);
      treeRoot := root;
      routes, nodes, owner := map[], map[[] := root], map[root.childs := []];
      heap := {root, root.childs};
    }

    /** Gives a node its value. */
    method SetValue(n: CharNode, destination: string, maxLength: nat)
      requires Shape() && n.path in nodes && nodes[n.path] == n && Canonical(nodes, routes, n.path)
      modifies this`routes, n
      ensures Valid() && routes == old(routes)[n.path := Target(destination, maxLength)]
    {
      hide TableTells, LinksTell, TablesApart, Kids, Canonical;
      ghost var w := n.path;
      assert NodeOk(w);
      n.destination := destination;
      n.maxLength := maxLength;
      n.hasValueFlag := true;
      ValuedCanonical(nodes, routes, w, Target(destination, maxLength));
      routes := routes[w := Target(destination, maxLength)];
      forall u | u in nodes ensures NodeOk(u) {
        assert old(NodeOk(u));
        PathOf(nodes, u);
      }
    }

    /** Hangs a new node below `n`. */
    method AddChild(n: CharNode, index: byte) returns (child: CharNode)
      requires Shape() && n.path in nodes && nodes[n.path] == n && n.path + [index] !in nodes
      requires Canonical(nodes, routes, n.path)
      modifies this`nodes, this`owner, this`heap, n, n.childs
      ensures Shape() && routes == old(routes) && fresh(heap - old(heap))
      ensures nodes == old(nodes)[n.path + [index] := child]
      ensures Canonical(nodes, routes, n.path + [index])
    {
      hide TableTells, LinksTell, TablesApart, Kids, Canonical;
      ghost var w := n.path;
      assert NodeOk(w);
      PathOf(nodes, w);
      child := new CharNode(n.depth + 1, n, index, w + [index]);
      n.childs[index] := child;
      n.numberOfChilds := n.numberOfChilds + 1;
      assert n.childs[..] == old(n.childs[..])[index := child];
      forall u | u in nodes && u != w ensures NodeOk(u) {
        assert old(NodeOk(u));
        PathOf(nodes, u);
        TablesDiffer(nodes, owner, u, w);
      }
      GrownCanonical(nodes, routes, w, index, child);
      Adopt(n, index, child, old(n.childs[..]));
    }

    /** Takes a new child of `n` into the books. */
    ghost method Adopt(n: CharNode, index: byte, child: CharNode, table: seq<CharNode?>)
      requires Books() && n.path in nodes && nodes[n.path] == n && n.path + [index] !in nodes
      requires forall u :: u in nodes && u != n.path ==> NodeOk(u)
      requires n in heap && n.childs in heap && n.childs.Length == 256
      requires TableTells(n.path, table, nodes) && n.childs[..] == table[index := child]
      requires n.numberOfChilds == |Kids(nodes, n.path)| + 1
      requires ValueTells(n.path, n.hasValueFlag, n.destination, n.maxLength, routes)
      requires child !in heap && child.childs !in heap && child.childs !in owner && child.childs.Length == 256
      requires child.parent == n && child.index == index && child.path == n.path + [index] && child.depth == |n.path| + 1
      requires !child.hasValueFlag && child.numberOfChilds == 0 && child.childs != n.childs
      requires (forall i :: 0 <= i < 256 ==> child.childs[i] == null) && child as object != this
      modifies this`nodes, this`owner, this`heap
      ensures Shape() && heap == old(heap) + {child, child.childs}
      ensures nodes == old(nodes)[n.path + [index] := child]
    {
      hide TableTells, LinksTell, TablesApart, Kids;
      ghost var w, v := n.path, n.path + [index];
      GrownLinks(nodes, w, index, child);
      GrownKids(nodes, w, index, child);
      GrownTable(nodes, w, index, child, w, table);
      NewTable(nodes, w, index, child, child.childs[..]);
      GrownApart(nodes, owner, v, child);
      nodes, owner := nodes[v := child], owner[child.childs := v];
      heap := heap + {child, child.childs};
      forall u | u in old(nodes) && u != w ensures NodeOk(u) {
        assert old(NodeOk(u));
        GrownTable(old(nodes), w, index, child, u, nodes[u].childs[..]);
      }
    }

    /** Takes a node without route and children off its parent and goes on with the parent. */
    method CleanUp(current: CharNode)
      requires Shape() && current.path in nodes && nodes[current.path] == current
      requires Canonical(nodes, routes, current.path)
      modifies this`nodes, heap
      ensures Valid() && routes == old(routes) && heap == old(heap)
      ensures JustBeginnings(nodes, routes)
      decreases |current.path|
    {
      hide TableTells, LinksTell, TablesApart, Kids, Canonical, JustBeginnings;
      ghost var v := current.path;
      assert NodeOk(v);
      if !current.hasValueFlag && current.numberOfChilds == 0 {
        var parent := current.parent;
        if parent != null {
          Detach(current, parent);
          CleanUp(parent);
        } else {
          RootCanonical(nodes, routes, v);
          NoSpareNodes();
        }
      } else {
        UsefulCanonical(nodes, routes, v);
        NoSpareNodes();
      }
    }

    /** Removes a useless node from its parent's table and count. */
    method Detach(current: CharNode, parent: CharNode)
      requires Shape() && current.path in nodes && nodes[current.path] == current
      requires Canonical(nodes, routes, current.path) && current.parent == parent
      requires !current.hasValueFlag && current.numberOfChilds == 0
      modifies this`nodes, heap
      ensures Shape() && routes == old(routes) && heap == old(heap)
      ensures parent.path in nodes && nodes[parent.path] == parent && |parent.path| < |current.path|
      ensures Canonical(nodes, routes, parent.path)
    {
      hide TableTells, LinksTell, TablesApart, Kids, Canonical;
      ghost var v := current.path;
      ghost var w, c := ParentOf(nodes, v);
      PathOf(nodes, w);
      assert NodeOk(v) && NodeOk(w);
      ShrunkKids(nodes, w, c);
      parent.numberOfChilds := parent.numberOfChilds - 1;
      parent.childs[current.index] := null;
      assert parent.childs[..] == old(parent.childs[..])[c := null];
      forall u | u in nodes && u != w ensures NodeOk(u) {
        assert old(NodeOk(u));
        PathOf(nodes, u);
        TablesDiffer(nodes, owner, u, w);
      }
      ShrunkCanonical(nodes, routes, w, c);
      Drop(w, c, old(parent.childs[..]));
    }

    /** Takes a removed child of the node at `w` out of the books. */
    ghost method Drop(w: Octets, c: byte, table: seq<CharNode?>)
      requires Books() && w in nodes && w + [c] in nodes && w + [c] !in routes && |Kids(nodes, w + [c])| == 0
      requires forall u :: u in nodes && u != w ==> NodeOk(u)
      requires nodes[w] in heap && nodes[w].childs in heap && nodes[w].childs.Length == 256
      requires TableTells(w, table, nodes) && nodes[w].childs[..] == table[c := null]
      requires nodes[w].numberOfChilds == |Kids(nodes, w)| - 1
      requires ValueTells(w, nodes[w].hasValueFlag, nodes[w].destination, nodes[w].maxLength, routes)
      modifies this`nodes
      ensures Shape() && nodes == old(nodes) - {w + [c]}
    {
      hide TableTells, LinksTell, TablesApart, Kids;
      ghost var v := w + [c];
      NoKids(nodes, v);
      ShrunkLinks(nodes, v);
      ShrunkKids(nodes, w, c);
      ShrunkTable(nodes, w, c, w, table);
      ShrunkApart(nodes, owner, v);
      nodes := nodes - {v};
      assert v != [];
      forall u | u in nodes && u != w ensures NodeOk(u) {
        assert old(NodeOk(u));
        ShrunkTable(old(nodes), w, c, u, nodes[u].childs[..]);
      }
    }

    /** Walks the path of a prefix, creating what is missing. The node at its end, or null when that node
        has a route already. */
    method CreateSubTree(prefix: Octets, first: nat, last: nat, current: CharNode) returns (n: CharNode?)
      requires Shape() && first <= last == |prefix|
      requires prefix[..first] in nodes && nodes[prefix[..first]] == current
      requires Canonical(nodes, routes, prefix[..first])
      modifies this`nodes, this`owner, this`heap, heap
      ensures Shape() && routes == old(routes) && fresh(heap - old(heap))
      ensures n == null <==> prefix in routes
      ensures n != null ==> prefix in nodes && nodes[prefix] == n && n in heap
      ensures Canonical(nodes, routes, prefix)
      decreases last - first
    {
      hide TableTells, LinksTell, TablesApart, Kids, Canonical;
      ghost var w := prefix[..first];
      assert NodeOk(w);
      PathOf(nodes, w);
      if first < last {
        var index := prefix[first];
        assert w + [index] == prefix[..first + 1];
        TableAt(w, current.childs[..], nodes, index);
        if current.childs[index] == null {
          var child := AddChild(current, index);
        } else {
          InnerCanonical(nodes, routes, w, index);
        }
        assert NodeOk(w);
        TableAt(w, current.childs[..], nodes, index);
        n := CreateSubTree(prefix, first + 1, last, current.childs[index]);
      } else {
        assert prefix[..first] == prefix;
        n := if current.hasValueFlag then null else current;
      }
    }

    /** Adds a route; false when the prefix has one. */
    method AddRoute(prefix: Octets, destination: string, maxLength: nat) returns (res: bool)
      requires Valid()
      modifies this`routes, this`nodes, this`owner, this`heap, heap
      ensures Valid() && fresh(heap - old(heap))
      ensures res <==> prefix !in old(routes)
      ensures routes == if res then old(routes)[prefix := Target(destination, maxLength)] else old(routes)
    {
      hide TableTells, LinksTell, TablesApart, Kids, Canonical;
      assert prefix[..0] == [];
      var n := CreateSubTree(prefix, 0, |prefix|, treeRoot);
      if n != null {
        PathOf(nodes, prefix);
        SetValue(n, destination, maxLength);
        res := true;
      } else {
        RoutedCanonical(nodes, routes, prefix);
        res := false;
      }
    }

    /** Walks from `current`, which `m` bytes of the key have led to, as far as the trie goes. The last
        node with a value on the way, or else the one found before. */
    method FindMatching(prefix: Octets, first: nat, last: nat, current: CharNode, lastValidValue: CharNode?,
                        reverse: bool, ghost m: nat) returns (n: CharNode?)
      requires Shape() && m <= |Key(prefix, reverse)|
      requires Key(prefix, reverse)[..m] in nodes && nodes[Key(prefix, reverse)[..m]] == current
      requires if reverse then first == 0 && last == |prefix| - m else first == m && last == |prefix|
      requires lastValidValue != null ==> IsRouted(lastValidValue, Key(prefix, reverse))
      requires OnTheWay(routes, Key(prefix, reverse), m, lastValidValue)
      ensures n == Best(prefix, reverse)
      decreases |Key(prefix, reverse)| - m
    {
      hide TableTells, LinksTell, TablesApart, Kids, Key, BestLength;
      ghost var q := Key(prefix, reverse);
      assert NodeOk(q[..m]);
      PathOf(nodes, q[..m]);
      var lastValid := if current.hasValueFlag then current else lastValidValue;
      var stop := if reverse && last > 0 then last - 1 else last;
      KeyAt(prefix, reverse, m);
      if first < stop {
        var index := if reverse then prefix[stop] else prefix[first];
        assert q[..m] + [index] == q[..m + 1];
        TableAt(q[..m], current.childs[..], nodes, index);
        if current.childs[index] != null {
          assert OnTheWay(routes, q, m + 1, lastValid);
          if reverse {
            n := FindMatching(prefix, first, stop, current.childs[index], lastValid, reverse, m + 1);
          } else {
            n := FindMatching(prefix, first + 1, stop, current.childs[index], lastValid, reverse, m + 1);
          }
        } else {
          NothingBeyond(nodes, q, m + 1);
          FoundBest(prefix, reverse, m, lastValid);
          n := lastValid;
        }
      } else {
        FoundBest(prefix, reverse, m, lastValid);
        n := lastValid;
      }
    }

    /** When no longer beginning of the key is routed, the node found is the best one. */
    lemma FoundBest(prefix: Octets, reverse: bool, m: nat, found: CharNode?)
      requires Shape() && m <= |Key(prefix, reverse)|
      requires found != null ==> IsRouted(found, Key(prefix, reverse))
      requires OnTheWay(routes, Key(prefix, reverse), m, found)
      requires Key(prefix, reverse)[..m] in routes ==> found != null && |found.path| == m
      requires forall l :: m < l <= |Key(prefix, reverse)| ==> Key(prefix, reverse)[..l] !in routes
      ensures found == Best(prefix, reverse)
    {
      hide Key, BestLength;
      var q := Key(prefix, reverse);
      var b := if found == null then -1 else |found.path|;
      if found != null {
        assert q[..b] == found.path;
      }
      forall l | 0 <= l <= |q| && l > b ensures q[..l] !in routes {
        assert l < m || l == m || l > m;
      }
      BestLengthUnique(routes, q, b);
    }

    /** The node of the longest route that begins the key. */
    ghost function Best(prefix: Octets, reverse: bool): CharNode?
      requires Shape()
      reads this, heap
    {
      var q := Key(prefix, reverse);
      var b := BestLength(routes, q, |q|);
      BestLengthIsLongest(routes, q, |q|);
      if b < 0 then null else nodes[q[..b]]
    }

    /** A node with a value on the path of the key. */
    ghost predicate IsRouted(n: CharNode, q: Octets)
      reads this
    {
      n.path <= q && n.path in routes && n.path in nodes && nodes[n.path] == n
    }

    /** Changes an existing route; false when the prefix has none. */
    method UpdateRoute(prefix: Octets, destination: string, maxLength: nat) returns (res: bool)
      requires Valid()
      modifies this`routes, heap
      ensures Valid() && nodes == old(nodes)
      ensures res <==> prefix in old(routes)
      ensures routes == if res then old(routes)[prefix := Target(destination, maxLength)] else old(routes)
    {
      hide TableTells, LinksTell, TablesApart, Kids, Canonical;
      var n := FindExact(prefix);
      if n != null && n.depth == |prefix| {
        assert NodeOk(prefix);
        UnexceptedCanonical(nodes, routes, prefix);
        SetValue(n, destination, maxLength);
        res := true;
      } else {
        res := false;
      }
    }

    /** Removes a route and the nodes that become useless; false when the prefix has none. */
    method DeleteRoute(prefix: Octets) returns (res: bool)
      requires Valid()
      modifies this`routes, this`nodes, heap
      ensures Valid() && heap == old(heap)
      ensures res <==> prefix in old(routes)
      ensures routes == old(routes) - {prefix}
      ensures JustBeginnings(nodes, routes)
    {
      hide TableTells, LinksTell, TablesApart, Kids, Canonical;
      var n := FindExact(prefix);
      if n != null && n.depth == |prefix| {
        assert NodeOk(prefix);
        ClearValue(n);
        CleanUp(n);
        res := true;
      } else {
        NoSpareNodes();
        assert routes - {prefix} == routes;
        res := false;
      }
    }

    /** Drops every node below the root. The root keeps its own value. */
    method ClearAllRoutes()
      requires Valid()
      modifies this`routes, this`nodes, heap
      ensures Valid() && heap == old(heap)
      ensures routes == map w | w in old(routes) && w == [] :: old(routes)[w]
    {
      hide TableTells, LinksTell, TablesApart, Kids, Canonical;
      assert NodeOk([]);
      PathOf(nodes, []);
      TablesKept(nodes, owner, []);
      treeRoot.CleanNode();
      routes := map w | w in routes && w == [] :: routes[w];
      nodes := map[[] := treeRoot];
      SoleNode(treeRoot, owner, routes, treeRoot.childs[..]);
    }

    /** Adds the routes of a list one by one; false when some prefix had a route already. */
    method AddRoutes(list: seq<(Octets, Target)>, clear: bool) returns (res: bool)
      requires Valid()
      modifies this`routes, this`nodes, this`owner, this`heap, heap
      ensures Valid() && fresh(heap - old(heap))
      ensures var base := if clear then map w | w in old(routes) && w == [] :: old(routes)[w] else old(routes);
              routes == Merged(base, list) && (res <==> AllNew(base, list))
      ensures var base := if clear then map w | w in old(routes) && w == [] :: old(routes)[w] else old(routes);
              res <==> forall i :: 0 <= i < |list| ==>
                         list[i].0 !in base && forall j :: 0 <= j < i ==> list[j].0 != list[i].0
    {
      hide Valid;
      if clear {
        ClearAllRoutes();
      }
      res := true;
      ghost var base := routes;
      for i := 0 to |list|
        invariant Valid() && fresh(heap - old(heap))
        invariant routes == Merged(base, list[..i]) && (res <==> AllNew(base, list[..i]))
      {
        assert list[..i + 1][..i] == list[..i];
        var added := AddRoute(list[i].0, list[i].1.destination, list[i].1.maxLength);
        if !added {
          res := false;
        }
      }
      assert list[..|list|] == list;
      AllNewIff(base, list);
    }

    /** Takes the value off a node. */
    method ClearValue(n: CharNode)
      requires Valid() && n.path in nodes && nodes[n.path] == n
      modifies this`routes, n
      ensures Shape() && Canonical(nodes, routes, n.path) && nodes == old(nodes)
      ensures routes == old(routes) - {n.path}
    {
      hide TableTells, LinksTell, TablesApart, Kids, Canonical;
      assert NodeOk(n.path);
      ValuelessCanonical(nodes, routes, n.path);
      n.hasValueFlag := false;
      routes := routes - {n.path};
      forall u | u in nodes ensures NodeOk(u) {
        assert old(NodeOk(u));
        PathOf(nodes, u);
      }
    }

    /** The forward search from the root. */
    method FindExact(prefix: Octets) returns (n: CharNode?)
      requires Valid()
      ensures n != null ==> n.path in nodes && nodes[n.path] == n && n in heap && n.depth == |n.path|
      ensures n != null && n.depth == |prefix| <==> prefix in routes
      ensures n != null && n.depth == |prefix| ==> n.path == prefix
    {
      hide TableTells, LinksTell, TablesApart, Kids, Canonical;
      assert prefix[..0] == [] && prefix[..|prefix|] == prefix;
      n := FindMatching(prefix, 0, |prefix|, treeRoot, null, false, 0);
      BestLengthIsLongest(routes, prefix, |prefix|);
      if n != null {
        ghost var b := BestLength(routes, prefix, |prefix|);
        PathOf(nodes, prefix[..b]);
        assert NodeOk(prefix[..b]);
      }
    }

    /** The destination for a number: that of the longest matching prefix, if the number is not too long. */
    method FindDestination(number: Octets, reverse: bool) returns (res: string)
      requires Valid()
      ensures Found(routes, number, reverse, res)
      ensures res == Lookup(routes, number, reverse)
    {
      hide TableTells, LinksTell, TablesApart, Kids, Canonical, Found;
      LookupFinds(routes, number, reverse);
      ghost var q := Key(number, reverse);
      assert q[..0] == [];
      var n := FindMatching(number, 0, |number|, treeRoot, null, reverse, 0);
      BestLengthIsLongest(routes, q, |q|);
      if n != null {
        ghost var b := BestLength(routes, q, |q|);
        assert NodeOk(q[..b]);
        res := if n.maxLength < |number| then "" else n.destination;
      } else {
        res := "";
      }
    }
  }

  /** Walking on, nothing routed was met after the last valid node. */
  ghost predicate OnTheWay(routes: Routes, q: Octets, m: nat, found: CharNode?)
    requires m <= |q|
  {
    forall l :: 0 <= l < m && (found != null ==> l > |found.path|) ==> q[..l] !in routes
  }

  /** The byte that the walk reads after `m` bytes of the key. */
  lemma KeyAt(number: Octets, reverse: bool, m: nat)
    requires m <= |Key(number, reverse)|
    ensures !reverse ==> Key(number, reverse) == number
    ensures reverse ==> |Key(number, reverse)| == if |number| == 0 then 0 else |number| - 1
    ensures reverse && m < |Key(number, reverse)| ==> Key(number, reverse)[m] == number[|number| - m - 1]
  {}

  /** Below a missing node there is nothing. */
  lemma {:induction false} NothingBeyond(nodes: Nodes, q: Octets, k: nat)
    requires LinksTell(nodes) && k <= |q| && q[..k] !in nodes
    ensures forall l :: k <= l <= |q| ==> q[..l] !in nodes
    decreases |q| - k
  {
    if k < |q| {
      assert q[..k + 1] == q[..k] + [q[k]];
      NothingBeyond(nodes, q, k + 1);
    }
  }

  lemma TableAt(w: Octets, table: seq<CharNode?>, nodes: Nodes, c: byte)
    requires TableTells(w, table, nodes)
    ensures table[c] == if w + [c] in nodes then nodes[w + [c]] else null
  {}

  lemma InnerCanonical(nodes: Nodes, routes: Routes, w: Octets, c: byte)
    requires Canonical(nodes, routes, w) && w + [c] in nodes
    ensures Canonical(nodes, routes, w + [c]) && Canonical(nodes, routes, [])
  {
    assert c in Kids(nodes, w);
  }

  lemma RoutedCanonical(nodes: Nodes, routes: Routes, w: Octets)
    requires Canonical(nodes, routes, w) && w in routes
    ensures Canonical(nodes, routes, [])
  {}

  lemma RootCanonical(nodes: Nodes, routes: Routes, v: Octets)
    requires LinksTell(nodes) && v in nodes && nodes[v].parent == null && Canonical(nodes, routes, v)
    ensures Canonical(nodes, routes, [])
  {
    if v != [] {
      var w, c := ParentOf(nodes, v);
    }
  }

  lemma UsefulCanonical(nodes: Nodes, routes: Routes, v: Octets)
    requires Canonical(nodes, routes, v) && (v in routes || |Kids(nodes, v)| > 0)
    ensures Canonical(nodes, routes, [])
  {}

  lemma UnexceptedCanonical(nodes: Nodes, routes: Routes, w: Octets)
    requires Canonical(nodes, routes, [])
    ensures Canonical(nodes, routes, w)
  {}

  lemma ValuelessCanonical(nodes: Nodes, routes: Routes, w: Octets)
    requires Canonical(nodes, routes, [])
    ensures Canonical(nodes, routes - {w}, w)
  {}
}
