/**
  The context trie of the PPM model, stored as an arena: a sequence of node
  records addressed by index. Index 0 is the root. A node's children are a
  sequence of indices (the head of the sequence is the head of the source's
  child/next list) and its backoff link is an optional index. Every node also
  records its depth, the order of the context it stands for; backoff links
  lower the depth by exactly one, so walks along them terminate.
 */
module Trie {
  import opened Wrappers

  datatype Node = Node(symbol: int, count: nat, children: seq<nat>, backoff: Option<nat>, depth: nat)

  type Arena = seq<Node>

  const Root: nat := 0

  /** A trie holding only the root: symbol 0, count 1, no children, no backoff. */
  function NewTrie(): (a: Arena)
    ensures Valid(a) && |a| == 1
    ensures a[Root] == Node(0, 1, [], None, 0)
  {
    [Node(0, 1, [], None, 0)]
  }

  ghost predicate InRange(a: Arena, cs: seq<nat>) {
    forall k :: 0 <= k < |cs| ==> cs[k] < |a|
  }

  /** No two children of one node carry the same symbol. */
  ghost predicate DistinctSymbols(a: Arena, cs: seq<nat>)
    requires InRange(a, cs)
  {
    forall x, y :: 0 <= x < y < |cs| ==> a[cs[x]].symbol != a[cs[y]].symbol
  }

  /** Structural facts about one node of the arena. */
  ghost predicate NodeOk(a: Arena, i: nat)
    requires i < |a|
  {
    var n := a[i];
    && n.count >= 1
    && (i == Root <==> n.backoff.None?)
    && (n.backoff.Some? ==> n.backoff.value < |a| && a[n.backoff.value].depth + 1 == n.depth)
    && InRange(a, n.children)
    && (forall k :: 0 <= k < |n.children| ==>
          a[n.children[k]].depth == n.depth + 1 && a[n.children[k]].symbol >= 1)
    && DistinctSymbols(a, n.children)
  }

  /** The arena invariant: a root at index 0 and every node well formed. */
  ghost predicate Valid(a: Arena) {
    && |a| >= 1
    && a[Root].symbol == 0
    && a[Root].depth == 0
    && forall i: nat :: i < |a| ==> NodeOk(a, i)
  }

  /** Only the root has depth 0; every other node sits one below its backoff. */
  lemma DepthZeroIsRoot(a: Arena, i: nat)
    requires Valid(a) && i < |a|
    ensures a[i].depth == 0 <==> i == Root
  {
    assert NodeOk(a, i);
  }

  // ---------------------------------------------------------------------------
  // Lookup

  /** The first index of `cs` whose node carries `symbol`, scanning from the head. */
  function FindIn(a: Arena, cs: seq<nat>, symbol: int): (r: Option<nat>)
    requires InRange(a, cs)
    ensures r.None? <==> forall k :: 0 <= k < |cs| ==> a[cs[k]].symbol != symbol
    ensures r.Some? ==> r.value < |a| && a[r.value].symbol == symbol
    ensures r.Some? ==>
              exists k :: 0 <= k < |cs| && cs[k] == r.value &&
                          forall j :: 0 <= j < k ==> a[cs[j]].symbol != symbol
    decreases |cs|
  {
    if |cs| == 0 then None
    else if a[cs[0]].symbol == symbol then
      Some(cs[0])
    else
      var r := FindIn(a, cs[1..], symbol);
      assert forall k :: 1 <= k < |cs| ==> cs[k] == cs[1..][k - 1];
      r
  }

  /** The child of node `p` that carries `symbol`, if any (`findChildWithSymbol`). */
  function FindChild(a: Arena, p: nat, symbol: int): (r: Option<nat>)
    requires Valid(a) && p < |a|
    ensures r.None? <==> forall k :: 0 <= k < |a[p].children| ==> a[a[p].children[k]].symbol != symbol
    ensures r.Some? ==> r.value < |a| && a[r.value].symbol == symbol && r.value in a[p].children
    ensures r.Some? ==> a[r.value].depth == a[p].depth + 1 && r.value != Root
  {
    assert NodeOk(a, p);
    var r := FindIn(a, a[p].children, symbol);
    if r.Some? then
      DepthZeroIsRoot(a, r.value);
      r
    else r
  }

  /** With distinct child symbols, the child found is the unique one with that symbol. */
  lemma FindChildUnique(a: Arena, p: nat, c: nat)
    requires Valid(a) && p < |a| && c in a[p].children
    ensures c < |a| && FindChild(a, p, a[c].symbol) == Some(c)
  {
    assert NodeOk(a, p);
    var cs := a[p].children;
    var k :| 0 <= k < |cs| && cs[k] == c;
    var r := FindChild(a, p, a[cs[k]].symbol);
    var k' :| 0 <= k' < |cs| && cs[k'] == r.value &&
              forall j :: 0 <= j < k' ==> a[cs[j]].symbol != a[cs[k]].symbol;
    assert !(k < k');
    assert !(k' < k);
  }

  /** A lookup only depends on the symbols of the nodes it scans. */
  lemma {:induction false} FindInSameSymbols(a: Arena, b: Arena, cs: seq<nat>, symbol: int)
    requires InRange(a, cs) && InRange(b, cs)
    requires forall k :: 0 <= k < |cs| ==> b[cs[k]].symbol == a[cs[k]].symbol
    ensures FindIn(b, cs, symbol) == FindIn(a, cs, symbol)
    decreases |cs|
  {
    if |cs| > 0 && a[cs[0]].symbol != symbol {
      FindInSameSymbols(a, b, cs[1..], symbol);
    }
  }

  // ---------------------------------------------------------------------------
  // Counting

  predicate Excluded(exclusion: Option<set<int>>, symbol: int) {
    exclusion.Some? && symbol in exclusion.value
  }

  /** Sum of the counts of the nodes in `cs` whose symbol is not excluded. */
  function SumCounts(a: Arena, cs: seq<nat>, exclusion: Option<set<int>>): nat
    requires InRange(a, cs)
    decreases |cs|
  {
    if |cs| == 0 then 0
    else
      var last := a[cs[|cs| - 1]];
      SumCounts(a, cs[..|cs| - 1], exclusion) + (if Excluded(exclusion, last.symbol) then 0 else last.count)
  }

  /** When every node counts at least once, the sum is zero exactly when all are excluded. */
  lemma {:induction false} SumCountsZero(a: Arena, cs: seq<nat>, exclusion: Option<set<int>>)
    requires InRange(a, cs)
    requires forall k :: 0 <= k < |cs| ==> a[cs[k]].count >= 1
    ensures SumCounts(a, cs, exclusion) == 0 <==>
              forall k :: 0 <= k < |cs| ==> Excluded(exclusion, a[cs[k]].symbol)
    decreases |cs|
  {
    if |cs| > 0 {
      var n := |cs| - 1;
      SumCountsZero(a, cs[..n], exclusion);
      assert forall k :: 0 <= k < n ==> cs[..n][k] == cs[k];
    }
  }

  /** When every node counts at least once, each node that is not excluded adds at least one. */
  lemma {:induction false} SumCountsAtLeast(a: Arena, cs: seq<nat>, exclusion: Option<set<int>>)
    requires InRange(a, cs)
    requires forall k :: 0 <= k < |cs| ==> a[cs[k]].count >= 1
    ensures SumCounts(a, cs, exclusion) >= |cs| - |set k | 0 <= k < |cs| && Excluded(exclusion, a[cs[k]].symbol)|
    decreases |cs|
  {
    if |cs| > 0 {
      var n := |cs| - 1;
      SumCountsAtLeast(a, cs[..n], exclusion);
      var all := set k | 0 <= k < |cs| && Excluded(exclusion, a[cs[k]].symbol);
      var init := set k | 0 <= k < n && Excluded(exclusion, a[cs[..n][k]].symbol);
      if Excluded(exclusion, a[cs[n]].symbol) {
        assert all == init + {n};
      } else {
        assert all == init;
      }
    }
  }

  /** An exclusion mask can only lower the tally. */
  lemma {:induction false} SumCountsExclusionLowers(a: Arena, cs: seq<nat>, exclusion: Option<set<int>>)
    requires InRange(a, cs)
    ensures SumCounts(a, cs, exclusion) <= SumCounts(a, cs, None)
    decreases |cs|
  {
    if |cs| > 0 {
      SumCountsExclusionLowers(a, cs[..|cs| - 1], exclusion);
    }
  }

  /**
    Sum of the counts of the children of `p`, skipping symbols in the optional
    exclusion set (`totalChildrenCounts`).
   */
  function TotalChildrenCounts(a: Arena, p: nat, exclusion: Option<set<int>>): (r: nat)
    requires Valid(a) && p < |a|
    ensures r == 0 <==> forall k :: 0 <= k < |a[p].children| ==> Excluded(exclusion, a[a[p].children[k]].symbol)
    ensures exclusion.None? ==> (r == 0 <==> a[p].children == [])
    ensures exclusion.None? ==> r >= |a[p].children|
    ensures r <= SumCounts(a, a[p].children, None)
  {
    assert NodeOk(a, p);
    var cs := a[p].children;
    assert forall k :: 0 <= k < |cs| ==> NodeOk(a, cs[k]);
    SumCountsZero(a, cs, exclusion);
    SumCountsAtLeast(a, cs, exclusion);
    SumCountsExclusionLowers(a, cs, exclusion);
    assert exclusion.None? ==> (set k | 0 <= k < |cs| && Excluded(exclusion, a[cs[k]].symbol)) == {};
    SumCounts(a, cs, exclusion)
  }

  // ---------------------------------------------------------------------------
  // Backoff chains

  /** The nodes visited by following backoff links from `node` until the link is absent. */
  function Chain(a: Arena, node: Option<nat>): (ch: seq<nat>)
    requires Valid(a) && (node.Some? ==> node.value < |a|)
    ensures node.None? ==> ch == []
    ensures node.Some? ==> |ch| == a[node.value].depth + 1 && ch[0] == node.value && ch[|ch| - 1] == Root
    ensures forall j :: 0 <= j < |ch| ==> ch[j] < |a| && a[ch[j]].depth == |ch| - 1 - j
    ensures forall j {:trigger a[ch[j]].backoff} :: 0 <= j < |ch| - 1 ==> a[ch[j]].backoff == Some(ch[j + 1])
    decreases if node.Some? then a[node.value].depth + 1 else 0
  {
    match node
    case None => []
    case Some(n) =>
      assert NodeOk(a, n);
      DepthZeroIsRoot(a, n);
      [n] + Chain(a, a[n].backoff)
  }

  // ---------------------------------------------------------------------------
  // Growth

  ghost predicate IsSuffix(xs: seq<nat>, ys: seq<nat>) {
    |xs| <= |ys| && ys[|ys| - |xs|..] == xs
  }

  /** `y` is `x` after training: same symbol, depth and link; count and children only grew. */
  ghost predicate NodeGrows(x: Node, y: Node) {
    && y.symbol == x.symbol
    && y.depth == x.depth
    && y.backoff == x.backoff
    && y.count >= x.count
    && IsSuffix(x.children, y.children)
  }

  /** No node removed, no count lowered, no link changed, no child dropped. */
  ghost predicate Grows(a: Arena, b: Arena) {
    && |a| <= |b|
    && forall i :: 0 <= i < |a| ==> NodeGrows(a[i], b[i])
  }

  lemma GrowsReflexive(a: Arena)
    ensures Grows(a, a)
  {
    forall i | 0 <= i < |a|
      ensures NodeGrows(a[i], a[i])
    {
      assert a[i].children[0..] == a[i].children;
    }
  }

  lemma GrowsTransitive(a: Arena, b: Arena, c: Arena)
    requires Grows(a, b) && Grows(b, c)
    ensures Grows(a, c)
  {
    forall i | 0 <= i < |a|
      ensures NodeGrows(a[i], c[i])
    {
      var xs, ys, zs := a[i].children, b[i].children, c[i].children;
      assert zs[|zs| - |xs|..] == zs[|zs| - |ys|..][|ys| - |xs|..];
    }
  }

  // ---------------------------------------------------------------------------
  // Search along a chain

  /** The position of the first node of `ch` that has an `s`-child, if any. */
  function FirstHit(a: Arena, ch: seq<nat>, s: int): (r: Option<nat>)
    requires Valid(a) && forall j :: 0 <= j < |ch| ==> ch[j] < |a|
    ensures r.Some? ==> r.value < |ch|
    decreases |ch|
  {
    if |ch| == 0 then None
    else if FindChild(a, ch[0], s).Some? then Some(0)
    else
      match FirstHit(a, ch[1..], s)
      case None => None
      case Some(j) => Some(j + 1)
  }

  /** `FirstHit` finds nothing exactly when no node of `ch` has an `s`-child. */
  lemma {:induction false} FirstHitMisses(a: Arena, ch: seq<nat>, s: int)
    requires Valid(a) && forall j :: 0 <= j < |ch| ==> ch[j] < |a|
    ensures FirstHit(a, ch, s).None? <==> forall j :: 0 <= j < |ch| ==> FindChild(a, ch[j], s).None?
    decreases |ch|
  {
    if |ch| > 0 && FindChild(a, ch[0], s).None? {
      var tail := ch[1..];
      FirstHitMisses(a, tail, s);
      assert forall j :: 1 <= j < |ch| ==> ch[j] == tail[j - 1];
    }
  }

  /** A node `FirstHit` finds has an `s`-child, and every node of `ch` before it has none. */
  lemma {:induction false} FirstHitFinds(a: Arena, ch: seq<nat>, s: int)
    requires Valid(a) && forall j :: 0 <= j < |ch| ==> ch[j] < |a|
    ensures FirstHit(a, ch, s).Some? ==>
              && FindChild(a, ch[FirstHit(a, ch, s).value], s).Some?
              && forall i :: 0 <= i < FirstHit(a, ch, s).value ==> FindChild(a, ch[i], s).None?
    decreases |ch|
  {
    if |ch| > 0 && FindChild(a, ch[0], s).None? {
      var tail := ch[1..];
      FirstHitFinds(a, tail, s);
      match FirstHit(a, tail, s)
      case None =>
      case Some(j) =>
        assert ch[j + 1] == tail[j];
        assert forall i :: 1 <= i < j + 1 ==> ch[i] == tail[i - 1];
    }
  }

  // ---------------------------------------------------------------------------
  // Insertion (`addSymbolToNode_`)

  /** Increment the count of node `c`, and nothing else. */
  function Bump(a: Arena, c: nat): Arena
    requires c < |a|
  {
    a[c := a[c].(count := a[c].count + 1)]
  }

  /** Append `node` to the arena and prepend it to the children of `p`. */
  function Link(a: Arena, p: nat, node: Node): Arena
    requires p < |a|
  {
    a[p := a[p].(children := [|a|] + a[p].children)] + [node]
  }

  /** What linking does: `node` is appended, `p` gains it as head child, nothing else changes. */
  lemma LinkShape(a: Arena, p: nat, node: Node)
    requires p < |a|
    ensures |Link(a, p, node)| == |a| + 1 && Link(a, p, node)[|a|] == node
    ensures Link(a, p, node)[p].children == [|a|] + a[p].children
    ensures Link(a, p, node)[p] == a[p].(children := [|a|] + a[p].children)
    ensures forall i :: 0 <= i < |a| && i != p ==> Link(a, p, node)[i] == a[i]
  {
  }

  /** Linking only grows the arena. */
  lemma LinkGrows(a: Arena, p: nat, node: Node)
    requires p < |a|
    ensures Grows(a, Link(a, p, node))
  {
    var a2 := Link(a, p, node);
    forall i | 0 <= i < |a|
      ensures NodeGrows(a[i], a2[i])
    {
      assert a2[i].children[|a2[i].children| - |a[i].children|..] == a[i].children;
    }
  }

  lemma BumpKeepsValid(a: Arena, c: nat)
    requires Valid(a) && c < |a|
    ensures Valid(Bump(a, c)) && Grows(a, Bump(a, c))
    ensures forall i :: 0 <= i < |a| ==> Bump(a, c)[i].children == a[i].children
  {
    var b := Bump(a, c);
    forall i: nat | i < |b|
      ensures NodeOk(b, i)
    {
      assert NodeOk(a, i);
    }
    forall i | 0 <= i < |a|
      ensures NodeGrows(a[i], b[i])
    {
      assert b[i].children[|b[i].children| - |a[i].children|..] == a[i].children;
    }
  }

  /** Linking a fresh child with a new symbol keeps the arena well formed. */
  lemma LinkKeepsValid(a: Arena, p: nat, node: Node)
    requires Valid(a) && p < |a|
    requires node.symbol >= 1 && FindChild(a, p, node.symbol).None?
    requires node.count >= 1 && node.children == [] && node.depth == a[p].depth + 1
    requires node.backoff.Some? && node.backoff.value < |a| && a[node.backoff.value].depth == a[p].depth
    ensures Valid(Link(a, p, node)) && Grows(a, Link(a, p, node))
    ensures Link(a, p, node)[p].children == [|a|] + a[p].children
    ensures forall i :: 0 <= i < |a| && i != p ==> Link(a, p, node)[i] == a[i]
  {
    var a2 := Link(a, p, node);
    LinkShape(a, p, node);
    forall i: nat | i < |a2|
      ensures NodeOk(a2, i)
    {
      if i == |a| {
        assert a2[i] == node;
      } else if i == p {
        LinkParentOk(a, p, node);
      } else {
        LinkOtherOk(a, p, node, i);
      }
    }
    LinkGrows(a, p, node);
  }

  /** A node other than the parent keeps its fields and stays well formed. */
  lemma LinkOtherOk(a: Arena, p: nat, node: Node, i: nat)
    requires Valid(a) && p < |a| && i < |a| && i != p
    ensures NodeOk(Link(a, p, node), i)
  {
    var a2 := Link(a, p, node);
    LinkShape(a, p, node);
    assert NodeOk(a, i);
    assert forall j :: 0 <= j < |a| ==> a2[j].symbol == a[j].symbol && a2[j].depth == a[j].depth;
  }

  /** The parent of a freshly linked child stays well formed. */
  lemma LinkParentOk(a: Arena, p: nat, node: Node)
    requires Valid(a) && p < |a|
    requires node.symbol >= 1 && FindChild(a, p, node.symbol).None?
    requires node.depth == a[p].depth + 1
    ensures NodeOk(Link(a, p, node), p)
  {
    var a2 := Link(a, p, node);
    var n := |a|;
    LinkShape(a, p, node);
    assert NodeOk(a, p);
    var cs := a2[p].children;
    assert forall k :: 1 <= k < |cs| ==> cs[k] == a[p].children[k - 1];
    assert forall j :: 0 <= j < n ==> a2[j].symbol == a[j].symbol && a2[j].depth == a[j].depth;
    forall x, y | 0 <= x < y < |cs|
      ensures a2[cs[x]].symbol != a2[cs[y]].symbol
    {
      if x == 0 {
        assert a2[cs[y]].symbol == a[a[p].children[y - 1]].symbol;
      }
    }
  }

  /** The head of a child list is found when it carries the symbol. */
  lemma FindChildAtHead(a: Arena, p: nat, s: int)
    requires Valid(a) && p < |a| && a[p].children != []
    requires a[p].children[0] < |a| && a[a[p].children[0]].symbol == s
    ensures FindChild(a, p, s) == Some(a[p].children[0])
  {
    assert NodeOk(a, p);
  }

  /** A lookup below `q` is unaffected by changes to other nodes' child lists. */
  lemma FindChildFrame(a: Arena, b: Arena, q: nat, s: int)
    requires Valid(a) && Valid(b) && Grows(a, b) && q < |a|
    requires b[q].children == a[q].children
    ensures FindChild(b, q, s) == FindChild(a, q, s)
  {
    assert NodeOk(a, q);
    assert NodeOk(b, q);
    assert forall k :: 0 <= k < |a[q].children| ==> NodeGrows(a[a[q].children[k]], b[a[q].children[k]]);
    FindInSameSymbols(a, b, a[q].children, s);
  }

  /** The facts `AddSymbolToNode` promises when the child already exists. */
  lemma BumpStep(a: Arena, p: nat, s: int, c: nat)
    requires Valid(a) && p < |a| && s >= 1
    requires FindChild(a, p, s) == Some(c)
    ensures Valid(Bump(a, c)) && Grows(a, Bump(a, c))
    ensures FindChild(Bump(a, c), p, s) == Some(c)
    ensures forall i :: 0 <= i < |a| ==> Bump(a, c)[i].children == a[i].children
    ensures forall i :: 0 <= i < |a| && a[i].depth > a[p].depth + 1 ==> Bump(a, c)[i] == a[i]
  {
    BumpKeepsValid(a, c);
    FindChildFrame(a, Bump(a, c), p, s);
  }

  /**
    What the insertion one order lower promises about the intermediate arena
    `a1`, when a new `s`-child of `p` is about to be linked to `b`.
   */
  ghost predicate LowerInsertDone(a: Arena, p: nat, s: int, a1: Arena, b: nat)
    requires Valid(a) && p < |a|
  {
    && Valid(a1) && Grows(a, a1) && b < |a1|
    && (p == Root ==> a1 == a && b == Root)
    && (p != Root ==> a[p].backoff.Some? && a[p].backoff.value < |a1| &&
                      FindChild(a1, a[p].backoff.value, s) == Some(b))
    && (forall i :: 0 <= i < |a| && a[i].depth >= a[p].depth ==> a1[i].children == a[i].children)
    && (forall i :: 0 <= i < |a| && a[i].depth > a[p].depth ==> a1[i] == a[i])
  }

  /** The new child: symbol `s`, count 1, no children, linked to `b`. */
  function NewChild(a: Arena, p: nat, s: int, b: nat): Node
    requires p < |a|
  {
    Node(s, 1, [], Some(b), a[p].depth + 1)
  }

  /** Linking the new child keeps the arena well formed and only grows it. */
  lemma LinkStepValid(a: Arena, p: nat, s: int, a1: Arena, b: nat)
    requires Valid(a) && p < |a| && s >= 1
    requires FindChild(a, p, s).None?
    requires LowerInsertDone(a, p, s, a1, b)
    ensures p < |a1|
    ensures Valid(Link(a1, p, NewChild(a, p, s, b))) && Grows(a, Link(a1, p, NewChild(a, p, s, b)))
    ensures Link(a1, p, NewChild(a, p, s, b))[p].children == [|a1|] + a[p].children
    ensures forall i :: 0 <= i < |a1| && i != p ==> Link(a1, p, NewChild(a, p, s, b))[i] == a1[i]
  {
    var node := NewChild(a, p, s, b);
    assert a1[p].children == a[p].children && a1[p].depth == a[p].depth by {
      assert NodeGrows(a[p], a1[p]);
    }
    assert FindChild(a1, p, s).None? by {
      FindChildFrame(a, a1, p, s);
    }
    assert a1[b].depth == a1[p].depth by {
      if p != Root {
        var q := a[p].backoff.value;
        assert NodeOk(a, p);
        assert NodeGrows(a[q], a1[q]);
      }
    }
    LinkKeepsValid(a1, p, node);
    GrowsTransitive(a, a1, Link(a1, p, node));
  }

  /** After linking, the new child is what a lookup below `p` finds, and its backoff is the lower child. */
  lemma LinkStepLookup(a: Arena, p: nat, s: int, a1: Arena, b: nat)
    requires Valid(a) && p < |a| && s >= 1
    requires FindChild(a, p, s).None?
    requires LowerInsertDone(a, p, s, a1, b)
    requires p < |a1| && Valid(Link(a1, p, NewChild(a, p, s, b)))
    requires Link(a1, p, NewChild(a, p, s, b))[p].children == [|a1|] + a[p].children
    requires forall i :: 0 <= i < |a1| && i != p ==> Link(a1, p, NewChild(a, p, s, b))[i] == a1[i]
    ensures FindChild(Link(a1, p, NewChild(a, p, s, b)), p, s) == Some(|a1|)
    ensures p != Root ==>
              Link(a1, p, NewChild(a, p, s, b))[|a1|].backoff ==
              FindChild(Link(a1, p, NewChild(a, p, s, b)), a[p].backoff.value, s)
  {
    var a2 := Link(a1, p, NewChild(a, p, s, b));
    FindChildAtHead(a2, p, s);
    if p != Root {
      var q := a[p].backoff.value;
      assert q != p by {
        assert NodeOk(a, p);
      }
      LinkShape(a1, p, NewChild(a, p, s, b));
      LinkGrows(a1, p, NewChild(a, p, s, b));
      FindChildFrame(a1, a2, q, s);
    }
  }

  /** Everything `AddSymbolToNode(a, p, s)` promises about its result `r`. */
  ghost predicate InsertPost(a: Arena, p: nat, s: int, r: (Arena, nat))
    requires Valid(a) && p < |a|
  {
    && Valid(r.0) && Grows(a, r.0)
    && r.1 < |r.0| && FindChild(r.0, p, s) == Some(r.1)
    && (FindChild(a, p, s).Some? ==>
          && r.1 == FindChild(a, p, s).value
          && r.0 == Bump(a, r.1))
    && (FindChild(a, p, s).None? ==>
          && |r.0| > |a|
          && r.1 == |r.0| - 1
          && r.0[r.1].symbol == s && r.0[r.1].count == 1 && r.0[r.1].children == []
          && r.0[p].children == [r.1] + a[p].children
          && (p == Root ==> r.0[r.1].backoff == Some(Root))
          && (p != Root ==> && a[p].backoff.Some? && a[p].backoff.value < |r.0|
                            && r.0[r.1].backoff == FindChild(r.0, a[p].backoff.value, s)))
    && (forall i :: 0 <= i < |a| && a[i].depth > a[p].depth ==> r.0[i].children == a[i].children)
    && (forall i :: 0 <= i < |a| && a[i].depth > a[p].depth + 1 ==> r.0[i] == a[i])
  }

  /** The insertion one order lower leaves what `InsertNew` needs. */
  lemma LowerInsertDoneFromPost(a: Arena, p: nat, s: int, a1: Arena, b: nat)
    requires Valid(a) && p < |a| && s >= 1
    requires p == Root ==> a1 == a && b == Root
    requires p != Root ==> a[p].backoff.Some? && a[p].backoff.value < |a| &&
                           InsertPost(a, a[p].backoff.value, s, (a1, b))
    ensures LowerInsertDone(a, p, s, a1, b)
  {
    if p == Root {
      GrowsReflexive(a);
      assert NodeOk(a, Root);
    } else {
      assert NodeOk(a, p);
    }
  }

  lemma InsertFound(a: Arena, p: nat, s: int, c: nat)
    requires Valid(a) && p < |a| && s >= 1
    requires FindChild(a, p, s) == Some(c)
    ensures InsertPost(a, p, s, (Bump(a, c), c))
  {
    BumpStep(a, p, s, c);
  }

  lemma InsertNew(a: Arena, p: nat, s: int, a1: Arena, b: nat)
    requires Valid(a) && p < |a| && s >= 1
    requires FindChild(a, p, s).None?
    requires LowerInsertDone(a, p, s, a1, b)
    ensures p < |a1| && InsertPost(a, p, s, (Link(a1, p, NewChild(a, p, s, b)), |a1|))
  {
    LinkStepValid(a, p, s, a1, b);
    LinkStepLookup(a, p, s, a1, b);
    var a2 := Link(a1, p, NewChild(a, p, s, b));
    assert a2[|a1|] == NewChild(a, p, s, b);
    assert NodeOk(a, p);
    forall i | 0 <= i < |a| && a[i].depth > a[p].depth
      ensures a2[i].children == a[i].children
      ensures a[i].depth > a[p].depth + 1 ==> a2[i] == a[i]
    {
      assert i != p && a2[i] == a1[i];
    }
  }

  /** The count of `hit` is the only count of `a` that rises, by one. */
  ghost predicate CountsRaised(a: Arena, hit: Option<nat>, b: Arena)
    requires |a| <= |b|
  {
    forall i :: 0 <= i < |a| ==> b[i].count == a[i].count + (if hit == Some(i) then 1 else 0)
  }

  /**
    Each of the first `h` nodes of `ch` gains one new node at the head of its
    child list, `|a| + h - 1 - k` below `ch[k]`, and no other child list of
    `a` changes.
   */
  ghost predicate ListsExtended(a: Arena, ch: seq<nat>, h: nat, b: Arena)
    requires h <= |ch| && forall k :: 0 <= k < |ch| ==> ch[k] < |a|
    requires |a| <= |b|
  {
    && (forall k :: 0 <= k < h ==> b[ch[k]].children == [|a| + h - 1 - k] + a[ch[k]].children)
    && (forall i :: 0 <= i < |a| && i !in ch[..h] ==> b[i].children == a[i].children)
  }

  /**
    The `h` nodes appended to `a`, lowest order first: each carries `s` with
    count 1 and no children, one order below the node of `ch` it hangs from,
    and backs off to the new node one order lower, except the lowest, which
    backs off to `hit`, or to the root when there is none.
   */
  ghost predicate NodesAppended(a: Arena, ch: seq<nat>, h: nat, hit: Option<nat>, s: int, b: Arena)
    requires h <= |ch| && forall k :: 0 <= k < |ch| ==> ch[k] < |a|
    requires |b| == |a| + h
  {
    && (forall n :: |a| <= n < |b| ==>
          && b[n].symbol == s && b[n].count == 1 && b[n].children == []
          && b[n].depth == a[ch[|a| + h - 1 - n]].depth + 1)
    && (forall n :: |a| < n < |b| ==> b[n].backoff == Some(n - 1))
    && (h > 0 ==> b[|a|].backoff == if hit.Some? then hit else Some(Root))
  }

  /**
    What inserting `s` changes on the way from `a` to `b`, when the insertion
    walks past the first `h` nodes of `ch` and stops at a node whose `s`-child
    is `hit` (`None` when it walks off the end): one new node per node walked
    past, and the count of `hit`.
   */
  ghost predicate InsertChangesAt(a: Arena, ch: seq<nat>, h: nat, hit: Option<nat>, s: int, b: Arena)
    requires h <= |ch| && forall k :: 0 <= k < |ch| ==> ch[k] < |a|
  {
    && |b| == |a| + h
    && CountsRaised(a, hit, b)
    && ListsExtended(a, ch, h, b)
    && NodesAppended(a, ch, h, hit, s, b)
  }

  /** How many nodes of `ch` an insertion of `s` walks past: those before the first hit. */
  function Walked(a: Arena, ch: seq<nat>, s: int): (h: nat)
    requires Valid(a) && forall j :: 0 <= j < |ch| ==> ch[j] < |a|
    ensures h <= |ch|
  {
    var j := FirstHit(a, ch, s);
    if j.Some? then j.value else |ch|
  }

  /** The `s`-child of the first node of `ch` that has one, if any. */
  function HitOf(a: Arena, ch: seq<nat>, s: int): Option<nat>
    requires Valid(a) && forall j :: 0 <= j < |ch| ==> ch[j] < |a|
  {
    var j := FirstHit(a, ch, s);
    if j.Some? then FindChild(a, ch[j.value], s) else None
  }

  /** A node without an `s`-child in front of `ch` is walked past, and the hit stays. */
  lemma WalkCons(a: Arena, p: nat, tail: seq<nat>, s: int)
    requires Valid(a) && p < |a| && forall j :: 0 <= j < |tail| ==> tail[j] < |a|
    requires FindChild(a, p, s).None?
    ensures Walked(a, [p] + tail, s) == Walked(a, tail, s) + 1
    ensures HitOf(a, [p] + tail, s) == HitOf(a, tail, s)
  {
    var ch := [p] + tail;
    assert ch[0] == p && ch[1..] == tail;
    var jt := FirstHit(a, tail, s);
    if jt.Some? {
      assert ch[jt.value + 1] == tail[jt.value];
    }
  }

  /** The walk stops at once exactly when the first node has an `s`-child, which is then the hit. */
  lemma WalkStops(a: Arena, ch: seq<nat>, s: int)
    requires Valid(a) && |ch| > 0 && forall j :: 0 <= j < |ch| ==> ch[j] < |a|
    ensures Walked(a, ch, s) == 0 <==> FindChild(a, ch[0], s).Some?
    ensures Walked(a, ch, s) == 0 ==> HitOf(a, ch, s) == FindChild(a, ch[0], s)
  {
  }

  /**
    Everything an insertion of `s` below `p` changes: the walk goes along the
    backoff chain of `p` up to its first node with an `s`-child, whose
    `s`-child is the hit.
   */
  ghost predicate InsertChanges(a: Arena, p: nat, s: int, b: Arena)
    requires Valid(a) && p < |a|
  {
    var ch := Chain(a, Some(p));
    InsertChangesAt(a, ch, Walked(a, ch, s), HitOf(a, ch, s), s, b)
  }

  /** An existing child is the first hit, at the very start of the chain: nothing is created. */
  lemma CountsAtFound(a: Arena, p: nat, s: int, c: nat)
    requires Valid(a) && p < |a|
    requires FindChild(a, p, s) == Some(c)
    ensures InsertChanges(a, p, s, Bump(a, c))
  {
    var ch := Chain(a, Some(p));
    assert ch[0] == p;
    assert FirstHit(a, ch, s) == Some(0);
    assert ch[..0] == [];
  }

  /** Below the root the chain is the root alone, and it has no `s`-child. */
  lemma CountsAtRoot(a: Arena, s: int)
    requires Valid(a) && FindChild(a, Root, s).None?
    ensures InsertChanges(a, Root, s, Link(a, Root, NewChild(a, Root, s, Root)))
  {
    var ch := Chain(a, Some(Root));
    assert ch == [Root];
    assert FirstHit(a, ch, s) == None by {
      assert ch[1..] == [];
    }
    assert ch[..1] == [Root];
    LinkShape(a, Root, NewChild(a, Root, s, Root));
  }

  /** Linking a new child under `p` changes no count of `a`. */
  lemma CountsCons(a: Arena, p: nat, hit: Option<nat>, a1: Arena, node: Node)
    requires p < |a| <= |a1|
    requires CountsRaised(a, hit, a1)
    ensures CountsRaised(a, hit, Link(a1, p, node))
  {
    LinkShape(a1, p, node);
  }

  /** Linking a new child under `p`, in front of the walk, extends the lists by one more. */
  lemma ListsCons(a: Arena, p: nat, tail: seq<nat>, h: nat, a1: Arena, node: Node)
    requires p < |a| && h <= |tail| && forall k :: 0 <= k < |tail| ==> tail[k] < |a|
    requires p !in tail && |a1| == |a| + h
    requires ListsExtended(a, tail, h, a1)
    ensures ListsExtended(a, [p] + tail, h + 1, Link(a1, p, node))
  {
    var ch := [p] + tail;
    var a2 := Link(a1, p, node);
    LinkShape(a1, p, node);
    forall k | 0 <= k < h + 1
      ensures a2[ch[k]].children == [|a| + h - k] + a[ch[k]].children
    {
      if k > 0 {
        assert ch[k] == tail[k - 1] && tail[k - 1] != p;
      }
    }
    assert ch[..h + 1] == [p] + tail[..h];
    forall i | 0 <= i < |a| && i !in ch[..h + 1]
      ensures a2[i].children == a[i].children
    {
      assert i != p && i !in tail[..h];
    }
  }

  /** The new child of `p`, linked to `b`, is appended on top of the lower new nodes. */
  lemma NodesCons(a: Arena, p: nat, tail: seq<nat>, h: nat, hit: Option<nat>, s: int, a1: Arena, b: nat)
    requires p < |a| && h <= |tail| && forall k :: 0 <= k < |tail| ==> tail[k] < |a|
    requires |a1| == |a| + h
    requires NodesAppended(a, tail, h, hit, s, a1)
    requires h == 0 ==> Some(b) == (if hit.Some? then hit else Some(Root))
    requires h > 0 ==> b + 1 == |a1|
    ensures NodesAppended(a, [p] + tail, h + 1, hit, s, Link(a1, p, NewChild(a, p, s, b)))
  {
    var ch := [p] + tail;
    var a2 := Link(a1, p, NewChild(a, p, s, b));
    LinkShape(a1, p, NewChild(a, p, s, b));
    forall n | |a| <= n < |a2|
      ensures a2[n].symbol == s && a2[n].count == 1 && a2[n].children == []
      ensures a2[n].depth == a[ch[|a| + h - n]].depth + 1
    {
      if n < |a1| {
        assert a2[n] == a1[n];
        assert ch[|a| + h - n] == tail[|a| + h - 1 - n];
      }
    }
    forall n | |a| < n < |a2|
      ensures a2[n].backoff == Some(n - 1)
    {
      if n < |a1| {
        assert a2[n] == a1[n];
      }
    }
    if h > 0 {
      assert a2[|a|] == a1[|a|];
    }
  }

  /**
    Putting one more node `p` in front of the walk, so that `ch` is `p`
    followed by `tail`, adds its new head child on top.
   */
  lemma ChangesCons(a: Arena, p: nat, tail: seq<nat>, h: nat, hit: Option<nat>, s: int, a1: Arena, b: nat,
                    ch: seq<nat>, h': nat)
    requires p < |a| && h <= |tail| && forall k :: 0 <= k < |tail| ==> tail[k] < |a|
    requires p !in tail && ch == [p] + tail && h' == h + 1
    requires InsertChangesAt(a, tail, h, hit, s, a1)
    requires h == 0 ==> Some(b) == (if hit.Some? then hit else Some(Root))
    requires h > 0 ==> b + 1 == |a1|
    ensures InsertChangesAt(a, ch, h', hit, s, Link(a1, p, NewChild(a, p, s, b)))
  {
    LinkShape(a1, p, NewChild(a, p, s, b));
    CountsCons(a, p, hit, a1, NewChild(a, p, s, b));
    ListsCons(a, p, tail, h, a1, NewChild(a, p, s, b));
    NodesCons(a, p, tail, h, hit, s, a1, b);
  }

  /**
    A miss at `p` adds one node, the new head child of `p`, on top of what the
    insertion one order lower left; it backs off to the child `b` that
    insertion returned.
   */
  lemma CountsAfterMiss(a: Arena, p: nat, s: int, a1: Arena, b: nat)
    requires Valid(a) && p < |a| && p != Root
    requires FindChild(a, p, s).None?
    requires a[p].backoff.Some? && a[p].backoff.value < |a|
    requires InsertChanges(a, a[p].backoff.value, s, a1)
    requires FindChild(a, a[p].backoff.value, s).Some? ==> Some(b) == FindChild(a, a[p].backoff.value, s)
    requires FindChild(a, a[p].backoff.value, s).None? ==> b + 1 == |a1|
    ensures p < |a1| && InsertChanges(a, p, s, Link(a1, p, NewChild(a, p, s, b)))
  {
    var q := a[p].backoff.value;
    var tail := Chain(a, Some(q));
    ChainCons(a, p);
    WalkCons(a, p, tail, s);
    WalkStops(a, tail, s);
    var ch := Chain(a, Some(p));
    ChangesCons(a, p, tail, Walked(a, tail, s), HitOf(a, tail, s), s, a1, b, ch, Walked(a, ch, s));
  }

  /** The chain of a non-root node is the node followed by the chain of its backoff, which avoids it. */
  lemma ChainCons(a: Arena, p: nat)
    requires Valid(a) && p < |a| && p != Root
    requires a[p].backoff.Some? && a[p].backoff.value < |a|
    ensures Chain(a, Some(p)) == [p] + Chain(a, a[p].backoff)
    ensures p !in Chain(a, a[p].backoff)
  {
    var q := a[p].backoff.value;
    var tail := Chain(a, Some(q));
    assert a[q].depth + 1 == a[p].depth by {
      assert NodeOk(a, p);
    }
    assert |tail| == a[p].depth;
    forall k | 0 <= k < |tail|
      ensures tail[k] != p
    {
      assert a[tail[k]].depth == |tail| - 1 - k;
    }
  }

  /**
    Records one occurrence of `s` below node `p` (`addSymbolToNode_`). An existing
    child only has its count raised. Otherwise a new child with count 1 is put at
    the head of the child list; its backoff is the root when `p` is the root, and
    otherwise the `s`-child of `p`'s backoff, obtained by the same insertion one
    order lower. Returns the new arena and the child.
   */
  function AddSymbolToNode(a: Arena, p: nat, s: int): (r: (Arena, nat))
    requires Valid(a) && p < |a| && s >= 1
    ensures InsertPost(a, p, s, r)
    decreases a[p].depth
  {
    match FindChild(a, p, s)
    case Some(c) =>
      InsertFound(a, p, s, c);
      (Bump(a, c), c)
    case None =>
      assert NodeOk(a, p);
      DepthZeroIsRoot(a, p);
      var (a1, b) := if p == Root then (a, Root) else AddSymbolToNode(a, a[p].backoff.value, s);
      LowerInsertDoneFromPost(a, p, s, a1, b);
      InsertNew(a, p, s, a1, b);
      (Link(a1, p, NewChild(a, p, s, b)), |a1|)
  }

  /** An insertion changes exactly what `InsertChanges` names, and nothing else. */
  lemma {:induction false} AddSymbolToNodeCounts(a: Arena, p: nat, s: int)
    requires Valid(a) && p < |a| && s >= 1
    ensures InsertChanges(a, p, s, AddSymbolToNode(a, p, s).0)
    decreases a[p].depth
  {
    match FindChild(a, p, s)
    case Some(c) =>
      CountsAtFound(a, p, s, c);
    case None =>
      assert NodeOk(a, p);
      DepthZeroIsRoot(a, p);
      if p == Root {
        CountsAtRoot(a, s);
      } else {
        var q := a[p].backoff.value;
        AddSymbolToNodeCounts(a, q, s);
        var (a1, b) := AddSymbolToNode(a, q, s);
        CountsAfterMiss(a, p, s, a1, b);
      }
  }

  /** The root is nobody's child, so no insertion changes its count. */
  lemma InsertKeepsRootCount(a: Arena, p: nat, s: int)
    requires Valid(a) && p < |a| && s >= 1
    ensures AddSymbolToNode(a, p, s).0[Root].count == a[Root].count
  {
    AddSymbolToNodeCounts(a, p, s);
    var ch := Chain(a, Some(p));
    var b := AddSymbolToNode(a, p, s).0;
    var j := FirstHit(a, ch, s);
    if j.Some? {
      assert FindChild(a, ch[j.value], s) != Some(Root);
    }
    assert HitOf(a, ch, s) != Some(Root);
    assert CountsRaised(a, HitOf(a, ch, s), b);
  }

  /** Every node an insertion of `s` creates carries the symbol `s`. */
  lemma {:induction false} AddSymbolToNodeNewSymbols(a: Arena, p: nat, s: int)
    requires Valid(a) && p < |a| && s >= 1
    ensures |a| <= |AddSymbolToNode(a, p, s).0|
    ensures forall i :: |a| <= i < |AddSymbolToNode(a, p, s).0| ==> AddSymbolToNode(a, p, s).0[i].symbol == s
    decreases a[p].depth
  {
    if FindChild(a, p, s).None? {
      assert NodeOk(a, p);
      DepthZeroIsRoot(a, p);
      if p != Root {
        AddSymbolToNodeNewSymbols(a, a[p].backoff.value, s);
      }
      var (a1, b) := if p == Root then (a, Root) else AddSymbolToNode(a, a[p].backoff.value, s);
      LinkSymbols(a, a1, p, NewChild(a, p, s, b));
    }
  }

  /** Linking a node with symbol `s` keeps every node past `|a|` at symbol `s`. */
  lemma LinkSymbols(a: Arena, a1: Arena, p: nat, node: Node)
    requires p < |a| <= |a1|
    requires forall i :: |a| <= i < |a1| ==> a1[i].symbol == node.symbol
    ensures forall i :: |a| <= i < |Link(a1, p, node)| ==> Link(a1, p, node)[i].symbol == node.symbol
  {
  }
}

/**
  The backoff-link invariant of the trie: the backoff of a child of the root is
  the root, and the backoff of the `s`-child of any other node `p` is the
  `s`-child of `p`'s own backoff. Insertion keeps it.
 */
module TrieLinks {
  import opened Wrappers
  import opened Trie

  /** The invariant for the `k`-th child of `p`. */
  ghost predicate LinkOk(a: Arena, p: nat, k: nat)
    requires Valid(a) && p < |a| && k < |a[p].children|
  {
    assert NodeOk(a, p);
    var c := a[p].children[k];
    if p == Root then a[c].backoff == Some(Root)
    else
      && a[p].backoff.Some?
      && a[p].backoff.value < |a|
      && FindChild(a, a[p].backoff.value, a[c].symbol) == a[c].backoff
  }

  ghost predicate Linked(a: Arena)
    requires Valid(a)
  {
    forall p: nat, k: nat :: p < |a| && k < |a[p].children| ==> LinkOk(a, p, k)
  }

  /** The root alone is linked. */
  lemma NewTrieLinked()
    ensures Linked(NewTrie())
  {
  }

  /** A lookup in a list that gained a head with another symbol finds what it found before. */
  lemma FindChildPastNewHead(a1: Arena, a2: Arena, p: nat, s: int)
    requires Valid(a1) && Valid(a2) && Grows(a1, a2) && p < |a1|
    requires a2[p].children == [|a1|] + a1[p].children
    requires |a1| < |a2| && a2[|a1|].symbol != s
    ensures FindChild(a2, p, s) == FindChild(a1, p, s)
  {
    assert NodeOk(a1, p);
    assert NodeOk(a2, p);
    var cs := a1[p].children;
    assert ([|a1|] + cs)[1..] == cs;
    assert forall k :: 0 <= k < |cs| ==> NodeGrows(a1[cs[k]], a2[cs[k]]);
    FindInSameSymbols(a1, a2, cs, s);
  }

  lemma BumpKeepsLinked(a: Arena, c: nat)
    requires Valid(a) && c < |a| && Linked(a)
    ensures Valid(Bump(a, c)) && Linked(Bump(a, c))
  {
    var b := Bump(a, c);
    BumpKeepsValid(a, c);
    forall p: nat, k: nat | p < |b| && k < |b[p].children|
      ensures LinkOk(b, p, k)
    {
      assert LinkOk(a, p, k);
      assert NodeOk(a, p);
      if p != Root {
        FindChildFrame(a, b, a[p].backoff.value, a[a[p].children[k]].symbol);
      }
    }
  }

  /** The facts about `a2`, the arena `a1` after a new `s`-child `|a1|` was put at the head of `p`'s children. */
  ghost predicate Relinked(a1: Arena, a2: Arena, p: nat, s: int)
  {
    && Valid(a1) && Valid(a2) && Grows(a1, a2) && Linked(a1)
    && p < |a1| && |a2| == |a1| + 1
    && FindChild(a1, p, s).None?
    && a2[p].children == [|a1|] + a1[p].children
    && (forall i :: 0 <= i < |a1| && i != p ==> a2[i] == a1[i])
    && a2[|a1|].symbol == s && a2[|a1|].children == []
    && (p == Root ==> a2[|a1|].backoff == Some(Root))
    && (p != Root ==> a1[p].backoff.Some? && a1[p].backoff.value < |a2| &&
                      a2[|a1|].backoff == FindChild(a2, a1[p].backoff.value, s))
  }

  /** The link of the new child itself. */
  lemma NewChildLinkOk(a1: Arena, a2: Arena, p: nat, s: int)
    requires Relinked(a1, a2, p, s)
    ensures LinkOk(a2, p, 0)
  {
    assert NodeGrows(a1[p], a2[p]);
  }

  /** The link of an old child `c` of `p'`, kept at position `k` in `a2`. */
  lemma OldChildLinkOk(a1: Arena, a2: Arena, p: nat, s: int, p': nat, k': nat, k: nat)
    requires Relinked(a1, a2, p, s)
    requires p' < |a1| && k' < |a1[p'].children| && k < |a2[p'].children|
    requires a2[p'].children[k] == a1[p'].children[k']
    ensures LinkOk(a2, p', k)
  {
    assert LinkOk(a1, p', k');
    assert NodeOk(a1, p');
    var c := a1[p'].children[k'];
    assert NodeGrows(a1[c], a2[c]);
    assert NodeGrows(a1[p'], a2[p']);
    if p' != Root {
      var x := a1[p'].backoff.value;
      if x == p {
        assert a1[c].symbol != s by {
          assert NodeOk(a1, c);
        }
        FindChildPastNewHead(a1, a2, p, a1[c].symbol);
      } else {
        assert a2[x] == a1[x];
        FindChildFrame(a1, a2, x, a1[c].symbol);
      }
    }
  }

  lemma LinkOkAfterLink(a1: Arena, a2: Arena, p: nat, s: int, p': nat, k: nat)
    requires Relinked(a1, a2, p, s)
    requires p' < |a2| && k < |a2[p'].children|
    ensures LinkOk(a2, p', k)
  {
    if p' == p && k == 0 {
      NewChildLinkOk(a1, a2, p, s);
    } else {
      assert p' < |a1| by {
        assert a2[|a1|].children == [];
      }
      var k' := if p' == p then k - 1 else k;
      assert k' < |a1[p'].children| && a2[p'].children[k] == a1[p'].children[k'];
      OldChildLinkOk(a1, a2, p, s, p', k', k);
    }
  }

  lemma LinkKeepsLinked(a: Arena, p: nat, s: int, a1: Arena, b: nat)
    requires Valid(a) && p < |a| && s >= 1
    requires FindChild(a, p, s).None?
    requires LowerInsertDone(a, p, s, a1, b)
    requires Linked(a1)
    ensures p < |a1| && Valid(Link(a1, p, NewChild(a, p, s, b)))
    ensures Linked(Link(a1, p, NewChild(a, p, s, b)))
  {
    InsertNew(a, p, s, a1, b);
    LinkStepValid(a, p, s, a1, b);
    var n := |a1|;
    var a2 := Link(a1, p, NewChild(a, p, s, b));
    assert Grows(a1, a2) by {
      forall i | 0 <= i < |a1|
        ensures NodeGrows(a1[i], a2[i])
      {
        assert a2[i].children[|a2[i].children| - |a1[i].children|..] == a1[i].children;
      }
    }
    assert a1[p].children == a[p].children && a1[p].backoff == a[p].backoff by {
      assert NodeGrows(a[p], a1[p]);
    }
    assert FindChild(a1, p, s).None? by {
      FindChildFrame(a, a1, p, s);
    }
    assert Relinked(a1, a2, p, s);
    forall p': nat, k: nat | p' < |a2| && k < |a2[p'].children|
      ensures LinkOk(a2, p', k)
    {
      LinkOkAfterLink(a1, a2, p, s, p', k);
    }
  }

  /** Insertion keeps the backoff-link invariant. */
  lemma {:induction false} AddSymbolToNodeKeepsLinked(a: Arena, p: nat, s: int)
    requires Valid(a) && p < |a| && s >= 1 && Linked(a)
    ensures Valid(AddSymbolToNode(a, p, s).0) && Linked(AddSymbolToNode(a, p, s).0)
    decreases a[p].depth
  {
    match FindChild(a, p, s)
    case Some(c) =>
      BumpKeepsLinked(a, c);
    case None =>
      assert NodeOk(a, p);
      DepthZeroIsRoot(a, p);
      if p != Root {
        AddSymbolToNodeKeepsLinked(a, a[p].backoff.value, s);
      }
      var (a1, b) := if p == Root then (a, Root) else AddSymbolToNode(a, a[p].backoff.value, s);
      LowerInsertDoneFromPost(a, p, s, a1, b);
      LinkKeepsLinked(a, p, s, a1, b);
  }
}
