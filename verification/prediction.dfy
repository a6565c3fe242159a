/**
  Prediction (`getProbs`): the distribution over the next symbol read off the
  trie from a cursor. Arithmetic is over exact reals.
 */
module Prediction {
  import opened Wrappers
  import Vocabulary
  import opened Trie
  import opened PpmModel

  // ---------------------------------------------------------------------------
  // Reference definition

  /** Total count of the nodes of `cs` that carry `symbol`. */
  function CountOf(a: Arena, cs: seq<nat>, symbol: int): nat
    requires InRange(a, cs)
    decreases |cs|
  {
    if |cs| == 0 then 0
    else
      var last := a[cs[|cs| - 1]];
      CountOf(a, cs[..|cs| - 1], symbol) + (if last.symbol == symbol then last.count else 0)
  }

  /** Extending a list by one node adds that node's count to its own symbol only. */
  lemma CountsSnoc(a: Arena, cs: seq<nat>, i: nat)
    requires InRange(a, cs) && i < |cs|
    ensures InRange(a, cs[..i]) && InRange(a, cs[..i + 1])
    ensures forall k :: CountOf(a, cs[..i + 1], k) ==
                          CountOf(a, cs[..i], k) + (if a[cs[i]].symbol == k then a[cs[i]].count else 0)
    ensures SumCounts(a, cs[..i + 1], None) == SumCounts(a, cs[..i], None) + a[cs[i]].count
  {
    assert cs[..i + 1][..i] == cs[..i];
  }

  /** With distinct symbols, the tally of a node's symbol is that node's count. */
  lemma {:induction false} CountOfDistinct(a: Arena, cs: seq<nat>, j: nat)
    requires InRange(a, cs) && DistinctSymbols(a, cs) && j < |cs|
    ensures CountOf(a, cs, a[cs[j]].symbol) == a[cs[j]].count
    decreases |cs|
  {
    var n := |cs| - 1;
    var init := cs[..n];
    assert InRange(a, init) && DistinctSymbols(a, init);
    if j < n {
      assert init[j] == cs[j];
      CountOfDistinct(a, init, j);
    } else {
      CountOfAbsent(a, init, a[cs[j]].symbol);
    }
  }

  /** A symbol no node of `cs` carries has tally 0. */
  lemma {:induction false} CountOfAbsent(a: Arena, cs: seq<nat>, symbol: int)
    requires InRange(a, cs)
    requires forall k :: 0 <= k < |cs| ==> a[cs[k]].symbol != symbol
    ensures CountOf(a, cs, symbol) == 0
    decreases |cs|
  {
    if |cs| > 0 {
      CountOfAbsent(a, cs[..|cs| - 1], symbol);
    }
  }

  /** The position of the first node of `ch` that has any children. */
  function FirstFull(a: Arena, ch: seq<nat>): (r: Option<nat>)
    requires InRange(a, ch)
    ensures r.None? <==> forall j :: 0 <= j < |ch| ==> a[ch[j]].children == []
    ensures r.Some? ==> r.value < |ch| && a[ch[r.value]].children != []
    ensures r.Some? ==> forall i :: 0 <= i < r.value ==> a[ch[i]].children == []
    decreases |ch|
  {
    if |ch| == 0 then None
    else if a[ch[0]].children != [] then Some(0)
    else
      assert forall j :: 1 <= j < |ch| ==> ch[j] == ch[1..][j - 1];
      match FirstFull(a, ch[1..])
      case None => None
      case Some(j) => Some(j + 1)
  }

  /**
    The first node of the backoff chain from `node` that has any children: no
    node before it on the chain has any, and there is none exactly when no node
    of the chain has children.
   */
  function FirstWithChildren(a: Arena, node: Option<nat>): (r: Option<nat>)
    requires Valid(a) && (node.Some? ==> node.value < |a|)
    ensures r.None? <==> forall j :: 0 <= j < |Chain(a, node)| ==> a[Chain(a, node)[j]].children == []
    ensures r.Some? ==> r.value < |a| && a[r.value].children != []
    ensures r.Some? ==> exists j :: 0 <= j < |Chain(a, node)| && Chain(a, node)[j] == r.value &&
                                    forall i :: 0 <= i < j ==> a[Chain(a, node)[i]].children == []
  {
    var ch := Chain(a, node);
    match FirstFull(a, ch)
    case None => None
    case Some(j) =>
      assert ch == Chain(a, node) && ch[j] == ch[j];
      Some(ch[j])
  }

  /** A node with children is its own first node with children. */
  lemma FirstWithChildrenHere(a: Arena, n: nat)
    requires Valid(a) && n < |a| && a[n].children != []
    ensures FirstWithChildren(a, Some(n)) == Some(n)
  {
    assert Chain(a, Some(n))[0] == n;
  }

  /** A childless node defers to its backoff. */
  lemma FirstWithChildrenNext(a: Arena, n: nat)
    requires Valid(a) && n < |a| && a[n].children == []
    ensures a[n].backoff.Some? ==> a[n].backoff.value < |a|
    ensures FirstWithChildren(a, Some(n)) == FirstWithChildren(a, a[n].backoff)
  {
    assert NodeOk(a, n);
    var ch := Chain(a, Some(n));
    var tail := Chain(a, a[n].backoff);
    assert ch == [n] + tail;
    assert ch[1..] == tail;
  }

  /** Each symbol's share of the counts of the children of `q`. */
  function ChildDistribution(a: Arena, q: nat, n: nat): (d: seq<real>)
    requires Valid(a) && q < |a| && a[q].children != []
  {
    assert NodeOk(a, q);
    var total := TotalChildrenCounts(a, q, None);
    seq(n, k => CountOf(a, a[q].children, k) as real / total as real)
  }

  /**
    The distribution the source's blending produces, stated directly: the
    shares of the children of the first node on the backoff chain of `node`
    that has children, or all zeros when no node of the chain has any.
   */
  function Blended(a: Arena, node: Option<nat>, n: nat): seq<real>
    requires Valid(a) && (node.Some? ==> node.value < |a|)
  {
    match FirstWithChildren(a, node)
    case None => seq(n, k => 0.0)
    case Some(q) => ChildDistribution(a, q, n)
  }

  /** The sum of a sequence of reals. */
  function Sum(xs: seq<real>): real
    decreases |xs|
  {
    if |xs| == 0 then 0.0 else Sum(xs[..|xs| - 1]) + xs[|xs| - 1]
  }

  /** Raising one entry raises the sum by the same amount. */
  lemma {:induction false} SumUpdate(xs: seq<real>, j: nat, d: real)
    requires j < |xs|
    ensures Sum(xs[j := xs[j] + d]) == Sum(xs) + d
    decreases |xs|
  {
    var ys := xs[j := xs[j] + d];
    var n := |xs| - 1;
    if j < n {
      assert ys[..n] == xs[..n][j := xs[j] + d];
      SumUpdate(xs[..n], j, d);
    } else {
      assert ys[..n] == xs[..n];
    }
  }

  /** All zeros sum to zero. */
  lemma {:induction false} SumZeros(n: nat)
    ensures Sum(seq(n, k => 0.0)) == 0.0
  {
    if n > 0 {
      assert seq(n, k => 0.0)[..n - 1] == seq(n - 1, k => 0.0);
      SumZeros(n - 1);
    }
  }

  /** The shares read off `q` form one entry per symbol, none negative, nothing on the root symbol. */
  lemma ChildDistributionShape(a: Arena, q: nat, n: nat)
    requires Valid(a) && q < |a| && a[q].children != [] && n >= 1
    ensures |ChildDistribution(a, q, n)| == n
    ensures ChildDistribution(a, q, n)[0] == 0.0
    ensures forall k :: 0 <= k < n ==> ChildDistribution(a, q, n)[k] >= 0.0
  {
    assert NodeOk(a, q);
    CountOfAbsent(a, a[q].children, 0);
  }

  /**
    A child's symbol gets that child's count over the total of its siblings,
    and a symbol no child carries gets 0.
   */
  lemma ChildDistributionShares(a: Arena, q: nat, n: nat)
    requires Valid(a) && q < |a| && a[q].children != []
    ensures InRange(a, a[q].children)
    ensures forall j :: 0 <= j < |a[q].children| && 0 <= a[a[q].children[j]].symbol < n ==>
              ChildDistribution(a, q, n)[a[a[q].children[j]].symbol] ==
                a[a[q].children[j]].count as real / TotalChildrenCounts(a, q, None) as real
    ensures forall k :: 0 <= k < n && (forall j :: 0 <= j < |a[q].children| ==> a[a[q].children[j]].symbol != k) ==>
              ChildDistribution(a, q, n)[k] == 0.0
  {
    assert NodeOk(a, q);
    var cs := a[q].children;
    var d := ChildDistribution(a, q, n);
    forall j | 0 <= j < |cs| && 0 <= a[cs[j]].symbol < n
      ensures d[a[cs[j]].symbol] == a[cs[j]].count as real / TotalChildrenCounts(a, q, None) as real
    {
      CountOfDistinct(a, cs, j);
    }
    forall k | 0 <= k < n && (forall j :: 0 <= j < |cs| ==> a[cs[j]].symbol != k)
      ensures d[k] == 0.0
    {
      CountOfAbsent(a, cs, k);
    }
  }

  /** The blended distribution has one entry per symbol, none negative, nothing on the root symbol. */
  lemma BlendedShape(a: Arena, node: Option<nat>, n: nat)
    requires Valid(a) && (node.Some? ==> node.value < |a|) && n >= 1
    ensures |Blended(a, node, n)| == n
    ensures Blended(a, node, n)[0] == 0.0
    ensures forall k :: 0 <= k < n ==> Blended(a, node, n)[k] >= 0.0
    ensures FirstWithChildren(a, node).None? ==> forall k :: 0 <= k < n ==> Blended(a, node, n)[k] == 0.0
    ensures FirstWithChildren(a, node).Some? ==>
              Blended(a, node, n) == ChildDistribution(a, FirstWithChildren(a, node).value, n)
  {
    if FirstWithChildren(a, node).Some? {
      ChildDistributionShape(a, FirstWithChildren(a, node).value, n);
    }
  }

  // ---------------------------------------------------------------------------
  // The computation

  /**
    The inner loop of `getProbs` over the child list `cs`, whose counts total
    `count`: every child adds `gamma` times its share to its symbol's entry and
    takes the same amount off `mass`. Altogether `gamma` moves from `mass` into
    the entries.
   */
  method AddShares(a: Arena, cs: seq<nat>, count: nat, probs0: seq<real>, mass0: real, gamma: real)
    returns (probs: seq<real>, mass: real)
    requires InRange(a, cs) && count == SumCounts(a, cs, None) && count > 0
    requires forall k :: 0 <= k < |cs| ==> 0 <= a[cs[k]].symbol < |probs0|
    ensures |probs| == |probs0|
    ensures forall k :: 0 <= k < |probs| ==> probs[k] == probs0[k] + Share(gamma, CountOf(a, cs, k), count)
    ensures mass == mass0 - gamma
    ensures Sum(probs) == Sum(probs0) + gamma
  {
    probs, mass := probs0, mass0;
    var i := 0;
    assert cs[..0] == [];
    ShareFacts(gamma, 0, count);
    while i < |cs|
      invariant 0 <= i <= |cs| && |probs| == |probs0|
      invariant InRange(a, cs[..i])
      invariant forall k :: 0 <= k < |probs| ==> probs[k] == probs0[k] + Share(gamma, CountOf(a, cs[..i], k), count)
      invariant mass == mass0 - Share(gamma, SumCounts(a, cs[..i], None), count)
      invariant Sum(probs) == Sum(probs0) + Share(gamma, SumCounts(a, cs[..i], None), count)
    {
      var c := cs[i];
      var symbol := a[c].symbol;
      var share := Share(gamma, a[c].count, count);
      CountsSnoc(a, cs, i);
      SumUpdate(probs, symbol, share);
      ShareAdd(gamma, SumCounts(a, cs[..i], None), a[c].count, count);
      forall k | 0 <= k < |probs|
        ensures Share(gamma, CountOf(a, cs[..i + 1], k), count) ==
                Share(gamma, CountOf(a, cs[..i], k), count) + (if k == symbol then share else 0.0)
      {
        if k == symbol {
          ShareAdd(gamma, CountOf(a, cs[..i], k), a[c].count, count);
        }
      }
      probs := probs[symbol := probs[symbol] + share];
      mass := mass - share;
      i := i + 1;
    }
    assert cs[..i] == cs;
    ShareFacts(gamma, 0, count);
  }

  /** The part of `g` that `c` out of `t` claims. */
  function Share(g: real, c: nat, t: nat): real
    requires t > 0
  {
    g * (c as real) / (t as real)
  }

  lemma ShareAdd(g: real, x: nat, y: nat, t: nat)
    requires t > 0
    ensures Share(g, x + y, t) == Share(g, x, t) + Share(g, y, t)
  {
  }

  lemma ShareFacts(g: real, c: nat, t: nat)
    requires t > 0
    ensures Share(g, t, t) == g && Share(g, 0, t) == 0.0
    ensures Share(1.0, c, t) == c as real / t as real && Share(0.0, c, t) == 0.0
  {
  }

  /** Handing out all of a unit mass over zeros gives the shares read off `q`. */
  lemma FirstShares(a: Arena, q: nat, n: nat, probs: seq<real>)
    requires Valid(a) && q < |a| && a[q].children != [] && InRange(a, a[q].children)
    requires |probs| == n
    requires forall k :: 0 <= k < n ==>
               probs[k] == seq(n, k => 0.0)[k] + Share(1.0, CountOf(a, a[q].children, k), TotalChildrenCounts(a, q, None))
    ensures probs == ChildDistribution(a, q, n)
  {
    var d := ChildDistribution(a, q, n);
    forall k | 0 <= k < n
      ensures probs[k] == d[k]
    {
      ShareFacts(1.0, CountOf(a, a[q].children, k), TotalChildrenCounts(a, q, None));
    }
  }

  /**
    `getProbs`: walks the backoff chain from the cursor's head. Each node with
    children hands out `gamma` (the mass still unassigned) in proportion to its
    child counts; `gamma` is then reset to the remaining mass. The first such
    node assigns all of the mass, so the result is `Blended`, and it sums to 1
    exactly when some node on the chain has children.
   */
  method GetProbs(m: Model, ctx: Context) returns (probs: seq<real>)
    requires ValidModel(m) && ValidContext(m.nodes, ctx)
    ensures probs == Blended(m.nodes, ctx.head, Vocabulary.Size(m.vocab))
    ensures |probs| == Vocabulary.Size(m.vocab)
    ensures probs[0] == 0.0 && forall k :: 0 <= k < |probs| ==> probs[k] >= 0.0
    ensures FirstWithChildren(m.nodes, ctx.head).Some? ==> Sum(probs) == 1.0
    ensures FirstWithChildren(m.nodes, ctx.head).None? ==> forall k :: 0 <= k < |probs| ==> probs[k] == 0.0
  {
    probs := BlendAlongChain(m.nodes, ctx.head, Vocabulary.Size(m.vocab));
    BlendedShape(m.nodes, ctx.head, Vocabulary.Size(m.vocab));
  }

  /**
    What holds between two nodes of the walk: until the first node with
    children is reached nothing is added and all mass remains; from then on
    `probs` is the blended distribution and no mass remains.
   */
  ghost predicate Walking(a: Arena, head: Option<nat>, n: nat, node: Option<nat>,
                          probs: seq<real>, totalMass: real, found: bool)
  {
    && Valid(a) && SymbolsBelow(a, n)
    && (head.Some? ==> head.value < |a|)
    && (node.Some? ==> node.value < |a|)
    && |probs| == n
    && totalMass == 1.0 - Sum(probs)
    && (found ==> FirstWithChildren(a, head).Some? && probs == Blended(a, head, n) && totalMass == 0.0)
    && (!found ==> probs == seq(n, k => 0.0) && totalMass == 1.0 &&
                   FirstWithChildren(a, head) == FirstWithChildren(a, node))
  }

  /** A node without children adds nothing and hands the walk to its backoff. */
  lemma WalkPastChildless(a: Arena, head: Option<nat>, n: nat, p: nat,
                          probs: seq<real>, totalMass: real, found: bool)
    requires Walking(a, head, n, Some(p), probs, totalMass, found)
    requires a[p].children == []
    ensures Walking(a, head, n, a[p].backoff, probs, totalMass, found)
  {
    FirstWithChildrenNext(a, p);
  }

  /** After the first node with children no mass remains, so later nodes add zero. */
  lemma WalkAfterFound(a: Arena, head: Option<nat>, n: nat, p: nat, count: nat,
                       probs: seq<real>, totalMass: real, probs': seq<real>, totalMass': real)
    requires p < |a| && InRange(a, a[p].children)
    requires Walking(a, head, n, Some(p), probs, totalMass, true)
    requires count > 0 && |probs'| == |probs|
    requires forall k :: 0 <= k < |probs'| ==>
               probs'[k] == probs[k] + Share(totalMass, CountOf(a, a[p].children, k), count)
    requires totalMass' == totalMass - totalMass
    requires Sum(probs') == Sum(probs) + totalMass
    ensures Walking(a, head, n, a[p].backoff, probs', totalMass', true)
  {
    assert NodeOk(a, p);
    forall k | 0 <= k < n
      ensures probs'[k] == probs[k]
    {
      ShareFacts(0.0, CountOf(a, a[p].children, k), count);
    }
  }

  /** The first node with children receives all the mass: its normalised counts. */
  lemma WalkAtFirst(a: Arena, head: Option<nat>, n: nat, p: nat,
                    probs: seq<real>, totalMass: real, probs': seq<real>, totalMass': real)
    requires p < |a| && InRange(a, a[p].children)
    requires Walking(a, head, n, Some(p), probs, totalMass, false)
    requires a[p].children != [] && TotalChildrenCounts(a, p, None) > 0 && |probs'| == |probs|
    requires forall k :: 0 <= k < |probs'| ==>
               probs'[k] == probs[k] + Share(totalMass, CountOf(a, a[p].children, k), TotalChildrenCounts(a, p, None))
    requires totalMass' == totalMass - totalMass
    requires Sum(probs') == Sum(probs) + totalMass
    ensures Walking(a, head, n, a[p].backoff, probs', totalMass', true)
  {
    assert NodeOk(a, p);
    FirstShares(a, p, n, probs');
    FirstWithChildrenHere(a, p);
  }

  /** One iteration of the walk: spread the remaining mass over the children of `p`. */
  method BlendStep(a: Arena, head: Option<nat>, n: nat, p: nat, probs: seq<real>,
                   totalMass: real, ghost found: bool)
    returns (probs': seq<real>, totalMass': real, ghost found': bool)
    requires p < |a| && Walking(a, head, n, Some(p), probs, totalMass, found)
    ensures Walking(a, head, n, a[p].backoff, probs', totalMass', found')
    ensures a[p].children == [] ==> probs' == probs && totalMass' == totalMass
    ensures a[p].children != [] ==> totalMass' == 0.0 && Sum(probs') == Sum(probs) + totalMass
  {
    assert NodeOk(a, p);
    var count := TotalChildrenCounts(a, p, None);
    if count == 0 {
      WalkPastChildless(a, head, n, p, probs, totalMass, found);
      probs', totalMass', found' := probs, totalMass, found;
    } else {
      var cs := a[p].children;
      assert forall k :: 0 <= k < |cs| ==> 0 <= a[cs[k]].symbol < |probs|;
      probs', totalMass' := AddShares(a, cs, count, probs, totalMass, totalMass);
      if found {
        WalkAfterFound(a, head, n, p, count, probs, totalMass, probs', totalMass');
      } else {
        WalkAtFirst(a, head, n, p, probs, totalMass, probs', totalMass');
      }
      found' := true;
    }
  }

  /** The walk of `getProbs` over the arena `a`, for a vocabulary of `n` symbols. */
  method BlendAlongChain(a: Arena, head: Option<nat>, n: nat) returns (probs: seq<real>)
    requires Valid(a) && SymbolsBelow(a, n) && (head.Some? ==> head.value < |a|)
    ensures probs == Blended(a, head, n)
    ensures FirstWithChildren(a, head).Some? ==> Sum(probs) == 1.0
  {
    probs := seq(n, k => 0.0);
    var totalMass := 1.0;
    var node := head;
    ghost var found := false;
    SumZeros(n);
    while node.Some?
      invariant Walking(a, head, n, node, probs, totalMass, found)
      decreases if node.Some? then a[node.value].depth + 1 else 0
    {
      var p := node.value;
      assert NodeOk(a, p);
      DepthZeroIsRoot(a, p);
      probs, totalMass, found := BlendStep(a, head, n, p, probs, totalMass, found);
      node := a[p].backoff;
    }
    if !found {
      assert FirstWithChildren(a, head) == FirstWithChildren(a, None);
    }
  }
}
