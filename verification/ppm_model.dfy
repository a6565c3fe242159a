/**
  The PPM language model (`PPMLanguageModel`): a vocabulary, a maximum order
  and the context trie, together with the cursor ("context") that training and
  prediction walk through the trie.
 */
module PpmModel {
  import opened Wrappers
  import Vocabulary
  import opened Trie
  import opened TrieLinks

  /** The source's failed assertions and the TypeError of reading a link of `null`. */
  datatype Error = DegenerateVocabulary | InvalidSymbol(symbol: int) | NullHead

  /** A cursor: the current node (absent once a walk fell off the root) and its order. */
  datatype Context = Context(head: Option<nat>, order: int)

  /** `numNodes` is the source's diagnostic node counter. */
  datatype Model = Model(vocab: Vocabulary.Vocab, maxOrder: int, nodes: Arena, numNodes: nat)

  /** Every symbol stored in the trie is an id of a vocabulary of size `n`. */
  ghost predicate SymbolsBelow(a: Arena, n: nat) {
    forall i :: 0 <= i < |a| ==> a[i].symbol < n
  }

  ghost predicate ValidModel(m: Model) {
    && Vocabulary.Valid(m.vocab)
    && Vocabulary.Size(m.vocab) > 1
    && Valid(m.nodes)
    && Linked(m.nodes)
    && m.numNodes == |m.nodes|
    && SymbolsBelow(m.nodes, Vocabulary.Size(m.vocab))
  }

  /** A present head is a node of the trie and the order is that node's depth. */
  ghost predicate ValidContext(a: Arena, ctx: Context) {
    ctx.head.Some? ==> ctx.head.value < |a| && ctx.order == a[ctx.head.value].depth
  }

  /**
    Builds a model over `v` (the constructor): fails unless the vocabulary holds
    a symbol besides the root; otherwise the trie is a lone root with symbol 0,
    count 1 and no backoff, and the node counter is 1.
   */
  function NewModel(v: Vocabulary.Vocab, maxOrder: int): (r: Result<Model, Error>)
    requires Vocabulary.Valid(v)
    ensures r.Failure? <==> Vocabulary.Size(v) <= 1
    ensures r.Failure? ==> r.error == DegenerateVocabulary
    ensures r.Success? ==>
              && ValidModel(r.value)
              && r.value.vocab == v && r.value.maxOrder == maxOrder
              && r.value.nodes == [Node(0, 1, [], None, 0)]
              && r.value.numNodes == 1
  {
    if Vocabulary.Size(v) <= 1 then Failure(DegenerateVocabulary)
    else
      NewTrieLinked();
      Success(Model(v, maxOrder, NewTrie(), 1))
  }

  /** A fresh cursor (`createContext`): at the root, order 0. */
  function CreateContext(m: Model): (ctx: Context)
    requires ValidModel(m)
    ensures ValidContext(m.nodes, ctx)
    ensures ctx.head.Some? && ctx.order == 0
    ensures m.nodes[ctx.head.value].symbol == 0 && m.nodes[ctx.head.value].backoff.None?
  {
    assert NodeOk(m.nodes, Root);
    Context(Some(Root), 0)
  }

  // ---------------------------------------------------------------------------
  // Read-only advance (`addSymbolToContext`)

  /**
    Where a read-only advance by `s` along the node list `ch` must land: on the
    `s`-child of the first node of `ch` that has one, one order above that
    node; on the root at order 0 when no node of `ch` has one.
   */
  ghost predicate LandsOn(a: Arena, ch: seq<nat>, s: int, r: Context)
    requires Valid(a) && forall j :: 0 <= j < |ch| ==> ch[j] < |a|
  {
    match FirstHit(a, ch, s)
    case None => r == Context(Some(Root), 0)
    case Some(j) => r == Context(FindChild(a, ch[j], s), a[ch[j]].depth + 1)
  }

  /** Where a read-only advance by `s` from `node` must land: `LandsOn` along the backoff chain of `node`. */
  ghost predicate AdvancedBy(a: Arena, node: Option<nat>, s: int, r: Context)
    requires Valid(a) && (node.Some? ==> node.value < |a|)
  {
    LandsOn(a, Chain(a, node), s, r)
  }

  /** A hit at the head of the list is where the advance lands. */
  lemma LandsOnHit(a: Arena, n: nat, tail: seq<nat>, s: int)
    requires Valid(a) && n < |a| && (forall j :: 0 <= j < |tail| ==> tail[j] < |a|)
    requires FindChild(a, n, s).Some?
    ensures LandsOn(a, [n] + tail, s, Context(FindChild(a, n, s), a[n].depth + 1))
  {
    assert ([n] + tail)[0] == n;
  }

  /** A miss at the head of the list defers to the rest of the list. */
  lemma LandsOnMiss(a: Arena, n: nat, tail: seq<nat>, s: int, r: Context)
    requires Valid(a) && n < |a| && (forall j :: 0 <= j < |tail| ==> tail[j] < |a|)
    requires FindChild(a, n, s).None?
    requires LandsOn(a, tail, s, r)
    ensures LandsOn(a, [n] + tail, s, r)
  {
    var ch := [n] + tail;
    assert ch[0] == n && ch[1..] == tail;
    match FirstHit(a, tail, s)
    case None =>
    case Some(j) =>
      assert ch[j + 1] == tail[j];
  }

  /**
    The loop of `addSymbolToContext`: try `node`, then each backoff in turn, for
    a child carrying `s`; move onto the first one found, and reset to the root
    at order 0 when the chain runs out.
   */
  function Advance(a: Arena, node: Option<nat>, order: int, s: int): (r: Context)
    requires Valid(a) && ValidContext(a, Context(node, order))
    ensures ValidContext(a, r) && r.head.Some? && r.order >= 0
    ensures AdvancedBy(a, node, s, r)
    decreases if node.Some? then a[node.value].depth + 1 else 0
  {
    match node
    case None => Context(Some(Root), 0)
    case Some(n) =>
      assert NodeOk(a, n);
      match FindChild(a, n, s)
      case Some(c) =>
        LandsOnHit(a, n, Chain(a, a[n].backoff), s);
        Context(Some(c), order + 1)
      case None =>
        DepthZeroIsRoot(a, n);
        var r := Advance(a, a[n].backoff, if order - 1 < 0 then 0 else order - 1, s);
        LandsOnMiss(a, n, Chain(a, a[n].backoff), s, r);
        r
  }

  /**
    Moves the cursor on by symbol `s` without touching the trie
    (`addSymbolToContext`). Symbols at or below 0 are ignored; an id outside the
    vocabulary fails the source's assertion.
   */
  function AddSymbolToContext(m: Model, ctx: Context, s: int): (r: Result<Context, Error>)
    requires ValidModel(m) && ValidContext(m.nodes, ctx)
    ensures s <= 0 ==> r == Success(ctx)
    ensures s > 0 ==> (r.Failure? <==> s >= Vocabulary.Size(m.vocab))
    ensures r.Failure? ==> r.error == InvalidSymbol(s)
    ensures r.Success? ==> ValidContext(m.nodes, r.value)
    ensures r.Success? && s > 0 ==> r.value.head.Some? && r.value.order >= 0
    ensures r.Success? && s > 0 ==> AdvancedBy(m.nodes, ctx.head, s, r.value)
  {
    if s <= 0 then Success(ctx)
    else if s >= Vocabulary.Size(m.vocab) then Failure(InvalidSymbol(s))
    else Success(Advance(m.nodes, ctx.head, ctx.order, s))
  }

  // ---------------------------------------------------------------------------
  // Training (`addSymbolAndUpdate`)

  function Min(x: int, y: int): int {
    if x <= y then x else y
  }

  /**
    The walk-back at the end of `addSymbolAndUpdate`: while the order exceeds
    `maxOrder`, step to the backoff and lower the order. Reading the backoff of
    an absent head is the source's TypeError.
   */
  function CapOrder(a: Arena, head: Option<nat>, order: int, maxOrder: int): (r: Result<Context, Error>)
    requires Valid(a) && ValidContext(a, Context(head, order))
    ensures r.Success? ==> ValidContext(a, r.value) && r.value.order <= maxOrder
    ensures r.Success? ==> r.value.order == Min(order, maxOrder)
    ensures r.Failure? ==> r.error == NullHead
    ensures head.Some? ==> (r.Failure? <==> maxOrder < -1)
    decreases if order > maxOrder then order - maxOrder else 0
  {
    if order <= maxOrder then Success(Context(head, order))
    else if head.None? then Failure(NullHead)
    else
      assert NodeOk(a, head.value);
      DepthZeroIsRoot(a, head.value);
      CapOrder(a, a[head.value].backoff, order - 1, maxOrder)
  }

  /** With `maxOrder >= 0` the walk-back from a present head stops on the backoff chain of that head, `order - maxOrder` steps down. */
  lemma {:induction false} CapOrderOnChain(a: Arena, head: Option<nat>, order: int, maxOrder: int)
    requires Valid(a) && ValidContext(a, Context(head, order))
    requires head.Some? && maxOrder >= 0
    ensures var r := CapOrder(a, head, order, maxOrder);
            r.Success? && r.value.head.Some? && r.value.head.value == Chain(a, head)[order - r.value.order]
    decreases if order > maxOrder then order - maxOrder else 0
  {
    if order > maxOrder {
      var n := head.value;
      assert NodeOk(a, n);
      DepthZeroIsRoot(a, n);
      var next := a[n].backoff;
      CapOrderOnChain(a, next, order - 1, maxOrder);
      assert CapOrder(a, head, order, maxOrder) == CapOrder(a, next, order - 1, maxOrder);
      assert Chain(a, head) == [n] + Chain(a, next);
    }
  }


  /**
    The model after recording one occurrence of `s` below node `h`: the trie
    grows by `AddSymbolToNode` and the node counter rises by the number of
    nodes created. Also returns the `s`-child of `h`.
   */
  function Record(m: Model, h: nat, s: int): (r: (Model, nat))
    requires ValidModel(m) && h < |m.nodes| && 0 < s < Vocabulary.Size(m.vocab)
    ensures ValidModel(r.0)
    ensures r.0.vocab == m.vocab && r.0.maxOrder == m.maxOrder
    ensures Grows(m.nodes, r.0.nodes) && r.0.numNodes >= m.numNodes
    ensures InsertPost(m.nodes, h, s, (r.0.nodes, r.1))
  {
    var (a, c) := AddSymbolToNode(m.nodes, h, s);
    AddSymbolToNodeKeepsLinked(m.nodes, h, s);
    AddSymbolToNodeNewSymbols(m.nodes, h, s);
    assert SymbolsBelow(a, Vocabulary.Size(m.vocab)) by {
      forall i | 0 <= i < |a| ensures a[i].symbol < Vocabulary.Size(m.vocab) {
        if i < |m.nodes| {
          assert NodeGrows(m.nodes[i], a[i]);
        }
      }
    }
    (m.(nodes := a, numNodes := m.numNodes + (|a| - |m.nodes|)), c)
  }

  /** `m'` is a valid model over the same vocabulary and order bound whose trie only grew. */
  ghost predicate GrewFrom(m: Model, m': Model) {
    && ValidModel(m')
    && m'.vocab == m.vocab && m'.maxOrder == m.maxOrder
    && Grows(m.nodes, m'.nodes) && m'.numNodes >= m.numNodes
  }

  /**
    The trie `b` left by recording `s` below `h`: `h` has an `s`-child, and
    when it had one before, that child's count is the only thing that changed.
    Otherwise the child is new, with count 1 and no children.
   */
  ghost predicate RecordedBelow(a: Arena, h: nat, s: int, b: Arena)
    requires Valid(a) && Valid(b) && h < |a| && h < |b|
  {
    var c := FindChild(b, h, s);
    && c.Some?
    && b[c.value].depth == a[h].depth + 1
    && (FindChild(a, h, s).Some? ==> c == FindChild(a, h, s) && b == Bump(a, c.value))
    && (FindChild(a, h, s).None? ==>
          && |a| <= c.value && b[c.value].count == 1 && b[c.value].children == [])
  }

  /** `AddSymbolToNode`'s contract, restated as `RecordedBelow`. */
  lemma InsertRecorded(a: Arena, h: nat, s: int, b: Arena, c: nat)
    requires Valid(a) && h < |a| && s >= 1
    requires InsertPost(a, h, s, (b, c))
    ensures h < |b| && RecordedBelow(a, h, s, b)
  {
    assert c < |b| && FindChild(b, h, s) == Some(c);
    assert b[c].depth == a[h].depth + 1 by {
      assert NodeGrows(a[h], b[h]);
      assert c in b[h].children;
      assert NodeOk(b, h);
    }
    assert FindChild(a, h, s).Some? ==> FindChild(a, h, s) == Some(c) && b == Bump(a, c);
  }

  /**
    The cursor after the step: order `min(order + 1, maxOrder)`, on the backoff
    chain of the `s`-child of `h` (that child itself when `maxOrder` allows).
   */
  ghost predicate CursorAfter(a: Arena, h: nat, order: int, s: int, maxOrder: int, ctx': Context)
    requires Valid(a) && h < |a| && FindChild(a, h, s).Some?
    requires a[FindChild(a, h, s).value].depth == order + 1
  {
    && ValidContext(a, ctx')
    && ctx'.order <= maxOrder
    && ctx'.order == Min(order + 1, maxOrder)
    && (maxOrder >= 0 ==> ctx'.head == Some(Chain(a, FindChild(a, h, s))[order + 1 - ctx'.order]))
  }

  /**
    What a successful training step by `s` from head `h` at `order` leaves: a
    model that only grew, with `s` recorded below `h`, and the cursor on the
    chain of the `s`-child.
   */
  ghost predicate Trained(m: Model, h: nat, order: int, s: int, m': Model, ctx': Context)
    requires ValidModel(m) && h < |m.nodes| && order == m.nodes[h].depth
  {
    && GrewFrom(m, m')
    && h < |m'.nodes|
    && RecordedBelow(m.nodes, h, s, m'.nodes)
    && CursorAfter(m'.nodes, h, order, s, m.maxOrder, ctx')
  }

  lemma RecordThenCap(m: Model, h: nat, order: int, s: int)
    requires ValidModel(m) && h < |m.nodes| && order == m.nodes[h].depth
    requires 0 < s < Vocabulary.Size(m.vocab)
    ensures Record(m, h, s).1 < |Record(m, h, s).0.nodes|
    ensures ValidContext(Record(m, h, s).0.nodes, Context(Some(Record(m, h, s).1), order + 1))
    ensures CapOrder(Record(m, h, s).0.nodes, Some(Record(m, h, s).1), order + 1, m.maxOrder).Failure? <==>
              m.maxOrder < -1
    ensures CapOrder(Record(m, h, s).0.nodes, Some(Record(m, h, s).1), order + 1, m.maxOrder).Success? ==>
              Trained(m, h, order, s, Record(m, h, s).0,
                      CapOrder(Record(m, h, s).0.nodes, Some(Record(m, h, s).1), order + 1, m.maxOrder).value)
  {
    var rec := Record(m, h, s);
    var m', c := rec.0, rec.1;
    RecordChild(m, h, order, s);
    var r := CapOrder(m'.nodes, Some(c), order + 1, m.maxOrder);
    if r.Success? {
      TrainedIntro(m, h, order, s, m', c, r.value);
    }
  }

  /** The `s`-child `Record` returns sits one order above `h`. */
  lemma RecordChild(m: Model, h: nat, order: int, s: int)
    requires ValidModel(m) && h < |m.nodes| && order == m.nodes[h].depth
    requires 0 < s < Vocabulary.Size(m.vocab)
    ensures var rec := Record(m, h, s);
            && h < |rec.0.nodes| && rec.1 < |rec.0.nodes|
            && FindChild(rec.0.nodes, h, s) == Some(rec.1)
            && rec.0.nodes[rec.1].depth == order + 1
  {
    var rec := Record(m, h, s);
    assert InsertPost(m.nodes, h, s, (rec.0.nodes, rec.1));
    assert rec.0.nodes[h].depth == order by {
      assert NodeGrows(m.nodes[h], rec.0.nodes[h]);
    }
    assert NodeOk(rec.0.nodes, h);
  }

  /** The walked-back cursor satisfies `CursorAfter`. */
  lemma CappedCursor(a: Arena, h: nat, order: int, s: int, maxOrder: int, c: nat, ctx': Context)
    requires Valid(a) && h < |a| && FindChild(a, h, s) == Some(c)
    requires a[c].depth == order + 1
    requires CapOrder(a, Some(c), order + 1, maxOrder) == Success(ctx')
    ensures CursorAfter(a, h, order, s, maxOrder, ctx')
  {
    if maxOrder >= 0 {
      CapOrderOnChain(a, Some(c), order + 1, maxOrder);
    }
  }

  lemma TrainedIntro(m: Model, h: nat, order: int, s: int, m': Model, c: nat, ctx': Context)
    requires ValidModel(m) && h < |m.nodes| && order == m.nodes[h].depth
    requires 0 < s < Vocabulary.Size(m.vocab)
    requires (m', c) == Record(m, h, s)
    requires c < |m'.nodes| && m'.nodes[c].depth == order + 1
    requires CapOrder(m'.nodes, Some(c), order + 1, m.maxOrder) == Success(ctx')
    ensures Trained(m, h, order, s, m', ctx')
  {
    assert GrewFrom(m, m');
    assert InsertPost(m.nodes, h, s, (m'.nodes, c));
    InsertRecorded(m.nodes, h, s, m'.nodes, c);
    CappedCursor(m'.nodes, h, order, s, m.maxOrder, c, ctx');
  }


  /**
    The body of a training step once the checks have passed: record `s`
    below `h`, move onto the `s`-child one order up, and walk back.
   */
  function RecordAndCap(m: Model, h: nat, order: int, s: int): (r: Result<(Model, Context), Error>)
    requires ValidModel(m) && h < |m.nodes| && order == m.nodes[h].depth
    requires 0 < s < Vocabulary.Size(m.vocab)
    ensures r.Failure? <==> m.maxOrder < -1
    ensures r.Failure? ==> r.error == NullHead
    ensures r.Success? ==> Trained(m, h, order, s, r.value.0, r.value.1)
  {
    var rec := Record(m, h, s);
    RecordThenCap(m, h, order, s);
    var capped := CapOrder(rec.0.nodes, Some(rec.1), order + 1, m.maxOrder);
    if capped.Success? then Success((rec.0, capped.value)) else Failure(capped.error)
  }

  /**
    One training step (`addSymbolAndUpdate`). Symbols at or below 0 are ignored
    and an id outside the vocabulary fails the source's assertion. Otherwise the
    symbol is recorded below the head (`AddSymbolToNode`), the cursor moves onto
    that child one order up, and then backs off until its order is at most
    `maxOrder`.
   */
  function AddSymbolAndUpdate(m: Model, ctx: Context, s: int): (r: Result<(Model, Context), Error>)
    requires ValidModel(m) && ValidContext(m.nodes, ctx)
    ensures s <= 0 ==> r == Success((m, ctx))
    ensures 0 < s && s >= Vocabulary.Size(m.vocab) ==> r == Failure(InvalidSymbol(s))
    ensures 0 < s < Vocabulary.Size(m.vocab) && ctx.head.None? ==> r == Failure(NullHead)
    ensures 0 < s < Vocabulary.Size(m.vocab) && ctx.head.Some? ==> (r.Failure? <==> m.maxOrder < -1)
    ensures r.Success? && s > 0 ==>
              ctx.head.Some? && Trained(m, ctx.head.value, ctx.order, s, r.value.0, r.value.1)
  {
    if s <= 0 then Success((m, ctx))
    else if s >= Vocabulary.Size(m.vocab) then Failure(InvalidSymbol(s))
    else if ctx.head.None? then Failure(NullHead)
    else RecordAndCap(m, ctx.head.value, ctx.order, s)
  }

  /** A successful step leaves a valid model that only grew. */
  lemma AddSymbolAndUpdateGrows(m: Model, ctx: Context, s: int)
    requires ValidModel(m) && ValidContext(m.nodes, ctx)
    requires AddSymbolAndUpdate(m, ctx, s).Success?
    ensures GrewFrom(m, AddSymbolAndUpdate(m, ctx, s).value.0)
    ensures ValidContext(AddSymbolAndUpdate(m, ctx, s).value.0.nodes, AddSymbolAndUpdate(m, ctx, s).value.1)
    ensures s > 0 ==> AddSymbolAndUpdate(m, ctx, s).value.1.order <= m.maxOrder
  {
    if s <= 0 {
      GrowsReflexive(m.nodes);
    }
  }

  /**
    The counts a successful step by `s > 0` changes: those the insertion below
    the head changes (`InsertChanges`), and no others.
   */
  lemma AddSymbolAndUpdateCounts(m: Model, ctx: Context, s: int)
    requires ValidModel(m) && ValidContext(m.nodes, ctx)
    requires s > 0 && AddSymbolAndUpdate(m, ctx, s).Success?
    ensures ctx.head.Some? && ctx.head.value < |m.nodes|
    ensures InsertChanges(m.nodes, ctx.head.value, s, AddSymbolAndUpdate(m, ctx, s).value.0.nodes)
  {
    var h := ctx.head.value;
    assert s < Vocabulary.Size(m.vocab);
    var step := RecordAndCap(m, h, ctx.order, s);
    assert AddSymbolAndUpdate(m, ctx, s) == step;
    var rec := Record(m, h, s);
    assert step.value.0 == rec.0;
    assert rec.0.nodes == AddSymbolToNode(m.nodes, h, s).0;
    AddSymbolToNodeCounts(m.nodes, h, s);
  }

  /**
    Trains on `syms` in turn (the training loop of the caller), stopping at the
    first failure.
   */
  function Train(m: Model, ctx: Context, syms: seq<int>): (r: Result<(Model, Context), Error>)
    requires ValidModel(m) && ValidContext(m.nodes, ctx)
    ensures r.Success? ==> GrewFrom(m, r.value.0) && ValidContext(r.value.0.nodes, r.value.1)
    decreases |syms|
  {
    if |syms| == 0 then
      GrowsReflexive(m.nodes);
      Success((m, ctx))
    else
      var step := AddSymbolAndUpdate(m, ctx, syms[0]);
      if step.Failure? then Failure(step.error)
      else
        AddSymbolAndUpdateGrows(m, ctx, syms[0]);
        var r := Train(step.value.0, step.value.1, syms[1..]);
        if r.Success? then
          GrowsTransitive(m.nodes, step.value.0.nodes, r.value.0.nodes);
          r
        else r
  }

  /**
    Symbols at or below 0 leave everything as it was; once a positive symbol
    has been taken, the order is within `maxOrder`.
   */
  lemma {:induction false} TrainBounded(m: Model, ctx: Context, syms: seq<int>)
    requires ValidModel(m) && ValidContext(m.nodes, ctx)
    ensures (forall k :: 0 <= k < |syms| ==> syms[k] <= 0) ==> Train(m, ctx, syms) == Success((m, ctx))
    ensures Train(m, ctx, syms).Success? && (exists k :: 0 <= k < |syms| && syms[k] > 0) ==>
              Train(m, ctx, syms).value.1.order <= m.maxOrder
    decreases |syms|
  {
    if |syms| > 0 {
      var step := AddSymbolAndUpdate(m, ctx, syms[0]);
      if step.Success? {
        AddSymbolAndUpdateGrows(m, ctx, syms[0]);
        var (m1, ctx1) := step.value;
        TrainBounded(m1, ctx1, syms[1..]);
        assert Train(m, ctx, syms) == Train(m1, ctx1, syms[1..]);
        if exists k :: 0 <= k < |syms| && syms[k] > 0 {
          var k :| 0 <= k < |syms| && syms[k] > 0;
          if syms[0] <= 0 {
            assert syms[1..][k - 1] > 0;
          }
        }
        if forall k :: 0 <= k < |syms| ==> syms[k] <= 0 {
          assert forall k :: 0 <= k < |syms[1..]| ==> syms[1..][k] <= 0 by {
            forall k | 0 <= k < |syms[1..]| ensures syms[1..][k] <= 0 {
              assert syms[1..][k] == syms[k + 1];
            }
          }
        }
      }
    }
  }
}
