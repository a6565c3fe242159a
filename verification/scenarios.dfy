/**
  Worked examples on explicit arenas: a model over the vocabulary
  `<R>`, `a`, `b` (ids 0, 1, 2) with `maxOrder` 2 is trained on `a a b`.
  Each step is stated as the exact model and cursor it produces, and the
  predictions read off the result are stated as exact distributions.
 */
module Scenarios {
  import opened Wrappers
  import Vocabulary
  import opened Trie
  import opened PpmModel
  import opened Prediction

  /** The vocabulary `<R>`, `a`, `b`. */
  function AbVocab(): (v: Vocabulary.Vocab)
    ensures Vocabulary.Valid(v) && Vocabulary.Size(v) == 3
    ensures "a" in v.ids && v.ids["a"] == 1 && "b" in v.ids && v.ids["b"] == 2
  {
    var (v1, _) := Vocabulary.AddSymbol(Vocabulary.Empty(), "a");
    Vocabulary.AddSymbol(v1, "b").0
  }

  /** The trie after nothing, after `a`, after `a a` and after `a a b`. */
  const Trie0: Arena := [Node(0, 1, [], None, 0)]
  const Trie1: Arena := [Node(0, 1, [1], None, 0), Node(1, 1, [], Some(0), 1)]
  const Trie2: Arena := [Node(0, 1, [1], None, 0), Node(1, 2, [2], Some(0), 1), Node(1, 1, [], Some(1), 2)]
  const Trie3: Arena :=
    [ Node(0, 1, [3, 1], None, 0)
    , Node(1, 2, [4, 2], Some(0), 1)
    , Node(1, 1, [5], Some(1), 2)
    , Node(2, 1, [], Some(0), 1)
    , Node(2, 1, [], Some(3), 2)
    , Node(2, 1, [], Some(4), 3)
    ]

  /** A fresh model holds only the root, and its cursor sits there at order 0. */
  lemma Fresh()
    ensures NewModel(Vocabulary.Empty(), 2) == Failure(DegenerateVocabulary)
    ensures NewModel(AbVocab(), 2) == Success(Model(AbVocab(), 2, Trie0, 1))
    ensures CreateContext(Model(AbVocab(), 2, Trie0, 1)) == Context(Some(Root), 0)
  {
  }

  /** Training `a` at the root adds the order-1 node for `a` and moves the cursor onto it. */
  lemma StepA()
    ensures ValidModel(Model(AbVocab(), 2, Trie1, 2))
    ensures ValidModel(Model(AbVocab(), 2, Trie0, 1)) &&
            AddSymbolAndUpdate(Model(AbVocab(), 2, Trie0, 1), Context(Some(Root), 0), 1) ==
              Success((Model(AbVocab(), 2, Trie1, 2), Context(Some(1), 1)))
  {
    Fresh();
    var m := Model(AbVocab(), 2, Trie0, 1);
    assert FindChild(Trie0, Root, 1).None?;
    assert NewChild(Trie0, Root, 1, Root) == Node(1, 1, [], Some(0), 1);
    var l := Link(Trie0, Root, NewChild(Trie0, Root, 1, Root));
    assert |l| == 2 && l[0] == Trie1[0] && l[1] == Trie1[1];
    assert l == Trie1;
    assert AddSymbolToNode(Trie0, Root, 1) == (Trie1, 1);
    assert Record(m, Root, 1) == (m.(nodes := Trie1, numNodes := 2), 1);
  }

  lemma Trie1Valid()
    ensures Valid(Trie1)
  {
    StepA();
  }

  lemma Trie2Valid()
    ensures Valid(Trie2)
  {
    StepAA();
  }

  /** The insertion a second `a` triggers: a bump at order 1, a new node at order 2. */
  lemma InsertAA()
    ensures Valid(Trie1) && AddSymbolToNode(Trie1, 1, 1) == (Trie2, 2)
  {
    Trie1Valid();
    assert FindChild(Trie1, 1, 1).None?;
    assert FindChild(Trie1, Root, 1) == Some(1);
    var b := Bump(Trie1, 1);
    assert AddSymbolToNode(Trie1, Root, 1) == (b, 1);
    var l := Link(b, 1, NewChild(Trie1, 1, 1, 1));
    assert |l| == 3 && l[0] == Trie2[0] && l[1] == Trie2[1] && l[2] == Trie2[2];
    assert l == Trie2;
  }

  /**
    Training a second `a` bumps the count of the order-1 node for `a`, adds
    the order-2 node `a a` below it, and moves the cursor there.
   */
  lemma StepAA()
    ensures ValidModel(Model(AbVocab(), 2, Trie2, 3))
    ensures ValidModel(Model(AbVocab(), 2, Trie1, 2)) &&
            AddSymbolAndUpdate(Model(AbVocab(), 2, Trie1, 2), Context(Some(1), 1), 1) ==
              Success((Model(AbVocab(), 2, Trie2, 3), Context(Some(2), 2)))
  {
    StepA();
    var m := Model(AbVocab(), 2, Trie1, 2);
    InsertAA();
    assert Record(m, 1, 1) == (m.(nodes := Trie2, numNodes := 3), 2);
  }

  /** The trie after the root and the order-1 node have gained their `b` child. */
  const TrieB1: Arena :=
    [ Node(0, 1, [3, 1], None, 0)
    , Node(1, 2, [2], Some(0), 1)
    , Node(1, 1, [], Some(1), 2)
    , Node(2, 1, [], Some(0), 1)
    ]
  const TrieB2: Arena :=
    [ Node(0, 1, [3, 1], None, 0)
    , Node(1, 2, [4, 2], Some(0), 1)
    , Node(1, 1, [], Some(1), 2)
    , Node(2, 1, [], Some(0), 1)
    , Node(2, 1, [], Some(3), 2)
    ]

  lemma InsertBAtRoot()
    ensures Valid(Trie2) && AddSymbolToNode(Trie2, Root, 2) == (TrieB1, 3)
  {
    Trie2Valid();
    assert FindChild(Trie2, Root, 2).None?;
    var x := Link(Trie2, Root, NewChild(Trie2, Root, 2, Root));
    assert |x| == 4 && x[0] == TrieB1[0] && x[1] == TrieB1[1] && x[2] == TrieB1[2] && x[3] == TrieB1[3];
    assert x == TrieB1;
  }

  lemma InsertBAtOne()
    ensures Valid(Trie2) && AddSymbolToNode(Trie2, 1, 2) == (TrieB2, 4)
  {
    InsertBAtRoot();
    assert FindChild(Trie2, 1, 2).None?;
    var x := Link(TrieB1, 1, NewChild(Trie2, 1, 2, 3));
    assert |x| == 5 && x[0] == TrieB2[0] && x[1] == TrieB2[1] && x[2] == TrieB2[2];
    assert x[3] == TrieB2[3] && x[4] == TrieB2[4];
    assert x == TrieB2;
  }

  /** The three insertions `b` triggers, from the root up to the order-2 node. */
  lemma InsertB()
    ensures Valid(Trie2) && AddSymbolToNode(Trie2, 2, 2) == (Trie3, 5)
  {
    InsertBAtOne();
    assert FindChild(Trie2, 2, 2).None?;
    LinkB3();
  }

  /** Linking the order-3 `b` node below `a a` completes the trie of `a a b`. */
  lemma LinkB3()
    ensures Link(TrieB2, 2, NewChild(Trie2, 2, 2, 4)) == Trie3
  {
    var x := Link(TrieB2, 2, NewChild(Trie2, 2, 2, 4));
    assert |x| == 6 && x[0] == Trie3[0] && x[1] == Trie3[1] && x[2] == Trie3[2];
    assert x[3] == Trie3[3] && x[4] == Trie3[4] && x[5] == Trie3[5];
  }

  /** Recording `b` below the order-2 node `a a` gives the trie of `a a b`. */
  lemma RecordB()
    ensures ValidModel(Model(AbVocab(), 2, Trie2, 3)) &&
            Record(Model(AbVocab(), 2, Trie2, 3), 2, 2) == (Model(AbVocab(), 2, Trie3, 6), 5)
  {
    StepAA();
    InsertB();
  }

  /** The model trained on `a a b` is well formed. */
  lemma Model3Valid()
    ensures ValidModel(Model(AbVocab(), 2, Trie3, 6))
  {
    RecordB();
  }

  lemma Trie3Valid()
    ensures Valid(Trie3)
  {
    Model3Valid();
  }

  /** The cursor at order 3 is walked back one step to the order-2 node for `a b`. */
  lemma CapB()
    ensures Valid(Trie3) && CapOrder(Trie3, Some(5), 3, 2) == Success(Context(Some(4), 2))
  {
    Trie3Valid();
    assert NodeOk(Trie3, 5) && NodeOk(Trie3, 4);
    assert CapOrder(Trie3, Some(4), 2, 2) == Success(Context(Some(4), 2));
  }

  /**
    Training `b` after `a a` adds a `b` node at orders 1, 2 and 3, each backing
    off to the one below; the order-3 cursor is then walked back to order 2.
   */
  lemma StepAAB()
    ensures ValidModel(Model(AbVocab(), 2, Trie3, 6))
    ensures ValidModel(Model(AbVocab(), 2, Trie2, 3)) &&
            AddSymbolAndUpdate(Model(AbVocab(), 2, Trie2, 3), Context(Some(2), 2), 2) ==
              Success((Model(AbVocab(), 2, Trie3, 6), Context(Some(4), 2)))
  {
    StepAA();
    RecordCapB();
  }

  /** Recording `b` below `a a` and walking the order-3 cursor back to order 2. */
  lemma RecordCapB()
    ensures ValidModel(Model(AbVocab(), 2, Trie2, 3)) && Trie2[2].depth == 2 &&
            RecordAndCap(Model(AbVocab(), 2, Trie2, 3), 2, 2, 2) ==
              Success((Model(AbVocab(), 2, Trie3, 6), Context(Some(4), 2)))
  {
    RecordB();
    CapB();
  }

  lemma TrainB()
    ensures ValidModel(Model(AbVocab(), 2, Trie2, 3)) &&
            Train(Model(AbVocab(), 2, Trie2, 3), Context(Some(2), 2), [2]) ==
              Success((Model(AbVocab(), 2, Trie3, 6), Context(Some(4), 2)))
  {
    StepAAB();
    assert [2][1..] == [];
  }

  lemma TrainAB()
    ensures ValidModel(Model(AbVocab(), 2, Trie1, 2)) &&
            Train(Model(AbVocab(), 2, Trie1, 2), Context(Some(1), 1), [1, 2]) ==
              Success((Model(AbVocab(), 2, Trie3, 6), Context(Some(4), 2)))
  {
    StepAA();
    TrainB();
    assert [1, 2][1..] == [2];
  }

  /** Training the whole sequence `a a b` from a fresh cursor. */
  lemma TrainAAB()
    ensures ValidModel(Model(AbVocab(), 2, Trie0, 1)) &&
            Train(Model(AbVocab(), 2, Trie0, 1), Context(Some(Root), 0), [1, 1, 2]) ==
              Success((Model(AbVocab(), 2, Trie3, 6), Context(Some(4), 2)))
  {
    StepA();
    TrainAB();
    assert [1, 1, 2][1..] == [1, 2];
  }

  /** Reading `a a` from the root, without training, lands on the order-2 node `a a`. */
  lemma ReadAA()
    ensures ValidModel(Model(AbVocab(), 2, Trie3, 6)) &&
            AddSymbolToContext(Model(AbVocab(), 2, Trie3, 6), Context(Some(Root), 0), 1) ==
              Success(Context(Some(1), 1))
    ensures ValidModel(Model(AbVocab(), 2, Trie3, 6)) &&
            AddSymbolToContext(Model(AbVocab(), 2, Trie3, 6), Context(Some(1), 1), 1) ==
              Success(Context(Some(2), 2))
  {
    Model3Valid();
    assert FindChild(Trie3, Root, 1) == Some(1);
    assert FindChild(Trie3, 1, 1) == Some(2);
  }

  /** A symbol never seen after `a` falls back through the root and leaves the cursor there. */
  lemma UnseenResets()
    ensures ValidModel(Model(AbVocab(), 2, Trie1, 2)) &&
            AddSymbolToContext(Model(AbVocab(), 2, Trie1, 2), Context(Some(1), 1), 2) ==
              Success(Context(Some(Root), 0))
  {
    StepA();
    assert FindChild(Trie1, 1, 2).None?;
    assert FindChild(Trie1, Root, 2).None?;
    assert Advance(Trie1, None, 0, 2) == Context(Some(Root), 0);
    assert Advance(Trie1, Some(Root), 0, 2) == Context(Some(Root), 0);
  }

  /** After `a a` only `b` has followed, so it takes all the mass. */
  lemma PredictAfterAA()
    ensures Valid(Trie3) && Blended(Trie3, Some(2), 3) == [0.0, 0.0, 1.0]
  {
    Trie3Valid();
    FirstWithChildrenHere(Trie3, 2);
    assert Trie3[2].children == [5];
    assert [5][..0] == [];
    assert TotalChildrenCounts(Trie3, 2, None) == 1;
    assert CountOf(Trie3, [5], 0) == 0 && CountOf(Trie3, [5], 1) == 0 && CountOf(Trie3, [5], 2) == 1;
    var d := ChildDistribution(Trie3, 2, 3);
    assert |d| == 3 && d[0] == 0.0 && d[1] == 0.0 && d[2] == 1.0;
  }

  /** After `a`, both `a` and `b` have followed once, so they share the mass equally. */
  lemma PredictAfterA()
    ensures Valid(Trie3) && Blended(Trie3, Some(1), 3) == [0.0, 0.5, 0.5]
  {
    Trie3Valid();
    FirstWithChildrenHere(Trie3, 1);
    var cs := Trie3[1].children;
    assert cs == [4, 2] && cs[..1] == [4] && [4][..0] == [];
    assert TotalChildrenCounts(Trie3, 1, None) == 2;
    assert CountOf(Trie3, cs, 0) == 0 && CountOf(Trie3, cs, 1) == 1 && CountOf(Trie3, cs, 2) == 1;
    var d := ChildDistribution(Trie3, 1, 3);
    assert |d| == 3 && d[0] == 0.0 && d[1] == 0.5 && d[2] == 0.5;
  }
}
