/**
  The symbol table of the language model: a bidirectional mapping between
  symbol strings and dense integer ids. Id 0 is the reserved root symbol
  "<R>"; the out-of-vocabulary symbol "<OOV>" is registered lazily the first
  time an unknown symbol is looked up.
 */
module Vocabulary {

  const RootSymbol: string := "<R>"
  const OovSymbol: string := "<OOV>"

  /** `oovId` is -1 until the OOV symbol has been assigned. */
  datatype Vocab = Vocab(symbols: seq<string>, ids: map<string, nat>, oovId: int)

  /** `ids` is the exact inverse of `symbols`, and the root sits at id 0. */
  ghost predicate Valid(v: Vocab) {
    && |v.symbols| >= 1
    && v.symbols[0] == RootSymbol
    && (forall i :: 0 <= i < |v.symbols| ==> v.symbols[i] in v.ids && v.ids[v.symbols[i]] == i)
    && (forall s :: s in v.ids ==> v.ids[s] < |v.symbols| && v.symbols[v.ids[s]] == s)
    && (v.oovId == -1 || (0 <= v.oovId < |v.symbols| && v.symbols[v.oovId] == OovSymbol))
  }

  /** Number of registered symbols, the root included. */
  function Size(v: Vocab): nat {
    |v.symbols|
  }

  /** The elements of a sequence without repeats are as many as its entries. */
  lemma {:induction false} DistinctCount(xs: seq<string>)
    requires forall i, j :: 0 <= i < j < |xs| ==> xs[i] != xs[j]
    ensures |(set i | 0 <= i < |xs| :: xs[i])| == |xs|
  {
    if |xs| > 0 {
      var init := xs[..|xs| - 1];
      DistinctCount(init);
      var before := set i | 0 <= i < |init| :: init[i];
      assert (set i | 0 <= i < |xs| :: xs[i]) == before + {xs[|xs| - 1]};
      assert xs[|xs| - 1] !in before;
    }
  }

  /** `size()` is the number of distinct symbols the vocabulary knows, the root included. */
  lemma SizeCountsSymbols(v: Vocab)
    requires Valid(v)
    ensures Size(v) == |v.ids.Keys| && Size(v) >= 1
  {
    var xs := v.symbols;
    assert v.ids.Keys == set i | 0 <= i < |xs| :: xs[i];
    DistinctCount(xs);
  }

  /** A fresh vocabulary holds only the root symbol. */
  function Empty(): (v: Vocab)
    ensures Valid(v)
    ensures Size(v) == 1
    ensures v.symbols[0] == RootSymbol && RootSymbol in v.ids && v.ids[RootSymbol] == 0
    ensures forall s :: s in v.ids <==> s == RootSymbol
    ensures v.oovId == -1
  {
    Vocab([RootSymbol], map[RootSymbol := 0], -1)
  }

  /** Registers `s` if it is new; returns the updated vocabulary and the id of `s`. */
  function AddSymbol(v: Vocab, s: string): (r: (Vocab, nat))
    requires Valid(v)
    ensures Valid(r.0)
    ensures r.1 < Size(r.0) && r.0.symbols[r.1] == s && s in r.0.ids && r.0.ids[s] == r.1
    ensures s in v.ids ==> r.0 == v && r.1 == v.ids[s]
    ensures s !in v.ids ==> r.1 == Size(v) && r.0.symbols == v.symbols + [s] && r.0.oovId == v.oovId
    ensures forall t :: t in v.ids ==> t in r.0.ids && r.0.ids[t] == v.ids[t]
    ensures forall t :: t in r.0.ids ==> t in v.ids || t == s
  {
    if s in v.ids then
      (v, v.ids[s])
    else
      var id := |v.symbols|;
      var v' := Vocab(v.symbols + [s], v.ids[s := id], v.oovId);
      assert forall i :: 0 <= i < |v.symbols| ==> v.symbols[i] != s;
      (v', id)
  }

  /** Adding a symbol twice is the same as adding it once. */
  lemma AddSymbolIdempotent(v: Vocab, s: string)
    requires Valid(v)
    ensures AddSymbol(AddSymbol(v, s).0, s) == AddSymbol(v, s)
  {
  }

  /**
    The id of `s`, or the OOV id when `s` is unknown. The first unknown lookup
    registers "<OOV>" through `AddSymbol`; every later one reuses that id.
   */
  function GetSymbolOrOov(v: Vocab, s: string): (r: (Vocab, nat))
    requires Valid(v)
    ensures Valid(r.0)
    ensures r.1 < Size(r.0)
    ensures s in v.ids ==> r == (v, v.ids[s])
    ensures s !in v.ids ==> r.0.oovId == r.1 && r.0.symbols[r.1] == OovSymbol
    ensures v.oovId != -1 ==> r.0 == v
    ensures s !in v.ids && v.oovId != -1 ==> r.1 == v.oovId
    ensures s !in v.ids && v.oovId == -1 && OovSymbol !in v.ids ==>
              r.0.symbols == v.symbols + [OovSymbol] && r.1 == Size(v)
    ensures s !in v.ids && v.oovId == -1 && OovSymbol in v.ids ==>
              r.0.symbols == v.symbols && r.1 == v.ids[OovSymbol]
    ensures forall t :: t in v.ids ==> t in r.0.ids && r.0.ids[t] == v.ids[t]
  {
    if s in v.ids then
      (v, v.ids[s])
    else if v.oovId == -1 then
      var (v', id) := AddSymbol(v, OovSymbol);
      (v'.(oovId := id), id)
    else
      (v, v.oovId)
  }

  /** Looks up every symbol of `ss` in turn, threading the vocabulary through. */
  function LookupAll(v: Vocab, ss: seq<string>): (r: (Vocab, seq<nat>))
    requires Valid(v)
    ensures Valid(r.0) && |r.1| == |ss|
    ensures Size(v) <= Size(r.0)
    ensures forall k :: 0 <= k < |ss| ==> r.1[k] < Size(r.0)
    decreases |ss|
  {
    if |ss| == 0 then (v, [])
    else
      var (v1, id) := GetSymbolOrOov(v, ss[0]);
      var (v2, ids) := LookupAll(v1, ss[1..]);
      (v2, [id] + ids)
  }

  /**
    Once the OOV id exists, no lookup changes the vocabulary and every unknown
    symbol maps to that same id.
   */
  lemma {:induction false} OovStable(v: Vocab, ss: seq<string>)
    requires Valid(v) && v.oovId != -1
    ensures LookupAll(v, ss).0 == v
    ensures forall k :: 0 <= k < |ss| && ss[k] !in v.ids ==> LookupAll(v, ss).1[k] == v.oovId
    ensures forall k :: 0 <= k < |ss| && ss[k] in v.ids ==> LookupAll(v, ss).1[k] == v.ids[ss[k]]
    decreases |ss|
  {
    if |ss| > 0 {
      OovStable(v, ss[1..]);
      var r := LookupAll(v, ss);
      assert r.1 == [GetSymbolOrOov(v, ss[0]).1] + LookupAll(v, ss[1..]).1;
      forall k | 1 <= k < |ss|
        ensures r.1[k] == LookupAll(v, ss[1..]).1[k - 1]
      {
      }
    }
  }

  /**
    After one unknown lookup on any vocabulary, all further unknown lookups
    return the id that first lookup returned, and the vocabulary stays put.
   */
  lemma OovAssignedOnce(v: Vocab, u: string, ss: seq<string>)
    requires Valid(v) && u !in v.ids
    ensures var (v1, oov) := GetSymbolOrOov(v, u);
            && LookupAll(v1, ss).0 == v1
            && forall k :: 0 <= k < |ss| && ss[k] !in v1.ids ==> LookupAll(v1, ss).1[k] == oov
  {
    var (v1, oov) := GetSymbolOrOov(v, u);
    OovStable(v1, ss);
  }
}
