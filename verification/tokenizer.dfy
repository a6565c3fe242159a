/**
  Turning raw text into the symbol strings the language model is trained on,
  at one of three granularities: single characters, words separated by runs
  of white space, or sentences separated by runs of `.`, `!` and `?`, each
  trimmed of surrounding white space. The vocabulary returned alongside the
  tokens is the set of distinct tokens.
 */
module Tokenizer {
  import opened Wrappers

  /**
    The characters matched by the `\s` class of ECMAScript regular expressions
    and removed by `String.prototype.trim`: the white space and line
    terminator characters of sections 12.2 and 12.3 of ECMA-262.
   */
  const Whitespace: set<char> := {
    '\t', '\n', '\U{000B}', '\U{000C}', '\r', ' ', '\U{00A0}', '\U{1680}',
    '\U{2000}', '\U{2001}', '\U{2002}', '\U{2003}', '\U{2004}', '\U{2005}',
    '\U{2006}', '\U{2007}', '\U{2008}', '\U{2009}', '\U{200A}',
    '\U{2028}', '\U{2029}', '\U{202F}', '\U{205F}', '\U{3000}', '\U{FEFF}'
  }

  /** The characters of the sentence-separator class `[.!?]`. */
  const Terminators: set<char> := {'.', '!', '?'}

  /** No character of `s` belongs to the class `d`. */
  predicate Free(d: set<char>, s: string) {
    forall k :: 0 <= k < |s| ==> s[k] !in d
  }

  /** `s` is a non-empty run of characters of `d`. */
  predicate Run(d: set<char>, s: string) {
    |s| > 0 && forall k :: 0 <= k < |s| ==> s[k] in d
  }

  /** The position of the first character of `d` in `s`, or `|s|` if there is none. */
  function FirstDelim(d: set<char>, s: string): (i: nat)
    ensures i <= |s| && Free(d, s[..i])
    ensures i < |s| ==> s[i] in d
    decreases |s|
  {
    if |s| == 0 || s[0] in d then 0
    else
      var i := 1 + FirstDelim(d, s[1..]);
      assert s[..i] == [s[0]] + s[1..][..i - 1];
      i
  }

  /** The length of the run of characters of `d` that `s` starts with. */
  function RunLength(d: set<char>, s: string): (i: nat)
    ensures i <= |s| && (forall k :: 0 <= k < i ==> s[k] in d)
    ensures i < |s| ==> s[i] !in d
    decreases |s|
  {
    if |s| == 0 || s[0] !in d then 0
    else 1 + RunLength(d, s[1..])
  }

  /**
    Where the first separator run of `s` starts and ends, when there is one:
    the run is maximal, so the character after it, if any, is not a separator.
   */
  function Cut(d: set<char>, s: string): (c: (nat, nat))
    requires FirstDelim(d, s) < |s|
    ensures c.0 == FirstDelim(d, s) && c.0 < c.1 <= |s|
    ensures Run(d, s[c.0..c.1]) && (c.1 < |s| ==> s[c.1] !in d)
  {
    var i := FirstDelim(d, s);
    var n := RunLength(d, s[i..]);
    assert n > 0;
    assert forall k :: 0 <= k < n ==> s[i..i + n][k] == s[i..][k];
    (i, i + n)
  }

  /**
    Cuts `s` at every maximal run of characters of `d`, the way
    `String.prototype.split` with the pattern `/\s+/` or `/[.!?]+/` does:
    the first component holds the pieces between the runs, the second the runs
    themselves, in order. A leading or trailing run yields an empty first or
    last piece, and a text without separators is a single piece.
   */
  function SplitWithRuns(d: set<char>, s: string): (r: (seq<string>, seq<string>))
    ensures |r.0| == |r.1| + 1
    ensures forall k :: 0 <= k < |r.1| ==> Run(d, r.1[k])
    decreases |s|
  {
    if FirstDelim(d, s) == |s| then ([s], [])
    else
      var (i, j) := Cut(d, s);
      var (ts, runs) := SplitWithRuns(d, s[j..]);
      assert forall k :: 1 <= k < |runs| + 1 ==> ([s[i..j]] + runs)[k] == runs[k - 1];
      ([s[..i]] + ts, [s[i..j]] + runs)
  }

  /** The pieces of `s` between maximal runs of characters of `d`. */
  function Split(d: set<char>, s: string): seq<string> {
    SplitWithRuns(d, s).0
  }

  /** The separator runs `Split` cuts out of `s`, in order. */
  function Runs(d: set<char>, s: string): seq<string> {
    SplitWithRuns(d, s).1
  }

  /** Interleaves the pieces `ts` with the separators `runs`. */
  function Glue(ts: seq<string>, runs: seq<string>): string
    requires |ts| == |runs| + 1
    decreases |runs|
  {
    if |runs| == 0 then ts[0] else ts[0] + runs[0] + Glue(ts[1..], runs[1..])
  }

  /**
    What the pieces of a split look like: none contains a separator, and only
    the first and the last piece can be empty.
   */
  ghost predicate Pieces(d: set<char>, ts: seq<string>) {
    && (forall k :: 0 <= k < |ts| ==> Free(d, ts[k]))
    && (forall k :: 0 < k < |ts| - 1 ==> ts[k] != [])
  }

  /** The pieces of a split contain no separator and, inside, are never empty. */
  lemma {:induction false} SplitPieces(d: set<char>, s: string)
    ensures Pieces(d, Split(d, s))
    decreases |s|
  {
    if FirstDelim(d, s) < |s| {
      var (i, j) := Cut(d, s);
      var rest := s[j..];
      SplitPieces(d, rest);
      var r := Split(d, s);
      assert r == [s[..i]] + Split(d, rest);
      assert forall k :: 1 <= k < |r| ==> r[k] == Split(d, rest)[k - 1];
      if FirstDelim(d, rest) < |rest| {
        assert rest[0] !in d;
        assert Split(d, rest)[0] == rest[..FirstDelim(d, rest)];
      }
    }
  }

  /** Gluing the pieces back with the runs that were cut out restores the text. */
  lemma {:induction false} GlueSplit(d: set<char>, s: string)
    ensures Glue(Split(d, s), Runs(d, s)) == s
    decreases |s|
  {
    if FirstDelim(d, s) < |s| {
      var (i, j) := Cut(d, s);
      GlueSplit(d, s[j..]);
      var ts, runs := Split(d, s), Runs(d, s);
      assert ts == [s[..i]] + Split(d, s[j..]);
      assert runs == [s[i..j]] + Runs(d, s[j..]);
      assert ts[1..] == Split(d, s[j..]);
      assert runs[1..] == Runs(d, s[j..]);
      assert s == s[..i] + s[i..j] + s[j..];
    }
  }

  /** A separator-free head followed by a run: the split cuts exactly there. */
  lemma CutAfter(d: set<char>, t: string, run: string, rest: string)
    requires Free(d, t) && Run(d, run)
    requires rest == [] || rest[0] !in d
    ensures FirstDelim(d, t + run + rest) == |t|
    ensures RunLength(d, (t + run + rest)[|t|..]) == |run|
  {
    var s := t + run + rest;
    FirstDelimFree(d, t, run + rest);
    assert s == t + (run + rest);
    RunLengthRun(d, run, rest);
    assert s[|t|..] == run + rest;
  }

  lemma {:induction false} FirstDelimFree(d: set<char>, t: string, u: string)
    requires Free(d, t) && |u| > 0 && u[0] in d
    ensures FirstDelim(d, t + u) == |t|
    decreases |t|
  {
    if |t| > 0 {
      assert (t + u)[1..] == t[1..] + u;
      FirstDelimFree(d, t[1..], u);
    } else {
      assert t + u == u;
    }
  }

  lemma {:induction false} RunLengthRun(d: set<char>, run: string, rest: string)
    requires forall k :: 0 <= k < |run| ==> run[k] in d
    requires rest == [] || rest[0] !in d
    ensures RunLength(d, run + rest) == |run|
    decreases |run|
  {
    if |run| > 0 {
      assert (run + rest)[1..] == run[1..] + rest;
      RunLengthRun(d, run[1..], rest);
    } else {
      assert run + rest == rest;
    }
  }

  lemma {:induction false} FirstDelimNone(d: set<char>, t: string)
    requires Free(d, t)
    ensures FirstDelim(d, t) == |t|
    decreases |t|
  {
    if |t| > 0 {
      FirstDelimNone(d, t[1..]);
    }
  }

  /** A separator-free head, a run, then text that does not continue the run: one cut. */
  lemma SplitCons(d: set<char>, t: string, run: string, rest: string)
    requires Free(d, t) && Run(d, run)
    requires rest == [] || rest[0] !in d
    ensures Split(d, t + run + rest) == [t] + Split(d, rest)
  {
    var s := t + run + rest;
    CutAfter(d, t, run, rest);
    assert Cut(d, s) == (|t|, |t| + |run|);
    assert s[..|t|] == t;
    assert s[|t| + |run|..] == rest;
  }

  /** Glued pieces of split shape, after the first piece, do not begin with a separator. */
  lemma GlueTailStart(d: set<char>, ts: seq<string>, runs: seq<string>)
    requires |ts| == |runs| + 1 && |runs| > 0 && Pieces(d, ts)
    ensures var rest := Glue(ts[1..], runs[1..]); rest == [] || rest[0] !in d
  {
    if |runs| > 1 {
      assert ts[1] != [] && Free(d, ts[1]);
      assert Glue(ts[1..], runs[1..]) == ts[1] + runs[1] + Glue(ts[2..], runs[2..]);
    } else {
      assert Free(d, ts[1]);
      assert Glue(ts[1..], runs[1..]) == ts[1];
    }
  }

  /**
    Splitting pieces glued with separator runs gives the pieces back, provided
    they have the shape a split produces.
   */
  lemma {:induction false} SplitGlue(d: set<char>, ts: seq<string>, runs: seq<string>)
    requires |ts| == |runs| + 1 && Pieces(d, ts)
    requires forall k :: 0 <= k < |runs| ==> Run(d, runs[k])
    ensures Split(d, Glue(ts, runs)) == ts
    decreases |runs|
  {
    if |runs| == 0 {
      FirstDelimNone(d, ts[0]);
    } else {
      assert Pieces(d, ts[1..]) by {
        assert forall k :: 0 <= k < |ts| - 1 ==> ts[1..][k] == ts[k + 1];
      }
      SplitGlue(d, ts[1..], runs[1..]);
      GlueTailStart(d, ts, runs);
      SplitCons(d, ts[0], runs[0], Glue(ts[1..], runs[1..]));
      assert ts == [ts[0]] + ts[1..];
    }
  }

  /** The concatenation of a sequence of strings. */
  function Concat(ts: seq<string>): string
    decreases |ts|
  {
    if |ts| == 0 then [] else ts[0] + Concat(ts[1..])
  }

  /** One single-character token per character of `s`: the spread `[...text]`. */
  function Letters(s: string): (r: seq<string>)
    ensures |r| == |s|
    ensures forall k :: 0 <= k < |r| ==> |r[k]| == 1
  {
    seq(|s|, k requires 0 <= k < |s| => [s[k]])
  }

  /** The letter tokens concatenate back to the text. */
  lemma {:induction false} ConcatLetters(s: string)
    ensures Concat(Letters(s)) == s
    decreases |s|
  {
    if |s| > 0 {
      assert Letters(s)[1..] == Letters(s[1..]);
      ConcatLetters(s[1..]);
    }
  }

  /** Single-character tokens are the letters of their concatenation. */
  lemma {:induction false} LettersConcat(ts: seq<string>)
    requires forall k :: 0 <= k < |ts| ==> |ts[k]| == 1
    ensures Letters(Concat(ts)) == ts
    decreases |ts|
  {
    if |ts| > 0 {
      LettersConcat(ts[1..]);
      var s := Concat(ts);
      assert s == ts[0] + Concat(ts[1..]);
      assert s[1..] == Concat(ts[1..]);
      forall k | 0 <= k < |ts|
        ensures Letters(s)[k] == ts[k]
      {
        if k > 0 {
          assert Letters(s)[k] == Letters(s[1..])[k - 1];
        }
      }
    }
  }

  /** The length of the run of characters of `d` that `s` ends with. */
  function TrailLength(d: set<char>, s: string): (n: nat)
    ensures n <= |s| && (forall k :: |s| - n <= k < |s| ==> s[k] in d)
    ensures n < |s| ==> s[|s| - n - 1] !in d
    decreases |s|
  {
    if |s| == 0 || s[|s| - 1] !in d then 0
    else 1 + TrailLength(d, s[..|s| - 1])
  }

  /** No character of `w` at either end of `s`. */
  predicate Stripped(w: set<char>, s: string) {
    s == [] || (s[0] !in w && s[|s| - 1] !in w)
  }

  /** `s` consists of characters of `w` only. */
  predicate Only(w: set<char>, s: string) {
    forall k :: 0 <= k < |s| ==> s[k] in w
  }

  /**
    Where the middle of `s` lies once the characters of `w` at either end are
    cut off: only such characters before and after it, none at its ends.
   */
  function StripBounds(w: set<char>, s: string): (b: (nat, nat))
    ensures b.0 <= b.1 <= |s|
    ensures Only(w, s[..b.0]) && Only(w, s[b.1..])
    ensures Stripped(w, s[b.0..b.1])
  {
    var i := RunLength(w, s);
    var j := |s| - TrailLength(w, s[i..]);
    assert forall k :: 0 <= k < |s| - j ==> s[j..][k] == s[i..][j - i + k];
    (i, j)
  }

  /** `s` without characters of `w` at either end. */
  function Strip(w: set<char>, s: string): string {
    var (i, j) := StripBounds(w, s);
    s[i..j]
  }

  lemma {:induction false} RunLengthOnly(d: set<char>, s: string)
    requires Only(d, s)
    ensures RunLength(d, s) == |s|
    decreases |s|
  {
    if |s| > 0 {
      RunLengthOnly(d, s[1..]);
    }
  }

  lemma {:induction false} TrailLengthRun(d: set<char>, t: string, trail: string)
    requires Only(d, trail)
    requires t == [] || t[|t| - 1] !in d
    ensures TrailLength(d, t + trail) == |trail|
    decreases |trail|
  {
    if |trail| > 0 {
      var n := |trail| - 1;
      assert (t + trail)[..|t| + n] == t + trail[..n];
      TrailLengthRun(d, t, trail[..n]);
    } else {
      assert t + trail == t;
    }
  }

  /**
    Stripping padding off a stripped string gives that string back; together
    with the contract of `StripBounds` this pins `Strip` down exactly.
   */
  lemma StripPadded(w: set<char>, lead: string, t: string, trail: string)
    requires Only(w, lead) && Only(w, trail) && Stripped(w, t)
    ensures Strip(w, lead + t + trail) == t
  {
    var s := lead + t + trail;
    if t == [] {
      assert Only(w, s);
      RunLengthOnly(w, s);
      assert s[|s|..] == [];
    } else {
      assert s == lead + (t + trail);
      RunLengthRun(w, lead, t + trail);
      assert s[|lead|..] == t + trail;
      TrailLengthRun(w, t, trail);
      assert s[|lead|..|lead| + |t|] == t;
    }
  }

  /** Stripping twice is stripping once. */
  lemma StripIdempotent(w: set<char>, s: string)
    ensures Strip(w, Strip(w, s)) == Strip(w, s)
  {
    var t := Strip(w, s);
    StripPadded(w, [], t, []);
    assert [] + t + [] == t;
  }

  /** Stripping removes characters only, so a piece free of `d` stays free of it. */
  lemma StripKeepsFree(w: set<char>, d: set<char>, s: string)
    requires Free(d, s)
    ensures Free(d, Strip(w, s))
  {
  }

  /** `String.prototype.trim`. */
  function Trim(s: string): string {
    Strip(Whitespace, s)
  }

  /** `t` is `p` with nothing but characters of `w` cut off either end. */
  ghost predicate Padding(w: set<char>, p: string, t: string) {
    exists i, j :: 0 <= i <= j <= |p| && Only(w, p[..i]) && p[i..j] == t && Only(w, p[j..])
  }

  /**
    The sentences of `s`: one per piece between terminators, each the middle
    of its piece with the whitespace around it cut off, so that it holds no
    terminator and starts and ends with something other than whitespace.
   */
  function Sentences(s: string): (r: seq<string>)
    ensures |r| == |Runs(Terminators, s)| + 1
    ensures forall k :: 0 <= k < |r| ==> Free(Terminators, r[k]) && Stripped(Whitespace, r[k])
    ensures forall k :: 0 <= k < |r| ==> Padding(Whitespace, Split(Terminators, s)[k], r[k])
  {
    var ps := Split(Terminators, s);
    SplitPieces(Terminators, s);
    var r := seq(|ps|, k requires 0 <= k < |ps| => Trim(ps[k]));
    forall k | 0 <= k < |r|
      ensures Free(Terminators, r[k]) && Stripped(Whitespace, r[k])
      ensures Padding(Whitespace, ps[k], r[k])
    {
      StripKeepsFree(Whitespace, Terminators, ps[k]);
      var b := StripBounds(Whitespace, ps[k]);
      assert ps[k][b.0..b.1] == r[k];
    }
    r
  }

  /**
    The facts `Sentences` states determine each sentence: a stripped string
    that `p` pads with whitespace is `Trim(p)`.
   */
  lemma PaddingTrim(p: string, t: string)
    requires Padding(Whitespace, p, t) && Stripped(Whitespace, t)
    ensures t == Trim(p)
  {
    var i, j :| 0 <= i <= j <= |p| && Only(Whitespace, p[..i]) && p[i..j] == t && Only(Whitespace, p[j..]);
    assert p == p[..i] + t + p[j..];
    StripPadded(Whitespace, p[..i], t, p[j..]);
  }

  datatype TokenError = InvalidLevel

  /** The tokens in order and the set of distinct tokens. */
  datatype Tokenized = Tokenized(tokens: seq<string>, vocabulary: set<string>)

  /** The set of distinct tokens of `ts`: what `new Set(tokens)` holds. */
  function Distinct(ts: seq<string>): (v: set<string>)
    ensures forall t :: t in v <==> exists k :: 0 <= k < |ts| && ts[k] == t
  {
    set k | 0 <= k < |ts| :: ts[k]
  }

  /**
    `tokenizeText`: splits `text` at the granularity named by `level` and
    collects the vocabulary; any other level is an error.
   */
  function TokenizeText(text: string, level: string): (r: Result<Tokenized, TokenError>)
    ensures r.Failure? <==> level != "letter" && level != "word" && level != "sentence"
    ensures r.Success? ==> forall t :: t in r.value.vocabulary <==> t in r.value.tokens
    ensures level == "letter" ==>
              && r.Success?
              && Concat(r.value.tokens) == text
              && forall k :: 0 <= k < |r.value.tokens| ==> |r.value.tokens[k]| == 1
    ensures level == "word" ==>
              && r.Success?
              && Pieces(Whitespace, r.value.tokens)
              && |r.value.tokens| == |Runs(Whitespace, text)| + 1
              && Glue(r.value.tokens, Runs(Whitespace, text)) == text
    ensures level == "sentence" ==>
              && r.Success?
              && |r.value.tokens| == |Runs(Terminators, text)| + 1
              && (forall k :: 0 <= k < |r.value.tokens| ==>
                    r.value.tokens[k] == Trim(Split(Terminators, text)[k]))
              && forall k :: 0 <= k < |r.value.tokens| ==>
                   Free(Terminators, r.value.tokens[k]) && Stripped(Whitespace, r.value.tokens[k])
  {
    var tokens :=
      if level == "letter" then Letters(text)
      else if level == "word" then Split(Whitespace, text)
      else if level == "sentence" then Sentences(text)
      else [];
    if level == "letter" then
      ConcatLetters(text);
      Success(Tokenized(tokens, Distinct(tokens)))
    else if level == "word" then
      SplitPieces(Whitespace, text);
      GlueSplit(Whitespace, text);
      Success(Tokenized(tokens, Distinct(tokens)))
    else if level == "sentence" then
      SplitPieces(Terminators, text);
      Success(Tokenized(tokens, Distinct(tokens)))
    else
      Failure(InvalidLevel)
  }
}
