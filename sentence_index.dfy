/**
 * The ordinal key builder (`Corpus._idx_sentences`): turns the flat per-document
 * token stream into (doc, sent, word) keys.
 *
 * The source computes it in four vectorised steps, each modelled here by a
 * specification function and a method with a loop proved against it:
 *   1. the sentence-break marks (1 for a `.` token), shifted by one row within
 *      each document (`ShiftBreaks`, spec `Shifted`);
 *   2. a backward fill over the WHOLE column, not per document (`BackFill`,
 *      spec `BFill`) -- the quirk that lifts a document opening with `.` to
 *      sentence 2 and lets a one-token document borrow its neighbour's mark;
 *   3. a per-document expanding sum cast to int, which fails when a sum is
 *      still missing (`ExpandingSums`, spec `SentOrdinals`);
 *   4. a per-(doc, sent) cumulative count for the word ordinal (`CumCounts`,
 *      spec `WordOrdinals`).
 */
module SentenceIndex {
  import opened Table

  /** The rows are grouped by document and the documents sorted. */
  ghost predicate SortedDocs(docs: seq<DocId>) {
    forall i, j :: 0 <= i < j < |docs| ==> docs[i] <= docs[j]
  }

  /** The sentence-break mark of one token. */
  function Brk(t: string): nat {
    if t == "." then 1 else 0
  }

  /** Number of `.` tokens in `ts`. */
  function Dots(ts: seq<string>): nat {
    if ts == [] then 0 else Dots(ts[..|ts| - 1]) + Brk(ts[|ts| - 1])
  }

  /** Step 1: the break mark of the previous row of the same document, if any. */
  function Shifted(docs: seq<DocId>, toks: seq<string>): (r: seq<Option<nat>>)
    requires |docs| == |toks|
    ensures |r| == |docs|
  {
    seq(|docs|, i requires 0 <= i < |docs| =>
      if i > 0 && docs[i - 1] == docs[i] then Some(Brk(toks[i - 1])) else None)
  }

  /** The first present value at or after position `i`. */
  function NextSome<T>(s: seq<Option<T>>, i: nat): Option<T>
    decreases |s| - i
  {
    if i >= |s| then None
    else if s[i].Some? then s[i]
    else NextSome(s, i + 1)
  }

  /** Step 2: backward fill of missing values over the whole column. */
  function BFill<T>(s: seq<Option<T>>): (r: seq<Option<T>>)
    ensures |r| == |s|
  {
    seq(|s|, i requires 0 <= i < |s| => NextSome(s, i))
  }

  function Filled(docs: seq<DocId>, toks: seq<string>): (r: seq<Option<nat>>)
    requires |docs| == |toks|
    ensures |r| == |docs|
  {
    BFill(Shifted(docs, toks))
  }

  /**
   * Step 3: the expanding sum of `f` within the document of row `i`; missing
   * values are skipped and the sum is missing while nothing was present.
   */
  function ExpSum(docs: seq<DocId>, f: seq<Option<nat>>, i: nat): Option<nat>
    requires |f| == |docs| && i < |docs|
    decreases i
  {
    var prev := if i > 0 && docs[i - 1] == docs[i] then ExpSum(docs, f, i - 1) else None;
    match (prev, f[i])
    case (None, x) => x
    case (Some(a), None) => Some(a)
    case (Some(a), Some(b)) => Some(a + b)
  }

  /** Sentence ordinals, or the failure of the integer cast over a missing sum. */
  function SentOrdinalsFrom(docs: seq<DocId>, f: seq<Option<nat>>): (r: Result<seq<nat>>)
    requires |f| == |docs|
    ensures r.Ok? ==> |r.value| == |docs|
  {
    if exists i :: 0 <= i < |docs| && ExpSum(docs, f, i).None? then Err(NonFiniteSentence)
    else Ok(seq(|docs|, i requires 0 <= i < |docs| => 1 + ExpSum(docs, f, i).value))
  }

  function SentOrdinals(docs: seq<DocId>, toks: seq<string>): (r: Result<seq<nat>>)
    requires |docs| == |toks|
    ensures r.Ok? ==> |r.value| == |docs|
  {
    SentOrdinalsFrom(docs, Filled(docs, toks))
  }

  function Pairs(docs: seq<DocId>, sents: seq<nat>): (ps: seq<(DocId, nat)>)
    requires |docs| == |sents|
    ensures |ps| == |docs|
  {
    seq(|docs|, i requires 0 <= i < |docs| => (docs[i], sents[i]))
  }

  /** Step 4: 1 + the number of earlier rows with the same (doc, sent). */
  function WordOrdinals(docs: seq<DocId>, sents: seq<nat>): (w: seq<nat>)
    requires |docs| == |sents|
    ensures |w| == |docs|
  {
    var ps := Pairs(docs, sents);
    seq(|docs|, i requires 0 <= i < |docs| => 1 + CumCount(ps, i))
  }

  /**
   * The keys `_idx_sentences` installs, or the fault it raises: the only
   * fault is the integer cast of a missing sentence ordinal, and every
   * installed ordinal counts from 1.
   */
  function IndexKeys(docs: seq<DocId>, toks: seq<string>): (r: Result<seq<Key>>)
    requires |docs| == |toks|
    ensures r.Ok? ==> |r.value| == |docs|
    ensures r.Err? ==> r.fault == NonFiniteSentence
    ensures r.Ok? ==> forall i :: 0 <= i < |docs| ==> r.value[i].sent >= 1 && r.value[i].word >= 1
  {
    match SentOrdinals(docs, toks)
    case Err(e) => Err(e)
    case Ok(sents) =>
      var words := WordOrdinals(docs, sents);
      Ok(seq(|docs|, i requires 0 <= i < |docs| => Key(docs[i], sents[i], words[i])))
  }

  // ---------------------------------------------------------------------------
  // The four passes

  method ShiftBreaks(docs: seq<DocId>, toks: seq<string>) returns (s: seq<Option<nat>>)
    requires |docs| == |toks|
    ensures s == Shifted(docs, toks)
  {
    s := [];
    var i := 0;
    while i < |docs|
      invariant 0 <= i <= |docs| && |s| == i
      invariant forall k :: 0 <= k < i ==> s[k] == Shifted(docs, toks)[k]
    {
      var m := if i > 0 && docs[i - 1] == docs[i] then Some(Brk(toks[i - 1])) else None;
      s := s + [m];
      i := i + 1;
    }
  }

  method BackFill<T>(s: seq<Option<T>>) returns (r: seq<Option<T>>)
    ensures r == BFill(s)
  {
    r := [];
    var carry: Option<T> := None;
    var i := |s|;
    while i > 0
      invariant 0 <= i <= |s| && |r| == |s| - i
      invariant carry == NextSome(s, i)
      invariant forall k :: i <= k < |s| ==> r[k - i] == NextSome(s, k)
    {
      i := i - 1;
      if s[i].Some? {
        carry := s[i];
      }
      r := [carry] + r;
    }
  }

  method ExpandingSums(docs: seq<DocId>, f: seq<Option<nat>>) returns (r: Result<seq<nat>>)
    requires |f| == |docs|
    ensures r == SentOrdinalsFrom(docs, f)
  {
    var sents: seq<nat> := [];
    var acc: Option<nat> := None;
    var i := 0;
    while i < |docs|
      invariant 0 <= i <= |docs| && |sents| == i
      invariant i > 0 ==> acc == ExpSum(docs, f, i - 1)
      invariant forall k :: 0 <= k < i ==> ExpSum(docs, f, k).Some? && sents[k] == 1 + ExpSum(docs, f, k).value
    {
      var prev := if i > 0 && docs[i - 1] == docs[i] then acc else None;
      acc := match (prev, f[i])
        case (None, x) => x
        case (Some(a), None) => Some(a)
        case (Some(a), Some(b)) => Some(a + b);
      assert acc == ExpSum(docs, f, i);
      if acc.None? {
        return Err(NonFiniteSentence);
      }
      sents := sents + [1 + acc.value];
      i := i + 1;
    }
    assert forall k :: 0 <= k < |docs| ==> !ExpSum(docs, f, k).None?;
    assert sents == SentOrdinalsFrom(docs, f).value;
    r := Ok(sents);
  }

  method CumCounts<G(==)>(gs: seq<G>) returns (c: seq<nat>)
    ensures |c| == |gs|
    ensures forall i :: 0 <= i < |gs| ==> c[i] == CumCount(gs, i)
  {
    var seen: map<G, nat> := map[];
    c := [];
    var i := 0;
    while i < |gs|
      invariant 0 <= i <= |gs| && |c| == i
      invariant forall k :: 0 <= k < i ==> c[k] == CumCount(gs, k)
      invariant forall x :: Occ(gs[..i], x) == if x in seen then seen[x] else 0
    {
      var n := if gs[i] in seen then seen[gs[i]] else 0;
      c := c + [n];
      seen := seen[gs[i] := n + 1];
      assert gs[..i + 1] == gs[..i] + [gs[i]];
      forall x ensures Occ(gs[..i + 1], x) == if x in seen then seen[x] else 0 {
        OccSnoc(gs[..i], gs[i], x);
      }
      i := i + 1;
    }
  }

  /** `_idx_sentences`: the keys of every row, or the fault of the int cast. */
  method IndexSentences(docs: seq<DocId>, toks: seq<string>) returns (r: Result<seq<Key>>)
    requires |docs| == |toks|
    requires SortedDocs(docs)
    ensures r == IndexKeys(docs, toks)
  {
    var shifted := ShiftBreaks(docs, toks);
    var filled := BackFill(shifted);
    var sents := ExpandingSums(docs, filled);
    if sents.Err? {
      return Err(sents.fault);
    }
    var ps := Pairs(docs, sents.value);
    var counts := CumCounts(ps);
    var keys := seq(|docs|, i requires 0 <= i < |docs| => Key(docs[i], sents.value[i], 1 + counts[i]));
    assert SentOrdinals(docs, toks) == sents;
    assert keys == IndexKeys(docs, toks).value;
    r := Ok(keys);
  }

  // ---------------------------------------------------------------------------
  // Properties

  lemma {:induction false} NextSomeSpec<T>(s: seq<Option<T>>, i: nat)
    requires i <= |s|
    ensures NextSome(s, i).None? <==> forall k :: i <= k < |s| ==> s[k].None?
    ensures NextSome(s, i).Some? ==>
      exists j :: i <= j < |s| && s[j] == NextSome(s, i) && forall k :: i <= k < j ==> s[k].None?
    decreases |s| - i
  {
    if i < |s| && s[i].None? {
      NextSomeSpec(s, i + 1);
      if NextSome(s, i).Some? {
        var j :| i + 1 <= j < |s| && s[j] == NextSome(s, i + 1) && forall k :: i + 1 <= k < j ==> s[k].None?;
        assert forall k :: i <= k < j ==> s[k].None?;
      }
    }
  }

  /**
   * The backward fill keeps present values, fills a missing one with the next
   * present value below it, and leaves it missing only when nothing follows.
   */
  lemma BFillSpec<T>(s: seq<Option<T>>, i: nat)
    requires i < |s|
    ensures s[i].Some? ==> BFill(s)[i] == s[i]
    ensures BFill(s)[i].None? <==> forall k :: i <= k < |s| ==> s[k].None?
    ensures BFill(s)[i].Some? ==>
      exists j :: i <= j < |s| && s[j] == BFill(s)[i] && forall k :: i <= k < j ==> s[k].None?
  {
    NextSomeSpec(s, i);
  }

  /** Filling twice changes nothing. */
  lemma BFillIdempotent<T>(s: seq<Option<T>>)
    ensures BFill(BFill(s)) == BFill(s)
  {
    var f := BFill(s);
    forall i | 0 <= i < |s| ensures NextSome(f, i) == f[i] {
      NextSomeSpec(s, i);
      NextSomeSpec(f, i);
      if f[i].None? {
        forall k | i <= k < |s| ensures f[k].None? {
          NextSomeSpec(s, k);
        }
      }
    }
  }

  lemma ExpSumNoneIff(docs: seq<DocId>, toks: seq<string>, i: nat)
    requires |docs| == |toks| && i < |docs|
    ensures ExpSum(docs, Filled(docs, toks), i).None? <==> Filled(docs, toks)[i].None?
  {
    var f := Filled(docs, toks);
    if f[i].None? {
      NextSomeSpec(Shifted(docs, toks), i);
      assert Shifted(docs, toks)[i].None?;
    }
  }

  /**
   * Indexing fails (the int cast meets a missing sentence sum) exactly when
   * the last document has a single token: only then is a shifted mark still
   * missing after the backward fill.
   */
  lemma IndexFailsIff(docs: seq<DocId>, toks: seq<string>)
    requires |docs| == |toks|
    ensures IndexKeys(docs, toks).Err? <==>
      |docs| > 0 && (|docs| == 1 || docs[|docs| - 2] != docs[|docs| - 1])
  {
    var n := |docs|;
    var sh := Shifted(docs, toks);
    var f := Filled(docs, toks);
    if IndexKeys(docs, toks).Err? {
      var i :| 0 <= i < n && ExpSum(docs, f, i).None?;
      ExpSumNoneIff(docs, toks, i);
      NextSomeSpec(sh, i);
      assert sh[n - 1].None?;
    }
    if n > 0 && (n == 1 || docs[n - 2] != docs[n - 1]) {
      assert sh[n - 1].None?;
      NextSomeSpec(sh, n - 1);
      ExpSumNoneIff(docs, toks, n - 1);
    }
  }

  lemma {:induction false} ExpSumClosedForm(docs: seq<DocId>, toks: seq<string>, s: nat, i: nat)
    requires |docs| == |toks|
    requires s + 1 < |docs| && (s == 0 || docs[s - 1] != docs[s]) && docs[s + 1] == docs[s]
    requires s <= i < |docs| && forall k :: s <= k <= i ==> docs[k] == docs[s]
    ensures ExpSum(docs, Filled(docs, toks), i) == Some(Brk(toks[s]) + Dots(toks[s..i]))
    decreases i
  {
    var sh := Shifted(docs, toks);
    var f := Filled(docs, toks);
    if i == s {
      assert f[s] == NextSome(sh, s) == NextSome(sh, s + 1);
      assert toks[s..s] == [];
    } else {
      ExpSumClosedForm(docs, toks, s, i - 1);
      assert f[i] == Some(Brk(toks[i - 1]));
      var before := Brk(toks[s]) + Dots(toks[s..i - 1]);
      assert ExpSum(docs, f, i) == Some(before + Brk(toks[i - 1]));
      assert toks[s..i][..i - 1 - s] == toks[s..i - 1];
      assert Dots(toks[s..i]) == Dots(toks[s..i - 1]) + Brk(toks[i - 1]);
    }
  }

  /**
   * In a document of at least two tokens starting at row `s`, the sentence
   * ordinal of row `i` is 1 + the number of `.` tokens before it in the
   * document + 1 more when the document opens with `.` (the backward fill
   * copies the first token's own mark into the first row).
   */
  lemma SentClosedForm(docs: seq<DocId>, toks: seq<string>, keys: seq<Key>, s: nat, i: nat)
    requires |docs| == |toks| && IndexKeys(docs, toks) == Ok(keys)
    requires s + 1 < |docs| && (s == 0 || docs[s - 1] != docs[s]) && docs[s + 1] == docs[s]
    requires s <= i < |docs| && forall k :: s <= k <= i ==> docs[k] == docs[s]
    ensures keys[i].sent == 1 + Brk(toks[s]) + Dots(toks[s..i])
  {
    ExpSumClosedForm(docs, toks, s, i);
  }

  /**
   * A one-token document that is followed by a document of at least two
   * tokens takes its sentence ordinal from that next document's first token.
   */
  lemma SingletonDocBorrowsNext(docs: seq<DocId>, toks: seq<string>, keys: seq<Key>, s: nat)
    requires |docs| == |toks| && IndexKeys(docs, toks) == Ok(keys)
    requires s + 2 < |docs| && (s == 0 || docs[s - 1] != docs[s])
    requires docs[s + 1] != docs[s] && docs[s + 2] == docs[s + 1]
    ensures keys[s].sent == 1 + Brk(toks[s + 1])
  {
    var sh := Shifted(docs, toks);
    assert NextSome(sh, s) == NextSome(sh, s + 1) == NextSome(sh, s + 2);
  }

  /** The document level of the index is the documents the rows came with. */
  lemma IndexKeepsDocs(docs: seq<DocId>, toks: seq<string>, keys: seq<Key>)
    requires |docs| == |toks| && IndexKeys(docs, toks) == Ok(keys)
    ensures forall i :: 0 <= i < |docs| ==> keys[i].doc == docs[i]
  {
  }

  lemma SentStep(docs: seq<DocId>, toks: seq<string>, sents: seq<nat>, i: nat)
    requires |docs| == |toks| && SentOrdinals(docs, toks) == Ok(sents)
    requires i + 1 < |docs| && docs[i] == docs[i + 1]
    ensures sents[i + 1] == sents[i] + Brk(toks[i])
  {
    var f := Filled(docs, toks);
    assert f[i + 1] == Some(Brk(toks[i]));
    assert ExpSum(docs, f, i).Some?;
  }

  /** Within a document, the sentence ordinal grows by the `.` tokens passed. */
  lemma {:induction false} SentAdvance(docs: seq<DocId>, toks: seq<string>, sents: seq<nat>, i: nat, j: nat)
    requires |docs| == |toks| && SentOrdinals(docs, toks) == Ok(sents) && SortedDocs(docs)
    requires i <= j < |docs| && docs[i] == docs[j]
    ensures sents[j] == sents[i] + Dots(toks[i..j])
    decreases j - i
  {
    if i == j {
      assert toks[i..j] == [];
    } else {
      assert docs[i] <= docs[j - 1] <= docs[j];
      SentAdvance(docs, toks, sents, i, j - 1);
      SentStep(docs, toks, sents, j - 1);
      assert toks[i..j][..j - 1 - i] == toks[i..j - 1];
    }
  }

  lemma PairsContiguous(docs: seq<DocId>, toks: seq<string>, sents: seq<nat>)
    requires |docs| == |toks| && SentOrdinals(docs, toks) == Ok(sents) && SortedDocs(docs)
    ensures GroupsContiguous(Pairs(docs, sents))
  {
    var ps := Pairs(docs, sents);
    forall i, k, j | 0 <= i < k < j < |ps| && ps[i] == ps[j] ensures ps[k] == ps[i] {
      assert docs[i] <= docs[k] <= docs[j];
      SentAdvance(docs, toks, sents, i, k);
      SentAdvance(docs, toks, sents, k, j);
    }
  }

  /**
   * A `.` closes its sentence: the next row of the same document opens the
   * next sentence at word 1; any other token is followed by the next word of
   * the same sentence.
   */
  lemma DotClosesSentence(docs: seq<DocId>, toks: seq<string>, keys: seq<Key>, i: nat)
    requires |docs| == |toks| && IndexKeys(docs, toks) == Ok(keys) && SortedDocs(docs)
    requires i + 1 < |docs| && docs[i] == docs[i + 1]
    ensures keys[i + 1].sent == keys[i].sent + Brk(toks[i])
    ensures keys[i + 1].word == if toks[i] == "." then 1 else keys[i].word + 1
  {
    var sents := SentOrdinals(docs, toks).value;
    SentStep(docs, toks, sents, i);
    PairsContiguous(docs, toks, sents);
    CumCountStep(Pairs(docs, sents), i + 1);
  }

  /** A `.` token carries the largest word ordinal of its sentence. */
  lemma DotIsLastWord(docs: seq<DocId>, toks: seq<string>, keys: seq<Key>, i: nat, j: nat)
    requires |docs| == |toks| && IndexKeys(docs, toks) == Ok(keys) && SortedDocs(docs)
    requires i < |docs| && toks[i] == "." && j < |docs| && SameSent(keys[j], keys[i])
    ensures keys[j].word <= keys[i].word
  {
    var sents := SentOrdinals(docs, toks).value;
    if j < i {
      CumCountStrict(Pairs(docs, sents), j, i);
    } else if i < j {
      assert docs[i] <= docs[i + 1] <= docs[j];
      SentStep(docs, toks, sents, i);
      SentAdvance(docs, toks, sents, i + 1, j);
    }
  }

  /** The installed keys satisfy the contiguity invariant. */
  lemma IndexWellKeyed(docs: seq<DocId>, toks: seq<string>, keys: seq<Key>)
    requires |docs| == |toks| && IndexKeys(docs, toks) == Ok(keys) && SortedDocs(docs)
    ensures WellKeyed(keys)
  {
    var sents := SentOrdinals(docs, toks).value;
    var ps := Pairs(docs, sents);
    PairsContiguous(docs, toks, sents);
    forall i, j | 0 <= i < j < |keys|
      ensures keys[i].doc < keys[j].doc || (keys[i].doc == keys[j].doc && keys[i].sent <= keys[j].sent)
    {
      if docs[i] == docs[j] {
        SentAdvance(docs, toks, sents, i, j);
      }
    }
    forall i | 0 <= i < |keys|
      ensures keys[i].word > 1 ==> i > 0 && SameSent(keys[i - 1], keys[i]) && keys[i - 1].word + 1 == keys[i].word
    {
      CumCountStep(ps, i);
    }
    forall i, j | 0 <= i < j < |keys| ensures keys[i] != keys[j] {
      if ps[i] == ps[j] {
        CumCountStrict(ps, i, j);
      }
    }
  }
}
