/**
 * The `Corpus` object: a token table keyed by (doc, sent, word), the token
 * series beside it, and the set and number of its documents. Every feature
 * step adds or replaces columns of the table in place.
 */
module CorpusModel {
  import opened Table
  import SentenceIndex
  import Windows
  import Markers
  import Deprel
  import Text

  /** The documents an index mentions (`index.unique('doc')`). */
  function DocsOf(index: seq<Key>): set<DocId> {
    set i | 0 <= i < |index| :: index[i].doc
  }

  /** The table column the token series becomes: a series named `Word` is renamed `token`. */
  function TokenColumnName(name: string): string {
    if name == "Word" then "token" else name
  }

  function TokenColumn(toks: seq<string>): (col: Column)
    ensures |col| == |toks|
  {
    seq(|toks|, i requires 0 <= i < |toks| => Str(toks[i]))
  }

  /** The positions below n of the rows whose document is selected, in row order. */
  function Kept(index: seq<Key>, sel: set<DocId>, n: nat): (ks: seq<nat>)
    requires n <= |index|
    ensures forall k :: 0 <= k < |ks| ==> ks[k] < n
  {
    if n == 0 then []
    else
      var rest := Kept(index, sel, n - 1);
      if index[n - 1].doc in sel then rest + [n - 1] else rest
  }

  /**
   * The kept positions are exactly the rows of selected documents, each
   * once and in increasing order.
   */
  lemma {:induction false} KeptSpec(index: seq<Key>, sel: set<DocId>, n: nat)
    requires n <= |index|
    ensures forall k :: 0 <= k < |Kept(index, sel, n)| ==> index[Kept(index, sel, n)[k]].doc in sel
    ensures forall i :: 0 <= i < n && index[i].doc in sel ==> i in Kept(index, sel, n)
    ensures forall k, l :: 0 <= k < l < |Kept(index, sel, n)| ==> Kept(index, sel, n)[k] < Kept(index, sel, n)[l]
  {
    if n > 0 {
      KeptSpec(index, sel, n - 1);
    }
  }

  function Pick<T>(s: seq<T>, ks: seq<nat>): (r: seq<T>)
    requires forall k :: 0 <= k < |ks| ==> ks[k] < |s|
    ensures |r| == |ks|
  {
    seq(|ks|, k requires 0 <= k < |ks| => s[ks[k]])
  }

  function PickColumns(cols: Columns, n: nat, ks: seq<nat>): (r: Columns)
    requires Shaped(cols, n)
    requires forall k :: 0 <= k < |ks| ==> ks[k] < n
    ensures r.Keys == cols.Keys && Shaped(r, |ks|)
  {
    map c | c in cols :: Pick(cols[c], ks)
  }

  /** The elements of a sequence, as a set. */
  function SetOf<T>(s: seq<T>): set<T> {
    set x | x in s
  }

  /** A sequence without repeats has as many elements as its set. */
  lemma {:induction false} DistinctCard<T>(s: seq<T>)
    requires forall k, l :: 0 <= k < l < |s| ==> s[k] != s[l]
    ensures |SetOf(s)| == |s|
    decreases |s|
  {
    if s != [] {
      var init := s[..|s| - 1];
      DistinctCard(init);
      assert SetOf(s) == SetOf(init) + {s[|s| - 1]};
      assert s[|s| - 1] !in SetOf(init);
    }
  }

  class Corpus {
    /** The (doc, sent, word) key of every row, shared by the table and the series. */
    var index: seq<Key>
    /** `doc_series`: the token of every row. */
    var tokens: seq<string>
    /** `df`: the named columns of the table. */
    var cols: Columns
    var docIds: set<DocId>
    var nDocs: nat

    /**
     * The series and the table share one well-keyed index (ordered by
     * (doc, sent), without repeated keys, word ordinals counting up from 1 in
     * every sentence), and the document set is the index's.
     */
    ghost predicate Valid()
      reads this
    {
      && WellKeyed(index)
      && |tokens| == |index|
      && Shaped(cols, |index|)
      && docIds == DocsOf(index)
      && nDocs == |docIds|
    }

    /** `Corpus(doc_series, indexed=True)`: the series keeps its own key. */
    constructor Indexed(keys: seq<Key>, toks: seq<string>, name: string)
      requires |keys| == |toks| && WellKeyed(keys)
      ensures Valid()
      ensures index == keys && tokens == toks
      ensures cols == map[TokenColumnName(name) := TokenColumn(toks)]
      ensures docIds == DocsOf(keys)
    {
      index := keys;
      tokens := toks;
      cols := map[TokenColumnName(name) := TokenColumn(toks)];
      docIds := DocsOf(keys);
      nDocs := |DocsOf(keys)|;
    }

    /**
     * `Corpus(doc_series)`: the rows come with their document ids, grouped
     * by document and sorted; the sentence and word ordinals are computed.
     */
    static method New(docs: seq<DocId>, toks: seq<string>, name: string) returns (r: Result<Corpus>)
      requires |docs| == |toks| && SentenceIndex.SortedDocs(docs)
      ensures r.Err? <==> SentenceIndex.IndexKeys(docs, toks).Err?
      ensures r.Err? ==> r.fault == SentenceIndex.IndexKeys(docs, toks).fault
      ensures r.Ok? ==>
        && fresh(r.value)
        && r.value.Valid()
        && r.value.index == SentenceIndex.IndexKeys(docs, toks).value
        && WellKeyed(r.value.index)
        && r.value.tokens == toks
        && r.value.cols == map[TokenColumnName(name) := TokenColumn(toks)]
        && r.value.docIds == set d | d in docs
    {
      var keys := SentenceIndex.IndexSentences(docs, toks);
      if keys.Err? {
        return Err(keys.fault);
      }
      SentenceIndex.IndexWellKeyed(docs, toks, keys.value);
      var c := new Corpus.Indexed(keys.value, toks, name);
      SentenceIndex.IndexKeepsDocs(docs, toks, keys.value);
      forall d | d in docs ensures d in DocsOf(keys.value) {
        var i :| 0 <= i < |docs| && docs[i] == d;
        assert keys.value[i].doc == d;
      }
      r := Ok(c);
    }

    /**
     * `add_locators`: copy the sentence and word ordinals into `sent_id` and
     * `sent_loc`, or fail with the table unchanged when a column already
     * carries the name of a key level.
     */
    method AddLocators() returns (fault: Option<Fault>)
      requires Valid()
      modifies this`cols
      ensures Valid()
      ensures var r := Markers.AddLocators(old(cols), index);
        && (r.Ok? ==> cols == r.value && fault.None?)
        && (r.Err? ==> cols == old(cols) && fault == Some(r.fault))
    {
      var r := Markers.AddLocators(cols, index);
      if r.Err? {
        return Some(r.fault);
      }
      cols := r.value;
      return None;
    }

    /**
     * `lag_cols(columns, window_size, level, fill_value)`: for every source
     * column and every offset, one shifted column; a fault keeps the columns
     * already added.
     */
    method LagCols(columns: seq<string>, w: int, level: seq<LevelName>, fill: Value) returns (fault: Option<Fault>)
      requires Valid()
      modifies this`cols
      ensures Valid()
      ensures var r := Windows.LagCols(old(cols), index, columns, w, level, fill);
        && cols == r.state
        && (fault.None? <==> r.Complete?)
        && (r.Aborted? ==> fault == Some(r.fault))
    {
      fault := None;
      if w < 0 {
        return Some(EmptyLagRange);
      }
      var lags := Windows.LagOffsets(w);
      ghost var start := cols;
      var i := 0;
      while i < |columns|
        invariant 0 <= i <= |columns|
        invariant Valid() && fault.None?
        invariant Windows.LagAll(start, index, columns, lags, level, fill)
          == Windows.LagAll(cols, index, columns[i..], lags, level, fill)
      {
        LagAllStep(cols, index, columns, i, lags, level, fill);
        fault := LagColumnAll(columns[i], lags, level, fill);
        if fault.Some? {
          return;
        }
        i := i + 1;
      }
    }

    /** The inner loop of `lag_cols`: every offset of one source column. */
    method LagColumnAll(column: string, lags: seq<int>, level: seq<LevelName>, fill: Value) returns (fault: Option<Fault>)
      requires Valid()
      modifies this`cols
      ensures Valid()
      ensures var r := Windows.LagEach(old(cols), index, column, lags, level, fill);
        && cols == r.state
        && (fault.None? <==> r.Complete?)
        && (r.Aborted? ==> fault == Some(r.fault))
    {
      var c := cols;
      var idx := index;
      var j := 0;
      while j < |lags|
        invariant 0 <= j <= |lags|
        invariant Shaped(c, |idx|)
        invariant Windows.LagEach(old(cols), idx, column, lags, level, fill)
          == Windows.LagEach(c, idx, column, lags[j..], level, fill)
      {
        if column !in c {
          cols := c;
          return Some(MissingColumn(column));
        }
        if level == [] {
          cols := c;
          return Some(NoGroupKeys);
        }
        LagEachStep(c, idx, column, lags, j, level, fill);
        c := c[Windows.LagName(column, lags[j]) :=
               Windows.LagColumn(Groups(idx, level), c[column], lags[j], fill)];
        j := j + 1;
      }
      cols := c;
      return None;
    }

    /** `mark_first_last`: the four marker columns, or the fault, with the table unchanged. */
    method MarkFirstLast() returns (fault: Option<Fault>)
      requires Valid()
      modifies this`cols
      ensures Valid()
      ensures var r := Markers.MarkFirstLast(old(cols), index);
        && (r.Ok? ==> cols == r.value && fault.None?)
        && (r.Err? ==> cols == old(cols) && fault == Some(r.fault))
    {
      var r := Markers.MarkFirstLast(cols, index);
      if r.Err? {
        return Some(r.fault);
      }
      cols := r.value;
      return None;
    }

    /** `mark_capitals`: the case flags of every token and the per-sentence `near_cap` flag. */
    method MarkCapitals()
      requires Valid()
      modifies this`cols
      ensures Valid()
      ensures cols == old(cols) + Markers.CapitalColumns(index, tokens)
    {
      cols := cols + Markers.CapitalColumns(index, tokens);
    }

    /** `parse_deprel(parse_features)`; a late fault keeps `dist_to_parent`. */
    method ParseDeprel(features: seq<string>) returns (fault: Option<Fault>)
      requires Valid()
      modifies this`cols
      ensures Valid()
      ensures var r := Deprel.ParseDeprel(old(cols), index, features);
        && cols == r.state
        && (fault.None? <==> r.Complete?)
        && (r.Aborted? ==> fault == Some(r.fault))
    {
      var r := Deprel.ParseDeprel(cols, index, features);
      cols := r.state;
      if r.Aborted? {
        return Some(r.fault);
      }
      return None;
    }

    /** `add_pos_stem`. */
    method AddPosStem() returns (fault: Option<Fault>)
      requires Valid()
      modifies this`cols
      ensures Valid()
      ensures var r := Text.AddPosStem(old(cols));
        && (r.Ok? ==> cols == r.value && fault.None?)
        && (r.Err? ==> cols == old(cols) && fault == Some(r.fault))
    {
      var r := Text.AddPosStem(cols);
      if r.Err? {
        return Some(r.fault);
      }
      cols := r.value;
      return None;
    }

    /**
     * `zip_sents`: one text per sentence, in increasing (doc, sent) order,
     * every row's sentence among them, each its tokens joined by single spaces.
     */
    function ZipSents(): (texts: seq<(Text.Label, string)>)
      reads this
      requires Valid()
      ensures var runs := Text.Runs(index, tokens);
        && |texts| == |runs|
        && forall j :: 0 <= j < |runs| ==> texts[j].0 == runs[j].id && texts[j].1 == Text.Join(runs[j].words)
      ensures forall j, k :: 0 <= j < k < |texts| ==> Text.LabelLess(texts[j].0, texts[k].0)
      ensures forall i :: 0 <= i < |index| ==>
        exists j :: 0 <= j < |texts| && texts[j].0 == Text.LabelOf(index[i])
    {
      Text.ZipSents(index, tokens)
    }

    /**
     * `downsample` with the chosen documents passed in: keep exactly the rows
     * of those documents, in their order, in the table and in the series.
     */
    method Downsample(selected: seq<DocId>)
      requires Valid()
      requires forall k :: 0 <= k < |selected| ==> selected[k] in docIds
      requires forall k, l :: 0 <= k < l < |selected| ==> selected[k] != selected[l]
      modifies this
      ensures Valid()
      ensures var ks := Kept(old(index), SetOf(selected), |old(index)|);
        && index == Pick(old(index), ks)
        && tokens == Pick(old(tokens), ks)
        && cols == PickColumns(old(cols), |old(index)|, ks)
      ensures docIds == SetOf(selected)
      ensures nDocs == |selected|
    {
      var idx, toks, cs := index, tokens, cols;
      var sel := SetOf(selected);
      var ks := Kept(idx, sel, |idx|);
      DownsampleState(idx, selected);
      index, tokens, cols := Pick(idx, ks), Pick(toks, ks), PickColumns(cs, |idx|, ks);
      docIds, nDocs := sel, |selected|;
    }
  }

  /** The step of the column loop of `lag_cols`: one column's lags, then the rest. */
  lemma LagAllStep(c: Columns, index: seq<Key>, columns: seq<string>, i: nat, lags: seq<int>,
                   level: seq<LevelName>, fill: Value)
    requires Shaped(c, |index|) && i < |columns|
    ensures Windows.LagAll(c, index, columns[i..], lags, level, fill)
      == Windows.AndThen(Windows.LagEach(c, index, columns[i], lags, level, fill),
                         index, columns[i + 1..], lags, level, fill)
  {
    assert columns[i..][1..] == columns[i + 1..];
  }

  /** The step of the offset loop of `lag_cols`: one lag column added, then the rest. */
  lemma LagEachStep(c: Columns, index: seq<Key>, column: string, lags: seq<int>, j: nat,
                    level: seq<LevelName>, fill: Value)
    requires Shaped(c, |index|) && j < |lags| && column in c && level != []
    ensures Windows.LagEach(c, index, column, lags[j..], level, fill)
      == Windows.LagEach(c[Windows.LagName(column, lags[j]) :=
                           Windows.LagColumn(Groups(index, level), c[column], lags[j], fill)],
                         index, column, lags[j + 1..], level, fill)
  {
    assert lags[j..][1..] == lags[j + 1..];
  }

  /**
   * Keeping the rows of distinct selected documents leaves a well-keyed
   * index over exactly those documents, as many as were selected.
   */
  lemma DownsampleState(index: seq<Key>, selected: seq<DocId>)
    requires WellKeyed(index)
    requires forall k :: 0 <= k < |selected| ==> selected[k] in DocsOf(index)
    requires forall k, l :: 0 <= k < l < |selected| ==> selected[k] != selected[l]
    ensures var p := Pick(index, Kept(index, SetOf(selected), |index|));
      WellKeyed(p) && DocsOf(p) == SetOf(selected) && |SetOf(selected)| == |selected|
  {
    var sel := SetOf(selected);
    assert sel <= DocsOf(index) by {
      forall d | d in sel ensures d in DocsOf(index) {
        var k :| 0 <= k < |selected| && selected[k] == d;
      }
    }
    KeptDocs(index, sel);
    DownsampleWellKeyed(index, sel);
    DistinctCard(selected);
  }

  /** The documents left after downsampling are exactly the selected ones. */
  lemma KeptDocs(index: seq<Key>, sel: set<DocId>)
    requires sel <= DocsOf(index)
    ensures DocsOf(Pick(index, Kept(index, sel, |index|))) == sel
  {
    var ks := Kept(index, sel, |index|);
    KeptSpec(index, sel, |index|);
    var r := Pick(index, ks);
    forall d | d in sel ensures d in DocsOf(r) {
      var i :| 0 <= i < |index| && index[i].doc == d;
      var k :| 0 <= k < |ks| && ks[k] == i;
      assert r[k].doc == d;
    }
    forall d | d in DocsOf(r) ensures d in sel {
      var k :| 0 <= k < |r| && r[k].doc == d;
      assert r[k] == index[ks[k]];
    }
  }

  /** Picking strictly increasing positions keeps the key order. */
  lemma PickOrdered(index: seq<Key>, ks: seq<nat>)
    requires KeyOrdered(index)
    requires forall k :: 0 <= k < |ks| ==> ks[k] < |index|
    requires forall k, l :: 0 <= k < l < |ks| ==> ks[k] < ks[l]
    ensures KeyOrdered(Pick(index, ks))
  {
    var r := Pick(index, ks);
    forall k, l | 0 <= k < l < |r|
      ensures r[k].doc < r[l].doc || (r[k].doc == r[l].doc && r[k].sent <= r[l].sent)
    {
      assert r[k] == index[ks[k]] && r[l] == index[ks[l]];
    }
  }

  /** Picking distinct positions keeps the keys distinct. */
  lemma PickUnique(index: seq<Key>, ks: seq<nat>)
    requires UniqueKeys(index)
    requires forall k :: 0 <= k < |ks| ==> ks[k] < |index|
    requires forall k, l :: 0 <= k < l < |ks| ==> ks[k] < ks[l]
    ensures UniqueKeys(Pick(index, ks))
  {
    var r := Pick(index, ks);
    forall k, l | 0 <= k < l < |r| ensures r[k] != r[l] {
      assert r[k] == index[ks[k]] && r[l] == index[ks[l]];
    }
  }

  /** Dropping whole documents keeps every kept word next to its predecessor. */
  lemma KeptLinked(index: seq<Key>, sel: set<DocId>)
    requires WordLinked(index)
    ensures WordLinked(Pick(index, Kept(index, sel, |index|)))
  {
    var ks := Kept(index, sel, |index|);
    KeptSpec(index, sel, |index|);
    var r := Pick(index, ks);
    forall k | 0 <= k < |r|
      ensures 1 <= r[k].word
      ensures r[k].word > 1 ==> k > 0 && SameSent(r[k - 1], r[k]) && r[k - 1].word + 1 == r[k].word
    {
      var i := ks[k];
      assert r[k] == index[i];
      assert index[i].doc in sel;
      if r[k].word > 1 {
        assert index[i].word > 1;
        assert i > 0 && SameSent(index[i - 1], index[i]);
        assert index[i - 1].doc == index[i].doc;
        assert i - 1 in ks;
        var k' :| 0 <= k' < |ks| && ks[k'] == i - 1;
        assert k' < k;
        assert ks[k - 1] < i;
        assert k' == k - 1;
        assert r[k - 1] == index[i - 1];
      }
    }
  }

  /**
   * Downsampling keeps whole documents, so a well-keyed index stays well
   * keyed: ordinals stay contiguous within every kept sentence.
   */
  lemma DownsampleWellKeyed(index: seq<Key>, sel: set<DocId>)
    requires WellKeyed(index)
    ensures WellKeyed(Pick(index, Kept(index, sel, |index|)))
  {
    var ks := Kept(index, sel, |index|);
    KeptSpec(index, sel, |index|);
    PickOrdered(index, ks);
    PickUnique(index, ks);
    KeptLinked(index, sel);
  }

  /**
   * The backward-fill quirk seen through the markers: in a document of at
   * least two tokens that opens with `.`, every sentence ordinal is at least
   * 2, so once the locators are added no row of it is marked `first_sent`.
   */
  lemma DotOpenedDocHasNoFirstSentence(docs: seq<DocId>, toks: seq<string>, keys: seq<Key>, s: nat, i: nat)
    requires |docs| == |toks| && SentenceIndex.IndexKeys(docs, toks) == Ok(keys)
    requires s + 1 < |docs| && (s == 0 || docs[s - 1] != docs[s]) && docs[s + 1] == docs[s]
    requires toks[s] == "."
    requires s <= i < |docs| && forall k :: s <= k <= i ==> docs[k] == docs[s]
    ensures keys[i].sent >= 2
    ensures var cols := Markers.LocatorColumns(keys);
      Markers.MarkFirstLast(cols, keys).Ok? &&
      Markers.MarkFirstLast(cols, keys).value["first_sent"][i] == Bool(false)
  {
    SentenceIndex.SentClosedForm(docs, toks, keys, s, i);
    var cols := Markers.LocatorColumns(keys);
    Markers.FirstFlagsMeaning(cols, keys, i);
  }
}
