/**
 * Sentence text (`zip_sents`): the tokens of each (doc, sent) group joined
 * by single spaces, one string per sentence in key order; and the
 * two-character part-of-speech stem (`add_pos_stem`).
 */
module Text {
  import opened Table

  /** A sentence label: the (doc, sent) part of a key. */
  type Label = (DocId, int)

  function LabelOf(k: Key): Label {
    (k.doc, k.sent)
  }

  /** Strict (doc, sent) order, the order `groupby` sorts its groups in. */
  predicate LabelLess(a: Label, b: Label) {
    a.0 < b.0 || (a.0 == b.0 && a.1 < b.1)
  }

  /** One sentence group: its label and its tokens in row order. */
  datatype Run = Run(id: Label, words: seq<string>)

  function Flatten(runs: seq<Run>): seq<string> {
    if runs == [] then [] else Flatten(runs[..|runs| - 1]) + runs[|runs| - 1].words
  }

  /** Each run's label, once per token of the run. */
  function FlattenLabels(runs: seq<Run>): seq<Label> {
    if runs == [] then [] else FlattenLabels(runs[..|runs| - 1]) + seq(|runs[|runs| - 1].words|, _ => runs[|runs| - 1].id)
  }

  /** The label of every row. */
  function RowLabels(index: seq<Key>): (ls: seq<Label>)
    ensures |ls| == |index|
  {
    seq(|index|, i requires 0 <= i < |index| => LabelOf(index[i]))
  }

  lemma FlattenSnoc(runs: seq<Run>, r: Run)
    ensures Flatten(runs + [r]) == Flatten(runs) + r.words
    ensures FlattenLabels(runs + [r]) == FlattenLabels(runs) + seq(|r.words|, _ => r.id)
  {
    assert (runs + [r])[..|runs|] == runs;
  }

  /**
   * `runs` are the maximal runs of rows sharing a label: reading them back
   * gives the tokens, each under its own row's label; runs are never empty
   * and neighbouring runs have different labels.
   */
  ghost predicate RunsOf(runs: seq<Run>, index: seq<Key>, toks: seq<string>)
    requires |index| == |toks|
  {
    && Flatten(runs) == toks
    && FlattenLabels(runs) == RowLabels(index)
    && (forall j :: 0 <= j < |runs| ==> runs[j].words != [])
    && (forall j :: 0 < j < |runs| ==> runs[j - 1].id != runs[j].id)
    && (|runs| == 0 <==> |index| == 0)
    && (|index| > 0 ==> runs[|runs| - 1].id == LabelOf(index[|index| - 1]))
  }

  /** A row with the label of the last run joins that run. */
  lemma ExtendLast(rest: seq<Run>, index: seq<Key>, toks: seq<string>)
    requires |index| == |toks| && |index| > 0
    requires RunsOf(rest, index[..|index| - 1], toks[..|toks| - 1])
    requires rest != [] && rest[|rest| - 1].id == LabelOf(index[|index| - 1])
    ensures var m := |rest|;
      RunsOf(rest[..m - 1] + [Run(rest[m - 1].id, rest[m - 1].words + [toks[|toks| - 1]])], index, toks)
  {
    var n := |index|;
    var m := |rest|;
    var l := LabelOf(index[n - 1]);
    var last := rest[m - 1];
    var runs := rest[..m - 1] + [Run(l, last.words + [toks[n - 1]])];
    assert RowLabels(index) == RowLabels(index[..n - 1]) + [l];
    assert toks == toks[..n - 1] + [toks[n - 1]];
    assert rest[..m - 1] + [last] == rest;
    FlattenSnoc(rest[..m - 1], last);
    FlattenSnoc(rest[..m - 1], Run(l, last.words + [toks[n - 1]]));
    assert seq(|last.words| + 1, _ => l) == seq(|last.words|, _ => l) + [l];
    assert forall j :: 0 <= j < m - 1 ==> runs[j] == rest[j];
  }

  /** A row with a new label starts a new run. */
  lemma AppendNew(rest: seq<Run>, index: seq<Key>, toks: seq<string>)
    requires |index| == |toks| && |index| > 0
    requires RunsOf(rest, index[..|index| - 1], toks[..|toks| - 1])
    requires !(rest != [] && rest[|rest| - 1].id == LabelOf(index[|index| - 1]))
    ensures RunsOf(rest + [Run(LabelOf(index[|index| - 1]), [toks[|toks| - 1]])], index, toks)
  {
    var n := |index|;
    var l := LabelOf(index[n - 1]);
    assert RowLabels(index) == RowLabels(index[..n - 1]) + [l];
    assert toks == toks[..n - 1] + [toks[n - 1]];
    FlattenSnoc(rest, Run(l, [toks[n - 1]]));
    assert seq(1, _ => l) == [l];
  }

  /** `groupby(['doc', 'sent'])` on the rows: the maximal runs of one label. */
  function Runs(index: seq<Key>, toks: seq<string>): (runs: seq<Run>)
    requires |index| == |toks|
    ensures RunsOf(runs, index, toks)
    decreases |index|
  {
    if |index| == 0 then []
    else
      var n := |index|;
      var rest := Runs(index[..n - 1], toks[..n - 1]);
      var l := LabelOf(index[n - 1]);
      if rest != [] && rest[|rest| - 1].id == l then
        ExtendLast(rest, index, toks);
        rest[..|rest| - 1] + [Run(l, rest[|rest| - 1].words + [toks[n - 1]])]
      else
        AppendNew(rest, index, toks);
        rest + [Run(l, [toks[n - 1]])]
  }

  ghost predicate Increasing(runs: seq<Run>) {
    forall j, k :: 0 <= j < k < |runs| ==> LabelLess(runs[j].id, runs[k].id)
  }

  /**
   * On an index ordered by (doc, sent), the runs come in strictly increasing
   * label order: every sentence is one run, and the runs are in the sorted
   * order of `groupby(['doc', 'sent'])`.
   */
  lemma {:induction false} RunsIncreasing(index: seq<Key>, toks: seq<string>)
    requires |index| == |toks| && KeyOrdered(index)
    ensures Increasing(Runs(index, toks))
    decreases |index|
  {
    var n := |index|;
    if n > 1 {
      assert KeyOrdered(index[..n - 1]);
      RunsIncreasing(index[..n - 1], toks[..n - 1]);
      var rest := Runs(index[..n - 1], toks[..n - 1]);
      var m := |rest|;
      var l := LabelOf(index[n - 1]);
      assert rest[m - 1].id == LabelOf(index[n - 2]);
      assert index[n - 2].doc < index[n - 1].doc ||
        (index[n - 2].doc == index[n - 1].doc && index[n - 2].sent <= index[n - 1].sent);
      if rest[m - 1].id == l {
        IncreasingExtend(rest, rest[m - 1].words + [toks[n - 1]]);
      } else {
        IncreasingAppend(rest, Run(l, [toks[n - 1]]));
      }
    }
  }

  /** Growing the last run keeps the runs increasing. */
  lemma IncreasingExtend(rest: seq<Run>, words: seq<string>)
    requires rest != [] && Increasing(rest)
    ensures Increasing(rest[..|rest| - 1] + [Run(rest[|rest| - 1].id, words)])
  {
    var runs := rest[..|rest| - 1] + [Run(rest[|rest| - 1].id, words)];
    assert forall j :: 0 <= j < |rest| ==> runs[j].id == rest[j].id;
  }

  /** A run with a larger label than the last one keeps the runs increasing. */
  lemma IncreasingAppend(rest: seq<Run>, r: Run)
    requires Increasing(rest)
    requires rest != [] ==> LabelLess(rest[|rest| - 1].id, r.id)
    ensures Increasing(rest + [r])
  {
    var runs := rest + [r];
    var m := |rest|;
    forall j, k | 0 <= j < k < |runs| ensures LabelLess(runs[j].id, runs[k].id) {
      if k < m {
        assert runs[j] == rest[j] && runs[k] == rest[k];
      } else if j < m - 1 {
        assert LabelLess(rest[j].id, rest[m - 1].id);
      }
    }
  }

  /** Every sentence label of the table has a run. */
  lemma RunsCoverLabels(index: seq<Key>, toks: seq<string>)
    requires |index| == |toks|
    ensures var runs := Runs(index, toks);
      forall i :: 0 <= i < |index| ==> exists j :: 0 <= j < |runs| && runs[j].id == LabelOf(index[i])
  {
    var runs := Runs(index, toks);
    assert FlattenLabels(runs) == RowLabels(index);
    forall i | 0 <= i < |index|
      ensures exists j :: 0 <= j < |runs| && runs[j].id == LabelOf(index[i])
    {
      assert RowLabels(index)[i] == LabelOf(index[i]);
      LabelsFromRuns(runs, i);
    }
    assert runs == Runs(index, toks);
  }

  /** On an ordered index no two runs share a label: one run per sentence. */
  lemma RunsDistinct(index: seq<Key>, toks: seq<string>)
    requires |index| == |toks| && KeyOrdered(index)
    ensures var runs := Runs(index, toks);
      forall j, k :: 0 <= j < |runs| && 0 <= k < |runs| && runs[j].id == runs[k].id ==> j == k
  {
    var runs := Runs(index, toks);
    RunsIncreasing(index, toks);
    assert Increasing(runs);
  }

  /** Every flattened label is the label of some run. */
  lemma {:induction false} LabelsFromRuns(runs: seq<Run>, i: nat)
    requires i < |FlattenLabels(runs)|
    ensures exists j :: 0 <= j < |runs| && runs[j].id == FlattenLabels(runs)[i]
    decreases |runs|
  {
    var m := |runs|;
    var front := runs[..m - 1];
    assert runs == front + [runs[m - 1]];
    FlattenSnoc(front, runs[m - 1]);
    if i < |FlattenLabels(front)| {
      LabelsFromRuns(front, i);
      var j :| 0 <= j < |front| && front[j].id == FlattenLabels(front)[i];
      assert runs[j] == front[j];
    } else {
      assert FlattenLabels(runs)[i] == runs[m - 1].id;
    }
  }

  /**
   * `' '.join(words)`: the words' characters plus one space between each
   * pair of neighbours, starting with the first word.
   */
  function Join(words: seq<string>): (s: string)
    ensures words == [] ==> s == ""
    ensures words != [] ==> |s| + 1 == |words| + TotalLength(words) && s[..|words[0]|] == words[0]
  {
    if words == [] then ""
    else if |words| == 1 then words[0]
    else words[0] + " " + Join(words[1..])
  }

  /** The position of the first space. */
  function FirstSpace(s: string): (i: nat)
    requires ' ' in s
    ensures i < |s| && s[i] == ' ' && ' ' !in s[..i]
  {
    if s[0] == ' ' then 0
    else
      var i := FirstSpace(s[1..]);
      assert s[..i + 1] == [s[0]] + s[1..][..i];
      i + 1
  }

  /** `s.split(' ')`. */
  function Split(s: string): (parts: seq<string>)
    ensures parts != []
    decreases |s|
  {
    if ' ' !in s then [s]
    else
      var i := FirstSpace(s);
      [s[..i]] + Split(s[i + 1..])
  }

  /** Joining words without spaces and splitting on spaces gives the words back. */
  lemma {:induction false} SplitJoin(words: seq<string>)
    requires words != []
    requires forall k :: 0 <= k < |words| ==> ' ' !in words[k]
    ensures Split(Join(words)) == words
    decreases |words|
  {
    if |words| > 1 {
      var w := words[0];
      var s := Join(words);
      assert s == w + " " + Join(words[1..]);
      assert s[..|w|] == w && s[|w|] == ' ';
      assert ' ' in s;
      var i := FirstSpace(s);
      assert forall k :: 0 <= k < |w| ==> s[k] == w[k] && s[k] != ' ';
      assert forall k :: 0 <= k < i ==> s[..i][k] == s[k];
      assert i == |w|;
      assert s[i + 1..] == Join(words[1..]);
      SplitJoin(words[1..]);
    }
  }

  function TotalLength(words: seq<string>): nat {
    if words == [] then 0 else |words[0]| + TotalLength(words[1..])
  }

  /**
   * `zip_sents`, on a table ordered by (doc, sent): one text per sentence
   * label, in strictly increasing label order (the order of `groupby`), every
   * row's label among them, each text its sentence's tokens joined by
   * single spaces.
   */
  function ZipSents(index: seq<Key>, toks: seq<string>): (texts: seq<(Label, string)>)
    requires |index| == |toks| && KeyOrdered(index)
    ensures var runs := Runs(index, toks);
      && |texts| == |runs|
      && forall j :: 0 <= j < |runs| ==> texts[j].0 == runs[j].id && texts[j].1 == Join(runs[j].words)
    ensures forall j, k :: 0 <= j < k < |texts| ==> LabelLess(texts[j].0, texts[k].0)
    ensures forall i :: 0 <= i < |index| ==> exists j :: 0 <= j < |texts| && texts[j].0 == LabelOf(index[i])
  {
    var runs := Runs(index, toks);
    RunsIncreasing(index, toks);
    RunsCoverLabels(index, toks);
    seq(|runs|, j requires 0 <= j < |runs| => (runs[j].id, Join(runs[j].words)))
  }

  // ---- add_pos_stem ----

  /** `.str.slice(0, 2)` on one cell: the first two characters; non-strings become missing. */
  function StemCell(v: Value): (r: Value)
    ensures v.Str? ==> r.Str? && |r.s| <= |v.s| && r.s == v.s[..|r.s|]
    ensures v.Str? ==> |r.s| == if |v.s| < 2 then |v.s| else 2
    ensures !v.Str? ==> r == NA
  {
    if v.Str? then Str(if |v.s| <= 2 then v.s else v.s[..2]) else NA
  }

  function StemColumn(col: Column): (r: Column)
    ensures |r| == |col|
  {
    seq(|col|, i requires 0 <= i < |col| => StemCell(col[i]))
  }

  /**
   * `add_pos_stem`: with an `xpos` column, add `xpos_stem`; otherwise with an
   * `nltkpos` column, shorten it in place; otherwise raise.
   */
  function AddPosStem(cols: Columns): (r: Result<Columns>)
    ensures r.Err? <==> "xpos" !in cols && "nltkpos" !in cols
    ensures r.Err? ==> r.fault == NoPosColumn
  {
    if "xpos" in cols then Ok(cols["xpos_stem" := StemColumn(cols["xpos"])])
    else if "nltkpos" in cols then Ok(cols["nltkpos" := StemColumn(cols["nltkpos"])])
    else Err(NoPosColumn)
  }

  /** Taking the stem of a stem changes nothing. */
  lemma StemIdempotent(col: Column)
    ensures StemColumn(StemColumn(col)) == StemColumn(col)
  {
  }

  /**
   * What `add_pos_stem` changes: only the one column it writes, which holds
   * the two-character prefix of each tag; and running it again changes
   * nothing more.
   */
  lemma AddPosStemSpec(cols: Columns)
    requires "xpos" in cols || "nltkpos" in cols
    ensures var r := AddPosStem(cols).value;
      var target := if "xpos" in cols then "xpos_stem" else "nltkpos";
      var source := if "xpos" in cols then "xpos" else "nltkpos";
      && r.Keys == cols.Keys + {target}
      && (forall c :: c in cols && c != target ==> r[c] == cols[c])
      && (forall i :: 0 <= i < |cols[source]| ==> r[target][i] == StemCell(cols[source][i]))
      && AddPosStem(r) == Ok(r)
  {
    var r := AddPosStem(cols).value;
    if "xpos" in cols {
      assert r["xpos_stem" := StemColumn(r["xpos"])] == r;
    } else {
      StemIdempotent(cols["nltkpos"]);
      assert r["nltkpos" := StemColumn(r["nltkpos"])] == r;
    }
  }
}
