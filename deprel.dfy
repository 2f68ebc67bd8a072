/**
 * Dependency-parent resolution: the within-sentence `head` ordinal is turned
 * into a flat row address, and the parent row's cells are copied onto the
 * child under `par_` names.
 */
module Deprel {
  import opened Table
  import opened Markers

  function Flag(b: bool): int {
    if b then 1 else 0
  }

  function Abs(x: int): nat {
    if x < 0 then -x else x
  }

  /** `~(head == 0) * abs(sent_loc - head)` for one row. */
  function Dist(head: int, loc: int): (d: nat)
    ensures head == 0 ==> d == 0
    ensures head != 0 ==> d == Abs(loc - head)
  {
    Flag(head != 0) * Abs(loc - head)
  }

  /** The flat row address of row p's parent: `p + ~(head == 0) * (head - sent_loc)`. */
  function Target(p: int, head: int, loc: int): (t: int)
    ensures head == 0 ==> t == p
    ensures head != 0 ==> t == p + head - loc
  {
    p + Flag(head != 0) * (head - loc)
  }

  /** The distance is how far the parent address lies from the row. */
  lemma DistIsOffset(p: int, head: int, loc: int)
    ensures Dist(head, loc) == Abs(Target(p, head, loc) - p)
  {
  }

  /** A row is its own parent exactly when it is a root or its head names itself. */
  lemma OwnParentIff(p: int, head: int, loc: int)
    ensures Target(p, head, loc) == p <==> head == 0 || head == loc
  {
  }

  /** The position of the first address outside 0..n-1, if any. */
  function FirstOutside(ts: seq<int>, n: int, from: nat): (r: Option<nat>)
    requires from <= |ts|
    ensures r.None? <==> forall p :: from <= p < |ts| ==> 0 <= ts[p] < n
    ensures r.Some? ==>
      && from <= r.value < |ts|
      && !(0 <= ts[r.value] < n)
      && forall p :: from <= p < r.value ==> 0 <= ts[p] < n
    decreases |ts| - from
  {
    if from == |ts| then None
    else if !(0 <= ts[from] < n) then Some(from)
    else FirstOutside(ts, n, from + 1)
  }

  /** The first of `names` not in `present`, if any. */
  function FirstAbsent(names: seq<string>, present: set<string>, from: nat): (r: Option<string>)
    requires from <= |names|
    ensures r.None? <==> forall k :: from <= k < |names| ==> names[k] in present
    ensures r.Some? ==> r.value !in present && exists k :: from <= k < |names| && names[k] == r.value
    ensures r.Some? ==> exists k ::
      && from <= k < |names| && names[k] == r.value
      && forall j :: from <= j < k ==> names[j] in present
    decreases |names| - from
  {
    if from == |names| then None
    else if names[from] !in present then Some(names[from])
    else FirstAbsent(names, present, from + 1)
  }

  const LevelNames: seq<string> := ["doc", "sent", "word"]

  /** The columns of `reset_index()`: the three key levels followed by the table's own. */
  function ResetNames(cols: Columns): set<string> {
    cols.Keys + {"doc", "sent", "word"}
  }

  /** A cell of the `reset_index()` frame. */
  function ResetCell(index: seq<Key>, cols: Columns, c: string, q: nat): Value
    requires Shaped(cols, |index|) && q < |index| && c in ResetNames(cols)
  {
    if c == "doc" then Int(index[q].doc)
    else if c == "sent" then Int(index[q].sent)
    else if c == "word" then Int(index[q].word)
    else cols[c][q]
  }

  /** The names of the parent frame's columns: every reset column prefixed `par_`. */
  function ParentNames(cols: Columns): set<string> {
    set c | c in ResetNames(cols) :: "par_" + c
  }

  /** The parent cells of reset column c: `_` for rows that are their own parent. */
  function ParentColumn(index: seq<Key>, cols: Columns, ts: seq<int>, c: string): (col: Column)
    requires Shaped(cols, |index|) && |ts| == |index| && c in ResetNames(cols)
    requires forall p :: 0 <= p < |ts| ==> 0 <= ts[p] < |index|
    ensures |col| == |index|
    ensures forall p :: 0 <= p < |index| && ts[p] == p ==> col[p] == Str("_")
    ensures forall p :: 0 <= p < |index| && ts[p] != p ==> col[p] == ResetCell(index, cols, c, ts[p])
  {
    seq(|index|, p requires 0 <= p < |index| =>
      if ts[p] == p then Str("_") else ResetCell(index, cols, c, ts[p]))
  }

  /** The source column a `par_` feature name refers to. */
  function Unprefixed(f: string): string {
    if |f| >= 4 then f[4..] else f
  }

  lemma UnprefixedParent(cols: Columns, f: string)
    requires f in ParentNames(cols)
    ensures |f| >= 4 && f[..4] == "par_" && Unprefixed(f) in ResetNames(cols) && f == "par_" + Unprefixed(f)
  {
    var c :| c in ResetNames(cols) && f == "par_" + c;
    assert f[4..] == c;
  }

  predicate ParPrefixed(f: string) {
    |f| >= 4 && f[..4] == "par_"
  }

  /** Every parent column name carries the `par_` prefix. */
  lemma ParentNamesPrefixed(cols: Columns)
    ensures forall f :: f in ParentNames(cols) ==> ParPrefixed(f)
  {
    forall f | f in ParentNames(cols) ensures ParPrefixed(f) {
      UnprefixedParent(cols, f);
    }
  }

  /** `~(head == 0) * abs(sent_loc - head)`, row by row. */
  function DistColumn(hs: seq<int>, ls: seq<int>): (col: Column)
    requires |hs| == |ls|
    ensures |col| == |hs|
  {
    seq(|hs|, p requires 0 <= p < |hs| => Int(Dist(hs[p], ls[p])))
  }

  /** The parent address of every row, from the `head` and `sent_loc` cells. */
  function Targets(hs: seq<int>, ls: seq<int>): (ts: seq<int>)
    requires |hs| == |ls|
    ensures |ts| == |hs|
  {
    seq(|hs|, p requires 0 <= p < |hs| => Target(p, hs[p], ls[p]))
  }

  /**
   * The second half of `parse_deprel`: reset the index, look up every parent
   * address, blank the rows that are their own parent, and append the
   * requested `par_` columns. A fault leaves the table as it came in.
   */
  function AttachParents(c1: Columns, index: seq<Key>, ts: seq<int>, features: seq<string>): (r: Attempt<Columns>)
    requires Shaped(c1, |index|) && |ts| == |index|
    ensures Shaped(r.state, |index|)
    ensures r.Aborted? ==> r.state == c1
    ensures r.Aborted? <==>
      || (exists l :: l in LevelNames && l in c1)
      || (exists p :: 0 <= p < |index| && !(0 <= ts[p] < |index|))
      || (exists f :: f in features && f !in ParentNames(c1))
    ensures forall c :: c in c1 && !ParPrefixed(c) ==> c in r.state && r.state[c] == c1[c]
  {
    var n := |index|;
    assert forall l :: l in LevelNames <==> l == "doc" || l == "sent" || l == "word";
    if "word" in c1 then Aborted(c1, LevelExists("word"))
    else if "sent" in c1 then Aborted(c1, LevelExists("sent"))
    else if "doc" in c1 then Aborted(c1, LevelExists("doc"))
    else
      var bad := FirstOutside(ts, n, 0);
      if bad.Some? then Aborted(c1, MissingRow(ts[bad.value]))
      else
        var missing := FirstAbsent(features, ParentNames(c1), 0);
        if missing.Some? then Aborted(c1, MissingColumn(missing.value))
        else
          assert forall f :: f in features ==> f in ParentNames(c1);
          ParentNamesPrefixed(c1);
          Complete(c1 + map f | f in features :: (UnprefixedParent(c1, f); ParentColumn(index, c1, ts, Unprefixed(f))))
  }

  /** Integer `head` and `sent_loc` columns are present. */
  ghost predicate HasHeads(cols: Columns) {
    "head" in cols && "sent_loc" in cols && AllInt(cols["head"]) && AllInt(cols["sent_loc"])
  }

  function Heads(cols: Columns): seq<int>
    requires HasHeads(cols)
  {
    IntCells(cols["head"]).value
  }

  function Locs(cols: Columns): seq<int>
    requires HasHeads(cols)
  {
    IntCells(cols["sent_loc"]).value
  }

  /**
   * `parse_deprel(parse_features)`. `dist_to_parent` is assigned first, so a
   * later fault (an index level clashing with a column when the index is
   * reset, a parent address with no row, a feature that names no parent
   * column) leaves it in place. The key of every row is unchanged.
   */
  function ParseDeprel(cols: Columns, index: seq<Key>, features: seq<string>): (r: Attempt<Columns>)
    requires Shaped(cols, |index|)
    ensures Shaped(r.state, |index|)
    ensures !HasHeads(cols) ==> r.Aborted? && r.state == cols
    ensures "head" !in cols ==> r.fault == MissingColumn("head")
    ensures HasHeads(cols) ==>
      && "dist_to_parent" in r.state
      && r.state["dist_to_parent"] == DistColumn(Heads(cols), Locs(cols))
      && (r.Aborted? ==> r.state == cols["dist_to_parent" := DistColumn(Heads(cols), Locs(cols))])
  {
    if "head" !in cols then Aborted(cols, MissingColumn("head"))
    else if "sent_loc" !in cols then Aborted(cols, MissingColumn("sent_loc"))
    else
      var heads := IntCells(cols["head"]);
      var locs := IntCells(cols["sent_loc"]);
      if heads.None? then Aborted(cols, NotIntegral("head"))
      else if locs.None? then Aborted(cols, NotIntegral("sent_loc"))
      else
        var hs, ls := heads.value, locs.value;
        var c1 := cols["dist_to_parent" := DistColumn(hs, ls)];
        assert "dist_to_parent"[..4][0] == 'd' != "par_"[0];
        AttachParents(c1, index, Targets(hs, ls), features)
  }

  /**
   * When `head` and `sent_loc` hold integers, `parse_deprel` fails exactly
   * when an index level clashes with a column, a parent address has no row,
   * or a feature names no parent column.
   */
  lemma ParseDeprelFaults(cols: Columns, index: seq<Key>, features: seq<string>)
    requires Shaped(cols, |index|) && HasHeads(cols)
    ensures var c1 := cols["dist_to_parent" := DistColumn(Heads(cols), Locs(cols))];
      var ts := Targets(Heads(cols), Locs(cols));
      ParseDeprel(cols, index, features).Aborted? <==>
        || (exists l :: l in LevelNames && l in c1)
        || (exists p :: 0 <= p < |index| && !(0 <= ts[p] < |index|))
        || (exists f :: f in features && f !in ParentNames(c1))
  {
  }

  /**
   * `dist_to_parent`: 0 for a root, otherwise how far the head lies from the
   * word; in both cases the distance to the parent address.
   */
  lemma DistToParent(cols: Columns, index: seq<Key>, features: seq<string>, p: nat)
    requires Shaped(cols, |index|) && HasHeads(cols) && p < |index|
    ensures var r := ParseDeprel(cols, index, features).state;
      && r["dist_to_parent"][p] == Int(if Heads(cols)[p] == 0 then 0 else Abs(Locs(cols)[p] - Heads(cols)[p]))
      && r["dist_to_parent"][p] == Int(Abs(Targets(Heads(cols), Locs(cols))[p] - p))
  {
    DistIsOffset(p, Heads(cols)[p], Locs(cols)[p]);
  }

  /**
   * On success every requested `par_c` column holds, for row p, the cell of
   * column c (or of key level c) at p's parent address, and `_` where p is
   * its own parent; every other column keeps its cells.
   */
  lemma ParentColumns(c1: Columns, index: seq<Key>, ts: seq<int>, features: seq<string>)
    requires Shaped(c1, |index|) && |ts| == |index|
    requires AttachParents(c1, index, ts, features).Complete?
    ensures var r := AttachParents(c1, index, ts, features).state;
      && r.Keys == c1.Keys + (set f | f in features)
      && (forall c :: c in c1 && c !in features ==> r[c] == c1[c])
      && (forall p :: 0 <= p < |index| ==> 0 <= ts[p] < |index|)
      && forall f, p :: f in features && 0 <= p < |index| ==>
           && ParPrefixed(f)
           && Unprefixed(f) in ResetNames(c1)
           && r[f][p] == (if ts[p] == p then Str("_") else ResetCell(index, c1, Unprefixed(f), ts[p]))
  {
    assert forall f :: f in features ==> f in ParentNames(c1);
    forall f | f in features ensures ParPrefixed(f) && Unprefixed(f) in ResetNames(c1) {
      UnprefixedParent(c1, f);
    }
  }

  /** In a well-keyed index, consecutive rows of one sentence have consecutive word ordinals. */
  lemma WordStep(index: seq<Key>, q: nat)
    requires WellKeyed(index) && 0 < q < |index| && SameSent(index[q - 1], index[q])
    ensures index[q].word == index[q - 1].word + 1
  {
    if index[q].word == 1 {
      var j := FirstWordOf(index, q - 1);
    }
  }

  /** Rows of one sentence lie as far apart as their word ordinals. */
  lemma {:induction false} WordDistance(index: seq<Key>, p: nat, q: nat)
    requires WellKeyed(index) && p <= q < |index| && SameSent(index[p], index[q])
    ensures index[q].word - index[p].word == q - p
    decreases q - p
  {
    if p < q {
      assert SameSent(index[q - 1], index[q]);
      WordStep(index, q);
      WordDistance(index, p, q - 1);
    }
  }

  /**
   * Once the locators are added to a well-keyed index, a non-root row whose
   * head names a word of its own sentence resolves to exactly that word's row.
   */
  lemma ParentInSentence(index: seq<Key>, hs: seq<int>, p: nat, q: nat)
    requires WellKeyed(index) && |hs| == |index| && p < |index| && q < |index|
    requires SameSent(index[q], index[p]) && hs[p] != 0 && hs[p] == index[q].word
    ensures Target(p, hs[p], index[p].word) == q
  {
    if p <= q { WordDistance(index, p, q); } else { WordDistance(index, q, p); }
  }

  /**
   * Conversely, a non-root address that lands in the row's own sentence
   * lands on the word its head names.
   */
  lemma TargetInSentence(index: seq<Key>, hs: seq<int>, p: nat)
    requires WellKeyed(index) && |hs| == |index| && p < |index|
    ensures var t := Target(p, hs[p], index[p].word);
      0 <= t < |index| && SameSent(index[t], index[p]) && hs[p] != 0 ==> index[t].word == hs[p]
  {
    var t := Target(p, hs[p], index[p].word);
    if 0 <= t < |index| && SameSent(index[t], index[p]) {
      if t <= p { WordDistance(index, t, p); } else { WordDistance(index, p, t); }
    }
  }

  /**
   * A non-root head naming no word of its own sentence (one beyond the
   * sentence's last word, say) never addresses a row of that sentence: the
   * address falls off the table or lands in another sentence.
   */
  lemma HeadOutsideSentence(index: seq<Key>, hs: seq<int>, p: nat)
    requires WellKeyed(index) && |hs| == |index| && p < |index| && hs[p] != 0
    requires forall j :: 0 <= j < |index| && SameSent(index[j], index[p]) ==> index[j].word != hs[p]
    ensures var t := Target(p, hs[p], index[p].word);
      !(0 <= t < |index|) || !SameSent(index[t], index[p])
  {
    TargetInSentence(index, hs, p);
  }

  /**
   * Nothing confines the address to the sentence: in the two sentences
   * "a b ." and "c", a head of 4 on "b" picks the first row of the next sentence.
   */
  lemma AddressLeavesSentence()
    ensures WellKeyed(TwoSentences())
    ensures Target(1, 4, TwoSentences()[1].word) == 3
    ensures !SameSent(TwoSentences()[3], TwoSentences()[1])
  {
    TwoSentencesOrdered();
    TwoSentencesUnique();
    TwoSentencesLinked();
  }

  /** The keys of "a b ." and "c" in one document. */
  function TwoSentences(): (index: seq<Key>)
    ensures |index| == 4
  {
    [Key(1, 1, 1), Key(1, 1, 2), Key(1, 1, 3), Key(1, 2, 1)]
  }

  lemma TwoSentencesOrdered()
    ensures KeyOrdered(TwoSentences())
  {
    var index := TwoSentences();
    assert index[0].sent == 1 && index[1].sent == 1 && index[2].sent == 1 && index[3].sent == 2;
  }

  lemma TwoSentencesUnique()
    ensures UniqueKeys(TwoSentences())
  {
    var index := TwoSentences();
    assert index[0].word == 1 && index[1].word == 2 && index[2].word == 3 && index[3].sent == 2;
  }

  lemma TwoSentencesLinked()
    ensures WordLinked(TwoSentences())
  {
    var index := TwoSentences();
    assert index[0].word == 1 && index[1].word == 2 && index[2].word == 3 && index[3].word == 1;
  }
}
