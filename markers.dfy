/**
 * Per-row boolean markers: the first/last sentence and word flags, and the
 * capitalisation flags with the per-sentence `near_cap` flag.
 */
module Markers {
  import opened Table

  /** The maximum of `vals[j]` over rows j < n of group g, if the group has such a row. */
  function MaxIn<G(==)>(gs: seq<G>, vals: seq<int>, g: G, n: nat): (r: Option<int>)
    requires |gs| == |vals| && n <= |gs|
    ensures r.Some? <==> exists j :: 0 <= j < n && gs[j] == g
    ensures r.Some? ==> forall j :: 0 <= j < n && gs[j] == g ==> vals[j] <= r.value
    ensures r.Some? ==> exists j :: 0 <= j < n && gs[j] == g && vals[j] == r.value
  {
    if n == 0 then None
    else
      var rest := MaxIn(gs, vals, g, n - 1);
      if gs[n - 1] != g then rest
      else if rest.None? || rest.value < vals[n - 1] then Some(vals[n - 1])
      else rest
  }

  /** `groupby(...).transform(max)`: every row gets the maximum over its own group. */
  function GroupMax<G(==)>(gs: seq<G>, vals: seq<int>, i: nat): (m: int)
    requires |gs| == |vals| && i < |gs|
    ensures forall j :: 0 <= j < |gs| && gs[j] == gs[i] ==> vals[j] <= m
    ensures exists j :: 0 <= j < |gs| && gs[j] == gs[i] && vals[j] == m
  {
    MaxIn(gs, vals, gs[i], |gs|).value
  }

  /** The integers of a column, when every cell is one. */
  function IntCells(col: Column): (r: Option<seq<int>>)
    ensures r.Some? <==> forall i :: 0 <= i < |col| ==> col[i].Int?
    ensures r.Some? ==> |r.value| == |col| && forall i :: 0 <= i < |col| ==> col[i] == Int(r.value[i])
  {
    if forall i :: 0 <= i < |col| ==> col[i].Int? then
      Some(seq(|col|, i requires 0 <= i < |col| => col[i].i))
    else None
  }

  const FirstLastNames: set<string> := {"first_sent", "last_sent", "first_word", "last_word"}

  /** The four marker columns, from the sentence ids and the word locators. */
  function FirstLastColumns(index: seq<Key>, ids: seq<int>, locs: seq<int>): (m: Columns)
    requires |ids| == |index| && |locs| == |index|
    ensures m.Keys == FirstLastNames && Shaped(m, |index|)
  {
    var docs := Groups(index, [Doc]);
    var sents := Groups(index, [Doc, Sent]);
    map[
      "first_sent" := seq(|index|, i requires 0 <= i < |index| => Bool(ids[i] == 1)),
      "last_sent" := seq(|index|, i requires 0 <= i < |index| => Bool(ids[i] == GroupMax(docs, ids, i))),
      "first_word" := seq(|index|, i requires 0 <= i < |index| => Bool(locs[i] == 1)),
      "last_word" := seq(|index|, i requires 0 <= i < |index| => Bool(locs[i] == GroupMax(sents, locs, i)))
    ]
  }

  /**
   * `mark_first_last`: both maxima are computed before any column is
   * assigned, so a fault leaves the table as it was. Grouping by `doc`, then
   * by `doc` and `sent`, is ambiguous when a column carries that level's name.
   */
  function MarkFirstLast(cols: Columns, index: seq<Key>): (r: Result<Columns>)
    requires Shaped(cols, |index|)
    ensures r.Ok? ==> Shaped(r.value, |index|) && r.value.Keys == cols.Keys + FirstLastNames
    ensures r.Ok? ==> forall c :: c in cols && c !in FirstLastNames ==> r.value[c] == cols[c]
  {
    if "sent_id" !in cols then Err(LocatorsMissing)
    else if "doc" in cols then Err(AmbiguousLevel("doc"))
    else if "sent" in cols then Err(AmbiguousLevel("sent"))
    else if "sent_loc" !in cols then Err(MissingColumn("sent_loc"))
    else
      var ids := IntCells(cols["sent_id"]);
      var locs := IntCells(cols["sent_loc"]);
      if ids.None? then Err(NotIntegral("sent_id"))
      else if locs.None? then Err(NotIntegral("sent_loc"))
      else Ok(cols + FirstLastColumns(index, ids.value, locs.value))
  }

  ghost predicate AllInt(col: Column) {
    forall i :: 0 <= i < |col| ==> col[i].Int?
  }

  /** The faults of `mark_first_last`, in the order they are raised. */
  lemma MarkFirstLastFaults(cols: Columns, index: seq<Key>)
    requires Shaped(cols, |index|)
    ensures "sent_id" !in cols ==> MarkFirstLast(cols, index) == Err(LocatorsMissing)
    ensures "sent_id" in cols && "doc" in cols ==> MarkFirstLast(cols, index) == Err(AmbiguousLevel("doc"))
    ensures "sent_id" in cols && "doc" !in cols && "sent" in cols ==>
      MarkFirstLast(cols, index) == Err(AmbiguousLevel("sent"))
    ensures "sent_id" in cols && "doc" !in cols && "sent" !in cols && "sent_loc" !in cols ==>
      MarkFirstLast(cols, index) == Err(MissingColumn("sent_loc"))
    ensures MarkFirstLast(cols, index).Ok? <==>
      && "sent_id" in cols && "sent_loc" in cols && "doc" !in cols && "sent" !in cols
      && AllInt(cols["sent_id"]) && AllInt(cols["sent_loc"])
  {
  }

  /** The columns `mark_first_last` adds, on success. */
  lemma MarkFirstLastAdds(cols: Columns, index: seq<Key>)
    requires Shaped(cols, |index|) && MarkFirstLast(cols, index).Ok?
    ensures forall c :: c in FirstLastNames ==>
      MarkFirstLast(cols, index).value[c] ==
      FirstLastColumns(index, IntCells(cols["sent_id"]).value, IntCells(cols["sent_loc"]).value)[c]
  {
  }

  /** `first_sent` and `first_word` mark exactly the ordinal 1. */
  lemma FirstFlagsMeaning(cols: Columns, index: seq<Key>, i: nat)
    requires Shaped(cols, |index|) && i < |index|
    requires MarkFirstLast(cols, index).Ok?
    ensures var r := MarkFirstLast(cols, index).value;
      && (r["first_sent"][i] == Bool(true) <==> cols["sent_id"][i] == Int(1))
      && (r["first_word"][i] == Bool(true) <==> cols["sent_loc"][i] == Int(1))
  {
    MarkFirstLastAdds(cols, index);
  }

  /** `last_sent` marks the rows whose `sent_id` is the largest of their document. */
  lemma LastSentMeaning(cols: Columns, index: seq<Key>, i: nat)
    requires Shaped(cols, |index|) && i < |index|
    requires MarkFirstLast(cols, index).Ok?
    ensures MarkFirstLast(cols, index).value["last_sent"][i] == Bool(true) <==>
      forall j :: 0 <= j < |index| && index[j].doc == index[i].doc ==>
        cols["sent_id"][j].i <= cols["sent_id"][i].i
  {
    MarkFirstLastAdds(cols, index);
    var ids := IntCells(cols["sent_id"]).value;
    DocGroups(index);
    var m := GroupMax(Groups(index, [Doc]), ids, i);
    assert MarkFirstLast(cols, index).value["last_sent"][i] == Bool(ids[i] == m);
  }

  /** `last_word` marks the rows whose `sent_loc` is the largest of their sentence. */
  lemma LastWordMeaning(cols: Columns, index: seq<Key>, i: nat)
    requires Shaped(cols, |index|) && i < |index|
    requires MarkFirstLast(cols, index).Ok?
    ensures MarkFirstLast(cols, index).value["last_word"][i] == Bool(true) <==>
      forall j :: 0 <= j < |index| && SameSent(index[j], index[i]) ==>
        cols["sent_loc"][j].i <= cols["sent_loc"][i].i
  {
    MarkFirstLastAdds(cols, index);
    var locs := IntCells(cols["sent_loc"]).value;
    SentGroups(index);
    var m := GroupMax(Groups(index, [Doc, Sent]), locs, i);
    assert MarkFirstLast(cols, index).value["last_word"][i] == Bool(locs[i] == m);
  }

  /** `add_locators`: the sentence and word key levels copied into two columns. */
  function LocatorColumns(index: seq<Key>): (m: Columns)
    ensures m.Keys == {"sent_id", "sent_loc"} && Shaped(m, |index|)
    ensures forall i :: 0 <= i < |index| ==>
      m["sent_id"][i] == Int(index[i].sent) && m["sent_loc"][i] == Int(index[i].word)
  {
    map[
      "sent_id" := seq(|index|, i requires 0 <= i < |index| => Int(index[i].sent)),
      "sent_loc" := seq(|index|, i requires 0 <= i < |index| => Int(index[i].word))
    ]
  }

  /**
   * `add_locators`: `reset_index()` refuses to move a key level onto a column
   * of the same name (levels are inserted last to first, so `word` is
   * reported first); otherwise `sent_id` and `sent_loc` are set to the
   * sentence and word ordinals, replacing any earlier ones.
   */
  function AddLocators(cols: Columns, index: seq<Key>): (r: Result<Columns>)
    requires Shaped(cols, |index|)
    ensures r.Err? <==> "doc" in cols || "sent" in cols || "word" in cols
    ensures r.Err? ==>
      && r.fault.LevelExists? && r.fault.name in cols
      && (r.fault.name == "doc" || r.fault.name == "sent" || r.fault.name == "word")
    ensures r.Ok? ==> Shaped(r.value, |index|) && r.value.Keys == cols.Keys + {"sent_id", "sent_loc"}
    ensures r.Ok? ==> forall i :: 0 <= i < |index| ==>
      r.value["sent_id"][i] == Int(index[i].sent) && r.value["sent_loc"][i] == Int(index[i].word)
    ensures r.Ok? ==> forall c :: c in cols && c != "sent_id" && c != "sent_loc" ==> r.value[c] == cols[c]
  {
    if "word" in cols then Err(LevelExists("word"))
    else if "sent" in cols then Err(LevelExists("sent"))
    else if "doc" in cols then Err(LevelExists("doc"))
    else Ok(cols + LocatorColumns(index))
  }

  /** After `add_locators` succeeds, `mark_first_last` succeeds too. */
  lemma LocatorsThenMarkers(cols: Columns, index: seq<Key>)
    requires Shaped(cols, |index|) && AddLocators(cols, index).Ok?
    ensures MarkFirstLast(AddLocators(cols, index).value, index).Ok?
  {
    var c := AddLocators(cols, index).value;
    assert "sent_id" in c && "sent_loc" in c;
    assert forall i :: 0 <= i < |c["sent_id"]| ==> c["sent_id"][i] == Int(index[i].sent);
    assert forall i :: 0 <= i < |c["sent_loc"]| ==> c["sent_loc"][i] == Int(index[i].word);
  }

  /** On a well-keyed index every row is preceded, in its sentence, by a word 1. */
  lemma {:induction false} FirstWordOf(index: seq<Key>, i: nat) returns (j: nat)
    requires WordLinked(index) && i < |index|
    ensures j <= i && SameSent(index[j], index[i]) && index[j].word == 1
    decreases index[i].word
  {
    if index[i].word == 1 {
      j := i;
    } else {
      assert i > 0 && SameSent(index[i - 1], index[i]) && index[i - 1].word + 1 == index[i].word;
      j := FirstWordOf(index, i - 1);
    }
  }

  /**
   * Once the locators are added, every sentence of a well-keyed index has
   * exactly one `first_word` row and exactly one `last_word` row.
   */
  lemma OneFirstOneLastWord(cols: Columns, index: seq<Key>, i: nat)
    requires WellKeyed(index) && i < |index|
    requires Shaped(cols, |index|)
    requires forall c :: c in LocatorColumns(index) ==> c in cols && cols[c] == LocatorColumns(index)[c]
    requires "doc" !in cols && "sent" !in cols
    ensures MarkFirstLast(cols, index).Ok?
    ensures var r := MarkFirstLast(cols, index).value;
      && (exists j :: 0 <= j < |index| && SameSent(index[j], index[i]) && r["first_word"][j] == Bool(true))
      && (exists j :: 0 <= j < |index| && SameSent(index[j], index[i]) && r["last_word"][j] == Bool(true))
      && (forall j1, j2 ::
            0 <= j1 < |index| && 0 <= j2 < |index| &&
            SameSent(index[j1], index[i]) && SameSent(index[j2], index[i]) &&
            r["first_word"][j1] == Bool(true) && r["first_word"][j2] == Bool(true)
            ==> j1 == j2)
      && (forall j1, j2 ::
            0 <= j1 < |index| && 0 <= j2 < |index| &&
            SameSent(index[j1], index[i]) && SameSent(index[j2], index[i]) &&
            r["last_word"][j1] == Bool(true) && r["last_word"][j2] == Bool(true)
            ==> j1 == j2)
  {
    OneFirstWord(cols, index, i);
    OneLastWord(cols, index, i);
  }

  /** The `first_word` half: the row with word ordinal 1, and no other. */
  lemma OneFirstWord(cols: Columns, index: seq<Key>, i: nat)
    requires WellKeyed(index) && i < |index|
    requires Shaped(cols, |index|)
    requires forall c :: c in LocatorColumns(index) ==> c in cols && cols[c] == LocatorColumns(index)[c]
    requires "doc" !in cols && "sent" !in cols
    ensures MarkFirstLast(cols, index).Ok?
    ensures var r := MarkFirstLast(cols, index).value;
      && (exists j :: 0 <= j < |index| && SameSent(index[j], index[i]) && r["first_word"][j] == Bool(true))
      && (forall j1, j2 ::
            0 <= j1 < |index| && 0 <= j2 < |index| &&
            SameSent(index[j1], index[i]) && SameSent(index[j2], index[i]) &&
            r["first_word"][j1] == Bool(true) && r["first_word"][j2] == Bool(true)
            ==> j1 == j2)
  {
    var loc := LocatorColumns(index);
    assert "sent_id" in loc && "sent_loc" in loc;
    var r := MarkFirstLast(cols, index).value;
    forall j | 0 <= j < |index| ensures r["first_word"][j] == Bool(true) <==> index[j].word == 1 {
      FirstFlagsMeaning(cols, index, j);
    }
    var f := FirstWordOf(index, i);
    forall j1, j2 | 0 <= j1 < |index| && 0 <= j2 < |index| &&
        SameSent(index[j1], index[i]) && SameSent(index[j2], index[i]) &&
        r["first_word"][j1] == Bool(true) && r["first_word"][j2] == Bool(true)
      ensures j1 == j2
    {
      assert index[j1] == index[j2];
    }
  }

  /** The `last_word` half: a row attaining the sentence maximum, and no other. */
  lemma OneLastWord(cols: Columns, index: seq<Key>, i: nat)
    requires WellKeyed(index) && i < |index|
    requires Shaped(cols, |index|)
    requires forall c :: c in LocatorColumns(index) ==> c in cols && cols[c] == LocatorColumns(index)[c]
    requires "doc" !in cols && "sent" !in cols
    ensures MarkFirstLast(cols, index).Ok?
    ensures var r := MarkFirstLast(cols, index).value;
      && (exists j :: 0 <= j < |index| && SameSent(index[j], index[i]) && r["last_word"][j] == Bool(true))
      && (forall j1, j2 ::
            0 <= j1 < |index| && 0 <= j2 < |index| &&
            SameSent(index[j1], index[i]) && SameSent(index[j2], index[i]) &&
            r["last_word"][j1] == Bool(true) && r["last_word"][j2] == Bool(true)
            ==> j1 == j2)
  {
    var loc := LocatorColumns(index);
    assert "sent_id" in loc && "sent_loc" in loc;
    var locs := IntCells(cols["sent_loc"]).value;
    assert forall j :: 0 <= j < |index| ==> locs[j] == index[j].word;
    var r := MarkFirstLast(cols, index).value;
    SentGroups(index);
    var sents := Groups(index, [Doc, Sent]);
    var top := GroupMax(sents, locs, i);
    var l :| 0 <= l < |index| && sents[l] == sents[i] && locs[l] == top;
    LastWordMeaning(cols, index, l);
    forall j1, j2 | 0 <= j1 < |index| && 0 <= j2 < |index| &&
        SameSent(index[j1], index[i]) && SameSent(index[j2], index[i]) &&
        r["last_word"][j1] == Bool(true) && r["last_word"][j2] == Bool(true)
      ensures j1 == j2
    {
      LastWordMeaning(cols, index, j1);
      LastWordMeaning(cols, index, j2);
      assert index[j1] == index[j2];
    }
  }

  /**
   * Once the locators are added, every document has a `last_sent` row, and
   * all its `last_sent` rows belong to one sentence ordinal.
   */
  lemma LastSentOfDoc(cols: Columns, index: seq<Key>, i: nat)
    requires Shaped(cols, |index|) && i < |index|
    requires forall c :: c in LocatorColumns(index) ==> c in cols && cols[c] == LocatorColumns(index)[c]
    requires "doc" !in cols && "sent" !in cols
    ensures MarkFirstLast(cols, index).Ok?
    ensures var r := MarkFirstLast(cols, index).value;
      && (exists j :: 0 <= j < |index| && index[j].doc == index[i].doc && r["last_sent"][j] == Bool(true))
      && (forall j1, j2 ::
            0 <= j1 < |index| && 0 <= j2 < |index| &&
            index[j1].doc == index[i].doc && index[j2].doc == index[i].doc &&
            r["last_sent"][j1] == Bool(true) && r["last_sent"][j2] == Bool(true)
            ==> index[j1].sent == index[j2].sent)
  {
    var loc := LocatorColumns(index);
    assert "sent_id" in loc && "sent_loc" in loc;
    var ids := IntCells(cols["sent_id"]).value;
    assert forall j :: 0 <= j < |index| ==> ids[j] == index[j].sent;
    var r := MarkFirstLast(cols, index).value;
    DocGroups(index);
    var docs := Groups(index, [Doc]);
    var top := GroupMax(docs, ids, i);
    var l :| 0 <= l < |index| && docs[l] == docs[i] && ids[l] == top;
    LastSentMeaning(cols, index, l);
    forall j1, j2 | 0 <= j1 < |index| && 0 <= j2 < |index| &&
        index[j1].doc == index[i].doc && index[j2].doc == index[i].doc &&
        r["last_sent"][j1] == Bool(true) && r["last_sent"][j2] == Bool(true)
      ensures index[j1].sent == index[j2].sent
    {
      LastSentMeaning(cols, index, j1);
      LastSentMeaning(cols, index, j2);
    }
  }

  // ---- mark_capitals, with ASCII letters standing in for Unicode case ----

  predicate UpperChar(c: char) { 'A' <= c <= 'Z' }

  predicate LowerChar(c: char) { 'a' <= c <= 'z' }

  predicate Cased(c: char) { UpperChar(c) || LowerChar(c) }

  /** `str.isupper`: some cased character, and no lowercase one. */
  predicate IsUpper(t: string) {
    (exists i :: 0 <= i < |t| && Cased(t[i])) && forall i :: 0 <= i < |t| ==> !LowerChar(t[i])
  }

  /** `str.islower`: some cased character, and no uppercase one. */
  predicate IsLower(t: string) {
    (exists i :: 0 <= i < |t| && Cased(t[i])) && forall i :: 0 <= i < |t| ==> !UpperChar(t[i])
  }

  /**
   * `str.istitle`: some cased character; an uppercase character only after
   * an uncased one (or at the start), a lowercase one only after a cased one.
   */
  predicate IsTitle(t: string) {
    && (exists i :: 0 <= i < |t| && Cased(t[i]))
    && (forall i :: 0 <= i < |t| && UpperChar(t[i]) ==> i == 0 || !Cased(t[i - 1]))
    && (forall i :: 0 <= i < |t| && LowerChar(t[i]) ==> i > 0 && Cased(t[i - 1]))
  }

  /** A token is never both upper case and lower case, nor both title case and lower case. */
  lemma CaseFlagsExclusive(t: string)
    ensures !(IsUpper(t) && IsLower(t))
    ensures !(IsTitle(t) && IsLower(t))
  {
    if exists i :: 0 <= i < |t| && Cased(t[i]) {
      var i :| 0 <= i < |t| && Cased(t[i]);
      var k := FirstCased(t, i);
      if k > 0 {
        assert !Cased(t[k - 1]);
      }
      assert IsTitle(t) ==> !LowerChar(t[k]);
    }
  }

  /** The first cased character of a token, at or before a given cased one. */
  lemma {:induction false} FirstCased(t: string, i: nat) returns (k: nat)
    requires i < |t| && Cased(t[i])
    ensures k <= i && Cased(t[k]) && forall j :: 0 <= j < k ==> !Cased(t[j])
    decreases i
  {
    if exists j :: 0 <= j < i && Cased(t[j]) {
      var j :| 0 <= j < i && Cased(t[j]);
      k := FirstCased(t, j);
      assert forall m :: 0 <= m < k ==> !Cased(t[m]);
    } else {
      k := i;
    }
  }

  /** How many rows j < n of group g have the flag set (`groupby(...).sum()` of a boolean column). */
  function CountIn<G(==)>(gs: seq<G>, flags: seq<bool>, g: G, n: nat): (r: nat)
    requires |gs| == |flags| && n <= |gs|
    ensures r >= 1 <==> exists j :: 0 <= j < n && gs[j] == g && flags[j]
  {
    if n == 0 then 0
    else CountIn(gs, flags, g, n - 1) + (if gs[n - 1] == g && flags[n - 1] then 1 else 0)
  }

  /**
   * `near_cap`: a row's sentence has at least one upper-case token. The
   * per-sentence test `sum >= 1` is spread back onto every row of the sentence.
   */
  function NearCap(index: seq<Key>, upper: seq<bool>): (r: seq<bool>)
    requires |upper| == |index|
    ensures |r| == |index|
    ensures forall i :: 0 <= i < |index| ==>
      (r[i] <==> exists j :: 0 <= j < |index| && SameSent(index[j], index[i]) && upper[j])
  {
    var gs := Groups(index, [Doc, Sent]);
    SentGroups(index);
    seq(|index|, i requires 0 <= i < |index| => CountIn(gs, upper, gs[i], |index|) >= 1)
  }

  /** `near_cap` is one value per sentence. */
  lemma NearCapPerSentence(index: seq<Key>, upper: seq<bool>, i: nat, j: nat)
    requires |upper| == |index| && i < |index| && j < |index| && SameSent(index[i], index[j])
    ensures NearCap(index, upper)[i] == NearCap(index, upper)[j]
  {
    var r := NearCap(index, upper);
    if r[i] {
      var k :| 0 <= k < |index| && SameSent(index[k], index[i]) && upper[k];
      assert SameSent(index[k], index[j]);
    }
    if r[j] {
      var k :| 0 <= k < |index| && SameSent(index[k], index[j]) && upper[k];
      assert SameSent(index[k], index[i]);
    }
  }

  const CapitalNames: set<string> := {"is_upper", "is_lower", "is_title", "near_cap"}

  /** The columns `mark_capitals` adds for the given tokens. */
  function CapitalColumns(index: seq<Key>, tokens: seq<string>): (m: Columns)
    requires |tokens| == |index|
    ensures m.Keys == CapitalNames && Shaped(m, |index|)
    ensures forall i :: 0 <= i < |index| ==>
      && m["is_upper"][i] == Bool(IsUpper(tokens[i]))
      && m["is_lower"][i] == Bool(IsLower(tokens[i]))
      && m["is_title"][i] == Bool(IsTitle(tokens[i]))
      && (m["near_cap"][i] == Bool(true) <==>
            exists j :: 0 <= j < |index| && SameSent(index[j], index[i]) && IsUpper(tokens[j]))
  {
    var upper := seq(|index|, i requires 0 <= i < |index| => IsUpper(tokens[i]));
    var near := NearCap(index, upper);
    map[
      "is_upper" := seq(|index|, i requires 0 <= i < |index| => Bool(upper[i])),
      "is_lower" := seq(|index|, i requires 0 <= i < |index| => Bool(IsLower(tokens[i]))),
      "is_title" := seq(|index|, i requires 0 <= i < |index| => Bool(IsTitle(tokens[i]))),
      "near_cap" := seq(|index|, i requires 0 <= i < |index| => Bool(near[i]))
    ]
  }
}
