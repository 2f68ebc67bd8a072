/**
 * Shared vocabulary of the corpus model: the three-level row key, cell values,
 * the faults the operations raise, and counting within groups of rows
 * (the `cumcount` of a grouped table).
 */
module Table {

  /** Document identifiers; the table is kept sorted by them. */
  type DocId = int

  /** The (doc, sent, word) row key of the indexed token table. */
  datatype Key = Key(doc: DocId, sent: int, word: int)

  /** A cell of the table. `NA` is a missing value (NaN in the table). */
  datatype Value = Str(s: string) | Int(i: int) | Bool(b: bool) | NA

  /** Index levels a column can be grouped by. */
  datatype LevelName = Doc | Sent | Word

  datatype Option<T> = None | Some(value: T)

  /** The exceptions the modelled operations raise. */
  datatype Fault =
    | MissingColumn(name: string)   // KeyError on a column label
    | MissingRow(row: int)          // KeyError from a row-label lookup
    | EmptyLagRange                 // ValueError from removing 0 from an empty lag list
    | NoGroupKeys                   // grouping by an empty list of levels
    | NotIntegral(name: string)     // a locator/head column holding a non-integer cell
    | LevelExists(name: string)     // resetting the index onto an existing column name
    | AmbiguousLevel(name: string)  // grouping by a name that is both an index level and a column
    | NoPosColumn                   // neither `xpos` nor `nltkpos` present
    | LocatorsMissing               // `sent_id` absent when marking first/last
    | NonFiniteSentence             // casting a missing sentence ordinal to int

  datatype Result<T> = Ok(value: T) | Err(fault: Fault)

  /**
   * The outcome of a step that assigns columns one after another: either it
   * finished, or it raised after committing the columns assigned so far.
   */
  datatype Attempt<T> = Complete(state: T) | Aborted(state: T, fault: Fault)

  /** The cells of one column, by row. */
  type Column = seq<Value>

  /** Column name to cells; every column has one cell per row. */
  type Columns = map<string, Column>

  predicate SameSent(a: Key, b: Key) {
    a.doc == b.doc && a.sent == b.sent
  }

  /** The group label of a key when grouping by the given index levels. */
  function Project(k: Key, level: seq<LevelName>): (g: seq<int>)
    ensures |g| == |level|
  {
    if level == [] then []
    else
      [match level[0] case Doc => k.doc case Sent => k.sent case Word => k.word]
      + Project(k, level[1..])
  }

  lemma ProjectDoc(k: Key)
    ensures Project(k, [Doc]) == [k.doc]
  {
  }

  lemma ProjectDocSent(k: Key)
    ensures Project(k, [Doc, Sent]) == [k.doc, k.sent]
  {
    assert [Doc, Sent][1..] == [Sent];
  }

  /** The group label of every row. */
  function Groups(index: seq<Key>, level: seq<LevelName>): (gs: seq<seq<int>>)
    ensures |gs| == |index|
  {
    seq(|index|, i requires 0 <= i < |index| => Project(index[i], level))
  }

  /** Grouping by `doc` puts two rows together exactly when they share a document. */
  lemma DocGroups(index: seq<Key>)
    ensures forall i, j :: 0 <= i < |index| && 0 <= j < |index| ==>
      (Groups(index, [Doc])[i] == Groups(index, [Doc])[j] <==> index[i].doc == index[j].doc)
  {
    forall i | 0 <= i < |index| { ProjectDoc(index[i]); }
  }

  /** Grouping by `(doc, sent)` puts two rows together exactly when they share a sentence. */
  lemma SentGroups(index: seq<Key>)
    ensures forall i, j :: 0 <= i < |index| && 0 <= j < |index| ==>
      (Groups(index, [Doc, Sent])[i] == Groups(index, [Doc, Sent])[j] <==> SameSent(index[i], index[j]))
  {
    forall i | 0 <= i < |index| { ProjectDocSent(index[i]); }
  }

  /** Number of occurrences of `x` in `s`. */
  function Occ<G(==)>(s: seq<G>, x: G): nat {
    if s == [] then 0
    else Occ(s[..|s| - 1], x) + (if s[|s| - 1] == x then 1 else 0)
  }

  /** 0-based position of row `i` within its group (`groupby(...).cumcount()`). */
  function CumCount<G(==)>(gs: seq<G>, i: nat): nat
    requires i < |gs|
  {
    Occ(gs[..i], gs[i])
  }

  /** Every group of rows is one contiguous run. */
  ghost predicate GroupsContiguous<G>(gs: seq<G>) {
    forall i, k, j :: 0 <= i < k < j < |gs| && gs[i] == gs[j] ==> gs[k] == gs[i]
  }

  /** Every column of `cols` has `n` cells. */
  ghost predicate Shaped(cols: Columns, n: nat) {
    forall c :: c in cols ==> |cols[c]| == n
  }

  lemma OccPrefixStep<G>(s: seq<G>, k: nat, x: G)
    requires 0 < k <= |s|
    ensures Occ(s[..k], x) == Occ(s[..k - 1], x) + (if s[k - 1] == x then 1 else 0)
  {
    assert s[..k][..k - 1] == s[..k - 1];
  }

  lemma OccSnoc<G>(s: seq<G>, y: G, x: G)
    ensures Occ(s + [y], x) == Occ(s, x) + (if y == x then 1 else 0)
  {
    assert (s + [y])[..|s|] == s;
  }

  lemma {:induction false} OccPrefixMono<G>(s: seq<G>, a: nat, b: nat, x: G)
    requires a <= b <= |s|
    ensures Occ(s[..a], x) <= Occ(s[..b], x)
  {
    if a < b {
      OccPrefixMono(s, a, b - 1, x);
      assert s[..b] == s[..b - 1] + [s[b - 1]];
      OccSnoc(s[..b - 1], s[b - 1], x);
    }
  }

  lemma {:induction false} OccAbsent<G>(s: seq<G>, x: G)
    requires forall j :: 0 <= j < |s| ==> s[j] != x
    ensures Occ(s, x) == 0
  {
    if s != [] {
      OccAbsent(s[..|s| - 1], x);
    }
  }

  /** Occurrences in a prefix never exceed the total. */
  lemma OccPrefixBound<G>(s: seq<G>, a: nat, x: G)
    requires a <= |s|
    ensures Occ(s[..a], x) <= Occ(s, x)
  {
    OccPrefixMono(s, a, |s|, x);
    assert s[..|s|] == s;
  }

  /** A row's position in its group is below the size of its group. */
  lemma CumCountBelowOcc<G>(gs: seq<G>, i: nat)
    requires i < |gs|
    ensures CumCount(gs, i) + 1 <= Occ(gs, gs[i])
  {
    assert gs[..i + 1] == gs[..i] + [gs[i]];
    OccSnoc(gs[..i], gs[i], gs[i]);
    OccPrefixBound(gs, i + 1, gs[i]);
  }

  /** Positions within a group strictly increase along the rows. */
  lemma CumCountStrict<G>(gs: seq<G>, i: nat, j: nat)
    requires i < j < |gs| && gs[i] == gs[j]
    ensures CumCount(gs, i) < CumCount(gs, j)
  {
    assert gs[..i + 1] == gs[..i] + [gs[i]];
    OccSnoc(gs[..i], gs[i], gs[i]);
    OccPrefixMono(gs, i + 1, j, gs[i]);
  }

  /** So two rows of one group at the same group position are the same row. */
  lemma CumCountInjective<G>(gs: seq<G>, i: nat, j: nat)
    requires i < |gs| && j < |gs| && gs[i] == gs[j]
    requires CumCount(gs, i) == CumCount(gs, j)
    ensures i == j
  {
    if i < j { CumCountStrict(gs, i, j); }
    if j < i { CumCountStrict(gs, j, i); }
  }

  /**
   * With contiguous groups, a row continues its predecessor's count when both
   * are in one group and starts at 0 otherwise.
   */
  lemma CumCountStep<G>(gs: seq<G>, i: nat)
    requires GroupsContiguous(gs)
    requires i < |gs|
    ensures CumCount(gs, i) ==
      if i > 0 && gs[i - 1] == gs[i] then CumCount(gs, i - 1) + 1 else 0
  {
    if i > 0 {
      assert gs[..i] == gs[..i - 1] + [gs[i - 1]];
      OccSnoc(gs[..i - 1], gs[i - 1], gs[i]);
    }
    if !(i > 0 && gs[i - 1] == gs[i]) {
      assert forall j :: 0 <= j < i ==> gs[..i][j] != gs[i];
      OccAbsent(gs[..i], gs[i]);
    }
  }

  /** With contiguous groups, the group position differs by the row distance. */
  lemma {:induction false} CumCountDistance<G>(gs: seq<G>, j: nat, i: nat)
    requires GroupsContiguous(gs)
    requires j <= i < |gs| && gs[j] == gs[i]
    ensures CumCount(gs, i) == CumCount(gs, j) + (i - j)
    decreases i - j
  {
    if j < i {
      if j < i - 1 {
        assert gs[i - 1] == gs[j];
      }
      CumCountDistance(gs, j, i - 1);
      CumCountStep(gs, i);
    }
  }

  /** Sentences are ordered by document, then by sentence ordinal. */
  ghost predicate KeyOrdered(keys: seq<Key>) {
    forall i, j :: 0 <= i < j < |keys| ==>
      keys[i].doc < keys[j].doc || (keys[i].doc == keys[j].doc && keys[i].sent <= keys[j].sent)
  }

  /**
   * Word ordinals start at 1 and every word after the first of its sentence
   * sits directly after its predecessor in the same sentence.
   */
  ghost predicate WordLinked(keys: seq<Key>) {
    forall i :: 0 <= i < |keys| ==>
      1 <= keys[i].word &&
      (keys[i].word > 1 ==> i > 0 && SameSent(keys[i - 1], keys[i]) && keys[i - 1].word + 1 == keys[i].word)
  }

  ghost predicate UniqueKeys(keys: seq<Key>) {
    forall i, j :: 0 <= i < j < |keys| ==> keys[i] != keys[j]
  }

  /**
   * The contiguity invariant: the physical row order is the (doc, sent, word)
   * order with no gaps, so word-ordinal differences are row differences.
   */
  ghost predicate WellKeyed(keys: seq<Key>) {
    KeyOrdered(keys) && WordLinked(keys) && UniqueKeys(keys)
  }
}
