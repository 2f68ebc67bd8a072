/**
 * Group-local lag windows (`Corpus.lag_cols`): for every source column and
 * every offset d in -w..w other than 0, a column `COLUMN_LAGd` holding, on each
 * row, the value d positions earlier in the same group (pandas `shift(d)`:
 * a positive d looks back, a negative d looks ahead), or the fill value.
 */
module Windows {
  import opened Table

  // ---------------------------------------------------------------------------
  // Shifting within groups

  /** Scanning rows k-1, k-2, ... downwards: the c-th row of group `x`. */
  function Back<G(==)>(gs: seq<G>, x: G, k: nat, c: nat): (r: Option<nat>)
    requires k <= |gs|
    ensures r.Some? ==> r.value < k
    decreases k
  {
    if k == 0 then None
    else if gs[k - 1] == x then (if c <= 1 then Some(k - 1) else Back(gs, x, k - 1, c - 1))
    else Back(gs, x, k - 1, c)
  }

  /** Scanning rows k, k+1, ... upwards: the c-th row of group `x`. */
  function Fwd<G(==)>(gs: seq<G>, x: G, k: nat, c: nat): (r: Option<nat>)
    requires k <= |gs|
    ensures r.Some? ==> k <= r.value < |gs|
    decreases |gs| - k
  {
    if k == |gs| then None
    else if gs[k] == x then (if c <= 1 then Some(k) else Fwd(gs, x, k + 1, c - 1))
    else Fwd(gs, x, k + 1, c)
  }

  /** The row whose value `shift(d)` moves onto row `i` within its group. */
  function LagSource<G(==)>(gs: seq<G>, i: nat, d: int): (r: Option<nat>)
    requires i < |gs|
    ensures r.Some? ==> r.value < |gs|
  {
    if d > 0 then Back(gs, gs[i], i, d)
    else if d < 0 then Fwd(gs, gs[i], i + 1, -d)
    else Some(i)
  }

  /** `fillna`: a missing cell becomes the fill value. */
  function FillNA(v: Value, fill: Value): Value {
    if v.NA? then fill else v
  }

  /** `column.groupby(level).shift(d).fillna(fill)`. */
  function LagColumn(gs: seq<seq<int>>, vals: Column, d: int, fill: Value): (r: Column)
    requires |gs| == |vals|
    ensures |r| == |vals|
  {
    seq(|vals|, i requires 0 <= i < |vals| =>
      match LagSource(gs, i, d)
      case Some(j) => FillNA(vals[j], fill)
      case None => fill)
  }

  lemma {:induction false} BackSpec<G>(gs: seq<G>, x: G, k: nat, c: nat)
    requires k <= |gs| && c >= 1
    ensures Back(gs, x, k, c).Some? ==>
      gs[Back(gs, x, k, c).value] == x &&
      Occ(gs[..Back(gs, x, k, c).value], x) + c == Occ(gs[..k], x)
    ensures Back(gs, x, k, c).None? ==> Occ(gs[..k], x) < c
    decreases k
  {
    if k > 0 {
      OccPrefixStep(gs, k, x);
      if gs[k - 1] == x {
        if c > 1 { BackSpec(gs, x, k - 1, c - 1); }
      } else {
        BackSpec(gs, x, k - 1, c);
      }
    }
  }

  lemma {:induction false} FwdSpec<G>(gs: seq<G>, x: G, k: nat, c: nat)
    requires k <= |gs| && c >= 1
    ensures Fwd(gs, x, k, c).Some? ==>
      gs[Fwd(gs, x, k, c).value] == x &&
      Occ(gs[..Fwd(gs, x, k, c).value], x) + 1 == Occ(gs[..k], x) + c
    ensures Fwd(gs, x, k, c).None? ==> Occ(gs, x) < Occ(gs[..k], x) + c
    decreases |gs| - k
  {
    if k == |gs| {
      assert gs[..k] == gs;
    } else {
      OccPrefixStep(gs, k + 1, x);
      if gs[k] == x {
        if c > 1 { FwdSpec(gs, x, k + 1, c - 1); }
      } else {
        FwdSpec(gs, x, k + 1, c);
      }
    }
  }

  /**
   * Group locality of the shift: the source row is in the same group, exactly
   * d group positions before row `i`; when there is none, no row of the group
   * sits at that position, so the fill value is used.
   */
  lemma LagSourceCorrect<G>(gs: seq<G>, i: nat, d: int)
    requires i < |gs|
    ensures LagSource(gs, i, d).Some? ==>
      var j := LagSource(gs, i, d).value;
      gs[j] == gs[i] && CumCount(gs, j) + d == CumCount(gs, i)
    ensures LagSource(gs, i, d).None? ==>
      forall j :: 0 <= j < |gs| && gs[j] == gs[i] ==> CumCount(gs, j) + d != CumCount(gs, i)
  {
    var x := gs[i];
    if d > 0 {
      BackSpec(gs, x, i, d);
    } else if d < 0 {
      FwdSpec(gs, x, i + 1, -d);
      OccPrefixStep(gs, i + 1, x);
      forall j | 0 <= j < |gs| && gs[j] == x ensures CumCount(gs, j) + 1 <= Occ(gs, x) {
        CumCountBelowOcc(gs, j);
      }
    }
  }

  /**
   * Every cell of a lag column is the (filled) value of the row of its own
   * group d group positions before it, or the fill value when its group has
   * no row there.
   */
  lemma LagColumnLocal(gs: seq<seq<int>>, vals: Column, d: int, fill: Value)
    requires |gs| == |vals|
    ensures var r := LagColumn(gs, vals, d, fill);
      forall i :: 0 <= i < |vals| ==>
        || (exists j :: 0 <= j < |vals| && gs[j] == gs[i] && CumCount(gs, j) + d == CumCount(gs, i) &&
              r[i] == FillNA(vals[j], fill))
        || (r[i] == fill &&
              forall j :: 0 <= j < |vals| && gs[j] == gs[i] ==> CumCount(gs, j) + d != CumCount(gs, i))
  {
    var r := LagColumn(gs, vals, d, fill);
    forall i | 0 <= i < |vals|
      ensures || (exists j :: 0 <= j < |vals| && gs[j] == gs[i] && CumCount(gs, j) + d == CumCount(gs, i) &&
                    r[i] == FillNA(vals[j], fill))
              || (r[i] == fill &&
                    forall j :: 0 <= j < |vals| && gs[j] == gs[i] ==> CumCount(gs, j) + d != CumCount(gs, i))
    {
      LagSourceCorrect(gs, i, d);
      var src := LagSource(gs, i, d);
      if src.Some? {
        var j := src.value;
        assert r[i] == FillNA(vals[j], fill);
      } else {
        assert r[i] == fill;
      }
    }
  }

  /**
   * When every group is one contiguous run of rows (the doc or (doc, sent)
   * groups of a sorted table), shifting by d reads row i - d exactly when
   * that row exists and lies in the same group.
   */
  lemma LagContiguous<G>(gs: seq<G>, i: nat, d: int)
    requires GroupsContiguous(gs) && i < |gs|
    ensures LagSource(gs, i, d) ==
      if 0 <= i - d < |gs| && gs[i - d] == gs[i] then Some(i - d) else None
  {
    LagSourceCorrect(gs, i, d);
    var r := LagSource(gs, i, d);
    if r.Some? {
      var j := r.value;
      if j <= i { CumCountDistance(gs, j, i); } else { CumCountDistance(gs, i, j); }
    }
    if 0 <= i - d < |gs| && gs[i - d] == gs[i] {
      if i - d <= i { CumCountDistance(gs, i - d, i); } else { CumCountDistance(gs, i, i - d); }
    }
  }

  /** Doc groups, and (doc, sent) groups, of an ordered index are contiguous. */
  lemma OrderedGroupsContiguous(index: seq<Key>, level: seq<LevelName>)
    requires KeyOrdered(index)
    requires level == [Doc] || level == [Doc, Sent]
    ensures GroupsContiguous(Groups(index, level))
  {
    var gs := Groups(index, level);
    forall i, k, j | 0 <= i < k < j < |gs| && gs[i] == gs[j] ensures gs[k] == gs[i] {
      assert gs[i][0] == index[i].doc && gs[j][0] == index[j].doc && gs[k][0] == index[k].doc;
      if level == [Doc, Sent] {
        ProjectDocSent(index[i]);
        ProjectDocSent(index[j]);
        ProjectDocSent(index[k]);
      }
    }
  }

  /**
   * Window locality by document: on an ordered index, the lag column grouped
   * by `doc` holds the (filled) value of row i - d when that row belongs to
   * the same document, and the fill value otherwise.
   */
  lemma LagByDoc(index: seq<Key>, vals: Column, d: int, fill: Value, i: nat)
    requires KeyOrdered(index) && |vals| == |index| && i < |index|
    ensures LagColumn(Groups(index, [Doc]), vals, d, fill)[i] ==
      if 0 <= i - d < |index| && index[i - d].doc == index[i].doc then FillNA(vals[i - d], fill) else fill
  {
    var gs := Groups(index, [Doc]);
    OrderedGroupsContiguous(index, [Doc]);
    LagContiguous(gs, i, d);
    if 0 <= i - d < |index| {
      assert gs[i - d] == [index[i - d].doc] && gs[i] == [index[i].doc];
    }
  }

  /**
   * The three-token document [the, cat, .] with a window of 1: the backward
   * lag (d = 1) of the first row and the forward lag (d = -1) of the last row
   * are the fill value, and the forward lag of the first row is `cat`.
   */
  lemma ThreeTokenExample(fill: Value)
    requires !fill.NA?
    ensures var gs := [[1], [1], [1]];
      var vals := [Str("the"), Str("cat"), Str(".")];
      LagColumn(gs, vals, 1, fill)[0] == fill &&
      LagColumn(gs, vals, -1, fill)[0] == Str("cat") &&
      LagColumn(gs, vals, -1, fill)[2] == fill &&
      LagColumn(gs, vals, 1, fill)[2] == Str("cat")
  {
    var gs := [[1], [1], [1]];
    assert Back(gs, [1], 2, 1) == Some(1);
    assert Fwd(gs, [1], 1, 1) == Some(1);
  }

  // ---------------------------------------------------------------------------
  // Column names

  function ToUpperChar(c: char): char {
    if 'a' <= c <= 'z' then (c as int - 32) as char else c
  }

  /** `str.upper`, for ASCII letters. */
  function Upper(s: string): (r: string)
    ensures |r| == |s|
  {
    if s == [] then [] else [ToUpperChar(s[0])] + Upper(s[1..])
  }

  function Digit(n: nat): char
    requires n < 10
  {
    ('0' as int + n) as char
  }

  /** Decimal digits of `n`, as `str` prints them. */
  function NatToString(n: nat): (r: string)
    ensures |r| >= 1
    ensures forall k :: 0 <= k < |r| ==> '0' <= r[k] <= '9'
  {
    if n < 10 then [Digit(n)] else NatToString(n / 10) + [Digit(n % 10)]
  }

  function IntToString(d: int): string {
    if d < 0 then "-" + NatToString(-d) else NatToString(d)
  }

  /** The name `lag_cols` gives the column for `column` at offset `d`. */
  function LagName(column: string, d: int): (name: string)
    ensures |name| > |column| + 4
  {
    Upper(column) + "_LAG" + IntToString(d)
  }

  /**
   * A lag column's name is the upper-cased column name, `_LAG`, then the
   * offset in decimal, led by `-` exactly when the offset is negative.
   */
  lemma {:induction false} LagNameShape(column: string, d: int)
    ensures var name := LagName(column, d);
      && name[..|column|] == Upper(column) && name[|column|..|column| + 4] == "_LAG"
      && (name[|column| + 4] == '-' <==> d < 0)
  {
    var u, digits := Upper(column), IntToString(d);
    var name := u + "_LAG" + digits;
    assert name == LagName(column, d);
    assert name[..|u|] == u;
    assert name[|u|..|u| + 4] == "_LAG";
    assert name[|u| + 4] == digits[0];
    assert digits[0] == '-' <==> d < 0 by {
      if d >= 0 { assert '0' <= NatToString(d)[0] <= '9'; }
    }
  }

  lemma {:induction false} NatToStringInjective(a: nat, b: nat)
    requires NatToString(a) == NatToString(b)
    ensures a == b
  {
    if a >= 10 && b >= 10 {
      var sa, sb := NatToString(a), NatToString(b);
      assert sa[..|sa| - 1] == NatToString(a / 10);
      assert sb[..|sb| - 1] == NatToString(b / 10);
      NatToStringInjective(a / 10, b / 10);
      assert Digit(a % 10) == sa[|sa| - 1] == Digit(b % 10);
    }
  }

  lemma IntToStringInjective(a: int, b: int)
    requires IntToString(a) == IntToString(b)
    ensures a == b
  {
    assert a < 0 <==> IntToString(a)[0] == '-';
    assert b < 0 <==> IntToString(b)[0] == '-';
    if a < 0 && b < 0 {
      assert IntToString(a)[1..] == NatToString(-a);
      assert IntToString(b)[1..] == NatToString(-b);
      NatToStringInjective(-a, -b);
    } else if a >= 0 && b >= 0 {
      NatToStringInjective(a, b);
    }
  }

  /** Distinct offsets give distinct column names, and none is the source column. */
  lemma LagNameInjective(column: string, d1: int, d2: int)
    ensures LagName(column, d1) == LagName(column, d2) ==> d1 == d2
    ensures LagName(column, d1) != column
  {
    var p := Upper(column) + "_LAG";
    assert |LagName(column, d1)| > |column|;
    if LagName(column, d1) == LagName(column, d2) {
      assert LagName(column, d1)[|p|..] == IntToString(d1);
      assert LagName(column, d2)[|p|..] == IntToString(d2);
      IntToStringInjective(d1, d2);
    }
  }

  // ---------------------------------------------------------------------------
  // The whole operation

  /** `range(-w, w + 1)` with 0 removed, for w >= 0. */
  function LagOffsets(w: nat): (lags: seq<int>)
    ensures |lags| == 2 * w
  {
    seq(2 * w, k requires 0 <= k < 2 * w => if k < w then k - w else k - w + 1)
  }

  /** The offsets are exactly the non-zero integers in [-w, w], ascending. */
  lemma LagOffsetsSpec(w: nat)
    ensures forall k1, k2 :: 0 <= k1 < k2 < 2 * w ==> LagOffsets(w)[k1] < LagOffsets(w)[k2]
    ensures forall d :: d in LagOffsets(w) <==> d != 0 && -(w as int) <= d <= w
  {
    var lags := LagOffsets(w);
    forall d | d != 0 && -(w as int) <= d <= w ensures d in lags {
      var k := if d < 0 then d + w else d + w - 1;
      assert lags[k] == d;
    }
  }

  /** The lag columns of one source column, one offset after another. */
  function LagEach(cols: Columns, index: seq<Key>, column: string, lags: seq<int>,
                   level: seq<LevelName>, fill: Value): (r: Attempt<Columns>)
    requires Shaped(cols, |index|)
    ensures Shaped(r.state, |index|) && cols.Keys <= r.state.Keys
    decreases |lags|
  {
    if lags == [] then Complete(cols)
    else if column !in cols then Aborted(cols, MissingColumn(column))
    else if level == [] then Aborted(cols, NoGroupKeys)
    else
      var col := LagColumn(Groups(index, level), cols[column], lags[0], fill);
      LagEach(cols[LagName(column, lags[0]) := col], index, column, lags[1..], level, fill)
  }

  /** Continue the column loop after one column's lags were attempted. */
  function AndThen(r: Attempt<Columns>, index: seq<Key>, columns: seq<string>, lags: seq<int>,
                   level: seq<LevelName>, fill: Value): Attempt<Columns>
    requires Shaped(r.state, |index|)
    decreases |columns|, 2
  {
    match r
    case Aborted(c, e) => Aborted(c, e)
    case Complete(c) => LagAll(c, index, columns, lags, level, fill)
  }

  /** All source columns, in order; a fault keeps the columns already added. */
  function LagAll(cols: Columns, index: seq<Key>, columns: seq<string>, lags: seq<int>,
                  level: seq<LevelName>, fill: Value): (r: Attempt<Columns>)
    requires Shaped(cols, |index|)
    ensures Shaped(r.state, |index|) && cols.Keys <= r.state.Keys
    decreases |columns|, 1
  {
    if columns == [] then Complete(cols)
    else AndThen(LagEach(cols, index, columns[0], lags, level, fill), index, columns[1..], lags, level, fill)
  }

  /** `lag_cols(columns, w, level, fill)`; a negative w fails before anything is added. */
  function LagCols(cols: Columns, index: seq<Key>, columns: seq<string>, w: int,
                   level: seq<LevelName>, fill: Value): (r: Attempt<Columns>)
    requires Shaped(cols, |index|)
    ensures Shaped(r.state, |index|) && cols.Keys <= r.state.Keys
    ensures w < 0 ==> r == Aborted(cols, EmptyLagRange)
  {
    if w < 0 then Aborted(cols, EmptyLagRange)
    else LagAll(cols, index, columns, LagOffsets(w), level, fill)
  }

  /** The names given to one column's lag columns. */
  function LagNames(column: string, lags: seq<int>): set<string> {
    set d | d in lags :: LagName(column, d)
  }

  /** The names given to the lag columns of all source columns. */
  function AllLagNames(columns: seq<string>, lags: seq<int>): set<string> {
    set c, d | c in columns && d in lags :: LagName(c, d)
  }

  /**
   * No generated name is one of the source columns, and two source columns
   * share a generated name only if they are the same column (so no lag
   * column is silently overwritten by another column's lag).
   */
  ghost predicate Separate(columns: seq<string>, lags: seq<int>) {
    (forall c1, c2, d :: c1 in columns && c2 in columns && d in lags ==> LagName(c1, d) != c2) &&
    (forall c1, c2, d1, d2 ::
       c1 in columns && c2 in columns && d1 in lags && d2 in lags && LagName(c1, d1) == LagName(c2, d2)
       ==> c1 == c2)
  }

  /**
   * One source column: every offset gets its own column holding the shifted
   * source, and nothing else changes.
   */
  lemma {:induction false} LagEachCorrect(cols: Columns, index: seq<Key>, column: string, lags: seq<int>,
                                          level: seq<LevelName>, fill: Value)
    requires Shaped(cols, |index|) && column in cols && level != []
    ensures LagEach(cols, index, column, lags, level, fill).Complete?
    ensures var r := LagEach(cols, index, column, lags, level, fill).state;
      && r.Keys == cols.Keys + LagNames(column, lags)
      && (forall d :: d in lags ==>
            r[LagName(column, d)] == LagColumn(Groups(index, level), cols[column], d, fill))
      && (forall k :: k in cols && k !in LagNames(column, lags) ==> r[k] == cols[k])
    decreases |lags|
  {
    if lags != [] {
      var gs := Groups(index, level);
      var d0 := lags[0];
      var rest := lags[1..];
      var cols' := cols[LagName(column, d0) := LagColumn(gs, cols[column], d0, fill)];
      LagNameInjective(column, d0, d0);
      LagEachCorrect(cols', index, column, rest, level, fill);
      var r := LagEach(cols', index, column, rest, level, fill).state;
      assert LagEach(cols, index, column, lags, level, fill).state == r;
      assert forall d :: d in lags <==> d == d0 || d in rest;
      assert LagNames(column, lags) == {LagName(column, d0)} + LagNames(column, rest);
      forall d | d in lags
        ensures r[LagName(column, d)] == LagColumn(gs, cols[column], d, fill)
      {
        if d !in rest && LagName(column, d) in LagNames(column, rest) {
          var d2 :| d2 in rest && LagName(column, d2) == LagName(column, d);
          LagNameInjective(column, d2, d);
        }
      }
    }
  }

  /** The lag fold over all source columns completes and adds exactly the generated names. */
  lemma {:induction false} LagAllKeys(cols: Columns, index: seq<Key>, columns: seq<string>, lags: seq<int>,
                                      level: seq<LevelName>, fill: Value)
    requires Shaped(cols, |index|) && level != []
    requires forall c :: c in columns ==> c in cols
    ensures LagAll(cols, index, columns, lags, level, fill).Complete?
    ensures LagAll(cols, index, columns, lags, level, fill).state.Keys == cols.Keys + AllLagNames(columns, lags)
    decreases |columns|
  {
    if columns != [] {
      LagEachCorrect(cols, index, columns[0], lags, level, fill);
      var c1 := LagEach(cols, index, columns[0], lags, level, fill).state;
      LagAllKeys(c1, index, columns[1..], lags, level, fill);
      AllLagNamesCons(columns, lags);
    }
  }

  /** Columns that existed before and are not generated names keep their cells. */
  lemma {:induction false} LagAllFrame(cols: Columns, index: seq<Key>, columns: seq<string>, lags: seq<int>,
                                       level: seq<LevelName>, fill: Value, k: string)
    requires Shaped(cols, |index|) && level != []
    requires forall c :: c in columns ==> c in cols
    requires k in cols && k !in AllLagNames(columns, lags)
    ensures LagAll(cols, index, columns, lags, level, fill).Complete?
    ensures k in LagAll(cols, index, columns, lags, level, fill).state
    ensures LagAll(cols, index, columns, lags, level, fill).state[k] == cols[k]
    decreases |columns|
  {
    LagAllKeys(cols, index, columns, lags, level, fill);
    if columns != [] {
      LagEachCorrect(cols, index, columns[0], lags, level, fill);
      var c1 := LagEach(cols, index, columns[0], lags, level, fill).state;
      AllLagNamesCons(columns, lags);
      LagAllFrame(c1, index, columns[1..], lags, level, fill, k);
    }
  }

  /**
   * All source columns: each generated name holds the shifted source column
   * as it was on entry, provided the names are separate.
   */
  lemma {:induction false} LagAllValue(cols: Columns, index: seq<Key>, columns: seq<string>, lags: seq<int>,
                                       level: seq<LevelName>, fill: Value, c: string, d: int)
    requires Shaped(cols, |index|) && level != []
    requires forall c :: c in columns ==> c in cols
    requires Separate(columns, lags)
    requires c in columns && d in lags
    ensures LagAll(cols, index, columns, lags, level, fill).Complete?
    ensures LagName(c, d) in LagAll(cols, index, columns, lags, level, fill).state
    ensures LagAll(cols, index, columns, lags, level, fill).state[LagName(c, d)]
      == LagColumn(Groups(index, level), cols[c], d, fill)
    decreases |columns|
  {
    LagAllKeys(cols, index, columns, lags, level, fill);
    var c0 := columns[0];
    var rest := columns[1..];
    LagEachCorrect(cols, index, c0, lags, level, fill);
    var c1 := LagEach(cols, index, c0, lags, level, fill).state;
    SeparateTail(columns, lags);
    if c in rest {
      assert c !in LagNames(c0, lags);
      LagAllValue(c1, index, rest, lags, level, fill, c, d);
    } else {
      assert LagName(c0, d) !in AllLagNames(rest, lags);
      LagAllFrame(c1, index, rest, lags, level, fill, LagName(c, d));
    }
  }

  lemma SeparateTail(columns: seq<string>, lags: seq<int>)
    requires columns != [] && Separate(columns, lags)
    ensures Separate(columns[1..], lags)
    ensures forall c, d :: c in columns[1..] && d in lags ==> LagName(columns[0], d) != c
    ensures forall c, d1, d2 ::
      c in columns[1..] && d1 in lags && d2 in lags && LagName(columns[0], d1) == LagName(c, d2)
      ==> c == columns[0]
  {
    assert forall c :: c in columns[1..] ==> c in columns;
  }

  lemma AllLagNamesCons(columns: seq<string>, lags: seq<int>)
    requires columns != []
    ensures AllLagNames(columns, lags) == LagNames(columns[0], lags) + AllLagNames(columns[1..], lags)
  {
    assert forall c :: c in columns <==> c == columns[0] || c in columns[1..];
  }

  /** A window of 0 adds nothing: the lag list is empty after removing 0. */
  lemma {:induction false} LagAllNoLags(cols: Columns, index: seq<Key>, columns: seq<string>,
                                        level: seq<LevelName>, fill: Value)
    requires Shaped(cols, |index|)
    ensures LagAll(cols, index, columns, [], level, fill) == Complete(cols)
    decreases |columns|
  {
    if columns != [] {
      LagAllNoLags(cols, index, columns[1..], level, fill);
    }
  }

  /**
   * `lag_cols` as a whole: a negative window raises before adding anything,
   * a zero window adds nothing, and a positive window over present, separate
   * columns adds exactly the 2w named lag columns per source column.
   */
  lemma LagColsSpec(cols: Columns, index: seq<Key>, columns: seq<string>, w: int,
                    level: seq<LevelName>, fill: Value)
    requires Shaped(cols, |index|)
    ensures w < 0 ==> LagCols(cols, index, columns, w, level, fill) == Aborted(cols, EmptyLagRange)
    ensures w == 0 ==> LagCols(cols, index, columns, w, level, fill) == Complete(cols)
    ensures w > 0 && level != [] && (forall c :: c in columns ==> c in cols) &&
            Separate(columns, LagOffsets(w)) ==>
      var r := LagCols(cols, index, columns, w, level, fill);
      && r.Complete?
      && r.state.Keys == cols.Keys + AllLagNames(columns, LagOffsets(w))
      && (forall c, d :: c in columns && d in LagOffsets(w) ==>
            r.state[LagName(c, d)] == LagColumn(Groups(index, level), cols[c], d, fill))
  {
    if w == 0 {
      LagAllNoLags(cols, index, columns, level, fill);
    }
    if w > 0 && level != [] && (forall c :: c in columns ==> c in cols) && Separate(columns, LagOffsets(w)) {
      LagAllKeys(cols, index, columns, LagOffsets(w), level, fill);
      forall c, d | c in columns && d in LagOffsets(w)
        ensures LagCols(cols, index, columns, w, level, fill).state[LagName(c, d)]
          == LagColumn(Groups(index, level), cols[c], d, fill)
      {
        LagAllValue(cols, index, columns, LagOffsets(w), level, fill, c, d);
      }
    }
  }

  /** Each source column gets 2w pairwise distinct lag column names. */
  lemma LagNamesDistinct(column: string, w: nat)
    ensures forall k1, k2 :: 0 <= k1 < k2 < 2 * w ==>
      LagName(column, LagOffsets(w)[k1]) != LagName(column, LagOffsets(w)[k2])
  {
    LagOffsetsSpec(w);
    forall k1, k2 | 0 <= k1 < k2 < 2 * w
      ensures LagName(column, LagOffsets(w)[k1]) != LagName(column, LagOffsets(w)[k2])
    {
      LagNameInjective(column, LagOffsets(w)[k1], LagOffsets(w)[k2]);
    }
  }
}
