/**
 * `IRRProcessor` itself: the object that holds the label columns and the
 * processor configuration, fills `hash_map` and the agreement table step by
 * step, and computes and stores the coefficient. Each method is proved to
 * compute what the specification functions of `Agreement` and `Coefficient` say.
 */
module Processor {
  import opened Wrappers
  import opened Text
  import opened Sums
  import opened Agreement
  import opened Coefficient

  /** `ProcessorConfig`: the inner keys of `hash_map` under which each rater's
      tokens are stored, and the name of the item column of the table. */
  datatype ProcessorConfig = ProcessorConfig(rater1LabelColumn: string, rater2LabelColumn: string, dataColumn: string)

  const DefaultConfig := ProcessorConfig("label_1", "label_2", "data")

  /** Why `calculate_irr` produces no number: building the table failed, or
      one of its divisions has a zero divisor. */
  datatype IrrError = TableFailed(table: TableError) | Degenerate(alpha: AlphaError)

  /** `calculate_irr` as a function of the label columns, the item column's
      name and the two raters' annotations. */
  function Irr(labels: seq<string>, dataColumn: string,
               rows1: seq<RaterDataRow>, rows2: seq<RaterDataRow>): Result<real, IrrError>
  {
    match AgreementTable(labels, dataColumn, rows1, rows2)
    case Err(e) => Err(TableFailed(e))
    case Ok(t) =>
      match Alpha(t.cells, |labels|)
      case Err(e) => Err(Degenerate(e))
      case Ok(a) => Ok(a)
  }

  /** The position of a label column, as `df.at` finds it. */
  function ColumnIndex(labels: seq<string>, name: string): (r: Option<nat>)
    ensures r.None? <==> name !in labels
    ensures r.Some? ==> r.value < |labels| && labels[r.value] == name
  {
    if labels == [] then None
    else if labels[|labels| - 1] == name then Some(|labels| - 1)
    else ColumnIndex(labels[..|labels| - 1], name)
  }

  /** The cells of a two-dimensional array, row by row. */
  function ArrayRows(a: array2<nat>): (rows: seq<seq<nat>>)
    reads a
    ensures |rows| == a.Length0
    ensures forall i :: 0 <= i < a.Length0 ==> |rows[i]| == a.Length1
    ensures forall i, k :: 0 <= i < a.Length0 && 0 <= k < a.Length1 ==> rows[i][k] == a[i, k]
  {
    seq(a.Length0, i reads a => seq(a.Length1, k reads a => if 0 <= i < a.Length0 && 0 <= k < a.Length1 then a[i, k] else 0))
  }

  class IrrProcessor {
    const availableLabels: seq<string>
    const config: ProcessorConfig
    /** `self.krip_alpha`, absent until a coefficient has been computed. */
    var kripAlpha: Option<real>

    constructor (availableLabels: seq<string>, config: ProcessorConfig)
      requires Distinct(availableLabels)
      requires config.rater1LabelColumn != config.rater2LabelColumn
      ensures this.availableLabels == availableLabels && this.config == config
      ensures kripAlpha == None
    {
      this.availableLabels := availableLabels;
      this.config := config;
      kripAlpha := None;
    }

    /** `_get_agreement_table`: fills `hash_map` from both raters' annotations,
        creates the zero-filled table with one row per key and one column per
        label, and counts every token of every item into its label's cell. */
    method GetAgreementTable(rater1: RaterData, rater2: RaterData) returns (res: Result<Table, TableError>)
      requires Distinct(availableLabels)
      ensures res == AgreementTable(availableLabels, config.dataColumn, rater1.rows, rater2.rows)
    {
      var h := FillHashMap(rater1.rows, rater2.rows);
      MergeValid(rater1.rows, rater2.rows);
      var labels := availableLabels;
      var n, m := |h.keys|, |labels|;
      var df := new nat[n, m]((_, _) => 0);
      if config.dataColumn in labels {
        return Err(DuplicateItemColumn(config.dataColumn));
      }
      var cells := CountItems(df, labels, h);
      if cells.Err? {
        return Err(cells.error);
      }
      return Ok(Table(config.dataColumn, labels, h.keys, cells.value));
    }

    /** `calculate_irr`: builds the table, computes rbar, p_primea and p_a,
        the PI_k and p_e, and stores and returns the coefficient; with no
        coefficient, `krip_alpha` keeps its value. */
    method CalculateIrr(rater1: RaterData, rater2: RaterData) returns (res: Result<real, IrrError>)
      requires Distinct(availableLabels)
      modifies this
      ensures res == Irr(availableLabels, config.dataColumn, rater1.rows, rater2.rows)
      ensures kripAlpha == if res.Ok? then Some(res.value) else old(kripAlpha)
    {
      var table := GetAgreementTable(rater1, rater2);
      if table.Err? {
        return Err(TableFailed(table.error));
      }
      var alpha := ComputeAlpha(table.value.cells, |availableLabels|);
      if alpha.Err? {
        return Err(Degenerate(alpha.error));
      }
      kripAlpha := Some(alpha.value);
      return Ok(alpha.value);
    }
  }

  /** The arithmetic of `calculate_irr` on the table's count cells, m label
      columns wide: rbar, p_primea and p_a, the PI_k, p_e and the
      coefficient, or the first division that has no value. */
  method ComputeAlpha(cells: seq<seq<nat>>, m: nat) returns (res: Result<real, AlphaError>)
    requires Rectangular(cells, m)
    ensures res == Alpha(cells, m)
  {
    var n := |cells|;
    if n == 0 {
      return Err(NoItems);
    }
    var sum := RatingsSum(cells);
    if sum == 0 {
      return Err(NoRatings);
    }
    var rbar := sum as real / n as real;
    var single, pPrimeA, totalNumRatings := AgreementSum(cells, m, rbar);
    if single.Some? {
      return Err(SingleRatingItem(single.value));
    }
    pPrimeA := pPrimeA / n as real;
    var nRbar := n as real * rbar;
    PAOf(cells, pPrimeA, rbar, nRbar);
    var pA := pPrimeA * (1.0 - 1.0 / nRbar) + 1.0 / nRbar;
    var piKs := Shares(cells, m, totalNumRatings);
    var pE := SumOfSquares(cells, m, piKs);
    if pE == 1.0 {
      return Err(ChanceAgreementIsOne);
    }
    AlphaOf(cells, m, pA, pE);
    return Ok((pA - pE) / (1.0 - pE));
  }

  /** The two loops that fill `hash_map`. */
  method FillHashMap(rows1: seq<RaterDataRow>, rows2: seq<RaterDataRow>) returns (h: HashMap)
    ensures h == Merge(rows1, rows2)
  {
    var keys: seq<string> := [];
    var slots: map<string, Slots> := map[];
    var i := 0;
    while i < |rows1|
      invariant 0 <= i <= |rows1|
      invariant HashMap(keys, slots) == FillRater1(EmptyHashMap, rows1[..i])
    {
      var row := rows1[i];
      assert rows1[..i + 1][..i] == rows1[..i];
      assert FillRater1(EmptyHashMap, rows1[..i + 1]) == AddRater1(HashMap(keys, slots), row);
      var tokens := ProcessLabels(row.labels);
      if row.data in slots {
        slots := slots[row.data := slots[row.data].(rater1 := tokens)];
      } else {
        keys := keys + [row.data];
        slots := slots[row.data := Slots(tokens, None)];
      }
      i := i + 1;
    }
    assert rows1[..|rows1|] == rows1;
    i := 0;
    while i < |rows2|
      invariant 0 <= i <= |rows2|
      invariant HashMap(keys, slots) == FillRater2(FillRater1(EmptyHashMap, rows1), rows2[..i])
    {
      var row := rows2[i];
      assert rows2[..i + 1][..i] == rows2[..i];
      assert FillRater2(FillRater1(EmptyHashMap, rows1), rows2[..i + 1]) == AddRater2(HashMap(keys, slots), row);
      var tokens := ProcessLabels(row.labels);
      if row.data in slots {
        slots := slots[row.data := slots[row.data].(rater2 := Some(tokens))];
      } else {
        keys := keys + [row.data];
        slots := slots[row.data := Slots([], Some(tokens))];
      }
      i := i + 1;
    }
    assert rows2[..|rows2|] == rows2;
    h := HashMap(keys, slots);
  }

  /** The loop over the items of `hash_map`, which counts item r into row r
      of the zero-filled table; the first item whose counting fails ends it. */
  method CountItems(df: array2<nat>, labels: seq<string>, h: HashMap) returns (res: Result<seq<seq<nat>>, TableError>)
    requires Distinct(labels) && ValidHashMap(h)
    requires df.Length0 == |h.keys| && df.Length1 == |labels|
    requires forall i, k :: 0 <= i < df.Length0 && 0 <= k < df.Length1 ==> df[i, k] == 0
    modifies df
    ensures res == BuildRows(labels, h, h.keys)
  {
    var n, m := |h.keys|, |labels|;
    ghost var built: seq<seq<nat>> := [];
    var r := 0;
    while r < n
      invariant 0 <= r <= n && |built| == r
      invariant BuildRows(labels, h, h.keys[..r]) == Ok(built)
      invariant forall i :: 0 <= i < r ==> |built[i]| == m
      invariant forall i, k :: 0 <= i < r && 0 <= k < m ==> df[i, k] == built[i][k]
      invariant forall i, k :: r <= i < n && 0 <= k < m ==> df[i, k] == 0
    {
      var item := h.keys[r];
      var row := CountRow(df, r, labels, item, h.slots[item]);
      if row.Err? {
        RowErrorPropagates(labels, h, h.keys, r, row.error);
        return Err(row.error);
      }
      RowBuilt(labels, h, h.keys, r, built, row.value);
      built := built + [row.value];
      r := r + 1;
    }
    assert h.keys[..n] == h.keys;
    var cells := ArrayRows(df);
    assert cells == built by {
      SameRows(cells, built, n, m);
    }
    return Ok(cells);
  }

  /** The counting of one item into row r of the table: rater 1's tokens,
      then the lookup of the rater-2 slot, then rater 2's tokens. */
  method CountRow(df: array2<nat>, r: nat, labels: seq<string>, item: string, s: Slots)
    returns (res: Result<seq<nat>, TableError>)
    requires Distinct(labels) && r < df.Length0 && df.Length1 == |labels|
    requires forall k :: 0 <= k < df.Length1 ==> df[r, k] == 0
    modifies df
    ensures res == RowCounts(labels, item, s)
    ensures res.Ok? ==> |res.value| == |labels| && forall k :: 0 <= k < |labels| ==> df[r, k] == res.value[k]
    ensures forall i, k :: 0 <= i < df.Length0 && i != r && 0 <= k < df.Length1 ==> df[i, k] == old(df[i, k])
  {
    var unknown := CountTokens(df, r, labels, s.rater1);
    if unknown.Some? {
      return Err(UnknownLabel(item, unknown.value));
    }
    if s.rater2.None? {
      return Err(MissingRater2(item));
    }
    unknown := CountTokens(df, r, labels, s.rater2.value);
    if unknown.Some? {
      return Err(UnknownLabel(item, unknown.value));
    }
    res := Ok(Tally(s.rater1, s.rater2.value, labels));
  }

  /** `df.at[row_idx, label] += 1` for every token, in order, until a token
      is not a label column. */
  method CountTokens(df: array2<nat>, r: nat, labels: seq<string>, tokens: seq<string>) returns (unknown: Option<string>)
    requires Distinct(labels) && r < df.Length0 && df.Length1 == |labels|
    modifies df
    ensures unknown == FirstUnknown(tokens, labels)
    ensures unknown.None? ==> forall k :: 0 <= k < |labels| ==> df[r, k] == old(df[r, k]) + Count(tokens, labels[k])
    ensures forall i, k :: 0 <= i < df.Length0 && i != r && 0 <= k < df.Length1 ==> df[i, k] == old(df[i, k])
  {
    var j := 0;
    while j < |tokens|
      invariant 0 <= j <= |tokens|
      invariant FirstUnknown(tokens[..j], labels).None?
      invariant forall k :: 0 <= k < |labels| ==> df[r, k] == old(df[r, k]) + Count(tokens[..j], labels[k])
      invariant forall i, k :: 0 <= i < df.Length0 && i != r && 0 <= k < df.Length1 ==> df[i, k] == old(df[i, k])
    {
      var c := ColumnIndex(labels, tokens[j]);
      if c.None? {
        FirstUnknownAt(tokens, labels, j);
        return Some(tokens[j]);
      }
      df[r, c.value] := df[r, c.value] + 1;
      CountStep(tokens, j, labels, c.value);
      j := j + 1;
    }
    assert tokens[..|tokens|] == tokens;
    return None;
  }

  /** The loop that adds up the row sums for rbar. */
  method RatingsSum(cells: seq<seq<nat>>) returns (sum: nat)
    ensures sum == Total(cells)
  {
    sum := 0;
    var i := 0;
    while i < |cells|
      invariant 0 <= i <= |cells| && sum == TotalTo(cells, i)
    {
      sum := sum + RowSum(cells[i]);
      i := i + 1;
    }
  }

  /** The loop over the rows and, inside it, over the label columns that
      adds up p_aik and counts total_num_ratings; it stops at the first row
      with a single label assignment, where r_i - 1 is 0. */
  method AgreementSum(cells: seq<seq<nat>>, m: nat, rbar: real)
    returns (single: Option<nat>, pPrimeA: real, totalNumRatings: nat)
    requires Rectangular(cells, m) && rbar != 0.0
    ensures single == SingleRatingRow(cells, |cells|)
    ensures single.None? ==> pPrimeA == AgreementTo(cells, rbar, |cells|) && totalNumRatings == Total(cells)
  {
    pPrimeA, totalNumRatings := 0.0, 0;
    var i := 0;
    while i < |cells|
      invariant 0 <= i <= |cells| && totalNumRatings == TotalTo(cells, i)
      invariant NoSingleRating(cells, i) && pPrimeA == AgreementTo(cells, rbar, i)
    {
      var ri := RowSum(cells[i]);
      totalNumRatings := totalNumRatings + ri;
      if ri == 1 {
        SingleRatingFirst(cells, i, |cells|);
        return Some(i), pPrimeA, totalNumRatings;
      }
      pPrimeA := AddRowAgreement(pPrimeA, cells[i], ri, rbar);
      assert NoSingleRating(cells, i + 1);
      assert AgreementTo(cells, rbar, i + 1) == AgreementTo(cells, rbar, i) + RowAgreement(cells[i], rbar);
      i := i + 1;
    }
    single := None;
  }

  /** The inner loop over the labels: the p_aik of one row added to p_primea. */
  method AddRowAgreement(pPrimeA: real, row: seq<nat>, ri: nat, rbar: real) returns (sum: real)
    requires rbar != 0.0 && ri == RowSum(row) && ri != 1
    ensures sum == pPrimeA + RowAgreement(row, rbar)
  {
    sum := pPrimeA;
    var k := 0;
    while k < |row|
      invariant 0 <= k <= |row|
      invariant sum == pPrimeA + RowAgreementTo(row, rbar, k)
    {
      var rik := row[k];
      var rbarIk := row[k];
      var pAik := (rik as real) * ((rbarIk as real) - 1.0) / (rbar * ((ri as real) - 1.0));
      assert pAik == PAik(row[k], RowSum(row), rbar);
      assert RowAgreementTo(row, rbar, k + 1) == RowAgreementTo(row, rbar, k) + PAik(row[k], RowSum(row), rbar);
      sum := sum + pAik;
      k := k + 1;
    }
  }

  /** The loop that collects PI_ks. */
  method Shares(cells: seq<seq<nat>>, m: nat, totalNumRatings: nat) returns (piKs: seq<real>)
    requires Rectangular(cells, m) && totalNumRatings == Total(cells) > 0
    ensures |piKs| == m && forall k :: 0 <= k < m ==> piKs[k] == Pi(cells, m, k)
  {
    piKs := [];
    var k := 0;
    while k < m
      invariant 0 <= k <= m && |piKs| == k
      invariant forall j :: 0 <= j < k ==> piKs[j] == Pi(cells, m, j)
    {
      piKs := piKs + [ColumnSum(cells, m, k) as real / totalNumRatings as real];
      k := k + 1;
    }
  }

  /** `sum(PI_k * PI_k for PI_k in PI_ks)`. */
  method SumOfSquares(cells: seq<seq<nat>>, m: nat, piKs: seq<real>) returns (pE: real)
    requires Rectangular(cells, m) && Total(cells) > 0
    requires |piKs| == m && forall k :: 0 <= k < m ==> piKs[k] == Pi(cells, m, k)
    ensures pE == Pe(cells, m)
  {
    pE := 0.0;
    var k := 0;
    while k < m
      invariant 0 <= k <= m && pE == PeTo(cells, m, k)
    {
      pE := pE + piKs[k] * piKs[k];
      k := k + 1;
    }
  }

  // ---------------------------------------------------------------------------
  // Steps of the proofs of the methods

  /** Counting one more token adds one to its label's cell and nothing else. */
  lemma CountStep(tokens: seq<string>, j: nat, labels: seq<string>, c: nat)
    requires j < |tokens| && c < |labels| && labels[c] == tokens[j] && Distinct(labels)
    ensures forall k :: 0 <= k < |labels| ==>
      Count(tokens[..j + 1], labels[k]) == Count(tokens[..j], labels[k]) + (if k == c then 1 else 0)
    ensures FirstUnknown(tokens[..j], labels).None? ==> FirstUnknown(tokens[..j + 1], labels).None?
  {
    assert tokens[..j + 1] == tokens[..j] + [tokens[j]];
    assert multiset(tokens[..j + 1]) == multiset(tokens[..j]) + multiset{tokens[j]};
    FirstUnknownSpec(tokens[..j], labels);
    FirstUnknownSpec(tokens[..j + 1], labels);
    if FirstUnknown(tokens[..j], labels).None? {
      var prefix := tokens[..j + 1];
      forall i | 0 <= i < |prefix| ensures prefix[i] in labels {
        if i < j {
          assert prefix[i] == tokens[..j][i];
        }
      }
    }
  }

  /** When the tokens before position j are labels and the one at j is not,
      the one at j is the first unknown token. */
  lemma {:induction false} FirstUnknownAt(tokens: seq<string>, labels: seq<string>, j: nat)
    requires j < |tokens| && tokens[j] !in labels
    requires FirstUnknown(tokens[..j], labels).None?
    ensures FirstUnknown(tokens, labels) == Some(tokens[j])
  {
    if j > 0 {
      assert tokens[0] == tokens[..j][0];
      assert tokens[1..][..j - 1] == tokens[..j][1..];
      FirstUnknownAt(tokens[1..], labels, j - 1);
    }
  }

  /** Once the rows before r are built and row r is built, the rows up to
      r + 1 are built. */
  lemma RowBuilt(labels: seq<string>, h: HashMap, keys: seq<string>, r: nat,
                 built: seq<seq<nat>>, row: seq<nat>)
    requires forall x :: x in keys ==> x in h.slots
    requires r < |keys| && BuildRows(labels, h, keys[..r]) == Ok(built)
    requires RowCounts(labels, keys[r], h.slots[keys[r]]) == Ok(row)
    ensures BuildRows(labels, h, keys[..r + 1]) == Ok(built + [row])
  {
    assert keys[..r + 1][..r] == keys[..r];
  }

  /** Two tables with the same shape and the same cells are equal. */
  lemma SameRows(a: seq<seq<nat>>, b: seq<seq<nat>>, n: nat, m: nat)
    requires |a| == n && |b| == n
    requires forall i :: 0 <= i < n ==> |a[i]| == m && |b[i]| == m
    requires forall i, k :: 0 <= i < n && 0 <= k < m ==> a[i][k] == b[i][k]
    ensures a == b
  {
    forall i | 0 <= i < n ensures a[i] == b[i] {
      assert a[i] == b[i];
    }
  }

  /** Once the rows before r are built and row r fails, building fails with
      row r's failure. */
  lemma {:induction false} RowErrorPropagates(labels: seq<string>, h: HashMap, keys: seq<string>, r: nat, e: TableError)
    requires forall x :: x in keys ==> x in h.slots
    requires r < |keys| && BuildRows(labels, h, keys[..r]).Ok?
    requires RowCounts(labels, keys[r], h.slots[keys[r]]) == Err(e)
    ensures BuildRows(labels, h, keys) == Err(e)
  {
    if |keys| == r + 1 {
      assert keys[..|keys| - 1] == keys[..r];
    } else {
      var init := keys[..|keys| - 1];
      assert init[..r] == keys[..r];
      RowErrorPropagates(labels, h, init, r, e);
    }
  }

  /** A row with exactly one label assignment after rows with none is the
      first such row. */
  lemma {:induction false} SingleRatingFirst(cells: seq<seq<nat>>, i: nat, n: nat)
    requires i < n <= |cells| && NoSingleRating(cells, i) && RowSum(cells[i]) == 1
    ensures SingleRatingRow(cells, n) == Some(i)
  {
    if n > i + 1 {
      SingleRatingFirst(cells, i, n - 1);
    }
  }

  // ---------------------------------------------------------------------------
  // The whole computation

  /** The label text of an item's last annotation is the label text of one
      of the annotations. */
  lemma {:induction false} LastLabelsFrom(rows: seq<RaterDataRow>, x: string)
    requires LastLabels(rows, x).Some?
    ensures exists i :: 0 <= i < |rows| && rows[i].labels == LastLabels(rows, x).value
  {
    if rows[|rows| - 1].data != x {
      LastLabelsFrom(rows[..|rows| - 1], x);
      var i :| 0 <= i < |rows| - 1 && rows[..|rows| - 1][i].labels == LastLabels(rows, x).value;
      assert rows[i].labels == LastLabels(rows, x).value;
    }
  }

  /** Each annotation names exactly one of the labels. */
  predicate OneLabelEach(rows: seq<RaterDataRow>, labels: seq<string>) {
    forall i :: 0 <= i < |rows| ==> var tokens := ProcessLabels(rows[i].labels); |tokens| == 1 && tokens[0] in labels
  }

  /** When both raters made the same annotations and each names exactly one
      label, every item's slots hold that one label twice. */
  lemma SelfAgreementSlots(rows: seq<RaterDataRow>, labels: seq<string>, x: string)
    requires OneLabelEach(rows, labels) && x in Merge(rows, rows).slots
    ensures var s := Merge(rows, rows).slots[x];
      |s.rater1| == 1 && s.rater1[0] in labels && s.rater2 == Some(s.rater1)
  {
    MergeKeys(rows, rows);
    LastLabelsSome(rows, x);
    MergeSlots(rows, rows, x);
    LastLabelsFrom(rows, x);
  }

  /** With the same annotations twice, each naming one label, the table is
      built and has a row. */
  lemma SelfAgreementBuilds(labels: seq<string>, dataColumn: string, rows: seq<RaterDataRow>)
    requires dataColumn !in labels && |rows| > 0
    requires OneLabelEach(rows, labels)
    ensures AgreementTable(labels, dataColumn, rows, rows).Ok?
    ensures |AgreementTable(labels, dataColumn, rows, rows).value.items| > 0
  {
    var h := Merge(rows, rows);
    MergeValid(rows, rows);
    assert BuildRows(labels, h, h.keys).Ok? by {
      AllRowsOk(labels, h);
      forall x | x in h.slots ensures RowOk(labels, h.slots[x]) {
        SelfAgreementSlots(rows, labels, x);
        var s := h.slots[x];
        assert s.rater1 == [s.rater1[0]];
      }
    }
    assert |h.keys| > 0 by {
      MergeKeys(rows, rows);
      assert rows[0].data in Items(rows);
    }
  }

  /** ... and its rows are those of perfect agreement: each has a 2 in the
      column of the item's label and 0 elsewhere. */
  lemma SelfAgreementPerfect(labels: seq<string>, dataColumn: string, rows: seq<RaterDataRow>)
    requires Distinct(labels) && dataColumn !in labels && |rows| > 0
    requires OneLabelEach(rows, labels)
    ensures AgreementTable(labels, dataColumn, rows, rows).Ok?
    ensures exists hot :: PerfectAgreement(AgreementTable(labels, dataColumn, rows, rows).value.cells, |labels|, hot)
  {
    SelfAgreementBuilds(labels, dataColumn, rows);
    var h, t := Merge(rows, rows), AgreementTable(labels, dataColumn, rows, rows).value;
    var cells, m, n := t.cells, |labels|, |t.items|;
    forall i | 0 <= i < n
      ensures |h.slots[t.items[i]].rater1| == 1 && h.slots[t.items[i]].rater1[0] in labels
    {
      SelfAgreementRow(labels, dataColumn, rows, i);
    }
    var hot := seq(n, i requires 0 <= i < n => ColumnIndex(labels, h.slots[t.items[i]].rater1[0]).value);
    forall i | 0 <= i < n
      ensures hot[i] < m && forall k :: 0 <= k < m ==> cells[i][k] == (if k == hot[i] then 2 else 0)
    {
      SelfAgreementRow(labels, dataColumn, rows, i);
    }
    assert PerfectAgreement(cells, m, hot);
  }

  /** Row i of the table of the same annotations twice, each naming one label. */
  lemma SelfAgreementRow(labels: seq<string>, dataColumn: string, rows: seq<RaterDataRow>, i: nat)
    requires Distinct(labels) && OneLabelEach(rows, labels)
    requires AgreementTable(labels, dataColumn, rows, rows).Ok?
    requires i < |AgreementTable(labels, dataColumn, rows, rows).value.items|
    ensures var t := AgreementTable(labels, dataColumn, rows, rows).value;
      var s := Merge(rows, rows).slots[t.items[i]];
      && |s.rater1| == 1 && s.rater1[0] in labels
      && forall k :: 0 <= k < |labels| ==>
           t.cells[i][k] == (if k == ColumnIndex(labels, s.rater1[0]).value then 2 else 0)
  {
    var t := AgreementTable(labels, dataColumn, rows, rows).value;
    var x := t.items[i];
    TableCells(labels, dataColumn, rows, rows);
    SelfAgreementSlots(rows, labels, x);
    var s := Merge(rows, rows).slots[x];
    var token := s.rater1[0];
    assert s.rater1 == [token] && s.rater2 == Some([token]);
    PerfectRow(labels, token, t.cells[i]);
  }

  /** The row of an item both raters gave the one label token: 2 in the
      token's column, 0 elsewhere. */
  lemma PerfectRow(labels: seq<string>, token: string, row: seq<nat>)
    requires Distinct(labels) && token in labels && |row| == |labels|
    requires forall k :: 0 <= k < |labels| ==> row[k] == Count([token], labels[k]) + Count([token], labels[k])
    ensures var c := ColumnIndex(labels, token).value;
      forall k :: 0 <= k < |labels| ==> row[k] == (if k == c then 2 else 0)
  {
    var c := ColumnIndex(labels, token).value;
    forall k | 0 <= k < |labels| ensures row[k] == (if k == c then 2 else 0) {
      assert labels[k] == token <==> k == c;
    }
  }

  /** Every item's last annotation gives the same tokens. */
  ghost predicate SameLabel(rows: seq<RaterDataRow>) {
    forall x, y :: x in Items(rows) && y in Items(rows) ==> Parsed(LastLabels(rows, x)) == Parsed(LastLabels(rows, y))
  }

  /** With the same annotations twice, the parsed last annotation of an item
      is its rater-1 list in `hash_map`. */
  lemma SelfSlot(rows: seq<RaterDataRow>, x: string)
    requires x in Items(rows)
    ensures x in Merge(rows, rows).slots
    ensures Parsed(LastLabels(rows, x)) == Some(Merge(rows, rows).slots[x].rater1)
  {
    MergeKeys(rows, rows);
    LastLabelsSome(rows, x);
    MergeSlots(rows, rows, x);
  }

  /** When item i's tokens are the one label hot[i], all hot[i] agree exactly
      when every item's last annotation gives the same tokens. */
  lemma SameHotLabel(labels: seq<string>, rows: seq<RaterDataRow>, hot: seq<nat>)
    requires Distinct(labels) && |hot| == |Merge(rows, rows).keys| > 0
    requires var h := Merge(rows, rows);
      forall i :: 0 <= i < |hot| ==> hot[i] < |labels| && h.keys[i] in h.slots && h.slots[h.keys[i]].rater1 == [labels[hot[i]]]
    ensures (forall i :: 0 <= i < |hot| ==> hot[i] == hot[0]) <==> SameLabel(rows)
  {
    SameHot(labels, Merge(rows, rows), hot);
    SameLabelSlots(rows);
  }

  /** Row i's 2 sits in the column of item i's one token. */
  lemma HotTokens(labels: seq<string>, dataColumn: string, rows: seq<RaterDataRow>, hot: seq<nat>)
    requires Distinct(labels) && OneLabelEach(rows, labels)
    requires AgreementTable(labels, dataColumn, rows, rows).Ok?
    requires PerfectAgreement(AgreementTable(labels, dataColumn, rows, rows).value.cells, |labels|, hot)
    ensures var h := Merge(rows, rows);
      && |hot| == |h.keys|
      && forall i :: 0 <= i < |hot| ==> hot[i] < |labels| && h.keys[i] in h.slots && h.slots[h.keys[i]].rater1 == [labels[hot[i]]]
  {
    var t, h := AgreementTable(labels, dataColumn, rows, rows).value, Merge(rows, rows);
    MergeValid(rows, rows);
    forall i | 0 <= i < |hot| ensures h.slots[t.items[i]].rater1 == [labels[hot[i]]] {
      SelfAgreementRow(labels, dataColumn, rows, i);
      var s := h.slots[t.items[i]];
      assert t.cells[i][hot[i]] == 2;
      assert s.rater1 == [s.rater1[0]];
    }
  }

  /** When item i's tokens are the one label hot[i], all hot[i] agree exactly
      when all items' tokens do. */
  lemma SameHot(labels: seq<string>, h: HashMap, hot: seq<nat>)
    requires Distinct(labels) && |hot| == |h.keys| > 0
    requires forall i :: 0 <= i < |hot| ==> hot[i] < |labels| && h.keys[i] in h.slots && h.slots[h.keys[i]].rater1 == [labels[hot[i]]]
    ensures (forall i :: 0 <= i < |hot| ==> hot[i] == hot[0]) <==>
      forall i, j :: 0 <= i < |h.keys| && 0 <= j < |h.keys| ==> h.slots[h.keys[i]].rater1 == h.slots[h.keys[j]].rater1
  {
    if forall i, j :: 0 <= i < |h.keys| && 0 <= j < |h.keys| ==> h.slots[h.keys[i]].rater1 == h.slots[h.keys[j]].rater1 {
      forall i | 0 <= i < |hot| ensures hot[i] == hot[0] {
        assert [labels[hot[i]]][0] == [labels[hot[0]]][0];
      }
    }
  }

  /** Every item's last annotation gives the same tokens exactly when every
      key of `hash_map` has the same rater-1 list. */
  lemma SameLabelSlots(rows: seq<RaterDataRow>)
    ensures ValidHashMap(Merge(rows, rows))
    ensures var h := Merge(rows, rows);
      SameLabel(rows) <==>
      forall i, j :: 0 <= i < |h.keys| && 0 <= j < |h.keys| ==> h.slots[h.keys[i]].rater1 == h.slots[h.keys[j]].rater1
  {
    var h := Merge(rows, rows);
    assert ValidHashMap(h) && forall x :: x in h.keys <==> x in Items(rows) by {
      MergeKeys(rows, rows);
    }
    forall x | x in Items(rows) ensures Parsed(LastLabels(rows, x)) == Some(h.slots[x].rater1) {
      SelfSlot(rows, x);
    }
    SameTokens(rows, h);
  }

  /** SameLabelSlots over any map whose keys are the items of rows and whose
      rater-1 lists are their parsed last annotations. */
  lemma SameTokens(rows: seq<RaterDataRow>, h: HashMap)
    requires forall x :: x in h.keys ==> x in h.slots
    requires forall x :: x in h.keys <==> x in Items(rows)
    requires forall x :: x in Items(rows) ==> Parsed(LastLabels(rows, x)) == Some(h.slots[x].rater1)
    ensures SameLabel(rows) <==>
      forall i, j :: 0 <= i < |h.keys| && 0 <= j < |h.keys| ==> h.slots[h.keys[i]].rater1 == h.slots[h.keys[j]].rater1
  {
    if SameLabel(rows) {
      SameTokensSlots(rows, h);
    } else {
      var x, y :| x in Items(rows) && y in Items(rows) && Parsed(LastLabels(rows, x)) != Parsed(LastLabels(rows, y));
      DifferentTokensSlots(rows, h, x, y);
    }
  }

  lemma SameTokensSlots(rows: seq<RaterDataRow>, h: HashMap)
    requires forall x :: x in h.keys ==> x in h.slots
    requires forall x :: x in h.keys <==> x in Items(rows)
    requires forall x :: x in Items(rows) ==> Parsed(LastLabels(rows, x)) == Some(h.slots[x].rater1)
    requires SameLabel(rows)
    ensures forall i, j :: 0 <= i < |h.keys| && 0 <= j < |h.keys| ==> h.slots[h.keys[i]].rater1 == h.slots[h.keys[j]].rater1
  {
    forall i, j | 0 <= i < |h.keys| && 0 <= j < |h.keys|
      ensures h.slots[h.keys[i]].rater1 == h.slots[h.keys[j]].rater1
    {
      var x, y := h.keys[i], h.keys[j];
      assert x in Items(rows) && y in Items(rows);
      assert Some(h.slots[x].rater1) == Parsed(LastLabels(rows, x)) == Parsed(LastLabels(rows, y)) == Some(h.slots[y].rater1);
    }
  }

  lemma DifferentTokensSlots(rows: seq<RaterDataRow>, h: HashMap, x: string, y: string)
    requires forall x :: x in h.keys ==> x in h.slots
    requires x in Items(rows) && y in Items(rows) && x in h.keys && y in h.keys
    requires Parsed(LastLabels(rows, x)) == Some(h.slots[x].rater1)
    requires Parsed(LastLabels(rows, y)) == Some(h.slots[y].rater1)
    requires Parsed(LastLabels(rows, x)) != Parsed(LastLabels(rows, y))
    ensures exists i, j :: 0 <= i < |h.keys| && 0 <= j < |h.keys| && h.slots[h.keys[i]].rater1 != h.slots[h.keys[j]].rater1
  {
    var i :| 0 <= i < |h.keys| && h.keys[i] == x;
    var j :| 0 <= j < |h.keys| && h.keys[j] == y;
    assert h.slots[h.keys[i]].rater1 != h.slots[h.keys[j]].rater1;
  }

  /** Rating the same annotations twice, each naming exactly one label, is
      perfect agreement: the coefficient is 1, unless p_e is 1, which happens
      exactly when every item's last annotation names the same label. */
  lemma SelfAgreement(labels: seq<string>, dataColumn: string, rows: seq<RaterDataRow>)
    requires Distinct(labels) && dataColumn !in labels && |rows| > 0
    requires OneLabelEach(rows, labels)
    ensures Irr(labels, dataColumn, rows, rows) in {Ok(1.0), Err(Degenerate(ChanceAgreementIsOne))}
    ensures Irr(labels, dataColumn, rows, rows) == Err(Degenerate(ChanceAgreementIsOne)) <==> SameLabel(rows)
  {
    SelfAgreementPerfect(labels, dataColumn, rows);
    SelfAgreementBuilds(labels, dataColumn, rows);
    var cells := AgreementTable(labels, dataColumn, rows, rows).value.cells;
    var hot :| PerfectAgreement(cells, |labels|, hot);
    assert Total(cells) > 0 && (Pe(cells, |labels|) == 1.0 <==> forall i :: 0 <= i < |hot| ==> hot[i] == hot[0]) by {
      PerfectChance(cells, |labels|, hot);
    }
    assert (forall i :: 0 <= i < |hot| ==> hot[i] == hot[0]) <==> SameLabel(rows) by {
      HotTokens(labels, dataColumn, rows, hot);
      SameHotLabel(labels, rows, hot);
    }
    PerfectAgreementAlpha(cells, |labels|, hot);
  }

  // ---------------------------------------------------------------------------
  // The order of the raters matters

  const OrderLabels: seq<string> := ["a", "b"]

  /** The example's annotations, through their parsed tokens: x of item "x"
      names "a", y of item "y" names "a" and "b". */
  predicate OrderExample(x: RaterDataRow, y: RaterDataRow) {
    && x.data == "x" && y.data == "y"
    && ProcessLabels(x.labels) == ["a"] && ProcessLabels(y.labels) == ["a", "b"]
  }

  lemma DataNotALabel()
    ensures "data" !in OrderLabels
  {
    assert OrderLabels[0][0] != 'd' && OrderLabels[1][0] != 'd';
  }

  /** Two annotations x and y of different items, rater 1 making x and
      rater 2 making both: both raters' tokens of x land in one row, and y
      gets an empty rater-1 list. */
  lemma SharedAndExtra(x: RaterDataRow, y: RaterDataRow)
    requires x.data != y.data
    ensures var h := Merge([x], [x, y]);
      && h.keys == [x.data, y.data] && x.data in h.slots && y.data in h.slots
      && h.slots[x.data] == Slots(ProcessLabels(x.labels), Some(ProcessLabels(x.labels)))
      && h.slots[y.data] == Slots([], Some(ProcessLabels(y.labels)))
  {
    assert [x, y][..1] == [x] && [x][..0] == [];
    assert FillRater1(EmptyHashMap, []) == EmptyHashMap;
    var h1 := FillRater1(EmptyHashMap, [x]);
    assert h1 == AddRater1(EmptyHashMap, x);
    assert FillRater2(h1, []) == h1;
    var g := FillRater2(h1, [x]);
    assert g == AddRater2(h1, x);
    assert FillRater2(h1, [x, y]) == AddRater2(g, y);
  }

  /** The same annotations with the raters swapped: y now has no rater-2 slot. */
  lemma SharedAndExtraSwapped(x: RaterDataRow, y: RaterDataRow)
    requires x.data != y.data
    ensures var h := Merge([x, y], [x]);
      && h.keys == [x.data, y.data] && x.data in h.slots && y.data in h.slots
      && h.slots[x.data] == Slots(ProcessLabels(x.labels), Some(ProcessLabels(x.labels)))
      && h.slots[y.data] == Slots(ProcessLabels(y.labels), None)
  {
    assert [x, y][..1] == [x] && [x][..0] == [];
    assert FillRater1(EmptyHashMap, []) == EmptyHashMap;
    var g := FillRater1(EmptyHashMap, [x]);
    assert g == AddRater1(EmptyHashMap, x);
    var h1 := FillRater1(EmptyHashMap, [x, y]);
    assert h1 == AddRater1(g, y);
    assert FillRater2(h1, []) == h1;
    assert FillRater2(h1, [x]) == AddRater2(h1, x);
  }

  /** The merged map of the example: "x" has ["a"] from both raters, "y" has
      an empty rater-1 list and ["a", "b"] from rater 2. */
  lemma OrderMerged(x: RaterDataRow, y: RaterDataRow)
    requires OrderExample(x, y)
    ensures var h := Merge([x], [x, y]);
      && h.keys == ["x", "y"] && "x" in h.slots && "y" in h.slots
      && h.slots["x"] == Slots(["a"], Some(["a"])) && h.slots["y"] == Slots([], Some(["a", "b"]))
    ensures var h := Merge([x, y], [x]);
      && h.keys == ["x", "y"] && "x" in h.slots && "y" in h.slots
      && h.slots["x"] == Slots(["a"], Some(["a"])) && h.slots["y"] == Slots(["a", "b"], None)
  {
    SharedAndExtra(x, y);
    SharedAndExtraSwapped(x, y);
  }

  /** The counts of the example's two items. */
  lemma OrderRows()
    ensures RowCounts(OrderLabels, "x", Slots(["a"], Some(["a"]))) == Ok([2, 0])
    ensures RowCounts(OrderLabels, "y", Slots([], Some(["a", "b"]))) == Ok([1, 1])
  {
    var a, ab: seq<string> := ["a"], ["a", "b"];
    assert multiset(a) == multiset{"a"};
    assert multiset(ab) == multiset{"a", "b"};
    var row0 := Tally(a, a, OrderLabels);
    assert row0[0] == 2 && row0[1] == 0;
    assert row0 == [2, 0];
    var row1 := Tally([], ab, OrderLabels);
    assert row1[0] == 1 && row1[1] == 1;
    assert row1 == [1, 1];
    assert FirstUnknown(a, OrderLabels) == None;
    assert FirstUnknown(ab, OrderLabels) == None;
  }

  /** The rows of the example's merged map. */
  lemma OrderBuilt(h: HashMap)
    requires h.keys == ["x", "y"] && "x" in h.slots && "y" in h.slots
    requires h.slots["x"] == Slots(["a"], Some(["a"])) && h.slots["y"] == Slots([], Some(["a", "b"]))
    ensures BuildRows(OrderLabels, h, h.keys) == Ok([[2, 0], [1, 1]])
  {
    OrderRows();
    BuildRowsOk(OrderLabels, h, h.keys);
    var rows := BuildRows(OrderLabels, h, h.keys).value;
    assert rows[0] == [2, 0] && rows[1] == [1, 1];
    assert rows == [[2, 0], [1, 1]];
  }

  /** Item "y", which only the second rater annotated (with two labels), gets
      a row of its own. */
  lemma OrderTable(x: RaterDataRow, y: RaterDataRow)
    requires OrderExample(x, y)
    ensures AgreementTable(OrderLabels, "data", [x], [x, y]) ==
      Ok(Table("data", OrderLabels, ["x", "y"], [[2, 0], [1, 1]]))
  {
    var h := Merge([x], [x, y]);
    assert h.keys == ["x", "y"] && BuildRows(OrderLabels, h, h.keys) == Ok([[2, 0], [1, 1]]) by {
      OrderMerged(x, y);
      OrderBuilt(h);
    }
    DataNotALabel();
    TableOfRows(OrderLabels, "data", [x], [x, y]);
  }

  /** The coefficient of the table [[2, 0], [1, 1]]: p_primea = 1/2 and
      p_a = 5/8 = p_e. */
  lemma OrderAlpha()
    ensures Alpha([[2, 0], [1, 1]], 2) == Ok(0.0)
  {
    var cells: seq<seq<nat>> := [[2, 0], [1, 1]];
    assert RowSum(cells[0]) == 2 && RowSum(cells[1]) == 2;
    assert Total(cells) == 4;
    assert Rbar(cells) == 2.0;
    assert RowAgreement(cells[0], 2.0) == 1.0;
    assert RowAgreement(cells[1], 2.0) == 0.0;
    assert PPrimeA(cells) == 0.5;
    assert PA(cells) == 0.625;
    assert ColumnSum(cells, 2, 0) == 3 && ColumnSum(cells, 2, 1) == 1;
    assert Pe(cells, 2) == 0.625;
  }

  /** With the raters swapped, the build stops at item "y", which has no
      rater-2 slot. */
  lemma OrderSwappedBuild(h: HashMap)
    requires h.keys == ["x", "y"] && "x" in h.slots && "y" in h.slots
    requires h.slots["x"] == Slots(["a"], Some(["a"])) && h.slots["y"] == Slots(["a", "b"], None)
    ensures BuildRows(OrderLabels, h, h.keys) == Err(MissingRater2("y"))
  {
    OrderRows();
    assert h.keys[..1] == ["x"];
    assert BuildRows(OrderLabels, h, h.keys[..1]).Ok? by {
      BuildRowsOk(OrderLabels, h, h.keys[..1]);
    }
    assert FirstUnknown(["a", "b"], OrderLabels) == None;
    RowErrorPropagates(OrderLabels, h, h.keys, 1, MissingRater2("y"));
  }

  lemma OrderSwappedTable(x: RaterDataRow, y: RaterDataRow)
    requires OrderExample(x, y)
    ensures AgreementTable(OrderLabels, "data", [x, y], [x]) == Err(MissingRater2("y"))
  {
    var h := Merge([x, y], [x]);
    assert BuildRows(OrderLabels, h, h.keys) == Err(MissingRater2("y")) by {
      OrderMerged(x, y);
      OrderSwappedBuild(h);
    }
    DataNotALabel();
    TableOfRows(OrderLabels, "data", [x, y], [x]);
  }

  /** Swapping the raters changes the outcome: an item annotated only by the
      second rater gets an empty list for the first, while one annotated only
      by the first rater makes the build fail. */
  lemma RaterOrderMatters(x: RaterDataRow, y: RaterDataRow)
    requires x == RaterDataRow("a", "x") && y == RaterDataRow("a, b", "y")
    ensures Irr(["a", "b"], "data", [x], [x, y]) == Ok(0.0)
    ensures Irr(["a", "b"], "data", [x, y], [x]) == Err(TableFailed(MissingRater2("y")))
  {
    assert OrderExample(x, y) by {
      ProcessLabelsOneLabel();
      ProcessLabelsTwoLabels();
    }
    OrderTable(x, y);
    OrderAlpha();
    OrderSwappedTable(x, y);
  }
}
