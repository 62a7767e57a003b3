/**
 * `IRRProcessor._get_agreement_table` as specification functions: the merge
 * of both raters' annotations into `hash_map` and the count table built from
 * it, with the lemmas that say what the table holds and when building it fails.
 */
module Agreement {
  import opened Wrappers
  import opened Text
  import opened Sums

  /** One annotation (`RaterDataRow`): the raw label text and the raw item text. */
  datatype RaterDataRow = RaterDataRow(labels: string, data: string)

  /** One rater's annotations, in the order the rater's files were read. */
  datatype RaterData = RaterData(rows: seq<RaterDataRow>)

  /** The value `hash_map` holds for one item: rater 1's token list, which is
      always present (an item only rater 2 saw gets []), and rater 2's token
      list, absent for an item only rater 1 saw. */
  datatype Slots = Slots(rater1: seq<string>, rater2: Option<seq<string>>)

  /** `hash_map`: its keys in insertion order and the slots of every key. */
  datatype HashMap = HashMap(keys: seq<string>, slots: map<string, Slots>)

  const EmptyHashMap := HashMap([], map[])

  predicate Distinct(s: seq<string>) {
    forall i, j :: 0 <= i < j < |s| ==> s[i] != s[j]
  }

  ghost predicate ValidHashMap(h: HashMap) {
    Distinct(h.keys) && forall x :: x in h.slots <==> x in h.keys
  }

  /** The raw item strings of a rater's annotations, in order. */
  function Items(rows: seq<RaterDataRow>): (items: seq<string>)
    ensures |items| == |rows|
    ensures forall i :: 0 <= i < |rows| ==> items[i] == rows[i].data
  {
    if rows == [] then [] else Items(rows[..|rows| - 1]) + [rows[|rows| - 1].data]
  }

  /** Python's `d[key]` assignment on an insertion-ordered dict: a new key is
      appended, an existing one keeps its place. */
  function Put(h: HashMap, key: string, value: Slots): HashMap {
    HashMap(if key in h.slots then h.keys else h.keys + [key], h.slots[key := value])
  }

  /** One pass of the first loop: rater 1's tokens go into the item's rater-1
      slot, overwriting an earlier annotation of the same item. */
  function AddRater1(h: HashMap, row: RaterDataRow): HashMap {
    var tokens := ProcessLabels(row.labels);
    if row.data in h.slots then Put(h, row.data, h.slots[row.data].(rater1 := tokens))
    else Put(h, row.data, Slots(tokens, None))
  }

  /** One pass of the second loop: rater 2's tokens go into the rater-2 slot;
      an item rater 1 did not annotate gets an empty rater-1 list. */
  function AddRater2(h: HashMap, row: RaterDataRow): HashMap {
    var tokens := ProcessLabels(row.labels);
    if row.data in h.slots then Put(h, row.data, h.slots[row.data].(rater2 := Some(tokens)))
    else Put(h, row.data, Slots([], Some(tokens)))
  }

  function FillRater1(h: HashMap, rows: seq<RaterDataRow>): HashMap {
    if rows == [] then h else AddRater1(FillRater1(h, rows[..|rows| - 1]), rows[|rows| - 1])
  }

  function FillRater2(h: HashMap, rows: seq<RaterDataRow>): HashMap {
    if rows == [] then h else AddRater2(FillRater2(h, rows[..|rows| - 1]), rows[|rows| - 1])
  }

  /** `hash_map` after both loops. */
  function Merge(rows1: seq<RaterDataRow>, rows2: seq<RaterDataRow>): HashMap {
    FillRater2(FillRater1(EmptyHashMap, rows1), rows2)
  }

  // ---------------------------------------------------------------------------
  // The table

  /** The ways building the table fails: a label column equal to the item
      column (`df.insert` refuses a duplicate column), a token that is not a
      label column, and an item that has no rater-2 slot. */
  datatype TableError =
    | DuplicateItemColumn(column: string)
    | UnknownLabel(item: string, token: string)
    | MissingRater2(item: string)

  /** The agreement table: the item column's name and the label columns' names
      (`columns`), the items in row order, and one row of label counts per item. */
  datatype Table = Table(dataColumn: string, labels: seq<string>, items: seq<string>, cells: seq<seq<nat>>)
  {
    function Columns(): seq<string> {
      [dataColumn] + labels
    }

    predicate WellFormed() {
      |cells| == |items| && forall i :: 0 <= i < |cells| ==> |cells[i]| == |labels|
    }
  }

  /** The number of times name occurs in tokens. */
  function Count(tokens: seq<string>, name: string): nat {
    multiset(tokens)[name]
  }

  /** The first token that is not one of the labels. */
  function FirstUnknown(tokens: seq<string>, labels: seq<string>): Option<string> {
    if tokens == [] then None
    else if tokens[0] !in labels then Some(tokens[0])
    else FirstUnknown(tokens[1..], labels)
  }

  /** There is no unknown token exactly when every token is a label, and an
      unknown token is a token that is not a label. */
  lemma {:induction false} FirstUnknownSpec(tokens: seq<string>, labels: seq<string>)
    ensures FirstUnknown(tokens, labels).None? <==> forall j :: 0 <= j < |tokens| ==> tokens[j] in labels
    ensures FirstUnknown(tokens, labels).Some? ==>
      FirstUnknown(tokens, labels).value in tokens && FirstUnknown(tokens, labels).value !in labels
  {
    if tokens != [] && tokens[0] in labels {
      FirstUnknownSpec(tokens[1..], labels);
      assert forall j :: 1 <= j < |tokens| ==> tokens[j] == tokens[1..][j - 1];
    }
  }

  /** The counts of one row: per label, its occurrences in both token lists. */
  function Tally(l1: seq<string>, l2: seq<string>, labels: seq<string>): seq<nat> {
    seq(|labels|, k requires 0 <= k < |labels| => Count(l1, labels[k]) + Count(l2, labels[k]))
  }

  /** The row of one item, or the failure its lookups hit, in the order of the
      source: rater 1's tokens, then the rater-2 slot, then rater 2's tokens. */
  function RowCounts(labels: seq<string>, item: string, s: Slots): (r: Result<seq<nat>, TableError>)
    ensures r.Ok? ==> |r.value| == |labels|
  {
    match FirstUnknown(s.rater1, labels)
    case Some(t) => Err(UnknownLabel(item, t))
    case None =>
      match s.rater2
      case None => Err(MissingRater2(item))
      case Some(l2) =>
        match FirstUnknown(l2, labels)
        case Some(t) => Err(UnknownLabel(item, t))
        case None => Ok(Tally(s.rater1, l2, labels))
  }

  /** The rows of the given keys, in order; the first failing row decides. */
  function BuildRows(labels: seq<string>, h: HashMap, keys: seq<string>): Result<seq<seq<nat>>, TableError>
    requires forall x :: x in keys ==> x in h.slots
  {
    if keys == [] then Ok([])
    else
      match BuildRows(labels, h, keys[..|keys| - 1])
      case Err(e) => Err(e)
      case Ok(rows) =>
        var last := keys[|keys| - 1];
        match RowCounts(labels, last, h.slots[last])
        case Err(e) => Err(e)
        case Ok(row) => Ok(rows + [row])
  }

  /** `_get_agreement_table` with `available_labels` = labels and the item
      column named dataColumn. */
  function AgreementTable(labels: seq<string>, dataColumn: string,
                          rows1: seq<RaterDataRow>, rows2: seq<RaterDataRow>): (r: Result<Table, TableError>)
    ensures r.Ok? ==> r.value.WellFormed() && r.value.items == Merge(rows1, rows2).keys
    ensures r.Ok? ==> forall x :: x in r.value.items ==> x in Merge(rows1, rows2).slots
  {
    var h := Merge(rows1, rows2);
    MergeValid(rows1, rows2);
    BuildRowsShape(labels, h, h.keys);
    if dataColumn in labels then Err(DuplicateItemColumn(dataColumn))
    else
      match BuildRows(labels, h, h.keys)
      case Err(e) => Err(e)
      case Ok(cells) => Ok(Table(dataColumn, labels, h.keys, cells))
  }

  /** The table once the item column is known not to be a label: the rows
      built from hash_map, or the first failure among them. */
  lemma TableOfRows(labels: seq<string>, dataColumn: string,
                    rows1: seq<RaterDataRow>, rows2: seq<RaterDataRow>)
    requires dataColumn !in labels
    ensures ValidHashMap(Merge(rows1, rows2))
    ensures var h := Merge(rows1, rows2); var b := BuildRows(labels, h, h.keys);
      && (b.Err? ==> AgreementTable(labels, dataColumn, rows1, rows2) == Err(b.error))
      && (b.Ok? ==> AgreementTable(labels, dataColumn, rows1, rows2) == Ok(Table(dataColumn, labels, h.keys, b.value)))
  {
    MergeValid(rows1, rows2);
  }

  // ---------------------------------------------------------------------------
  // The keys of hash_map

  /** The index of the first occurrence of x in s. */
  function FirstIndex(s: seq<string>, x: string): (i: nat)
    requires x in s
    ensures i < |s| && s[i] == x
    ensures forall j :: 0 <= j < i ==> s[j] != x
  {
    if s[0] == x then 0 else 1 + FirstIndex(s[1..], x)
  }

  lemma {:induction false} FirstIndexAppend(s: seq<string>, d: string, x: string)
    requires x in s + [d]
    ensures x in s ==> FirstIndex(s + [d], x) == FirstIndex(s, x)
    ensures x !in s ==> FirstIndex(s + [d], x) == |s|
  {
    if x in s {
      var j := FirstIndex(s, x);
      assert (s + [d])[j] == x;
      assert forall k :: 0 <= k < j ==> (s + [d])[k] == s[k];
    } else {
      assert forall j :: 0 <= j < |s| ==> (s + [d])[j] != x;
    }
  }

  /** The keys are the distinct values of D, ordered by where each first
      occurs in D. */
  ghost predicate KeysOf(h: HashMap, d: seq<string>) {
    && ValidHashMap(h)
    && (forall x :: x in h.keys <==> x in d)
    && forall i, j :: 0 <= i < j < |h.keys| ==> FirstIndex(d, h.keys[i]) < FirstIndex(d, h.keys[j])
  }

  lemma PutKeys(h: HashMap, d: seq<string>, key: string, v: Slots)
    requires KeysOf(h, d)
    ensures KeysOf(Put(h, key, v), d + [key])
  {
    if key in h.slots {
      PutOldKey(h, d, key, v);
    } else {
      PutNewKey(h, d, key, v);
    }
  }

  lemma PutOldKey(h: HashMap, d: seq<string>, key: string, v: Slots)
    requires KeysOf(h, d) && key in h.slots
    ensures KeysOf(Put(h, key, v), d + [key])
  {
    var h' := Put(h, key, v);
    var d' := d + [key];
    assert h'.keys == h.keys;
    forall x | x in h.keys ensures FirstIndex(d', x) == FirstIndex(d, x) {
      FirstIndexAppend(d, key, x);
    }
  }

  lemma PutNewKey(h: HashMap, d: seq<string>, key: string, v: Slots)
    requires KeysOf(h, d) && key !in h.slots
    ensures KeysOf(Put(h, key, v), d + [key])
  {
    var h' := Put(h, key, v);
    var d' := d + [key];
    assert h'.keys == h.keys + [key];
    assert key !in d;
    AppendDistinct(h.keys, key);
    AppendOrder(h.keys, d, key);
  }

  lemma AppendDistinct(keys: seq<string>, key: string)
    requires Distinct(keys) && key !in keys
    ensures Distinct(keys + [key])
  {
    var k' := keys + [key];
    forall i, j | 0 <= i < j < |k'| ensures k'[i] != k'[j] {
      if j < |keys| {
        assert k'[i] == keys[i] && k'[j] == keys[j];
      } else {
        assert k'[i] == keys[i];
      }
    }
  }

  /** Appending a key that is new to D keeps the keys ordered by first
      occurrence. */
  lemma AppendOrder(keys: seq<string>, d: seq<string>, key: string)
    requires key !in d && forall x :: x in keys ==> x in d
    requires forall i, j :: 0 <= i < j < |keys| ==> FirstIndex(d, keys[i]) < FirstIndex(d, keys[j])
    ensures forall i, j :: 0 <= i < j < |keys + [key]| ==>
      FirstIndex(d + [key], (keys + [key])[i]) < FirstIndex(d + [key], (keys + [key])[j])
  {
    var k', d' := keys + [key], d + [key];
    FirstIndexAppend(d, key, key);
    forall i, j | 0 <= i < j < |k'| ensures FirstIndex(d', k'[i]) < FirstIndex(d', k'[j]) {
      assert k'[i] == keys[i];
      FirstIndexAppend(d, key, keys[i]);
      if j < |keys| {
        assert k'[j] == keys[j];
        FirstIndexAppend(d, key, keys[j]);
      }
    }
  }

  lemma AddRater1Keys(g: HashMap, d: seq<string>, last: RaterDataRow)
    requires KeysOf(g, d)
    ensures KeysOf(AddRater1(g, last), d + [last.data])
  {
    var tokens := ProcessLabels(last.labels);
    PutKeys(g, d, last.data, if last.data in g.slots then g.slots[last.data].(rater1 := tokens) else Slots(tokens, None));
  }

  lemma {:induction false} FillRater1Keys(h: HashMap, d: seq<string>, rows: seq<RaterDataRow>)
    requires KeysOf(h, d)
    ensures KeysOf(FillRater1(h, rows), d + Items(rows))
  {
    if rows == [] {
      assert d + Items(rows) == d;
    } else {
      var init, last := rows[..|rows| - 1], rows[|rows| - 1];
      FillRater1Keys(h, d, init);
      AddRater1Keys(FillRater1(h, init), d + Items(init), last);
      assert d + Items(init) + [last.data] == d + Items(rows);
    }
  }

  lemma AddRater2Keys(g: HashMap, d: seq<string>, last: RaterDataRow)
    requires KeysOf(g, d)
    ensures KeysOf(AddRater2(g, last), d + [last.data])
  {
    var tokens := ProcessLabels(last.labels);
    PutKeys(g, d, last.data, if last.data in g.slots then g.slots[last.data].(rater2 := Some(tokens)) else Slots([], Some(tokens)));
  }

  lemma {:induction false} FillRater2Keys(h: HashMap, d: seq<string>, rows: seq<RaterDataRow>)
    requires KeysOf(h, d)
    ensures KeysOf(FillRater2(h, rows), d + Items(rows))
  {
    if rows == [] {
      assert d + Items(rows) == d;
    } else {
      var init, last := rows[..|rows| - 1], rows[|rows| - 1];
      FillRater2Keys(h, d, init);
      AddRater2Keys(FillRater2(h, init), d + Items(init), last);
      assert d + Items(init) + [last.data] == d + Items(rows);
    }
  }

  /** The keys of `hash_map` are the raw item strings of both raters, each
      once, in the order of their first appearance in rater 1's and then
      rater 2's annotations; items are compared as given, without trimming. */
  lemma MergeKeys(rows1: seq<RaterDataRow>, rows2: seq<RaterDataRow>)
    ensures ValidHashMap(Merge(rows1, rows2))
    ensures forall x :: x in Merge(rows1, rows2).keys <==> x in Items(rows1) || x in Items(rows2)
    ensures var keys, all := Merge(rows1, rows2).keys, Items(rows1) + Items(rows2);
      forall i, j :: 0 <= i < j < |keys| ==> FirstIndex(all, keys[i]) < FirstIndex(all, keys[j])
  {
    assert [] + Items(rows1) == Items(rows1);
    FillRater1Keys(EmptyHashMap, [], rows1);
    FillRater2Keys(FillRater1(EmptyHashMap, rows1), Items(rows1), rows2);
  }

  lemma MergeValid(rows1: seq<RaterDataRow>, rows2: seq<RaterDataRow>)
    ensures ValidHashMap(Merge(rows1, rows2))
  {
    MergeKeys(rows1, rows2);
  }

  // ---------------------------------------------------------------------------
  // The slots of hash_map

  /** The label text of the last annotation of item x among rows. */
  function LastLabels(rows: seq<RaterDataRow>, x: string): Option<string> {
    if rows == [] then None
    else if rows[|rows| - 1].data == x then Some(rows[|rows| - 1].labels)
    else LastLabels(rows[..|rows| - 1], x)
  }

  function Parsed(labels: Option<string>): Option<seq<string>> {
    match labels
    case None => None
    case Some(l) => Some(ProcessLabels(l))
  }

  lemma {:induction false} FillRater1Slots(rows: seq<RaterDataRow>, x: string)
    ensures x in FillRater1(EmptyHashMap, rows).slots <==> LastLabels(rows, x).Some?
    ensures x in FillRater1(EmptyHashMap, rows).slots ==>
      FillRater1(EmptyHashMap, rows).slots[x] == Slots(ProcessLabels(LastLabels(rows, x).value), None)
  {
    if rows != [] {
      FillRater1Slots(rows[..|rows| - 1], x);
    }
  }

  lemma {:induction false} FillRater2Slots(h: HashMap, rows: seq<RaterDataRow>, x: string)
    ensures x in FillRater2(h, rows).slots <==> x in h.slots || LastLabels(rows, x).Some?
    ensures x in FillRater2(h, rows).slots ==>
      FillRater2(h, rows).slots[x] ==
        Slots(if x in h.slots then h.slots[x].rater1 else [],
              if LastLabels(rows, x).Some? then Parsed(LastLabels(rows, x)) else h.slots[x].rater2)
  {
    if rows != [] {
      FillRater2Slots(h, rows[..|rows| - 1], x);
    }
  }

  /** A later annotation of an item by the same rater replaces the earlier one:
      an item's slots hold the tokens of each rater's last annotation of it;
      an item rater 1 never annotated has an empty rater-1 list, and one rater 2
      never annotated has no rater-2 slot. */
  lemma MergeSlots(rows1: seq<RaterDataRow>, rows2: seq<RaterDataRow>, x: string)
    requires x in Merge(rows1, rows2).slots
    ensures Merge(rows1, rows2).slots[x].rater1 ==
      match LastLabels(rows1, x) case Some(l) => ProcessLabels(l) case None => []
    ensures Merge(rows1, rows2).slots[x].rater2 == Parsed(LastLabels(rows2, x))
  {
    FillRater1Slots(rows1, x);
    FillRater2Slots(FillRater1(EmptyHashMap, rows1), rows2, x);
  }

  lemma {:induction false} LastLabelsSome(rows: seq<RaterDataRow>, x: string)
    ensures LastLabels(rows, x).Some? <==> x in Items(rows)
  {
    if rows != [] {
      LastLabelsSome(rows[..|rows| - 1], x);
      assert Items(rows) == Items(rows[..|rows| - 1]) + [rows[|rows| - 1].data];
    }
  }

  // ---------------------------------------------------------------------------
  // What the table holds

  lemma {:induction false} BuildRowsShape(labels: seq<string>, h: HashMap, keys: seq<string>)
    requires forall x :: x in keys ==> x in h.slots
    ensures BuildRows(labels, h, keys).Ok? ==>
      var rows := BuildRows(labels, h, keys).value;
      |rows| == |keys| && forall i :: 0 <= i < |keys| ==> |rows[i]| == |labels|
  {
    if keys != [] {
      var init := keys[..|keys| - 1];
      BuildRowsShape(labels, h, init);
    }
  }

  lemma BuildRowsOk(labels: seq<string>, h: HashMap, keys: seq<string>)
    requires forall x :: x in keys ==> x in h.slots
    ensures BuildRows(labels, h, keys).Ok? <==>
      forall i :: 0 <= i < |keys| ==> RowCounts(labels, keys[i], h.slots[keys[i]]).Ok?
    ensures BuildRows(labels, h, keys).Ok? ==>
      var rows := BuildRows(labels, h, keys).value;
      |rows| == |keys| &&
      forall i :: 0 <= i < |keys| ==> rows[i] == RowCounts(labels, keys[i], h.slots[keys[i]]).value
  {
    BuildRowsOkIff(labels, h, keys);
    if BuildRows(labels, h, keys).Ok? {
      BuildRowsValues(labels, h, keys);
    }
  }

  lemma {:induction false} BuildRowsOkIff(labels: seq<string>, h: HashMap, keys: seq<string>)
    requires forall x :: x in keys ==> x in h.slots
    ensures BuildRows(labels, h, keys).Ok? <==>
      forall i :: 0 <= i < |keys| ==> RowCounts(labels, keys[i], h.slots[keys[i]]).Ok?
  {
    if keys != [] {
      var init, last := keys[..|keys| - 1], keys[|keys| - 1];
      BuildRowsOkIff(labels, h, init);
      assert forall i :: 0 <= i < |init| ==> init[i] == keys[i];
      var r, rc := BuildRows(labels, h, init), RowCounts(labels, last, h.slots[last]);
      assert BuildRows(labels, h, keys).Ok? <==> r.Ok? && rc.Ok?;
    }
  }

  lemma {:induction false} BuildRowsValues(labels: seq<string>, h: HashMap, keys: seq<string>)
    requires forall x :: x in keys ==> x in h.slots
    requires BuildRows(labels, h, keys).Ok?
    ensures var rows := BuildRows(labels, h, keys).value;
      |rows| == |keys| &&
      forall i :: 0 <= i < |keys| ==>
        RowCounts(labels, keys[i], h.slots[keys[i]]).Ok? && rows[i] == RowCounts(labels, keys[i], h.slots[keys[i]]).value
  {
    if keys != [] {
      var init, last := keys[..|keys| - 1], keys[|keys| - 1];
      var r, rc := BuildRows(labels, h, init), RowCounts(labels, last, h.slots[last]);
      assert r.Ok? && rc.Ok?;
      var rows := BuildRows(labels, h, keys).value;
      assert rows == r.value + [rc.value];
      BuildRowsValues(labels, h, init);
      forall i | 0 <= i < |keys|
        ensures RowCounts(labels, keys[i], h.slots[keys[i]]).Ok?
        ensures rows[i] == RowCounts(labels, keys[i], h.slots[keys[i]]).value
      {
        if i < |init| {
          assert keys[i] == init[i] && rows[i] == r.value[i];
        }
      }
    }
  }

  /** A table that is built has the item column followed by the labels as
      columns, one row per key of hash_map in insertion order, and in each row
      the count of a label is the number of times it occurs in rater 1's token
      list plus the number of times it occurs in rater 2's. */
  lemma TableCells(labels: seq<string>, dataColumn: string,
                   rows1: seq<RaterDataRow>, rows2: seq<RaterDataRow>)
    requires AgreementTable(labels, dataColumn, rows1, rows2).Ok?
    ensures var t, h := AgreementTable(labels, dataColumn, rows1, rows2).value, Merge(rows1, rows2);
      && t.Columns() == [dataColumn] + labels
      && t.items == h.keys
      && t.WellFormed()
      && forall i, k :: 0 <= i < |t.items| && 0 <= k < |labels| ==>
           h.slots[t.items[i]].rater2.Some? &&
           t.cells[i][k] == Count(h.slots[t.items[i]].rater1, labels[k])
                          + Count(h.slots[t.items[i]].rater2.value, labels[k])
  {
    var t, h := AgreementTable(labels, dataColumn, rows1, rows2).value, Merge(rows1, rows2);
    MergeValid(rows1, rows2);
    BuildRowsOk(labels, h, h.keys);
    forall i, k | 0 <= i < |t.items| && 0 <= k < |labels|
      ensures h.slots[t.items[i]].rater2.Some?
      ensures t.cells[i][k] == Count(h.slots[t.items[i]].rater1, labels[k])
                             + Count(h.slots[t.items[i]].rater2.value, labels[k])
    {
      assert RowCounts(labels, h.keys[i], h.slots[h.keys[i]]).Ok?;
    }
  }

  /** Sum over the labels of how often each occurs in tokens. */
  function CountsTo(tokens: seq<string>, labels: seq<string>, j: nat): nat
    requires j <= |labels|
  {
    if j == 0 then 0 else CountsTo(tokens, labels, j - 1) + Count(tokens, labels[j - 1])
  }

  /** The number of tokens that are among the given labels. */
  function CountAmong(tokens: seq<string>, among: set<string>): nat {
    if tokens == [] then 0
    else (if tokens[0] in among then 1 else 0) + CountAmong(tokens[1..], among)
  }

  lemma {:induction false} CountAmongAdd(tokens: seq<string>, among: set<string>, x: string)
    requires x !in among
    ensures CountAmong(tokens, among + {x}) == CountAmong(tokens, among) + Count(tokens, x)
  {
    if tokens != [] {
      CountAmongAdd(tokens[1..], among, x);
      assert tokens == [tokens[0]] + tokens[1..];
      assert multiset(tokens) == multiset{tokens[0]} + multiset(tokens[1..]);
    }
  }

  lemma {:induction false} CountsToAmong(tokens: seq<string>, labels: seq<string>, j: nat)
    requires j <= |labels| && Distinct(labels)
    ensures CountsTo(tokens, labels, j) == CountAmong(tokens, set y | y in labels[..j])
  {
    if j == 0 {
      assert labels[..j] == [];
      assert (set y | y in labels[..j]) == {};
      CountAmongNone(tokens);
    } else {
      var prefix := labels[..j - 1];
      var before := set y | y in prefix;
      CountsToAmong(tokens, labels, j - 1);
      assert labels[..j] == labels[..j - 1] + [labels[j - 1]];
      assert (set y | y in labels[..j]) == before + {labels[j - 1]};
      assert labels[j - 1] !in before;
      CountAmongAdd(tokens, before, labels[j - 1]);
    }
  }

  lemma {:induction false} CountAmongNone(tokens: seq<string>)
    ensures CountAmong(tokens, {}) == 0
  {
    if tokens != [] {
      CountAmongNone(tokens[1..]);
    }
  }

  lemma {:induction false} CountAmongAll(tokens: seq<string>, among: set<string>)
    requires forall j :: 0 <= j < |tokens| ==> tokens[j] in among
    ensures CountAmong(tokens, among) == |tokens|
  {
    if tokens != [] {
      CountAmongAll(tokens[1..], among);
    }
  }

  /** When every token is one of the (distinct) labels, the counts over all
      labels add up to the number of tokens. */
  lemma CountsAll(tokens: seq<string>, labels: seq<string>)
    requires Distinct(labels)
    requires forall j :: 0 <= j < |tokens| ==> tokens[j] in labels
    ensures CountsTo(tokens, labels, |labels|) == |tokens|
  {
    var all := set y | y in labels[..|labels|];
    CountsToAmong(tokens, labels, |labels|);
    assert labels[..|labels|] == labels;
    CountAmongAll(tokens, all);
  }

  lemma {:induction false} TallySumTo(l1: seq<string>, l2: seq<string>, labels: seq<string>, j: nat)
    requires j <= |labels|
    ensures SumTo(Tally(l1, l2, labels), j) == CountsTo(l1, labels, j) + CountsTo(l2, labels, j)
  {
    if j > 0 {
      TallySumTo(l1, l2, labels, j - 1);
    }
  }

  /** Every token of a built row is counted once: the row sums to the length
      of rater 1's token list plus the length of rater 2's. */
  lemma RowSumIsTokenCount(labels: seq<string>, dataColumn: string,
                           rows1: seq<RaterDataRow>, rows2: seq<RaterDataRow>, i: nat)
    requires Distinct(labels)
    requires AgreementTable(labels, dataColumn, rows1, rows2).Ok?
    requires i < |AgreementTable(labels, dataColumn, rows1, rows2).value.items|
    ensures var t, h := AgreementTable(labels, dataColumn, rows1, rows2).value, Merge(rows1, rows2);
      var s := h.slots[t.items[i]];
      s.rater2.Some? && RowSum(t.cells[i]) == |s.rater1| + |s.rater2.value|
  {
    var h, t := Merge(rows1, rows2), AgreementTable(labels, dataColumn, rows1, rows2).value;
    MergeValid(rows1, rows2);
    var x := h.keys[i];
    var s := h.slots[x];
    assert RowCounts(labels, x, s) == Ok(t.cells[i]) by {
      BuildRowsOk(labels, h, h.keys);
    }
    FirstUnknownSpec(s.rater1, labels);
    FirstUnknownSpec(s.rater2.value, labels);
    TallySumTo(s.rater1, s.rater2.value, labels, |labels|);
    CountsAll(s.rater1, labels);
    CountsAll(s.rater2.value, labels);
  }

  // ---------------------------------------------------------------------------
  // When building the table fails

  /** Building fails exactly when the item column's name is also a label, or
      some item has no rater-2 slot, or some token of either rater is not a
      label. */
  lemma TableFails(labels: seq<string>, dataColumn: string,
                   rows1: seq<RaterDataRow>, rows2: seq<RaterDataRow>)
    ensures var h := Merge(rows1, rows2);
      AgreementTable(labels, dataColumn, rows1, rows2).Err? <==>
        || dataColumn in labels
        || (exists x :: x in h.slots && h.slots[x].rater2.None?)
        || (exists x, t :: x in h.slots && t in h.slots[x].rater1 && t !in labels)
        || (exists x, t :: x in h.slots && h.slots[x].rater2.Some? && t in h.slots[x].rater2.value && t !in labels)
  {
    var h := Merge(rows1, rows2);
    MergeValid(rows1, rows2);
    AllRowsOk(labels, h);
    if !(forall x :: x in h.slots ==> RowOk(labels, h.slots[x])) {
      var x :| x in h.slots && !RowOk(labels, h.slots[x]);
      var s := h.slots[x];
      if s.rater2.Some? {
        if t :| t in s.rater1 && t !in labels {
          assert exists x, t :: x in h.slots && t in h.slots[x].rater1 && t !in labels;
        } else {
          var t :| t in s.rater2.value && t !in labels;
          assert exists x, t :: x in h.slots && h.slots[x].rater2.Some? && t in h.slots[x].rater2.value && t !in labels;
        }
      }
    }
  }

  /** One item's row is built exactly when it has a rater-2 slot and every
      token of both raters is a label. */
  ghost predicate RowOk(labels: seq<string>, s: Slots) {
    && s.rater2.Some?
    && (forall t :: t in s.rater1 ==> t in labels)
    && (forall t :: t in s.rater2.value ==> t in labels)
  }

  lemma RowCountsOk(labels: seq<string>, item: string, s: Slots)
    ensures RowCounts(labels, item, s).Ok? <==> RowOk(labels, s)
  {
    FirstUnknownSpec(s.rater1, labels);
    if s.rater2.Some? {
      FirstUnknownSpec(s.rater2.value, labels);
    }
    if FirstUnknown(s.rater1, labels).None? {
      assert forall t :: t in s.rater1 ==> t in labels by {
        forall t | t in s.rater1 ensures t in labels {
          var j :| 0 <= j < |s.rater1| && s.rater1[j] == t;
        }
      }
      if s.rater2.Some? && FirstUnknown(s.rater2.value, labels).None? {
        var l2 := s.rater2.value;
        forall t | t in l2 ensures t in labels {
          var j :| 0 <= j < |l2| && l2[j] == t;
        }
      }
    }
  }

  lemma AllRowsOk(labels: seq<string>, h: HashMap)
    requires ValidHashMap(h)
    ensures BuildRows(labels, h, h.keys).Ok? <==> forall x :: x in h.slots ==> RowOk(labels, h.slots[x])
  {
    BuildRowsOkIff(labels, h, h.keys);
    forall i | 0 <= i < |h.keys|
      ensures RowCounts(labels, h.keys[i], h.slots[h.keys[i]]).Ok? <==> RowOk(labels, h.slots[h.keys[i]])
    {
      RowCountsOk(labels, h.keys[i], h.slots[h.keys[i]]);
    }
    if forall i :: 0 <= i < |h.keys| ==> RowCounts(labels, h.keys[i], h.slots[h.keys[i]]).Ok? {
      forall x | x in h.slots ensures RowOk(labels, h.slots[x]) {
        var i :| 0 <= i < |h.keys| && h.keys[i] == x;
      }
    }
  }

  /** An item that rater 1 annotated and rater 2 did not makes the build fail:
      only an item seen by rater 2 alone gets a filler list. */
  lemma Rater1OnlyItemFails(labels: seq<string>, dataColumn: string,
                            rows1: seq<RaterDataRow>, rows2: seq<RaterDataRow>, x: string)
    requires x in Items(rows1) && x !in Items(rows2)
    ensures AgreementTable(labels, dataColumn, rows1, rows2).Err?
  {
    MergeKeys(rows1, rows2);
    LastLabelsSome(rows2, x);
    MergeSlots(rows1, rows2, x);
    TableFails(labels, dataColumn, rows1, rows2);
  }
}
