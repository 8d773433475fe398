/** The payload the sync button posts to the spreadsheet webhook: one entry
    per non-empty row, the date on the first entry only, and an order number
    written once at the head of each run of rows that share it. */
module OrderSync {
  import opened Text
  import opened Types
  import opened OrderImport

  /** One posted entry. */
  datatype SyncEntry = SyncEntry(date: string, orderNumber: string, productTitle: string, size: string)

  /** The annotated rows with some non-empty field, in their order. */
  function ValidRows(ann: seq<Annotated>): (r: seq<Annotated>)
    ensures |r| <= |ann|
    ensures forall x :: x in r <==> x in ann && HasContent(x.item)
  {
    if ann == [] then []
    else
      var last := ann[|ann| - 1];
      assert forall x :: x in ann <==> x in ann[..|ann| - 1] || x == last by {
        assert ann == ann[..|ann| - 1] + [last];
      }
      ValidRows(ann[..|ann| - 1]) + (if HasContent(last.item) then [last] else [])
  }

  /** Row i continues the run of the row before it: same non-empty effective
      order. */
  predicate RepeatsPrevious(valid: seq<Annotated>, i: nat)
    requires i < |valid|
  {
    i > 0 && valid[i].effectiveOrder != "" && valid[i - 1].effectiveOrder == valid[i].effectiveOrder
  }

  /** The entry posted for row i of the valid rows. */
  function PayloadEntry(valid: seq<Annotated>, i: nat, today: string): SyncEntry
    requires i < |valid|
  {
    SyncEntry(if i == 0 then today else "",
      if RepeatsPrevious(valid, i) then "" else valid[i].effectiveOrder,
      valid[i].item.productTitle, valid[i].item.size)
  }

  function Payload(valid: seq<Annotated>, today: string): (r: seq<SyncEntry>)
    ensures |r| == |valid| && forall i :: 0 <= i < |valid| ==> r[i] == PayloadEntry(valid, i, today)
  {
    seq(|valid|, i requires 0 <= i < |valid| => PayloadEntry(valid, i, today))
  }

  /** `handleSync`: `None` (the "No data to sync." alert) when no row has
      content, else the payload. `today` is the caller's locale date. */
  function SyncPayload(items: seq<OrderItem>, today: string): Option<seq<SyncEntry>> {
    var valid := ValidRows(Annotate(items));
    if valid == [] then None else Some(Payload(valid, today))
  }

  /** The order-number column of a payload. */
  function SentOrders(p: seq<SyncEntry>): (r: seq<string>)
    ensures |r| == |p| && forall i :: 0 <= i < |p| ==> r[i] == p[i].orderNumber
  {
    seq(|p|, i requires 0 <= i < |p| => p[i].orderNumber)
  }

  /** Nothing is posted exactly when every row is empty. */
  lemma SyncNoneIffEmpty(items: seq<OrderItem>, today: string)
    ensures SyncPayload(items, today).None? <==> forall k :: 0 <= k < |items| ==> !HasContent(items[k])
  {
    var ann := Annotate(items);
    var valid := ValidRows(ann);
    if valid != [] {
      assert valid[0] in valid;
      var k :| 0 <= k < |ann| && ann[k] == valid[0];
      assert HasContent(items[k]);
    } else {
      forall k | 0 <= k < |items| ensures !HasContent(items[k]) {
        assert ann[k] in ann;
        assert ann[k] !in valid;
      }
    }
  }

  /** The rows with some non-empty field, in their order. */
  function ContentRows(items: seq<OrderItem>): seq<OrderItem> {
    if items == [] then []
    else ContentRows(items[..|items| - 1]) + (if HasContent(items[|items| - 1]) then [items[|items| - 1]] else [])
  }

  /** The rows under their annotations. */
  function Rows(v: seq<Annotated>): (r: seq<OrderItem>)
    ensures |r| == |v| && forall i :: 0 <= i < |v| ==> r[i] == v[i].item
  {
    seq(|v|, i requires 0 <= i < |v| => v[i].item)
  }

  lemma ValidRowsSnoc(v: seq<Annotated>, a: Annotated)
    ensures ValidRows(v + [a]) == ValidRows(v) + (if HasContent(a.item) then [a] else [])
  {
    assert (v + [a])[..|v|] == v;
  }

  lemma RowsAppend(x: seq<Annotated>, y: seq<Annotated>)
    ensures Rows(x + y) == Rows(x) + Rows(y)
  {
  }

  lemma ContentRowsSnoc(s: seq<OrderItem>, x: OrderItem)
    ensures ContentRows(s + [x]) == ContentRows(s) + (if HasContent(x) then [x] else [])
  {
    assert (s + [x])[..|s|] == s;
  }

  lemma RowsLast(v: seq<Annotated>)
    requires v != []
    ensures Rows(v)[..|v| - 1] == Rows(v[..|v| - 1]) && Rows(v)[|v| - 1] == v[|v| - 1].item
  {
  }

  lemma ValidRowsLast(v: seq<Annotated>)
    requires v != []
    ensures ValidRows(v) == ValidRows(v[..|v| - 1]) + (if HasContent(v[|v| - 1].item) then [v[|v| - 1]] else [])
  {
  }

  /** Filtering annotated rows keeps exactly the rows with content. */
  lemma {:induction false} RowsOfValid(v: seq<Annotated>)
    ensures Rows(ValidRows(v)) == ContentRows(Rows(v))
  {
    if v != [] {
      var init, a := v[..|v| - 1], v[|v| - 1];
      var tail: seq<Annotated> := if HasContent(a.item) then [a] else [];
      ValidRowsLast(v);
      RowsAppend(ValidRows(init), tail);
      RowsOfValid(init);
      RowsLast(v);
    }
  }

  /** The valid rows are exactly the rows with content, in their order. */
  lemma ValidRowsOfAnnotate(items: seq<OrderItem>)
    ensures Rows(ValidRows(Annotate(items))) == ContentRows(items)
  {
    RowsOfValid(Annotate(items));
    assert Rows(Annotate(items)) == items;
  }

  /** The columns of a payload built from any rows. */
  lemma PayloadRows(v: seq<Annotated>, today: string)
    requires v != []
    ensures var p := Payload(v, today);
      |p| == |v| && p[0].date == today && (forall i :: 0 < i < |p| ==> p[i].date == "") &&
      forall i :: 0 <= i < |p| ==> p[i].productTitle == Rows(v)[i].productTitle && p[i].size == Rows(v)[i].size
  {
  }

  /** One entry per row with content, in order, each with that row's title
      and size; the date is written on the first entry and nowhere else. */
  lemma PayloadColumns(items: seq<OrderItem>, today: string)
    requires SyncPayload(items, today).Some?
    ensures var p := SyncPayload(items, today).value;
      var rows := ContentRows(items);
      |p| == |rows| && p[0].date == today && (forall i :: 0 < i < |p| ==> p[i].date == "") &&
      forall i :: 0 <= i < |p| ==> p[i].productTitle == rows[i].productTitle && p[i].size == rows[i].size
  {
    var v := ValidRows(Annotate(items));
    assert SyncPayload(items, today).value == Payload(v, today);
    ValidRowsOfAnnotate(items);
    PayloadRows(v, today);
  }

  /** An entry's order cell is blank exactly when the row has no effective
      order or continues the previous row's run; otherwise it holds the
      effective order, and then differs from the cell above it. */
  lemma PayloadOrderCell(valid: seq<Annotated>, today: string, i: nat)
    requires i < |valid|
    ensures var p := Payload(valid, today);
      (p[i].orderNumber == "" <==> valid[i].effectiveOrder == "" || RepeatsPrevious(valid, i)) &&
      (p[i].orderNumber != "" ==> p[i].orderNumber == valid[i].effectiveOrder) &&
      (i > 0 && p[i].orderNumber != "" ==> p[i - 1].orderNumber != p[i].orderNumber)
  {
  }

  // ---------------------------------------------------------------------
  // Reading the payload back
  // ---------------------------------------------------------------------

  /** Every effective order is already trimmed. */
  predicate Trimmed(v: seq<Annotated>) {
    forall i :: 0 <= i < |v| ==> Trim(v[i].effectiveOrder) == v[i].effectiveOrder
  }

  /** Once some row has an effective order, every later row has one. */
  predicate EmptyOnlyFirst(v: seq<Annotated>) {
    forall i, j :: 0 <= i < j < |v| && v[j].effectiveOrder == "" ==> v[i].effectiveOrder == ""
  }

  lemma {:induction false} LastOrderTrimmed(os: seq<string>)
    ensures Trim(LastOrder(os)) == LastOrder(os)
  {
    if os == [] {
      assert Trim("") == "";
    } else if Trim(os[|os| - 1]) != "" {
      TrimIdempotent(os[|os| - 1]);
    } else {
      LastOrderTrimmed(os[..|os| - 1]);
    }
  }

  lemma AnnotateTrimmed(items: seq<OrderItem>)
    ensures Trimmed(Annotate(items))
  {
    forall k | 0 <= k < |items| ensures Trim(Annotate(items)[k].effectiveOrder) == Annotate(items)[k].effectiveOrder {
      EffectiveOrderAt(items, k);
      LastOrderTrimmed(OrderNumbers(items[..k + 1]));
    }
  }

  lemma AnnotateEmptyOnlyFirst(items: seq<OrderItem>)
    ensures EmptyOnlyFirst(Annotate(items))
  {
    var ann := Annotate(items);
    forall i, j | 0 <= i < j < |ann| && ann[j].effectiveOrder == "" ensures ann[i].effectiveOrder == "" {
      EffectiveOrderEmpty(items, j);
      EffectiveOrderEmpty(items, i);
    }
  }

  lemma ValidRowsTrimmed(ann: seq<Annotated>)
    requires Trimmed(ann)
    ensures Trimmed(ValidRows(ann))
  {
    var v := ValidRows(ann);
    forall i | 0 <= i < |v| ensures Trim(v[i].effectiveOrder) == v[i].effectiveOrder {
      assert v[i] in v;
      var k :| 0 <= k < |ann| && ann[k] == v[i];
    }
  }

  /** The last row of `ann` is kept or dropped; when its effective order is
      empty, so is that of every row kept before it. */
  lemma ValidRowsLastEmpty(ann: seq<Annotated>)
    requires ann != [] && EmptyOnlyFirst(ann) && ann[|ann| - 1].effectiveOrder == ""
    ensures forall x :: x in ValidRows(ann[..|ann| - 1]) ==> x.effectiveOrder == ""
  {
    var init := ann[..|ann| - 1];
    forall x | x in ValidRows(init) ensures x.effectiveOrder == "" {
      var k :| 0 <= k < |init| && init[k] == x;
      assert ann[k] == x;
    }
  }

  lemma {:induction false} ValidRowsEmptyOnlyFirst(ann: seq<Annotated>)
    requires EmptyOnlyFirst(ann)
    ensures EmptyOnlyFirst(ValidRows(ann))
  {
    if ann != [] {
      var init := ann[..|ann| - 1];
      var last := ann[|ann| - 1];
      assert forall k :: 0 <= k < |init| ==> init[k] == ann[k];
      ValidRowsEmptyOnlyFirst(init);
      var v0 := ValidRows(init);
      var v := ValidRows(ann);
      assert v == v0 + (if HasContent(last.item) then [last] else []);
      forall i, j | 0 <= i < j < |v| && v[j].effectiveOrder == "" ensures v[i].effectiveOrder == "" {
        if j < |v0| {
          assert v[i] == v0[i] && v[j] == v0[j];
        } else {
          ValidRowsLastEmpty(ann);
          assert v[i] == v0[i] && v0[i] in v0;
        }
      }
    }
  }

  /** One step of the read-back: a blank cell continues the run above it,
      and a written cell is the row's own (trimmed) order. */
  lemma CarryStep(carried: string, o: string, eff: string)
    requires Trim(eff) == eff
    requires (o == "" && eff == carried) || (o == eff && (eff != "" || carried == ""))
    ensures OwnOr(o, carried) == eff
  {
    assert Trim("") == "";
  }

  /** One posted order cell, read with the row above it already recovered,
      gives back the row's effective order. */
  lemma SentCell(v: seq<Annotated>, today: string, j: nat)
    requires Trimmed(v) && EmptyOnlyFirst(v) && j < |v|
    ensures var o := SentOrders(Payload(v, today))[j];
      OwnOr(o, if j == 0 then "" else v[j - 1].effectiveOrder) == v[j].effectiveOrder
  {
    var o := SentOrders(Payload(v, today))[j];
    var carried := if j == 0 then "" else v[j - 1].effectiveOrder;
    assert o == PayloadEntry(v, j, today).orderNumber;
    if j > 0 && v[j].effectiveOrder == "" {
      assert v[j - 1].effectiveOrder == "";
    }
    CarryStep(carried, o, v[j].effectiveOrder);
  }

  /** Carrying order numbers forward over the posted order column, with the
      same rule the order list uses, gives back each row's effective order. */
  lemma ReadBackAt(v: seq<Annotated>, today: string, j: nat)
    requires Trimmed(v) && EmptyOnlyFirst(v) && j < |v|
    ensures LastOrder(SentOrders(Payload(v, today))[..j + 1]) == v[j].effectiveOrder
  {
    var os := SentOrders(Payload(v, today));
    var effs := seq(|v|, i requires 0 <= i < |v| => v[i].effectiveOrder);
    forall i | 0 <= i < |os| ensures CellGives(os, effs, i) {
      SentCell(v, today, i);
    }
    CarryColumn(os, effs, j);
  }

  /** Cell i of the column, read with the value above it, gives value i. */
  predicate CellGives(os: seq<string>, effs: seq<string>, i: nat)
    requires |os| == |effs| && i < |os|
  {
    OwnOr(os[i], if i == 0 then "" else effs[i - 1]) == effs[i]
  }

  /** A column each of whose cells, read with the value above it, gives the
      next value: the carried order number at each row is that row's value. */
  lemma {:induction false} CarryColumn(os: seq<string>, effs: seq<string>, j: nat)
    requires |os| == |effs| && j < |os|
    requires forall i :: 0 <= i < |os| ==> CellGives(os, effs, i)
    ensures LastOrder(os[..j + 1]) == effs[j]
  {
    if j == 0 {
      CarryNext(os, effs, 0);
    } else {
      CarryColumn(os, effs, j - 1);
      var prev := LastOrder(os[..j]);
      assert prev == effs[j - 1];
      CarryNext(os, effs, j);
    }
  }

  /** One row of the read-back: the carried value above, read with this
      row's cell, is this row's value. */
  lemma CarryNext(os: seq<string>, effs: seq<string>, j: nat)
    requires |os| == |effs| && j < |os| && CellGives(os, effs, j)
    requires j > 0 ==> LastOrder(os[..j]) == effs[j - 1]
    ensures LastOrder(os[..j + 1]) == effs[j]
  {
    LastOrderStep(os, j);
  }

  /** The carried order number after one more entry of a column. */
  lemma LastOrderStep(os: seq<string>, j: nat)
    requires j < |os|
    ensures LastOrder(os[..j + 1]) == OwnOr(os[j], if j == 0 then "" else LastOrder(os[..j]))
  {
    assert os[..j + 1] == os[..j] + [os[j]];
    LastOrderSnoc(os[..j], os[j]);
    if j == 0 {
      assert os[..0] == [];
    }
  }

  /** So a reader of the sheet that fills blank order cells from the row
      above recovers every posted row's order. */
  lemma SyncRoundTrip(items: seq<OrderItem>, today: string, j: nat)
    requires SyncPayload(items, today).Some? && j < |SyncPayload(items, today).value|
    ensures LastOrder(SentOrders(SyncPayload(items, today).value)[..j + 1]) ==
      ValidRows(Annotate(items))[j].effectiveOrder
  {
    var ann := Annotate(items);
    AnnotateTrimmed(items);
    AnnotateEmptyOnlyFirst(items);
    ValidRowsTrimmed(ann);
    ValidRowsEmptyOnlyFirst(ann);
    ReadBackAt(ValidRows(ann), today, j);
  }
}
