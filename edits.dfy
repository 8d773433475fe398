/** The row edits of the order list: set a field, delete a row, delete an
    order group, insert a blank row, and the search filter. Each edit that
    changes the list restores the trailing blank row afterwards. */
module OrderEdits {
  import opened Text
  import opened Types
  import opened OrderImport

  // ---------------------------------------------------------------------
  // Ids
  // ---------------------------------------------------------------------

  /** No two rows share an id. */
  predicate DistinctIds(s: seq<OrderItem>) {
    forall i, j :: 0 <= i < j < |s| ==> s[i].id != s[j].id
  }

  /** Every row's id is below `bound`, so `bound` and above are fresh. */
  predicate IdsBelow(s: seq<OrderItem>, bound: Id) {
    forall x :: x in s ==> x.id < bound
  }

  lemma DistinctSnoc(s: seq<OrderItem>, x: OrderItem)
    requires DistinctIds(s) && forall y :: y in s ==> y.id != x.id
    ensures DistinctIds(s + [x])
  {
    var t := s + [x];
    forall i, j | 0 <= i < j < |t| ensures t[i].id != t[j].id {
      if j == |s| {
        assert t[i] == s[i] && s[i] in s;
      } else {
        assert t[i] == s[i] && t[j] == s[j];
      }
    }
  }

  /** Restoring the trailing blank with a fresh id keeps the ids distinct. */
  lemma EnsureTrailingBlankIds(list: seq<OrderItem>, bound: Id, freshId: Id)
    requires DistinctIds(list) && IdsBelow(list, bound) && bound <= freshId
    ensures DistinctIds(EnsureTrailingBlank(list, freshId)) && IdsBelow(EnsureTrailingBlank(list, freshId), freshId + 1)
  {
    if !(list != [] && IsBlank(list[|list| - 1])) {
      DistinctSnoc(list, BlankRow(freshId));
    }
  }

  // ---------------------------------------------------------------------
  // Setting a field (`updateCell`)
  // ---------------------------------------------------------------------

  /** The three editable columns of a row. */
  datatype Field = OrderNumberField | ProductTitleField | SizeField

  function GetField(item: OrderItem, f: Field): string {
    match f
    case OrderNumberField => item.orderNumber
    case ProductTitleField => item.productTitle
    case SizeField => item.size
  }

  /** `{ ...item, [field]: value }`: the field reads back as `value` and
      every other field and the id are unchanged. */
  function SetField(item: OrderItem, f: Field, value: string): (r: OrderItem)
    ensures r.id == item.id && GetField(r, f) == value
    ensures forall g :: g != f ==> GetField(r, g) == GetField(item, g)
  {
    match f
    case OrderNumberField => item.(orderNumber := value)
    case ProductTitleField => item.(productTitle := value)
    case SizeField => item.(size := value)
  }

  /** Every row with the given id has the field set; nothing else changes. */
  function Edited(items: seq<OrderItem>, id: Id, f: Field, value: string): (r: seq<OrderItem>)
    ensures |r| == |items| && forall k :: 0 <= k < |items| ==> r[k].id == items[k].id
    ensures forall k, g :: 0 <= k < |items| ==>
      GetField(r[k], g) == (if items[k].id == id && g == f then value else GetField(items[k], g))
  {
    seq(|items|, k requires 0 <= k < |items| => if items[k].id == id then SetField(items[k], f, value) else items[k])
  }

  /** `updateCell`. */
  function UpdateCell(items: seq<OrderItem>, id: Id, f: Field, value: string, freshId: Id): seq<OrderItem> {
    EnsureTrailingBlank(Edited(items, id, f, value), freshId)
  }

  /** Two rows agree on the id and on every field. */
  lemma RowsEqual(x: OrderItem, y: OrderItem)
    requires x.id == y.id && forall g :: GetField(x, g) == GetField(y, g)
    ensures x == y
  {
    assert GetField(x, OrderNumberField) == GetField(y, OrderNumberField);
    assert GetField(x, ProductTitleField) == GetField(y, ProductTitleField);
    assert GetField(x, SizeField) == GetField(y, SizeField);
  }

  /** An edit of an id no row has, or an edit that writes a field's current
      value, leaves the rows as they were. */
  lemma EditedUnchanged(items: seq<OrderItem>, id: Id, f: Field, value: string)
    requires forall k :: 0 <= k < |items| && items[k].id == id ==> GetField(items[k], f) == value
    ensures Edited(items, id, f, value) == items
  {
    var r := Edited(items, id, f, value);
    forall k | 0 <= k < |items| ensures r[k] == items[k] {
      RowsEqual(r[k], items[k]);
    }
  }

  /** Editing keeps the ids, so they stay distinct and below the bound. */
  lemma EditedIds(items: seq<OrderItem>, id: Id, f: Field, value: string, bound: Id)
    requires DistinctIds(items) && IdsBelow(items, bound)
    ensures DistinctIds(Edited(items, id, f, value)) && IdsBelow(Edited(items, id, f, value), bound)
  {
    var r := Edited(items, id, f, value);
    forall x | x in r ensures x.id < bound {
      var k :| 0 <= k < |r| && r[k] == x;
      assert items[k] in items;
    }
  }

  // ---------------------------------------------------------------------
  // Deleting a row (`deleteRow`)
  // ---------------------------------------------------------------------

  /** The rows whose id differs from `id`, in their order. */
  function RemoveId(items: seq<OrderItem>, id: Id): (r: seq<OrderItem>)
    ensures |r| <= |items|
  {
    if items == [] then []
    else
      var last := items[|items| - 1];
      RemoveId(items[..|items| - 1], id) + (if last.id != id then [last] else [])
  }

  /** The filter keeps exactly the rows with another id. */
  lemma {:induction false} RemoveIdMembers(items: seq<OrderItem>, id: Id)
    ensures forall x :: x in RemoveId(items, id) <==> x in items && x.id != id
  {
    if items != [] {
      var init, last := items[..|items| - 1], items[|items| - 1];
      assert items == init + [last];
      RemoveIdMembers(init, id);
    }
  }

  lemma RemoveIdSnoc(s: seq<OrderItem>, x: OrderItem, id: Id)
    ensures RemoveId(s + [x], id) == RemoveId(s, id) + (if x.id != id then [x] else [])
  {
    assert (s + [x])[..|s|] == s;
  }

  /** The filter distributes over concatenation, so it keeps the order of
      the surviving rows. */
  lemma {:induction false} RemoveIdAppend(a: seq<OrderItem>, b: seq<OrderItem>, id: Id)
    ensures RemoveId(a + b, id) == RemoveId(a, id) + RemoveId(b, id)
    decreases |b|
  {
    if b == [] {
      assert a + b == a;
    } else {
      var b0, x := b[..|b| - 1], b[|b| - 1];
      assert b == b0 + [x];
      assert a + b == (a + b0) + [x];
      RemoveIdAppend(a, b0, id);
      RemoveIdSnoc(a + b0, x, id);
      RemoveIdSnoc(b0, x, id);
      Regroup(RemoveId(a, id), RemoveId(b0, id), if x.id != id then [x] else []);
    }
  }

  /** With no row of that id, nothing is removed. */
  lemma {:induction false} RemoveIdAbsent(items: seq<OrderItem>, id: Id)
    requires forall k :: 0 <= k < |items| ==> items[k].id != id
    ensures RemoveId(items, id) == items
  {
    if items != [] {
      var init := items[..|items| - 1];
      assert forall k :: 0 <= k < |init| ==> init[k] == items[k];
      RemoveIdAbsent(init, id);
    }
  }

  /** A row whose id no other row has is removed from between the rest. */
  lemma RemoveIdMiddle(a: seq<OrderItem>, x: OrderItem, b: seq<OrderItem>)
    requires forall k :: 0 <= k < |a| ==> a[k].id != x.id
    requires forall k :: 0 <= k < |b| ==> b[k].id != x.id
    ensures RemoveId(a + [x] + b, x.id) == a + b
  {
    var ax := a + [x];
    RemoveIdAppend(ax, b, x.id);
    RemoveIdSnoc(a, x, x.id);
    RemoveIdAbsent(a, x.id);
    RemoveIdAbsent(b, x.id);
    assert RemoveId(ax, x.id) == a;
    assert RemoveId(ax + b, x.id) == a + b;
  }

  /** With distinct ids, removing row k's id removes row k and only it. */
  lemma RemoveIdAt(items: seq<OrderItem>, k: nat)
    requires DistinctIds(items) && k < |items|
    ensures RemoveId(items, items[k].id) == items[..k] + items[k + 1..]
  {
    assert forall j :: 0 <= j < |items| && j != k ==> items[j].id != items[k].id by {
      forall j | 0 <= j < |items| && j != k ensures items[j].id != items[k].id {
        if j < k { assert items[j].id != items[k].id; } else { assert items[k].id != items[j].id; }
      }
    }
    RemoveIdUnique(items, k);
  }

  /** Removing the id that only row k has removes row k and only it. */
  lemma RemoveIdUnique(items: seq<OrderItem>, k: nat)
    requires k < |items| && forall j :: 0 <= j < |items| && j != k ==> items[j].id != items[k].id
    ensures RemoveId(items, items[k].id) == items[..k] + items[k + 1..]
  {
    var a, b := items[..k], items[k + 1..];
    AroundDiffers(items, k, a, b);
    SplitAround(items, k);
    RemoveIdMiddle(a, items[k], b);
  }

  lemma SplitAround(items: seq<OrderItem>, k: nat)
    requires k < |items|
    ensures items == items[..k] + [items[k]] + items[k + 1..]
  {
  }

  /** The rows before and after a row whose id no other row has. */
  lemma AroundDiffers(items: seq<OrderItem>, k: nat, a: seq<OrderItem>, b: seq<OrderItem>)
    requires k < |items| && forall j :: 0 <= j < |items| && j != k ==> items[j].id != items[k].id
    requires a == items[..k] && b == items[k + 1..]
    ensures forall j :: 0 <= j < |a| ==> a[j].id != items[k].id
    ensures forall j :: 0 <= j < |b| ==> b[j].id != items[k].id
  {
    forall j | 0 <= j < |a| ensures a[j].id != items[k].id {
      assert a[j] == items[j];
    }
    forall j | 0 <= j < |b| ensures b[j].id != items[k].id {
      assert b[j] == items[k + 1 + j];
    }
  }

  lemma {:induction false} RemoveIdIds(items: seq<OrderItem>, id: Id, bound: Id)
    requires DistinctIds(items) && IdsBelow(items, bound)
    ensures DistinctIds(RemoveId(items, id)) && IdsBelow(RemoveId(items, id), bound)
  {
    RemoveIdMembers(items, id);
    if items != [] {
      var init, last := items[..|items| - 1], items[|items| - 1];
      assert forall k :: 0 <= k < |init| ==> init[k] == items[k];
      RemoveIdIds(init, id, bound);
      if last.id != id {
        RemoveIdMembers(init, id);
        forall y | y in RemoveId(init, id) ensures y.id != last.id {
          var k :| 0 <= k < |init| && init[k] == y;
        }
        DistinctSnoc(RemoveId(init, id), last);
      }
    }
  }

  /** `deleteRow`: the last remaining row is replaced by a fresh blank one;
      otherwise the rows with that id go and the trailing blank is
      restored. */
  function DeleteRow(items: seq<OrderItem>, id: Id, freshId: Id): seq<OrderItem> {
    if |items| == 1 then [BlankRow(freshId)] else EnsureTrailingBlank(RemoveId(items, id), freshId)
  }

  /** With distinct ids, deleting row k of a longer list removes exactly
      that row, keeping the others in order. */
  lemma DeleteRowAt(items: seq<OrderItem>, k: nat, freshId: Id)
    requires DistinctIds(items) && 1 < |items| && k < |items|
    ensures DeleteRow(items, items[k].id, freshId) == EnsureTrailingBlank(items[..k] + items[k + 1..], freshId)
  {
    RemoveIdAt(items, k);
  }

  // ---------------------------------------------------------------------
  // Deleting an order group
  // ---------------------------------------------------------------------

  /** The confirmed group delete; an empty target is ignored. */
  function DeleteGroup(items: seq<OrderItem>, target: string, freshId: Id): seq<OrderItem> {
    if target == "" then items else EnsureTrailingBlank(OutsideGroup(Annotate(items), target), freshId)
  }

  /** Apart from the fresh blank row, a row is left after the delete exactly
      when it is a row of the list whose effective order is not the
      target. */
  lemma DeleteGroupKeeps(items: seq<OrderItem>, target: string, freshId: Id, x: OrderItem)
    requires target != "" && forall k :: 0 <= k < |items| ==> items[k].id != freshId
    ensures (x in DeleteGroup(items, target, freshId) && x.id != freshId) <==>
      exists k :: 0 <= k < |items| && items[k] == x && Annotate(items)[k].effectiveOrder != target
  {
    var ann := Annotate(items);
    OutsideGroupMembers(ann, target, x);
  }

  /** Rows of the annotated list that survive the group delete keep
      distinct ids. */
  lemma {:induction false} OutsideGroupIds(ann: seq<Annotated>, target: string)
    requires forall i, j :: 0 <= i < j < |ann| ==> ann[i].item.id != ann[j].item.id
    ensures DistinctIds(OutsideGroup(ann, target))
  {
    if ann != [] {
      var init, last := ann[..|ann| - 1], ann[|ann| - 1];
      assert forall k :: 0 <= k < |init| ==> init[k] == ann[k];
      OutsideGroupIds(init, target);
      if last.effectiveOrder != target {
        forall y | y in OutsideGroup(init, target) ensures y.id != last.item.id {
          OutsideGroupMembers(init, target, y);
        }
        DistinctSnoc(OutsideGroup(init, target), last.item);
      }
    }
  }

  lemma DeleteGroupIds(items: seq<OrderItem>, target: string, bound: Id, freshId: Id)
    requires DistinctIds(items) && IdsBelow(items, bound) && bound <= freshId
    ensures DistinctIds(DeleteGroup(items, target, freshId)) && IdsBelow(DeleteGroup(items, target, freshId), freshId + 1)
  {
    if target != "" {
      var ann := Annotate(items);
      OutsideGroupIds(ann, target);
      var kept := OutsideGroup(ann, target);
      forall y | y in kept ensures y.id < bound {
        OutsideGroupMembers(ann, target, y);
        var k :| 0 <= k < |ann| && ann[k].item == y && ann[k].effectiveOrder != target;
        assert items[k] in items;
      }
      EnsureTrailingBlankIds(kept, bound, freshId);
    }
  }

  // ---------------------------------------------------------------------
  // Inserting a row (`addRowAt`)
  // ---------------------------------------------------------------------

  /** Where `splice(index, 0, x)` inserts into a list of length `len`: a
      negative index counts from the end, and the position is clamped to
      the list. */
  function SpliceStart(len: nat, index: int): (s: nat)
    ensures s <= len
    ensures 0 <= index <= len ==> s == index
    ensures index > len ==> s == len
    ensures index < 0 ==> s == if len + index < 0 then 0 else len + index
  {
    if index < 0 then (if len + index < 0 then 0 else len + index)
    else if index > len then len else index
  }

  /** `splice(index, 0, x)`: `x` at the start position, every row before it
      in place and every row after it moved up by one. */
  function InsertAt(items: seq<OrderItem>, index: int, x: OrderItem): (r: seq<OrderItem>)
    ensures |r| == |items| + 1
    ensures r[SpliceStart(|items|, index)] == x
    ensures forall k :: 0 <= k < SpliceStart(|items|, index) ==> r[k] == items[k]
    ensures forall k :: SpliceStart(|items|, index) <= k < |items| ==> r[k + 1] == items[k]
  {
    var s := SpliceStart(|items|, index);
    items[..s] + [x] + items[s..]
  }

  /** `addRowAt`: a blank row with id `newId` inserted, then the trailing
      blank restored with id `freshId`. */
  function AddRowAt(items: seq<OrderItem>, index: int, newId: Id, freshId: Id): seq<OrderItem> {
    EnsureTrailingBlank(InsertAt(items, index, BlankRow(newId)), freshId)
  }

  /** Removing the inserted row gives back the original list. */
  lemma InsertAtRemoved(items: seq<OrderItem>, index: int, x: OrderItem)
    requires forall k :: 0 <= k < |items| ==> items[k].id != x.id
    ensures RemoveId(InsertAt(items, index, x), x.id) == items
  {
    var s := SpliceStart(|items|, index);
    var a, b := items[..s], items[s..];
    assert InsertAt(items, index, x) == a + [x] + b;
    forall j | 0 <= j < |a| ensures a[j].id != x.id {
      assert a[j] == items[j];
    }
    forall j | 0 <= j < |b| ensures b[j].id != x.id {
      assert b[j] == items[s + j];
    }
    RemoveIdMiddle(a, x, b);
    assert a + b == items;
  }

  /** Inserting at or past the end appends the blank row, which is the
      trailing blank already: no second one is added. */
  lemma AddRowAtEnd(items: seq<OrderItem>, index: int, newId: Id, freshId: Id)
    requires index >= |items|
    ensures AddRowAt(items, index, newId, freshId) == items + [BlankRow(newId)]
  {
    assert Trim("") == "";
    assert InsertAt(items, index, BlankRow(newId)) == items + [BlankRow(newId)];
  }

  lemma InsertAtIds(items: seq<OrderItem>, index: int, bound: Id, newId: Id)
    requires DistinctIds(items) && IdsBelow(items, bound) && bound <= newId
    ensures DistinctIds(InsertAt(items, index, BlankRow(newId))) && IdsBelow(InsertAt(items, index, BlankRow(newId)), newId + 1)
  {
    var r := InsertAt(items, index, BlankRow(newId));
    var s := SpliceStart(|items|, index);
    forall k | 0 <= k < |r| ensures r[k].id < newId + 1 && (k != s ==> r[k].id < bound) {
      if k < s {
        assert items[k] in items;
      } else if k > s {
        assert r[k] == items[k - 1] && items[k - 1] in items;
      }
    }
    forall i, j | 0 <= i < j < |r| ensures r[i].id != r[j].id {
      if i != s && j != s {
        var i0 := if i < s then i else i - 1;
        var j0 := if j < s then j else j - 1;
        assert r[i] == items[i0] && r[j] == items[j0];
      }
    }
  }

  /** An insert with two fresh ids keeps the ids distinct. */
  lemma AddRowAtIds(items: seq<OrderItem>, index: int, bound: Id)
    requires DistinctIds(items) && IdsBelow(items, bound)
    ensures DistinctIds(AddRowAt(items, index, bound, bound + 1)) && IdsBelow(AddRowAt(items, index, bound, bound + 1), bound + 2)
  {
    InsertAtIds(items, index, bound, bound);
    EnsureTrailingBlankIds(InsertAt(items, index, BlankRow(bound)), bound + 1, bound + 1);
  }

  // ---------------------------------------------------------------------
  // Search (`filteredData`)
  // ---------------------------------------------------------------------

  /** A row matches the search term when its title contains the term
      ignoring case, or its order number or effective order contains the
      term as typed. */
  predicate MatchesSearch(a: Annotated, term: string) {
    Contains(Lower(a.item.productTitle), Lower(term)) || Contains(a.item.orderNumber, term) ||
    Contains(a.effectiveOrder, term)
  }

  /** The matching rows, in their order. */
  function Filtered(ann: seq<Annotated>, term: string): (r: seq<Annotated>)
    ensures |r| <= |ann|
  {
    if ann == [] then []
    else
      var last := ann[|ann| - 1];
      Filtered(ann[..|ann| - 1], term) + (if MatchesSearch(last, term) then [last] else [])
  }

  /** The table shows exactly the matching rows. */
  lemma {:induction false} FilteredMembers(ann: seq<Annotated>, term: string)
    ensures forall x :: x in Filtered(ann, term) <==> x in ann && MatchesSearch(x, term)
  {
    if ann != [] {
      var init, last := ann[..|ann| - 1], ann[|ann| - 1];
      assert ann == init + [last];
      FilteredMembers(init, term);
    }
  }

  lemma FilteredSnoc(ann: seq<Annotated>, x: Annotated, term: string)
    ensures Filtered(ann + [x], term) == Filtered(ann, term) + (if MatchesSearch(x, term) then [x] else [])
  {
    assert (ann + [x])[..|ann|] == ann;
  }

  /** One row is shown exactly when it matches. */
  lemma FilteredOfRow(x: Annotated, term: string)
    ensures Filtered([x], term) == if MatchesSearch(x, term) then [x] else []
  {
    assert [x][..0] == [];
  }

  /** The filter distributes over concatenation, so the table keeps the rows'
      order and shows a repeated row as often as it occurs. */
  lemma {:induction false} FilteredAppend(a: seq<Annotated>, b: seq<Annotated>, term: string)
    ensures Filtered(a + b, term) == Filtered(a, term) + Filtered(b, term)
    decreases |b|
  {
    if b == [] {
      assert a + b == a;
    } else {
      var b0, x := b[..|b| - 1], b[|b| - 1];
      assert b == b0 + [x];
      assert a + b == (a + b0) + [x];
      FilteredAppend(a, b0, term);
      FilteredSnoc(a + b0, x, term);
      FilteredSnoc(b0, x, term);
      Regroup(Filtered(a, term), Filtered(b0, term), if MatchesSearch(x, term) then [x] else []);
    }
  }

  /** An empty search shows every row. */
  lemma {:induction false} FilteredEmptyTerm(ann: seq<Annotated>)
    ensures Filtered(ann, "") == ann
  {
    if ann != [] {
      var last := ann[|ann| - 1];
      assert SliceAt(last.effectiveOrder, 0, "");
      FilteredEmptyTerm(ann[..|ann| - 1]);
    }
  }

  // ---------------------------------------------------------------------
  // Inserting from the filtered table
  // ---------------------------------------------------------------------

  /** The position of the first row with the given id, or `|items|`. */
  function PositionOf(items: seq<OrderItem>, id: Id): (p: nat)
    ensures p <= |items|
    ensures p < |items| ==> items[p].id == id
    ensures forall j :: 0 <= j < p ==> items[j].id != id
  {
    if items == [] then 0
    else if items[0].id == id then 0
    else
      var p := PositionOf(items[1..], id);
      assert forall j :: 1 <= j < |items| ==> items[j] == items[1..][j - 1];
      1 + p
  }

  /** The row shown at `viewIndex` in the table for a search term. */
  function Shown(items: seq<OrderItem>, term: string, viewIndex: nat): OrderItem
    requires viewIndex < |Filtered(Annotate(items), term)|
  {
    Filtered(Annotate(items), term)[viewIndex].item
  }

  /** The insert above the row with the given id, the splice position
      taken from the whole list. */
  function AddRowAbove(items: seq<OrderItem>, id: Id, newId: Id, freshId: Id): seq<OrderItem> {
    AddRowAt(items, PositionOf(items, id), newId, freshId)
  }

  /** The insert button above the row shown at `viewIndex`, passing that
      row's id: the new row goes right above the shown row. */
  function AddRowAboveShown(items: seq<OrderItem>, term: string, viewIndex: nat, newId: Id, freshId: Id): seq<OrderItem>
    requires viewIndex < |Filtered(Annotate(items), term)|
  {
    AddRowAbove(items, Shown(items, term, viewIndex).id, newId, freshId)
  }

  /** The shown row is a row of the list. */
  lemma ShownInList(items: seq<OrderItem>, term: string, viewIndex: nat)
    requires viewIndex < |Filtered(Annotate(items), term)|
    ensures PositionOf(items, Shown(items, term, viewIndex).id) < |items|
  {
    var ann := Annotate(items);
    var f := Filtered(ann, term);
    FilteredMembers(ann, term);
    assert f[viewIndex] in f;
    var k :| 0 <= k < |ann| && ann[k] == f[viewIndex];
    assert items[k].id == Shown(items, term, viewIndex).id;
  }

  /** The new blank row lands immediately above a row with the shown row's
      id, so with distinct ids immediately above the shown row. */
  lemma AddRowAboveShownPlaced(items: seq<OrderItem>, term: string, viewIndex: nat, newId: Id, freshId: Id)
    requires viewIndex < |Filtered(Annotate(items), term)|
    ensures var p := PositionOf(items, Shown(items, term, viewIndex).id);
      var r := AddRowAboveShown(items, term, viewIndex, newId, freshId);
      p + 1 < |r| && r[p] == BlankRow(newId) && r[p + 1].id == Shown(items, term, viewIndex).id
  {
    ShownInList(items, term, viewIndex);
    AddRowAbovePlaced(items, Shown(items, term, viewIndex).id, newId, freshId);
  }

  /** The corrected insert puts the blank row right above the first row
      with the id, when there is one. */
  lemma AddRowAbovePlaced(items: seq<OrderItem>, id: Id, newId: Id, freshId: Id)
    requires PositionOf(items, id) < |items|
    ensures var p := PositionOf(items, id); var r := AddRowAbove(items, id, newId, freshId);
      p + 1 < |r| && r[p] == BlankRow(newId) && r[p + 1].id == id
  {
    AddRowAtPlaced(items, PositionOf(items, id), newId, freshId);
  }

  /** An insert at a position inside the list puts the blank row there,
      right above the row that was at that position. */
  lemma AddRowAtPlaced(items: seq<OrderItem>, p: nat, newId: Id, freshId: Id)
    requires p < |items|
    ensures var r := AddRowAt(items, p, newId, freshId); p + 1 < |r| && r[p] == BlankRow(newId) && r[p + 1] == items[p]
  {
  }

  /** The corrected insert with two fresh ids keeps the ids distinct. */
  lemma AddRowAboveIds(items: seq<OrderItem>, id: Id, bound: Id)
    requires DistinctIds(items) && IdsBelow(items, bound)
    ensures var r := AddRowAbove(items, id, bound, bound + 1); DistinctIds(r) && IdsBelow(r, bound + 2)
  {
    AddRowAtIds(items, PositionOf(items, id), bound);
  }

  /** With an empty search the table shows the whole list, and with
      distinct ids the view index is the list position: the two inserts
      agree. */
  lemma AddRowUnfiltered(items: seq<OrderItem>, viewIndex: nat, newId: Id, freshId: Id)
    requires DistinctIds(items) && viewIndex < |items|
    ensures viewIndex < |Filtered(Annotate(items), "")|
    ensures AddRowAboveShown(items, "", viewIndex, newId, freshId) == AddRowAt(items, viewIndex, newId, freshId)
  {
    FilteredEmptyTerm(Annotate(items));
    var p := PositionOf(items, items[viewIndex].id);
    assert p == viewIndex;
  }

  /** The two-row list of the example below. */
  function RoseRows(): seq<OrderItem> {
    [OrderItem(0, "1", "a", ""), OrderItem(1, "2", "rose", "")]
  }

  lemma TrimDigit(c: char)
    requires IsDigit(c)
    ensures Trim([c]) == [c]
  {
    assert SpaceRunEnd([c], 0) == 0;
    assert SpaceRunStart([c], 1) == 1;
  }

  lemma RoseAnnotated()
    ensures Annotate(RoseRows()) == [Annotated(RoseRows()[0], "1"), Annotated(RoseRows()[1], "2")]
  {
    var items := RoseRows();
    TrimDigit('1');
    TrimDigit('2');
    EffectiveOrderAt(items, 0);
    EffectiveOrderAt(items, 1);
  }

  lemma RoseFiltered()
    ensures Filtered(Annotate(RoseRows()), "rose") == [Annotated(RoseRows()[1], "2")]
  {
    RoseAnnotated();
    var a0, a1 := Annotated(RoseRows()[0], "1"), Annotated(RoseRows()[1], "2");
    assert Lower("rose") == "rose";
    assert SliceAt("rose", 0, "rose");
    assert MatchesSearch(a1, "rose");
    assert !MatchesSearch(a0, "rose");
    assert [a0, a1][..1] == [a0];
    assert [a0][..0] == [];
  }

  /** In a two-row list, splicing at the front puts the first row after
      the new one; splicing at the second row's position puts the second
      row after it. */
  lemma TwoRowInserts(x: OrderItem, y: OrderItem, newId: Id, freshId: Id)
    requires x.id != y.id
    ensures AddRowAt([x, y], 0, newId, freshId)[1] == x
    ensures AddRowAt([x, y], PositionOf([x, y], y.id), newId, freshId)[2] == y
  {
    assert [x, y][1..] == [y];
    assert PositionOf([x, y], y.id) == 1;
  }

  /** With the search "rose" over rows #1 "a" and #2 "rose", the table shows
      only the second row at view index 0, yet `addRowAt(0)` puts the new
      row above the first; the corrected insert puts it above the second. */
  lemma AddRowAtViewIndexMisplaced()
    ensures |Filtered(Annotate(RoseRows()), "rose")| == 1 && Shown(RoseRows(), "rose", 0) == RoseRows()[1]
    ensures AddRowAt(RoseRows(), 0, 5, 6)[1] == RoseRows()[0]
    ensures |Filtered(Annotate(RoseRows()), "rose")| == 1 && AddRowAboveShown(RoseRows(), "rose", 0, 5, 6)[2] == RoseRows()[1]
  {
    RoseFiltered();
    TwoRowInserts(RoseRows()[0], RoseRows()[1], 5, 6);
  }
}
