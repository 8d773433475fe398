/** The order list as the import screen holds it: the rows and a counter
    that hands out fresh row ids. Every handler is one atomic command that
    replaces the list. */
module OrderStore {
  import opened Text
  import opened Types
  import opened OrderImport
  import opened OrderSync
  import opened OrderEdits

  /** Rows numbered from `first` up have distinct ids below the next
      number. */
  lemma ConsecutiveIds(s: seq<OrderItem>, first: Id)
    requires forall k :: 0 <= k < |s| ==> s[k].id == first + k
    ensures DistinctIds(s) && IdsBelow(s, first + |s|)
  {
    forall x | x in s ensures x.id < first + |s| {
      var k :| 0 <= k < |s| && s[k] == x;
    }
  }

  /** An import result has distinct ids, all below the id after its last
      row. */
  lemma ImportValid(text: string, firstId: Id)
    requires ImportRows(text, firstId).Some?
    ensures var r := ImportRows(text, firstId).value; DistinctIds(r) && IdsBelow(r, firstId + |r|)
  {
    ImportIds(text, firstId);
    ConsecutiveIds(ImportRows(text, firstId).value, firstId);
  }

  /** The splice of `addRowAt`: the new row spliced in at `index`, the
      trailing blank restored, and the ids still distinct. */
  method InsertBlank(items: seq<OrderItem>, index: int, bound: Id) returns (r: seq<OrderItem>)
    requires DistinctIds(items) && IdsBelow(items, bound)
    ensures r == AddRowAt(items, index, bound, bound + 1)
    ensures DistinctIds(r) && IdsBelow(r, bound + 2)
  {
    AddRowAtIds(items, index, bound);
    var newData := InsertAt(items, index, BlankRow(bound));
    r := EnsureTrailingBlank(newData, bound + 1);
  }

  /** The splice of the corrected insert: the new row at the position of
      the row with `id`, and the ids still distinct. */
  method InsertAbove(items: seq<OrderItem>, id: Id, bound: Id) returns (r: seq<OrderItem>)
    requires DistinctIds(items) && IdsBelow(items, bound)
    ensures r == AddRowAbove(items, id, bound, bound + 1)
    ensures DistinctIds(r) && IdsBelow(r, bound + 2)
  {
    var p := PositionOf(items, id);
    AddRowAboveIds(items, id, bound);
    r := AddRowAt(items, p, bound, bound + 1);
  }

  class OrderList {
    var items: seq<OrderItem>
    var nextId: Id

    /** Ids are distinct and every id handed out so far is below `nextId`. */
    predicate Valid()
      reads this
    {
      DistinctIds(items) && IdsBelow(items, nextId)
    }

    constructor()
      ensures Valid() && items == [] && nextId == 0
    {
      items := [];
      nextId := 0;
    }

    /** The mount effect: an empty list gets its blank row. */
    method Mount()
      requires Valid()
      modifies this
      ensures Valid()
      ensures old(items) == [] ==> items == [BlankRow(old(nextId))] && nextId == old(nextId) + 1
      ensures old(items) != [] ==> items == old(items) && nextId == old(nextId)
    {
      if items == [] {
        items := [BlankRow(nextId)];
        nextId := nextId + 1;
      }
    }

    /** A file's text imported: the list is replaced by the imported rows,
        or left alone when the text has no non-blank line. */
    method Import(text: string)
      requires Valid()
      modifies this
      ensures Valid()
      ensures ImportRows(text, old(nextId)).None? ==> items == old(items) && nextId == old(nextId)
      ensures ImportRows(text, old(nextId)).Some? ==>
        items == ImportRows(text, old(nextId)).value && nextId == old(nextId) + |items|
    {
      var r := ProcessCSV(text, nextId);
      if r.Some? {
        ImportValid(text, nextId);
        items := r.value;
        nextId := nextId + |r.value|;
      }
    }

    method UpdateCell(id: Id, f: Field, value: string)
      requires Valid()
      modifies this
      ensures Valid()
      ensures items == OrderEdits.UpdateCell(old(items), id, f, value, old(nextId)) && nextId == old(nextId) + 1
    {
      EditedIds(items, id, f, value, nextId);
      EnsureTrailingBlankIds(Edited(items, id, f, value), nextId, nextId);
      items := OrderEdits.UpdateCell(items, id, f, value, nextId);
      nextId := nextId + 1;
    }

    method DeleteRow(id: Id)
      requires Valid()
      modifies this
      ensures Valid()
      ensures items == OrderEdits.DeleteRow(old(items), id, old(nextId)) && nextId == old(nextId) + 1
    {
      if |items| != 1 {
        RemoveIdIds(items, id, nextId);
        EnsureTrailingBlankIds(RemoveId(items, id), nextId, nextId);
      }
      items := OrderEdits.DeleteRow(items, id, nextId);
      nextId := nextId + 1;
    }

    /** The confirmed group delete; an empty target changes nothing. */
    method DeleteGroup(target: string)
      requires Valid()
      modifies this
      ensures Valid()
      ensures target == "" ==> items == old(items) && nextId == old(nextId)
      ensures target != "" ==> items == OrderEdits.DeleteGroup(old(items), target, old(nextId)) && nextId == old(nextId) + 1
    {
      if target == "" {
        return;
      }
      DeleteGroupIds(items, target, nextId, nextId);
      var kept := DeleteGroupFilter(items, target);
      items := EnsureTrailingBlank(kept, nextId);
      nextId := nextId + 1;
    }

    /** The confirmed reset: one fresh blank row. */
    method ClearAll()
      requires Valid()
      modifies this
      ensures Valid()
      ensures items == [BlankRow(old(nextId))] && nextId == old(nextId) + 1
    {
      items := [BlankRow(nextId)];
      nextId := nextId + 1;
    }

    /** A blank row spliced in at `index`; the trailing blank, if one is
        needed, takes the id after it. */
    method AddRowAt(index: int)
      requires Valid()
      modifies this
      ensures Valid()
      ensures items == OrderEdits.AddRowAt(old(items), index, old(nextId), old(nextId) + 1)
      ensures nextId == old(nextId) + 2
    {
      var r := InsertBlank(items, index, nextId);
      items, nextId := r, nextId + 2;
    }

    /** The insert the row button evidently intends: a blank row above the
        row with id `id`, wherever that row sits in the list. */
    method AddRowAbove(id: Id)
      requires Valid()
      modifies this
      ensures Valid()
      ensures items == OrderEdits.AddRowAbove(old(items), id, old(nextId), old(nextId) + 1)
      ensures nextId == old(nextId) + 2
    {
      var r := InsertAbove(items, id, nextId);
      items, nextId := r, nextId + 2;
    }

    /** The payload a sync posts, or `None` when there is nothing to send. */
    method Sync(today: string) returns (p: Option<seq<SyncEntry>>)
      ensures p == SyncPayload(items, today)
    {
      var ann := EffectiveOrders(items);
      var valid := ValidRows(ann);
      if valid == [] {
        return None;
      }
      p := Some(Payload(valid, today));
    }

    /** The rows the table shows for a search term. */
    method Search(term: string) returns (r: seq<Annotated>)
      ensures r == Filtered(Annotate(items), term)
    {
      var ann := EffectiveOrders(items);
      r := Filtered(ann, term);
    }
  }
}
