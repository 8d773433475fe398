/** The label side of the app: per-size counts of the order list, the set of
    order numbers already in the sheet, the size filter that picks titles,
    the assignment of titles to the selected grid cells, and the selection
    state of the grid. */
module Labels {
  import opened Text
  import opened Types
  import opened Normalizer
  import opened OrderImport

  // ---------------------------------------------------------------------
  // Per-size counts (`sizeCounts`)
  // ---------------------------------------------------------------------

  /** The key a size is counted under: its numeric part (lower-cased, the
      first "ml" removed, trimmed) followed by "ml"; `None` when the size or
      its numeric part is empty. */
  function SizeKey(size: string): (r: Option<string>)
    ensures r.Some? ==> |r.value| > 2 && r.value[|r.value| - 2..] == "ml"
    ensures r.Some? ==> r.value[..|r.value| - 2] == Trim(RemoveFirst(Lower(size), "ml")) != ""
    ensures r.None? <==> size == "" || Trim(RemoveFirst(Lower(size), "ml")) == ""
  {
    if size == "" then None
    else
      var n := Trim(RemoveFirst(Lower(size), "ml"));
      if n == "" then None
      else
        assert (n + "ml")[..|n|] == n;
        Some(n + "ml")
  }

  /** How many rows are counted under `key`. */
  function CountKey(items: seq<OrderItem>, key: string): (n: nat)
    ensures n <= |items|
  {
    if items == [] then 0
    else CountKey(items[..|items| - 1], key) + (if SizeKey(items[|items| - 1].size) == Some(key) then 1 else 0)
  }

  /** How many rows are counted at all. */
  function Counted(items: seq<OrderItem>): (n: nat)
    ensures n <= |items|
  {
    if items == [] then 0
    else Counted(items[..|items| - 1]) + (if SizeKey(items[|items| - 1].size).Some? then 1 else 0)
  }

  /** The count record with one more row counted under `key`, if any. */
  function Bump(m: map<string, nat>, key: Option<string>): map<string, nat> {
    match key
    case None => m
    case Some(k) => m[k := (if k in m then m[k] else 0) + 1]
  }

  /** The count record after the rows of `items`, first to last. */
  function Counts(items: seq<OrderItem>): map<string, nat> {
    if items == [] then map[]
    else Bump(Counts(items[..|items| - 1]), SizeKey(items[|items| - 1].size))
  }

  /** `sizeCounts`: one pass over the rows bumping a counter per key. */
  method SizeCounts(items: seq<OrderItem>) returns (counts: map<string, nat>)
    ensures counts == Counts(items)
  {
    counts := map[];
    for i := 0 to |items|
      invariant counts == Counts(items[..i])
    {
      CountsStep(items, i);
      var key := SizeKey(items[i].size);
      if key.Some? {
        var cleanSize := key.value;
        counts := counts[cleanSize := (if cleanSize in counts then counts[cleanSize] else 0) + 1];
      }
    }
    assert items[..|items|] == items;
  }

  lemma CountsStep(items: seq<OrderItem>, i: nat)
    requires i < |items|
    ensures Counts(items[..i + 1]) == Bump(Counts(items[..i]), SizeKey(items[i].size))
  {
    assert items[..i + 1][..i] == items[..i];
  }

  /** A key is present exactly when some row is counted under it, and its
      value is the number of such rows. */
  lemma {:induction false} CountsKey(items: seq<OrderItem>, key: string)
    ensures key in Counts(items) <==> CountKey(items, key) > 0
    ensures key in Counts(items) ==> Counts(items)[key] == CountKey(items, key)
  {
    if items != [] {
      CountsKey(items[..|items| - 1], key);
    }
  }

  /** Every key is a non-empty numeric part followed by "ml". */
  lemma CountsKeyShape(items: seq<OrderItem>, key: string)
    requires key in Counts(items)
    ensures exists k :: 0 <= k < |items| && SizeKey(items[k].size) == Some(key)
    ensures |key| > 2 && key[|key| - 2..] == "ml"
  {
    CountsKey(items, key);
    CountKeyWitness(items, key);
  }

  lemma {:induction false} CountKeyWitness(items: seq<OrderItem>, key: string)
    requires CountKey(items, key) > 0
    ensures exists k :: 0 <= k < |items| && SizeKey(items[k].size) == Some(key)
  {
    var init := items[..|items| - 1];
    if SizeKey(items[|items| - 1].size) != Some(key) {
      CountKeyWitness(init, key);
      var k :| 0 <= k < |init| && SizeKey(init[k].size) == Some(key);
      assert items[k] == init[k];
    }
  }

  /** The sum of a count record's values. */
  ghost function Total(m: map<string, nat>): nat
    decreases |m.Keys|
  {
    if m == map[] then 0
    else
      var k :| k in m;
      assert |(m - {k}).Keys| < |m.Keys| by {
        assert (m - {k}).Keys == m.Keys - {k};
      }
      m[k] + Total(m - {k})
  }

  /** The sum does not depend on which key is taken first. */
  lemma {:induction false} TotalRemove(m: map<string, nat>, k: string)
    requires k in m
    ensures Total(m) == m[k] + Total(m - {k})
    decreases |m.Keys|
  {
    var j :| j in m && Total(m) == m[j] + Total(m - {j});
    if j != k {
      assert (m - {j}).Keys == m.Keys - {j};
      assert (m - {k}).Keys == m.Keys - {k};
      TotalRemove(m - {j}, k);
      TotalRemove(m - {k}, j);
      assert m - {j} - {k} == m - {k} - {j};
    }
  }

  lemma TotalBump(m: map<string, nat>, k: string)
    ensures Total(m[k := (if k in m then m[k] else 0) + 1]) == Total(m) + 1
  {
    var m2 := m[k := (if k in m then m[k] else 0) + 1];
    TotalRemove(m2, k);
    if k in m {
      TotalRemove(m, k);
      assert m2 - {k} == m - {k};
    } else {
      assert m2 - {k} == m;
    }
  }

  /** The counts add up to the number of counted rows, so to at most the
      number of rows. */
  lemma {:induction false} CountsTotal(items: seq<OrderItem>)
    ensures Total(Counts(items)) == Counted(items) <= |items|
  {
    if items == [] {
    } else {
      CountsTotal(items[..|items| - 1]);
      var key := SizeKey(items[|items| - 1].size);
      if key.Some? {
        TotalBump(Counts(items[..|items| - 1]), key.value);
      }
    }
  }

  // ---------------------------------------------------------------------
  // Sheet rows: orders already synced, and the fallback title source
  // ---------------------------------------------------------------------

  /** A sheet row's cells: split on commas, every double quote removed,
      trimmed. */
  function SheetCells(row: string): (r: seq<string>)
    ensures |r| == |Split(row, ',')|
    ensures forall i :: 0 <= i < |r| ==> r[i] == Trim(RemoveChar(Split(row, ',')[i], '"'))
  {
    var raw := Split(row, ',');
    seq(|raw|, i requires 0 <= i < |raw| => Trim(RemoveChar(raw[i], '"')))
  }

  /** The digits of the row's second cell, when that cell is non-empty and
      has a digit. */
  function RowOrder(row: string): (r: Option<string>)
    ensures r.Some? ==> r.value != "" && AllDigits(r.value)
  {
    var cols := SheetCells(row);
    if |cols| > 1 && cols[1] != "" then
      var order := Digits(cols[1]);
      if order != "" then Some(order) else None
    else None
  }

  /** Each row's order number, if it has one. */
  function RowOrders(rows: seq<string>): (r: seq<Option<string>>)
    ensures |r| == |rows| && forall j :: 0 <= j < |rows| ==> r[j] == RowOrder(rows[j])
  {
    seq(|rows|, j requires 0 <= j < |rows| => RowOrder(rows[j]))
  }

  /** The values present in `os`. */
  function Present(os: seq<Option<string>>): set<string> {
    if os == [] then {}
    else Present(os[..|os| - 1]) + (match os[|os| - 1] case Some(o) => {o} case None => {})
  }

  /** The set of order numbers already in the sheet. */
  function OrdersOf(text: string): set<string> {
    Present(RowOrders(Split(text, '\n')))
  }

  /** The row parse of `fetchExistingOrders`: newline-separated rows, each
      adding its order number to the set. */
  method ParseExistingOrders(text: string) returns (orders: set<string>)
    ensures orders == OrdersOf(text)
  {
    var rows := Split(text, '\n');
    ghost var os := RowOrders(rows);
    orders := {};
    for i := 0 to |rows|
      invariant orders == Present(os[..i])
    {
      PresentStep(os, i);
      var order := RowOrder(rows[i]);
      if order.Some? {
        orders := orders + {order.value};
      }
    }
    assert os[..|rows|] == os;
  }

  lemma PresentStep(os: seq<Option<string>>, i: nat)
    requires i < |os|
    ensures os[i].Some? ==> Present(os[..i + 1]) == Present(os[..i]) + {os[i].value}
    ensures os[i].None? ==> Present(os[..i + 1]) == Present(os[..i])
  {
    assert os[..i + 1][..i] == os[..i];
  }

  /** A value is present exactly when some entry holds it. */
  lemma {:induction false} PresentMembers(os: seq<Option<string>>, o: string)
    ensures o in Present(os) <==> exists j :: 0 <= j < |os| && os[j] == Some(o)
  {
    if os != [] {
      var init := os[..|os| - 1];
      PresentMembers(init, o);
      assert forall j :: 0 <= j < |init| ==> init[j] == os[j];
    }
  }

  /** Every number in the set is a non-empty digit string, the digits of
      the second cell of some row. */
  lemma ExistingOrderShape(text: string, o: string)
    requires o in OrdersOf(text)
    ensures o != "" && AllDigits(o)
    ensures exists j :: (0 <= j < |Split(text, '\n')| && |SheetCells(Split(text, '\n')[j])| > 1 &&
      o == Digits(SheetCells(Split(text, '\n')[j])[1]))
  {
    var rows := Split(text, '\n');
    PresentMembers(RowOrders(rows), o);
    var j :| 0 <= j < |rows| && RowOrders(rows)[j] == Some(o);
    assert RowOrder(rows[j]) == Some(o);
  }

  /** A sheet row read as a label entry: the normalised second cell and
      the first number of the third; `None` for a row with fewer than three
      cells. */
  function SheetEntry(row: string, rules: Rules): Option<(string, string)> {
    var cols := SheetCells(row);
    if |cols| < 3 then None else Some((Preprocess(cols[1], rules), FirstNumber(cols[2])))
  }

  /** Each sheet row read as a label entry, in row order. */
  function SheetEntries(rows: seq<string>, rules: Rules): seq<Option<(string, string)>> {
    seq(|rows|, i requires 0 <= i < |rows| => SheetEntry(rows[i], rules))
  }

  /** The names of the sheet entries with a non-empty name and the target
      size, in row order. */
  function SheetNames(entries: seq<Option<(string, string)>>, target: string): (r: seq<string>)
    ensures forall t :: t in r ==> t != ""
  {
    if entries == [] then []
    else SheetNames(entries[..|entries| - 1], target) + EntryName(entries[|entries| - 1], target)
  }

  /** What one entry adds: its name when it is non-empty and has the target
      size. */
  function EntryName(e: Option<(string, string)>, target: string): seq<string> {
    match e
    case Some((name, size)) => if name != "" && size == target then [name] else []
    case None => []
  }

  /** Row `row` of the sheet gives the name `t` for the target size: it has
      at least three cells, `t` is its non-empty normalised name and its
      size is the target. */
  predicate SheetRowGives(row: string, rules: Rules, target: string, t: string) {
    t != "" && SheetEntry(row, rules) == Some((t, target))
  }

  lemma SheetNamesSnoc(es: seq<Option<(string, string)>>, e: Option<(string, string)>, target: string)
    ensures SheetNames(es + [e], target) == SheetNames(es, target) + EntryName(e, target)
  {
    assert (es + [e])[..|es|] == es;
  }

  /** Picking names distributes over concatenation, so names keep row
      order. */
  lemma {:induction false} SheetNamesAppend(a: seq<Option<(string, string)>>, b: seq<Option<(string, string)>>, target: string)
    ensures SheetNames(a + b, target) == SheetNames(a, target) + SheetNames(b, target)
    decreases |b|
  {
    if b == [] {
      assert a + b == a;
    } else {
      var b0, x := b[..|b| - 1], b[|b| - 1];
      assert b == b0 + [x];
      assert a + b == (a + b0) + [x];
      SheetNamesAppend(a, b0, target);
      SheetNamesSnoc(a + b0, x, target);
      SheetNamesSnoc(b0, x, target);
      Regroup(SheetNames(a, target), SheetNames(b0, target), EntryName(x, target));
    }
  }

  /** A name is taken from the entries exactly when some entry has it, with
      the target size. */
  lemma EntryNamesMembers(es: seq<Option<(string, string)>>, target: string, t: string)
    ensures t in SheetNames(es, target) <==>
      exists k :: 0 <= k < |es| && t != "" && es[k] == Some((t, target))
  {
    if t in SheetNames(es, target) {
      SheetNameFrom(es, target, t);
    }
    if exists k :: 0 <= k < |es| && t != "" && es[k] == Some((t, target)) {
      var k :| 0 <= k < |es| && t != "" && es[k] == Some((t, target));
      SheetNameOf(es, target, k, t);
    }
  }

  /** A name is taken from the sheet exactly when some row gives it for the
      target size. */
  lemma SheetNamesMembers(rows: seq<string>, target: string, rules: Rules, t: string)
    ensures t in SheetNames(SheetEntries(rows, rules), target) <==>
      exists k :: 0 <= k < |rows| && SheetRowGives(rows[k], rules, target, t)
  {
    var es := SheetEntries(rows, rules);
    EntryNamesMembers(es, target, t);
    assert forall k :: 0 <= k < |rows| ==> es[k] == SheetEntry(rows[k], rules);
  }

  lemma {:induction false} SheetNameFrom(es: seq<Option<(string, string)>>, target: string, t: string)
    requires t in SheetNames(es, target)
    ensures exists k :: 0 <= k < |es| && t != "" && es[k] == Some((t, target))
  {
    var n := |es| - 1;
    var init := es[..n];
    if t in SheetNames(init, target) {
      SheetNameFrom(init, target, t);
      var k :| 0 <= k < |init| && t != "" && init[k] == Some((t, target));
      assert es[k] == init[k];
    } else {
      assert t in EntryName(es[n], target);
    }
  }

  lemma {:induction false} SheetNameOf(es: seq<Option<(string, string)>>, target: string, k: nat, t: string)
    requires k < |es| && t != "" && es[k] == Some((t, target))
    ensures t in SheetNames(es, target)
  {
    var n := |es| - 1;
    var init := es[..n];
    if k < n {
      assert init[k] == es[k];
      SheetNameOf(init, target, k, t);
    }
  }

  // ---------------------------------------------------------------------
  // Picking titles by size
  // ---------------------------------------------------------------------

  /** The selected size with the first "ml" removed, trimmed and
      lower-cased. */
  function NumericTarget(selectedSize: string): string {
    Lower(Trim(RemoveFirst(selectedSize, "ml")))
  }

  /** A row is picked when it is not all-empty and its lower-cased, trimmed
      size is the target. */
  predicate IsMatch(item: OrderItem, target: string) {
    HasContent(item) && Trim(Lower(item.size)) == target
  }

  /** The titles of the picked rows, in row order. */
  function MatchingTitles(items: seq<OrderItem>, target: string): seq<string> {
    if items == [] then []
    else
      var last := items[|items| - 1];
      MatchingTitles(items[..|items| - 1], target) + (if IsMatch(last, target) then [last.productTitle] else [])
  }

  lemma MatchingTitlesSnoc(items: seq<OrderItem>, x: OrderItem, target: string)
    ensures MatchingTitles(items + [x], target) == MatchingTitles(items, target) + (if IsMatch(x, target) then [x.productTitle] else [])
  {
    assert (items + [x])[..|items|] == items;
  }

  /** Picking distributes over concatenation, so titles keep row order. */
  lemma {:induction false} MatchingTitlesAppend(a: seq<OrderItem>, b: seq<OrderItem>, target: string)
    ensures MatchingTitles(a + b, target) == MatchingTitles(a, target) + MatchingTitles(b, target)
    decreases |b|
  {
    if b == [] {
      assert a + b == a;
    } else {
      var b0, x := b[..|b| - 1], b[|b| - 1];
      assert b == b0 + [x];
      assert a + b == (a + b0) + [x];
      MatchingTitlesAppend(a, b0, target);
      MatchingTitlesSnoc(a + b0, x, target);
      MatchingTitlesSnoc(b0, x, target);
    }
  }

  /** A title is picked exactly when some picked row has it. */
  lemma {:induction false} MatchingTitlesMembers(items: seq<OrderItem>, target: string, t: string)
    ensures t in MatchingTitles(items, target) <==>
      exists k :: 0 <= k < |items| && IsMatch(items[k], target) && items[k].productTitle == t
  {
    if t in MatchingTitles(items, target) {
      MatchingTitleFrom(items, target, t);
    }
    if exists k :: 0 <= k < |items| && IsMatch(items[k], target) && items[k].productTitle == t {
      var k :| 0 <= k < |items| && IsMatch(items[k], target) && items[k].productTitle == t;
      MatchingTitleOf(items, target, k);
    }
  }

  lemma {:induction false} MatchingTitleFrom(items: seq<OrderItem>, target: string, t: string)
    requires t in MatchingTitles(items, target)
    ensures exists k :: 0 <= k < |items| && IsMatch(items[k], target) && items[k].productTitle == t
  {
    var n := |items| - 1;
    var init := items[..n];
    if t in MatchingTitles(init, target) {
      MatchingTitleFrom(init, target, t);
      var k :| 0 <= k < |init| && IsMatch(init[k], target) && init[k].productTitle == t;
      assert items[k] == init[k];
    } else {
      assert IsMatch(items[n], target) && items[n].productTitle == t;
    }
  }

  lemma {:induction false} MatchingTitleOf(items: seq<OrderItem>, target: string, k: nat)
    requires k < |items| && IsMatch(items[k], target)
    ensures items[k].productTitle in MatchingTitles(items, target)
  {
    var n := |items| - 1;
    var init := items[..n];
    if k < n {
      assert init[k] == items[k];
      MatchingTitleOf(init, target, k);
    }
  }

  /** The titles the auto-map places: the order list's picked titles, or,
      with an empty order list, the sheet's entries of that size. */
  function CandidateNames(items: seq<OrderItem>, sheetText: string, selectedSize: string, rules: Rules): seq<string> {
    var target := NumericTarget(selectedSize);
    if |items| > 0 then MatchingTitles(items, target) else SheetNames(SheetEntries(Split(sheetText, '\n'), rules), target)
  }

  // ---------------------------------------------------------------------
  // Assigning titles to the selected cells
  // ---------------------------------------------------------------------

  predicate StrictlySorted(t: seq<nat>) {
    forall i, j :: 0 <= i < j < |t| ==> t[i] < t[j]
  }

  /** The least element of a non-empty set. */
  lemma {:induction false} SetMin(s: set<nat>) returns (m: nat)
    requires s != {}
    ensures m in s && forall y :: y in s ==> m <= y
    decreases |s|
  {
    var x :| x in s;
    if s == {x} {
      m := x;
    } else {
      var rest := s - {x};
      var r := SetMin(rest);
      m := if x < r then x else r;
      forall y | y in s ensures m <= y {
        if y != x {
          assert y in rest;
        }
      }
    }
  }

  /** `Array.from(selectedIndices).sort((a, b) => a - b)`: the selected
      cells in increasing order. */
  method SortedIndices(s: set<nat>) returns (r: seq<nat>)
    ensures StrictlySorted(r)
    ensures forall x :: x in r <==> x in s
  {
    r := [];
    var rest := s;
    while rest != {}
      invariant StrictlySorted(r)
      invariant forall x :: x in s <==> x in r || x in rest
      invariant forall x, y :: x in r && y in rest ==> x < y
      decreases |rest|
    {
      var least := SetMin(rest);
      var m :| m in rest && forall y :: y in rest ==> m <= y;
      assert forall i :: 0 <= i < |r| ==> r[i] < m by {
        forall i | 0 <= i < |r| ensures r[i] < m {
          assert r[i] in r;
        }
      }
      r := r + [m];
      rest := rest - {m};
    }
  }

  /** The i-th name is placed when it exists and is non-empty. */
  predicate Placed(names: seq<string>, i: nat) {
    i < |names| && names[i] != ""
  }

  /** The mapping after placing names on `targets`, first to last, each
      placed name overwriting what the cell held. */
  function Assigned(mapping: map<nat, string>, targets: seq<nat>, names: seq<string>): map<nat, string> {
    if targets == [] then mapping
    else
      var n := |targets| - 1;
      var m := Assigned(mapping, targets[..n], names);
      if Placed(names, n) then m[targets[n] := names[n]] else m
  }

  /** The `forEach` that copies the old mapping and writes each placed
      name into its cell. */
  method Assign(mapping: map<nat, string>, targets: seq<nat>, names: seq<string>) returns (m: map<nat, string>)
    ensures m == Assigned(mapping, targets, names)
  {
    m := mapping;
    for i := 0 to |targets|
      invariant m == Assigned(mapping, targets[..i], names)
    {
      assert targets[..i + 1][..i] == targets[..i];
      if i < |names| && names[i] != "" {
        m := m[targets[i] := names[i]];
      }
    }
    assert targets[..|targets|] == targets;
  }

  /** With distinct targets, each cell ends up holding the name placed on
      it, or what it held before when none is. */
  lemma {:induction false} AssignedAt(mapping: map<nat, string>, targets: seq<nat>, names: seq<string>, c: nat)
    requires forall i, j :: 0 <= i < j < |targets| ==> targets[i] != targets[j]
    ensures forall i :: 0 <= i < |targets| && targets[i] == c && Placed(names, i) ==>
      c in Assigned(mapping, targets, names) && Assigned(mapping, targets, names)[c] == names[i]
    ensures (forall i :: 0 <= i < |targets| && targets[i] == c ==> !Placed(names, i)) ==>
      (c in Assigned(mapping, targets, names) <==> c in mapping) &&
      (c in mapping ==> Assigned(mapping, targets, names)[c] == mapping[c])
  {
    if targets != [] {
      var n := |targets| - 1;
      var init := targets[..n];
      assert forall i :: 0 <= i < n ==> init[i] == targets[i];
      AssignedAt(mapping, init, names, c);
    }
  }

  /** How many selected cells come before `c`: its position in increasing
      order. */
  function Rank(c: nat, s: set<nat>): nat {
    |Below(c, s)|
  }

  /** The selected cells before `c`. */
  function Below(c: nat, s: set<nat>): (r: set<nat>)
    ensures forall y :: y in r <==> y in s && y < c
  {
    set y | y in s && y < c
  }

  lemma {:induction false} PrefixSetSize(t: seq<nat>, i: nat)
    requires StrictlySorted(t) && i <= |t|
    ensures |set j | 0 <= j < i :: t[j]| == i
  {
    if i > 0 {
      PrefixSetSize(t, i - 1);
      var a := set j | 0 <= j < i - 1 :: t[j];
      assert (set j | 0 <= j < i :: t[j]) == a + {t[i - 1]};
      assert t[i - 1] !in a;
    }
  }

  /** In the sorted enumeration of a set, position i has rank i. */
  lemma RankInSorted(t: seq<nat>, s: set<nat>, i: nat)
    requires StrictlySorted(t) && (forall x :: x in t <==> x in s) && i < |t|
    ensures Rank(t[i], s) == i
  {
    var below := Below(t[i], s);
    var prefix := set j | 0 <= j < i :: t[j];
    forall y | y in below ensures y in prefix {
      var j :| 0 <= j < |t| && t[j] == y;
      assert j < i;
    }
    forall y | y in prefix ensures y in below {
      var j :| 0 <= j < i && t[j] == y;
      assert t[j] in t;
    }
    assert below == prefix;
    PrefixSetSize(t, i);
  }

  /** Cell c of the selection gets a name: the name at its rank exists and
      is non-empty. */
  predicate Hit(c: nat, s: set<nat>, names: seq<string>) {
    c in s && Placed(names, Rank(c, s))
  }

  /** The mapping an auto-map produces: each selected cell whose rank has a
      non-empty name gets that name, and every other cell keeps its entry. */
  function MappedAfter(mapping: map<nat, string>, s: set<nat>, names: seq<string>): (r: map<nat, string>)
    ensures forall c :: c in r <==> c in mapping || Hit(c, s, names)
  {
    map c | c in mapping.Keys + (set x | x in s && Hit(x, s, names)) ::
      if Hit(c, s, names) then names[Rank(c, s)] else mapping[c]
  }

  /** Placing names on the sorted selection gives exactly that mapping. */
  lemma AssignedIsMappedAfter(mapping: map<nat, string>, s: set<nat>, t: seq<nat>, names: seq<string>)
    requires StrictlySorted(t) && forall x :: x in t <==> x in s
    ensures Assigned(mapping, t, names) == MappedAfter(mapping, s, names)
  {
    var m := Assigned(mapping, t, names);
    var spec := MappedAfter(mapping, s, names);
    forall c ensures (c in m <==> c in spec) && (c in m ==> m[c] == spec[c]) {
      AssignedAt(mapping, t, names, c);
      if c in s {
        var i :| 0 <= i < |t| && t[i] == c;
        RankInSorted(t, s, i);
      } else {
        assert forall i :: 0 <= i < |t| ==> t[i] != c;
      }
    }
  }

  // ---------------------------------------------------------------------
  // The selection
  // ---------------------------------------------------------------------

  /** `handleToggleCell`: a forced state sets membership, no state flips
      it, and no other index changes. */
  function Toggled(sel: set<nat>, index: nat, force: Option<bool>): (r: set<nat>)
    ensures force.Some? ==> (index in r <==> force.value)
    ensures force.None? ==> (index in r <==> index !in sel)
    ensures forall j :: j != index ==> (j in r <==> j in sel)
  {
    var on := if force.Some? then force.value else index !in sel;
    if on then sel + {index} else sel - {index}
  }

  /** Flipping a cell twice restores the selection. */
  lemma ToggleTwice(sel: set<nat>, index: nat)
    ensures Toggled(Toggled(sel, index, None), index, None) == sel
  {
    var r := Toggled(Toggled(sel, index, None), index, None);
    assert forall j :: j in r <==> j in sel;
  }

  /** Every cell of a grid with `total` cells. */
  function AllCells(total: nat): (r: set<nat>)
    ensures forall i :: i in r <==> 0 <= i < total
  {
    if total == 0 then {} else AllCells(total - 1) + {total - 1}
  }

  lemma {:induction false} AllCellsSize(total: nat)
    ensures |AllCells(total)| == total
  {
    if total > 0 {
      AllCellsSize(total - 1);
      var below := AllCells(total - 1);
      assert total - 1 !in below;
      assert |below + {total - 1}| == |below| + 1;
    }
  }

  /** The loop that collects the indices of a grid with `total` cells. */
  method CellsOfLayout(t: LayoutType) returns (all: set<nat>)
    ensures all == AllCells(TotalCells(t)) && |all| == TotalCells(t)
  {
    var config := Config(t);
    var total := config.rows * config.cols;
    all := {};
    for i := 0 to total
      invariant all == AllCells(i)
    {
      all := all + {i};
    }
    AllCellsSize(total);
  }

  /** The auto-map's outcome: the two alerts, or a new mapping. */
  datatype MapOutcome = NoSelection | NoMatches | Mapped

  /** The label-sheet state of the app. */
  class LabelSheet {
    var layout: LayoutType
    var selectedSize: string
    var selected: set<nat>
    var mapping: map<nat, string>
    var existingOrders: set<string>

    constructor()
      ensures layout == Standard && selectedSize == "1ml" && selected == {} && mapping == map[] && existingOrders == {}
    {
      layout := Standard;
      selectedSize := "1ml";
      selected := {};
      mapping := map[];
      existingOrders := {};
    }

    method ToggleCell(index: nat, force: Option<bool>)
      modifies this
      ensures selected == Toggled(old(selected), index, force)
      ensures layout == old(layout) && selectedSize == old(selectedSize) && mapping == old(mapping)
      ensures existingOrders == old(existingOrders)
    {
      var next := selected;
      var isSelected := if force.Some? then force.value else index !in next;
      if isSelected {
        next := next + {index};
      } else {
        next := next - {index};
      }
      selected := next;
    }

    /** `selectAll`: every cell of the current layout. */
    method SelectAll()
      modifies this
      ensures selected == AllCells(TotalCells(layout))
      ensures layout == old(layout) && selectedSize == old(selectedSize) && mapping == old(mapping)
      ensures existingOrders == old(existingOrders)
    {
      var all := CellsOfLayout(layout);
      selected := all;
    }

    /** `handleResetGrid`. */
    method ResetGrid()
      modifies this
      ensures mapping == map[] && selected == {}
      ensures layout == old(layout) && selectedSize == old(selectedSize) && existingOrders == old(existingOrders)
    {
      mapping := map[];
      selected := {};
    }

    /** The layout-change effect: the first size of the new layout, and an
        empty selection and mapping. */
    method ChangeLayout(t: LayoutType)
      modifies this
      ensures layout == t && selectedSize == Config(t).options[0] && selected == {} && mapping == map[]
      ensures existingOrders == old(existingOrders)
    {
      layout := t;
      selectedSize := Config(t).options[0];
      selected := {};
      mapping := map[];
    }

    /** The set of orders already in the sheet, from the sheet's text. */
    method RefreshExistingOrders(sheetText: string)
      modifies this
      ensures existingOrders == OrdersOf(sheetText)
      ensures layout == old(layout) && selectedSize == old(selectedSize) && selected == old(selected) && mapping == old(mapping)
    {
      existingOrders := ParseExistingOrders(sheetText);
    }

    /** `fetchAndMapData`: with a selection and some candidate names, the
        i-th smallest selected cell gets the i-th name when it is non-empty,
        other cells keep their entries, and the selection is cleared. */
    method AutoMap(items: seq<OrderItem>, sheetText: string, rules: Rules) returns (outcome: MapOutcome)
      modifies this
      ensures old(selected) == {} ==> outcome == NoSelection
      ensures old(selected) != {} && CandidateNames(items, sheetText, old(selectedSize), rules) == [] ==> outcome == NoMatches
      ensures outcome == Mapped <==> old(selected) != {} && CandidateNames(items, sheetText, old(selectedSize), rules) != []
      ensures outcome != Mapped ==> selected == old(selected) && mapping == old(mapping)
      ensures outcome == Mapped ==> (old(selected) != {} && selected == {} &&
        mapping == MappedAfter(old(mapping), old(selected), CandidateNames(items, sheetText, old(selectedSize), rules)))
      ensures layout == old(layout) && selectedSize == old(selectedSize) && existingOrders == old(existingOrders)
    {
      if selected == {} {
        return NoSelection;
      }
      var names := CandidateNames(items, sheetText, selectedSize, rules);
      if names == [] {
        return NoMatches;
      }
      var sortedTarget := SortedIndices(selected);
      var newMappings := Assign(mapping, sortedTarget, names);
      AssignedIsMappedAfter(mapping, selected, sortedTarget, names);
      mapping := newMappings;
      selected := {};
      outcome := Mapped;
    }
  }
}
