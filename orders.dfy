/** The order list behind the import screen: the trailing-blank-row rule,
    effective order numbers, the row edits, the delimited-text importer and
    the payload sent to the spreadsheet. */
module OrderImport {
  import opened Text
  import opened Types

  // ---------------------------------------------------------------------
  // Rows and the trailing blank row
  // ---------------------------------------------------------------------

  /** All three fields are blank after trimming. */
  predicate IsBlank(item: OrderItem) {
    Trim(item.orderNumber) == "" && Trim(item.productTitle) == "" && Trim(item.size) == ""
  }

  /** Some field is a non-empty string (the truthiness test the sync and the
      label mapper apply, without trimming). */
  predicate HasContent(item: OrderItem) {
    item.orderNumber != "" || item.productTitle != "" || item.size != ""
  }

  function BlankRow(id: Id): OrderItem {
    OrderItem(id, "", "", "")
  }

  /** `ensureTrailingBlank`: appends a blank row unless the list already ends
      in one. */
  function EnsureTrailingBlank(list: seq<OrderItem>, freshId: Id): (r: seq<OrderItem>)
    ensures |r| > 0 && IsBlank(r[|r| - 1])
    ensures r == list || r == list + [BlankRow(freshId)]
    ensures r == list <==> list != [] && IsBlank(list[|list| - 1])
  {
    if list == [] then [BlankRow(freshId)]
    else if IsBlank(list[|list| - 1]) then list
    else list + [BlankRow(freshId)]
  }

  /** Restoring the trailing blank row a second time changes nothing. */
  lemma EnsureTrailingBlankIdempotent(list: seq<OrderItem>, id1: Id, id2: Id)
    ensures EnsureTrailingBlank(EnsureTrailingBlank(list, id1), id2) == EnsureTrailingBlank(list, id1)
  {
  }

  // ---------------------------------------------------------------------
  // Effective order numbers
  // ---------------------------------------------------------------------

  /** A row's own trimmed order number when it has one, else the carried one. */
  function OwnOr(orderNumber: string, carried: string): string {
    var own := Trim(orderNumber);
    if own != "" then own else carried
  }

  /** The carried order number after a scan of `orders`: the last non-empty
      trimmed entry, or "" when there is none. */
  function LastOrder(orders: seq<string>): string {
    if orders == [] then "" else OwnOr(orders[|orders| - 1], LastOrder(orders[..|orders| - 1]))
  }

  function OrderNumbers(items: seq<OrderItem>): (r: seq<string>)
    ensures |r| == |items| && forall k :: 0 <= k < |items| ==> r[k] == items[k].orderNumber
  {
    seq(|items|, k requires 0 <= k < |items| => items[k].orderNumber)
  }

  /** A row together with the order number it belongs to. */
  datatype Annotated = Annotated(item: OrderItem, effectiveOrder: string)

  /** `itemsWithEffectiveOrders`: each row paired with its own trimmed order
      number, or else the order number carried from the rows before it. */
  function Annotate(items: seq<OrderItem>): (r: seq<Annotated>)
    ensures |r| == |items|
    ensures forall k :: 0 <= k < |items| ==> r[k].item == items[k]
  {
    seq(|items|, k requires 0 <= k < |items| => Annotated(items[k], OwnOr(items[k].orderNumber, LastOrder(OrderNumbers(items[..k])))))
  }

  lemma OrderNumbersSnoc(s: seq<OrderItem>, x: OrderItem)
    ensures OrderNumbers(s + [x]) == OrderNumbers(s) + [x.orderNumber]
  {
  }

  lemma OrderNumbersPrefix(s: seq<OrderItem>, n: nat)
    requires n <= |s|
    ensures OrderNumbers(s[..n]) == OrderNumbers(s)[..n]
  {
  }

  lemma LastOrderSnoc(os: seq<string>, o: string)
    ensures LastOrder(os + [o]) == OwnOr(o, LastOrder(os))
  {
    assert (os + [o])[..|os|] == os;
  }

  lemma AnnotateSnoc(s: seq<OrderItem>, x: OrderItem)
    ensures Annotate(s + [x]) == Annotate(s) + [Annotated(x, OwnOr(x.orderNumber, LastOrder(OrderNumbers(s))))]
  {
    var t := s + [x];
    forall k | 0 <= k < |s| ensures t[..k] == s[..k] { }
    assert t[..|s|] == s;
  }

  /** The annotation of a prefix is the prefix of the annotation. */
  lemma AnnotatePrefix(items: seq<OrderItem>, n: nat)
    requires n <= |items|
    ensures Annotate(items[..n]) == Annotate(items)[..n]
  {
    var p := items[..n];
    forall k | 0 <= k < n ensures p[..k] == items[..k] { }
  }

  /** The carried order number is "" exactly when every entry trims to "". */
  lemma {:induction false} LastOrderEmpty(os: seq<string>)
    ensures LastOrder(os) == "" <==> forall j :: 0 <= j < |os| ==> Trim(os[j]) == ""
  {
    if os != [] {
      var n := |os| - 1;
      var init := os[..n];
      LastOrderEmpty(init);
      if Trim(os[n]) != "" {
        LastOrderOwn(os);
      } else {
        LastOrderCarried(os);
        BlankEntriesSnoc(os, init);
      }
    }
  }

  /** A blank last entry leaves the all-blank test to the entries before it. */
  lemma BlankEntriesSnoc(os: seq<string>, init: seq<string>)
    requires os != [] && Trim(os[|os| - 1]) == "" && init == os[..|os| - 1]
    ensures (forall j :: 0 <= j < |os| ==> Trim(os[j]) == "") <==>
            (forall j :: 0 <= j < |init| ==> Trim(init[j]) == "")
  {
    assert forall j :: 0 <= j < |init| ==> init[j] == os[j];
  }

  /** Entry j holds the carried order number, and every later entry trims
      to "". */
  predicate NearestAt(os: seq<string>, j: int) {
    0 <= j < |os| && LastOrder(os) == Trim(os[j]) && forall m :: j < m < |os| ==> Trim(os[m]) == ""
  }

  lemma LastOrderOwn(os: seq<string>)
    requires os != [] && Trim(os[|os| - 1]) != ""
    ensures NearestAt(os, |os| - 1)
  {
  }

  lemma LastOrderCarried(os: seq<string>)
    requires os != [] && Trim(os[|os| - 1]) == ""
    ensures LastOrder(os) == LastOrder(os[..|os| - 1])
  {
  }

  lemma NearestAtExtend(os: seq<string>, j: int)
    requires os != [] && Trim(os[|os| - 1]) == "" && NearestAt(os[..|os| - 1], j)
    ensures NearestAt(os, j)
  {
    var n := |os| - 1;
    var init := os[..n];
    assert init[j] == os[j];
    forall m | j < m < |os| ensures Trim(os[m]) == "" {
      if m < n { assert init[m] == os[m]; }
    }
  }

  /** A non-empty carried order number is the trimmed entry at some position
      after which every entry trims to "". */
  lemma {:induction false} LastOrderNearest(os: seq<string>)
    requires LastOrder(os) != ""
    ensures exists j :: NearestAt(os, j)
  {
    if Trim(os[|os| - 1]) != "" {
      LastOrderOwn(os);
    } else {
      LastOrderCarried(os);
      LastOrderNearest(os[..|os| - 1]);
      var j :| NearestAt(os[..|os| - 1], j);
      NearestAtExtend(os, j);
    }
  }

  /** One step of the scan: the annotation and the carried order number for a
      list with one more row. */
  lemma ScanStep(items: seq<OrderItem>, i: nat)
    requires i < |items|
    ensures Annotate(items[..i + 1]) ==
      Annotate(items[..i]) + [Annotated(items[i], OwnOr(items[i].orderNumber, LastOrder(OrderNumbers(items[..i]))))]
    ensures LastOrder(OrderNumbers(items[..i + 1])) == OwnOr(items[i].orderNumber, LastOrder(OrderNumbers(items[..i])))
  {
    assert items[..i + 1] == items[..i] + [items[i]];
    AnnotateSnoc(items[..i], items[i]);
    OrderNumbersSnoc(items[..i], items[i]);
    LastOrderSnoc(OrderNumbers(items[..i]), items[i].orderNumber);
  }

  /** Row k's effective order: its own trimmed order number if non-empty,
      otherwise the carried order number of the rows before it; either way
      it is the carried order number once row k has been scanned. */
  lemma EffectiveOrderAt(items: seq<OrderItem>, k: nat)
    requires k < |items|
    ensures Annotate(items)[k].effectiveOrder == OwnOr(items[k].orderNumber, LastOrder(OrderNumbers(items[..k])))
    ensures Annotate(items)[k].effectiveOrder == LastOrder(OrderNumbers(items[..k + 1]))
  {
    ScanStep(items, k);
    AnnotatePrefix(items, k + 1);
    assert Annotate(items)[k] == Annotate(items[..k + 1])[k];
  }

  /** The carried order number before row k is "" exactly when no earlier
      row has an order number of its own. */
  lemma CarriedEmpty(items: seq<OrderItem>, k: nat)
    requires k <= |items|
    ensures LastOrder(OrderNumbers(items[..k])) == "" <==> forall j :: 0 <= j < k ==> Trim(items[j].orderNumber) == ""
  {
    var os := OrderNumbers(items[..k]);
    LastOrderEmpty(os);
    assert forall j :: 0 <= j < k ==> os[j] == items[j].orderNumber;
  }

  /** A row's effective order is empty exactly when neither it nor any
      earlier row has an order number of its own. */
  lemma EffectiveOrderEmpty(items: seq<OrderItem>, k: nat)
    requires k < |items|
    ensures Annotate(items)[k].effectiveOrder == "" <==> forall j :: 0 <= j <= k ==> Trim(items[j].orderNumber) == ""
  {
    EffectiveOrderAt(items, k);
    CarriedEmpty(items, k);
  }

  /** The memoised scan with its mutable `lastOrder`. */
  method EffectiveOrders(items: seq<OrderItem>) returns (r: seq<Annotated>)
    ensures r == Annotate(items)
  {
    var lastOrder := "";
    r := [];
    for i := 0 to |items|
      invariant r == Annotate(items[..i])
      invariant lastOrder == LastOrder(OrderNumbers(items[..i]))
    {
      var currentOrder := Trim(items[i].orderNumber);
      var effective := if currentOrder != "" then currentOrder else lastOrder;
      if currentOrder != "" {
        lastOrder := currentOrder;
      }
      ScanStep(items, i);
      r := r + [Annotated(items[i], effective)];
    }
    assert items[..|items|] == items;
  }

  // ---------------------------------------------------------------------
  // Group delete
  // ---------------------------------------------------------------------

  /** The rows whose effective order differs from `target`, in their order. */
  function OutsideGroup(ann: seq<Annotated>, target: string): (r: seq<OrderItem>)
    ensures |r| <= |ann|
  {
    if ann == [] then []
    else
      var last := ann[|ann| - 1];
      OutsideGroup(ann[..|ann| - 1], target) + (if last.effectiveOrder != target then [last.item] else [])
  }

  /** A row survives the group delete exactly when it is some row whose
      effective order is not the target. */
  lemma {:induction false} OutsideGroupMembers(ann: seq<Annotated>, target: string, x: OrderItem)
    ensures x in OutsideGroup(ann, target) <==>
      exists k :: 0 <= k < |ann| && ann[k].item == x && ann[k].effectiveOrder != target
  {
    if ann != [] {
      var init := ann[..|ann| - 1];
      OutsideGroupMembers(init, target, x);
      assert forall k :: 0 <= k < |init| ==> init[k] == ann[k];
    }
  }

  /** With no row in the target group, nothing is removed. */
  lemma {:induction false} OutsideGroupNone(ann: seq<Annotated>, target: string)
    requires forall k :: 0 <= k < |ann| ==> ann[k].effectiveOrder != target
    ensures OutsideGroup(ann, target) == seq(|ann|, k requires 0 <= k < |ann| => ann[k].item)
  {
    if ann != [] {
      OutsideGroupNone(ann[..|ann| - 1], target);
    }
  }

  lemma OutsideGroupStep(items: seq<OrderItem>, i: nat, target: string)
    requires i < |items|
    ensures LastOrder(OrderNumbers(items[..i + 1])) == OwnOr(items[i].orderNumber, LastOrder(OrderNumbers(items[..i])))
    ensures OutsideGroup(Annotate(items[..i + 1]), target) == OutsideGroup(Annotate(items[..i]), target)
      + (if OwnOr(items[i].orderNumber, LastOrder(OrderNumbers(items[..i]))) != target then [items[i]] else [])
  {
    ScanStep(items, i);
    var a := Annotate(items[..i + 1]);
    assert a[..i] == Annotate(items[..i]);
  }

  /** The confirm handler's filter, which re-derives effective orders with its
      own `currentLastOrder` while it filters. */
  method DeleteGroupFilter(items: seq<OrderItem>, target: string) returns (r: seq<OrderItem>)
    ensures r == OutsideGroup(Annotate(items), target)
  {
    var currentLastOrder := "";
    r := [];
    for i := 0 to |items|
      invariant r == OutsideGroup(Annotate(items[..i]), target)
      invariant currentLastOrder == LastOrder(OrderNumbers(items[..i]))
    {
      var itemOrder := Trim(items[i].orderNumber);
      var itemEffective := if itemOrder != "" then itemOrder else currentLastOrder;
      if itemOrder != "" {
        currentLastOrder := itemOrder;
      }
      OutsideGroupStep(items, i, target);
      if itemEffective != target {
        r := r + [items[i]];
      }
    }
    assert items[..|items|] == items;
  }

  // ---------------------------------------------------------------------
  // Delimited-text import (`processCSV`)
  // ---------------------------------------------------------------------

  /** The three cell values of an imported row. */
  datatype Entry = Entry(orderNumber: string, productTitle: string, size: string)

  /** An accepted line: the row it describes and how many copies to add. */
  datatype ParsedLine = ParsedLine(entry: Entry, copies: nat)

  /** The lines of the text, CRLF or LF separated, that are not blank. */
  function NonBlankLines(parts: seq<string>): seq<string> {
    if parts == [] then []
    else
      var last := parts[|parts| - 1];
      NonBlankLines(parts[..|parts| - 1]) + (if Trim(last) != "" then [last] else [])
  }

  /** The lines kept are exactly the lines that do not trim to "". */
  lemma {:induction false} NonBlankLinesMembers(parts: seq<string>)
    ensures forall l :: l in NonBlankLines(parts) <==> l in parts && Trim(l) != ""
  {
    if parts != [] {
      var init, last := parts[..|parts| - 1], parts[|parts| - 1];
      assert parts == init + [last];
      NonBlankLinesMembers(init);
    }
  }

  lemma NonBlankLinesSnoc(parts: seq<string>, l: string)
    ensures NonBlankLines(parts + [l]) == NonBlankLines(parts) + (if Trim(l) != "" then [l] else [])
  {
    assert (parts + [l])[..|parts|] == parts;
  }

  /** One line is kept exactly when it is not blank. */
  lemma NonBlankLinesOfLine(l: string)
    ensures NonBlankLines([l]) == if Trim(l) != "" then [l] else []
  {
    assert [l][..0] == [];
  }

  /** The filter distributes over concatenation, so the lines kept stay in
      their order and a repeated line is kept as often as it occurs. */
  lemma {:induction false} NonBlankLinesAppend(a: seq<string>, b: seq<string>)
    ensures NonBlankLines(a + b) == NonBlankLines(a) + NonBlankLines(b)
    decreases |b|
  {
    if b == [] {
      assert a + b == a;
    } else {
      var b0, x := b[..|b| - 1], b[|b| - 1];
      assert b == b0 + [x];
      assert a + b == (a + b0) + [x];
      NonBlankLinesAppend(a, b0);
      NonBlankLinesSnoc(a + b0, x);
      NonBlankLinesSnoc(b0, x);
      Regroup(NonBlankLines(a), NonBlankLines(b0), if Trim(x) != "" then [x] else []);
    }
  }

  /** A line is tab separated exactly when it contains a tab. */
  function Columns(line: string): (r: seq<string>)
    ensures '\t' in line ==> forall i :: 0 <= i < |r| ==> '\t' !in r[i]
    ensures '\t' !in line ==> forall i :: 0 <= i < |r| ==> ',' !in r[i]
  {
    if '\t' in line then Split(line, '\t') else Split(line, ',')
  }

  /** One surrounding quote removed at each end, then trimmed. */
  function CleanColumn(c: string): (r: string)
    ensures r == [] || (!IsSpace(r[0]) && !IsSpace(r[|r| - 1]))
  {
    Trim(StripQuotes(c))
  }

  /** `parseInt(cols[3] || '1', 10)` read as a loop bound: a missing or empty
      fourth column means one copy, and a value that is not a number or is
      negative means none. */
  function Quantity(cols: seq<string>): nat {
    var q := if |cols| > 3 && cols[3] != "" then cols[3] else "1";
    match ParseInt(q)
    case None => 0
    case Some(n) => if n < 0 then 0 else n
  }

  /** The order name's digits in order (see `Text.DigitsAppend` and
      `Text.DigitsOfChar`), or the name itself when it has none. */
  function OrderDigits(raw: string): (r: string)
    ensures HasDigit(raw) ==> r == Digits(raw) && r != [] && AllDigits(r) && |r| <= |raw|
    ensures !HasDigit(raw) ==> r == raw
  {
    var d := Digits(raw);
    if d != "" then d else raw
  }

  /** The product title without a leading "sample -", with whitespace runs
      collapsed and the ends trimmed: it is well spaced. */
  function CleanTitle(raw: string): (r: string)
    ensures WellSpaced(r)
    ensures NonSpace(r) == NonSpace(StripSamplePrefix(raw))
  {
    var c := Collapse(StripSamplePrefix(raw));
    TrimWellSpaced(c);
    TrimKeepsText(c);
    CollapseKeepsText(StripSamplePrefix(raw));
    Trim(c)
  }

  /** An order name such as "#1001" gives the number alone: text without
      digits around a numeral is dropped. */
  lemma {:induction false} OrderDigitsOfName(p: string, n: nat, q: string)
    requires !HasDigit(p) && !HasDigit(q)
    ensures OrderDigits(p + NatToString(n) + q) == NatToString(n)
  {
    var d := NatToString(n);
    DigitsBetween(p, d, q);
    assert Digits(p + d + q) != [];
  }

  /** Cleaning a title never joins two words and never leaves more than one
      space between them: two non-space characters with only whitespace
      between them end up one ' ' apart, or adjacent when nothing was
      between them, and at their own place, with the text before and after
      them in the title being the text before and after them in the input. */
  lemma CleanTitleSpacing(raw: string, p: string, c: char, w: string, d: char, q: string)
    requires StripSamplePrefix(raw) == p + [c] + w + [d] + q
    requires !IsSpace(c) && !IsSpace(d) && forall k :: 0 <= k < |w| ==> IsSpace(w[k])
    ensures exists t1, t2 :: (CleanTitle(raw) == t1 + [c] + (if w == [] then [] else [' ']) + [d] + t2
      && NonSpace(t1) == NonSpace(p) && NonSpace(t2) == NonSpace(q))
    ensures Contains(CleanTitle(raw), [c] + (if w == [] then [] else [' ']) + [d])
  {
    var g: string := if w == [] then [] else [' '];
    var m := [c] + g + [d];
    var cs := Collapse(StripSamplePrefix(raw));
    var x := Collapse(p + [c]);
    var x0 := x[..|x| - 1];
    assert cs == x0 + m + Collapse(q) by {
      CollapseBetween(p, c, w, d, q);
      CollapseBefore(p, c);
      RegroupMiddle(x0, [c], g, [d], Collapse(q));
    }
    assert NonSpace(x0) == NonSpace(p) by { CollapseBefore(p, c); }
    assert NonSpace(Collapse(q)) == NonSpace(q) by { CollapseKeepsText(q); }
    assert m[0] == c && m[|m| - 1] == d;
    TrimAround(cs, x0, m, Collapse(q));
    var t1, t2 :| Trim(cs) == t1 + m + t2 && NonSpace(t1) == NonSpace(x0) && NonSpace(t2) == NonSpace(Collapse(q));
    assert CleanTitle(raw) == t1 + [c] + g + [d] + t2 by { RegroupMiddle(t1, [c], g, [d], t2); }
    CollapseBetween(p, c, w, d, q);
    ContainsTrimmed(cs, m);
  }

  /** In particular the title starts with its first two words' characters
      around the first gap and that gap, as in "a b a b", which cleans to a
      title starting "a b", not "ab". */
  lemma CleanTitleFirstGap(raw: string, c: char, w: string, d: char, q: string)
    requires StripSamplePrefix(raw) == [c] + w + [d] + q
    requires !IsSpace(c) && !IsSpace(d) && forall k :: 0 <= k < |w| ==> IsSpace(w[k])
    ensures var m := [c] + (if w == [] then [] else [' ']) + [d];
      |m| <= |CleanTitle(raw)| && CleanTitle(raw)[..|m|] == m
  {
    var g: string := if w == [] then [] else [' '];
    var m := [c] + g + [d];
    assert [] + [c] + w + [d] + q == [c] + w + [d] + q;
    CleanTitleSpacing(raw, [], c, w, d, q);
    var t1, t2 :| CleanTitle(raw) == t1 + [c] + (if w == [] then [] else [' ']) + [d] + t2
      && NonSpace(t1) == NonSpace([]) && NonSpace(t2) == NonSpace(q);
    assert CleanTitle(raw) == t1 + (m + t2) by {
      RegroupMiddle(t1, [c], g, [d], t2);
      Regroup(t1, m, t2);
    }
    assert NonSpace(t1) == [] && WellSpaced(CleanTitle(raw));
    NoTextBeforeStart(CleanTitle(raw), t1, m + t2);
    assert CleanTitle(raw) == m + t2;
  }

  /** A "Sample - " title keeps only the text after the prefix. */
  lemma CleanTitleOfSample(raw: string, p: string, w1: string, w2: string, rest: string)
    requires SampleSplit(raw, p, w1, w2, rest)
    ensures NonSpace(CleanTitle(raw)) == NonSpace(rest)
  {
    StripSampleRemoves(raw, p, w1, w2, rest);
  }

  /** A line with fewer than three columns is skipped; otherwise its cleaned
      columns give the row. */
  function ParseLine(line: string): (r: Option<ParsedLine>)
    ensures r.None? <==> |Columns(line)| < 3
  {
    var raw := Columns(line);
    if |raw| < 3 then None
    else
      var cols := seq(|raw|, i requires 0 <= i < |raw| => CleanColumn(raw[i]));
      Some(ParsedLine(Entry(OrderDigits(cols[0]), CleanTitle(cols[1]), FirstNumber(cols[2])), Quantity(cols)))
  }

  function Repeat(e: Entry, n: nat): (r: seq<Entry>)
    ensures |r| == n && forall k :: 0 <= k < n ==> r[k] == e
  {
    if n == 0 then [] else Repeat(e, n - 1) + [e]
  }

  /** Each line parsed on its own. */
  function ParseAll(lines: seq<string>): (r: seq<Option<ParsedLine>>)
    ensures |r| == |lines| && forall j :: 0 <= j < |lines| ==> r[j] == ParseLine(lines[j])
  {
    seq(|lines|, j requires 0 <= j < |lines| => ParseLine(lines[j]))
  }

  /** The rows one parsed line contributes. */
  function LineEntries(p: Option<ParsedLine>): seq<Entry> {
    match p
    case None => []
    case Some(p) => Repeat(p.entry, p.copies)
  }

  /** The rows the parsed lines contribute, in line order. */
  function Entries(ps: seq<Option<ParsedLine>>): seq<Entry> {
    if ps == [] then [] else Entries(ps[..|ps| - 1]) + LineEntries(ps[|ps| - 1])
  }

  /** Rows with consecutive fresh ids starting at `firstId`. */
  function WithIds(es: seq<Entry>, firstId: Id): (r: seq<OrderItem>)
    ensures |r| == |es|
    ensures forall k :: 0 <= k < |es| ==> r[k] == OrderItem(firstId + k, es[k].orderNumber, es[k].productTitle, es[k].size)
  {
    seq(|es|, k requires 0 <= k < |es| => OrderItem(firstId + k, es[k].orderNumber, es[k].productTitle, es[k].size))
  }

  /** The lines of the text that are not blank. */
  function AcceptedLines(text: string): seq<string> {
    NonBlankLines(SplitLines(text))
  }

  /** The imported rows with fresh ids, then the trailing blank row. */
  function ImportList(es: seq<Entry>, firstId: Id): seq<OrderItem> {
    EnsureTrailingBlank(WithIds(es, firstId), firstId + |es|)
  }

  /** The list an import replaces the order list with, or `None` when the
      text has no non-blank line and the list is left alone. */
  function ImportRows(text: string, firstId: Id): Option<seq<OrderItem>> {
    var lines := AcceptedLines(text);
    if lines == [] then None else Some(ImportList(Entries(ParseAll(lines)), firstId))
  }

  lemma WithIdsSnoc(es: seq<Entry>, e: Entry, firstId: Id)
    ensures WithIds(es + [e], firstId) ==
      WithIds(es, firstId) + [OrderItem(firstId + |es|, e.orderNumber, e.productTitle, e.size)]
  {
  }

  lemma EntriesStep(ps: seq<Option<ParsedLine>>, j: nat)
    requires j < |ps|
    ensures Entries(ps[..j + 1]) == Entries(ps[..j]) + LineEntries(ps[j])
  {
    assert ps[..j + 1][..j] == ps[..j];
  }

  /** Ids keep counting across two groups of rows. */
  lemma WithIdsAppend(a: seq<Entry>, b: seq<Entry>, firstId: Id)
    ensures WithIds(a + b, firstId) == WithIds(a, firstId) + WithIds(b, firstId + |a|)
  {
  }

  /** One more copy pushed with the next id. */
  lemma PushCopy(pushed: seq<OrderItem>, e: Entry, k: nat, nextId: Id)
    requires pushed == WithIds(Repeat(e, k), nextId)
    ensures pushed + [OrderItem(nextId + k, e.orderNumber, e.productTitle, e.size)] == WithIds(Repeat(e, k + 1), nextId)
  {
    WithIdsSnoc(Repeat(e, k), e, nextId);
  }

  /** The inner push loop: `n` copies of one row with consecutive ids. */
  method PushCopies(newItems: seq<OrderItem>, e: Entry, n: nat, firstId: Id) returns (r: seq<OrderItem>)
    ensures r == newItems + WithIds(Repeat(e, n), firstId + |newItems|)
  {
    r := newItems;
    ghost var pushed: seq<OrderItem> := [];
    for i := 0 to n
      invariant pushed == WithIds(Repeat(e, i), firstId + |newItems|)
      invariant r == newItems + pushed
    {
      PushCopy(pushed, e, i, firstId + |newItems|);
      r := r + [OrderItem(firstId + |r|, e.orderNumber, e.productTitle, e.size)];
      pushed := pushed + [OrderItem(firstId + |newItems| + i, e.orderNumber, e.productTitle, e.size)];
    }
  }

  /** The body of the per-line callback: parses the line and, when it is
      accepted, pushes its row as many times as its quantity says. */
  method PushLine(newItems: seq<OrderItem>, line: string, firstId: Id) returns (r: seq<OrderItem>)
    ensures r == newItems + WithIds(LineEntries(ParseLine(line)), firstId + |newItems|)
  {
    var parsed := ParseLine(line);
    if parsed.None? {
      return newItems;
    }
    r := PushCopies(newItems, parsed.value.entry, parsed.value.copies, firstId);
  }

  /** The built rows with the trailing blank keyed by their own count are
      the import list. */
  lemma ImportListOf(es: seq<Entry>, firstId: Id, newItems: seq<OrderItem>)
    requires newItems == WithIds(es, firstId)
    ensures ImportList(es, firstId) == EnsureTrailingBlank(newItems, firstId + |newItems|)
  {
    assert |newItems| == |es|;
  }

  lemma LineStep(ps: seq<Option<ParsedLine>>, j: nat, firstId: Id, before: seq<OrderItem>, after: seq<OrderItem>)
    requires j < |ps| && before == WithIds(Entries(ps[..j]), firstId)
    requires after == before + WithIds(LineEntries(ps[j]), firstId + |before|)
    ensures after == WithIds(Entries(ps[..j + 1]), firstId)
  {
    EntriesStep(ps, j);
    WithIdsAppend(Entries(ps[..j]), LineEntries(ps[j]), firstId);
  }

  /** The per-line callback run on each line in order. */
  method PushLines(lines: seq<string>, firstId: Id) returns (newItems: seq<OrderItem>)
    ensures newItems == WithIds(Entries(ParseAll(lines)), firstId)
  {
    ghost var ps := ParseAll(lines);
    newItems := [];
    for j := 0 to |lines|
      invariant newItems == WithIds(Entries(ps[..j]), firstId)
    {
      var next := PushLine(newItems, lines[j], firstId);
      LineStep(ps, j, firstId, newItems, next);
      newItems := next;
    }
    assert ps[..|ps|] == ps;
  }

  /** `processCSV`: drops the blank lines and runs the per-line callback on
      each remaining line in order. */
  method ProcessCSV(text: string, firstId: Id) returns (r: Option<seq<OrderItem>>)
    ensures r == ImportRows(text, firstId)
  {
    var lines := AcceptedLines(text);
    if lines == [] {
      return None;
    }
    var newItems := PushLines(lines, firstId);
    ImportListOf(Entries(ParseAll(lines)), firstId, newItems);
    r := Some(EnsureTrailingBlank(newItems, firstId + |newItems|));
  }

  /** An import leaves the list alone exactly when every line of the text is
      blank. */
  lemma ImportNoneIffBlank(text: string, firstId: Id)
    ensures ImportRows(text, firstId).None? <==> forall l :: l in SplitLines(text) ==> Trim(l) == ""
  {
    var lines := AcceptedLines(text);
    NonBlankLinesMembers(SplitLines(text));
    if lines != [] {
      assert lines[0] in lines;
    }
  }

  lemma EntriesSnoc(ps: seq<Option<ParsedLine>>, p: Option<ParsedLine>)
    ensures Entries(ps + [p]) == Entries(ps) + LineEntries(p)
  {
    assert (ps + [p])[..|ps|] == ps;
  }

  /** The parsed lines' rows appended group by group. */
  lemma {:induction false} EntriesAppend(a: seq<Option<ParsedLine>>, b: seq<Option<ParsedLine>>)
    ensures Entries(a + b) == Entries(a) + Entries(b)
    decreases |b|
  {
    if b == [] {
      assert a + b == a;
    } else {
      var b0, x := b[..|b| - 1], b[|b| - 1];
      assert b == b0 + [x];
      assert a + b == (a + b0) + [x];
      EntriesAppend(a, b0);
      EntriesSnoc(a + b0, x);
      EntriesSnoc(b0, x);
    }
  }

  /** Every imported row is the row of some accepted line. */
  lemma {:induction false} EntriesFromLines(ps: seq<Option<ParsedLine>>, k: nat)
    requires k < |Entries(ps)|
    ensures exists j :: 0 <= j < |ps| && ps[j].Some? && Entries(ps)[k] == ps[j].value.entry
  {
    var init := ps[..|ps| - 1];
    var last := ps[|ps| - 1];
    if k < |Entries(init)| {
      EntriesFromLines(init, k);
      var j :| 0 <= j < |init| && init[j].Some? && Entries(init)[k] == init[j].value.entry;
      assert init[j] == ps[j];
    } else {
      assert last.Some?;
      assert Entries(ps)[k] == last.value.entry;
    }
  }

  /** The cell values an import can produce: a well-spaced title, a size
      that is empty or a decimal numeral, and an order number that is a
      non-empty digit string or has no digit at all. */
  predicate CleanRow(orderNumber: string, productTitle: string, size: string) {
    WellSpaced(productTitle) && (size == "" || IsDecimal(size)) &&
    ((orderNumber != "" && AllDigits(orderNumber)) || !HasDigit(orderNumber))
  }

  /** Every accepted line's row is clean. */
  lemma ParsedRowClean(line: string)
    requires ParseLine(line).Some?
    ensures var e := ParseLine(line).value.entry; CleanRow(e.orderNumber, e.productTitle, e.size)
  {
  }

  /** Every row the parsed lines contribute is clean. */
  lemma EntryClean(ps: seq<Option<ParsedLine>>, lines: seq<string>, k: nat)
    requires ps == ParseAll(lines) && k < |Entries(ps)|
    ensures CleanRow(Entries(ps)[k].orderNumber, Entries(ps)[k].productTitle, Entries(ps)[k].size)
  {
    EntriesFromLines(ps, k);
    var j :| 0 <= j < |ps| && ps[j].Some? && Entries(ps)[k] == ps[j].value.entry;
    ParsedRowClean(lines[j]);
  }

  /** So every row of an import result is clean, the trailing blank row
      included. */
  lemma ImportedRowShape(text: string, firstId: Id, k: nat)
    requires ImportRows(text, firstId).Some? && k < |ImportRows(text, firstId).value|
    ensures var row := ImportRows(text, firstId).value[k];
      CleanRow(row.orderNumber, row.productTitle, row.size)
  {
    var lines := AcceptedLines(text);
    var ps := ParseAll(lines);
    var es := Entries(ps);
    var w := WithIds(es, firstId);
    var r := ImportList(es, firstId);
    assert ImportRows(text, firstId).value == r;
    if k < |es| {
      EntryClean(ps, lines, k);
      assert r[k] == w[k];
    } else {
      assert r[k] == BlankRow(firstId + |es|);
    }
  }

  /** A line with a fourth column holding the numeral of n yields n copies,
      one holding a negative numeral yields none, and one without a fourth
      column yields one. */
  lemma QuantityOfNumeral(cols: seq<string>, n: nat)
    ensures |cols| <= 3 ==> Quantity(cols) == 1
    ensures |cols| > 3 && cols[3] == NatToString(n) ==> Quantity(cols) == n
    ensures |cols| > 3 && cols[3] == "-" + NatToString(n) ==> Quantity(cols) == 0
  {
    ParseIntOfNatToString(1);
    assert NatToString(1) == "1";
    ParseIntOfNatToString(n);
    ParseIntOfNegative(n);
  }

  /** A fourth column such as " 3 pcs", "+2" or "007" gives that many
      copies, and one with a minus sign gives none. */
  lemma QuantityOfPadded(cols: seq<string>, ws: string, sg: string, zs: string, n: nat, rest: string)
    requires |cols| > 3 && cols[3] == ws + sg + zs + NatToString(n) + rest
    requires forall k :: 0 <= k < |ws| ==> IsSpace(ws[k])
    requires sg == "" || sg == "+" || sg == "-"
    requires (forall k :: 0 <= k < |zs| ==> zs[k] == '0') && (rest == [] || !IsDigit(rest[0]))
    ensures Quantity(cols) == if sg == "-" then 0 else n
  {
    ParseIntOfPadded(ws, sg, zs, n, rest);
    assert |cols[3]| >= |NatToString(n)| > 0;
  }

  /** The imported rows carry fresh consecutive ids and are followed by one
      blank row whose id is the next one. */
  lemma ImportListIds(es: seq<Entry>, firstId: Id)
    ensures forall k :: 0 <= k < |ImportList(es, firstId)| ==> ImportList(es, firstId)[k].id == firstId + k
  {
    var w := WithIds(es, firstId);
    var r := ImportList(es, firstId);
    forall k | 0 <= k < |r| ensures r[k].id == firstId + k {
      if k < |w| {
        assert r[k] == w[k];
      } else {
        assert r[k] == BlankRow(firstId + |es|);
      }
    }
  }

  /** Every row of an import result has ids counting up from the first
      fresh id, and the last row is blank. */
  lemma ImportIds(text: string, firstId: Id)
    requires ImportRows(text, firstId).Some?
    ensures var r := ImportRows(text, firstId).value;
      |r| >= 1 && IsBlank(r[|r| - 1]) && forall k :: 0 <= k < |r| ==> r[k].id == firstId + k
  {
    var es := Entries(ParseAll(AcceptedLines(text)));
    ImportListIds(es, firstId);
    assert ImportRows(text, firstId).value == ImportList(es, firstId);
  }
}
