// Keyset pagination over a table of tasks that may change between two pages.

module TaskOrder {
  import opened JsStrings

  /** The order of the listing: timestamp first, then task id. */
  datatype Key = Key(timestamp: JsString, id: JsString)

  predicate Less(a: JsString, b: JsString) {
    b != [] && (a == [] || a[0] < b[0] || (a[0] == b[0] && Less(a[1..], b[1..])))
  }

  predicate KeyLess(a: Key, b: Key) {
    Less(a.timestamp, b.timestamp) || (a.timestamp == b.timestamp && Less(a.id, b.id))
  }

  lemma {:induction false} LessIsTotal(a: JsString, b: JsString)
    ensures !(Less(a, b) && Less(b, a)) && (Less(a, b) || Less(b, a) || a == b) && !Less(a, a)
    decreases |a|
  {
    if a != [] {
      LessIsTotal(a[1..], a[1..]);
      if b != [] {
        LessIsTotal(a[1..], b[1..]);
      }
    }
  }

  lemma {:induction false} LessIsTransitive(a: JsString, b: JsString, c: JsString)
    requires Less(a, b) && Less(b, c)
    ensures Less(a, c)
    decreases |a|
  {
    if a != [] && a[0] == b[0] == c[0] {
      LessIsTransitive(a[1..], b[1..], c[1..]);
    }
  }

  /** a and b agree in their first n units, and there a ends or has the smaller unit. */
  predicate PartsAt(a: JsString, b: JsString, n: nat) {
    n <= |a| && n < |b| && a[..n] == b[..n] && (n == |a| || a[n] < b[n])
  }

  /** a comes before b, by the first code unit in which they differ. */
  ghost predicate Before(a: JsString, b: JsString) {
    exists n: nat :: PartsAt(a, b, n)
  }

  lemma FirstUnits(a: JsString, b: JsString, n: nat)
    requires PartsAt(a, b, n)
    ensures n > 0 ==> a != [] && b != [] && a[0] == b[0]
  {
    assert n > 0 ==> a[..n][0] == a[0] && b[..n][0] == b[0];
  }

  lemma {:induction false} LessExactly(a: JsString, b: JsString)
    ensures Less(a, b) <==> Before(a, b)
    decreases |a|
  {
    if a == [] || b == [] || a[0] != b[0] {
      if Before(a, b) {
        var n: nat :| PartsAt(a, b, n);
        FirstUnits(a, b, n);
      }
      if Less(a, b) {
        assert PartsAt(a, b, 0);
      }
    } else {
      LessExactly(a[1..], b[1..]);
      if Before(a, b) {
        var n: nat :| PartsAt(a, b, n);
        assert a[1..][..n - 1] == a[..n][1..] && b[1..][..n - 1] == b[..n][1..];
        assert PartsAt(a[1..], b[1..], n - 1);
      }
      if Before(a[1..], b[1..]) {
        var n: nat :| PartsAt(a[1..], b[1..], n);
        assert a[..n + 1] == [a[0]] + a[1..][..n] && b[..n + 1] == [b[0]] + b[1..][..n];
        assert PartsAt(a, b, n + 1);
      }
    }
  }

  /** A key is below another by its timestamp, and at equal timestamps by its id. */
  lemma KeyLessExactly(a: Key, b: Key)
    ensures KeyLess(a, b) <==>
            Before(a.timestamp, b.timestamp) || (a.timestamp == b.timestamp && Before(a.id, b.id))
  {
    LessExactly(a.timestamp, b.timestamp);
    LessExactly(a.id, b.id);
  }

  lemma BeforeIsStrict(a: JsString, b: JsString)
    ensures !(Before(a, b) && Before(b, a)) && !Before(a, a) && (Before(a, b) || Before(b, a) || a == b)
  {
    LessExactly(a, b);
    LessExactly(b, a);
    LessExactly(a, a);
    LessIsTotal(a, b);
  }

  /** A strict total order, quantified so that the proofs below can lean on it. */
  lemma KeyOrder()
    ensures forall a: Key :: !KeyLess(a, a)
    ensures forall a: Key, b: Key :: KeyLess(a, b) || KeyLess(b, a) || a == b
    ensures forall a: Key, b: Key, c: Key :: KeyLess(a, b) && KeyLess(b, c) ==> KeyLess(a, c)
  {
    forall a: Key, b: Key
      ensures KeyLess(a, b) || KeyLess(b, a) || a == b
      ensures !KeyLess(a, a)
    {
      LessIsTotal(a.timestamp, b.timestamp);
      LessIsTotal(a.id, b.id);
      LessIsTotal(a.timestamp, a.timestamp);
      LessIsTotal(a.id, a.id);
    }
    forall a: Key, b: Key, c: Key | KeyLess(a, b) && KeyLess(b, c) ensures KeyLess(a, c) {
      if Less(a.timestamp, b.timestamp) && Less(b.timestamp, c.timestamp) {
        LessIsTransitive(a.timestamp, b.timestamp, c.timestamp);
      } else if a.timestamp == b.timestamp == c.timestamp {
        LessIsTransitive(a.id, b.id, c.id);
      }
    }
  }
}

module TaskPages {
  import opened Common
  import opened JsStrings
  import opened TaskOrder
  import opened Utf16

  /**
   * A row as the listing sees it.  `id` is the row's own id, `taskId` that of the task it
   * decodes to, which sanitising may have changed; `decodes` says whether it can be read.
   */
  datatype Item = Item(
    id: JsString, taskId: JsString, timestamp: JsString, tenant: JsString, owner: JsString,
    contextId: JsString, state: nat, decodes: bool)

  /** Empty strings and state 0 stand for filters that were not given. */
  datatype Query = Query(tenant: JsString, owner: JsString, contextId: JsString, state: nat, after: JsString)

  datatype Page = Page(items: seq<Item>, next: Option<Key>)

  /** The database orders and filters by row, the code by task. */
  datatype Ordering = ByRow | ByTask

  function KeyBy(o: Ordering, x: Item): Key {
    Key(x.timestamp, if o.ByRow? then x.id else x.taskId)
  }

  function KeyOf(x: Item): Key {
    KeyBy(ByRow, x)
  }

  function TaskKey(x: Item): Key {
    KeyBy(ByTask, x)
  }

  predicate Matches(q: Query, x: Item) {
    && x.tenant == q.tenant && x.owner == q.owner
    && (q.contextId == [] || x.contextId == q.contextId)
    && (q.state == 0 || x.state == q.state)
    && (q.after == [] || !Less(x.timestamp, q.after))
  }

  predicate Under(k: Key, cursor: Option<Key>) {
    cursor.Some? ==> KeyLess(k, cursor.value)
  }

  predicate Below(x: Item, cursor: Option<Key>) {
    Under(KeyOf(x), cursor)
  }

  function Filter(s: seq<Item>, p: Item -> bool): seq<Item> {
    if s == [] then [] else (if p(s[0]) then [s[0]] else []) + Filter(s[1..], p)
  }

  function Insert(o: Ordering, x: Item, s: seq<Item>): seq<Item> {
    if s == [] || !KeyLess(KeyBy(o, x), KeyBy(o, s[0])) then [x] + s else [s[0]] + Insert(o, x, s[1..])
  }

  /** A stable sort: of items with equal keys the first stays first. */
  function SortDescending(o: Ordering, s: seq<Item>): seq<Item> {
    if s == [] then [] else Insert(o, s[0], SortDescending(o, s[1..]))
  }

  function Take(s: seq<Item>, n: nat): seq<Item> {
    if |s| <= n then s else s[..n]
  }

  /** The rows of the second query without its limit. */
  function Selected(table: seq<Item>, q: Query, cursor: Option<Key>): seq<Item> {
    SortDescending(ByRow, Filter(table, (x: Item) => Matches(q, x) && Below(x, cursor)))
  }

  /** The rows the page looks at, the look-ahead row included. */
  function Window(table: seq<Item>, q: Query, cursor: Option<Key>, pageSize: nat): seq<Item> {
    Take(Selected(table, q, cursor), pageSize + 1)
  }

  /** What decodes and passes the same filters, order and cursor once more in memory. */
  function Remaining(rows: seq<Item>, q: Query, cursor: Option<Key>): seq<Item> {
    var visible := SortDescending(ByTask, Filter(rows, (x: Item) => x.decodes && Matches(q, x)));
    Filter(visible, (x: Item) => Under(TaskKey(x), cursor))
  }

  /** The page cut from the rows looked at, and the token that goes with it. */
  function PageFrom(rows: seq<Item>, remaining: seq<Item>, pageSize: nat): Page {
    var page := Take(remaining, pageSize);
    Page(page,
         if page != [] && (|rows| > pageSize || |remaining| > |page|) then Some(TaskKey(page[|page| - 1])) else None)
  }

  function ListPage(table: seq<Item>, q: Query, cursor: Option<Key>, pageSize: nat): Page {
    var rows := Window(table, q, cursor, pageSize);
    PageFrom(rows, Remaining(rows, q, cursor), pageSize)
  }

  // ----- Sorting and filtering -------------------------------------------------------

  ghost predicate Sorted(o: Ordering, s: seq<Item>) {
    forall i, j | 0 <= i < j < |s| :: !KeyLess(KeyBy(o, s[i]), KeyBy(o, s[j]))
  }

  ghost predicate Descending(s: seq<Item>) {
    forall i, j | 0 <= i < j < |s| :: KeyLess(KeyOf(s[j]), KeyOf(s[i]))
  }

  ghost predicate DistinctKeys(s: seq<Item>) {
    forall i, j | 0 <= i < j < |s| :: KeyOf(s[i]) != KeyOf(s[j])
  }

  lemma {:induction false} FilterFacts(s: seq<Item>, p: Item -> bool)
    ensures forall x :: x in Filter(s, p) <==> x in s && p(x)
    ensures |Filter(s, p)| <= |s|
    ensures (forall x | x in s :: p(x)) ==> Filter(s, p) == s
  {
    if s != [] {
      FilterFacts(s[1..], p);
    }
  }

  lemma {:induction false} FilterKeepsOrder(s: seq<Item>, p: Item -> bool)
    requires Descending(s)
    ensures Descending(Filter(s, p))
  {
    if s != [] {
      FilterKeepsOrder(s[1..], p);
      FilterFacts(s[1..], p);
      assert forall x | x in s[1..] :: KeyLess(KeyOf(x), KeyOf(s[0]));
    }
  }

  lemma {:induction false} FilterKeepsSorted(o: Ordering, s: seq<Item>, p: Item -> bool)
    requires Sorted(o, s)
    ensures Sorted(o, Filter(s, p))
  {
    if s != [] {
      FilterKeepsSorted(o, s[1..], p);
      FilterFacts(s[1..], p);
      assert forall x | x in s[1..] :: !KeyLess(KeyBy(o, s[0]), KeyBy(o, x));
    }
  }

  lemma {:induction false} FilterKeepsKeys(s: seq<Item>, p: Item -> bool)
    requires DistinctKeys(s)
    ensures DistinctKeys(Filter(s, p))
  {
    if s != [] {
      FilterKeepsKeys(s[1..], p);
      FilterFacts(s[1..], p);
      assert forall x | x in s[1..] :: KeyOf(x) != KeyOf(s[0]);
    }
  }

  lemma {:induction false} InsertFacts(o: Ordering, x: Item, s: seq<Item>)
    ensures |Insert(o, x, s)| == |s| + 1 && forall y :: y in Insert(o, x, s) <==> y == x || y in s
  {
    if s != [] && KeyLess(KeyBy(o, x), KeyBy(o, s[0])) {
      InsertFacts(o, x, s[1..]);
    }
  }

  /** Whatever the greatest of s does not lie under, nothing of s does. */
  lemma NotUnderFirst(o: Ordering, s: seq<Item>, k: Key)
    requires Sorted(o, s) && s != [] && !KeyLess(k, KeyBy(o, s[0]))
    ensures forall y | y in s :: !KeyLess(k, KeyBy(o, y))
  {
    KeyOrder();
  }

  lemma KeyLessIsAsymmetric(a: Key, b: Key)
    requires KeyLess(a, b)
    ensures !KeyLess(b, a)
  {
    KeyOrder();
  }

  lemma {:induction false} InsertKeepsSorted(o: Ordering, x: Item, s: seq<Item>)
    requires Sorted(o, s)
    ensures Sorted(o, Insert(o, x, s))
  {
    if s == [] {
    } else if KeyLess(KeyBy(o, x), KeyBy(o, s[0])) {
      InsertKeepsSorted(o, x, s[1..]);
      InsertFacts(o, x, s[1..]);
      KeyLessIsAsymmetric(KeyBy(o, x), KeyBy(o, s[0]));
      assert forall y | y in s[1..] :: !KeyLess(KeyBy(o, s[0]), KeyBy(o, y));
    } else {
      NotUnderFirst(o, s, KeyBy(o, x));
    }
  }

  lemma {:induction false} InsertKeepsKeys(o: Ordering, x: Item, s: seq<Item>)
    requires DistinctKeys(s) && forall y | y in s :: KeyOf(y) != KeyOf(x)
    ensures DistinctKeys(Insert(o, x, s))
  {
    if s != [] && KeyLess(KeyBy(o, x), KeyBy(o, s[0])) {
      InsertKeepsKeys(o, x, s[1..]);
      InsertFacts(o, x, s[1..]);
      assert s[0] in s;
      assert forall y | y in s[1..] :: KeyOf(y) != KeyOf(s[0]);
    }
  }

  lemma {:induction false} SortFacts(o: Ordering, s: seq<Item>)
    ensures Sorted(o, SortDescending(o, s)) && |SortDescending(o, s)| == |s|
    ensures forall x :: x in SortDescending(o, s) <==> x in s
  {
    if s != [] {
      SortFacts(o, s[1..]);
      InsertFacts(o, s[0], SortDescending(o, s[1..]));
      InsertKeepsSorted(o, s[0], SortDescending(o, s[1..]));
    }
  }

  lemma {:induction false} SortKeepsKeys(o: Ordering, s: seq<Item>)
    requires DistinctKeys(s)
    ensures DistinctKeys(SortDescending(o, s))
  {
    if s != [] {
      SortFacts(o, s[1..]);
      SortKeepsKeys(o, s[1..]);
      assert forall y | y in s[1..] :: KeyOf(y) != KeyOf(s[0]);
      InsertKeepsKeys(o, s[0], SortDescending(o, s[1..]));
    }
  }

  lemma {:induction false} SortOfSorted(o: Ordering, s: seq<Item>)
    requires Sorted(o, s)
    ensures SortDescending(o, s) == s
  {
    if s != [] {
      SortOfSorted(o, s[1..]);
      if |s| > 1 {
        assert !KeyLess(KeyBy(o, s[0]), KeyBy(o, s[1]));
      }
    }
  }

  lemma SortedIsDescending(s: seq<Item>)
    requires Sorted(ByRow, s) && DistinctKeys(s)
    ensures Descending(s)
  {
    KeyOrder();
  }

  lemma DescendingIsDistinct(s: seq<Item>)
    requires Descending(s)
    ensures DistinctKeys(s)
  {
    KeyOrder();
  }

  lemma DescendingIsSorted(s: seq<Item>)
    requires Descending(s)
    ensures Sorted(ByRow, s)
  {
    KeyOrder();
  }

  /** The rows of a query: what matches below the cursor, in strictly descending order. */
  lemma SelectedFacts(table: seq<Item>, q: Query, cursor: Option<Key>)
    requires DistinctKeys(table)
    ensures Descending(Selected(table, q, cursor))
    ensures forall x :: x in Selected(table, q, cursor) <==> x in table && Matches(q, x) && Below(x, cursor)
  {
    var p := (x: Item) => Matches(q, x) && Below(x, cursor);
    FilterFacts(table, p);
    FilterKeepsKeys(table, p);
    SortFacts(ByRow, Filter(table, p));
    SortKeepsKeys(ByRow, Filter(table, p));
    SortedIsDescending(Selected(table, q, cursor));
  }

  function Decodable(s: seq<Item>): seq<Item> {
    Filter(s, (x: Item) => x.decodes)
  }

  lemma {:induction false} FilterAgrees(s: seq<Item>, p: Item -> bool, r: Item -> bool)
    requires forall x | x in s :: p(x) == r(x)
    ensures Filter(s, p) == Filter(s, r)
  {
    if s != [] {
      FilterAgrees(s[1..], p, r);
    }
  }

  lemma TakeFacts(s: seq<Item>, n: nat)
    ensures Take(s, n) <= s && forall x | x in Take(s, n) :: x in s
    ensures Descending(s) ==> Descending(Take(s, n))
  {}

  lemma WindowFacts(table: seq<Item>, q: Query, cursor: Option<Key>, pageSize: nat)
    requires DistinctKeys(table)
    ensures var rows := Window(table, q, cursor, pageSize);
      && rows <= Selected(table, q, cursor) && Descending(rows) && Descending(Decodable(rows))
      && (forall x | x in rows :: x in table && Matches(q, x) && Below(x, cursor))
      && (forall x :: x in Decodable(rows) <==> x in rows && x.decodes)
      && |Decodable(rows)| <= |rows|
  {
    SelectedFacts(table, q, cursor);
    var rows := Window(table, q, cursor, pageSize);
    TakeFacts(Selected(table, q, cursor), pageSize + 1);
    FilterKeepsOrder(rows, (x: Item) => x.decodes);
    FilterFacts(rows, (x: Item) => x.decodes);
  }

  // ----- The guards in memory -----------------------------------------------------------

  /** What the guards start from: the decodable rows, sorted by task. */
  lemma VisibleRows(rows: seq<Item>, q: Query, cursor: Option<Key>)
    requires forall x | x in rows :: Matches(q, x)
    ensures Remaining(rows, q, cursor) ==
            Filter(SortDescending(ByTask, Decodable(rows)), (x: Item) => Under(TaskKey(x), cursor))
  {
    FilterAgrees(rows, (x: Item) => x.decodes && Matches(q, x), (x: Item) => x.decodes);
  }

  lemma RemainingFacts(rows: seq<Item>, q: Query, cursor: Option<Key>)
    requires DistinctKeys(rows) && forall x | x in rows :: Matches(q, x)
    ensures var remaining := Remaining(rows, q, cursor);
      && Sorted(ByTask, remaining) && DistinctKeys(remaining)
      && forall x :: x in remaining <==> x in rows && x.decodes && Under(TaskKey(x), cursor)
  {
    var below := (x: Item) => Under(TaskKey(x), cursor);
    VisibleRows(rows, q, cursor);
    FilterFacts(rows, (x: Item) => x.decodes);
    FilterKeepsKeys(rows, (x: Item) => x.decodes);
    SortFacts(ByTask, Decodable(rows));
    SortKeepsKeys(ByTask, Decodable(rows));
    var visible := SortDescending(ByTask, Decodable(rows));
    FilterFacts(visible, below);
    FilterKeepsSorted(ByTask, visible, below);
    FilterKeepsKeys(visible, below);
  }

  /** Order and cursor by task find the decodable rows as they are. */
  ghost predicate InPlace(rows: seq<Item>, cursor: Option<Key>) {
    Sorted(ByTask, Decodable(rows)) && forall x | x in Decodable(rows) :: Under(TaskKey(x), cursor)
  }

  lemma GuardsFindNothing(visible: seq<Item>, cursor: Option<Key>)
    ensures Filter(SortDescending(ByTask, visible), (x: Item) => Under(TaskKey(x), cursor)) == visible <==>
            Sorted(ByTask, visible) && forall x | x in visible :: Under(TaskKey(x), cursor)
  {
    var below := (x: Item) => Under(TaskKey(x), cursor);
    var sorted := SortDescending(ByTask, visible);
    SortFacts(ByTask, visible);
    FilterFacts(sorted, below);
    FilterKeepsSorted(ByTask, sorted, below);
    if Sorted(ByTask, visible) {
      SortOfSorted(ByTask, visible);
    }
  }

  /** The guards change nothing but to drop what does not decode, exactly when the window is in place by task too. */
  lemma GuardsAreRedundant(table: seq<Item>, q: Query, cursor: Option<Key>, pageSize: nat)
    requires DistinctKeys(table)
    ensures var rows := Window(table, q, cursor, pageSize);
      Remaining(rows, q, cursor) == Decodable(rows) <==> InPlace(rows, cursor)
  {
    var rows := Window(table, q, cursor, pageSize);
    WindowFacts(table, q, cursor, pageSize);
    VisibleRows(rows, q, cursor);
    GuardsFindNothing(Decodable(rows), cursor);
  }

  /** Sanitising changed the id of no task the query can return. */
  ghost predicate Aligned(table: seq<Item>, q: Query) {
    forall x | x in table && Matches(q, x) && x.decodes :: x.taskId == x.id
  }

  /** For rows that were saved: their ids are aligned exactly when they are well formed. */
  lemma WellFormedIdsAlign(table: seq<Item>, q: Query)
    requires forall x | x in table :: x.taskId == Strip(x.id)
    ensures Aligned(table, q) <==> forall x | x in table && Matches(q, x) && x.decodes :: WellFormed(x.id)
  {
    forall x | x in table {
      StripTheorem(x.id);
    }
  }

  // ----- One page ----------------------------------------------------------------------

  /** The row can still come up: it lies under the cursor by row and by task. */
  predicate Ahead(x: Item, cursor: Option<Key>) {
    Below(x, cursor) && Under(TaskKey(x), cursor)
  }

  /** The listing ends although rows are left, because none of the rows looked at passes the guards. */
  predicate Stalls(table: seq<Item>, q: Query, cursor: Option<Key>, pageSize: nat) {
    var rows := Window(table, q, cursor, pageSize);
    rows != [] && Remaining(rows, q, cursor) == []
  }

  lemma StallsExactly(table: seq<Item>, q: Query, cursor: Option<Key>, pageSize: nat)
    requires DistinctKeys(table)
    ensures var rows := Window(table, q, cursor, pageSize);
      Stalls(table, q, cursor, pageSize) <==>
      rows != [] && forall x | x in rows :: !x.decodes || !Under(TaskKey(x), cursor)
  {
    var rows := Window(table, q, cursor, pageSize);
    WindowRemaining(table, q, cursor, pageSize);
    assert Remaining(rows, q, cursor) != [] ==> Remaining(rows, q, cursor)[0] in Remaining(rows, q, cursor);
  }

  lemma WindowRemaining(table: seq<Item>, q: Query, cursor: Option<Key>, pageSize: nat)
    requires DistinctKeys(table)
    ensures var rows := Window(table, q, cursor, pageSize);
      var remaining := Remaining(rows, q, cursor);
      && Sorted(ByTask, remaining) && DistinctKeys(remaining)
      && forall x :: x in remaining <==> x in rows && x.decodes && Under(TaskKey(x), cursor)
  {
    WindowFacts(table, q, cursor, pageSize);
    DescendingIsDistinct(Window(table, q, cursor, pageSize));
    RemainingFacts(Window(table, q, cursor, pageSize), q, cursor);
  }

  /** What every page is like, whether or not sanitising changed ids. */
  ghost predicate WellShaped(page: Page, cursor: Option<Key>) {
    && DistinctKeys(page.items)
    && (forall x | x in page.items :: Ahead(x, cursor) && (page.next.Some? ==> !Under(TaskKey(x), page.next)))
    && (page.next.Some? ==> page.items != [] && page.next.value == TaskKey(page.items[|page.items| - 1]))
    && (page.next.Some? && cursor.Some? ==> KeyLess(page.next.value, cursor.value))
  }

  lemma LastIsLeast(o: Ordering, s: seq<Item>, x: Item)
    requires Sorted(o, s) && x in s
    ensures !KeyLess(KeyBy(o, x), KeyBy(o, s[|s| - 1]))
  {
    KeyOrder();
  }

  lemma TakeKeeps(o: Ordering, s: seq<Item>, n: nat)
    requires Sorted(o, s) && DistinctKeys(s)
    ensures Sorted(o, Take(s, n)) && DistinctKeys(Take(s, n))
  {}

  /** The token is under the old cursor, and no item of the page is under the token. */
  lemma TokenFits(items: seq<Item>, cursor: Option<Key>, token: Key)
    requires Sorted(ByTask, items) && items != [] && token == TaskKey(items[|items| - 1])
    requires forall x | x in items :: Ahead(x, cursor)
    ensures forall x | x in items :: !Under(TaskKey(x), Some(token))
    ensures cursor.Some? ==> KeyLess(token, cursor.value)
  {
    forall x | x in items ensures !Under(TaskKey(x), Some(token)) {
      LastIsLeast(ByTask, items, x);
    }
    assert items[|items| - 1] in items;
  }

  lemma PageFromShape(rows: seq<Item>, remaining: seq<Item>, pageSize: nat, cursor: Option<Key>)
    requires Sorted(ByTask, remaining) && DistinctKeys(remaining) && forall x | x in remaining :: Ahead(x, cursor)
    ensures var page := PageFrom(rows, remaining, pageSize);
      WellShaped(page, cursor) && page.items <= remaining && |page.items| <= pageSize
  {
    var page := PageFrom(rows, remaining, pageSize);
    TakeFacts(remaining, pageSize);
    TakeKeeps(ByTask, remaining, pageSize);
    if page.next.Some? {
      TokenFits(page.items, cursor, page.next.value);
    }
  }

  lemma PageShape(table: seq<Item>, q: Query, cursor: Option<Key>, pageSize: nat)
    requires DistinctKeys(table)
    ensures var page := ListPage(table, q, cursor, pageSize);
      && WellShaped(page, cursor) && |page.items| <= pageSize
      && forall x | x in page.items :: x in table && Matches(q, x) && x.decodes
  {
    var rows := Window(table, q, cursor, pageSize);
    WindowFacts(table, q, cursor, pageSize);
    WindowRemaining(table, q, cursor, pageSize);
    PageFromShape(rows, Remaining(rows, q, cursor), pageSize, cursor);
  }

  /** With more rows left than fit, the token is missing exactly when no row in the window passes the guards. */
  lemma EndsEarlyExactly(table: seq<Item>, q: Query, cursor: Option<Key>, pageSize: nat)
    requires pageSize >= 1 && |Selected(table, q, cursor)| > pageSize
    ensures ListPage(table, q, cursor, pageSize).next.None? <==> Stalls(table, q, cursor, pageSize)
  {}

  // ----- What a page drops ---------------------------------------------------------------

  /** The row was ahead, is not on the page, and is not ahead of the next one either. */
  predicate Drops(page: Page, cursor: Option<Key>, x: Item) {
    Ahead(x, cursor) && x !in page.items && !(page.next.Some? && Ahead(x, page.next))
  }

  lemma LastPageTakesAll(rows: seq<Item>, remaining: seq<Item>, pageSize: nat)
    requires pageSize >= 1 && remaining != [] && PageFrom(rows, remaining, pageSize).next.None?
    ensures PageFrom(rows, remaining, pageSize).items == remaining && |rows| <= pageSize
  {}

  /** A page without a token drops a row exactly when its window stalls. */
  lemma LastPageDropsExactly(table: seq<Item>, q: Query, cursor: Option<Key>, pageSize: nat, x: Item)
    requires DistinctKeys(table) && pageSize >= 1 && ListPage(table, q, cursor, pageSize).next.None?
    requires x in table && Matches(q, x) && x.decodes && Ahead(x, cursor)
    ensures Drops(ListPage(table, q, cursor, pageSize), cursor, x) <==> Stalls(table, q, cursor, pageSize)
  {
    var all, rows := Selected(table, q, cursor), Window(table, q, cursor, pageSize);
    SelectedFacts(table, q, cursor);
    assert x in all;
    if Remaining(rows, q, cursor) != [] {
      LastPageTakesAll(rows, Remaining(rows, q, cursor), pageSize);
      assert rows == all;
      WindowRemaining(table, q, cursor, pageSize);
    }
  }

  lemma AfterInOrder(o: Ordering, s: seq<Item>, n: nat, x: Item)
    requires Sorted(o, s) && 0 < n <= |s| && x in s && x !in s[..n]
    ensures !KeyLess(KeyBy(o, s[n - 1]), KeyBy(o, x))
  {
    var i :| 0 <= i < |s| && s[i] == x;
    assert forall j | 0 <= j < n :: s[..n][j] == s[j];
  }

  lemma PastTheWindow(table: seq<Item>, q: Query, cursor: Option<Key>, pageSize: nat, x: Item, y: Item)
    requires DistinctKeys(table) && x in Selected(table, q, cursor)
    requires x !in Window(table, q, cursor, pageSize) && y in Window(table, q, cursor, pageSize)
    ensures KeyLess(KeyOf(x), KeyOf(y))
  {
    var all, rows := Selected(table, q, cursor), Window(table, q, cursor, pageSize);
    SelectedFacts(table, q, cursor);
    var i :| 0 <= i < |all| && all[i] == x;
    var j :| 0 <= j < |rows| && rows[j] == y;
    assert forall k | 0 <= k < |rows| :: rows[k] == all[k];
  }

  /** A page with a token drops a row only if sanitising changed the row's id or that of the page's last row. */
  lemma DropNeedsChangedId(table: seq<Item>, q: Query, cursor: Option<Key>, pageSize: nat, x: Item)
    requires DistinctKeys(table) && pageSize >= 1 && ListPage(table, q, cursor, pageSize).next.Some?
    requires x in table && Matches(q, x) && x.decodes && Drops(ListPage(table, q, cursor, pageSize), cursor, x)
    ensures x.taskId != x.id || Last(ListPage(table, q, cursor, pageSize).items).taskId != Last(ListPage(table, q, cursor, pageSize).items).id
  {
    var page, rows := ListPage(table, q, cursor, pageSize), Window(table, q, cursor, pageSize);
    var remaining, y := Remaining(rows, q, cursor), Last(page.items);
    PageShape(table, q, cursor, pageSize);
    WindowRemaining(table, q, cursor, pageSize);
    TakeFacts(remaining, pageSize);
    assert y in page.items && y in remaining && y in rows;
    if x in rows {
      AfterInOrder(ByTask, remaining, |page.items|, x);
    } else {
      SelectedFacts(table, q, cursor);
      PastTheWindow(table, q, cursor, pageSize, x, y);
    }
    TokenOfAligned(x, y);
  }

  /** Of two different rows with unchanged ids, the one that is not greater by task lies under the other's token. */
  lemma TokenOfAligned(x: Item, y: Item)
    ensures x.taskId == x.id && y.taskId == y.id && KeyOf(x) != KeyOf(y) && !KeyLess(TaskKey(y), TaskKey(x)) ==>
              Ahead(x, Some(TaskKey(y)))
    ensures x.taskId == x.id && y.taskId == y.id && KeyLess(KeyOf(x), KeyOf(y)) ==> Ahead(x, Some(TaskKey(y)))
  {
    KeyOrder();
  }

  // ----- A whole traversal ---------------------------------------------------------------

  /** Page i is what the table shows by then below its cursor. */
  ghost predicate PageAt(
      tables: seq<seq<Item>>, cursors: seq<Option<Key>>, pages: seq<Page>, q: Query, pageSize: nat, i: nat)
    requires |tables| == |cursors| == |pages|
  {
    i < |pages| && DistinctKeys(tables[i]) && pages[i] == ListPage(tables[i], q, cursors[i], pageSize)
  }

  /** Page after page, each read from the table as it is by then, until the token is empty. */
  ghost predicate IsTraversal(
      tables: seq<seq<Item>>, cursors: seq<Option<Key>>, pages: seq<Page>, q: Query, pageSize: nat)
  {
    && |tables| == |cursors| == |pages| && pageSize >= 1
    && (forall i: nat | i < |pages| :: PageAt(tables, cursors, pages, q, pageSize, i))
    && IsChain(cursors, pages)
  }

  /** The token of each page but the last is the cursor of the next. */
  ghost predicate IsChain(cursors: seq<Option<Key>>, pages: seq<Page>) {
    && |cursors| == |pages| && pages != [] && cursors[0] == None
    && (forall i | 0 <= i < |pages| - 1 :: pages[i].next.Some? && cursors[i + 1] == pages[i].next)
    && pages[|pages| - 1].next.None?
  }

  ghost predicate AllWellShaped(cursors: seq<Option<Key>>, pages: seq<Page>)
    requires |cursors| == |pages|
  {
    forall i | 0 <= i < |pages| :: WellShaped(pages[i], cursors[i])
  }

  lemma TraversalShape(
      tables: seq<seq<Item>>, cursors: seq<Option<Key>>, pages: seq<Page>, q: Query, pageSize: nat)
    requires IsTraversal(tables, cursors, pages, q, pageSize)
    ensures AllWellShaped(cursors, pages)
  {
    forall i | 0 <= i < |pages| ensures WellShaped(pages[i], cursors[i]) {
      assert PageAt(tables, cursors, pages, q, pageSize, i);
      PageShape(tables[i], q, cursors[i], pageSize);
    }
  }

  lemma NotUnderLower(k: Key, c: Key, d: Key)
    requires !KeyLess(k, c) && KeyLess(d, c)
    ensures !KeyLess(k, d)
  {
    KeyOrder();
  }

  predicate Falls(c: Option<Key>, d: Option<Key>) {
    d.Some? && (c.Some? ==> KeyLess(d.value, c.value))
  }

  ghost predicate Falling(cursors: seq<Option<Key>>) {
    forall i | 0 <= i < |cursors| - 1 :: Falls(cursors[i], cursors[i + 1])
  }

  lemma ChainFalls(cursors: seq<Option<Key>>, pages: seq<Page>)
    requires IsChain(cursors, pages) && AllWellShaped(cursors, pages)
    ensures Falling(cursors)
  {
    forall i | 0 <= i < |cursors| - 1 ensures Falls(cursors[i], cursors[i + 1]) {
      assert WellShaped(pages[i], cursors[i]) && cursors[i + 1] == pages[i].next;
    }
  }

  /** The cursors go down: what is no longer under one is under none after it. */
  lemma {:induction false} CursorsDescend(cursors: seq<Option<Key>>, k: Key, i: nat, j: nat)
    requires Falling(cursors) && i <= j < |cursors| && !Under(k, cursors[i])
    ensures !Under(k, cursors[j])
  {
    if i < j {
      CursorsDescend(cursors, k, i, j - 1);
      assert Falls(cursors[j - 1], cursors[j - 1 + 1]);
      NotUnderLower(k, cursors[j - 1].value, cursors[j].value);
    }
  }

  lemma AheadBefore(cursors: seq<Option<Key>>, pages: seq<Page>, x: Item, i: nat, j: nat)
    requires IsChain(cursors, pages) && AllWellShaped(cursors, pages) && i <= j < |pages| && Ahead(x, cursors[j])
    ensures Ahead(x, cursors[i])
  {
    ChainFalls(cursors, pages);
    if !Under(KeyOf(x), cursors[i]) {
      CursorsDescend(cursors, KeyOf(x), i, j);
    }
    if !Under(TaskKey(x), cursors[i]) {
      CursorsDescend(cursors, TaskKey(x), i, j);
    }
  }

  /** What a page returned comes up on no later page. */
  lemma NotAgain(cursors: seq<Option<Key>>, pages: seq<Page>, x: Item, i: nat, j: nat)
    requires IsChain(cursors, pages) && AllWellShaped(cursors, pages) && i < j < |pages| && x in pages[i].items
    ensures !Ahead(x, cursors[j]) && x !in pages[j].items
  {
    assert cursors[i + 1] == pages[i].next && WellShaped(pages[i], cursors[i]);
    ChainFalls(cursors, pages);
    CursorsDescend(cursors, TaskKey(x), i + 1, j);
    assert WellShaped(pages[j], cursors[j]);
  }

  ghost predicate OnlyOnPage(pages: seq<Page>, x: Item, i: nat) {
    && i < |pages| && x in pages[i].items
    && forall j | 0 <= j < |pages| && j != i :: x !in pages[j].items
  }

  ghost predicate OnOnePage(pages: seq<Page>, x: Item) {
    exists i: nat :: OnlyOnPage(pages, x, i)
  }

  ghost predicate OnNoPage(pages: seq<Page>, x: Item) {
    forall j | 0 <= j < |pages| :: x !in pages[j].items
  }

  /** Page k drops the row. */
  predicate DropsAt(cursors: seq<Option<Key>>, pages: seq<Page>, x: Item, k: nat)
    requires |cursors| == |pages|
  {
    k < |pages| && Drops(pages[k], cursors[k], x)
  }

  ghost predicate Dropped(cursors: seq<Option<Key>>, pages: seq<Page>, x: Item)
    requires |cursors| == |pages|
  {
    exists k: nat :: DropsAt(cursors, pages, x, k)
  }

  lemma FoundIsOnlyOnce(cursors: seq<Option<Key>>, pages: seq<Page>, x: Item, i: nat)
    requires IsChain(cursors, pages) && AllWellShaped(cursors, pages) && i < |pages| && x in pages[i].items
    ensures OnlyOnPage(pages, x, i)
  {
    forall j | 0 <= j < |pages| && j != i ensures x !in pages[j].items {
      if i < j {
        NotAgain(cursors, pages, x, i, j);
      } else if x in pages[j].items {
        NotAgain(cursors, pages, x, j, i);
      }
    }
  }

  lemma LeftAheadIsNotDropped(cursors: seq<Option<Key>>, pages: seq<Page>, x: Item, k: nat)
    requires IsChain(cursors, pages) && k + 1 < |pages| && Ahead(x, cursors[k + 1])
    ensures !DropsAt(cursors, pages, x, k)
  {
    assert pages[k].next.Some? && cursors[k + 1] == pages[k].next;
  }

  lemma FoundIsNotDropped(cursors: seq<Option<Key>>, pages: seq<Page>, x: Item, i: nat, k: nat)
    requires IsChain(cursors, pages) && AllWellShaped(cursors, pages) && i < |pages| && x in pages[i].items
    ensures !DropsAt(cursors, pages, x, k)
  {
    if k < i {
      assert WellShaped(pages[i], cursors[i]);
      AheadBefore(cursors, pages, x, k + 1, i);
      LeftAheadIsNotDropped(cursors, pages, x, k);
    } else if i < k < |pages| {
      NotAgain(cursors, pages, x, i, k);
    }
  }

  lemma {:induction false} FoundUnlessDropped(cursors: seq<Option<Key>>, pages: seq<Page>, x: Item, from: nat)
    returns (i: nat)
    requires IsChain(cursors, pages) && !Dropped(cursors, pages, x)
    requires from < |pages| && Ahead(x, cursors[from])
    ensures i < |pages| && x in pages[i].items
    decreases |pages| - from
  {
    assert !DropsAt(cursors, pages, x, from);
    if x in pages[from].items {
      i := from;
    } else {
      assert cursors[from + 1] == pages[from].next;
      i := FoundUnlessDropped(cursors, pages, x, from + 1);
    }
  }

  /**
   * Whatever rows come, go or change between the pages of a finished traversal, and
   * whatever sanitising did to ids: a row is on exactly one page, once, if and only if no
   * page drops it; otherwise it is on none.
   */
  lemma ReturnedExactlyOnce(
      tables: seq<seq<Item>>, cursors: seq<Option<Key>>, pages: seq<Page>, q: Query, pageSize: nat, x: Item)
    requires IsTraversal(tables, cursors, pages, q, pageSize)
    ensures OnOnePage(pages, x) <==> !Dropped(cursors, pages, x)
    ensures OnNoPage(pages, x) <==> Dropped(cursors, pages, x)
    ensures forall k | 0 <= k < |pages| :: DistinctKeys(pages[k].items)
  {
    TraversalShape(tables, cursors, pages, q, pageSize);
    assert forall k | 0 <= k < |pages| :: WellShaped(pages[k], cursors[k]);
    if Dropped(cursors, pages, x) {
      var k: nat :| DropsAt(cursors, pages, x, k);
      forall i | 0 <= i < |pages| ensures x !in pages[i].items {
        if x in pages[i].items {
          FoundIsNotDropped(cursors, pages, x, i, k);
        }
      }
    } else {
      var i := FoundUnlessDropped(cursors, pages, x, 0);
      FoundIsOnlyOnce(cursors, pages, x, i);
    }
  }

  /** The last page's window stalled before the listing came to the row. */
  predicate CutOff(table: seq<Item>, q: Query, cursor: Option<Key>, pageSize: nat, x: Item) {
    Stalls(table, q, cursor, pageSize) && Ahead(x, cursor)
  }

  lemma AlignedPageDropsExactly(table: seq<Item>, q: Query, cursor: Option<Key>, pageSize: nat, page: Page, x: Item)
    requires DistinctKeys(table) && Aligned(table, q) && pageSize >= 1 && page == ListPage(table, q, cursor, pageSize)
    requires x in table && Matches(q, x) && x.decodes
    ensures Drops(page, cursor, x) <==> page.next.None? && CutOff(table, q, cursor, pageSize, x)
  {
    if Drops(page, cursor, x) && page.next.Some? {
      PageShape(table, q, cursor, pageSize);
      DropNeedsChangedId(table, q, cursor, pageSize, x);
    } else if Ahead(x, cursor) && page.next.None? {
      LastPageDropsExactly(table, q, cursor, pageSize, x);
    }
  }

  lemma DropsAtExactly(
      tables: seq<seq<Item>>, cursors: seq<Option<Key>>, pages: seq<Page>, q: Query, pageSize: nat, x: Item, k: nat)
    requires IsTraversal(tables, cursors, pages, q, pageSize) && k < |pages| && Aligned(tables[k], q)
    requires x in tables[k] && Matches(q, x) && x.decodes
    ensures DropsAt(cursors, pages, x, k) <==> k == |pages| - 1 && CutOff(Last(tables), q, Last(cursors), pageSize, x)
  {
    assert PageAt(tables, cursors, pages, q, pageSize, k);
    AlignedPageDropsExactly(tables[k], q, cursors[k], pageSize, pages[k], x);
  }

  /**
   * A row that decodes and stays unchanged and matching throughout, while sanitising
   * changed no id: it is on exactly one page if and only if the last page's window did
   * not stall above it.
   */
  lemma ReturnedUnlessCutOff(
      tables: seq<seq<Item>>, cursors: seq<Option<Key>>, pages: seq<Page>, q: Query, pageSize: nat, x: Item)
    requires IsTraversal(tables, cursors, pages, q, pageSize)
    requires Matches(q, x) && x.decodes && forall k | 0 <= k < |tables| :: x in tables[k] && Aligned(tables[k], q)
    ensures OnOnePage(pages, x) <==> !CutOff(Last(tables), q, Last(cursors), pageSize, x)
    ensures OnNoPage(pages, x) <==> CutOff(Last(tables), q, Last(cursors), pageSize, x)
  {
    ReturnedExactlyOnce(tables, cursors, pages, q, pageSize, x);
    forall k: nat | k < |pages| {
      DropsAtExactly(tables, cursors, pages, q, pageSize, x, k);
    }
    assert DropsAt(cursors, pages, x, |pages| - 1) ==> Dropped(cursors, pages, x);
  }

  // ----- Rows that a listing loses ---------------------------------------------------------

  /** Two rows on top that do not decode end a listing with page size 1 before the third. */
  lemma StalledListingLosesARow(bad1: Item, bad2: Item, good: Item, q: Query)
    requires KeyLess(KeyOf(good), KeyOf(bad2)) && KeyLess(KeyOf(bad2), KeyOf(bad1))
    requires Matches(q, bad1) && Matches(q, bad2) && Matches(q, good)
    requires !bad1.decodes && !bad2.decodes && good.decodes
    ensures ListPage([bad1, bad2, good], q, None, 1) == Page([], None)
  {
    KeyOrder();
    var table := [bad1, bad2, good];
    assert Descending(table);
    SelectsAll(table, q);
    assert Window(table, q, None, 1) == [bad1, bad2];
    DescendingIsDistinct(table);
    StallsExactly(table, q, None, 1);
  }

  lemma SelectsAll(table: seq<Item>, q: Query)
    requires Descending(table) && forall x | x in table :: Matches(q, x)
    ensures Selected(table, q, None) == table
  {
    DescendingIsDistinct(table);
    SelectedFacts(table, q, None);
    DescendingIsUnique(Selected(table, q, None), table);
  }

  /**
   * Two tasks of one age whose ids sanitising makes the same: "b" with a NUL, and "b".
   * With page size 1 the first page returns the one, its token is the other's key, and
   * the second page is empty.
   */
  lemma ChangedIdLosesARow(spoilt: Item, clean: Item, q: Query)
    requires spoilt.id == [0x62, 0] && clean.id == [0x62] && spoilt.timestamp == clean.timestamp
    requires spoilt.taskId == Strip(spoilt.id) && clean.taskId == Strip(clean.id)
    requires Matches(q, spoilt) && Matches(q, clean) && spoilt.decodes && clean.decodes
    ensures var pages := [Page([spoilt], Some(KeyOf(clean))), Page([], None)];
      && IsTraversal([[clean, spoilt], [clean, spoilt]], [None, Some(KeyOf(clean))], pages, q, 1)
      && DropsAt([None, Some(KeyOf(clean))], pages, clean, 0)
  {
    StrippedIds();
    var table, key := [clean, spoilt], KeyOf(clean);
    assert TaskKey(spoilt) == TaskKey(clean) == key;
    KeyOrder();
    FirstIdIsGreater(spoilt, clean);
    assert DistinctKeys(table);
    FirstPageOfTwo(spoilt, clean, q);
    NothingBelow(spoilt, clean, q);
    var tables, cursors := [table, table], [None, Some(key)];
    var pages := [Page([spoilt], Some(key)), Page([], None)];
    assert PageAt(tables, cursors, pages, q, 1, 0) && PageAt(tables, cursors, pages, q, 1, 1);
  }

  lemma StrippedIds()
    ensures Strip([0x62, 0]) == [0x62] && Strip([0x62]) == [0x62]
  {
    StripKeepsWellFormedParts([0x62, 0]);
    StripKeepsWellFormedParts([0x62]);
    assert [0x62, 0][1..] == [0] && [0][1..] == [] && [0x62][1..] == [];
    assert KeepWellFormed([0]) == [];
  }

  lemma FirstIdIsGreater(spoilt: Item, clean: Item)
    requires spoilt.id == [0x62, 0] && clean.id == [0x62] && spoilt.timestamp == clean.timestamp
    ensures KeyLess(KeyOf(clean), KeyOf(spoilt))
  {
    assert [0x62][1..] == [] && [0x62, 0][1..] == [0];
    assert Less([], [0]);
    assert Less([0x62], [0x62, 0]);
  }

  lemma FirstPageOfTwo(spoilt: Item, clean: Item, q: Query)
    requires KeyLess(KeyOf(clean), KeyOf(spoilt)) && TaskKey(spoilt) == TaskKey(clean)
    requires Matches(q, spoilt) && Matches(q, clean) && spoilt.decodes && clean.decodes
    ensures ListPage([clean, spoilt], q, None, 1) == Page([spoilt], Some(TaskKey(spoilt)))
  {
    KeyOrder();
    var rows := [spoilt, clean];
    assert Descending(rows) && DistinctKeys([clean, spoilt]);
    SelectedFacts([clean, spoilt], q, None);
    DescendingIsUnique(Selected([clean, spoilt], q, None), rows);
    assert Window([clean, spoilt], q, None, 1) == rows;
    FilterFacts(rows, (x: Item) => x.decodes);
    assert Decodable(rows) == rows && Sorted(ByTask, rows);
    GuardsAreRedundant([clean, spoilt], q, None, 1);
    assert Remaining(rows, q, None) == rows && Take(rows, 1) == [spoilt];
  }

  lemma NothingBelow(spoilt: Item, clean: Item, q: Query)
    requires KeyLess(KeyOf(clean), KeyOf(spoilt))
    ensures ListPage([clean, spoilt], q, Some(KeyOf(clean)), 1) == Page([], None)
  {
    KeyOrder();
    assert DistinctKeys([clean, spoilt]);
    var all := Selected([clean, spoilt], q, Some(KeyOf(clean)));
    assert all != [] ==> all[0] in all;
    SelectedFacts([clean, spoilt], q, Some(KeyOf(clean)));
  }

  // ----- A page when sanitising changed no id -----------------------------------------------

  /** A key at or above the one the next page starts below. */
  predicate AtLeast(x: Item, next: Option<Key>) {
    next.Some? ==> !KeyLess(KeyOf(x), next.value)
  }

  /** A decodable matching row below the cursor is on the page exactly when the next page starts below it. */
  lemma OnPageExactly(table: seq<Item>, q: Query, cursor: Option<Key>, pageSize: nat, x: Item)
    requires DistinctKeys(table) && Aligned(table, q) && pageSize >= 1 && !Stalls(table, q, cursor, pageSize)
    requires x in table && Matches(q, x) && x.decodes && Below(x, cursor)
    ensures x in ListPage(table, q, cursor, pageSize).items <==> AtLeast(x, ListPage(table, q, cursor, pageSize).next)
  {
    var page := ListPage(table, q, cursor, pageSize);
    PageShape(table, q, cursor, pageSize);
    assert TaskKey(x) == KeyOf(x);
    if page.next.None? {
      LastPageDropsExactly(table, q, cursor, pageSize, x);
    } else if Drops(page, cursor, x) {
      DropNeedsChangedId(table, q, cursor, pageSize, x);
    }
  }

  // ----- A traversal of a table that does not change ---------------------------------------

  lemma {:induction false} DescendingIsUnique(s: seq<Item>, t: seq<Item>)
    requires Descending(s) && Descending(t) && forall x :: x in s <==> x in t
    ensures s == t
  {
    KeyOrder();
    assert s != [] ==> s[0] in t;
    assert t != [] ==> t[0] in s;
    if s != [] {
      assert s[0] in t && t[0] in s;
      assert s[0] == t[0];
      forall x ensures x in s[1..] <==> x in t[1..] {
        assert x in s[1..] ==> KeyOf(x) != KeyOf(s[0]);
        assert x in t[1..] ==> KeyOf(x) != KeyOf(t[0]);
        assert x in s <==> x == s[0] || x in s[1..];
        assert x in t <==> x == t[0] || x in t[1..];
      }
      DescendingIsUnique(s[1..], t[1..]);
    }
  }

  /** What a token stands for: the rows after the last one of the page. */
  lemma SelectedBelow(table: seq<Item>, q: Query, cursor: Option<Key>, k: nat)
    requires DistinctKeys(table) && k < |Selected(table, q, cursor)|
    ensures var all := Selected(table, q, cursor);
      Selected(table, q, Some(KeyOf(all[k]))) == all[k + 1..]
  {
    var all := Selected(table, q, cursor);
    var next := Some(KeyOf(all[k]));
    SelectedFacts(table, q, cursor);
    SelectedFacts(table, q, next);
    assert all[k] in all;
    forall x ensures x in Selected(table, q, next) <==> x in all[k + 1..] {
      BelowMeansAfter(all, k, x);
      BelowTwice(x, cursor, all[k]);
    }
    DescendingIsUnique(Selected(table, q, next), all[k + 1..]);
  }

  lemma BelowTwice(x: Item, cursor: Option<Key>, y: Item)
    requires Below(y, cursor)
    ensures Below(x, Some(KeyOf(y))) ==> Below(x, cursor)
  {
    KeyOrder();
  }

  lemma BelowMeansAfter(s: seq<Item>, k: nat, x: Item)
    requires Descending(s) && k < |s|
    ensures x in s[k + 1..] <==> x in s && KeyLess(KeyOf(x), KeyOf(s[k]))
  {
    KeyOrder();
    if x in s {
      var i :| 0 <= i < |s| && s[i] == x;
      assert i > k ==> s[k + 1..][i - k - 1] == x;
    }
  }

  lemma {:induction false} FilterAppend(s: seq<Item>, t: seq<Item>, p: Item -> bool)
    ensures Filter(s + t, p) == Filter(s, p) + Filter(t, p)
  {
    if s == [] {
      assert s + t == t && Filter(s, p) == [];
    } else {
      FilterAppend(s[1..], t, p);
      assert (s + t)[0] == s[0] && (s + t)[1..] == s[1..] + t;
      var head := if p(s[0]) then [s[0]] else [];
      assert head + (Filter(s[1..], p) + Filter(t, p)) == (head + Filter(s[1..], p)) + Filter(t, p);
    }
  }

  lemma DecodableCut(s: seq<Item>, k: nat)
    requires k <= |s|
    ensures Decodable(s) == Decodable(s[..k]) + Decodable(s[k..])
  {
    assert s == s[..k] + s[k..];
    FilterAppend(s[..k], s[k..], (x: Item) => x.decodes);
  }

  /** Where the first n of the filtered elements end. */
  lemma {:induction false} FilterPrefix(s: seq<Item>, p: Item -> bool, n: nat) returns (k: nat)
    requires 0 < n <= |Filter(s, p)|
    ensures k < |s| && s[k] == Filter(s, p)[n - 1] && Filter(s[..k + 1], p) == Filter(s, p)[..n]
    decreases |s|
  {
    if p(s[0]) && n == 1 {
      k := 0;
      assert s[..1] == [s[0]];
    } else {
      k := FilterPrefix(s[1..], p, if p(s[0]) then n - 1 else n);
      assert s[..k + 2] == [s[0]] + s[1..][..k + 1];
      FilterAppend([s[0]], s[1..][..k + 1], p);
      FilterAppend([s[0]], s[1..], p);
      assert s == [s[0]] + s[1..];
      k := k + 1;
    }
  }

  /** The first n decodable rows of a front of the list end at some row k, and the decodable rest follows it. */
  lemma FrontEndsAtRow(all: seq<Item>, rows: seq<Item>, n: nat) returns (k: nat)
    requires rows <= all && 0 < n <= |Decodable(rows)|
    ensures k < |all| && all[k] == Decodable(rows)[n - 1] && all[k].decodes
    ensures Decodable(rows)[..n] + Decodable(all[k + 1..]) == Decodable(all)
  {
    k := FilterPrefix(rows, (x: Item) => x.decodes, n);
    FilterFacts(rows, (x: Item) => x.decodes);
    assert Decodable(rows)[n - 1] in Decodable(rows);
    assert all[..k + 1] == rows[..k + 1];
    DecodableCut(all, k + 1);
  }

  /** A list of rows of which the page takes the decodable ones up to row k. */
  lemma PageEndsAtRow(all: seq<Item>, pageSize: nat, page: Page) returns (k: nat)
    requires var rows := Take(all, pageSize + 1); page == PageFrom(rows, Decodable(rows), pageSize)
    requires pageSize >= 1 && page.next.Some?
    ensures k < |all| && page.next.value == TaskKey(all[k]) && all[k].decodes
    ensures page.items + Decodable(all[k + 1..]) == Decodable(all)
  {
    var rows := Take(all, pageSize + 1);
    var n := |page.items|;
    assert page.items == Decodable(rows)[..n];
    k := FrontEndsAtRow(all, rows, n);
    assert page.items[n - 1] == all[k];
  }

  /** What a stalled window leaves unreturned. */
  function Unreached(table: seq<Item>, q: Query, cursor: Option<Key>, pageSize: nat): seq<Item> {
    if Stalls(table, q, cursor, pageSize) then Decodable(Selected(table, q, cursor)) else []
  }

  lemma LastPageIsRest(table: seq<Item>, q: Query, cursor: Option<Key>, pageSize: nat, page: Page)
    requires DistinctKeys(table) && Aligned(table, q) && pageSize >= 1
    requires page == ListPage(table, q, cursor, pageSize) && page.next.None?
    ensures page.items + Unreached(table, q, cursor, pageSize) ==
            Decodable(Selected(table, q, cursor))
  {
    var rows := Window(table, q, cursor, pageSize);
    AlignedRemaining(table, q, cursor, pageSize);
    if Decodable(rows) != [] {
      LastPageTakesAll(rows, Decodable(rows), pageSize);
      assert rows == Selected(table, q, cursor);
    } else if rows == [] {
      assert Selected(table, q, cursor) == [];
    }
  }

  lemma AlignedRemaining(table: seq<Item>, q: Query, cursor: Option<Key>, pageSize: nat)
    requires DistinctKeys(table) && Aligned(table, q)
    ensures var rows := Window(table, q, cursor, pageSize); Remaining(rows, q, cursor) == Decodable(rows)
  {
    var rows := Window(table, q, cursor, pageSize);
    WindowFacts(table, q, cursor, pageSize);
    DescendingIsSorted(Decodable(rows));
    assert forall x | x in Decodable(rows) :: TaskKey(x) == KeyOf(x);
    GuardsAreRedundant(table, q, cursor, pageSize);
  }

  /** A page and what its token stands for make up the decodable rest of the list. */
  lemma PageAndRest(table: seq<Item>, q: Query, cursor: Option<Key>, pageSize: nat, page: Page)
    requires DistinctKeys(table) && Aligned(table, q) && pageSize >= 1
    requires page == ListPage(table, q, cursor, pageSize) && page.next.Some?
    ensures page.items + Decodable(Selected(table, q, page.next)) == Decodable(Selected(table, q, cursor))
  {
    var all := Selected(table, q, cursor);
    AlignedRemaining(table, q, cursor, pageSize);
    var k := PageEndsAtRow(all, pageSize, page);
    SelectedFacts(table, q, cursor);
    assert all[k] in all && TaskKey(all[k]) == KeyOf(all[k]);
    SelectedBelow(table, q, cursor, k);
  }

  function Concat(pages: seq<Page>, from: nat): seq<Item>
    requires from <= |pages|
    decreases |pages| - from
  {
    if from == |pages| then [] else pages[from].items + Concat(pages, from + 1)
  }

  /** Each page and the rest after it make up the rest before it. */
  ghost predicate CutsOff(rest: seq<seq<Item>>, pages: seq<Page>, k: nat) {
    k < |pages| < |rest| && pages[k].items + rest[k + 1] == rest[k]
  }

  lemma {:induction false} ConcatRest(rest: seq<seq<Item>>, pages: seq<Page>, from: nat)
    requires |rest| == |pages| + 1 && from <= |pages| && forall k: nat | k < |pages| :: CutsOff(rest, pages, k)
    ensures Concat(pages, from) + rest[|pages|] == rest[from]
    decreases |pages| - from
  {
    if from < |pages| {
      assert CutsOff(rest, pages, from);
      ConcatRest(rest, pages, from + 1);
    }
  }

  /** The decodable rest of the list at each cursor, and at last what a stalled window left. */
  function RestAt(table: seq<Item>, q: Query, cursors: seq<Option<Key>>, pageSize: nat): seq<seq<Item>>
    requires cursors != []
  {
    seq(|cursors|, i requires 0 <= i < |cursors| => Decodable(Selected(table, q, cursors[i])))
    + [Unreached(table, q, Last(cursors), pageSize)]
  }

  lemma PageCutsOff(
      table: seq<Item>, tables: seq<seq<Item>>, cursors: seq<Option<Key>>, pages: seq<Page>, q: Query, pageSize: nat, k: nat)
    requires IsTraversal(tables, cursors, pages, q, pageSize) && k < |pages|
    requires Aligned(table, q) && tables[k] == table
    ensures CutsOff(RestAt(table, q, cursors, pageSize), pages, k)
  {
    assert PageAt(tables, cursors, pages, q, pageSize, k);
    if k == |pages| - 1 {
      LastPageIsRest(table, q, cursors[k], pageSize, pages[k]);
    } else {
      PageAndRest(table, q, cursors[k], pageSize, pages[k]);
    }
  }

  /**
   * With no changes and no changed ids, the pages together are the decodable rows of the
   * whole filtered list in descending order, up to the window that stalled if one did.
   */
  lemma PagesConcatenate(
      table: seq<Item>, tables: seq<seq<Item>>, cursors: seq<Option<Key>>, pages: seq<Page>, q: Query, pageSize: nat)
    requires IsTraversal(tables, cursors, pages, q, pageSize)
    requires Aligned(table, q) && forall k | 0 <= k < |tables| :: tables[k] == table
    ensures Concat(pages, 0) + Unreached(table, q, Last(cursors), pageSize) == Decodable(Selected(table, q, None))
    ensures Descending(Decodable(Selected(table, q, None)))
    ensures forall x :: x in Decodable(Selected(table, q, None)) <==> x in table && Matches(q, x) && x.decodes
  {
    forall k: nat | k < |pages| ensures CutsOff(RestAt(table, q, cursors, pageSize), pages, k) {
      PageCutsOff(table, tables, cursors, pages, q, pageSize, k);
    }
    ConcatRest(RestAt(table, q, cursors, pageSize), pages, 0);
    assert tables[0] == table && PageAt(tables, cursors, pages, q, pageSize, 0);
    SelectedFacts(table, q, None);
    FilterFacts(Selected(table, q, None), (x: Item) => x.decodes);
    FilterKeepsOrder(Selected(table, q, None), (x: Item) => x.decodes);
  }

  // ----- When every row decodes ------------------------------------------------------------

  ghost predicate AllDecode(table: seq<Item>, q: Query) {
    forall x | x in table && Matches(q, x) :: x.decodes
  }

  /** The page is the front of the list, and the token says whether that was all. */
  lemma PageFromAll(all: seq<Item>, pageSize: nat)
    requires pageSize >= 1 && forall x | x in all :: x.decodes
    ensures var rows := Take(all, pageSize + 1);
      var page := PageFrom(rows, Decodable(rows), pageSize);
      && page.items == Take(all, pageSize)
      && page.next == if |all| <= pageSize then None else Some(TaskKey(all[pageSize - 1]))
  {
    var rows := Take(all, pageSize + 1);
    FilterFacts(rows, (x: Item) => x.decodes);
    assert Decodable(rows) == rows;
    assert Take(rows, pageSize) == Take(all, pageSize);
  }

  lemma SelectedDecodes(table: seq<Item>, q: Query, cursor: Option<Key>)
    requires DistinctKeys(table) && AllDecode(table, q) && Aligned(table, q)
    ensures forall x | x in Selected(table, q, cursor) :: x.decodes && TaskKey(x) == KeyOf(x)
  {
    SelectedFacts(table, q, cursor);
  }

  /** One page: the next stretch of the list, and the token stands for exactly the rest. */
  lemma PageIsNextStretch(table: seq<Item>, q: Query, cursor: Option<Key>, pageSize: nat)
    requires DistinctKeys(table) && pageSize >= 1 && AllDecode(table, q) && Aligned(table, q)
    ensures IsNextStretch(table, q, cursor, pageSize, ListPage(table, q, cursor, pageSize))
  {
    AllDecodePage(table, q, cursor, pageSize, ListPage(table, q, cursor, pageSize));
  }

  lemma StretchFollows(table: seq<Item>, q: Query, cursor: Option<Key>, pageSize: nat, page: Page)
    requires DistinctKeys(table) && pageSize >= 1
    requires var all := Selected(table, q, cursor);
      && page.items == Take(all, pageSize)
      && page.next == if |all| <= pageSize then None else Some(KeyOf(all[pageSize - 1]))
    ensures IsNextStretch(table, q, cursor, pageSize, page)
  {
    if |Selected(table, q, cursor)| > pageSize {
      SelectedBelow(table, q, cursor, pageSize - 1);
    }
  }

  lemma AllDecodePage(table: seq<Item>, q: Query, cursor: Option<Key>, pageSize: nat, page: Page)
    requires DistinctKeys(table) && pageSize >= 1 && AllDecode(table, q) && Aligned(table, q)
    requires page == ListPage(table, q, cursor, pageSize)
    ensures IsNextStretch(table, q, cursor, pageSize, page)
  {
    AlignedRemaining(table, q, cursor, pageSize);
    SelectedDecodes(table, q, cursor);
    var all := Selected(table, q, cursor);
    PageFromAll(all, pageSize);
    assert |all| > pageSize ==> all[pageSize - 1] in all;
    StretchFollows(table, q, cursor, pageSize, page);
  }

  predicate IsNextStretch(table: seq<Item>, q: Query, cursor: Option<Key>, pageSize: nat, page: Page) {
    var all := Selected(table, q, cursor);
    && page.items == Take(all, pageSize)
    && (page.next.None? <==> |all| <= pageSize)
    && (page.next.Some? ==> pageSize <= |all| && Selected(table, q, page.next) == all[pageSize..])
  }

  /** The token is empty only on the last page, and every earlier page is full. */
  lemma TokenEmptyOnlyAtTheEnd(
      tables: seq<seq<Item>>, cursors: seq<Option<Key>>, pages: seq<Page>, q: Query, pageSize: nat, k: nat)
    requires IsTraversal(tables, cursors, pages, q, pageSize) && k < |pages|
    requires AllDecode(tables[k], q) && Aligned(tables[k], q)
    ensures pages[k].next.None? <==> k == |pages| - 1
    ensures pages[k].next.None? <==> |Selected(tables[k], q, cursors[k])| <= pageSize
    ensures k < |pages| - 1 ==> |pages[k].items| == pageSize
  {
    assert PageAt(tables, cursors, pages, q, pageSize, k);
    PageIsNextStretch(tables[k], q, cursors[k], pageSize);
  }

  /** With no changes the pages together are the whole filtered list. */
  lemma DecodablePagesConcatenate(
      table: seq<Item>, tables: seq<seq<Item>>, cursors: seq<Option<Key>>, pages: seq<Page>, q: Query, pageSize: nat)
    requires IsTraversal(tables, cursors, pages, q, pageSize)
    requires AllDecode(table, q) && Aligned(table, q) && forall k | 0 <= k < |tables| :: tables[k] == table
    ensures Concat(pages, 0) == Selected(table, q, None)
    ensures Descending(Concat(pages, 0)) && forall x :: x in Concat(pages, 0) <==> x in table && Matches(q, x)
  {
    var last := |pages| - 1;
    assert PageAt(tables, cursors, pages, q, pageSize, last) && tables[last] == table;
    NeverStalls(table, q, cursors[last], pageSize);
    PagesConcatenate(table, tables, cursors, pages, q, pageSize);
    SelectedFacts(table, q, None);
    FilterFacts(Selected(table, q, None), (x: Item) => x.decodes);
    assert Concat(pages, 0) + [] == Concat(pages, 0);
  }

  lemma NeverStalls(table: seq<Item>, q: Query, cursor: Option<Key>, pageSize: nat)
    requires DistinctKeys(table) && AllDecode(table, q) && Aligned(table, q)
    ensures !Stalls(table, q, cursor, pageSize)
  {
    WindowFacts(table, q, cursor, pageSize);
    StallsExactly(table, q, cursor, pageSize);
    var rows := Window(table, q, cursor, pageSize);
    if rows != [] {
      assert rows[0] in rows && TaskKey(rows[0]) == KeyOf(rows[0]);
    }
  }

  // ----- What is listed, by the rows' own fields ---------------------------------------------

  /** y is the older row: its timestamp comes before, or at equal timestamps its id. */
  ghost predicate Older(y: Item, x: Item) {
    Before(y.timestamp, x.timestamp) || (y.timestamp == x.timestamp && Before(y.id, x.id))
  }

  lemma OlderExactly(y: Item, x: Item)
    ensures Older(y, x) <==> KeyLess(KeyOf(y), KeyOf(x))
  {
    KeyLessExactly(KeyOf(y), KeyOf(x));
  }

  /** A query's rows: each filter that is given, by itself, and what lies below the cursor. */
  lemma SelectedByFields(table: seq<Item>, q: Query, cursor: Option<Key>, x: Item)
    requires DistinctKeys(table)
    ensures x in Selected(table, q, cursor) <==>
            && x in table && x.tenant == q.tenant && x.owner == q.owner
            && (q.contextId != [] ==> x.contextId == q.contextId)
            && (q.state != 0 ==> x.state == q.state)
            && (q.after != [] ==> !Before(x.timestamp, q.after))
            && (cursor.Some? ==>
                  Before(x.timestamp, cursor.value.timestamp) ||
                  (x.timestamp == cursor.value.timestamp && Before(x.id, cursor.value.id)))
  {
    SelectedFacts(table, q, cursor);
    LessExactly(x.timestamp, q.after);
    if cursor.Some? {
      KeyLessExactly(KeyOf(x), cursor.value);
    }
  }

  /** No row on a page is of another caller or misses a filter that was given. */
  lemma PageByFields(table: seq<Item>, q: Query, cursor: Option<Key>, pageSize: nat, x: Item)
    requires DistinctKeys(table) && x in ListPage(table, q, cursor, pageSize).items
    ensures x in table && x.decodes && x.tenant == q.tenant && x.owner == q.owner
    ensures q.contextId != [] ==> x.contextId == q.contextId
    ensures q.state != 0 ==> x.state == q.state
    ensures q.after != [] ==> !Before(x.timestamp, q.after)
    ensures cursor.Some? ==> !Before(cursor.value.timestamp, x.timestamp)
  {
    PageShape(table, q, cursor, pageSize);
    LessExactly(x.timestamp, q.after);
    if cursor.Some? {
      KeyLessExactly(KeyOf(x), cursor.value);
      BeforeIsStrict(cursor.value.timestamp, x.timestamp);
    }
  }

  /**
   * On a page the newer row comes first: no timestamp comes before a later one's, and at
   * equal timestamps no task id does; with unchanged ids the later row is strictly older.
   */
  lemma PageIsNewestFirst(table: seq<Item>, q: Query, cursor: Option<Key>, pageSize: nat, i: nat, j: nat)
    requires DistinctKeys(table) && i < j < |ListPage(table, q, cursor, pageSize).items|
    ensures var x, y := ListPage(table, q, cursor, pageSize).items[i], ListPage(table, q, cursor, pageSize).items[j];
      && !Before(x.timestamp, y.timestamp)
      && (x.timestamp == y.timestamp ==> !Before(x.taskId, y.taskId))
      && (Aligned(table, q) ==> Older(y, x))
  {
    var rows := Window(table, q, cursor, pageSize);
    var remaining, items := Remaining(rows, q, cursor), ListPage(table, q, cursor, pageSize).items;
    WindowRemaining(table, q, cursor, pageSize);
    TakeFacts(remaining, pageSize);
    PageShape(table, q, cursor, pageSize);
    assert items[i] == remaining[i] && items[j] == remaining[j] && items[i] in items && items[j] in items;
    SortedByFields(items[i], items[j]);
  }

  lemma SortedByFields(x: Item, y: Item)
    requires !KeyLess(TaskKey(x), TaskKey(y)) && KeyOf(x) != KeyOf(y)
    ensures !Before(x.timestamp, y.timestamp) && (x.timestamp == y.timestamp ==> !Before(x.taskId, y.taskId))
    ensures x.taskId == x.id && y.taskId == y.id ==> Older(y, x)
  {
    KeyLessExactly(TaskKey(x), TaskKey(y));
    BeforeIsStrict(x.timestamp, y.timestamp);
    BeforeIsStrict(x.id, y.id);
  }

  /** With unchanged ids a page takes the newest: a row that was ahead and is not on it is older than all that are. */
  lemma PageTakesNewest(table: seq<Item>, q: Query, cursor: Option<Key>, pageSize: nat, x: Item, y: Item)
    requires DistinctKeys(table) && Aligned(table, q) && pageSize >= 1
    requires x in ListPage(table, q, cursor, pageSize).items && y !in ListPage(table, q, cursor, pageSize).items
    requires y in table && Matches(q, y) && y.decodes && Below(y, cursor)
    ensures Older(y, x)
  {
    var page := ListPage(table, q, cursor, pageSize);
    PageShape(table, q, cursor, pageSize);
    assert TaskKey(x) == KeyOf(x) && TaskKey(y) == KeyOf(y);
    NewerThanTheRest(table, q, cursor, pageSize, page, x, y);
    OlderExactly(y, x);
  }

  lemma NewerThanTheRest(table: seq<Item>, q: Query, cursor: Option<Key>, pageSize: nat, page: Page, x: Item, y: Item)
    requires DistinctKeys(table) && Aligned(table, q) && pageSize >= 1 && page == ListPage(table, q, cursor, pageSize)
    requires WellShaped(page, cursor) && x in page.items && y !in page.items
    requires y in table && Matches(q, y) && y.decodes && Ahead(y, cursor) && TaskKey(x) == KeyOf(x)
    ensures KeyLess(KeyOf(y), KeyOf(x))
  {
    AlignedPageDropsExactly(table, q, cursor, pageSize, page, y);
    if page.next.None? {
      if Stalls(table, q, cursor, pageSize) {
        StalledPageIsEmpty(table, q, cursor, pageSize);
      }
    } else {
      UnderBelow(KeyOf(y), page.next.value, KeyOf(x));
    }
  }

  lemma StalledPageIsEmpty(table: seq<Item>, q: Query, cursor: Option<Key>, pageSize: nat)
    requires Stalls(table, q, cursor, pageSize)
    ensures ListPage(table, q, cursor, pageSize).items == []
  {}

  lemma UnderBelow(a: Key, b: Key, c: Key)
    requires KeyLess(a, b) && !KeyLess(c, b)
    ensures KeyLess(a, c)
  {
    KeyOrder();
  }

  /** The decodable list, and so the pages of an unchanged table one after another, runs from the newest to the oldest row. */
  lemma PagesAreNewestFirst(
      table: seq<Item>, tables: seq<seq<Item>>, cursors: seq<Option<Key>>, pages: seq<Page>, q: Query, pageSize: nat,
      i: nat, j: nat)
    requires IsTraversal(tables, cursors, pages, q, pageSize)
    requires Aligned(table, q) && forall k | 0 <= k < |tables| :: tables[k] == table
    requires i < j < |Concat(pages, 0)|
    ensures Older(Concat(pages, 0)[j], Concat(pages, 0)[i])
  {
    PagesConcatenate(table, tables, cursors, pages, q, pageSize);
    var all, listed := Decodable(Selected(table, q, None)), Concat(pages, 0);
    assert listed[i] == all[i] && listed[j] == all[j];
    OlderExactly(all[j], all[i]);
  }
}
