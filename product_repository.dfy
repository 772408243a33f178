/** The `products` table and the repository over it. The table is a map from
    `id` (its unique key) to a row; a row holds the product's columns and the
    hidden `created_on` ordering key that the database sets on insert. The
    two writes change the table in place and are methods of
    `ProductRepository`; the queries read the table and are functions of it. */
module Repository {
  import opened Wrappers
  import opened Jvm
  import opened KotlinText
  import opened SqlLike
  import opened Products
  import opened PagedResults

  /** The page size used when the caller asks for a non-positive one. */
  const DEFAULT_PAGE_SIZE: Int32 := 10

  /** A point in time; a larger value is later. */
  type Instant = int

  /** One row of the `products` table, without its key. */
  datatype Row = Row(
    title: Option<string>,
    handle: Option<string>,
    vendor: Option<string>,
    productType: Option<string>,
    publishedAt: Option<DateTime>,
    createdAt: Option<DateTime>,
    updatedAt: Option<DateTime>,
    createdOn: Instant)

  type Table = map<Int64, Row>

  /** The arguments of a full-row write: the key and the seven columns. */
  datatype SyncRecord = SyncRecord(
    id: Int64,
    title: Option<string>,
    handle: Option<string>,
    vendor: Option<string>,
    productType: Option<string>,
    createdAt: Option<DateTime>,
    publishedAt: Option<DateTime>,
    updatedAt: Option<DateTime>)

  /** Why the database refuses a query. */
  datatype QueryError = NegativeLimit

  function Min(a: int, b: int): int { if a <= b then a else b }

  /** The row mapper shared by the three queries: the key and every column
      but `created_on`. */
  function ToProduct(id: Int64, row: Row): Product {
    Product(Some(id), row.title, row.handle, row.vendor, row.productType,
            row.publishedAt, row.createdAt, row.updatedAt)
  }

  /** The product a full-row write leaves behind, as the row mapper reads
      it back. */
  function RecordProduct(rec: SyncRecord): Product {
    Product(Some(rec.id), rec.title, rec.handle, rec.vendor, rec.productType,
            rec.publishedAt, rec.createdAt, rec.updatedAt)
  }

  /** `p` is what the row mapper makes of a row that is in `t`. */
  predicate IsRowOf(t: Table, p: Product) {
    p.id.Some? && p.id.value in t && p == ToProduct(p.id.value, t[p.id.value])
  }

  /* ---------------------------------------------------------------------
     Writes
     --------------------------------------------------------------------- */

  /** `upsertProduct`: `INSERT ... ON CONFLICT (id) DO UPDATE SET title,
      handle`. A new row gets the title and handle, nulls elsewhere and
      `now` as its `created_on`; an existing row gets the new title and
      handle and keeps every other column. */
  function Upsert(t: Table, id: Int64, title: Option<string>, handle: Option<string>, now: Instant): (t': Table)
    ensures t'.Keys == t.Keys + {id}
    ensures |t'| == if id in t then |t| else |t| + 1
    ensures t'[id].title == title && t'[id].handle == handle
    ensures id in t ==>
      && t'[id].vendor == t[id].vendor && t'[id].productType == t[id].productType
      && t'[id].publishedAt == t[id].publishedAt && t'[id].createdAt == t[id].createdAt
      && t'[id].updatedAt == t[id].updatedAt && t'[id].createdOn == t[id].createdOn
    ensures id !in t ==>
      && t'[id].vendor == None && t'[id].productType == None
      && t'[id].publishedAt == None && t'[id].createdAt == None && t'[id].updatedAt == None
      && t'[id].createdOn == now
    ensures forall k | k in t && k != id :: t'[k] == t[k]
  {
    var row := if id in t then t[id].(title := title, handle := handle)
               else Row(title, handle, None, None, None, None, None, now);
    t[id := row]
  }

  /** The repository's `syncProduct`, which the repository class does not
      define: it writes all seven columns of the row keyed by `rec.id`,
      inserting the row (with `now` as its `created_on`) when there is none
      and keeping `created_on` when there is. */
  function Synced(t: Table, rec: SyncRecord, now: Instant): (t': Table)
    ensures t'.Keys == t.Keys + {rec.id}
    ensures ToProduct(rec.id, t'[rec.id]) == RecordProduct(rec)
    ensures t'[rec.id].createdOn == if rec.id in t then t[rec.id].createdOn else now
    ensures forall k | k in t && k != rec.id :: t'[k] == t[k]
  {
    var createdOn := if rec.id in t then t[rec.id].createdOn else now;
    t[rec.id := Row(rec.title, rec.handle, rec.vendor, rec.productType,
                    rec.publishedAt, rec.createdAt, rec.updatedAt, createdOn)]
  }

  /** `delete`: `DELETE FROM products WHERE id = ?`, which removes that one
      row if it is there and affects nothing otherwise. */
  function Deleted(t: Table, id: Int64): (t': Table)
    ensures t'.Keys == t.Keys - {id}
    ensures |t'| == if id in t then |t| - 1 else |t|
    ensures forall k | k in t' :: t'[k] == t[k]
    ensures id !in t ==> t' == t
  {
    t - {id}
  }

  /** The repository object: the table it reads and writes. */
  class ProductRepository {
    var rows: Table

    /** A repository over a database whose table holds `initial`. */
    constructor (initial: Table)
      ensures rows == initial
    {
      rows := initial;
    }

    method UpsertProduct(id: Int64, title: Option<string>, handle: Option<string>, now: Instant)
      modifies this
      ensures rows == Upsert(old(rows), id, title, handle, now)
    {
      rows := Upsert(rows, id, title, handle, now);
    }

    /** `syncProduct`; `refused` stands for the database failing the
      statement (a constraint violation, a lost connection), in which case
      the call throws and, being one statement, changes nothing. */
    method SyncProduct(rec: SyncRecord, now: Instant, refused: bool) returns (ok: bool)
      modifies this
      ensures ok == !refused
      ensures rows == if refused then old(rows) else Synced(old(rows), rec, now)
    {
      if refused {
        return false;
      }
      rows := Synced(rows, rec, now);
      return true;
    }

    method Delete(id: Int64)
      modifies this
      ensures rows == Deleted(old(rows), id)
    {
      rows := Deleted(rows, id);
    }
  }

  /** Upserting the same title and handle twice leaves the table as the
      first upsert left it, whatever the clock says the second time. */
  lemma UpsertIsIdempotent(t: Table, id: Int64, title: Option<string>, handle: Option<string>, now: Instant, later: Instant)
    ensures Upsert(Upsert(t, id, title, handle, now), id, title, handle, later) == Upsert(t, id, title, handle, now)
  {
    var t1 := Upsert(t, id, title, handle, now);
    assert Upsert(t1, id, title, handle, later).Keys == t1.Keys;
  }

  /** Deleting twice is deleting once. */
  lemma DeleteIsIdempotent(t: Table, id: Int64)
    ensures Deleted(Deleted(t, id), id) == Deleted(t, id)
  {
  }

  /* ---------------------------------------------------------------------
     Lookup by key
     --------------------------------------------------------------------- */

  /** `findById`: the row keyed by `id`, or null when there is none. */
  function FindById(t: Table, id: Int64): (r: Option<Product>)
    ensures r.Some? <==> id in t
    ensures r.Some? ==> IsRowOf(t, r.value) && r.value.id == Some(id)
  {
    if id in t then Some(ToProduct(id, t[id])) else None
  }

  /** After an upsert the row is there with the new title and handle and,
      if it existed, its other columns; every other lookup is unchanged. */
  lemma FindAfterUpsert(t: Table, id: Int64, title: Option<string>, handle: Option<string>, now: Instant, other: Int64)
    ensures var r := FindById(Upsert(t, id, title, handle, now), id);
      && r.Some? && r.value.title == title && r.value.handle == handle
      && (id in t ==> r.value == FindById(t, id).value.(title := title, handle := handle))
    ensures other != id ==> FindById(Upsert(t, id, title, handle, now), other) == FindById(t, other)
  {
  }

  /** After a delete the row is gone and every other lookup is unchanged. */
  lemma FindAfterDelete(t: Table, id: Int64, other: Int64)
    ensures FindById(Deleted(t, id), id) == None
    ensures other != id ==> FindById(Deleted(t, id), other) == FindById(t, other)
  {
  }

  /* ---------------------------------------------------------------------
     The listing order
     --------------------------------------------------------------------- */

  /** `ORDER BY created_on DESC` has no tie-breaker, so the database may
      list rows with equal `created_on` in any order. The queries therefore
      take the listing the database produced: every key exactly once,
      newest first. */
  ghost predicate IsCreatedOnOrder(t: Table, order: seq<Int64>) {
    && (forall i | 0 <= i < |order| :: order[i] in t)
    && (forall k | k in t :: k in order)
    && (forall i, j | 0 <= i < j < |order| :: order[i] != order[j])
    && (forall i, j | 0 <= i < j < |order| :: t[order[i]].createdOn >= t[order[j]].createdOn)
  }

  /** `ps` are rows of `t`, newest first. */
  ghost predicate NewestFirst(t: Table, ps: seq<Product>) {
    && (forall i | 0 <= i < |ps| :: IsRowOf(t, ps[i]))
    && (forall i, j | 0 <= i < j < |ps| :: t[ps[i].id.value].createdOn >= t[ps[j].id.value].createdOn)
  }

  /** Every table has such a listing: a newest row first, then a listing of
      the rest. */
  ghost function NewestFirstOrder(t: Table): (order: seq<Int64>)
    ensures IsCreatedOnOrder(t, order)
    decreases t.Keys
  {
    if t == map[] then []
    else
      NewestExists(t);
      var k :| k in t && forall k' | k' in t :: t[k'].createdOn <= t[k].createdOn;
      var rest := t - {k};
      var order := NewestFirstOrder(rest);
      NewestThenRest(t, k, order);
      [k] + order
  }

  lemma NewestThenRest(t: Table, k: Int64, order: seq<Int64>)
    requires k in t && forall k' | k' in t :: t[k'].createdOn <= t[k].createdOn
    requires IsCreatedOnOrder(t - {k}, order)
    ensures IsCreatedOnOrder(t, [k] + order)
  {
    var rest := t - {k};
    var o := [k] + order;
    assert forall i | 1 <= i < |o| :: o[i] == order[i - 1] && o[i] in rest;
    forall k' | k' in t ensures k' in o {
      if k' != k {
        assert k' in rest;
      }
    }
  }

  lemma NewestExists(t: Table)
    requires t != map[]
    ensures exists k | k in t :: forall k' | k' in t :: t[k'].createdOn <= t[k].createdOn
  {
    FirstAmong(t, t.Keys);
    var k :| k in t && forall k' | k' in t :: ListedNoEarlier(t[k'].createdOn, k', t[k].createdOn, k);
    assert forall k' | k' in t :: t[k'].createdOn <= t[k].createdOn;
  }

  /** Row `a` (created at `ca`) is listed no earlier than row `b` (created
      at `cb`) once ties are broken by id, highest first. */
  predicate ListedNoEarlier(ca: Instant, a: Int64, cb: Instant, b: Int64) {
    ca < cb || (ca == cb && a <= b)
  }

  lemma {:induction false} FirstAmong(t: Table, ks: set<Int64>)
    requires ks != {} && ks <= t.Keys
    ensures exists k | k in ks :: forall k' | k' in ks :: ListedNoEarlier(t[k'].createdOn, k', t[k].createdOn, k)
    decreases ks
  {
    var k0 :| k0 in ks;
    var rest := ks - {k0};
    if rest == {} {
      forall k' | k' in ks ensures k' == k0 {
        assert k' !in rest;
      }
    } else {
      FirstAmong(t, rest);
      var m :| m in rest && forall k' | k' in rest :: ListedNoEarlier(t[k'].createdOn, k', t[m].createdOn, m);
      if ListedNoEarlier(t[k0].createdOn, k0, t[m].createdOn, m) {
        assert forall k' | k' in ks :: ListedNoEarlier(t[k'].createdOn, k', t[m].createdOn, m);
      } else {
        assert forall k' | k' in ks :: ListedNoEarlier(t[k'].createdOn, k', t[k0].createdOn, k0);
      }
    }
  }

  /** A listing holds exactly as many keys as the table. */
  lemma ListingLength(t: Table, order: seq<Int64>)
    requires IsCreatedOnOrder(t, order)
    ensures |order| == |t|
  {
    DistinctLength(order);
    assert (set i | 0 <= i < |order| :: order[i]) == t.Keys;
  }

  lemma {:induction false} DistinctLength(s: seq<Int64>)
    requires forall i, j | 0 <= i < j < |s| :: s[i] != s[j]
    ensures |set i | 0 <= i < |s| :: s[i]| == |s|
  {
    if s != [] {
      var last := |s| - 1;
      DistinctLength(s[..last]);
      assert (set i | 0 <= i < |s| :: s[i]) == (set i | 0 <= i < last :: s[..last][i]) + {s[last]};
    }
  }

  /* ---------------------------------------------------------------------
     Paged listing
     --------------------------------------------------------------------- */

  /** `pageSafe.toLong() * sizeSafe.toLong()`: the product of a
      non-negative `Int` and a positive `Int` never wraps in `Long`. */
  function PageOffset(page: Int32, size: Int32): (offset: Int64)
    requires page >= 0 && size > 0
    ensures offset == page * size
    ensures 0 <= offset <= INT_MAX * INT_MAX
  {
    MulMono(page, INT_MAX, size);
    MulMono(size, INT_MAX, INT_MAX);
    WrapLong(page * size)
  }

  /** `findPage`: the page size normalised to 10 when not positive, the page
      index to 0 when negative; the content is the slice
      `[offset, offset + size)` of the listing (`LIMIT size OFFSET
      offset`), and `totalElements` is the row count. */
  function FindPage(t: Table, order: seq<Int64>, page: Int32, size: Int32): (r: PagedResult<Product>)
    requires IsCreatedOnOrder(t, order)
    requires |t| <= LONG_MAX
    ensures size > 0 ==> r.size == size
    ensures size <= 0 ==> r.size == DEFAULT_PAGE_SIZE
    ensures page >= 0 ==> r.page == page
    ensures page < 0 ==> r.page == 0
    ensures r.totalElements == |t|
    ensures |r.content| <= r.size
    ensures ListingSlice(t, order, PageOffset(r.page, r.size), r.size, r.content)
    ensures NewestFirst(t, r.content)
  {
    var sizeSafe: Int32 := if size <= 0 then DEFAULT_PAGE_SIZE else size;
    var pageSafe: Int32 := if page < 0 then 0 else page;
    var offset := PageOffset(pageSafe, sizeSafe);
    PagedResult(Window(t, order, offset, sizeSafe), |t|, pageSafe, sizeSafe)
  }

  /** `content` is what `LIMIT size OFFSET offset` returns from the
      listing `order` of `t`: the rows at listing positions `offset`,
      `offset + 1`, ..., as many as there are up to `size`. */
  ghost predicate ListingSlice(t: Table, order: seq<Int64>, offset: int, size: int, content: seq<Product>) {
    && |content| == (if offset >= |t| then 0 else Min(size, |t| - offset))
    && forall i | 0 <= i < |content| ::
         && 0 <= offset + i < |order| && order[offset + i] in t
         && content[i] == ToProduct(order[offset + i], t[order[offset + i]])
  }

  /** `LIMIT size OFFSET offset` over the listing, through the row mapper. */
  function Window(t: Table, order: seq<Int64>, offset: int, size: int): (content: seq<Product>)
    requires IsCreatedOnOrder(t, order)
    requires 0 <= offset && 0 < size
    ensures ListingSlice(t, order, offset, size, content)
    ensures NewestFirst(t, content)
  {
    ListingLength(t, order);
    if offset >= |order| then []
    else
      var n := Min(size, |order| - offset);
      var content := seq(n, i requires 0 <= i < n => ToProduct(order[offset + i], t[order[offset + i]]));
      SliceIsNewestFirst(t, order, offset, content);
      content
  }

  /** Consecutive listing positions, read through the row mapper, are rows
      of the table, newest first. */
  lemma SliceIsNewestFirst(t: Table, order: seq<Int64>, lo: int, content: seq<Product>)
    requires IsCreatedOnOrder(t, order)
    requires 0 <= lo && lo + |content| <= |order|
    requires forall i | 0 <= i < |content| :: content[i] == ToProduct(order[lo + i], t[order[lo + i]])
    ensures NewestFirst(t, content)
  {
    forall i, j | 0 <= i < j < |content|
      ensures t[content[i].id.value].createdOn >= t[content[j].id.value].createdOn
    {
      assert content[i].id.value == order[lo + i];
      assert content[j].id.value == order[lo + j];
    }
  }

  /** Paging through the listing: the row at position `page * size + j`
      of the listing is entry `j` of page `page`, and that page is one of
      the `totalPages` pages. */
  lemma RowIsOnItsPage(t: Table, order: seq<Int64>, size: Int32, page: Int32, j: int)
    requires IsCreatedOnOrder(t, order)
    requires |t| <= INT_MAX && size > 0 && page >= 0 && 0 <= j < size
    requires page * size + j < |order|
    ensures var p := FindPage(t, order, page, size);
      && page < TotalPages(p)
      && j < |p.content|
      && p.content[j] == ToProduct(order[page * size + j], t[order[page * size + j]])
  {
    ListingLength(t, order);
    var p := FindPage(t, order, page, size);
    MulMono(1, size, INT_MAX);
    TotalPagesIsCeiling(p);
    var n := TotalPages(p);
    if n <= page {
      MulMono(n, page, size);
    }
  }

  /** Each page is its own query, and `ORDER BY created_on DESC` leaves
      the order of rows with equal `created_on` to the database, query by
      query. Two rows created at the same instant, one row per page: both
      orders are listings of the table, and page 0 under the first and
      page 1 under the second both show row 1, while row 2 is on neither. */
  lemma TiedRowsCanRepeatAcrossPages()
    ensures var row := Row(None, None, None, None, None, None, None, 0);
      var t: Table := map[1 := row, 2 := row];
      && IsCreatedOnOrder(t, [1, 2]) && IsCreatedOnOrder(t, [2, 1])
      && FindPage(t, [1, 2], 0, 1).content == [ToProduct(1, row)]
      && FindPage(t, [2, 1], 1, 1).content == [ToProduct(1, row)]
      && TotalPages(FindPage(t, [1, 2], 0, 1)) == 2
  {
    var row := Row(None, None, None, None, None, None, None, 0);
    var t: Table := map[1 := row, 2 := row];
    assert t.Keys == {1, 2};
    assert IsCreatedOnOrder(t, [1, 2]) && IsCreatedOnOrder(t, [2, 1]);
    var p := FindPage(t, [1, 2], 0, 1);
    assert p.totalElements == 2;
    TotalPagesIsCeiling(p);
    var n := TotalPages(p);
    assert n == 2;
  }

  /** A listing whose `created_on` ties are broken by id, highest first:
      what `ORDER BY created_on DESC, id DESC` returns. */
  ghost predicate IsTieBrokenOrder(t: Table, order: seq<Int64>) {
    && IsCreatedOnOrder(t, order)
    && forall i, j | 0 <= i < j < |order| :: t[order[i]].createdOn == t[order[j]].createdOn ==> order[i] > order[j]
  }

  /** Every table has a tie-broken listing: the row that comes first by
      `created_on` and then id, followed by a tie-broken listing of the
      rest. */
  ghost function TieBrokenOrder(t: Table): (order: seq<Int64>)
    ensures IsTieBrokenOrder(t, order)
    decreases t.Keys
  {
    if t == map[] then []
    else
      FirstAmong(t, t.Keys);
      var k :| k in t && forall k' | k' in t :: ListedNoEarlier(t[k'].createdOn, k', t[k].createdOn, k);
      var order := TieBrokenOrder(t - {k});
      FirstThenRest(t, k, order);
      [k] + order
  }

  lemma FirstThenRest(t: Table, k: Int64, order: seq<Int64>)
    requires k in t && forall k' | k' in t :: ListedNoEarlier(t[k'].createdOn, k', t[k].createdOn, k)
    requires IsTieBrokenOrder(t - {k}, order)
    ensures IsTieBrokenOrder(t, [k] + order)
  {
    var rest := t - {k};
    assert forall k' | k' in t :: t[k'].createdOn <= t[k].createdOn;
    NewestThenRest(t, k, order);
    assert forall i | 0 <= i < |order| :: order[i] in rest && rest[order[i]] == t[order[i]];
    TiesAfterFirst(t, k, order);
  }

  /** Ties in a listing of the rest stay broken when the first row by
      `created_on` and then id is put in front. */
  lemma TiesAfterFirst(t: Table, k: Int64, order: seq<Int64>)
    requires k in t && forall k' | k' in t :: ListedNoEarlier(t[k'].createdOn, k', t[k].createdOn, k)
    requires forall i | 0 <= i < |order| :: order[i] in t && order[i] != k
    requires forall i, j | 0 <= i < j < |order| :: t[order[i]].createdOn == t[order[j]].createdOn ==> order[i] > order[j]
    ensures var o := [k] + order;
      forall i, j | 0 <= i < j < |o| :: t[o[i]].createdOn == t[o[j]].createdOn ==> o[i] > o[j]
  {
    var o := [k] + order;
    forall i, j | 0 <= i < j < |o| && t[o[i]].createdOn == t[o[j]].createdOn
      ensures o[i] > o[j]
    {
      if i == 0 {
        assert ListedNoEarlier(t[o[j]].createdOn, o[j], t[k].createdOn, k);
      } else {
        assert o[i] == order[i - 1] && o[j] == order[j - 1];
      }
    }
  }

  /** With ties broken the listing is fixed by the table: every query sees
      the same one. */
  lemma TieBrokenOrderIsUnique(t: Table, o1: seq<Int64>, o2: seq<Int64>)
    requires IsTieBrokenOrder(t, o1) && IsTieBrokenOrder(t, o2)
    ensures o1 == o2
  {
    ListingLength(t, o1);
    ListingLength(t, o2);
    SamePrefix(t, o1, o2, |o1|);
    assert o1 == o1[..|o1|] && o2 == o2[..|o2|];
  }

  lemma {:induction false} SamePrefix(t: Table, o1: seq<Int64>, o2: seq<Int64>, n: nat)
    requires IsTieBrokenOrder(t, o1) && IsTieBrokenOrder(t, o2)
    requires |o1| == |o2| && n <= |o1|
    ensures o1[..n] == o2[..n]
  {
    if n > 0 {
      SamePrefix(t, o1, o2, n - 1);
      var a, b := o1[n - 1], o2[n - 1];
      var j := EarlierIn(t, o1, o2, n, a);
      var j' := EarlierIn(t, o2, o1, n, b);
      assert a == b;
      assert o1[..n] == o1[..n - 1] + [a] && o2[..n] == o2[..n - 1] + [b];
    }
  }

  /** Where the `n - 1`-th key of one listing sits in another that agrees
      with it before `n - 1`: at `n - 1` or later. */
  lemma EarlierIn(t: Table, o1: seq<Int64>, o2: seq<Int64>, n: nat, a: Int64) returns (j: nat)
    requires IsTieBrokenOrder(t, o1) && IsTieBrokenOrder(t, o2)
    requires 0 < n <= |o1| == |o2| && o1[..n - 1] == o2[..n - 1] && a == o1[n - 1]
    ensures j < |o2| && o2[j] == a && n - 1 <= j
  {
    assert a in t;
    j :| 0 <= j < |o2| && o2[j] == a;
  }

  /** Pages fetched by separate queries, each reading its own listing, show
      each row at most once, once the listing breaks ties: equal entries of
      two pages are the same slot of the same page. */
  lemma PagesDoNotOverlap(t: Table, o1: seq<Int64>, o2: seq<Int64>, size: Int32, page1: Int32, page2: Int32)
    requires IsTieBrokenOrder(t, o1) && IsTieBrokenOrder(t, o2)
    requires |t| <= LONG_MAX && size > 0 && 0 <= page1 && 0 <= page2
    ensures var c1, c2 := FindPage(t, o1, page1, size).content, FindPage(t, o2, page2, size).content;
      forall i1, i2 | 0 <= i1 < |c1| && 0 <= i2 < |c2| && c1[i1] == c2[i2] :: page1 == page2 && i1 == i2
  {
    TieBrokenOrderIsUnique(t, o1, o2);
    SlotsOfOneListing(t, o1, size, page1, page2);
  }

  /** Within one listing, pages of one size never share a position. */
  lemma SlotsOfOneListing(t: Table, order: seq<Int64>, size: Int32, page1: Int32, page2: Int32)
    requires IsCreatedOnOrder(t, order) && |t| <= LONG_MAX && size > 0
    requires 0 <= page1 && 0 <= page2
    ensures var c1, c2 := FindPage(t, order, page1, size).content, FindPage(t, order, page2, size).content;
      forall i1, i2 | 0 <= i1 < |c1| && 0 <= i2 < |c2| && c1[i1] == c2[i2] :: page1 == page2 && i1 == i2
  {
    var o1, o2 := PageOffset(page1, size), PageOffset(page2, size);
    var c1, c2 := FindPage(t, order, page1, size).content, FindPage(t, order, page2, size).content;
    forall i1, i2 | 0 <= i1 < |c1| && 0 <= i2 < |c2| && c1[i1] == c2[i2]
      ensures page1 == page2 && i1 == i2
    {
      assert c1[i1].id == Some(order[o1 + i1]);
      assert c2[i2].id == Some(order[o2 + i2]);
      SameSlot(page1, page2, size, i1, i2);
    }
  }

  /** When no two rows share a `created_on`, every listing is already
      tie-broken. */
  lemma DistinctCreatedOnNeedsNoTieBreak(t: Table, order: seq<Int64>)
    requires IsCreatedOnOrder(t, order)
    requires forall k, k' | k in t && k' in t && k != k' :: t[k].createdOn != t[k'].createdOn
    ensures IsTieBrokenOrder(t, order)
  {
  }

  /** Positions `page * size + j` with `0 <= j < size` name each slot
      once. */
  lemma SameSlot(page1: int, page2: int, size: int, i1: int, i2: int)
    requires 0 <= page1 && 0 <= page2 && 0 <= i1 < size && 0 <= i2 < size
    requires page1 * size + i1 == page2 * size + i2
    ensures page1 == page2 && i1 == i2
  {
    if page1 < page2 {
      MulMono(page1 + 1, page2, size);
    } else if page2 < page1 {
      MulMono(page2 + 1, page1, size);
    }
  }

  /* ---------------------------------------------------------------------
     Title search
     --------------------------------------------------------------------- */

  /** The `ILIKE` pattern: the trimmed query between two `%`. */
  function SearchPattern(query: string): string {
    "%" + Trim(query) + "%"
  }

  /** `title ILIKE pattern`; a null title matches nothing. */
  predicate TitleMatches(row: Row, pattern: string) {
    row.title.Some? && ILike(row.title.value, pattern)
  }

  /** The keys of the listing whose rows match, in listing order. */
  function MatchingIds(t: Table, order: seq<Int64>, pattern: string): (ids: seq<Int64>)
    requires forall i | 0 <= i < |order| :: order[i] in t
    ensures forall i | 0 <= i < |ids| :: ids[i] in t && TitleMatches(t[ids[i]], pattern)
    ensures forall k | k in t && k in order && TitleMatches(t[k], pattern) :: k in ids
    ensures forall i | 0 <= i < |ids| :: ids[i] in order
    ensures (forall i, j | 0 <= i < j < |order| :: t[order[i]].createdOn >= t[order[j]].createdOn) ==>
            (forall i, j | 0 <= i < j < |ids| :: t[ids[i]].createdOn >= t[ids[j]].createdOn)
  {
    if order == [] then []
    else
      var rest := MatchingIds(t, order[1..], pattern);
      if TitleMatches(t[order[0]], pattern) then [order[0]] + rest else rest
  }

  /** Where in the listing each match sits: the matches keep their places,
      so of two matches the one found first comes first in the listing. */
  ghost function MatchPositions(t: Table, order: seq<Int64>, pattern: string): (ps: seq<nat>)
    requires forall i | 0 <= i < |order| :: order[i] in t
    ensures var ids := MatchingIds(t, order, pattern);
      && |ps| == |ids|
      && (forall n | 0 <= n < |ps| :: ps[n] < |order| && order[ps[n]] == ids[n])
      && (forall n, m | 0 <= n < m < |ps| :: ps[n] < ps[m])
  {
    if order == [] then []
    else
      var ps := MatchPositions(t, order[1..], pattern);
      var matched := TitleMatches(t[order[0]], pattern);
      ShiftedPositions(order, MatchingIds(t, order[1..], pattern), MatchingIds(t, order, pattern), matched, ps)
  }

  /** Positions in `order[1..]` moved up by one, behind position 0 when
      the head of the listing matched. */
  function ShiftedPositions(order: seq<Int64>, rest: seq<Int64>, ids: seq<Int64>, matched: bool, ps: seq<nat>): (ps': seq<nat>)
    requires order != []
    requires ids == if matched then [order[0]] + rest else rest
    requires |ps| == |rest|
    requires forall n | 0 <= n < |ps| :: ps[n] < |order| - 1 && order[1..][ps[n]] == rest[n]
    requires forall n, m | 0 <= n < m < |ps| :: ps[n] < ps[m]
    ensures |ps'| == |ids|
    ensures forall n | 0 <= n < |ps'| :: ps'[n] < |order| && order[ps'[n]] == ids[n]
    ensures forall n, m | 0 <= n < m < |ps'| :: ps'[n] < ps'[m]
  {
    var shifted := Shift(order, rest, ps);
    if matched then
      assert forall n | 1 <= n < |ids| :: ids[n] == rest[n - 1];
      [0] + shifted
    else shifted
  }

  /** Positions in `order[1..]` as positions in `order`. */
  function Shift(order: seq<Int64>, rest: seq<Int64>, ps: seq<nat>): (shifted: seq<nat>)
    requires order != [] && |ps| == |rest|
    requires forall n | 0 <= n < |ps| :: ps[n] < |order| - 1 && order[1..][ps[n]] == rest[n]
    requires forall n, m | 0 <= n < m < |ps| :: ps[n] < ps[m]
    ensures |shifted| == |rest|
    ensures forall n | 0 <= n < |shifted| :: 0 < shifted[n] < |order| && order[shifted[n]] == rest[n]
    ensures forall n, m | 0 <= n < m < |shifted| :: shifted[n] < shifted[m]
  {
    seq(|ps|, n requires 0 <= n < |ps| => ps[n] + 1)
  }

  /** A listing names each key once, so the matches name each key once. */
  lemma MatchingIdsAreDistinct(t: Table, order: seq<Int64>, pattern: string)
    requires forall i | 0 <= i < |order| :: order[i] in t
    requires forall i, j | 0 <= i < j < |order| :: order[i] != order[j]
    ensures var ids := MatchingIds(t, order, pattern);
      forall i, j | 0 <= i < j < |ids| :: ids[i] != ids[j]
  {
    var ps := MatchPositions(t, order, pattern);
  }

  /** `searchByTitle`: a null or blank query finds nothing without asking
      the database; otherwise the rows whose title matches `%trimmed%`,
      newest first, at most `limit` of them. The database refuses a
      negative `LIMIT`. */
  function SearchByTitle(t: Table, order: seq<Int64>, title: Option<string>, limit: Int32): (r: Result<seq<Product>, QueryError>)
    requires IsCreatedOnOrder(t, order)
    ensures (title.None? || IsBlank(title.value)) ==> r == Ok([])
    ensures r.Err? <==> (title.Some? && !IsBlank(title.value) && limit < 0)
    ensures r.Ok? && title.Some? && !IsBlank(title.value) ==>
      && |r.value| <= limit
      && NewestFirst(t, r.value)
      && (forall i, j | 0 <= i < j < |r.value| :: r.value[i].id != r.value[j].id)
      && (forall i | 0 <= i < |r.value| :: TitleMatches(t[r.value[i].id.value], SearchPattern(title.value)))
      && (forall k | k in t && TitleMatches(t[k], SearchPattern(title.value)) ::
            ToProduct(k, t[k]) in r.value
            || (|r.value| == limit && forall i | 0 <= i < |r.value| :: t[r.value[i].id.value].createdOn >= t[k].createdOn))
  {
    if title.None? || IsBlank(title.value) then Ok([])
    else if limit < 0 then Err(NegativeLimit)
    else
      var ids := MatchingIds(t, order, SearchPattern(title.value));
      var n := Min(limit, |ids|);
      var found := seq(n, i requires 0 <= i < n => ToProduct(ids[i], t[ids[i]]));
      FirstMatchesAreNewest(t, order, SearchPattern(title.value), ids, limit, found);
      Ok(found)
  }

  /** The first `limit` matches: any match left out is no newer than each
      one kept. */
  lemma FirstMatchesAreNewest(t: Table, order: seq<Int64>, pattern: string, ids: seq<Int64>, limit: int, found: seq<Product>)
    requires IsCreatedOnOrder(t, order) && 0 <= limit
    requires ids == MatchingIds(t, order, pattern)
    requires |found| == Min(limit, |ids|)
    requires forall i | 0 <= i < |found| :: found[i] == ToProduct(ids[i], t[ids[i]])
    ensures NewestFirst(t, found)
    ensures forall i, j | 0 <= i < j < |found| :: found[i].id != found[j].id
    ensures forall k | k in t && TitleMatches(t[k], pattern) ::
      ToProduct(k, t[k]) in found
      || (|found| == limit && forall i | 0 <= i < |found| :: t[found[i].id.value].createdOn >= t[k].createdOn)
  {
    MatchingIdsAreDistinct(t, order, pattern);
    forall k | k in t && TitleMatches(t[k], pattern)
      ensures ToProduct(k, t[k]) in found
        || (|found| == limit && forall i | 0 <= i < |found| :: t[found[i].id.value].createdOn >= t[k].createdOn)
    {
      assert k in order;
      assert k in ids;
      var j :| 0 <= j < |ids| && ids[j] == k;
      if j < |found| {
        assert found[j] == ToProduct(k, t[k]);
      }
    }
  }

  /** For a query without `%`, `_` or backslash, the search means "the
      title contains the trimmed query, letter case aside": every result's
      title contains it, and a row whose title contains it is missing only
      when the result is already `limit` newer-or-equal rows. */
  lemma SearchFindsTitlesContainingQuery(t: Table, order: seq<Int64>, query: string, limit: Int32)
    requires IsCreatedOnOrder(t, order)
    requires !IsBlank(query) && HasNoSpecials(Trim(query)) && limit >= 0
    ensures var r := SearchByTitle(t, order, Some(query), limit);
      && r.Ok?
      && (forall i | 0 <= i < |r.value| ::
            r.value[i].title.Some? && ContainsIgnoringCase(r.value[i].title.value, Trim(query)))
      && (forall k | k in t && t[k].title.Some? && ContainsIgnoringCase(t[k].title.value, Trim(query)) ::
            ToProduct(k, t[k]) in r.value || |r.value| == limit)
  {
    var r := SearchByTitle(t, order, Some(query), limit);
    var q := Trim(query);
    assert SearchPattern(query) == "%" + q + "%";
    forall i | 0 <= i < |r.value|
      ensures r.value[i].title.Some? && ContainsIgnoringCase(r.value[i].title.value, q)
    {
      SearchPatternMeansContains(r.value[i].title.value, q);
    }
    forall k | k in t && t[k].title.Some? && ContainsIgnoringCase(t[k].title.value, q)
      ensures ToProduct(k, t[k]) in r.value || |r.value| == limit
    {
      SearchPatternMeansContains(t[k].title.value, q);
    }
  }
}
