/** The scheduled reconciliation: fetch the product feed, then write each
    product that carries an `id` into the table, in feed order, at most
    `MAX_PRODUCTS` of them, catching every exception at the end. The HTTP
    request, Jackson's value conversions and the database's behaviour are
    parameters. */
module Sync {
  import opened Wrappers
  import opened Jvm
  import opened Repository

  /** The cap on writes per run. */
  const MAX_PRODUCTS: nat := 50

  /** A parsed JSON document, as Jackson's tree of nodes. */
  datatype Json =
    | JNull
    | JBool(b: bool)
    | JNumber(n: int)
    | JString(s: string)
    | JArray(items: seq<Json>)
    | JObject(fields: map<string, Json>)

  /** What the blocking feed request produced: an exception, or the body
      parsed as a tree (null when the body was empty). */
  datatype Fetch = FetchFailed | Fetched(root: Option<Json>)

  /** Jackson's `asLong()` and `asText()`, left abstract. Neither throws. */
  datatype Conversions = Conversions(asLong: Json -> Int64, asText: Json -> string)

  /** What the database does during one run, call by call: the time it
      stamps on a row the `n`-th write inserts, and the ordinals of the
      writes that fail. */
  datatype Store = Store(clock: nat -> Instant, refused: set<nat>)

  /** What the run logs: no `products` array, the number of products
      written, or a caught exception. */
  datatype SyncOutcome = NoProductsArray | Completed(count: nat) | Failed

  /** `JsonNode.get(name)`: the field of an object node, null on any other
      node and for an absent field. */
  function Get(node: Json, name: string): (r: Option<Json>)
    ensures r.Some? <==> node.JObject? && name in node.fields
    ensures r.Some? ==> r.value == node.fields[name]
  {
    if node.JObject? && name in node.fields then Some(node.fields[name]) else None
  }

  /** `root?.get("products")`, when it is an array node: its elements. */
  function ProductsArray(root: Option<Json>): (items: Option<seq<Json>>)
    ensures items.Some? <==> root.Some? && Get(root.value, "products").Some? && Get(root.value, "products").value.JArray?
    ensures items.Some? ==> Get(root.value, "products").value == JArray(items.value)
  {
    if root.None? then None
    else match Get(root.value, "products")
      case Some(JArray(items)) => Some(items)
      case _ => None
  }

  predicate HasId(node: Json) {
    Get(node, "id").Some?
  }

  /** The entries that carry an `id`, in feed order. */
  function WithId(items: seq<Json>): (r: seq<Json>)
    ensures |r| <= |items|
    ensures forall j | 0 <= j < |r| :: HasId(r[j])
    ensures (forall i | 0 <= i < |items| :: HasId(items[i])) ==> r == items
  {
    if items == [] then []
    else
      var last := items[|items| - 1];
      assert items == items[..|items| - 1] + [last];
      WithId(items[..|items| - 1]) + (if HasId(last) then [last] else [])
  }

  /** `node.get(name)?.asText()`: an absent field becomes null. */
  function OptText(node: Json, name: string, conv: Conversions): (r: Option<string>)
    ensures r.None? <==> Get(node, name).None?
    ensures r.Some? ==> r.value == conv.asText(Get(node, name).value)
  {
    match Get(node, name)
    case None => None
    case Some(v) => Some(conv.asText(v))
  }

  /** `field` is what `node.get(name)?.asText()` gives: null exactly when
      the node has no such field, and otherwise that field's text. */
  predicate ReadsText(field: Option<string>, node: Json, name: string, conv: Conversions) {
    && (field.None? <==> Get(node, name).None?)
    && (field.Some? ==> field.value == conv.asText(Get(node, name).value))
  }

  /** The arguments of the write for one entry that has an `id`, read
      field by field: the `id` node as a `Long`, and each of the seven
      other fields as text, or null when the entry lacks it. */
  function ToRecord(node: Json, conv: Conversions): (rec: SyncRecord)
    requires HasId(node)
    ensures rec.id == conv.asLong(Get(node, "id").value)
    ensures ReadsText(rec.title, node, "title", conv)
    ensures ReadsText(rec.handle, node, "handle", conv)
    ensures ReadsText(rec.vendor, node, "vendor", conv)
    ensures ReadsText(rec.productType, node, "product_type", conv)
    ensures ReadsText(rec.createdAt, node, "created_at", conv)
    ensures ReadsText(rec.publishedAt, node, "published_at", conv)
    ensures ReadsText(rec.updatedAt, node, "updated_at", conv)
  {
    SyncRecord(
      conv.asLong(Get(node, "id").value),
      OptText(node, "title", conv),
      OptText(node, "handle", conv),
      OptText(node, "vendor", conv),
      OptText(node, "product_type", conv),
      OptText(node, "created_at", conv),
      OptText(node, "published_at", conv),
      OptText(node, "updated_at", conv))
  }

  /** The writes a run attempts: one per entry with an `id`, in feed order,
      up to the cap. */
  function Planned(items: seq<Json>, conv: Conversions): (recs: seq<SyncRecord>)
    ensures |recs| == Min(MAX_PRODUCTS, |WithId(items)|)
    ensures forall i | 0 <= i < |recs| :: recs[i] == ToRecord(WithId(items)[i], conv)
  {
    var chosen := WithId(items);
    var n := Min(MAX_PRODUCTS, |chosen|);
    seq(n, i requires 0 <= i < n => ToRecord(chosen[i], conv))
  }

  /** How many of `n` writes go through before the first one that fails. */
  function FirstRefusal(refused: set<nat>, n: nat): (c: nat)
    ensures c <= n
    ensures forall j: nat | j < c :: j !in refused
    ensures c < n ==> c in refused
  {
    if n == 0 then 0
    else
      var c := FirstRefusal(refused, n - 1);
      if c < n - 1 || n - 1 in refused then c else n
  }

  /** The table after the writes `recs`, in order; the `j`-th write stamps
      `clock(j)` on a row it inserts. */
  function ApplySyncs(t: Table, recs: seq<SyncRecord>, clock: nat -> Instant): Table {
    if recs == [] then t
    else Synced(ApplySyncs(t, recs[..|recs| - 1], clock), recs[|recs| - 1], clock(|recs| - 1))
  }

  /** `syncProducts`: the fetch, the shape check and the `forEach`, with
      every exception caught. */
  method SyncProducts(repo: ProductRepository, fetch: Fetch, conv: Conversions, store: Store)
    returns (outcome: SyncOutcome)
    modifies repo
    ensures fetch.FetchFailed? ==> outcome == Failed && repo.rows == old(repo.rows)
    ensures fetch.Fetched? && ProductsArray(fetch.root).None? ==>
      outcome == NoProductsArray && repo.rows == old(repo.rows)
    ensures fetch.Fetched? && ProductsArray(fetch.root).Some? ==>
      var recs := Planned(ProductsArray(fetch.root).value, conv);
      var done := FirstRefusal(store.refused, |recs|);
      && repo.rows == ApplySyncs(old(repo.rows), recs[..done], store.clock)
      && outcome == if done == |recs| then Completed(done) else Failed
  {
    if fetch.FetchFailed? {
      return Failed;
    }
    var productsNode := ProductsArray(fetch.root);
    if productsNode.None? {
      return NoProductsArray;
    }
    outcome := UpsertEach(repo, productsNode.value, conv, store);
  }

  /** The `forEach` over the `products` array. A failing write throws out
      of the loop, leaving the earlier writes in place. */
  method UpsertEach(repo: ProductRepository, items: seq<Json>, conv: Conversions, store: Store)
    returns (outcome: SyncOutcome)
    modifies repo
    ensures var recs := Planned(items, conv);
      var done := FirstRefusal(store.refused, |recs|);
      && repo.rows == ApplySyncs(old(repo.rows), recs[..done], store.clock)
      && outcome == if done == |recs| then Completed(done) else Failed
  {
    ghost var t0 := repo.rows;
    var count := 0;
    var i := 0;
    while i < |items|
      invariant 0 <= i <= |items|
      invariant Visited(items, i, count, conv, store, t0, repo.rows)
    {
      ghost var before, counted := repo.rows, count;
      var ok;
      ok, count := ForEachBody(repo, items[i], count, conv, store);
      if !ok {
        Refused(items, i, counted, conv, store, t0, repo.rows);
        return Failed;
      }
      VisitedOneMore(items, i, counted, count, conv, store, t0, before, repo.rows);
      i := i + 1;
    }
    Finished(items, count, conv, store, t0, repo.rows);
    return Completed(count);
  }

  /** The loop's invariant: the first `i` entries have been visited,
      `count` writes have gone through, and they are the first `count`
      planned ones. */
  ghost predicate Visited(items: seq<Json>, i: int, count: int, conv: Conversions, store: Store, t0: Table, rows: Table) {
    && 0 <= i <= |items|
    && count == Min(MAX_PRODUCTS, |WithId(items[..i])|)
    && count <= |Planned(items, conv)|
    && FirstRefusal(store.refused, count) == count
    && rows == ApplySyncs(t0, Planned(items, conv)[..count], store.clock)
  }

  /** The body of the `forEach`, for one entry: passed over once `count`
      has reached the cap or when the entry has no `id`; otherwise written
      and counted. `ok` is false when the write throws. */
  method ForEachBody(repo: ProductRepository, productNode: Json, count: nat, conv: Conversions, store: Store)
    returns (ok: bool, count': nat)
    modifies repo
    ensures count >= MAX_PRODUCTS || !HasId(productNode) ==>
      ok && count' == count && repo.rows == old(repo.rows)
    ensures count < MAX_PRODUCTS && HasId(productNode) ==>
      && ok == (count !in store.refused)
      && (ok ==> count' == count + 1 && repo.rows == Synced(old(repo.rows), ToRecord(productNode, conv), store.clock(count)))
      && (!ok ==> repo.rows == old(repo.rows))
  {
    if count >= MAX_PRODUCTS {
      return true, count;
    }
    if Get(productNode, "id").None? {
      return true, count;
    }
    var rec := ToRecord(productNode, conv);
    ok := repo.SyncProduct(rec, store.clock(count), count in store.refused);
    if !ok {
      return false, count;
    }
    return true, count + 1;
  }

  lemma VisitedOneMore(items: seq<Json>, i: int, count: nat, count': nat, conv: Conversions, store: Store, t0: Table, before: Table, after: Table)
    requires 0 <= i < |items| && Visited(items, i, count, conv, store, t0, before)
    requires count >= MAX_PRODUCTS || !HasId(items[i]) ==> count' == count && after == before
    requires count < MAX_PRODUCTS && HasId(items[i]) ==>
      && count !in store.refused
      && count' == count + 1 && after == Synced(before, ToRecord(items[i], conv), store.clock(count))
    ensures Visited(items, i + 1, count', conv, store, t0, after)
  {
    if count < MAX_PRODUCTS && HasId(items[i]) {
      WrittenOne(items, i, count, conv, store, t0, before);
    } else {
      WithIdStep(items, i);
    }
  }

  lemma WrittenOne(items: seq<Json>, i: int, count: nat, conv: Conversions, store: Store, t0: Table, before: Table)
    requires 0 <= i < |items| && Visited(items, i, count, conv, store, t0, before)
    requires count < MAX_PRODUCTS && HasId(items[i]) && count !in store.refused
    ensures Visited(items, i + 1, count + 1, conv, store, t0, Synced(before, ToRecord(items[i], conv), store.clock(count)))
  {
    var recs := Planned(items, conv);
    NextPlanned(items, i, count, conv);
    ApplyOneMore(t0, recs, count, store.clock);
    assert FirstRefusal(store.refused, count + 1) == count + 1;
  }

  lemma Refused(items: seq<Json>, i: int, count: nat, conv: Conversions, store: Store, t0: Table, rows: Table)
    requires 0 <= i < |items| && Visited(items, i, count, conv, store, t0, rows)
    requires count < MAX_PRODUCTS && HasId(items[i]) && count in store.refused
    ensures var recs := Planned(items, conv);
      && FirstRefusal(store.refused, |recs|) == count < |recs|
      && rows == ApplySyncs(t0, recs[..count], store.clock)
  {
    NextPlanned(items, i, count, conv);
    FirstRefusalIs(store.refused, |Planned(items, conv)|, count);
  }

  lemma Finished(items: seq<Json>, count: nat, conv: Conversions, store: Store, t0: Table, rows: Table)
    requires Visited(items, |items|, count, conv, store, t0, rows)
    ensures var recs := Planned(items, conv);
      && FirstRefusal(store.refused, |recs|) == count == |recs|
      && rows == ApplySyncs(t0, recs[..count], store.clock)
  {
    assert items[..|items|] == items;
  }

  /** The entry at `i`, carrying an `id` and met below the cap, is the
      next planned write. */
  lemma NextPlanned(items: seq<Json>, i: int, count: nat, conv: Conversions)
    requires 0 <= i < |items| && HasId(items[i])
    requires count == Min(MAX_PRODUCTS, |WithId(items[..i])|) < MAX_PRODUCTS
    ensures count < |Planned(items, conv)|
    ensures Planned(items, conv)[count] == ToRecord(items[i], conv)
    ensures count + 1 == Min(MAX_PRODUCTS, |WithId(items[..i + 1])|)
  {
    WithIdStep(items, i);
    WithIdPrefix(items, i + 1);
    assert WithId(items)[count] == WithId(items[..i + 1])[count];
  }

  lemma ApplyOneMore(t: Table, recs: seq<SyncRecord>, count: nat, clock: nat -> Instant)
    requires count < |recs|
    ensures ApplySyncs(t, recs[..count + 1], clock) == Synced(ApplySyncs(t, recs[..count], clock), recs[count], clock(count))
  {
    assert recs[..count + 1][..count] == recs[..count];
  }

  /** The first refusal is the one the run stopped at. */
  lemma FirstRefusalIs(refused: set<nat>, n: nat, c: nat)
    requires c <= n && (forall j: nat | j < c :: j !in refused) && (c < n ==> c in refused)
    ensures FirstRefusal(refused, n) == c
  {
  }

  lemma WithIdStep(items: seq<Json>, i: int)
    requires 0 <= i < |items|
    ensures WithId(items[..i + 1]) == WithId(items[..i]) + if HasId(items[i]) then [items[i]] else []
  {
    assert items[..i + 1][..i] == items[..i];
  }

  /** Filtering a prefix gives a prefix of the filtered feed. */
  lemma {:induction false} WithIdPrefix(items: seq<Json>, i: int)
    requires 0 <= i <= |items|
    ensures |WithId(items[..i])| <= |WithId(items)|
    ensures WithId(items[..i]) == WithId(items)[..|WithId(items[..i])|]
    decreases |items| - i
  {
    if i < |items| {
      var n := |items| - 1;
      WithIdPrefix(items[..n], i);
      assert items[..n][..i] == items[..i];
      var extra := if HasId(items[n]) then [items[n]] else [];
      assert WithId(items) == WithId(items[..n]) + extra;
    } else {
      assert items[..i] == items;
    }
  }
}

module SyncProperties {
  import opened Wrappers
  import opened Jvm
  import opened Repository
  import opened Sync

  /** Where in the feed each entry of `WithId(items)` sits: every entry with
      an `id` is taken, once, in feed order. */
  ghost function IdPositions(items: seq<Json>): (ps: seq<nat>)
    ensures |ps| == |WithId(items)|
    ensures forall n | 0 <= n < |ps| :: ps[n] < |items| && items[ps[n]] == WithId(items)[n]
    ensures forall n, m | 0 <= n < m < |ps| :: ps[n] < ps[m]
    ensures forall p | 0 <= p < |items| && HasId(items[p]) :: p in ps
  {
    if items == [] then []
    else
      var last := |items| - 1;
      var ps := IdPositions(items[..last]);
      var ps' := if HasId(items[last]) then ps + [last] else ps;
      PositionsStep(items, ps, ps');
      ps'
  }

  /** One more entry at the end of the feed: its position is added when it
      has an `id`. */
  lemma PositionsStep(items: seq<Json>, ps: seq<nat>, ps': seq<nat>)
    requires items != []
    requires var front := items[..|items| - 1];
      && |ps| == |WithId(front)|
      && (forall n | 0 <= n < |ps| :: ps[n] < |front| && front[ps[n]] == WithId(front)[n])
      && (forall n, m | 0 <= n < m < |ps| :: ps[n] < ps[m])
      && (forall p | 0 <= p < |front| && HasId(front[p]) :: p in ps)
    requires ps' == if HasId(items[|items| - 1]) then ps + [|items| - 1] else ps
    ensures |ps'| == |WithId(items)|
    ensures forall n | 0 <= n < |ps'| :: ps'[n] < |items| && items[ps'[n]] == WithId(items)[n]
    ensures forall n, m | 0 <= n < m < |ps'| :: ps'[n] < ps'[m]
    ensures forall p | 0 <= p < |items| && HasId(items[p]) :: p in ps'
  {
    var last := |items| - 1;
    var front := items[..last];
    var extra := if HasId(items[last]) then [items[last]] else [];
    assert WithId(items) == WithId(front) + extra;
    PositionsStepContent(items, front, WithId(front), WithId(items), extra, ps, ps');
    PositionsStepCover(items, front, ps, ps');
  }

  lemma PositionsStepContent(items: seq<Json>, front: seq<Json>, w: seq<Json>, w': seq<Json>, extra: seq<Json>, ps: seq<nat>, ps': seq<nat>)
    requires items != [] && front == items[..|items| - 1]
    requires extra == (if HasId(items[|items| - 1]) then [items[|items| - 1]] else [])
    requires w' == w + extra
    requires |ps| == |w| && forall n | 0 <= n < |ps| :: ps[n] < |front| && front[ps[n]] == w[n]
    requires ps' == if HasId(items[|items| - 1]) then ps + [|items| - 1] else ps
    ensures |ps'| == |w'|
    ensures forall n | 0 <= n < |ps'| :: ps'[n] < |items| && items[ps'[n]] == w'[n]
  {
    forall n | 0 <= n < |ps'|
      ensures ps'[n] < |items| && items[ps'[n]] == w'[n]
    {
      if n < |ps| {
        assert items[ps[n]] == front[ps[n]];
      }
    }
  }

  lemma PositionsStepCover(items: seq<Json>, front: seq<Json>, ps: seq<nat>, ps': seq<nat>)
    requires items != [] && front == items[..|items| - 1]
    requires forall p | 0 <= p < |front| && HasId(front[p]) :: p in ps
    requires ps' == if HasId(items[|items| - 1]) then ps + [|items| - 1] else ps
    ensures forall p | 0 <= p < |items| && HasId(items[p]) :: p in ps'
  {
    forall p | 0 <= p < |items| && HasId(items[p])
      ensures p in ps'
    {
      if p < |items| - 1 {
        assert front[p] == items[p];
      }
    }
  }

  /** A run writes at most `MAX_PRODUCTS` products, and exactly the first
      `MAX_PRODUCTS` entries with an `id` when the feed has that many. */
  lemma {:induction false} AtMostFiftyWrites(items: seq<Json>, conv: Conversions)
    ensures |Planned(items, conv)| <= MAX_PRODUCTS
    ensures |WithId(items)| >= MAX_PRODUCTS ==> |Planned(items, conv)| == MAX_PRODUCTS
    ensures |WithId(items)| <= MAX_PRODUCTS ==> |Planned(items, conv)| == |WithId(items)|
  {
  }

  /** One entry without an `id` among ten: nine writes are planned. */
  lemma OneMalformedEntryOfTen(items: seq<Json>, m: int, conv: Conversions)
    requires |items| == 10 && 0 <= m < 10 && !HasId(items[m])
    requires forall j | 0 <= j < |items| && j != m :: HasId(items[j])
    ensures |Planned(items, conv)| == 9
  {
    OnlyOneWithoutId(items, m);
  }

  lemma {:induction false} OnlyOneWithoutId(items: seq<Json>, m: int)
    requires 0 <= m < |items| && !HasId(items[m])
    requires forall j | 0 <= j < |items| && j != m :: HasId(items[j])
    ensures |WithId(items)| == |items| - 1
  {
    var last := |items| - 1;
    var front := items[..last];
    assert WithId(items) == WithId(front) + if HasId(items[last]) then [items[last]] else [];
    if m < last {
      OnlyOneWithoutId(front, m);
    }
  }

  /** The last of `recs` that writes `k`, if any. */
  function LastFor(recs: seq<SyncRecord>, k: Int64): (r: Option<SyncRecord>)
    ensures r.None? <==> forall i | 0 <= i < |recs| :: recs[i].id != k
    ensures r.Some? ==> r.value.id == k && r.value in recs
    ensures r.Some? ==> exists i | 0 <= i < |recs| :: recs[i] == r.value && forall j | i < j < |recs| :: recs[j].id != k
  {
    if recs == [] then None
    else if recs[|recs| - 1].id == k then Some(recs[|recs| - 1])
    else LastFor(recs[..|recs| - 1], k)
  }

  /** What a sequence of writes leaves: the keys already there plus the
      keys written; for a written key, the columns of its last write; for
      any other key, the old row; and an existing row's `created_on`
      untouched. */
  lemma {:induction false} SyncsResult(t: Table, recs: seq<SyncRecord>, clock: nat -> Instant, k: Int64)
    ensures var t' := ApplySyncs(t, recs, clock);
      && (k in t' <==> k in t || LastFor(recs, k).Some?)
      && (LastFor(recs, k).None? && k in t ==> t'[k] == t[k])
      && (LastFor(recs, k).Some? ==> ToProduct(k, t'[k]) == RecordProduct(LastFor(recs, k).value))
      && (k in t ==> t'[k].createdOn == t[k].createdOn)
  {
    if recs != [] {
      SyncsResult(t, recs[..|recs| - 1], clock, k);
    }
  }

  /** Running the same feed again leaves the table as it is: the writes are
      idempotent as a batch. */
  lemma SyncRunIsIdempotent(t: Table, recs: seq<SyncRecord>, clock: nat -> Instant, later: nat -> Instant)
    ensures ApplySyncs(ApplySyncs(t, recs, clock), recs, later) == ApplySyncs(t, recs, clock)
  {
    var t1 := ApplySyncs(t, recs, clock);
    var t2 := ApplySyncs(t1, recs, later);
    forall k ensures (k in t2 <==> k in t1) && (k in t1 ==> t2[k] == t1[k]) {
      SyncsResult(t, recs, clock, k);
      SyncsResult(t1, recs, later, k);
    }
    assert t2.Keys == t1.Keys;
  }

  /** A run cut short by a failing write is healed by the next complete
      run: every lookup then answers as if the complete run had been the
      only one. */
  lemma PartialRunIsHealed(t: Table, recs: seq<SyncRecord>, done: nat, first: nat -> Instant, next: nat -> Instant, alone: nat -> Instant, k: Int64)
    requires done <= |recs|
    ensures FindById(ApplySyncs(ApplySyncs(t, recs[..done], first), recs, next), k)
         == FindById(ApplySyncs(t, recs, alone), k)
  {
    var t1 := ApplySyncs(t, recs[..done], first);
    SyncsResult(t, recs[..done], first, k);
    SyncsResult(t1, recs, next, k);
    SyncsResult(t, recs, alone, k);
    if LastFor(recs[..done], k).Some? {
      var i :| 0 <= i < done && recs[..done][i].id == k;
      assert recs[i].id == k;
    }
  }
}
