/** The product controller: products, their image rows, and the
    reconciliation of a product's image rows against an update payload. */
module Products {
  import opened Common

  /** A `products` row. The price is kept as the request's raw text: the
      controller stores it and never computes with it. */
  datatype Product = Product(categoryId: Id, name: string, price: string, description: string)

  /** A `product_images` row. */
  datatype ProductImage = ProductImage(productId: Id, name: string, priority: int)

  /** A product with its image rows eagerly loaded, as the controller answers. */
  datatype ProductView = ProductView(id: Id, product: Product, images: map<Id, ProductImage>)

  /** One entry of the `images` array of a request; every key may be absent. */
  datatype ImageEntry = ImageEntry(id: Option<Id>, name: Option<string>, priority: Option<int>)

  /** The body of a store or update request; every key may be absent. */
  datatype ProductRequest = ProductRequest(
    categoryId: Option<Id>,
    name: Option<string>,
    price: Option<string>,
    description: Option<string>,
    images: Option<seq<ImageEntry>>)

  /** The tables the controller reads and writes, with the auto-increment
      counters of `products` and `product_images`. Only the keys of the
      `categories` table matter here. */
  datatype Tables = Tables(
    categories: set<Id>,
    products: map<Id, Product>,
    productImages: map<Id, ProductImage>,
    nextProductId: Id,
    nextImageId: Id)

  /** Every key is below its counter, and every image row names a product
      id that has been handed out (rows are only ever created for an
      existing product). */
  predicate TablesValid(t: Tables)
  {
    && (forall k :: k in t.products ==> k < t.nextProductId)
    && (forall k :: k in t.productImages ==>
          k < t.nextImageId && t.productImages[k].productId < t.nextProductId)
  }

  // ----- Validation (the rules of `store` and `update`) -----

  /** `category_id` is required and exists; `name`, `price`, `description`
      are required. */
  predicate FieldsValid(req: ProductRequest, categories: set<Id>)
  {
    && req.categoryId.Some? && req.categoryId.value in categories
    && Filled(req.name) && Filled(req.price) && Filled(req.description)
  }

  /** `images.*.name` and `images.*.priority` are required. */
  predicate EntryValid(e: ImageEntry)
  {
    Filled(e.name) && e.priority.Some?
  }

  predicate EntriesValid(es: seq<ImageEntry>)
  {
    forall j :: 0 <= j < |es| ==> EntryValid(es[j])
  }

  /** `images.*.id`, when present, exists in `product_images` (any
      product's row). */
  predicate IdsExist(es: seq<ImageEntry>, imageIds: set<Id>)
  {
    forall j :: 0 <= j < |es| && es[j].id.Some? ==> es[j].id.value in imageIds
  }

  predicate StoreRequestValid(req: ProductRequest, categories: set<Id>)
  {
    FieldsValid(req, categories) && (req.images.Some? ==> EntriesValid(req.images.value))
  }

  predicate UpdateRequestValid(req: ProductRequest, categories: set<Id>, imageIds: set<Id>)
  {
    StoreRequestValid(req, categories) && (req.images.Some? ==> IdsExist(req.images.value, imageIds))
  }

  // ----- Rows built from a request -----

  /** The product row that `create`/`update` write from the request. */
  function RowOf(req: ProductRequest): Product
    requires req.categoryId.Some? && req.name.Some? && req.price.Some? && req.description.Some?
  {
    Product(req.categoryId.value, req.name.value, req.price.value, req.description.value)
  }

  /** The image row built from one payload entry for product `pid`. */
  function RowFor(pid: Id, e: ImageEntry): ProductImage
    requires EntryValid(e)
  {
    ProductImage(pid, e.name.value, e.priority.value)
  }

  /** The `images` payload, or no entries when the key is absent. */
  function Entries(req: ProductRequest): seq<ImageEntry>
  {
    if req.images.Some? then req.images.value else []
  }

  /** The rows collected for a bulk insert: one per entry, in payload order. */
  function StoredRows(pid: Id, es: seq<ImageEntry>): (rows: seq<ProductImage>)
    requires EntriesValid(es)
    ensures |rows| == |es|
  {
    if es == [] then [] else StoredRows(pid, es[..|es| - 1]) + [RowFor(pid, es[|es| - 1])]
  }

  /** The rows collected for the id-less entries, in payload order. */
  function NewRows(pid: Id, es: seq<ImageEntry>): seq<ProductImage>
    requires EntriesValid(es)
  {
    if es == [] then []
    else
      var last := es[|es| - 1];
      NewRows(pid, es[..|es| - 1]) + (if last.id.None? then [RowFor(pid, last)] else [])
  }

  /** The entries without an `id`, in payload order. */
  function Idless(es: seq<ImageEntry>): seq<ImageEntry>
  {
    if es == [] then []
    else
      var last := es[|es| - 1];
      Idless(es[..|es| - 1]) + (if last.id.None? then [last] else [])
  }

  /** Some entry of the payload carries id `k`. */
  predicate Named(es: seq<ImageEntry>, k: Id)
  {
    exists j :: 0 <= j < |es| && es[j].id == Some(k)
  }

  /** The ids of the id-bearing entries, in payload order (the keep-list). */
  function KeepIds(es: seq<ImageEntry>): seq<Id>
  {
    if es == [] then []
    else
      var last := es[|es| - 1];
      KeepIds(es[..|es| - 1]) + (if last.id.Some? then [last.id.value] else [])
  }

  /** The row updates of the reconciliation loop: each id-bearing entry, in
      payload order, overwrites `name` and `priority` of the row with that
      id, whatever product the row belongs to. */
  function ApplyUpdates(table: map<Id, ProductImage>, es: seq<ImageEntry>): (t: map<Id, ProductImage>)
    requires EntriesValid(es) && IdsExist(es, table.Keys)
    ensures t.Keys == table.Keys
  {
    if es == [] then table
    else
      var t' := ApplyUpdates(table, es[..|es| - 1]);
      var e := es[|es| - 1];
      if e.id.Some? then
        t'[e.id.value := t'[e.id.value].(name := e.name.value, priority := e.priority.value)]
      else t'
  }

  /** The scoped delete: rows of product `pid` whose id is not kept go. */
  function WithoutDropped(table: map<Id, ProductImage>, pid: Id, keep: seq<Id>): map<Id, ProductImage>
  {
    map k | k in table && (table[k].productId != pid || k in keep) :: table[k]
  }

  /** A bulk insert: the rows get consecutive ids from `next` on, in order. */
  function Inserted(table: map<Id, ProductImage>, next: Id, rows: seq<ProductImage>): map<Id, ProductImage>
  {
    if rows == [] then table
    else Inserted(table, next, rows[..|rows| - 1])[next + |rows| - 1 := rows[|rows| - 1]]
  }

  /** The image rows of product `pid`. */
  function ImagesOf(table: map<Id, ProductImage>, pid: Id): map<Id, ProductImage>
  {
    map k | k in table && table[k].productId == pid :: table[k]
  }

  /** Product `id` with its image rows loaded. */
  function View(t: Tables, id: Id): ProductView
    requires id in t.products
  {
    ProductView(id, t.products[id], ImagesOf(t.productImages, id))
  }

  /** The image table after reconciling product `pid` against `es`. */
  function Reconciled(table: map<Id, ProductImage>, pid: Id, es: seq<ImageEntry>, next: Id): map<Id, ProductImage>
    requires EntriesValid(es) && IdsExist(es, table.Keys)
  {
    Inserted(WithoutDropped(ApplyUpdates(table, es), pid, KeepIds(es)), next, NewRows(pid, es))
  }

  // ----- The requests, as functions of the tables -----

  /** `store`: validate, create the product, bulk-insert its image rows. */
  function StoreStep(t: Tables, req: ProductRequest): Step<Tables, ProductView>
  {
    if !StoreRequestValid(req, t.categories) then Step(t, Err(ValidationError))
    else
      var pid := t.nextProductId;
      var rows := StoredRows(pid, Entries(req));
      var after := Tables(t.categories, t.products[pid := RowOf(req)],
                          Inserted(t.productImages, t.nextImageId, rows),
                          pid + 1, t.nextImageId + |rows|);
      Step(after, Ok(View(after, pid)))
  }

  /** The tables after a valid update of product `id`: its row is
      overwritten and, when `images` is present, its image rows reconciled. */
  function UpdatedTables(t: Tables, id: Id, req: ProductRequest): Tables
    requires id in t.products && UpdateRequestValid(req, t.categories, t.productImages.Keys)
  {
    var products := t.products[id := RowOf(req)];
    if req.images.None? then t.(products := products)
    else
      var es := req.images.value;
      t.(products := products,
         productImages := Reconciled(t.productImages, id, es, t.nextImageId),
         nextImageId := t.nextImageId + |Idless(es)|)
  }

  /** `update`: find the product, validate, then write. */
  function UpdateStep(t: Tables, id: Id, req: ProductRequest): Step<Tables, ProductView>
  {
    if id !in t.products then Step(t, Err(NotFound))
    else if !UpdateRequestValid(req, t.categories, t.productImages.Keys) then Step(t, Err(ValidationError))
    else
      var after := UpdatedTables(t, id, req);
      Step(after, Ok(View(after, id)))
  }

  /** `destroy`: find the product and delete its row. */
  function DestroyStep(t: Tables, id: Id): Step<Tables, ()>
  {
    if id !in t.products then Step(t, Err(NotFound))
    else Step(t.(products := t.products - {id}), Ok(()))
  }

  // ----- Properties of the row builders -----

  /** Row `j` of a bulk insert is built from entry `j`. */
  lemma {:induction false} StoredRowsAt(pid: Id, es: seq<ImageEntry>)
    requires EntriesValid(es)
    ensures forall j :: 0 <= j < |es| ==> StoredRows(pid, es)[j] == RowFor(pid, es[j])
  {
    if es != [] {
      var p := es[..|es| - 1];
      assert forall j :: 0 <= j < |p| ==> p[j] == es[j];
      StoredRowsAt(pid, p);
    }
  }

  /** Every id-less entry is an entry of the payload without an id, and the
      payload splits into the id-less entries and the keep-list. */
  lemma {:induction false} IdlessEntries(es: seq<ImageEntry>)
    ensures forall j :: 0 <= j < |Idless(es)| ==> Idless(es)[j].id.None? && Idless(es)[j] in es
    ensures forall x :: multiset(Idless(es))[x] == (if x.id.None? then multiset(es)[x] else 0)
    ensures |Idless(es)| + |KeepIds(es)| == |es|
  {
    if es != [] {
      var p := es[..|es| - 1];
      assert forall x :: x in p ==> x in es;
      assert es == p + [es[|es| - 1]];
      IdlessEntries(p);
    }
  }

  /** Each id-less entry lands in `Idless` right after the id-less entries
      that precede it in the payload, so `Idless` keeps payload order. */
  lemma {:induction false} IdlessOrder(es: seq<ImageEntry>)
    ensures forall j :: 0 <= j < |es| && es[j].id.None? ==>
              |Idless(es[..j])| < |Idless(es)| && Idless(es)[|Idless(es[..j])|] == es[j]
  {
    if es != [] {
      var p := es[..|es| - 1];
      var e := es[|es| - 1];
      IdlessOrder(p);
      assert Idless(es)[..|Idless(p)|] == Idless(p);
      forall j | 0 <= j < |es| && es[j].id.None?
        ensures |Idless(es[..j])| < |Idless(es)| && Idless(es)[|Idless(es[..j])|] == es[j]
      {
        if j < |p| {
          assert es[..j] == p[..j];
          assert p[j] == es[j];
        } else {
          assert es[..j] == p;
        }
      }
    }
  }

  /** The new rows are the rows built from the id-less entries. */
  lemma {:induction false} NewRowsIdless(pid: Id, es: seq<ImageEntry>)
    requires EntriesValid(es)
    ensures EntriesValid(Idless(es))
    ensures NewRows(pid, es) == StoredRows(pid, Idless(es))
  {
    if es != [] {
      var p := es[..|es| - 1];
      var e := es[|es| - 1];
      assert forall j :: 0 <= j < |p| ==> p[j] == es[j];
      NewRowsIdless(pid, p);
      var a := Idless(p);
      if e.id.None? {
        assert Idless(es) == a + [e];
        assert (a + [e])[..|a|] == a;
      } else {
        assert Idless(es) == a;
      }
    }
  }

  /** The keep-list holds exactly the ids the payload names. */
  lemma {:induction false} KeepIdsNamed(es: seq<ImageEntry>)
    ensures forall k :: k in KeepIds(es) <==> Named(es, k)
  {
    if es != [] {
      var p := es[..|es| - 1];
      assert forall j :: 0 <= j < |p| ==> p[j] == es[j];
      KeepIdsNamed(p);
      forall k | Named(es, k) ensures k in KeepIds(es) {
        var j :| 0 <= j < |es| && es[j].id == Some(k);
        if j < |p| {
          assert Named(p, k);
        }
      }
    }
  }

  /** A bulk insert adds exactly the keys `next .. next + |rows| - 1`, row
      `j` at key `next + j`, and leaves every other key as it was. */
  lemma {:induction false} InsertedRows(table: map<Id, ProductImage>, next: Id, rows: seq<ProductImage>)
    ensures forall k :: k in Inserted(table, next, rows) <==> k in table || next <= k < next + |rows|
    ensures forall j :: 0 <= j < |rows| ==> Inserted(table, next, rows)[next + j] == rows[j]
    ensures forall k :: k in table && !(next <= k < next + |rows|) ==> Inserted(table, next, rows)[k] == table[k]
  {
    if rows != [] {
      var p := rows[..|rows| - 1];
      assert forall j :: 0 <= j < |p| ==> p[j] == rows[j];
      InsertedRows(table, next, p);
    }
  }

  // ----- Properties of the row updates -----

  /** The row updates never change a row's product. */
  lemma {:induction false} ApplyUpdatesKeepsProducts(table: map<Id, ProductImage>, es: seq<ImageEntry>)
    requires EntriesValid(es) && IdsExist(es, table.Keys)
    ensures forall k :: k in table ==> ApplyUpdates(table, es)[k].productId == table[k].productId
  {
    if es != [] {
      var p := es[..|es| - 1];
      assert forall j :: 0 <= j < |p| ==> p[j] == es[j];
      ApplyUpdatesKeepsProducts(table, p);
    }
  }

  /** A repeated id ends with the values of the last entry carrying it. */
  lemma {:induction false} ApplyUpdatesLastWins(table: map<Id, ProductImage>, es: seq<ImageEntry>, j: nat)
    requires EntriesValid(es) && IdsExist(es, table.Keys)
    requires j < |es| && es[j].id.Some?
    requires forall i :: j < i < |es| ==> es[i].id != es[j].id
    ensures es[j].id.value in table
    ensures ApplyUpdates(table, es)[es[j].id.value]
            == table[es[j].id.value].(name := es[j].name.value, priority := es[j].priority.value)
  {
    var n := |es| - 1;
    if j < n {
      var prefix := es[..n];
      assert forall i :: 0 <= i < |prefix| ==> prefix[i] == es[i];
      ApplyUpdatesLastWins(table, prefix, j);
    } else {
      ApplyUpdatesKeepsProducts(table, es[..n]);
    }
  }

  /** A row that no entry names keeps its values. */
  lemma {:induction false} ApplyUpdatesUnnamed(table: map<Id, ProductImage>, es: seq<ImageEntry>, k: Id)
    requires EntriesValid(es) && IdsExist(es, table.Keys)
    requires k in table && !Named(es, k)
    ensures ApplyUpdates(table, es)[k] == table[k]
  {
    if es != [] {
      var prefix := es[..|es| - 1];
      assert forall j :: 0 <= j < |prefix| ==> prefix[j] == es[j];
      ApplyUpdatesUnnamed(table, prefix, k);
    }
  }

  /** One turn of the reconciliation loop, on the payload prefix `es[..i]`. */
  lemma ReconcileTurn(table: map<Id, ProductImage>, pid: Id, es: seq<ImageEntry>, i: nat)
    requires EntriesValid(es) && IdsExist(es, table.Keys) && i < |es|
    ensures EntriesValid(es[..i]) && IdsExist(es[..i], table.Keys)
    ensures EntriesValid(es[..i + 1]) && IdsExist(es[..i + 1], table.Keys)
    ensures var e := es[i];
            KeepIds(es[..i + 1]) == KeepIds(es[..i]) + (if e.id.Some? then [e.id.value] else [])
    ensures var e := es[i];
            NewRows(pid, es[..i + 1]) == NewRows(pid, es[..i]) + (if e.id.None? then [RowFor(pid, e)] else [])
    ensures var e := es[i]; var t := ApplyUpdates(table, es[..i]);
            && (e.id.Some? ==> e.id.value in t)
            && ApplyUpdates(table, es[..i + 1])
               == if e.id.Some? then t[e.id.value := t[e.id.value].(name := e.name.value, priority := e.priority.value)]
                  else t
  {
    assert es[..i + 1][..i] == es[..i];
  }

  // ----- Properties of store -----

  /** A rejected store writes nothing. */
  lemma StoreRejects(t: Tables, req: ProductRequest)
    ensures StoreStep(t, req).result.Err? <==> !StoreRequestValid(req, t.categories)
    ensures StoreStep(t, req).result.Err? ==>
              StoreStep(t, req) == Step(t, Err(ValidationError))
  {
  }

  /** A successful store creates exactly one new product row and, with ids
      running from the image counter on in payload order, one image row per
      entry, carrying the new product's id and the entry's name and
      priority; no other row changes. */
  lemma StoreCreatesRows(t: Tables, req: ProductRequest)
    requires TablesValid(t) && StoreRequestValid(req, t.categories)
    ensures var s := StoreStep(t, req); var pid := t.nextProductId;
            var es := Entries(req); var images := s.after.productImages;
            && pid !in t.products
            && s.after.products == t.products[pid := RowOf(req)]
            && (forall k :: k in ImagesOf(images, pid) <==> t.nextImageId <= k < t.nextImageId + |es|)
            && (forall j :: 0 <= j < |es| ==>
                  t.nextImageId + j in images &&
                  images[t.nextImageId + j] == ProductImage(pid, es[j].name.value, es[j].priority.value))
            && (forall k :: k in t.productImages ==> k in images && images[k] == t.productImages[k])
            && (forall k :: k in images ==> k in t.productImages || t.nextImageId <= k < t.nextImageId + |es|)
            && s.result == Ok(ProductView(pid, RowOf(req), ImagesOf(images, pid)))
  {
    var pid := t.nextProductId;
    var es := Entries(req);
    var rows := StoredRows(pid, es);
    var images := Inserted(t.productImages, t.nextImageId, rows);
    assert StoreStep(t, req).after.productImages == images;
    StoredRowsAt(pid, es);
    InsertedRows(t.productImages, t.nextImageId, rows);
    forall k | t.nextImageId <= k < t.nextImageId + |es| ensures k in ImagesOf(images, pid) {
      assert images[t.nextImageId + (k - t.nextImageId)] == rows[k - t.nextImageId];
    }
  }

  // ----- Properties of update -----

  /** Update fails with NotFound exactly when the product is unknown (the
      lookup comes before validation), with ValidationError exactly when the
      product exists and the request breaks a rule, and a failed update
      writes nothing. */
  lemma UpdateRejects(t: Tables, id: Id, req: ProductRequest)
    ensures UpdateStep(t, id, req).result == Err(NotFound) <==> id !in t.products
    ensures UpdateStep(t, id, req).result == Err(ValidationError) <==>
              id in t.products && !UpdateRequestValid(req, t.categories, t.productImages.Keys)
    ensures UpdateStep(t, id, req).result.Err? ==> UpdateStep(t, id, req).after == t
  {
  }

  /** An entry naming an id that is no `product_images` row at all rejects
      the update. */
  lemma UpdateRejectsUnknownImageId(t: Tables, id: Id, req: ProductRequest, j: nat)
    requires id in t.products && req.images.Some?
    requires j < |req.images.value| && req.images.value[j].id.Some?
    requires req.images.value[j].id.value !in t.productImages
    ensures UpdateStep(t, id, req) == Step(t, Err(ValidationError))
  {
  }

  /** Without `images`, only the product's own row changes. */
  lemma UpdateWithoutImages(t: Tables, id: Id, req: ProductRequest)
    requires id in t.products && UpdateRequestValid(req, t.categories, t.productImages.Keys)
    requires req.images.None?
    ensures UpdateStep(t, id, req).after == t.(products := t.products[id := RowOf(req)])
    ensures UpdateStep(t, id, req).result.Ok?
  {
  }

  /** The reconciled table holds, for product `pid`, exactly its prior rows
      that some entry names, plus the newly inserted rows. */
  lemma {:induction false} ReconciledImages(table: map<Id, ProductImage>, pid: Id, es: seq<ImageEntry>, next: Id)
    requires EntriesValid(es) && IdsExist(es, table.Keys)
    requires forall k :: k in table ==> k < next
    ensures EntriesValid(Idless(es))
    ensures var r := Reconciled(table, pid, es, next); var added := Idless(es);
            && (forall k :: k in ImagesOf(r, pid) <==>
                  (k in ImagesOf(table, pid) && Named(es, k)) || next <= k < next + |added|)
            && (forall k :: next <= k < next + |added| ==>
                  k in r && r[k] == ProductImage(pid, added[k - next].name.value, added[k - next].priority.value))
  {
    NewRowsIdless(pid, es);
    var added := Idless(es);
    var updated := ApplyUpdates(table, es);
    var kept := WithoutDropped(updated, pid, KeepIds(es));
    var rows := StoredRows(pid, added);
    var r := Inserted(kept, next, rows);
    assert r == Reconciled(table, pid, es, next);
    StoredRowsAt(pid, added);
    KeepIdsNamed(es);
    ApplyUpdatesKeepsProducts(table, es);
    InsertedRows(kept, next, rows);
    forall k
      ensures k in ImagesOf(r, pid) <==> (k in ImagesOf(table, pid) && Named(es, k)) || next <= k < next + |added|
    {
      if k in table {
        assert k in kept <==> table[k].productId != pid || Named(es, k);
        if k in kept {
          assert r[k] == kept[k] == updated[k];
        }
      } else if next <= k < next + |rows| {
        assert r[next + (k - next)] == rows[k - next];
      }
    }
    forall k | next <= k < next + |added|
      ensures k in r && r[k] == ProductImage(pid, added[k - next].name.value, added[k - next].priority.value)
    {
      assert r[next + (k - next)] == rows[k - next];
    }
  }

  /** With `images`, the rows of the product afterwards are exactly its
      prior rows named by some entry, plus one new row per id-less entry,
      numbered from the image counter on in payload order. */
  lemma UpdateProductImages(t: Tables, id: Id, req: ProductRequest)
    requires TablesValid(t) && id in t.products
    requires UpdateRequestValid(req, t.categories, t.productImages.Keys) && req.images.Some?
    ensures EntriesValid(Idless(req.images.value))
    ensures var es := req.images.value; var added := Idless(es); var next := t.nextImageId;
            var images := UpdateStep(t, id, req).after.productImages;
            && (forall k :: k in ImagesOf(images, id) <==>
                  (k in ImagesOf(t.productImages, id) && Named(es, k)) || next <= k < next + |added|)
            && (forall k :: next <= k < next + |added| ==>
                  k in images && images[k] == ProductImage(id, added[k - next].name.value, added[k - next].priority.value))
  {
    var es := req.images.value;
    assert UpdateStep(t, id, req).after.productImages == Reconciled(t.productImages, id, es, t.nextImageId) by {
      assert UpdateStep(t, id, req).after == UpdatedTables(t, id, req);
    }
    ReconciledImages(t.productImages, id, es, t.nextImageId);
  }

  /** An id-bearing entry overwrites `name` and `priority` of that row but
      never its `product_id`, even when the row belongs to another product;
      the last entry carrying the id wins; the row survives the delete. */
  lemma UpdateOverwritesNamedRow(t: Tables, id: Id, req: ProductRequest, j: nat)
    requires TablesValid(t) && id in t.products
    requires UpdateRequestValid(req, t.categories, t.productImages.Keys) && req.images.Some?
    requires j < |req.images.value| && req.images.value[j].id.Some?
    requires forall i :: j < i < |req.images.value| ==> req.images.value[i].id != req.images.value[j].id
    ensures var e := req.images.value[j]; var k := e.id.value;
            var images := UpdateStep(t, id, req).after.productImages;
            && k in t.productImages && k in images
            && images[k] == t.productImages[k].(name := e.name.value, priority := e.priority.value)
  {
    var es := req.images.value;
    var k := es[j].id.value;
    ApplyUpdatesLastWins(t.productImages, es, j);
    KeepIdsNamed(es);
    assert k in KeepIds(es);
    var updated := ApplyUpdates(t.productImages, es);
    var kept := WithoutDropped(updated, id, KeepIds(es));
    assert UpdateStep(t, id, req).after.productImages == Inserted(kept, t.nextImageId, NewRows(id, es)) by {
      assert UpdateStep(t, id, req).after == UpdatedTables(t, id, req);
    }
    InsertedRows(kept, t.nextImageId, NewRows(id, es));
  }

  /** Rows of other products keep their product and survive; those that no
      entry names are untouched; every row afterwards is an old row or a new
      one; the product table changes only at `id`. */
  lemma UpdateOtherRows(t: Tables, id: Id, req: ProductRequest)
    requires TablesValid(t) && id in t.products
    requires UpdateRequestValid(req, t.categories, t.productImages.Keys) && req.images.Some?
    ensures var es := req.images.value; var s := UpdateStep(t, id, req);
            var images := s.after.productImages;
            && (forall k :: k in t.productImages && t.productImages[k].productId != id ==>
                  k in images && images[k].productId == t.productImages[k].productId)
            && (forall k :: k in t.productImages && t.productImages[k].productId != id && !Named(es, k) ==>
                  images[k] == t.productImages[k])
            && (forall k :: k in images ==>
                  k in t.productImages || t.nextImageId <= k < t.nextImageId + |Idless(es)|)
            && (forall k :: k in t.productImages && k in images ==>
                  images[k].productId == t.productImages[k].productId)
            && (forall k :: k in t.productImages && t.productImages[k].productId == id && !Named(es, k) ==>
                  k !in images)
            && s.after.products == t.products[id := RowOf(req)]
  {
    var es := req.images.value;
    var updated := ApplyUpdates(t.productImages, es);
    var kept := WithoutDropped(updated, id, KeepIds(es));
    var images := Inserted(kept, t.nextImageId, NewRows(id, es));
    assert UpdateStep(t, id, req).after == UpdatedTables(t, id, req);
    assert UpdateStep(t, id, req).after.productImages == images;
    NewRowsIdless(id, es);
    ApplyUpdatesKeepsProducts(t.productImages, es);
    KeepIdsNamed(es);
    InsertedRows(kept, t.nextImageId, NewRows(id, es));
    forall k | k in t.productImages && t.productImages[k].productId != id && !Named(es, k)
      ensures images[k] == t.productImages[k]
    {
      ApplyUpdatesUnnamed(t.productImages, es, k);
    }
  }

  /** An empty `images` array deletes every image row of the product. */
  lemma UpdateEmptyImagesDeletesAll(t: Tables, id: Id, req: ProductRequest)
    requires TablesValid(t) && id in t.products
    requires UpdateRequestValid(req, t.categories, t.productImages.Keys) && req.images == Some([])
    ensures ImagesOf(UpdateStep(t, id, req).after.productImages, id) == map[]
  {
    UpdateProductImages(t, id, req);
  }

  /** The image table of the example below, after the reconciliation. */
  lemma ForeignRowReconciled(table: map<Id, ProductImage>, es: seq<ImageEntry>)
    requires table == map[5 := ProductImage(1, "x.png", 1), 7 := ProductImage(2, "y.png", 1)]
    requires es == [ImageEntry(Some(7), Some("a.png"), Some(2))]
    requires EntriesValid(es)
    ensures IdsExist(es, table.Keys)
    ensures Reconciled(table, 1, es, 8) == map[7 := ProductImage(2, "a.png", 2)]
    ensures Idless(es) == []
  {
    assert es[..0] == [];
    var updated := map[5 := ProductImage(1, "x.png", 1), 7 := ProductImage(2, "a.png", 2)];
    assert ApplyUpdates(table, es) == updated;
    assert KeepIds(es) == [7];
    assert Idless(es) == [];
    var kept := map[7 := ProductImage(2, "a.png", 2)];
    assert WithoutDropped(updated, 1, [7]) == kept;
    assert NewRows(1, es) == [];
    assert Inserted(kept, 8, []) == kept;
  }

  /** Because the id lookup is not scoped to the product, an entry naming
      another product's row rewrites that row and leaves the product being
      updated without it: product 1 owns row 5, product 2 owns row 7, and
      updating product 1 with the single entry {id: 7, name: "a.png",
      priority: 2} deletes row 5, renames row 7 (still product 2's) and
      leaves product 1 with no image. */
  lemma ForeignRowExample(t: Tables, req: ProductRequest)
    requires t == Tables({1}, map[1 := Product(1, "p", "1", "d"), 2 := Product(1, "q", "2", "e")],
                         map[5 := ProductImage(1, "x.png", 1), 7 := ProductImage(2, "y.png", 1)], 3, 8)
    requires req == ProductRequest(Some(1), Some("p"), Some("1"), Some("d"),
                                   Some([ImageEntry(Some(7), Some("a.png"), Some(2))]))
    ensures UpdateStep(t, 1, req).result.Ok?
    ensures UpdateStep(t, 1, req).after.productImages == map[7 := ProductImage(2, "a.png", 2)]
    ensures ImagesOf(UpdateStep(t, 1, req).after.productImages, 1) == map[]
  {
    ExampleRequestValid(t, req);
    ForeignRowReconciled(t.productImages, req.images.value);
    var kept := map[7 := ProductImage(2, "a.png", 2)];
    var after := UpdatedTables(t, 1, req);
    assert after.productImages == kept;
    assert ImagesOf(kept, 1) == map[];
  }

  /** The request of the example passes update's validation. */
  lemma ExampleRequestValid(t: Tables, req: ProductRequest)
    requires t.categories == {1} && t.productImages.Keys == {5, 7}
    requires req == ProductRequest(Some(1), Some("p"), Some("1"), Some("d"),
                                   Some([ImageEntry(Some(7), Some("a.png"), Some(2))]))
    ensures EntriesValid(req.images.value)
    ensures UpdateRequestValid(req, t.categories, t.productImages.Keys)
  {
    assert "p"[0] !in TrimmedChars && "1"[0] !in TrimmedChars && "d"[0] !in TrimmedChars;
    assert "a.png"[0] !in TrimmedChars;
  }

  // ----- Properties of destroy -----

  /** Destroy fails with NotFound on an unknown id; otherwise it removes
      exactly that product row and leaves the image rows as they were; a
      second destroy of the same id fails with NotFound. */
  lemma DestroyRemovesOnlyProduct(t: Tables, id: Id)
    ensures DestroyStep(t, id).result.Ok? <==> id in t.products
    ensures DestroyStep(t, id).result.Err? ==> DestroyStep(t, id) == Step(t, Err(NotFound))
    ensures DestroyStep(t, id).after.products == t.products - {id}
    ensures DestroyStep(t, id).after.productImages == t.productImages
    ensures DestroyStep(DestroyStep(t, id).after, id).result == Err(NotFound)
  {
  }

  // ----- The invariant -----

  lemma StoreKeepsValid(t: Tables, req: ProductRequest)
    requires TablesValid(t)
    ensures TablesValid(StoreStep(t, req).after)
  {
    if StoreRequestValid(req, t.categories) {
      var pid := t.nextProductId;
      var rows := StoredRows(pid, Entries(req));
      var images := Inserted(t.productImages, t.nextImageId, rows);
      assert StoreStep(t, req).after
             == Tables(t.categories, t.products[pid := RowOf(req)], images, pid + 1, t.nextImageId + |rows|);
      StoredRowsAt(pid, Entries(req));
      InsertedRows(t.productImages, t.nextImageId, rows);
      forall k | k in images ensures k < t.nextImageId + |rows| && images[k].productId < pid + 1 {
        if k !in t.productImages {
          assert images[t.nextImageId + (k - t.nextImageId)] == rows[k - t.nextImageId];
        }
      }
    }
  }

  /** Reconciling keeps every key below the advanced counter and every
      product id below `bound`. */
  lemma ReconciledValid(table: map<Id, ProductImage>, pid: Id, es: seq<ImageEntry>, next: Id, bound: Id)
    requires EntriesValid(es) && IdsExist(es, table.Keys)
    requires forall k :: k in table ==> k < next && table[k].productId < bound
    requires pid < bound
    ensures var r := Reconciled(table, pid, es, next);
            forall k :: k in r ==> k < next + |Idless(es)| && r[k].productId < bound
  {
    NewRowsIdless(pid, es);
    var added := Idless(es);
    var updated := ApplyUpdates(table, es);
    var kept := WithoutDropped(updated, pid, KeepIds(es));
    var rows := StoredRows(pid, added);
    var r := Inserted(kept, next, rows);
    assert r == Reconciled(table, pid, es, next);
    StoredRowsAt(pid, added);
    ApplyUpdatesKeepsProducts(table, es);
    InsertedRows(kept, next, rows);
    forall k | k in r ensures k < next + |added| && r[k].productId < bound {
      if k in table {
        assert r[k] == kept[k] == updated[k];
      } else {
        assert r[next + (k - next)] == rows[k - next];
      }
    }
  }

  lemma UpdateKeepsValid(t: Tables, id: Id, req: ProductRequest)
    requires TablesValid(t)
    ensures TablesValid(UpdateStep(t, id, req).after)
  {
    if id in t.products && UpdateRequestValid(req, t.categories, t.productImages.Keys) {
      assert UpdateStep(t, id, req).after == UpdatedTables(t, id, req);
      if req.images.Some? {
        ReconciledValid(t.productImages, id, req.images.value, t.nextImageId, t.nextProductId);
      }
    }
  }

  lemma DestroyKeepsValid(t: Tables, id: Id)
    requires TablesValid(t)
    ensures TablesValid(DestroyStep(t, id).after)
  {
  }

  // ----- The controller -----

  /** The controller over its tables: each request is a sequence of
      updates of the fields, as the PHP controller issues its queries. */
  class ProductController {
    var categories: set<Id>
    var products: map<Id, Product>
    var productImages: map<Id, ProductImage>
    var nextProductId: Id
    var nextImageId: Id

    function State(): Tables
      reads this
    {
      Tables(categories, products, productImages, nextProductId, nextImageId)
    }

    ghost predicate Valid()
      reads this
    {
      TablesValid(State())
    }

    /** Empty product tables beside the given category ids; auto-increment
        counters start at 1. */
    constructor (categoryIds: set<Id>)
      ensures Valid()
      ensures State() == Tables(categoryIds, map[], map[], 1, 1)
    {
      categories := categoryIds;
      products := map[];
      productImages := map[];
      nextProductId := 1;
      nextImageId := 1;
    }

    /** `getById`: the product with exactly its own image rows, or NotFound. */
    function GetById(id: Id): (r: Result<ProductView>)
      reads this
      ensures r.Err? <==> id !in products
      ensures r.Err? ==> r.error == NotFound
      ensures r.Ok? ==> r.value.id == id && r.value.product == products[id]
      ensures r.Ok? ==> forall k :: k in r.value.images <==>
                          k in productImages && productImages[k].productId == id
      ensures r.Ok? ==> forall k :: k in r.value.images ==> r.value.images[k] == productImages[k]
    {
      if id in products then Ok(View(State(), id)) else Err(NotFound)
    }

    /** `index`: every product with its image rows, as `getById` gives it. */
    function Index(): (r: map<Id, ProductView>)
      reads this
      ensures r.Keys == products.Keys
      ensures forall id :: id in r ==> GetById(id) == Ok(r[id])
    {
      map id | id in products :: View(State(), id)
    }

    /** `store`. */
    method Store(req: ProductRequest) returns (r: Result<ProductView>)
      requires Valid()
      modifies this
      ensures Valid()
      ensures State() == StoreStep(old(State()), req).after
      ensures r == StoreStep(old(State()), req).result
      ensures r.Ok? ==> GetById(r.value.id) == r
    {
      if !StoreRequestValid(req, categories) {
        return Err(ValidationError);
      }
      ghost var before := State();
      var pid := nextProductId;
      products := products[pid := RowOf(req)];
      nextProductId := nextProductId + 1;
      var imagesData: seq<ProductImage> := [];
      if req.images.Some? {
        var images := req.images.value;
        var i := 0;
        while i < |images|
          invariant 0 <= i <= |images|
          invariant EntriesValid(images[..i])
          invariant imagesData == StoredRows(pid, images[..i])
        {
          assert images[..i + 1][..i] == images[..i];
          imagesData := imagesData + [RowFor(pid, images[i])];
          i := i + 1;
        }
        assert images[..i] == images;
      }
      if imagesData != [] {
        productImages := Inserted(productImages, nextImageId, imagesData);
        nextImageId := nextImageId + |imagesData|;
      } else {
        assert Inserted(productImages, nextImageId, imagesData) == productImages;
      }
      r := Ok(View(State(), pid));
      StoreKeepsValid(before, req);
    }

    /** `update`. */
    method Update(id: Id, req: ProductRequest) returns (r: Result<ProductView>)
      requires Valid()
      modifies this
      ensures Valid()
      ensures State() == UpdateStep(old(State()), id, req).after
      ensures r == UpdateStep(old(State()), id, req).result
      ensures r.Ok? ==> GetById(id) == r
    {
      if id !in products {
        return Err(NotFound);
      }
      if !UpdateRequestValid(req, categories, productImages.Keys) {
        return Err(ValidationError);
      }
      ghost var before := State();
      products := products[id := RowOf(req)];
      if req.images.Some? {
        ReconcileImages(id, req.images.value);
      }
      assert State() == UpdatedTables(before, id, req);
      r := Ok(View(State(), id));
      UpdateKeepsValid(before, id, req);
    }

    /** The reconciliation of product `id`'s image rows against `images`:
        the loop overwrites rows and collects the keep-list and the new
        rows, then the scoped delete and the bulk insert run. */
    method ReconcileImages(id: Id, images: seq<ImageEntry>)
      requires EntriesValid(images) && IdsExist(images, productImages.Keys)
      modifies this
      ensures productImages == Reconciled(old(productImages), id, images, old(nextImageId))
      ensures nextImageId == old(nextImageId) + |Idless(images)|
      ensures categories == old(categories) && products == old(products)
      ensures nextProductId == old(nextProductId)
    {
      ghost var table := productImages;
      var existingImageIds: seq<Id> := [];
      var newImagesData: seq<ProductImage> := [];
      var i := 0;
      while i < |images|
        invariant 0 <= i <= |images|
        invariant existingImageIds == KeepIds(images[..i])
        invariant EntriesValid(images[..i])
        invariant newImagesData == NewRows(id, images[..i])
        invariant productImages == ApplyUpdates(table, images[..i])
        invariant categories == old(categories) && products == old(products)
        invariant nextProductId == old(nextProductId) && nextImageId == old(nextImageId)
      {
        var image := images[i];
        ReconcileTurn(table, id, images, i);
        if image.id.Some? {
          existingImageIds := existingImageIds + [image.id.value];
          // The lookup cannot fail: validation saw the id, and the loop
          // only overwrites rows.
          var row := productImages[image.id.value];
          productImages := productImages[image.id.value := row.(name := image.name.value, priority := image.priority.value)];
        } else {
          newImagesData := newImagesData + [RowFor(id, image)];
        }
        i := i + 1;
      }
      assert images[..i] == images;
      NewRowsIdless(id, images);
      productImages := WithoutDropped(productImages, id, existingImageIds);
      if newImagesData != [] {
        productImages := Inserted(productImages, nextImageId, newImagesData);
        nextImageId := nextImageId + |newImagesData|;
      } else {
        assert Inserted(productImages, nextImageId, newImagesData) == productImages;
      }
    }

    /** `destroy`. */
    method Destroy(id: Id) returns (r: Result<()>)
      requires Valid()
      modifies this
      ensures Valid()
      ensures State() == DestroyStep(old(State()), id).after
      ensures r == DestroyStep(old(State()), id).result
      ensures GetById(id) == Err(NotFound)
    {
      if id !in products {
        return Err(NotFound);
      }
      products := products - {id};
      r := Ok(());
    }
  }
}
