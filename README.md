# Catalog controllers: products with image rows, categories with image files

This project models the two controllers of a small Laravel catalog API and proves properties of them:

- **ProductController** keeps three tables:
  - `products`;
  - `product_images`, where each row has a `product_id`, a `name` and a `priority`;
  - the keys of `categories`, which validation checks `category_id` against.

  `store` creates a product and bulk-inserts one image row per payload entry. `update` overwrites the product row. When the payload has an `images` array, update then reconciles the image rows against it:
  - every entry carrying an `id` overwrites that row's `name` and `priority`;
  - the product's rows whose ids the payload does not name are deleted;
  - the entries without an `id` are bulk-inserted.

  `getById` returns a product with its image rows. `destroy` deletes a product row.
- **CategoryController** keeps the `categories` table beside the files in two public directories, `uploads` and `thumbnail`:
  - `store` saves an uploaded image under a generated name `N`, with its 150x150 thumbnail `150x150_N`, in `uploads`;
  - `update` unlinks the old files and saves new ones, named after the clock;
  - `delete` removes the image's two files where present, then the row.

Each controller is a `class` whose fields are the tables (and, for categories, the file set). Each request is a method that changes the fields step by step, as the PHP does:
- the product methods have the `foreach` loops, which build the keep-list, the rows to insert and the row overwrites;
- the category methods are sequences of file writes, unlinks and row writes.

Every method is proved equal to a step function on a value of the whole state: `StoreStep`, `UpdateStep`, `DestroyStep` and `DeleteStep` return the new state and the answer. The properties are lemmas about those step functions and the helpers they use.

Mapping to Dafny:
- Errors become `Result` values: `NotFound` for a failed `findOrFail`, `ValidationError` for a 400 answer, and `ServerError` for an exception such as a failed `unlink`.
- Laravel's `required` on text is `Filled`: the field is present, and not blank after PHP's `trim`.
- `exists:` is membership in the modelled table.
- The rules `image`, `mimes` and `max` are predicates on an abstract `Upload`: its recognised type, the client's extension, its size in kilobytes, and the text it compares as.
- Auto-increment keys start at 1 and grow by one per inserted row; a bulk insert numbers its rows consecutively, in payload order.
- `uniqid()` and the two `time()` readings in category update are parameters of the methods.

Three behaviours of the code differ from what a reader might expect of these operations; the model keeps the code's behaviour:

- **Image set after a product update.** A full reconciliation would leave the product with exactly the payload's ids plus the new rows. The code instead looks up an entry's `id` in the whole `product_images` table (`ProductController.php:228`). So an entry naming another product's row rewrites that row, and the row stays with its own product. The product being updated then does not keep that id. `ForeignRowExample` shows this, and `UpdateProductImages` states what the set really is.
- **Old files on category update.** Store writes the thumbnail as `uploads/150x150_<old>`, but update unlinks `thumbnail/<old>` and `uploads/<old>` without an existence check (`CategoryController.php:190-191`). A missing file aborts the request, and the real thumbnail is never removed. Once every file is in `uploads`, as store leaves it, an update with a new image always fails (`UpdateFailsOnUploadsOnly`).
- **Validation.** Store and update do not share their image rules: `max:2048` appears only in update (`CategoryController.php:182` against line 104). Neither has a uniqueness rule for the category name.

## Model

| member | source | states |
|---|---|---|
| Products.StoreRequestValid | app/Http/Controllers/ProductController.php:105-112 | defines store's rules: `category_id` present and an existing category, `name`, `price`, `description` filled, every image entry with a filled name and a priority; no contract of its own, specified by `StoreRejects` |
| Products.UpdateRequestValid | app/Http/Controllers/ProductController.php:205-213 | defines update's rules: store's rules plus every entry id present in `product_images`; no contract of its own, specified by `UpdateRejects` and `UpdateRejectsUnknownImageId` |
| Products.StoreStep | app/Http/Controllers/ProductController.php:101-139 | defines store's new tables and answer; no contract of its own, specified by `StoreRejects`, `StoreCreatesRows` and `StoreKeepsValid` |
| Products.RowOf | app/Http/Controllers/ProductController.php:118 | defines the columns `Product::create($input)` writes, and `$product->update($input)` at line 219; no contract of its own, specified by `StoreCreatesRows`, `UpdateWithoutImages` and `UpdateOtherRows` |
| Products.RowFor | app/Http/Controllers/ProductController.php:123-127 | defines the row array built from one entry, here and at lines 234-238; no contract of its own, specified by `StoredRowsAt`, `ReconciledImages` and `StoreCreatesRows` |
| Products.ImagesOf | app/Http/Controllers/ProductController.php:136 | defines the `product_images` relation that `load` eagerly loads, as `with` does at lines 21 and 51; no contract of its own, specified by `ProductController.GetById`'s ensures and `StoreCreatesRows` |
| Products.View | app/Http/Controllers/ProductController.php:251 | defines the answered product with its loaded image rows; no contract of its own, specified by `ProductController.GetById`'s ensures, which `ProductController.Store` and `ProductController.Update` tie their answers to |
| Products.KeepIds | app/Http/Controllers/ProductController.php:227 | defines the keep-list the update loop collects; no contract of its own, specified by `KeepIdsNamed` |
| Products.NewRows | app/Http/Controllers/ProductController.php:234-238 | defines the new rows the update loop collects; no contract of its own, specified by `NewRowsIdless` |
| Products.WithoutDropped | app/Http/Controllers/ProductController.php:242-244 | defines the scoped delete; no contract of its own, used by `ReconciledImages` and `UpdateOtherRows` |
| Products.Inserted | app/Http/Controllers/ProductController.php:247 | defines the bulk insert; no contract of its own, specified by `InsertedRows` |
| Products.Reconciled | app/Http/Controllers/ProductController.php:221-248 | defines the image table after the loop, the scoped delete and the insert; no contract of its own, specified by `ReconciledImages` and `ReconciledValid` |
| Products.UpdatedTables | app/Http/Controllers/ProductController.php:219-249 | defines the tables after a valid update; no contract of its own, specified through `UpdateStep`'s lemmas |
| Products.UpdateStep | app/Http/Controllers/ProductController.php:200-254 | defines update's new tables and answer; no contract of its own, specified by `UpdateRejects`, `UpdateProductImages`, `UpdateOverwritesNamedRow`, `UpdateOtherRows` and `UpdateKeepsValid` |
| Products.DestroyStep | app/Http/Controllers/ProductController.php:280-286 | defines destroy's new tables and answer; no contract of its own, specified by `DestroyRemovesOnlyProduct` and `DestroyKeepsValid` |
| Products.StoredRows | app/Http/Controllers/ProductController.php:120-130 | store collects exactly one row per payload entry |
| Products.StoredRowsAt | app/Http/Controllers/ProductController.php:122-129 | row `j` of store's bulk insert carries the new product id and entry `j`'s name and priority |
| Products.ApplyUpdates | app/Http/Controllers/ProductController.php:225-232 | the row overwrites of the update loop neither add nor remove a row |
| Products.ApplyUpdatesKeepsProducts | app/Http/Controllers/ProductController.php:229-232 | an overwrite touches `name` and `priority` only, never `product_id` |
| Products.ApplyUpdatesLastWins | app/Http/Controllers/ProductController.php:225-232 | a row named by several entries ends with the last entry's name and priority |
| Products.ApplyUpdatesUnnamed | app/Http/Controllers/ProductController.php:225-232 | a row no entry names keeps its values through the loop |
| Products.KeepIdsNamed | app/Http/Controllers/ProductController.php:226-227 | the keep-list holds exactly the ids some entry carries |
| Products.IdlessEntries | app/Http/Controllers/ProductController.php:233-239 | the collected new entries are id-less payload entries; each id-less entry is collected exactly as often as it occurs in the payload and no id-bearing one is; they and the keep-list together account for every entry |
| Products.IdlessOrder | app/Http/Controllers/ProductController.php:233-239 | the collected new entries keep payload order: an id-less entry sits right after the id-less entries that precede it |
| Products.NewRowsIdless | app/Http/Controllers/ProductController.php:234-238 | the rows the update loop collects are those built, in order, from the id-less entries for the product being updated |
| Products.InsertedRows | app/Http/Controllers/ProductController.php:246-248 | a bulk insert adds exactly the consecutive keys from the counter on, row `j` at the `j`-th, and leaves every other row alone |
| Products.ReconcileTurn | app/Http/Controllers/ProductController.php:225-240 | one turn of the update loop extends the keep-list, the new rows and the overwrites by exactly that entry's contribution |
| Products.StoreRejects | app/Http/Controllers/ProductController.php:105-116 | store fails exactly when a rule is broken, with ValidationError, and writes nothing |
| Products.StoreCreatesRows | app/Http/Controllers/ProductController.php:118-138 | a store creates one product row under a fresh id, one image row per entry with consecutive ids in payload order, changes no other row, and answers with the product and exactly its rows |
| Products.UpdateRejects | app/Http/Controllers/ProductController.php:202-217 | NotFound exactly for an unknown id, before validation; ValidationError exactly for a known id with a broken rule; neither writes anything |
| Products.UpdateRejectsUnknownImageId | app/Http/Controllers/ProductController.php:210 | an entry id that is no image row at all rejects the update |
| Products.UpdateWithoutImages | app/Http/Controllers/ProductController.php:219-221 | without `images` only the product row is overwritten |
| Products.ReconciledImages | app/Http/Controllers/ProductController.php:221-248 | after reconciliation the product owns exactly its prior rows that some entry names plus one new row per id-less entry, with the entry's name and priority |
| Products.UpdateProductImages | app/Http/Controllers/ProductController.php:219-249 | the same statement about a successful update's tables |
| Products.UpdateOverwritesNamedRow | app/Http/Controllers/ProductController.php:226-232 | a named row, whatever its product, survives with the last naming entry's name and priority and its old product id |
| Products.UpdateOtherRows | app/Http/Controllers/ProductController.php:225-248 | other products' rows survive with their product, those no entry names are untouched, every row afterwards is old or new, no surviving row changes product, the product's own rows that no entry names are deleted, and only the updated product row changes |
| Products.UpdateEmptyImagesDeletesAll | app/Http/Controllers/ProductController.php:242-244 | an empty `images` array deletes every image row of the product |
| Products.ForeignRowReconciled | app/Http/Controllers/ProductController.php:228-244 | the concrete reconciliation below: row 5 is deleted, and row 7, named but owned by product 2, is rewritten |
| Products.ForeignRowExample | app/Http/Controllers/ProductController.php:228-244 | updating product 1 with an entry naming product 2's row 7 succeeds, rewrites row 7 within product 2 and leaves product 1 without images |
| Products.ExampleRequestValid | app/Http/Controllers/ProductController.php:205-213 | the example's request passes every rule of update |
| Products.DestroyRemovesOnlyProduct | app/Http/Controllers/ProductController.php:282-283 | destroy fails with NotFound exactly on an unknown id, otherwise removes exactly that product row and no image row, and a second destroy fails with NotFound |
| Products.StoreKeepsValid | app/Http/Controllers/ProductController.php:118-134 | store keeps every key below its counter and every image row's product id below the product counter |
| Products.ReconciledValid | app/Http/Controllers/ProductController.php:225-248 | reconciliation keeps keys below the advanced counter and product ids below the bound |
| Products.UpdateKeepsValid | app/Http/Controllers/ProductController.php:219-249 | update keeps the tables' invariant |
| Products.DestroyKeepsValid | app/Http/Controllers/ProductController.php:282-283 | destroy keeps the tables' invariant |
| Products.ProductController.GetById | app/Http/Controllers/ProductController.php:51 | NotFound exactly for an unknown id; otherwise the product row with exactly the image rows whose product id is that id |
| Products.ProductController.Index | app/Http/Controllers/ProductController.php:21 | one entry per product, each as `getById` answers it |
| Products.ProductController.Store | app/Http/Controllers/ProductController.php:101-139 | the method's loop and writes leave the tables and the answer `StoreStep` gives, keep the invariant, and the answer is what `getById` then returns |
| Products.ProductController.Update | app/Http/Controllers/ProductController.php:200-254 | the method leaves the tables and the answer `UpdateStep` gives, keeps the invariant, and the answer is what `getById` then returns |
| Products.ProductController.ReconcileImages | app/Http/Controllers/ProductController.php:221-249 | the loop of overwrites, the scoped delete and the bulk insert leave the image table as the reconciliation function gives it and advance the image counter by the number of id-less entries |
| Products.ProductController.Destroy | app/Http/Controllers/ProductController.php:280-286 | the method leaves the tables and the answer `DestroyStep` gives, and `getById` then fails with NotFound |
| Categories.StoreRequestValid | app/Http/Controllers/CategoryController.php:102-106 | defines store's rules: name and description filled, an image of type jpg, jpeg, png, gif or svg; no contract of its own, specified by `StoreRejects` |
| Categories.UpdateRequestValid | app/Http/Controllers/CategoryController.php:180-184 | defines update's rules: store's plus `max:2048`; no contract of its own, specified by `UpdateRejects` and `UpdateStricterThanStore` |
| Categories.StoreStep | app/Http/Controllers/CategoryController.php:94-132 | defines store's new files, rows and answer; no contract of its own, specified by `StoreRejects`, `StoreCreates` and `StoreKeepsBacked` |
| Categories.UpdateStep | app/Http/Controllers/CategoryController.php:171-206 | defines update's new files, rows and answer; no contract of its own, specified by the `Update…` lemmas |
| Categories.DeleteStep | app/Http/Controllers/CategoryController.php:236-245 | defines delete's new files and rows; no contract of its own, specified by `DeleteRemoves` and `DeleteKeepsBacked` |
| Categories.ThumbName | app/Http/Controllers/CategoryController.php:123 | a thumbnail name is the image name under the prefix `150x150_` |
| Categories.ImageName | app/Http/Controllers/CategoryController.php:117 | a generated name is its token, a dot, and the extension, in that order |
| Categories.ThumbNameInjective | app/Http/Controllers/CategoryController.php:241-242 | distinct images have distinct thumbnail names |
| Categories.ThumbNameDiffers | app/Http/Controllers/CategoryController.php:239-242 | no image name is its own thumbnail name |
| Categories.ImageNameInjective | app/Http/Controllers/CategoryController.php:195-200 | with one extension, distinct clock readings give distinct names |
| Categories.StoreRejects | app/Http/Controllers/CategoryController.php:102-110 | store fails exactly when name, description or a jpg/jpeg/png/gif/svg image is missing, with ValidationError, and writes nothing |
| Categories.StoreCreates | app/Http/Controllers/CategoryController.php:112-129 | a store adds exactly `uploads/150x150_N` and `uploads/N`, keeps every other file, and creates one row under a fresh id whose image is `N` |
| Categories.StoreKeepsBacked | app/Http/Controllers/CategoryController.php:115-129 | store keeps every category's original and thumbnail present in `uploads` |
| Categories.UpdateRejects | app/Http/Controllers/CategoryController.php:173-188 | NotFound exactly for an unknown id, before validation; ValidationError exactly for a known id with a broken rule; neither changes anything |
| Categories.UpdateStricterThanStore | app/Http/Controllers/CategoryController.php:182 | every request update accepts store accepts; a request store accepts passes update exactly when its image is at most 2048 KB; a 4096 KB png passes store's rules and fails update's |
| Categories.UpdateOverwritesFields | app/Http/Controllers/CategoryController.php:203 | a successful update writes the request's name and description, answers with the row it wrote, and changes no other row |
| Categories.UpdateSameImage | app/Http/Controllers/CategoryController.php:189 | an upload comparing equal to the stored name touches no file and keeps the image |
| Categories.UpdateUnlinkFails | app/Http/Controllers/CategoryController.php:189-191 | with a new image, update fails with a server error exactly when `thumbnail/<old>` or `uploads/<old>` is missing, leaving the rows as they were and at most `thumbnail/<old>` gone |
| Categories.UpdateNewImage | app/Http/Controllers/CategoryController.php:189-201 | with both old files present, update removes them, writes `uploads/150x150_<first reading>.<ext>` and `uploads/<second reading>.<ext>`, sets the image to the latter, and leaves `uploads/150x150_<old>` in place |
| Categories.UpdateBackedIffSameStamp | app/Http/Controllers/CategoryController.php:195-201 | the updated row has its thumbnail exactly when the two clock readings agree (barring a file already under that name) |
| Categories.UpdateFailsOnUploadsOnly | app/Http/Controllers/CategoryController.php:190 | when every file is in `uploads`, an update with a new image fails with a server error and changes nothing |
| Categories.DeleteRemoves | app/Http/Controllers/CategoryController.php:238-243 | delete fails with NotFound exactly on an unknown id; otherwise it removes the image's original and thumbnail where present, no other file, and the row; a second delete fails with NotFound |
| Categories.UpdateKeepsBacked | app/Http/Controllers/CategoryController.php:189-203 | when the two clock readings agree and the categories' file names are apart, update keeps every category's original and thumbnail in `uploads` |
| Categories.DeleteKeepsBacked | app/Http/Controllers/CategoryController.php:239-242 | when the categories' file names are apart, delete leaves every other category's files in place |
| Categories.StepsKeepValid | app/Http/Controllers/CategoryController.php:129 | every request keeps every key below the counter |
| Categories.StepsWriteOnlyUploads | app/Http/Controllers/CategoryController.php:123-201 | every file store or update adds is in `uploads` (lines 123, 125, 199, 201), and delete adds no file |
| Categories.StepsKeepUploadsOnly | app/Http/Controllers/CategoryController.php:189-201 | when every file is in `uploads`, every request keeps it so |
| Categories.CategoryController.GetById | app/Http/Controllers/CategoryController.php:57-61 | the row, or NotFound exactly for an unknown id |
| Categories.CategoryController.Index | app/Http/Controllers/CategoryController.php:23 | exactly the ids `getById` finds, each with the row it answers |
| Categories.CategoryController.Store | app/Http/Controllers/CategoryController.php:94-132 | the method's file writes and row insert leave the state and the answer `StoreStep` gives, and `getById` then returns the new row |
| Categories.CategoryController.Update | app/Http/Controllers/CategoryController.php:171-206 | the method's unlinks, writes and row update leave the state and the answer `UpdateStep` gives, and the answer is what `getById` then returns |
| Categories.CategoryController.Delete | app/Http/Controllers/CategoryController.php:236-245 | the guarded unlinks and the row delete leave the state `DeleteStep` gives, and `getById` then fails with NotFound |

## Left out

- Routing (routes/api.php) is framework plumbing and is not part of this model. The product DELETE route names a `delete` method (routes/api.php:34), but the controller's method is `destroy` (app/Http/Controllers/ProductController.php:280). `destroy` is modelled as a method called directly.
- HTTP presentation is not modelled: status codes, JSON bodies, headers and the validation messages. Category delete returns the bare integer `204` (app/Http/Controllers/CategoryController.php:244), and it is modelled as `Ok(())`.
- Laravel's validator internals are abstract:
  - mime sniffing is `Upload.kind`;
  - size units are `Upload.kilobytes`;
  - a file's `required` is the upload being present;
  - the `exists:` queries are membership in the modelled tables;
  - `required` on a non-text value such as `priority` is presence.
- Payload shapes outside the datatypes are not modelled, for example an `images` value that is not an array.
- The model assumes that `create` and `update` write exactly the modelled columns: the models' fillable lists are not part of this model.
- `price` is opaque text; no arithmetic is done on it.
- Image resizing and encoding through Intervention are foreign library calls. A save is modelled as "a file at this path now exists"; failures of the library are not modelled.
- The file produced by `move` is modelled the same way.
- `uniqid()` and `time()` are parameters. Nothing constrains them, so the model does not assume a generated name is fresh.
- The loose comparison of the uploaded file with the stored name (app/Http/Controllers/CategoryController.php:189) is modelled as equality of the stored name with the abstract text `Upload.text`.
- Image rows left behind when a product is deleted depend on the database's foreign-key policy. They are not modelled: destroy leaves every image row, as the code issues no query for them.
- Failures partway through a request are modelled only where the code itself raises, namely the unlinks of category update. A crash between a file write and a row write, and the absence of transactions, are not modelled.
- Concurrent requests are not modelled.
- The order of `index` results (storage order) is not modelled: both indexes are maps keyed by id. For the same reason the order of a product's loaded `product_images` is not modelled: they are a map keyed by id.
- Three branches of the source are unreachable:
  - the `findOrFail` inside the update loop (app/Http/Controllers/ProductController.php:228) never fails, because validation checked the id and the loop only overwrites rows;
  - `getById`'s `!$category` branch (app/Http/Controllers/CategoryController.php:59-61) never runs, because `findorFail` already raised;
  - the case of `hasFile('image')` being false after validation (app/Http/Controllers/CategoryController.php:112, 189) cannot happen, because validation requires the image.
