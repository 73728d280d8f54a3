/** The category controller: category rows and the image files beside them,
    kept in two public directories. */
module Categories {
  import opened Common

  /** The two public directories the controller names. */
  datatype Dir = Uploads | Thumbnail

  /** A file in one of the public directories. */
  datatype Path = Path(dir: Dir, name: string)

  /** A `categories` row; `image` is the name of the original in `uploads`. */
  datatype Category = Category(name: string, description: string, image: string)

  /** An uploaded file: the type its content is recognised as, the extension
      the client gave it, its size in kilobytes, and the text the upload
      compares as when it is set against a string. */
  datatype Upload = Upload(kind: string, extension: string, kilobytes: nat, text: string)

  /** The body of a store or update request; every key may be absent. */
  datatype CategoryRequest = CategoryRequest(
    name: Option<string>,
    description: Option<string>,
    image: Option<Upload>)

  /** The file set, the `categories` table and its auto-increment counter. */
  datatype Storage = Storage(files: set<Path>, categories: map<Id, Category>, nextId: Id)

  /** The name under which the 150x150 thumbnail of `image` is saved. */
  function ThumbName(image: string): (t: string)
    ensures |t| == |image| + 8 && t[..8] == "150x150_" && t[8..] == image
  {
    "150x150_" + image
  }

  /** A generated file name: a generated token, a dot, the client's extension. */
  function ImageName(token: string, extension: string): (n: string)
    ensures |n| == |token| + 1 + |extension| && n[..|token|] == token
    ensures n[|token|] == '.' && n[|token| + 1..] == extension
  {
    token + "." + extension
  }

  /** The types the `image` and `mimes:jpg,jpeg,png,gif,svg` rules together admit. */
  const ImageKinds: set<string> := {"jpg", "jpeg", "png", "gif", "svg"}

  /** The `max:2048` rule of update, in kilobytes. */
  const MaxKilobytes: nat := 2048

  /** Every key is below the counter. */
  predicate StorageValid(s: Storage)
  {
    forall k :: k in s.categories ==> k < s.nextId
  }

  /** The original and the thumbnail of `c`'s image are both in `uploads`. */
  predicate Backed(files: set<Path>, c: Category)
  {
    Path(Uploads, c.image) in files && Path(Uploads, ThumbName(c.image)) in files
  }

  /** Every category's image has its original and its thumbnail in `uploads`. */
  predicate AllBacked(s: Storage)
  {
    forall k :: k in s.categories ==> Backed(s.files, s.categories[k])
  }

  /** Every file is in `uploads`; the controller never writes elsewhere. */
  predicate UploadsOnly(files: set<Path>)
  {
    forall p :: p in files ==> p.dir == Uploads
  }

  /** No two categories share an image, and no image is the thumbnail name
      of another category's image, so their files are apart. */
  predicate NamesApart(s: Storage)
  {
    forall a, b :: a in s.categories && b in s.categories && a != b ==>
      s.categories[a].image != s.categories[b].image
      && s.categories[a].image != ThumbName(s.categories[b].image)
  }

  // ----- Validation -----

  /** `name` and `description` are required; `image` is required and is a
      jpg, jpeg, png, gif or svg image. */
  predicate StoreRequestValid(req: CategoryRequest)
  {
    && Filled(req.name) && Filled(req.description)
    && req.image.Some? && req.image.value.kind in ImageKinds
  }

  /** The store rules plus `max:2048` on the image. */
  predicate UpdateRequestValid(req: CategoryRequest)
  {
    StoreRequestValid(req) && req.image.value.kilobytes <= MaxKilobytes
  }

  // ----- The requests, as functions of the storage -----

  /** `store` with generated token `token`: validate, save the thumbnail and the
      original in `uploads`, create the row. */
  function StoreStep(s: Storage, req: CategoryRequest, token: string): Step<Storage, (Id, Category)>
  {
    if !StoreRequestValid(req) then Step(s, Err(ValidationError))
    else
      var image := ImageName(token, req.image.value.extension);
      var c := Category(req.name.value, req.description.value, image);
      var files := s.files + {Path(Uploads, ThumbName(image)), Path(Uploads, image)};
      Step(Storage(files, s.categories[s.nextId := c], s.nextId + 1), Ok((s.nextId, c)))
  }

  /** `update`, where `thumbStamp` and `stamp` are the two clock readings
      that name the new thumbnail and the new original. */
  function UpdateStep(s: Storage, id: Id, req: CategoryRequest, thumbStamp: string, stamp: string): Step<Storage, Category>
  {
    if id !in s.categories then Step(s, Err(NotFound))
    else if !UpdateRequestValid(req) then Step(s, Err(ValidationError))
    else
      var current := s.categories[id];
      var u := req.image.value;
      if current.image == u.text then
        // The upload compares equal to the stored name: no file is touched
        // and the image column is written with what it already holds.
        var c := Category(req.name.value, req.description.value, current.image);
        Step(s.(categories := s.categories[id := c]), Ok(c))
      else if Path(Thumbnail, current.image) !in s.files then Step(s, Err(ServerError))
      else if Path(Uploads, current.image) !in s.files then
        Step(s.(files := s.files - {Path(Thumbnail, current.image)}), Err(ServerError))
      else
        var image := ImageName(stamp, u.extension);
        var c := Category(req.name.value, req.description.value, image);
        var files := s.files - {Path(Thumbnail, current.image), Path(Uploads, current.image)}
                     + {Path(Uploads, ThumbName(ImageName(thumbStamp, u.extension))), Path(Uploads, image)};
        Step(Storage(files, s.categories[id := c], s.nextId), Ok(c))
  }

  /** `delete`: find the row, remove its two files from `uploads` where
      present, delete the row. */
  function DeleteStep(s: Storage, id: Id): Step<Storage, ()>
  {
    if id !in s.categories then Step(s, Err(NotFound))
    else
      var image := s.categories[id].image;
      var files := s.files - {Path(Uploads, image), Path(Uploads, ThumbName(image))};
      Step(Storage(files, s.categories - {id}, s.nextId), Ok(()))
  }

  // ----- File names -----

  /** Different images have different thumbnail names. */
  lemma ThumbNameInjective(a: string, b: string)
    ensures ThumbName(a) == ThumbName(b) <==> a == b
  {
  }

  /** No name is its own thumbnail name. */
  lemma ThumbNameDiffers(a: string)
    ensures ThumbName(a) != a
  {
  }

  /** With one extension, different tokens give different names. */
  lemma ImageNameInjective(a: string, b: string, extension: string)
    ensures ImageName(a, extension) == ImageName(b, extension) <==> a == b
  {
  }

  // ----- Properties of store -----

  /** Store fails exactly when a rule is broken, and then writes no file
      and no row. */
  lemma StoreRejects(s: Storage, req: CategoryRequest, token: string)
    ensures StoreStep(s, req, token).result.Err? <==> !StoreRequestValid(req)
    ensures StoreStep(s, req, token).result.Err? ==>
              StoreStep(s, req, token) == Step(s, Err(ValidationError))
  {
  }

  /** A successful store adds exactly the files `uploads/150x150_N` and
      `uploads/N` for `N` = token.extension, and one row, under a fresh id,
      whose image is `N`. */
  lemma StoreCreates(s: Storage, req: CategoryRequest, token: string)
    requires StorageValid(s) && StoreRequestValid(req)
    ensures var st := StoreStep(s, req, token); var n := ImageName(token, req.image.value.extension);
            var c := Category(req.name.value, req.description.value, n);
            && s.nextId !in s.categories
            && st.result == Ok((s.nextId, c))
            && st.after.files - s.files == {Path(Uploads, ThumbName(n)), Path(Uploads, n)} - s.files
            && s.files <= st.after.files
            && st.after.categories == s.categories[s.nextId := c]
            && Backed(st.after.files, c)
  {
  }

  /** Store keeps every category backed by its files. */
  lemma StoreKeepsBacked(s: Storage, req: CategoryRequest, token: string)
    requires AllBacked(s)
    ensures AllBacked(StoreStep(s, req, token).after)
  {
  }

  // ----- Properties of update -----

  /** Update fails with NotFound exactly on an unknown id (the lookup comes
      before validation), with ValidationError exactly when the row exists
      and a rule is broken (the image rules include `max:2048`), and neither
      failure changes anything. */
  lemma UpdateRejects(s: Storage, id: Id, req: CategoryRequest, thumbStamp: string, stamp: string)
    ensures var st := UpdateStep(s, id, req, thumbStamp, stamp);
            && (st.result == Err(NotFound) <==> id !in s.categories)
            && (st.result == Err(ValidationError) <==> id in s.categories && !UpdateRequestValid(req))
            && (st.result == Err(NotFound) || st.result == Err(ValidationError) ==> st.after == s)
  {
  }

  /** Every request update accepts, store accepts too, but not the other way:
      a 4096 KB png passes store's rules and fails update's. */
  lemma UpdateStricterThanStore(req: CategoryRequest)
    requires req == CategoryRequest(Some("n"), Some("d"), Some(Upload("png", "png", 4096, "a.png")))
    ensures forall r :: UpdateRequestValid(r) ==> StoreRequestValid(r)
    ensures forall r :: StoreRequestValid(r) ==> (UpdateRequestValid(r) <==> r.image.value.kilobytes <= MaxKilobytes)
    ensures StoreRequestValid(req) && !UpdateRequestValid(req)
  {
    assert "n"[0] !in TrimmedChars && "d"[0] !in TrimmedChars;
  }

  /** After validation, a successful update always writes the request's
      name and description, and answers with the row it wrote. */
  lemma UpdateOverwritesFields(s: Storage, id: Id, req: CategoryRequest, thumbStamp: string, stamp: string)
    requires UpdateStep(s, id, req, thumbStamp, stamp).result.Ok?
    ensures var st := UpdateStep(s, id, req, thumbStamp, stamp);
            && id in st.after.categories
            && st.after.categories[id].name == req.name.value
            && st.after.categories[id].description == req.description.value
            && st.result.value == st.after.categories[id]
            && st.after.categories - {id} == s.categories - {id}
            && st.after.nextId == s.nextId
  {
  }

  /** An upload that compares equal to the stored name touches no file and
      keeps the image. */
  lemma UpdateSameImage(s: Storage, id: Id, req: CategoryRequest, thumbStamp: string, stamp: string)
    requires id in s.categories && UpdateRequestValid(req)
    requires req.image.value.text == s.categories[id].image
    ensures var st := UpdateStep(s, id, req, thumbStamp, stamp);
            && st.result.Ok?
            && st.after.files == s.files
            && st.after.categories[id].image == s.categories[id].image
  {
  }

  /** With a new image, update fails with a server error exactly when
      `thumbnail/<old>` or `uploads/<old>` is missing; the row is then left
      as it was, and only `thumbnail/<old>` may already be gone. */
  lemma UpdateUnlinkFails(s: Storage, id: Id, req: CategoryRequest, thumbStamp: string, stamp: string)
    requires id in s.categories && UpdateRequestValid(req)
    requires req.image.value.text != s.categories[id].image
    ensures var st := UpdateStep(s, id, req, thumbStamp, stamp); var current := s.categories[id].image;
            && (st.result == Err(ServerError) <==>
                  Path(Thumbnail, current) !in s.files || Path(Uploads, current) !in s.files)
            && (st.result.Err? ==> st.after.categories == s.categories
                                   && st.after.files == s.files - {Path(Thumbnail, current)})
  {
  }

  /** With a new image and both old files present, update removes
      `thumbnail/<old>` and `uploads/<old>`, writes
      `uploads/150x150_<thumbStamp.ext>` and `uploads/<stamp.ext>`, sets the
      image to `<stamp.ext>`, and leaves `uploads/150x150_<old>` in place. */
  lemma UpdateNewImage(s: Storage, id: Id, req: CategoryRequest, thumbStamp: string, stamp: string)
    requires id in s.categories && UpdateRequestValid(req)
    requires req.image.value.text != s.categories[id].image
    requires Path(Thumbnail, s.categories[id].image) in s.files && Path(Uploads, s.categories[id].image) in s.files
    ensures var st := UpdateStep(s, id, req, thumbStamp, stamp);
            var current := s.categories[id].image; var ext := req.image.value.extension;
            && st.result == Ok(Category(req.name.value, req.description.value, ImageName(stamp, ext)))
            && st.after.files
               == s.files - {Path(Thumbnail, current), Path(Uploads, current)}
                  + {Path(Uploads, ThumbName(ImageName(thumbStamp, ext))), Path(Uploads, ImageName(stamp, ext))}
            && (Path(Uploads, ThumbName(current)) in s.files ==> Path(Uploads, ThumbName(current)) in st.after.files)
  {
  }

  /** The updated row is backed by its files when the two clock readings
      agree; when they differ and no file already has the name, the
      thumbnail its backing needs is missing. */
  lemma UpdateBackedIffSameStamp(s: Storage, id: Id, req: CategoryRequest, thumbStamp: string, stamp: string)
    requires id in s.categories && UpdateRequestValid(req)
    requires req.image.value.text != s.categories[id].image
    requires Path(Thumbnail, s.categories[id].image) in s.files && Path(Uploads, s.categories[id].image) in s.files
    ensures var st := UpdateStep(s, id, req, thumbStamp, stamp);
            && (thumbStamp == stamp ==> Backed(st.after.files, st.after.categories[id]))
            && (thumbStamp != stamp && Path(Uploads, ThumbName(ImageName(stamp, req.image.value.extension))) !in s.files
                ==> !Backed(st.after.files, st.after.categories[id]))
  {
  }

  /** When the two clock readings agree and the categories' files are
      apart, update keeps every category backed. */
  lemma UpdateKeepsBacked(s: Storage, id: Id, req: CategoryRequest, thumbStamp: string, stamp: string)
    requires AllBacked(s) && NamesApart(s) && thumbStamp == stamp
    ensures AllBacked(UpdateStep(s, id, req, thumbStamp, stamp).after)
  {
  }

  /** When every file is in `uploads` (as when the controller starts from
      an empty public directory) an update with a new image always fails:
      `thumbnail/<old>` is never there. */
  lemma UpdateFailsOnUploadsOnly(s: Storage, id: Id, req: CategoryRequest, thumbStamp: string, stamp: string)
    requires UploadsOnly(s.files)
    requires id in s.categories && UpdateRequestValid(req)
    requires req.image.value.text != s.categories[id].image
    ensures UpdateStep(s, id, req, thumbStamp, stamp) == Step(s, Err(ServerError))
  {
  }

  // ----- Properties of delete -----

  /** Delete fails with NotFound exactly on an unknown id; otherwise it
      removes `uploads/<image>` and `uploads/150x150_<image>` where present,
      no other file, and the row; a second delete fails with NotFound. */
  lemma DeleteRemoves(s: Storage, id: Id)
    ensures var st := DeleteStep(s, id);
            && (st.result.Ok? <==> id in s.categories)
            && (st.result.Err? ==> st == Step(s, Err(NotFound)))
            && (st.result.Ok? ==>
                  var image := s.categories[id].image;
                  && st.after.files == s.files - {Path(Uploads, image), Path(Uploads, ThumbName(image))}
                  && st.after.categories == s.categories - {id})
            && DeleteStep(st.after, id).result == Err(NotFound)
  {
  }

  /** When the categories' files are apart, delete keeps every remaining
      category backed. */
  lemma DeleteKeepsBacked(s: Storage, id: Id)
    requires AllBacked(s) && NamesApart(s)
    ensures AllBacked(DeleteStep(s, id).after)
  {
  }

  // ----- Invariants of every request -----

  lemma StepsKeepValid(s: Storage, req: CategoryRequest, token: string, id: Id, thumbStamp: string, stamp: string)
    requires StorageValid(s)
    ensures StorageValid(StoreStep(s, req, token).after)
    ensures StorageValid(UpdateStep(s, id, req, thumbStamp, stamp).after)
    ensures StorageValid(DeleteStep(s, id).after)
  {
  }

  /** Every file a request adds is in `uploads`. */
  lemma StepsWriteOnlyUploads(s: Storage, req: CategoryRequest, token: string, id: Id, thumbStamp: string, stamp: string)
    ensures forall p :: p in StoreStep(s, req, token).after.files && p !in s.files ==> p.dir == Uploads
    ensures forall p :: p in UpdateStep(s, id, req, thumbStamp, stamp).after.files && p !in s.files ==> p.dir == Uploads
    ensures forall p :: p in DeleteStep(s, id).after.files ==> p in s.files
  {
  }

  /** Files all in `uploads` stay so after any request. */
  lemma StepsKeepUploadsOnly(s: Storage, req: CategoryRequest, token: string, id: Id, thumbStamp: string, stamp: string)
    requires UploadsOnly(s.files)
    ensures UploadsOnly(StoreStep(s, req, token).after.files)
    ensures UploadsOnly(UpdateStep(s, id, req, thumbStamp, stamp).after.files)
    ensures UploadsOnly(DeleteStep(s, id).after.files)
  {
  }

  // ----- The controller -----

  /** The controller over the public directories and the `categories`
      table: each request is a sequence of file writes, unlinks and row
      writes, as the PHP controller issues them. */
  class CategoryController {
    var files: set<Path>
    var categories: map<Id, Category>
    var nextId: Id

    function State(): Storage
      reads this
    {
      Storage(files, categories, nextId)
    }

    ghost predicate Valid()
      reads this
    {
      StorageValid(State())
    }

    /** An empty table beside the given files; the counter starts at 1. */
    constructor (initialFiles: set<Path>)
      ensures Valid()
      ensures State() == Storage(initialFiles, map[], 1)
    {
      files := initialFiles;
      categories := map[];
      nextId := 1;
    }

    /** `getById`: the row, or NotFound. */
    function GetById(id: Id): (r: Result<Category>)
      reads this
      ensures r.Ok? <==> id in categories
      ensures r.Ok? ==> r.value == categories[id]
      ensures r.Err? ==> r.error == NotFound
    {
      if id in categories then Ok(categories[id]) else Err(NotFound)
    }

    /** `index`: every row. */
    function Index(): (r: map<Id, Category>)
      reads this
      ensures forall id :: id in r <==> GetById(id).Ok?
      ensures forall id :: id in r ==> GetById(id) == Ok(r[id])
    {
      categories
    }

    /** `store`, with `token` standing for `uniqid()`. */
    method Store(req: CategoryRequest, token: string) returns (r: Result<(Id, Category)>)
      requires Valid()
      modifies this
      ensures Valid()
      ensures State() == StoreStep(old(State()), req, token).after
      ensures r == StoreStep(old(State()), req, token).result
      ensures r.Ok? ==> GetById(r.value.0) == Ok(r.value.1)
    {
      if !StoreRequestValid(req) {
        return Err(ValidationError);
      }
      var image := req.image.value;
      var imageName := ImageName(token, image.extension);
      files := files + {Path(Uploads, ThumbName(imageName))};
      files := files + {Path(Uploads, imageName)};
      var category := Category(req.name.value, req.description.value, imageName);
      var id := nextId;
      categories := categories[id := category];
      nextId := nextId + 1;
      r := Ok((id, category));
    }

    /** `update`, with `thumbStamp` and `stamp` standing for the two
        readings of `time()`. */
    method Update(id: Id, req: CategoryRequest, thumbStamp: string, stamp: string) returns (r: Result<Category>)
      requires Valid()
      modifies this
      ensures Valid()
      ensures State() == UpdateStep(old(State()), id, req, thumbStamp, stamp).after
      ensures r == UpdateStep(old(State()), id, req, thumbStamp, stamp).result
      ensures r.Ok? ==> GetById(id) == r
    {
      if id !in categories {
        return Err(NotFound);
      }
      if !UpdateRequestValid(req) {
        return Err(ValidationError);
      }
      var category := categories[id];
      var image := req.image.value;
      var imageName := category.image;
      if category.image != image.text {
        var thumbnail := Path(Thumbnail, category.image);
        if thumbnail !in files {
          return Err(ServerError);
        }
        files := files - {thumbnail};
        var original := Path(Uploads, category.image);
        if original !in files {
          return Err(ServerError);
        }
        files := files - {original};
        files := files + {Path(Uploads, ThumbName(ImageName(thumbStamp, image.extension)))};
        imageName := ImageName(stamp, image.extension);
        files := files + {Path(Uploads, imageName)};
      }
      categories := categories[id := Category(req.name.value, req.description.value, imageName)];
      r := Ok(categories[id]);
    }

    /** `delete`: each unlink is guarded by an existence check. */
    method Delete(id: Id) returns (r: Result<()>)
      requires Valid()
      modifies this
      ensures Valid()
      ensures State() == DeleteStep(old(State()), id).after
      ensures r == DeleteStep(old(State()), id).result
      ensures GetById(id) == Err(NotFound)
    {
      if id !in categories {
        return Err(NotFound);
      }
      var image := categories[id].image;
      if Path(Uploads, image) in files {
        files := files - {Path(Uploads, image)};
      }
      if Path(Uploads, ThumbName(image)) in files {
        files := files - {Path(Uploads, ThumbName(image))};
      }
      categories := categories - {id};
      r := Ok(());
    }
  }
}
