/** The in-memory media store of src/mocks/index.ts: module-level lists of
    images, galleries and documents that every API function reads or
    reassigns. Each API function is one method (or, for the read-only
    listings, one function) of `MockStore`; the simulated network delays are
    left out. */
module MockMedia {
  import opened Wrappers
  import opened MediaModel
  import Text
  import UploadQueue

  const ImageNotFound: string := "Image not found"
  const GalleryNotFound: string := "Gallery not found"
  const ImageNotInGallery: string := "Image not found in gallery"
  const DocumentNotFound: string := "Document not found"

  class MockStore {
    /** `uploadedImages`, newest first. */
    var uploadedImages: seq<Image>
    /** `mockMediaImageItems`, which `deleteImage` splices. */
    var builtinImages: seq<Image>
    /** `mockGalleries`. */
    var galleries: seq<Gallery>
    /** `uploadedDocuments`, newest first. */
    var uploadedDocuments: seq<Document>
    /** `mockMediaDocumentItems`, which `deleteDocument` splices. */
    var builtinDocuments: seq<Document>
    /** The next serial number `generateId` and `URL.createObjectURL` draw. */
    var serial: nat

    /** Every gallery is consistent and no generated id has been drawn twice. */
    ghost predicate Valid()
      reads this
    {
      && AllConsistent(galleries)
      && AllBelow(uploadedImages, ImageKey, serial)
      && AllBelow(uploadedDocuments, DocumentKey, serial)
      && AllBelow(galleries, GalleryKey, serial)
    }

    /** The module's initial state from its built-in lists, whose galleries are
        consistent and carry literal ids. */
    constructor (images: seq<Image>, seedGalleries: seq<Gallery>, documents: seq<Document>)
      requires AllConsistent(seedGalleries)
      requires forall a :: 0 <= a < |seedGalleries| ==> seedGalleries[a].id.Seeded?
      ensures Valid()
      ensures uploadedImages == [] && builtinImages == images && galleries == seedGalleries
      ensures uploadedDocuments == [] && builtinDocuments == documents && serial == 0
    {
      uploadedImages := [];
      builtinImages := images;
      galleries := seedGalleries;
      uploadedDocuments := [];
      builtinDocuments := documents;
      serial := 0;
    }

    // -------------------------------------------------------------------------
    // Images
    // -------------------------------------------------------------------------

    /** `fetchImageList`: the uploaded images, then the built-in ones, searched and paginated. */
    function FetchImageList(params: ListParams): (r: ListResult<Image>)
      reads this
      ensures r.total <= |uploadedImages| + |builtinImages|
      ensures forall x :: x in r.items ==> x in uploadedImages + builtinImages
      ensures Searching(params.query) ==> forall x :: x in r.items ==> ImageMatches(x, Text.Lower(params.query.value))
    {
      ListMembers(uploadedImages + builtinImages, params, ImageMatches);
      List(uploadedImages + builtinImages, params, ImageMatches)
    }

    /** `uploadImages`: the new records go in front of the uploaded images in
        reverse file order, and come back in file order. */
    method UploadImages(files: UploadQueue.Outcome<UploadQueue.FileInfo>, decode: UploadQueue.FileInfo -> Dimensions)
      returns (r: UploadQueue.Outcome<Image>)
      requires Valid()
      modifies this
      ensures Valid()
      ensures var batch := NewImages(FileArray(files), old(serial), "uploaded-img", false, decode);
        && uploadedImages == Reversed(batch) + old(uploadedImages)
        && serial == old(serial) + |batch|
        && r == Returned(batch)
      ensures builtinImages == old(builtinImages) && galleries == old(galleries)
      ensures uploadedDocuments == old(uploadedDocuments) && builtinDocuments == old(builtinDocuments)
    {
      var fileArray := FileArray(files);
      var store, results := PrependImages(fileArray, uploadedImages, serial, "uploaded-img", false, decode);
      NewImagesBelow(fileArray, serial, "uploaded-img", false, decode);
      PrependedBelow(results, uploadedImages, ImageKey, serial);
      AllBelowGrows(uploadedDocuments, DocumentKey, serial, serial + |fileArray|);
      AllBelowGrows(galleries, GalleryKey, serial, serial + |fileArray|);
      uploadedImages := store;
      serial := serial + |fileArray|;
      r := Returned(results);
    }

    /** `updateImage`: an uploaded image is patched in the store (every entry
        with the id becomes the patched first match); a built-in image is only
        returned patched; anything else fails. */
    method UpdateImage(id: MediaId, patch: ImagePatch) returns (r: Result<Image, string>)
      requires Valid()
      modifies this
      ensures Valid()
      ensures var found := FindWith(old(uploadedImages), ImageKey, id);
        found.Some? ==>
          && r == Success(PatchImage(found.value, patch))
          && uploadedImages == ReplaceWith(old(uploadedImages), ImageKey, id, r.value)
      ensures var found := FindWith(old(uploadedImages), ImageKey, id);
        var seeded := FindWith(builtinImages, ImageKey, id);
        found.None? ==>
          && uploadedImages == old(uploadedImages)
          && (seeded.Some? ==> r == Success(PatchImage(seeded.value, patch)))
          && (seeded.None? ==> r == Failure(ImageNotFound))
      ensures r.Success? ==> r.value.id == id
      ensures builtinImages == old(builtinImages) && galleries == old(galleries) && serial == old(serial)
      ensures uploadedDocuments == old(uploadedDocuments) && builtinDocuments == old(builtinDocuments)
    {
      var found := FindWith(uploadedImages, ImageKey, id);
      if found.Some? {
        var item := PatchImage(found.value, patch);
        ReplaceWithBelow(uploadedImages, ImageKey, id, item, serial);
        uploadedImages := ReplaceWith(uploadedImages, ImageKey, id, item);
        return Success(item);
      }
      var seeded := FindWith(builtinImages, ImageKey, id);
      if seeded.Some? {
        return Success(PatchImage(seeded.value, patch));
      }
      return Failure(ImageNotFound);
    }

    /** `deleteImage`: every uploaded entry with the id goes; failing that, the
        first built-in entry with it; failing that, an error. */
    method DeleteImage(id: MediaId) returns (r: Result<(), string>)
      requires Valid()
      modifies this
      ensures Valid()
      ensures FirstWith(old(uploadedImages), ImageKey, id).Some? ==>
        r.Success? && uploadedImages == Without(old(uploadedImages), ImageKey, id) && builtinImages == old(builtinImages)
      ensures var k := FirstWith(old(builtinImages), ImageKey, id);
        FirstWith(old(uploadedImages), ImageKey, id).None? && k.Some? ==>
          r.Success? && uploadedImages == old(uploadedImages) && builtinImages == RemoveAt(old(builtinImages), k.value)
      ensures FirstWith(old(uploadedImages), ImageKey, id).None? && FirstWith(old(builtinImages), ImageKey, id).None? ==>
        r == Failure(ImageNotFound) && uploadedImages == old(uploadedImages) && builtinImages == old(builtinImages)
      ensures galleries == old(galleries) && serial == old(serial)
      ensures uploadedDocuments == old(uploadedDocuments) && builtinDocuments == old(builtinDocuments)
    {
      if FirstWith(uploadedImages, ImageKey, id).Some? {
        WithoutBelow(uploadedImages, ImageKey, id, serial);
        uploadedImages := Without(uploadedImages, ImageKey, id);
        return Success(());
      }
      var k := FirstWith(builtinImages, ImageKey, id);
      if k.Some? {
        builtinImages := RemoveAt(builtinImages, k.value);
        return Success(());
      }
      return Failure(ImageNotFound);
    }

    // -------------------------------------------------------------------------
    // Galleries
    // -------------------------------------------------------------------------

    /** `fetchGalleryList`: the galleries, searched by name and paginated. */
    function FetchGalleryList(params: ListParams): (r: ListResult<Gallery>)
      reads this
      ensures r.total <= |galleries|
      ensures forall x :: x in r.items ==> x in galleries
      ensures Searching(params.query) ==> forall x :: x in r.items ==> GalleryMatches(x, Text.Lower(params.query.value))
    {
      ListMembers(galleries, params, GalleryMatches);
      List(galleries, params, GalleryMatches)
    }

    /** `fetchGallery`: the first gallery with the id. */
    function FetchGallery(id: MediaId): (r: Result<Gallery, string>)
      reads this
      ensures r.Success? <==> exists a :: 0 <= a < |galleries| && galleries[a].id == id
      ensures r.Success? ==> r.value in galleries && r.value.id == id
      ensures r.Failure? ==> r.error == GalleryNotFound
    {
      match FindWith(galleries, GalleryKey, id)
      case None => Failure(GalleryNotFound)
      case Some(g) => Success(g)
    }

    /** `createGallery`: a new empty gallery in front of the others. */
    method CreateGallery(name: string) returns (g: Gallery)
      requires Valid()
      modifies this
      ensures Valid()
      ensures g == NewGallery(Generated("gallery", old(serial)), name)
      ensures galleries == [g] + old(galleries) && serial == old(serial) + 1
      ensures FirstWith(old(galleries), GalleryKey, g.id).None?
      ensures uploadedImages == old(uploadedImages) && builtinImages == old(builtinImages)
      ensures uploadedDocuments == old(uploadedDocuments) && builtinDocuments == old(builtinDocuments)
    {
      g := NewGallery(Generated("gallery", serial), name);
      FreshId(galleries, GalleryKey, serial, "gallery");
      ConsConsistent(g, galleries);
      AllBelowGrows(uploadedImages, ImageKey, serial, serial + 1);
      AllBelowGrows(uploadedDocuments, DocumentKey, serial, serial + 1);
      galleries := [g] + galleries;
      serial := serial + 1;
    }

    /** `deleteGallery`: every gallery with the id goes; an unknown id is no error. */
    method DeleteGallery(id: MediaId)
      requires Valid()
      modifies this
      ensures Valid()
      ensures galleries == Without(old(galleries), GalleryKey, id)
      ensures uploadedImages == old(uploadedImages) && builtinImages == old(builtinImages) && serial == old(serial)
      ensures uploadedDocuments == old(uploadedDocuments) && builtinDocuments == old(builtinDocuments)
    {
      WithoutConsistent(galleries, id);
      WithoutBelow(galleries, GalleryKey, id, serial);
      galleries := Without(galleries, GalleryKey, id);
    }

    /** `uploadToGallery`: the new images go in front of the target gallery's
        images; the records come back even when no gallery has the id. */
    method UploadToGallery(galleryId: MediaId, files: UploadQueue.Outcome<UploadQueue.FileInfo>,
                           decode: UploadQueue.FileInfo -> Dimensions)
      returns (r: UploadQueue.Outcome<Image>)
      requires Valid()
      modifies this
      ensures Valid()
      ensures var batch := NewImages(FileArray(files), old(serial), "gallery-img", false, decode);
        && galleries == UploadInto(old(galleries), galleryId, batch)
        && serial == old(serial) + |batch|
        && r == Returned(batch)
      ensures uploadedImages == old(uploadedImages) && builtinImages == old(builtinImages)
      ensures uploadedDocuments == old(uploadedDocuments) && builtinDocuments == old(builtinDocuments)
    {
      var fileArray := FileArray(files);
      var results := CollectImages(fileArray, serial, "gallery-img", false, decode);
      UploadIntoConsistent(galleries, galleryId, results);
      AllBelowGrows(uploadedImages, ImageKey, serial, serial + |fileArray|);
      AllBelowGrows(uploadedDocuments, DocumentKey, serial, serial + |fileArray|);
      AllBelowGrows(galleries, GalleryKey, serial, serial + |fileArray|);
      galleries := UploadInto(galleries, galleryId, results);
      serial := serial + |fileArray|;
      r := Returned(results);
    }

    /** `removeFromGallery`: the image goes from the target gallery only; no error either way. */
    method RemoveFromGallery(galleryId: MediaId, imageId: MediaId)
      requires Valid()
      modifies this
      ensures Valid()
      ensures galleries == RemoveFrom(old(galleries), galleryId, imageId)
      ensures uploadedImages == old(uploadedImages) && builtinImages == old(builtinImages) && serial == old(serial)
      ensures uploadedDocuments == old(uploadedDocuments) && builtinDocuments == old(builtinDocuments)
    {
      RemoveFromConsistent(galleries, galleryId, imageId);
      galleries := RemoveFrom(galleries, galleryId, imageId);
    }

    /** `updateGalleryImage`: the matching images of the target gallery are
        patched; it fails exactly when that gallery does not hold the image. */
    method UpdateGalleryImage(galleryId: MediaId, imageId: MediaId, patch: ImagePatch)
      returns (r: Result<Image, string>)
      requires Valid()
      modifies this
      ensures Valid()
      ensures galleries == PatchIn(old(galleries), galleryId, imageId, patch)
      ensures r.Success? <==> Holds(old(galleries), galleryId, imageId)
      ensures var last := LastPatchedIn(old(galleries), galleryId, imageId, patch, None);
        r.Success? ==> last.Some? && r.value == last.value && r.value.id == imageId
      ensures r.Failure? ==> r.error == ImageNotInGallery
      ensures uploadedImages == old(uploadedImages) && builtinImages == old(builtinImages) && serial == old(serial)
      ensures uploadedDocuments == old(uploadedDocuments) && builtinDocuments == old(builtinDocuments)
    {
      var gs, updated := PatchGalleries(galleries, galleryId, imageId, patch);
      LastPatchedInSpec(galleries, galleryId, imageId, patch, None);
      PatchInConsistent(galleries, galleryId, imageId, patch);
      galleries := gs;
      if updated.None? {
        return Failure(ImageNotInGallery);
      }
      return Success(updated.value);
    }

    // -------------------------------------------------------------------------
    // Documents
    // -------------------------------------------------------------------------

    /** `fetchDocumentList`: the uploaded documents, then the built-in ones, searched and paginated. */
    function FetchDocumentList(params: ListParams): (r: ListResult<Document>)
      reads this
      ensures r.total <= |uploadedDocuments| + |builtinDocuments|
      ensures forall x :: x in r.items ==> x in uploadedDocuments + builtinDocuments
      ensures Searching(params.query) ==> forall x :: x in r.items ==> DocumentMatches(x, Text.Lower(params.query.value))
    {
      ListMembers(uploadedDocuments + builtinDocuments, params, DocumentMatches);
      List(uploadedDocuments + builtinDocuments, params, DocumentMatches)
    }

    /** `uploadDocuments`. */
    method UploadDocuments(files: UploadQueue.Outcome<UploadQueue.FileInfo>) returns (r: UploadQueue.Outcome<Document>)
      requires Valid()
      modifies this
      ensures Valid()
      ensures var batch := NewDocuments(FileArray(files), old(serial));
        && uploadedDocuments == Reversed(batch) + old(uploadedDocuments)
        && serial == old(serial) + |batch|
        && r == Returned(batch)
      ensures uploadedImages == old(uploadedImages) && builtinImages == old(builtinImages)
      ensures galleries == old(galleries) && builtinDocuments == old(builtinDocuments)
    {
      var fileArray := FileArray(files);
      var store, results := PrependDocuments(fileArray, uploadedDocuments, serial);
      NewDocumentsBelow(fileArray, serial);
      PrependedBelow(results, uploadedDocuments, DocumentKey, serial);
      AllBelowGrows(uploadedImages, ImageKey, serial, serial + |fileArray|);
      AllBelowGrows(galleries, GalleryKey, serial, serial + |fileArray|);
      uploadedDocuments := store;
      serial := serial + |fileArray|;
      r := Returned(results);
    }

    /** `updateDocument`, the document twin of `updateImage`. */
    method UpdateDocument(id: MediaId, patch: DocumentPatch) returns (r: Result<Document, string>)
      requires Valid()
      modifies this
      ensures Valid()
      ensures var found := FindWith(old(uploadedDocuments), DocumentKey, id);
        found.Some? ==>
          && r == Success(PatchDocument(found.value, patch))
          && uploadedDocuments == ReplaceWith(old(uploadedDocuments), DocumentKey, id, r.value)
      ensures var found := FindWith(old(uploadedDocuments), DocumentKey, id);
        var seeded := FindWith(builtinDocuments, DocumentKey, id);
        found.None? ==>
          && uploadedDocuments == old(uploadedDocuments)
          && (seeded.Some? ==> r == Success(PatchDocument(seeded.value, patch)))
          && (seeded.None? ==> r == Failure(DocumentNotFound))
      ensures r.Success? ==> r.value.id == id
      ensures uploadedImages == old(uploadedImages) && builtinImages == old(builtinImages)
      ensures galleries == old(galleries) && builtinDocuments == old(builtinDocuments) && serial == old(serial)
    {
      var found := FindWith(uploadedDocuments, DocumentKey, id);
      if found.Some? {
        var item := PatchDocument(found.value, patch);
        ReplaceWithBelow(uploadedDocuments, DocumentKey, id, item, serial);
        uploadedDocuments := ReplaceWith(uploadedDocuments, DocumentKey, id, item);
        return Success(item);
      }
      var seeded := FindWith(builtinDocuments, DocumentKey, id);
      if seeded.Some? {
        return Success(PatchDocument(seeded.value, patch));
      }
      return Failure(DocumentNotFound);
    }

    /** `deleteDocument`, the document twin of `deleteImage`. */
    method DeleteDocument(id: MediaId) returns (r: Result<(), string>)
      requires Valid()
      modifies this
      ensures Valid()
      ensures FirstWith(old(uploadedDocuments), DocumentKey, id).Some? ==>
        r.Success? && uploadedDocuments == Without(old(uploadedDocuments), DocumentKey, id)
        && builtinDocuments == old(builtinDocuments)
      ensures var k := FirstWith(old(builtinDocuments), DocumentKey, id);
        FirstWith(old(uploadedDocuments), DocumentKey, id).None? && k.Some? ==>
          r.Success? && uploadedDocuments == old(uploadedDocuments) && builtinDocuments == RemoveAt(old(builtinDocuments), k.value)
      ensures FirstWith(old(uploadedDocuments), DocumentKey, id).None? && FirstWith(old(builtinDocuments), DocumentKey, id).None? ==>
        r == Failure(DocumentNotFound) && uploadedDocuments == old(uploadedDocuments) && builtinDocuments == old(builtinDocuments)
      ensures uploadedImages == old(uploadedImages) && builtinImages == old(builtinImages)
      ensures galleries == old(galleries) && serial == old(serial)
    {
      if FirstWith(uploadedDocuments, DocumentKey, id).Some? {
        WithoutBelow(uploadedDocuments, DocumentKey, id, serial);
        uploadedDocuments := Without(uploadedDocuments, DocumentKey, id);
        return Success(());
      }
      var k := FirstWith(builtinDocuments, DocumentKey, id);
      if k.Some? {
        builtinDocuments := RemoveAt(builtinDocuments, k.value);
        return Success(());
      }
      return Failure(DocumentNotFound);
    }
  }
}
