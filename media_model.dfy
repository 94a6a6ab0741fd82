/** The records of the two in-memory media stores (src/mocks/index.ts and
    demo/app/utils/mockMedia.js) and the list operations both stores are
    built from: `Array.prototype.slice` and the pagination on top of it, the
    case-insensitive search, the document extension, the gallery updates,
    and the loops that turn a batch of picked files into records. */
module MediaModel {
  import opened Wrappers
  import opened Text
  import UploadQueue

  // ===========================================================================
  // Records
  // ===========================================================================

  /** A record id: the literal id of a built-in record, or one drawn for a new
      record (`generateId(prefix)` or a timestamp), modelled by a serial number. */
  datatype MediaId = Seeded(literal: string) | Generated(prefix: string, serial: nat)

  /** A remote address of a built-in record, or an object URL made for an uploaded file. */
  datatype Url = Remote(address: string) | ObjectUrl(serial: nat)

  /** `LocalizedString`: a text per language code. */
  type Localized = map<string, string>

  /** What `getImageDimensions` resolves to; both are absent when decoding fails. */
  datatype Dimensions = Dimensions(width: Option<nat>, height: Option<nat>)

  /** `MediaImageItem` (the demo store also fills `mimeType`). */
  datatype Image = Image(
    id: MediaId,
    url: Url,
    thumbnailUrl: Option<Url>,
    filename: Option<string>,
    alt: Localized,
    mimeType: Option<string>,
    dimensions: Dimensions,
    size: Option<nat>)

  /** `MediaDocumentItem`. */
  datatype Document = Document(
    id: MediaId,
    url: Url,
    filename: string,
    title: Localized,
    mimeType: string,
    size: nat,
    extension: string)

  /** `MediaGalleryItem`; an absent cover is `undefined` in one store and `null` in the other. */
  datatype Gallery = Gallery(id: MediaId, name: string, coverImage: Option<Image>, images: seq<Image>, imageCount: nat)

  /** The `data` of an image update: `{ alt?: ... }`. */
  datatype ImagePatch = ImagePatch(alt: Option<Localized>)

  /** The `data` of a document update: `{ title?: ... }`. */
  datatype DocumentPatch = DocumentPatch(title: Option<Localized>)

  function ImageKey(i: Image): MediaId { i.id }
  function DocumentKey(d: Document): MediaId { d.id }
  function GalleryKey(g: Gallery): MediaId { g.id }

  /** `{ ...img, ...data }`: a present `alt` replaces the whole alt text. */
  function PatchImage(i: Image, p: ImagePatch): (r: Image)
    ensures r.id == i.id
    ensures p.alt.None? ==> r == i
    ensures p.alt.Some? ==> r.alt == p.alt.value && r.(alt := i.alt) == i
  {
    if p.alt.Some? then i.(alt := p.alt.value) else i
  }

  /** `{ ...doc, ...data }`. */
  function PatchDocument(d: Document, p: DocumentPatch): (r: Document)
    ensures r.id == d.id
    ensures p.title.None? ==> r == d
    ensures p.title.Some? ==> r.title == p.title.value && r.(title := d.title) == d
  {
    if p.title.Some? then d.(title := p.title.value) else d
  }

  // ===========================================================================
  // Lists
  // ===========================================================================

  function Min(a: int, b: int): int {
    if a <= b then a else b
  }

  /** `Array.prototype.filter`. */
  function Keep<T>(s: seq<T>, p: T -> bool): seq<T> {
    if s == [] then [] else (if p(s[0]) then [s[0]] else []) + Keep(s[1..], p)
  }

  lemma {:induction false} KeepMembers<T>(s: seq<T>, p: T -> bool, x: T)
    ensures x in Keep(s, p) <==> x in s && p(x)
    decreases |s|
  {
    if s != [] {
      KeepMembers(s[1..], p, x);
      assert s == [s[0]] + s[1..];
    }
  }

  /** Filtering distributes over concatenation: the kept items keep their order. */
  lemma {:induction false} KeepAppend<T>(a: seq<T>, b: seq<T>, p: T -> bool)
    ensures Keep(a + b, p) == Keep(a, p) + Keep(b, p)
    decreases |a|
  {
    if a == [] {
      assert a + b == b;
    } else {
      var head := if p(a[0]) then [a[0]] else [];
      assert (a + b)[0] == a[0];
      assert (a + b)[1..] == a[1..] + b;
      KeepAppend(a[1..], b, p);
      calc {
        Keep(a + b, p);
        head + Keep(a[1..] + b, p);
        head + (Keep(a[1..], p) + Keep(b, p));
        (head + Keep(a[1..], p)) + Keep(b, p);
      }
    }
  }

  lemma {:induction false} KeepEverything<T>(s: seq<T>, p: T -> bool)
    requires forall k :: 0 <= k < |s| ==> p(s[k])
    ensures Keep(s, p) == s
    decreases |s|
  {
    if s != [] {
      KeepEverything(s[1..], p);
    }
  }

  lemma {:induction false} KeepLength<T>(s: seq<T>, p: T -> bool)
    ensures |Keep(s, p)| <= |s|
    decreases |s|
  {
    if s != [] {
      KeepLength(s[1..], p);
    }
  }

  /** `findIndex((x) => x.id === id)`, with -1 as `None`: the first position holding the id. */
  function FirstWith<T>(s: seq<T>, key: T -> MediaId, id: MediaId): (r: Option<nat>)
    ensures r.Some? ==> r.value < |s| && key(s[r.value]) == id
    ensures r.Some? ==> forall j :: 0 <= j < r.value ==> key(s[j]) != id
    ensures r.None? ==> forall j :: 0 <= j < |s| ==> key(s[j]) != id
    decreases |s|
  {
    if s == [] then None
    else if key(s[0]) == id then Some(0)
    else
      match FirstWith(s[1..], key, id)
      case None => None
      case Some(k) => Some(k + 1)
  }

  /** `find((x) => x.id === id)`. */
  function FindWith<T>(s: seq<T>, key: T -> MediaId, id: MediaId): (r: Option<T>)
    ensures r.Some? <==> FirstWith(s, key, id).Some?
    ensures r.Some? ==> r.value == s[FirstWith(s, key, id).value]
  {
    match FirstWith(s, key, id)
    case None => None
    case Some(k) => Some(s[k])
  }

  /** `filter((x) => x.id !== id)`. */
  function Without<T>(s: seq<T>, key: T -> MediaId, id: MediaId): seq<T> {
    Keep(s, (x: T) => key(x) != id)
  }

  lemma WithoutMembers<T>(s: seq<T>, key: T -> MediaId, id: MediaId, x: T)
    ensures x in Without(s, key, id) <==> x in s && key(x) != id
  {
    KeepMembers(s, (y: T) => key(y) != id, x);
  }

  /** Removing an id that is not there changes nothing. */
  lemma WithoutAbsent<T>(s: seq<T>, key: T -> MediaId, id: MediaId)
    requires FirstWith(s, key, id).None?
    ensures Without(s, key, id) == s
  {
    KeepEverything(s, (y: T) => key(y) != id);
  }

  /** `map((x) => (x.id === id ? v : x))`. */
  function ReplaceWith<T>(s: seq<T>, key: T -> MediaId, id: MediaId, v: T): (r: seq<T>)
    ensures |r| == |s|
    ensures forall j :: 0 <= j < |s| && key(s[j]) != id ==> r[j] == s[j]
    ensures forall j :: 0 <= j < |s| && key(s[j]) == id ==> r[j] == v
  {
    seq(|s|, j requires 0 <= j < |s| => if key(s[j]) == id then v else s[j])
  }

  /** `splice(k, 1)`: the item at `k` is gone and the others close up in order. */
  function RemoveAt<T>(s: seq<T>, k: nat): (r: seq<T>)
    requires k < |s|
    ensures |r| == |s| - 1
    ensures forall j :: 0 <= j < k ==> r[j] == s[j]
    ensures forall j :: k <= j < |r| ==> r[j] == s[j + 1]
  {
    s[..k] + s[k + 1..]
  }

  function Reversed<T>(s: seq<T>): (r: seq<T>)
    ensures |r| == |s|
    ensures forall k :: 0 <= k < |s| ==> r[k] == s[|s| - 1 - k]
  {
    if s == [] then [] else Reversed(s[1..]) + [s[0]]
  }

  lemma ReversedSnoc<T>(s: seq<T>, x: T)
    ensures Reversed(s + [x]) == [x] + Reversed(s)
  {
    var l := Reversed(s + [x]);
    var r := [x] + Reversed(s);
    assert |l| == |r|;
    forall k | 0 <= k < |l| ensures l[k] == r[k] {
      if k > 0 {
        assert l[k] == (s + [x])[|s| - k];
      }
    }
  }

  // ===========================================================================
  // Pagination
  // ===========================================================================

  /** Where `slice` resolves one argument to: a negative one counts back from
      the end, and both ends clamp to the list. */
  function SliceIndex(i: int, n: nat): (r: nat)
    ensures r <= n
    ensures 0 <= i ==> r == Min(i, n)
    ensures i < 0 ==> r == (if n + i < 0 then 0 else n + i)
  {
    if i < 0 then (if n + i < 0 then 0 else n + i) else if i > n then n else i
  }

  /** `Array.prototype.slice(start, end)` on integer arguments. */
  function JsSlice<T>(s: seq<T>, start: int, end: int): (r: seq<T>)
    ensures SliceIndex(start, |s|) + |r| <= |s|
    ensures forall k :: 0 <= k < |r| ==> r[k] == s[SliceIndex(start, |s|) + k]
  {
    var a := SliceIndex(start, |s|);
    var b := SliceIndex(end, |s|);
    if a < b then s[a..b] else []
  }

  /** With non-negative arguments `slice` is the clamped sub-list. */
  lemma JsSliceInRange<T>(s: seq<T>, start: int, end: int)
    requires 0 <= start <= end
    ensures start < |s| ==> JsSlice(s, start, end) == s[start..Min(end, |s|)]
    ensures start >= |s| ==> JsSlice(s, start, end) == []
  {
  }

  /** `FetchListParams` (the `filters` field is never read). */
  datatype ListParams = ListParams(query: Option<string>, page: Option<int>, pageSize: Option<int>)

  /** `FetchListResult`. */
  datatype ListResult<T> = ListResult(items: seq<T>, total: nat, hasMore: bool)

  const DefaultPage: int := 1
  const DefaultPageSize: int := 20

  /** The pagination tail of every `fetch*List`. */
  function Paginate<T>(all: seq<T>, page: int, pageSize: int): ListResult<T> {
    var start := (page - 1) * pageSize;
    var end := start + pageSize;
    ListResult(JsSlice(all, start, end), |all|, end < |all|)
  }

  /** Page `page` (one-based) is the window `[(page-1)*pageSize, page*pageSize)`
      of the list, `total` is the list's length and `hasMore` says that the
      window stops before the end. */
  lemma PaginateSpec<T>(all: seq<T>, page: int, pageSize: int)
    requires page >= 1 && pageSize >= 1
    ensures var r := Paginate(all, page, pageSize); var start := (page - 1) * pageSize;
      && r.total == |all|
      && |r.items| <= pageSize
      && (r.hasMore <==> page * pageSize < |all|)
      && (start < |all| ==> r.items == all[start..Min(page * pageSize, |all|)])
      && (start >= |all| ==> r.items == [])
  {
    PageWindow(page, pageSize);
    JsSliceInRange(all, (page - 1) * pageSize, (page - 1) * pageSize + pageSize);
  }

  /** The arithmetic of one page's window. */
  lemma PageWindow(page: int, pageSize: int)
    requires page >= 1 && pageSize >= 1
    ensures 0 <= (page - 1) * pageSize < page * pageSize
    ensures (page - 1) * pageSize + pageSize == page * pageSize
    ensures (page + 1 - 1) * pageSize == page * pageSize
  {
  }

  /** The items of pages 1 to `k`, in order: what "load more" has shown. */
  function Pages<T>(all: seq<T>, pageSize: int, k: nat): seq<T> {
    if k == 0 then [] else Pages(all, pageSize, k - 1) + Paginate(all, k, pageSize).items
  }

  /** The first `k` pages are the first `k * pageSize` items, without gaps or repeats. */
  lemma {:induction false} PagesPrefix<T>(all: seq<T>, pageSize: int, k: nat)
    requires pageSize >= 1
    ensures Pages(all, pageSize, k) == all[..Min(k * pageSize, |all|)]
    decreases k
  {
    if k > 0 {
      PagesPrefix(all, pageSize, k - 1);
      PaginateSpec(all, k, pageSize);
      PageWindow(k, pageSize);
      PrefixGrows(all, Paginate(all, k, pageSize).items, (k - 1) * pageSize, k * pageSize);
    }
  }

  lemma PrefixGrows<T>(all: seq<T>, items: seq<T>, start: int, end: int)
    requires 0 <= start <= end
    requires start < |all| ==> items == all[start..Min(end, |all|)]
    requires start >= |all| ==> items == []
    ensures all[..Min(start, |all|)] + items == all[..Min(end, |all|)]
  {
    if start < |all| {
      assert all[..start] + all[start..Min(end, |all|)] == all[..Min(end, |all|)];
    }
  }

  /** Once a page says there is no more, the pages shown so far are the whole list. */
  lemma LastPageCompletes<T>(all: seq<T>, page: int, pageSize: int)
    requires page >= 1 && pageSize >= 1
    requires !Paginate(all, page, pageSize).hasMore
    ensures Pages(all, pageSize, page) == all
  {
    PaginateSpec(all, page, pageSize);
    PagesPrefix(all, pageSize, page);
    assert all[..|all|] == all;
  }

  /** When a page says there is more, the next page is not empty. */
  lemma MoreMeansNonEmpty<T>(all: seq<T>, page: int, pageSize: int)
    requires page >= 1 && pageSize >= 1
    requires Paginate(all, page, pageSize).hasMore
    ensures |Paginate(all, page + 1, pageSize).items| >= 1
  {
    PaginateSpec(all, page, pageSize);
    PaginateSpec(all, page + 1, pageSize);
    PageWindow(page, pageSize);
  }

  /** Page 0 is always empty: its window ends at index 0. */
  lemma PageZeroIsEmpty<T>(all: seq<T>, pageSize: int)
    requires pageSize >= 0
    ensures Paginate(all, 0, pageSize).items == []
  {
  }

  /** A negative page is not rejected: `slice` counts its window back from the
      end, so page -1 shows the second-to-last window of `pageSize` items. */
  lemma NegativePageCountsFromEnd<T>(all: seq<T>, pageSize: int)
    requires pageSize >= 1 && |all| >= 2 * pageSize
    ensures Paginate(all, -1, pageSize).items == all[|all| - 2 * pageSize..|all| - pageSize]
  {
    var r := Paginate(all, -1, pageSize).items;
    assert (-1 - 1) * pageSize == -2 * pageSize;
    assert SliceIndex(-2 * pageSize, |all|) == |all| - 2 * pageSize;
    assert SliceIndex(-2 * pageSize + pageSize, |all|) == |all| - pageSize;
  }

  // ===========================================================================
  // Search
  // ===========================================================================

  /** `if (query)`: an absent or empty query does not filter. */
  predicate Searching(query: Option<string>) {
    query.Some? && query.value != ""
  }

  /** `field?.toLowerCase().includes(lowerQuery)`. */
  predicate FieldMatches(field: Option<string>, lowerQuery: string) {
    field.Some? && Contains(Lower(field.value), lowerQuery)
  }

  /** `text?.[language]`. */
  function InLanguage(text: Localized, language: string): Option<string> {
    if language in text then Some(text[language]) else None
  }

  /** The image search: the file name, the Italian alt text or the English one. */
  predicate ImageMatches(i: Image, lowerQuery: string) {
    || FieldMatches(i.filename, lowerQuery)
    || FieldMatches(InLanguage(i.alt, "it"), lowerQuery)
    || FieldMatches(InLanguage(i.alt, "en"), lowerQuery)
  }

  /** The document search: the file name, the Italian title or the English one. */
  predicate DocumentMatches(d: Document, lowerQuery: string) {
    || FieldMatches(Some(d.filename), lowerQuery)
    || FieldMatches(InLanguage(d.title, "it"), lowerQuery)
    || FieldMatches(InLanguage(d.title, "en"), lowerQuery)
  }

  /** The gallery search: the name. */
  predicate GalleryMatches(g: Gallery, lowerQuery: string) {
    Contains(Lower(g.name), lowerQuery)
  }

  /** The search step of every `fetch*List`. */
  function Search<T>(items: seq<T>, query: Option<string>, matches: (T, string) -> bool): seq<T> {
    if Searching(query) then Keep(items, (x: T) => matches(x, Lower(query.value))) else items
  }

  /** Without a query every item is listed in order; with one, exactly the
      matching items are, in their original order. */
  lemma SearchSpec<T>(items: seq<T>, query: Option<string>, matches: (T, string) -> bool, x: T)
    ensures !Searching(query) ==> Search(items, query, matches) == items
    ensures Searching(query) ==> (x in Search(items, query, matches) <==> x in items && matches(x, Lower(query.value)))
    ensures |Search(items, query, matches)| <= |items|
  {
    if Searching(query) {
      KeepMembers(items, (y: T) => matches(y, Lower(query.value)), x);
      KeepLength(items, (y: T) => matches(y, Lower(query.value)));
    }
  }

  /** Searching a concatenation searches each part; the uploaded records stay
      in front of the built-in ones. */
  lemma SearchAppend<T>(a: seq<T>, b: seq<T>, query: Option<string>, matches: (T, string) -> bool)
    ensures Search(a + b, query, matches) == Search(a, query, matches) + Search(b, query, matches)
  {
    if Searching(query) {
      KeepAppend(a, b, (y: T) => matches(y, Lower(query.value)));
    }
  }

  /** The query's letter case does not matter. */
  lemma SearchIgnoresCase<T>(items: seq<T>, q: string, matches: (T, string) -> bool)
    ensures Search(items, Some(Upper(q)), matches) == Search(items, Some(q), matches)
  {
    LowerUpper(q);
  }

  /** A whole `fetch*List`: search, then the page the parameters ask for
      (page 1 and 20 items when they leave it out). */
  function List<T>(items: seq<T>, params: ListParams, matches: (T, string) -> bool): ListResult<T> {
    Paginate(Search(items, params.query, matches), params.page.GetOr(DefaultPage), params.pageSize.GetOr(DefaultPageSize))
  }

  /** Every listed item is a stored item that matches the query, at most a
      page of them is listed, and `total` counts all the matches. */
  lemma ListSpec<T>(items: seq<T>, params: ListParams, matches: (T, string) -> bool, x: T)
    ensures var r := List(items, params, matches);
      && r.total == |Search(items, params.query, matches)| <= |items|
      && (x in r.items ==> x in items && (Searching(params.query) ==> matches(x, Lower(params.query.value))))
  {
    var found := Search(items, params.query, matches);
    var r := List(items, params, matches);
    SearchSpec(items, params.query, matches, x);
    if x in r.items {
      var k :| 0 <= k < |r.items| && r.items[k] == x;
      var page := params.page.GetOr(DefaultPage);
      var size := params.pageSize.GetOr(DefaultPageSize);
      assert x == found[SliceIndex((page - 1) * size, |found|) + k];
    }
  }

  /** `ListSpec` for every listed item at once. */
  lemma ListMembers<T>(items: seq<T>, params: ListParams, matches: (T, string) -> bool)
    ensures var r := List(items, params, matches);
      && r.total <= |items|
      && (forall x :: x in r.items ==> x in items)
      && (Searching(params.query) ==> forall x :: x in r.items ==> matches(x, Lower(params.query.value)))
  {
    var r := List(items, params, matches);
    forall x | x in r.items ensures x in items && (Searching(params.query) ==> matches(x, Lower(params.query.value))) {
      ListSpec(items, params, matches, x);
    }
    if Searching(params.query) {
      KeepLength(items, (y: T) => matches(y, Lower(params.query.value)));
    }
  }

  /** With no parameters a listing is the first 20 stored items. */
  lemma ListDefaults<T>(items: seq<T>, matches: (T, string) -> bool)
    ensures var r := List(items, ListParams(None, None, None), matches);
      r.items == items[..Min(20, |items|)] && r.total == |items| && (r.hasMore <==> 20 < |items|)
  {
    PaginateSpec(items, 1, 20);
  }

  // ===========================================================================
  // Uploaded records
  // ===========================================================================

  /** `Array.isArray(files) ? files : [files]`. */
  function FileArray(files: UploadQueue.Outcome<UploadQueue.FileInfo>): (r: seq<UploadQueue.FileInfo>)
    ensures files.Single? ==> r == [files.item]
    ensures files.Batch? ==> r == files.items
  {
    match files
    case Single(f) => [f]
    case Batch(fs) => fs
  }

  /** `fileArray.length === 1 ? results[0] : results`. */
  function Returned<T>(results: seq<T>): (r: UploadQueue.Outcome<T>)
    ensures r.Single? <==> |results| == 1
    ensures r.Single? ==> r.item == results[0]
    ensures r.Batch? ==> r.items == results
  {
    if |results| == 1 then UploadQueue.Single(results[0]) else UploadQueue.Batch(results)
  }

  /** What the upload hook keeps of an upload: the first record, none for an empty batch. */
  lemma ReturnedFirst<T>(results: seq<T>)
    ensures UploadQueue.SingleResult(Returned(results)) == (if results == [] then None else Some(results[0]))
  {
  }

  /** `getImageDimensions` runs only for image MIME types. */
  function Measured(f: UploadQueue.FileInfo, decode: UploadQueue.FileInfo -> Dimensions): (d: Dimensions)
    ensures !StartsWith(f.mimeType, "image/") ==> d == Dimensions(None, None)
  {
    if StartsWith(f.mimeType, "image/") then decode(f) else Dimensions(None, None)
  }

  /** The record made for one uploaded image file, drawing `serial` for its id
      and object URL; `withMime` is the demo store's extra field. */
  function NewImage(f: UploadQueue.FileInfo, serial: nat, prefix: string, withMime: bool,
                    decode: UploadQueue.FileInfo -> Dimensions): Image {
    Image(Generated(prefix, serial), ObjectUrl(serial), Some(ObjectUrl(serial)), Some(f.name), map[],
          if withMime then Some(f.mimeType) else None, Measured(f, decode), Some(f.size))
  }

  /** `file.name.split('.').pop() || ''`: the text after the last dot, the
      whole name when there is no dot, empty when the name ends with a dot. */
  function Extension(name: string): (ext: string)
    ensures '.' !in ext
    ensures '.' !in name ==> ext == name
    ensures '.' in name ==> exists k :: 0 <= k < |name| && name[k] == '.' && ext == name[k + 1..]
  {
    LastPiece(name, '.');
    Last(Split(name, '.'))
  }

  /** The record made for one uploaded document file. */
  function NewDocument(f: UploadQueue.FileInfo, serial: nat): Document {
    Document(Generated("uploaded-doc", serial), ObjectUrl(serial), f.name, map[], f.mimeType, f.size, Extension(f.name))
  }

  function NewImages(files: seq<UploadQueue.FileInfo>, serial: nat, prefix: string, withMime: bool,
                     decode: UploadQueue.FileInfo -> Dimensions): (r: seq<Image>)
    ensures |r| == |files|
    ensures forall i :: 0 <= i < |files| ==> r[i] == NewImage(files[i], serial + i, prefix, withMime, decode)
  {
    seq(|files|, i requires 0 <= i < |files| => NewImage(files[i], serial + i, prefix, withMime, decode))
  }

  function NewDocuments(files: seq<UploadQueue.FileInfo>, serial: nat): (r: seq<Document>)
    ensures |r| == |files|
  {
    seq(|files|, i requires 0 <= i < |files| => NewDocument(files[i], serial + i))
  }

  lemma NewImagesSnoc(files: seq<UploadQueue.FileInfo>, i: nat, serial: nat, prefix: string, withMime: bool,
                      decode: UploadQueue.FileInfo -> Dimensions)
    requires i < |files|
    ensures NewImages(files[..i + 1], serial, prefix, withMime, decode)
         == NewImages(files[..i], serial, prefix, withMime, decode) + [NewImage(files[i], serial + i, prefix, withMime, decode)]
  {
    assert files[..i + 1][i] == files[i];
  }

  lemma NewDocumentsSnoc(files: seq<UploadQueue.FileInfo>, i: nat, serial: nat)
    requires i < |files|
    ensures NewDocuments(files[..i + 1], serial) == NewDocuments(files[..i], serial) + [NewDocument(files[i], serial + i)]
  {
    assert files[..i + 1][i] == files[i];
  }

  /** The `for` loop of `uploadImages`: each record is put in front of the
      store as soon as it is made and pushed onto `results`. */
  method PrependImages(files: seq<UploadQueue.FileInfo>, store: seq<Image>, serial: nat, prefix: string,
                       withMime: bool, decode: UploadQueue.FileInfo -> Dimensions)
    returns (store': seq<Image>, results: seq<Image>)
    ensures results == NewImages(files, serial, prefix, withMime, decode)
    ensures store' == Reversed(results) + store
  {
    store' := store;
    results := [];
    var i := 0;
    while i < |files|
      invariant 0 <= i <= |files|
      invariant results == NewImages(files[..i], serial, prefix, withMime, decode)
      invariant store' == Reversed(results) + store
    {
      var item := NewImage(files[i], serial + i, prefix, withMime, decode);
      ReversedSnoc(results, item);
      NewImagesSnoc(files, i, serial, prefix, withMime, decode);
      store' := [item] + store';
      results := results + [item];
      i := i + 1;
    }
    assert files[..i] == files;
  }

  /** The `for` loop of `uploadToGallery`: the records are only collected. */
  method CollectImages(files: seq<UploadQueue.FileInfo>, serial: nat, prefix: string,
                       withMime: bool, decode: UploadQueue.FileInfo -> Dimensions)
    returns (results: seq<Image>)
    ensures results == NewImages(files, serial, prefix, withMime, decode)
  {
    results := [];
    var i := 0;
    while i < |files|
      invariant 0 <= i <= |files|
      invariant results == NewImages(files[..i], serial, prefix, withMime, decode)
    {
      NewImagesSnoc(files, i, serial, prefix, withMime, decode);
      results := results + [NewImage(files[i], serial + i, prefix, withMime, decode)];
      i := i + 1;
    }
    assert files[..i] == files;
  }

  /** The `for` loop of `uploadDocuments`. */
  method PrependDocuments(files: seq<UploadQueue.FileInfo>, store: seq<Document>, serial: nat)
    returns (store': seq<Document>, results: seq<Document>)
    ensures results == NewDocuments(files, serial)
    ensures store' == Reversed(results) + store
  {
    store' := store;
    results := [];
    var i := 0;
    while i < |files|
      invariant 0 <= i <= |files|
      invariant results == NewDocuments(files[..i], serial)
      invariant store' == Reversed(results) + store
    {
      var item := NewDocument(files[i], serial + i);
      ReversedSnoc(results, item);
      NewDocumentsSnoc(files, i, serial);
      store' := [item] + store';
      results := results + [item];
      i := i + 1;
    }
    assert files[..i] == files;
  }

  /** After an upload the store begins with the new records in reverse file
      order, followed by what it held before. */
  lemma PrependedOrder<T>(results: seq<T>, store: seq<T>, k: nat)
    requires k < |results|
    ensures (Reversed(results) + store)[k] == results[|results| - 1 - k]
    ensures (Reversed(results) + store)[|results|..] == store
  {
  }

  /** Every generated id in `s` was drawn before `serial`. */
  ghost predicate AllBelow<T>(s: seq<T>, key: T -> MediaId, serial: nat) {
    forall k :: 0 <= k < |s| ==> (key(s[k]).Generated? ==> key(s[k]).serial < serial)
  }

  /** An id drawn at `serial` is held by no record in a list whose ids are all below it. */
  lemma FreshId<T>(s: seq<T>, key: T -> MediaId, serial: nat, prefix: string)
    requires AllBelow(s, key, serial)
    ensures FirstWith(s, key, Generated(prefix, serial)).None?
  {
  }

  lemma AllBelowGrows<T>(s: seq<T>, key: T -> MediaId, serial: nat, serial': nat)
    requires AllBelow(s, key, serial) && serial <= serial'
    ensures AllBelow(s, key, serial')
  {
  }

  /** Putting a batch drawn from `serial` in front of a store keeps every id below the new serial. */
  lemma PrependedBelow<T>(batch: seq<T>, store: seq<T>, key: T -> MediaId, serial: nat)
    requires AllBelow(store, key, serial)
    requires AllBelow(batch, key, serial + |batch|)
    ensures AllBelow(Reversed(batch) + store, key, serial + |batch|)
  {
    var r := Reversed(batch) + store;
    forall k | 0 <= k < |r| ensures key(r[k]).Generated? ==> key(r[k]).serial < serial + |batch| {
      if k < |batch| {
        assert r[k] == batch[|batch| - 1 - k];
      } else {
        assert r[k] == store[k - |batch|];
      }
    }
  }

  lemma NewImagesBelow(files: seq<UploadQueue.FileInfo>, serial: nat, prefix: string, withMime: bool,
                       decode: UploadQueue.FileInfo -> Dimensions)
    ensures AllBelow(NewImages(files, serial, prefix, withMime, decode), ImageKey, serial + |files|)
  {
  }

  lemma NewDocumentsBelow(files: seq<UploadQueue.FileInfo>, serial: nat)
    ensures AllBelow(NewDocuments(files, serial), DocumentKey, serial + |files|)
  {
    var r := NewDocuments(files, serial);
    forall k | 0 <= k < |r| ensures DocumentKey(r[k]).Generated? ==> DocumentKey(r[k]).serial < serial + |files| {
      assert r[k] == NewDocument(files[k], serial + k);
    }
  }

  lemma WithoutBelow<T>(s: seq<T>, key: T -> MediaId, id: MediaId, serial: nat)
    requires AllBelow(s, key, serial)
    ensures AllBelow(Without(s, key, id), key, serial)
  {
    var r := Without(s, key, id);
    forall k | 0 <= k < |r| ensures key(r[k]).Generated? ==> key(r[k]).serial < serial {
      WithoutMembers(s, key, id, r[k]);
    }
  }

  lemma RemoveAtBelow<T>(s: seq<T>, key: T -> MediaId, k: nat, serial: nat)
    requires k < |s| && AllBelow(s, key, serial)
    ensures AllBelow(RemoveAt(s, k), key, serial)
  {
  }

  lemma ReplaceWithBelow<T>(s: seq<T>, key: T -> MediaId, id: MediaId, v: T, serial: nat)
    requires AllBelow(s, key, serial) && key(v) == id && FirstWith(s, key, id).Some?
    ensures AllBelow(ReplaceWith(s, key, id, v), key, serial)
  {
  }

  // ===========================================================================
  // Galleries
  // ===========================================================================

  /** `imageCount` counts the images, and a cover, when there is one, carries
      the id of one of the images. */
  ghost predicate GalleryConsistent(g: Gallery) {
    && g.imageCount == |g.images|
    && (g.coverImage.Some? ==> exists k :: 0 <= k < |g.images| && g.images[k].id == g.coverImage.value.id)
  }

  ghost predicate AllConsistent(gs: seq<Gallery>) {
    forall a :: 0 <= a < |gs| ==> GalleryConsistent(gs[a])
  }

  /** The gallery `createGallery` puts first. */
  function NewGallery(id: MediaId, name: string): (g: Gallery)
    ensures GalleryConsistent(g) && g.images == [] && g.coverImage.None?
  {
    Gallery(id, name, None, [], 0)
  }

  /** `createGallery` puts a consistent gallery in front of consistent ones. */
  lemma ConsConsistent(g: Gallery, gs: seq<Gallery>)
    requires GalleryConsistent(g) && AllConsistent(gs)
    ensures AllConsistent([g] + gs)
  {
    forall a | 0 <= a < |[g] + gs| ensures GalleryConsistent(([g] + gs)[a]) {
      if a > 0 {
        assert ([g] + gs)[a] == gs[a - 1];
      }
    }
  }

  /** The gallery `uploadToGallery` makes from `results`: new images in front,
      the count recomputed, an existing cover kept (`gallery.coverImage || results[0]`). */
  function WithUploads(g: Gallery, results: seq<Image>): Gallery {
    var images := results + g.images;
    g.(images := images, imageCount := |images|,
       coverImage := if g.coverImage.Some? then g.coverImage else if results == [] then None else Some(results[0]))
  }

  /** An upload keeps the gallery consistent, keeps its id and name, puts the
      new images in front of the old ones, changes the cover only when there
      was none, and then makes the first new image the cover. */
  lemma WithUploadsSpec(g: Gallery, results: seq<Image>)
    requires GalleryConsistent(g)
    ensures var r := WithUploads(g, results);
      && GalleryConsistent(r)
      && r.id == g.id && r.name == g.name
      && r.images == results + g.images && r.imageCount == |results| + |g.images|
      && (g.coverImage.Some? ==> r.coverImage == g.coverImage)
      && (g.coverImage.None? && results != [] ==> r.coverImage == Some(results[0]))
      && (g.coverImage.None? && results == [] ==> r.coverImage.None?)
  {
    var r := WithUploads(g, results);
    if g.coverImage.Some? {
      var k :| 0 <= k < |g.images| && g.images[k].id == g.coverImage.value.id;
      assert r.images[|results| + k] == g.images[k];
    } else if results != [] {
      assert r.images[0] == results[0];
    }
  }

  /** The gallery `removeFromGallery` leaves: every image with the id is gone,
      and only a removed cover is replaced, by the first remaining image
      (`newImages[0] || undefined`). */
  function WithoutImage(g: Gallery, imageId: MediaId): Gallery {
    var images := Without(g.images, ImageKey, imageId);
    g.(images := images, imageCount := |images|,
       coverImage := if g.coverImage.Some? && g.coverImage.value.id == imageId
                     then (if images == [] then None else Some(images[0]))
                     else g.coverImage)
  }

  lemma WithoutImageSpec(g: Gallery, imageId: MediaId)
    requires GalleryConsistent(g)
    ensures var r := WithoutImage(g, imageId);
      && GalleryConsistent(r)
      && r.id == g.id && r.name == g.name
      && (forall k :: 0 <= k < |r.images| ==> r.images[k].id != imageId && r.images[k] in g.images)
      && (forall x :: x in g.images && x.id != imageId ==> x in r.images)
      && (g.coverImage.None? || g.coverImage.value.id != imageId ==> r.coverImage == g.coverImage)
      && (g.coverImage.Some? && g.coverImage.value.id == imageId ==>
            r.coverImage == (if r.images == [] then None else Some(r.images[0])))
  {
    var r := WithoutImage(g, imageId);
    forall k | 0 <= k < |r.images| ensures r.images[k].id != imageId && r.images[k] in g.images {
      WithoutMembers(g.images, ImageKey, imageId, r.images[k]);
    }
    forall x | x in g.images && x.id != imageId ensures x in r.images {
      WithoutMembers(g.images, ImageKey, imageId, x);
    }
    if g.coverImage.Some? && g.coverImage.value.id != imageId {
      var k :| 0 <= k < |g.images| && g.images[k].id == g.coverImage.value.id;
      WithoutMembers(g.images, ImageKey, imageId, g.images[k]);
      var j :| 0 <= j < |r.images| && r.images[j] == g.images[k];
    }
    if r.coverImage.Some? && r.coverImage != g.coverImage {
      assert r.images[0].id == r.coverImage.value.id;
    }
  }

  /** `gallery.images.map(...)` of `updateGalleryImage`: every image with the id patched. */
  function PatchEach(images: seq<Image>, imageId: MediaId, p: ImagePatch): (r: seq<Image>)
    ensures |r| == |images|
    ensures forall k :: 0 <= k < |images| ==> r[k] == (if images[k].id == imageId then PatchImage(images[k], p) else images[k])
  {
    seq(|images|, k requires 0 <= k < |images| => if images[k].id == imageId then PatchImage(images[k], p) else images[k])
  }

  /** The gallery with its matching images patched; the cover is left as it was. */
  function WithPatched(g: Gallery, imageId: MediaId, p: ImagePatch): Gallery {
    g.(images := PatchEach(g.images, imageId, p))
  }

  /** A patch keeps the gallery consistent and keeps every image id, but it
      does not touch the cover, which keeps the old copy of a patched image. */
  lemma WithPatchedSpec(g: Gallery, imageId: MediaId, p: ImagePatch)
    requires GalleryConsistent(g)
    ensures var r := WithPatched(g, imageId, p);
      && GalleryConsistent(r)
      && r.id == g.id && r.name == g.name && r.coverImage == g.coverImage
      && |r.images| == |g.images|
      && (forall k :: 0 <= k < |r.images| ==> r.images[k].id == g.images[k].id)
  {
    var r := WithPatched(g, imageId, p);
    if g.coverImage.Some? {
      var k :| 0 <= k < |g.images| && g.images[k].id == g.coverImage.value.id;
      assert r.images[k].id == g.images[k].id;
    }
  }

  /** `mockGalleries.map(...)` applying `step` to the galleries with the id. */
  function UploadInto(gs: seq<Gallery>, galleryId: MediaId, results: seq<Image>): (r: seq<Gallery>)
    ensures |r| == |gs|
    ensures forall a :: 0 <= a < |gs| ==> r[a] == (if gs[a].id == galleryId then WithUploads(gs[a], results) else gs[a])
  {
    seq(|gs|, a requires 0 <= a < |gs| => if gs[a].id == galleryId then WithUploads(gs[a], results) else gs[a])
  }

  function RemoveFrom(gs: seq<Gallery>, galleryId: MediaId, imageId: MediaId): (r: seq<Gallery>)
    ensures |r| == |gs|
    ensures forall a :: 0 <= a < |gs| ==> r[a] == (if gs[a].id == galleryId then WithoutImage(gs[a], imageId) else gs[a])
  {
    seq(|gs|, a requires 0 <= a < |gs| => if gs[a].id == galleryId then WithoutImage(gs[a], imageId) else gs[a])
  }

  function PatchIn(gs: seq<Gallery>, galleryId: MediaId, imageId: MediaId, p: ImagePatch): (r: seq<Gallery>)
    ensures |r| == |gs|
    ensures forall a :: 0 <= a < |gs| ==> r[a] == (if gs[a].id == galleryId then WithPatched(gs[a], imageId, p) else gs[a])
  {
    seq(|gs|, a requires 0 <= a < |gs| => if gs[a].id == galleryId then WithPatched(gs[a], imageId, p) else gs[a])
  }

  lemma UploadIntoConsistent(gs: seq<Gallery>, galleryId: MediaId, results: seq<Image>)
    requires AllConsistent(gs)
    ensures AllConsistent(UploadInto(gs, galleryId, results))
  {
    forall a | 0 <= a < |gs| && gs[a].id == galleryId ensures GalleryConsistent(WithUploads(gs[a], results)) {
      WithUploadsSpec(gs[a], results);
    }
  }

  lemma RemoveFromConsistent(gs: seq<Gallery>, galleryId: MediaId, imageId: MediaId)
    requires AllConsistent(gs)
    ensures AllConsistent(RemoveFrom(gs, galleryId, imageId))
  {
    forall a | 0 <= a < |gs| && gs[a].id == galleryId ensures GalleryConsistent(WithoutImage(gs[a], imageId)) {
      WithoutImageSpec(gs[a], imageId);
    }
  }

  lemma PatchInConsistent(gs: seq<Gallery>, galleryId: MediaId, imageId: MediaId, p: ImagePatch)
    requires AllConsistent(gs)
    ensures AllConsistent(PatchIn(gs, galleryId, imageId, p))
  {
    forall a | 0 <= a < |gs| && gs[a].id == galleryId ensures GalleryConsistent(WithPatched(gs[a], imageId, p)) {
      WithPatchedSpec(gs[a], imageId, p);
    }
  }

  /** `deleteGallery` keeps the remaining galleries consistent. */
  lemma WithoutConsistent(gs: seq<Gallery>, id: MediaId)
    requires AllConsistent(gs)
    ensures AllConsistent(Without(gs, GalleryKey, id))
  {
    var r := Without(gs, GalleryKey, id);
    forall a | 0 <= a < |r| ensures GalleryConsistent(r[a]) {
      WithoutMembers(gs, GalleryKey, id, r[a]);
    }
  }

  /** The value `updatedImage` holds after the inner `map` has run over
      `images` starting from `prev`: the patched copy of the last match. */
  function LastPatched(images: seq<Image>, imageId: MediaId, p: ImagePatch, prev: Option<Image>): Option<Image>
    decreases |images|
  {
    if images == [] then prev
    else LastPatched(images[1..], imageId, p, if images[0].id == imageId then Some(PatchImage(images[0], p)) else prev)
  }

  /** The same over the outer `map`, which enters only galleries with the id. */
  function LastPatchedIn(gs: seq<Gallery>, galleryId: MediaId, imageId: MediaId, p: ImagePatch, prev: Option<Image>): Option<Image>
    decreases |gs|
  {
    if gs == [] then prev
    else LastPatchedIn(gs[1..], galleryId, imageId, p,
                       if gs[0].id == galleryId then LastPatched(gs[0].images, imageId, p, prev) else prev)
  }

  /** The gallery with id `galleryId` holds an image with id `imageId`. */
  ghost predicate Holds(gs: seq<Gallery>, galleryId: MediaId, imageId: MediaId) {
    exists a, k :: 0 <= a < |gs| && gs[a].id == galleryId && 0 <= k < |gs[a].images| && gs[a].images[k].id == imageId
  }

  lemma {:induction false} LastPatchedSpec(images: seq<Image>, imageId: MediaId, p: ImagePatch, prev: Option<Image>)
    requires prev.Some? ==> prev.value.id == imageId
    ensures var r := LastPatched(images, imageId, p, prev);
      && (r.Some? <==> prev.Some? || exists k :: 0 <= k < |images| && images[k].id == imageId)
      && (r.Some? ==> r.value.id == imageId)
    decreases |images|
  {
    if images != [] {
      var next := if images[0].id == imageId then Some(PatchImage(images[0], p)) else prev;
      LastPatchedSpec(images[1..], imageId, p, next);
      if exists k :: 0 <= k < |images| && images[k].id == imageId {
        var k :| 0 <= k < |images| && images[k].id == imageId;
        if k > 0 {
          assert images[1..][k - 1].id == imageId;
        }
      }
      if exists k :: 0 <= k < |images[1..]| && images[1..][k].id == imageId {
        var k :| 0 <= k < |images[1..]| && images[1..][k].id == imageId;
        assert images[k + 1].id == imageId;
      }
    }
  }

  /** `updatedImage` ends up set exactly when the gallery holds the image, and
      then it is a patched copy of that image. */
  lemma {:induction false} LastPatchedInSpec(gs: seq<Gallery>, galleryId: MediaId, imageId: MediaId, p: ImagePatch, prev: Option<Image>)
    requires prev.Some? ==> prev.value.id == imageId
    ensures var r := LastPatchedIn(gs, galleryId, imageId, p, prev);
      && (r.Some? <==> prev.Some? || Holds(gs, galleryId, imageId))
      && (r.Some? ==> r.value.id == imageId)
    decreases |gs|
  {
    if gs != [] {
      var next := if gs[0].id == galleryId then LastPatched(gs[0].images, imageId, p, prev) else prev;
      if gs[0].id == galleryId {
        LastPatchedSpec(gs[0].images, imageId, p, prev);
      }
      LastPatchedInSpec(gs[1..], galleryId, imageId, p, next);
      HoldsCons(gs, galleryId, imageId);
    }
  }

  lemma HoldsCons(gs: seq<Gallery>, galleryId: MediaId, imageId: MediaId)
    requires gs != []
    ensures Holds(gs, galleryId, imageId) <==>
      || (gs[0].id == galleryId && exists k :: 0 <= k < |gs[0].images| && gs[0].images[k].id == imageId)
      || Holds(gs[1..], galleryId, imageId)
  {
    if Holds(gs, galleryId, imageId) {
      var a, k :| 0 <= a < |gs| && gs[a].id == galleryId && 0 <= k < |gs[a].images| && gs[a].images[k].id == imageId;
      if a > 0 {
        assert gs[1..][a - 1] == gs[a];
      }
    }
    if Holds(gs[1..], galleryId, imageId) {
      var a, k :| 0 <= a < |gs[1..]| && gs[1..][a].id == galleryId && 0 <= k < |gs[1..][a].images| && gs[1..][a].images[k].id == imageId;
      assert gs[a + 1] == gs[1..][a];
    }
  }

  lemma PatchEachSnoc(images: seq<Image>, k: nat, imageId: MediaId, p: ImagePatch)
    requires k < |images|
    ensures PatchEach(images[..k + 1], imageId, p)
         == PatchEach(images[..k], imageId, p) + [if images[k].id == imageId then PatchImage(images[k], p) else images[k]]
  {
    assert images[..k + 1][k] == images[k];
  }

  lemma PatchInSnoc(gs: seq<Gallery>, a: nat, galleryId: MediaId, imageId: MediaId, p: ImagePatch)
    requires a < |gs|
    ensures PatchIn(gs[..a + 1], galleryId, imageId, p)
         == PatchIn(gs[..a], galleryId, imageId, p) + [if gs[a].id == galleryId then WithPatched(gs[a], imageId, p) else gs[a]]
  {
    assert gs[..a + 1][a] == gs[a];
  }

  /** The inner `map` of `updateGalleryImage`, assigning `updatedImage` at each match. */
  method PatchImages(images: seq<Image>, imageId: MediaId, p: ImagePatch, prev: Option<Image>)
    returns (images': seq<Image>, updated: Option<Image>)
    ensures images' == PatchEach(images, imageId, p)
    ensures updated == LastPatched(images, imageId, p, prev)
  {
    images' := [];
    updated := prev;
    var k := 0;
    while k < |images|
      invariant 0 <= k <= |images|
      invariant images' == PatchEach(images[..k], imageId, p)
      invariant LastPatched(images[k..], imageId, p, updated) == LastPatched(images, imageId, p, prev)
    {
      var img := images[k];
      assert images[k..][1..] == images[k + 1..];
      PatchEachSnoc(images, k, imageId, p);
      if img.id == imageId {
        updated := Some(PatchImage(img, p));
        images' := images' + [updated.value];
      } else {
        images' := images' + [img];
      }
      k := k + 1;
    }
    assert images[..k] == images;
  }

  /** The outer `map` of `updateGalleryImage`. */
  method PatchGalleries(gs: seq<Gallery>, galleryId: MediaId, imageId: MediaId, p: ImagePatch)
    returns (gs': seq<Gallery>, updated: Option<Image>)
    ensures gs' == PatchIn(gs, galleryId, imageId, p)
    ensures updated == LastPatchedIn(gs, galleryId, imageId, p, None)
  {
    gs' := [];
    updated := None;
    var a := 0;
    while a < |gs|
      invariant 0 <= a <= |gs|
      invariant gs' == PatchIn(gs[..a], galleryId, imageId, p)
      invariant LastPatchedIn(gs[a..], galleryId, imageId, p, updated) == LastPatchedIn(gs, galleryId, imageId, p, None)
    {
      var g := gs[a];
      assert gs[a..][1..] == gs[a + 1..];
      PatchInSnoc(gs, a, galleryId, imageId, p);
      if g.id == galleryId {
        var images';
        images', updated := PatchImages(g.images, imageId, p, updated);
        gs' := gs' + [g.(images := images')];
      } else {
        gs' := gs' + [g];
      }
      a := a + 1;
    }
    assert gs[..a] == gs;
  }
}
