# puck-plugin-media: upload queue, media stores and dropzone, in Dafny

This project models the parts of puck-plugin-media that hold state or logic:

- **The upload hook** (`src/hooks/useUpload.ts`, module `UploadQueue`):
  - it validates each file against the effective upload configuration;
  - it admits a batch as new tasks in front of the list;
  - it tracks at most three uploads as active at a time; a cancelled transfer is not aborted and keeps running outside that bound;
  - it settles each transfer as progress, success or failure;
  - it cancels tasks, clears finished ones and releases their preview URLs.

  The hook is the class `UploadQueue.Uploader`. Each asynchronous happening is one atomic method on that class:
  - adding files;
  - a scheduler run;
  - a progress callback;
  - a resolved or rejected transfer;
  - a cancel;
  - a clear.

  Its invariant, `Valid()`, says several things hold together:
  - task ids are unique and fresh;
  - the active set holds at most three ids, exactly the tasks marked uploading;
  - every preview handle ever created is held by exactly one listed task or has been revoked exactly once.
- **The in-memory media back ends.** `src/mocks/index.ts` is the class `MockMedia.MockStore`. Its demo copy `demo/app/utils/mockMedia.js` is the class `DemoMedia.DemoStore`. Both stores hold images, galleries and documents:
  - the listing functions search case-insensitively and paginate with `slice`;
  - the remaining operations are update, delete, upload and the gallery operations, each a method that reassigns the store's lists.

  The shared record types and the pure list transforms are in `MediaModel`. Gallery consistency ("`imageCount` is the length of `images`, and the cover carries the id of one of the images") is an invariant that every gallery operation keeps.
- **The dropzone** (`src/components/UploadDropzone/UploadDropzone.tsx`, module `UploadDropzone`):
  - the accepted-types hint `formatAcceptedTypes`;
  - the drag-enter/leave counter, as a state machine and as the class `Dropzone`;
  - the gating of drop, click, key and input events.

`Text` models the JavaScript string methods the code uses (`toLowerCase`, `toUpperCase`, `startsWith`, `endsWith`, `includes`, `split`, `join`, `trim`, `replace` with a string pattern, `pop`), restricted to ASCII case mapping. `Wrappers` holds `Option` and `Result`.

Other modelling choices:
- Ids drawn from `Date.now()` and `Math.random()` are fresh serial numbers.
- Object URLs are abstract handles.
- Image decoding (`getImageDimensions`) is a function parameter `decode`.
- A key that is absent and a key explicitly set to `undefined` are both `None`.

Behaviour of the code that the model makes explicit:
- **Scheduling order.** Pending tasks start in list order. The list holds the newest batch first, so the newest batch starts first (`UploadQueue.NewestBatchFirst`).
- **Default accept list.** When the caller gives none, the accept list is `'image/*'`.
- **Completion hook failure.** When `onUploadComplete` throws, the `catch` marks the already completed task as failed with the hook's message; its progress stays 100 and its result is kept (`UploadQueue.HookFailureKeepsResult`).
- **Demo search crash.** The demo's `fetchImageList` calls `item.filename.toLowerCase()` without a guard. The model gives that call its `TypeError` as a `Failure`, and proves that it cannot happen in a store that satisfies `Valid()`, because every image the demo creates has a file name.

## Model

| member | source | states |
|---|---|---|
| UploadQueue.EffectiveConfig | src/hooks/useUpload.ts:4-8 | each field the caller sets wins; otherwise the defaults `'image/*'`, 10485760 bytes and `multiple = true` apply |
| UploadQueue.AcceptEntries | src/hooks/useUpload.ts:32 | one entry per comma-separated piece of the accept string, each trimmed, in order |
| UploadQueue.AnyEntryMatches | src/hooks/useUpload.ts:33-43 | true exactly when some entry matches the file |
| UploadQueue.Validate | src/hooks/useUpload.ts:21-53 | a file over the size limit is refused as too large whatever its type; otherwise it is accepted if and only if the accept list admits it, and refused as a type not accepted otherwise |
| UploadQueue.SizeLimitInclusive | src/hooks/useUpload.ts:25 | a file of exactly `maxSize` bytes is never refused as too large |
| UploadQueue.WildcardAcceptsAll | src/hooks/useUpload.ts:34 | an entry `*` or `*/*` accepts every file within the size limit |
| UploadQueue.SingleEntry | src/hooks/useUpload.ts:32-43 | for an accept string without commas or outer spaces, acceptance is exactly that entry's match |
| UploadQueue.CategoryPrefixRule | src/hooks/useUpload.ts:32-38 | for any category `c` (no comma, no leading space, not `*`), the single entry `c/*` admits a file within the size limit exactly when its MIME type starts with `c`, with or without the slash |
| UploadQueue.CategoryIsBarePrefix | src/hooks/useUpload.ts:35-38 | `image/*` accepts MIME type `imagery/x`, because the category test is a bare string prefix without the slash |
| UploadQueue.ExtensionIgnoresCase | src/hooks/useUpload.ts:39-41 | an extension entry matches regardless of the case of the entry or of the file name |
| UploadQueue.TrailingCommaAdmitsUntyped | src/hooks/useUpload.ts:32-42 | any accept string ending in a comma gets an empty last entry, which accepts every file within the size limit whose MIME type is empty, whatever the other entries are |
| UploadQueue.TrailingCommaExample | src/hooks/useUpload.ts:32-42 | `image/*,` accepts an untyped file |
| UploadQueue.SingleResult | src/hooks/useUpload.ts:103 | a single result is kept; an array result yields its first element, or nothing when the array is empty |
| UploadQueue.FailureMessage | src/hooks/useUpload.ts:115 | an `Error` yields its message; any other thrown value yields `'Upload failed'` |
| UploadQueue.Admitted | src/hooks/useUpload.ts:158 | with `multiple` every file is admitted; otherwise only the first file is, and none from an empty list |
| UploadQueue.NewTasksSpec | src/hooks/useUpload.ts:160-172 | one new task per admitted file, in order, with consecutive fresh ids and progress 0; a task is pending if its file is valid and failed with the validator's error otherwise; no new task is uploading |
| UploadQueue.NewTasksPreviews | src/hooks/useUpload.ts:55-60 | the new tasks' preview handles are consecutive fresh handles, one for each image file only |
| UploadQueue.ProgressOnlyTouchesProgress | src/hooks/useUpload.ts:96-100 | a progress event changes only the progress of the task with that id; ids, statuses and every other task are unchanged |
| UploadQueue.LateSettleIgnored | src/hooks/useUpload.ts:97-118 | a progress, success or failure for an id no longer listed leaves the list unchanged |
| UploadQueue.PendingIdsUnique | src/hooks/useUpload.ts:131-133 | the pending candidates are listed without repeats |
| UploadQueue.ToStartSpec | src/hooks/useUpload.ts:131-141 | the scheduler starts the first pending, inactive tasks in list order, as many as the free slots allow, and none when no slot is free |
| UploadQueue.ScheduleBound | src/hooks/useUpload.ts:134-145 | the started ids are new to the active set and distinct, and the active set stays within `MAX_CONCURRENT_UPLOADS` (3) |
| UploadQueue.ScheduleIdempotent | src/hooks/useUpload.ts:137-139 | a second scheduler run right after one starts nothing |
| UploadQueue.NewestBatchFirst | src/hooks/useUpload.ts:131-141 | candidates of the newer batch come before those of older batches, and when the newer batch alone can fill the free slots no older task starts |
| UploadQueue.StartedWerePending | src/hooks/useUpload.ts:131-133 | every started task was pending and not active |
| UploadQueue.MarkedUploading | src/hooks/useUpload.ts:147-149 | after marking, the uploading tasks are exactly the previously active ones plus the started ones |
| UploadQueue.Find | src/hooks/useUpload.ts:184 | finds a listed task with the id, or reports that no task has it |
| UploadQueue.FilterSpec | src/hooks/useUpload.ts:188 | a filtered list holds exactly the selected tasks of the original and is no longer |
| UploadQueue.PreviewsPartition | src/hooks/useUpload.ts:195-202 | the preview handles of the kept tasks and of the cleared tasks together are exactly the list's handles |
| UploadQueue.OnlyIdIsFound | src/hooks/useUpload.ts:184-188 | with unique ids, the preview that cancel revokes is exactly that of the task it removes |
| UploadQueue.UploadingIdsFilter | src/hooks/useUpload.ts:188-202 | cancel removes only the cancelled id from the uploading ids, and clear removes none |
| UploadQueue.ClearKeepsBusy | src/hooks/useUpload.ts:196-202 | clear keeps exactly the pending and uploading tasks and releases exactly the completed and failed ones |
| UploadQueue.ClearKeepsOrder | src/hooks/useUpload.ts:202 | the kept tasks are the list's tasks at strictly increasing positions, and every pending or uploading position is among them, so clear keeps their relative order |
| UploadQueue.FilterInOrder | src/hooks/useUpload.ts:188-202 | any filter keeps the selected tasks at strictly increasing positions of the original list and skips none of them |
| UploadQueue.FilterAppend | src/hooks/useUpload.ts:188-202 | filtering a concatenation is the concatenation of the filtered parts |
| UploadQueue.FilterAll | src/hooks/useUpload.ts:188 | a filter that selects every task returns the list unchanged |
| UploadQueue.CancelUnknownId | src/hooks/useUpload.ts:182-191 | cancelling an id no task has leaves the list unchanged and revokes nothing |
| UploadQueue.HookFailureKeepsResult | src/hooks/useUpload.ts:105-120 | when the completion hook throws, the task ends failed with the hook's message, progress 100 and the delivered result; ids, files, previews and every other task are unchanged |
| UploadQueue.CancelledTransferOutlivesSlot | src/hooks/useUpload.ts:182-191 | cancelling one of three tracked uploads while a task waits lets the scheduler start a new transfer: the active set is back at three, and the transfers in flight, the cancelled one included, become one more than before and more than three |
| UploadQueue.CancelFreesSlot | src/hooks/useUpload.ts:182-191 | with all three slots busy and a task waiting, cancelling an uploading task lets exactly one task start on the next scheduler run |
| UploadQueue.AnyBusy | src/hooks/useUpload.ts:206-208 | true exactly when some task is pending or uploading |
| UploadQueue.ProgressStep | src/hooks/useUpload.ts:96-100 | a progress event keeps the hook's invariant |
| UploadQueue.SettleStep | src/hooks/useUpload.ts:105-122 | settling one transfer keeps ids and previews and frees that transfer's slot |
| UploadQueue.CompleteStep | src/hooks/useUpload.ts:105-111 | a completion keeps the invariant once the id leaves the active set |
| UploadQueue.FailStep | src/hooks/useUpload.ts:116-120 | a failure keeps the invariant once the id leaves the active set |
| UploadQueue.HookFailStep | src/hooks/useUpload.ts:105-120 | a completion followed by the failure of the completion hook keeps the invariant once the id leaves the active set |
| UploadQueue.ScheduleStep | src/hooks/useUpload.ts:141-149 | a scheduler run keeps the invariant |
| UploadQueue.AddBatchStep | src/hooks/useUpload.ts:160-174 | prepending a new batch keeps the invariant with the counters advanced |
| UploadQueue.CancelStep | src/hooks/useUpload.ts:182-191 | a cancel keeps the invariant with the removed task's preview revoked |
| UploadQueue.ClearStep | src/hooks/useUpload.ts:193-203 | a clear keeps the invariant with the cleared tasks' previews revoked |
| UploadQueue.Register | src/hooks/useUpload.ts:142-145 | the loop that adds each started id to the active set yields the old set plus the started ids |
| UploadQueue.Revoke | src/hooks/useUpload.ts:195-201 | the loop that revokes the cleared tasks' previews logs each existing preview once, in list order |
| UploadQueue.Uploader.constructor | src/hooks/useUpload.ts:88-89 | the hook starts with no tasks, no active ids and nothing revoked |
| UploadQueue.Uploader.IsUploading | src/hooks/useUpload.ts:206-208 | true exactly when some task is pending or uploading |
| UploadQueue.Uploader.AddFiles | src/hooks/useUpload.ts:153-180 | the admitted files' tasks go in front of the unchanged old list; nothing starts; the active set and the revoked log are unchanged |
| UploadQueue.Uploader.ProcessQueue | src/hooks/useUpload.ts:129-151 | the started ids are those of the scheduling rule; they are marked uploading and added to the active set; the invariant holds |
| UploadQueue.Uploader.Progress | src/hooks/useUpload.ts:96-100 | for any id, including a late call after the transfer settled or was cancelled, the list becomes the progress update and nothing else changes |
| UploadQueue.Uploader.Succeed | src/hooks/useUpload.ts:102-124 | the task completes with the single result, which is also what the completion hook receives even for a cancelled task; if the hook throws, the task is then marked failed with the hook's message; the id leaves the active set and the scheduler runs |
| UploadQueue.Uploader.Fail | src/hooks/useUpload.ts:114-124 | the task fails with the error's message; the id leaves the active set and the scheduler runs |
| UploadQueue.Uploader.Cancel | src/hooks/useUpload.ts:182-191 | the tasks with the id are removed, the first one's preview is revoked, the id leaves the active set, and nothing starts (with `CancelUnknownId`: an unknown id changes nothing but the active set) |
| UploadQueue.Uploader.ClearCompleted | src/hooks/useUpload.ts:193-204 | only pending and uploading tasks remain and the finished tasks' previews are revoked |
| UploadQueue.Uploader.PreviewsReleasedOnce | src/hooks/useUpload.ts:185-201 | no preview is revoked twice or revoked while still listed; every preview created is either listed or revoked |
| MediaModel.PatchImage | src/mocks/index.ts:373 | a patch replaces the alt texts when given and keeps every other field and the id |
| MediaModel.PatchDocument | src/mocks/index.ts:688 | a patch replaces the titles when given and keeps every other field and the id |
| MediaModel.KeepMembers | src/mocks/index.ts:291-300 | `filter` keeps exactly the items satisfying the test |
| MediaModel.WithoutMembers | src/mocks/index.ts:396 | the list without an id holds exactly the items with another id |
| MediaModel.ReplaceWith | src/mocks/index.ts:374 | every item with the id is replaced by the new value and all others are kept in place |
| MediaModel.RemoveAt | src/mocks/index.ts:402 | `splice(index, 1)` drops that one element and shifts the rest |
| MediaModel.JsSlice | src/mocks/index.ts:304 | the result is a contiguous window of the list, with negative bounds counted from the end as `slice` does |
| MediaModel.JsSliceInRange | src/mocks/index.ts:302-304 | for non-negative bounds the slice is the ordinary subsequence, cut at the list's end |
| MediaModel.PaginateSpec | src/mocks/index.ts:302-310 | page `p` is the window `[(p-1)·size, p·size)`, at most `size` items; `total` is the list length; `hasMore` holds if and only if `p·size` is below the total |
| MediaModel.PagesPrefix | src/mocks/index.ts:302-304 | the first `k` pages, one after the other, are the first `k·size` items without gaps or repeats |
| MediaModel.LastPageCompletes | src/mocks/index.ts:309 | once a page reports no more, the pages so far are the whole list |
| MediaModel.MoreMeansNonEmpty | src/mocks/index.ts:309 | when a page reports more, the next page is not empty |
| MediaModel.PageZeroIsEmpty | src/mocks/index.ts:302-304 | page 0 is always empty |
| MediaModel.NegativePageCountsFromEnd | src/mocks/index.ts:302-304 | page -1 is not rejected: it shows the second-to-last window of items |
| MediaModel.SearchSpec | src/mocks/index.ts:289-300 | without a query every item is listed; with one, exactly the matching items are, and never more items than before |
| MediaModel.SearchAppend | src/mocks/index.ts:289-300 | searching uploaded items followed by built-in ones is the search of each part, in that order |
| MediaModel.SearchIgnoresCase | src/mocks/index.ts:292 | an uppercased query finds the same items as the original |
| MediaModel.ListSpec | src/mocks/index.ts:282-311 | `total` is the number of matches and items are only matching members of the list |
| MediaModel.ListMembers | src/mocks/index.ts:282-311 | a listing never invents items, never reports more than the list holds, and under a query lists only matches |
| MediaModel.ListDefaults | src/mocks/index.ts:283-285 | with no parameters the listing is the first 20 items, with `hasMore` if more than 20 exist |
| MediaModel.Returned | src/mocks/index.ts:358 | one file returns a single item, and any other count returns the array |
| MediaModel.ReturnedFirst | src/mocks/index.ts:358 | what the upload hook keeps from an upload's return value is the first new item, if there is one |
| MediaModel.Measured | src/mocks/index.ts:336-340 | files that are not images get no width or height |
| MediaModel.Extension | src/mocks/index.ts:657 | the extension contains no dot: it is the text after the last dot, or the whole name when there is none |
| MediaModel.NewImages | src/mocks/index.ts:323-356 | one new image per file, in file order, with consecutive fresh serials |
| MediaModel.PrependImages | src/mocks/index.ts:320-356 | the loop returns the new images in file order and leaves the store starting with them in reverse order |
| MediaModel.CollectImages | src/mocks/index.ts:494-524 | the gallery upload loop returns one new image per file, in file order |
| MediaModel.PrependDocuments | src/mocks/index.ts:644-672 | the loop returns the new documents in file order and leaves the store starting with them in reverse order |
| MediaModel.PrependedOrder | src/mocks/index.ts:354-355 | after an upload the store's `k`-th item is the `k`-th newest upload, followed by the old store |
| MediaModel.FreshId | src/mocks/index.ts:264-266 | a freshly drawn id matches no item already in the store |
| MediaModel.NewGallery | src/mocks/index.ts:462-469 | a new gallery is consistent, with no images and no cover |
| MediaModel.ConsConsistent | src/mocks/index.ts:471 | putting a consistent gallery in front keeps every gallery consistent |
| MediaModel.WithUploadsSpec | src/mocks/index.ts:527-538 | the new images come first, followed by the old ones; `imageCount` is the new length; an existing cover is kept, otherwise the first new image becomes the cover; the gallery stays consistent |
| MediaModel.WithoutImageSpec | src/mocks/index.ts:549-561 | every image with the id is removed and every other image stays; only a removed cover changes, to the first remaining image or none; the gallery stays consistent |
| MediaModel.PatchEach | src/mocks/index.ts:580-586 | every image with the id is patched and all others are kept in place |
| MediaModel.WithPatchedSpec | src/mocks/index.ts:576-590 | a patch keeps consistency, positions, ids and the cover, which keeps its unpatched copy |
| MediaModel.UploadInto | src/mocks/index.ts:527-538 | only galleries with the target id receive the upload |
| MediaModel.UploadIntoConsistent | src/mocks/index.ts:527-538 | an upload keeps every gallery consistent |
| MediaModel.RemoveFromConsistent | src/mocks/index.ts:549-561 | a removal keeps every gallery consistent |
| MediaModel.PatchInConsistent | src/mocks/index.ts:576-590 | a patch keeps every gallery consistent |
| MediaModel.WithoutConsistent | src/mocks/index.ts:480 | deleting a gallery keeps the rest consistent |
| MediaModel.LastPatchedSpec | src/mocks/index.ts:580-586 | an updated image is recorded if and only if some image has the id, and it carries that id |
| MediaModel.LastPatchedInSpec | src/mocks/index.ts:576-594 | an updated image is recorded if and only if the target gallery holds the image, and it carries the image's id |
| MediaModel.HoldsCons | src/mocks/index.ts:576-590 | a gallery list holds the pair exactly when its first gallery does or the rest does |
| MediaModel.PatchImages | src/mocks/index.ts:580-586 | the inner `map` with its `updatedImage` assignment yields the patched images and the last patched copy |
| MediaModel.PatchGalleries | src/mocks/index.ts:576-590 | the outer `map` yields the patched galleries and the image the update returns |
| MockMedia.MockStore.constructor | src/mocks/index.ts:157-238 | the store starts from its built-in lists with nothing uploaded |
| MockMedia.MockStore.FetchImageList | src/mocks/index.ts:282-311 | lists only stored images (uploaded first), never more than exist, and under a query only those whose file name or Italian or English alt text contains it, ignoring case |
| MockMedia.MockStore.UploadImages | src/mocks/index.ts:316-358 | the new images are returned in file order and stored in front in reverse order, each with a fresh id; one file yields a single item |
| MockMedia.MockStore.UpdateImage | src/mocks/index.ts:364-385 | an uploaded image is patched in place and returned; otherwise a patched copy of the built-in one is returned and nothing is stored; otherwise it fails with `'Image not found'` |
| MockMedia.MockStore.DeleteImage | src/mocks/index.ts:390-408 | every uploaded match is removed if there is one; otherwise the first built-in match is spliced out; otherwise it fails with `'Image not found'` |
| MockMedia.MockStore.FetchGalleryList | src/mocks/index.ts:417-441 | lists only stored galleries, and under a query only those whose name contains it, ignoring case |
| MockMedia.MockStore.FetchGallery | src/mocks/index.ts:446-454 | succeeds with a gallery with the id if one exists, and fails with `'Gallery not found'` otherwise |
| MockMedia.MockStore.CreateGallery | src/mocks/index.ts:459-473 | a new empty gallery with a fresh id goes first and the other galleries are unchanged |
| MockMedia.MockStore.DeleteGallery | src/mocks/index.ts:478-481 | every gallery with the id is removed and nothing else changes |
| MockMedia.MockStore.UploadToGallery | src/mocks/index.ts:486-541 | the target gallery receives the new images as `WithUploadsSpec` describes, other galleries are untouched, and the items are returned as uploaded |
| MockMedia.MockStore.RemoveFromGallery | src/mocks/index.ts:546-562 | the image leaves the target gallery as `WithoutImageSpec` describes, and nothing else changes |
| MockMedia.MockStore.UpdateGalleryImage | src/mocks/index.ts:567-597 | the matching images are patched; it succeeds with an image with that id if and only if the target gallery held it, and fails with `'Image not found in gallery'` otherwise |
| MockMedia.MockStore.FetchDocumentList | src/mocks/index.ts:606-635 | lists only stored documents, and under a query only those whose file name or Italian or English title contains it |
| MockMedia.MockStore.UploadDocuments | src/mocks/index.ts:640-675 | the new documents are returned in file order and stored in front in reverse order |
| MockMedia.MockStore.UpdateDocument | src/mocks/index.ts:680-699 | an uploaded document is patched in place and returned; otherwise a patched copy of the built-in one is returned; otherwise it fails with `'Document not found'` |
| MockMedia.MockStore.DeleteDocument | src/mocks/index.ts:704-720 | an uploaded match is removed, otherwise the first built-in match is spliced out, otherwise it fails with `'Document not found'` |
| DemoMedia.NamedAppend | demo/app/utils/mockMedia.js:239-245 | the combined list has a file name everywhere if and only if both parts do |
| DemoMedia.NewImagesNamed | demo/app/utils/mockMedia.js:289-294 | every image the demo creates carries its file name |
| DemoMedia.DemoStore.constructor | demo/app/utils/mockMedia.js:146-227 | the store starts from its built-in lists with nothing uploaded |
| DemoMedia.DemoStore.FetchImageList | demo/app/utils/mockMedia.js:236-262 | fails with the `TypeError` exactly when a query meets an image without a file name; otherwise lists only stored images, and under a query only matches |
| DemoMedia.DemoStore.ImageListingSucceeds | demo/app/utils/mockMedia.js:245 | in a valid store the listing always succeeds, with the same result as the library's mock |
| DemoMedia.DemoStore.UploadImages | demo/app/utils/mockMedia.js:265-309 | as the mock's upload, but each image also records the file's MIME type |
| DemoMedia.DemoStore.UpdateImage | demo/app/utils/mockMedia.js:312-332 | an uploaded image is patched in place; otherwise a patched built-in copy is returned; otherwise it fails with `'Image not found'` |
| DemoMedia.DemoStore.DeleteImage | demo/app/utils/mockMedia.js:335-355 | checks the uploaded store, then the built-in items, then fails with `'Image not found'` |
| DemoMedia.DemoStore.FetchGalleryList | demo/app/utils/mockMedia.js:364-386 | lists only stored galleries, and under a query only matching names |
| DemoMedia.DemoStore.FetchGallery | demo/app/utils/mockMedia.js:389-399 | succeeds with a gallery of the id if and only if one exists |
| DemoMedia.DemoStore.CreateGallery | demo/app/utils/mockMedia.js:402-416 | a new gallery with no images, `imageCount` 0 and a null cover goes first |
| DemoMedia.DemoStore.DeleteGallery | demo/app/utils/mockMedia.js:421-424 | every gallery with the id is removed |
| DemoMedia.DemoStore.UploadToGallery | demo/app/utils/mockMedia.js:429-484 | the new images go in front, the count is recomputed, and the cover is kept or set to the first new image |
| DemoMedia.DemoStore.RemoveFromGallery | demo/app/utils/mockMedia.js:487-504 | the cover is reset to the first remaining image, or null, only when the cover was removed |
| DemoMedia.DemoStore.UpdateGalleryImage | demo/app/utils/mockMedia.js:507-537 | succeeds if and only if the target gallery held the image, and fails with `'Image not found in gallery'` otherwise |
| DemoMedia.DemoStore.FetchDocumentList | demo/app/utils/mockMedia.js:542-568 | lists only stored documents, and under a query only matches |
| DemoMedia.DemoStore.UploadDocuments | demo/app/utils/mockMedia.js:571-606 | the extension is the last dot-separated segment of the name, and the documents are stored newest first |
| DemoMedia.DemoStore.UpdateDocument | demo/app/utils/mockMedia.js:609-627 | an uploaded document is patched in place; otherwise a patched built-in copy is returned; otherwise it fails with `'Document not found'` |
| DemoMedia.DemoStore.DeleteDocument | demo/app/utils/mockMedia.js:630-650 | checks the uploaded store, then the built-in items, then fails with `'Document not found'` |
| UploadDropzone.Label | src/components/UploadDropzone/UploadDropzone.tsx:82-90 | the six fixed types get their fixed labels; any other label has no lowercase letter and no comma the entry lacked |
| UploadDropzone.FallbackLabel | src/components/UploadDropzone/UploadDropzone.tsx:89 | the fallback label drops a leading `image/` and uppercases the rest; an entry without `image/` is just uppercased |
| UploadDropzone.ExtensionLabel | src/components/UploadDropzone/UploadDropzone.tsx:89 | `.pdf` is labelled `.PDF` |
| UploadDropzone.Labels | src/components/UploadDropzone/UploadDropzone.tsx:81-90 | one label per trimmed entry, in order, none containing a comma |
| UploadDropzone.OneLabelPerEntry | src/components/UploadDropzone/UploadDropzone.tsx:80-92 | splitting the hint on commas recovers exactly the labels, in order, each after the first prefixed by the space the joiner added |
| UploadDropzone.DefaultHint | src/components/UploadDropzone/UploadDropzone.tsx:83 | the default accept list is shown as `Images` |
| UploadDropzone.Step | src/components/UploadDropzone/UploadDropzone.tsx:22-59 | enter counts up and highlights only when items are dragged; leave counts down and clears the highlight exactly at zero; over changes nothing; drop resets both |
| UploadDropzone.CounterTracksDepth | src/components/UploadDropzone/UploadDropzone.tsx:22-38 | on a well-nested event sequence the counter is the nesting depth and the highlight never outlives a zero count |
| UploadDropzone.BalancedEndsIdle | src/components/UploadDropzone/UploadDropzone.tsx:22-38 | a balanced sequence of enters and leaves returns to the idle state |
| UploadDropzone.ChildCrossingKeepsHighlight | src/components/UploadDropzone/UploadDropzone.tsx:31-38 | moving over a child element keeps the highlight, which goes only when the outer element is left |
| UploadDropzone.Dropzone.constructor | src/components/UploadDropzone/UploadDropzone.tsx:18-20 | a dropzone starts idle |
| UploadDropzone.Dropzone.DragEnter | src/components/UploadDropzone/UploadDropzone.tsx:22-29 | the new counter and highlight are those of the state machine's enter step |
| UploadDropzone.Dropzone.DragLeave | src/components/UploadDropzone/UploadDropzone.tsx:31-38 | the new counter and highlight are those of the state machine's leave step |
| UploadDropzone.Dropzone.Dropped | src/components/UploadDropzone/UploadDropzone.tsx:45-60 | a drop always resets the state, and forwards the files if and only if the dropzone is enabled and they are not empty |
| UploadDropzone.ShortPrompt | src/components/UploadDropzone/UploadDropzone.tsx:122 | the text shown while dragging is the invitation "Drop files here" and does not contain "click to upload" |
| UploadDropzone.LongPrompt | src/components/UploadDropzone/UploadDropzone.tsx:122 | the text shown otherwise begins with the same invitation and contains "click to upload" |
| UploadDropzone.Dropzone.Prompt | src/components/UploadDropzone/UploadDropzone.tsx:121-123 | the prompt always begins "Drop files here", and it mentions "click to upload" exactly when no drag is highlighted |
| UploadDropzone.PickerGates | src/components/UploadDropzone/UploadDropzone.tsx:104-109 | through `handleClick` (lines 62-66), a disabled zone or an unmounted input never opens the picker, by click or by key; an enabled, mounted zone opens it by a click, Enter or Space; Enter and Space act exactly as a click, and no other key opens it |
| UploadDropzone.KeyOpensPicker | src/components/UploadDropzone/UploadDropzone.tsx:104-109 | Enter or space acts as a click, and a disabled dropzone never opens the picker |
| UploadDropzone.InputChange | src/components/UploadDropzone/UploadDropzone.tsx:68-78 | a file selection is forwarded, and the input reset, if and only if it is not empty |

## Left out

- Timing: `setTimeout(processQueue, 0)` after adding files, and the simulated `delay` / `setTimeout` waits of the stores. Defer-then-schedule is modelled as two separate events, `AddFiles` and then `ProcessQueue`.
- Asynchrony, React state batching and concurrency: each callback runs atomically, in whatever order the caller chooses. A transfer is not aborted when its task is cancelled, and the code does not abort one either.
- `URL.createObjectURL` and `URL.revokeObjectURL` are browser APIs. Object URLs are modelled as abstract handles (`nat` serials), and revoking one is logged in `revoked`.
- `getImageDimensions` decodes images. It is the parameter `decode`, consulted only for image MIME types.
- `generateId`, `Date.now()`, `Math.random()` and the `createdAt` timestamps: ids are modelled as fresh serial numbers. `createdAt` is not part of the model.
- DemoMedia.DemoStore.CreateGallery: the demo's `Date.now()` gallery ids could collide in the real program; the model draws a fresh serial, so a collision cannot occur.
- `formatFileSize` uses floating-point `toFixed`. The validator's error texts that embed it are the tags `TooLarge` and `TypeNotAccepted`, and the hint's "(max …)" suffix is not modelled.
- The uploaders' `onProgress(Math.round(...))` values are floating point and are not modelled. `Uploader.Progress` accepts any integer percentage.
- Text: case mapping is ASCII only. The Unicode case rules of `toLowerCase` and `toUpperCase` are not modelled.
- An explicit `undefined` in a configuration or a patch is treated as an absent key (both are `None`). JavaScript's spread would copy the `undefined` over the default.
- The built-in seed lists (`mockMediaImageItems`, `mockGalleries`, `mockMediaDocumentItems` and their demo counterparts) are literal data. They are passed to the store constructors rather than reproduced.
- `mockMediaConfig` in `src/mocks/index.ts:743-765` only wires the functions into the plugin options.
- The dropzone's `preventDefault` / `stopPropagation` calls and its `dragOver` handler have no effect on its state. The `className` and `tabIndex` rendering are not modelled either.
- UploadDropzone.InputChange is not gated on `disabled`, exactly as in the code. There, the disabled `<input>` element never fires the event.
- React rendering, the modal and field components and the demo blocks are outside this model.
- The `file` object a task keeps is abstracted to name, size and MIME type (`FileInfo`).
