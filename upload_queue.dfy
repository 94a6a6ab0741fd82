/** The upload queue manager of src/hooks/useUpload.ts: file validation,
    admission of a batch, a scheduler that keeps at most three uploads
    active (a cancelled transfer is not aborted and keeps running outside
    that bound), the handlers that settle a transfer, cancellation and
    clean-up.

    Every asynchronous happening of the hook (a deferred `processQueue`, a
    progress callback, a resolved or rejected transport promise) is one
    atomic method of `Uploader`. */
module UploadQueue {
  import opened Wrappers
  import opened Text

  // ===========================================================================
  // Configuration
  // ===========================================================================

  const MaxConcurrentUploads: nat := 3
  const DefaultAccept: string := "image/*"
  const DefaultMaxSize: int := 10 * 1024 * 1024
  const DefaultMultiple: bool := true

  /** The caller's `UploadConfig`; `None` is a field the caller left out. */
  datatype UploadConfig = UploadConfig(accept: Option<string>, maxSize: Option<int>, multiple: Option<bool>)

  /** `Required<UploadConfig>`: the merged configuration the hook uses. */
  datatype Policy = Policy(accept: string, maxSize: int, multiple: bool)

  /** `{ ...DEFAULT_CONFIG, ...config }`. */
  function EffectiveConfig(c: UploadConfig): (p: Policy)
    ensures c.accept.Some? ==> p.accept == c.accept.value
    ensures c.maxSize.Some? ==> p.maxSize == c.maxSize.value
    ensures c.multiple.Some? ==> p.multiple == c.multiple.value
    ensures c.accept.None? ==> p.accept == "image/*"
    ensures c.maxSize.None? ==> p.maxSize == 10485760
    ensures c.multiple.None? ==> p.multiple
  {
    Policy(c.accept.GetOr(DefaultAccept), c.maxSize.GetOr(DefaultMaxSize), c.multiple.GetOr(DefaultMultiple))
  }

  // ===========================================================================
  // Files and validation
  // ===========================================================================

  /** What the hook reads of a browser `File`. */
  datatype FileInfo = FileInfo(name: string, size: nat, mimeType: string)

  datatype ValidationError = TooLarge | TypeNotAccepted

  datatype Verdict = Accepted | Refused(reason: ValidationError)

  /** `accept.split(',').map((t) => t.trim())`. */
  function AcceptEntries(accept: string): (entries: seq<string>)
    ensures |entries| == |Split(accept, ',')|
    ensures forall k :: 0 <= k < |entries| ==> entries[k] == Trim(Split(accept, ',')[k])
  {
    var parts := Split(accept, ',');
    seq(|parts|, k requires 0 <= k < |parts| => Trim(parts[k]))
  }

  /** One accept entry against a file: a wildcard, a MIME category (`x` followed by slash-star,
      compared as a plain prefix `x` of the MIME type), a `.ext` suffix of the
      lower-cased name, or else the exact MIME type. */
  predicate EntryMatches(entry: string, file: FileInfo) {
    if entry == "*/*" || entry == "*" then true
    else if EndsWith(entry, "/*") then StartsWith(file.mimeType, entry[..|entry| - 2])
    else if StartsWith(entry, ".") then EndsWith(Lower(file.name), Lower(entry))
    else file.mimeType == entry
  }

  /** `acceptedTypes.some(...)`. */
  function AnyEntryMatches(entries: seq<string>, file: FileInfo): (b: bool)
    ensures b <==> exists k :: 0 <= k < |entries| && EntryMatches(entries[k], file)
  {
    if entries == [] then false
    else EntryMatches(entries[0], file) || AnyEntryMatches(entries[1..], file)
  }

  ghost predicate Accepts(accept: string, file: FileInfo) {
    exists k :: 0 <= k < |AcceptEntries(accept)| && EntryMatches(AcceptEntries(accept)[k], file)
  }

  /** `validateFile`: the size bound first (inclusive), then the accept list. */
  function Validate(file: FileInfo, policy: Policy): (v: Verdict)
    ensures file.size > policy.maxSize ==> v == Refused(TooLarge)
    ensures file.size <= policy.maxSize ==> (v == Accepted <==> Accepts(policy.accept, file))
    ensures file.size <= policy.maxSize && !Accepts(policy.accept, file) ==> v == Refused(TypeNotAccepted)
  {
    if file.size > policy.maxSize then Refused(TooLarge)
    else if AnyEntryMatches(AcceptEntries(policy.accept), file) then Accepted
    else Refused(TypeNotAccepted)
  }

  /** `createPreviewUrl` creates a preview exactly for image MIME types. */
  predicate IsPreviewable(file: FileInfo) {
    StartsWith(file.mimeType, "image/")
  }

  /** A file exactly at the size limit passes the size check. */
  lemma SizeLimitInclusive(file: FileInfo, policy: Policy)
    requires file.size == policy.maxSize
    ensures Validate(file, policy) != Refused(TooLarge)
  {
  }

  /** A wildcard entry anywhere in the list admits every file within the size limit. */
  lemma WildcardAcceptsAll(file: FileInfo, policy: Policy, k: nat)
    requires k < |AcceptEntries(policy.accept)|
    requires AcceptEntries(policy.accept)[k] in {"*", "*/*"}
    requires file.size <= policy.maxSize
    ensures Validate(file, policy) == Accepted
  {
    assert EntryMatches(AcceptEntries(policy.accept)[k], file);
  }

  /** An accept list of one entry without surrounding white space. */
  lemma SingleEntry(file: FileInfo, policy: Policy)
    requires ',' !in policy.accept && policy.accept != []
    requires !IsSpace(policy.accept[0]) && !IsSpace(policy.accept[|policy.accept| - 1])
    requires file.size <= policy.maxSize
    ensures Validate(file, policy) == Accepted <==> EntryMatches(policy.accept, file)
  {
    var s := policy.accept;
    assert Split(s, ',') == [s];
    assert TrimStart(s) == s;
    assert TrimEnd(s) == s;
    var e := AcceptEntries(s);
    assert |e| == 1 && e[0] == s;
    assert AnyEntryMatches(e, file) == EntryMatches(s, file);
  }

  /** The category form compares a bare prefix: an accept list made of the
      single entry `c` slash-star (other than the wildcard) admits a file within
      the size limit exactly when its MIME type starts with `c`, slash or none. */
  lemma CategoryPrefixRule(c: string, file: FileInfo, policy: Policy)
    requires policy.accept == c + "/*" && c != "*"
    requires ',' !in c && (c == [] || !IsSpace(c[0]))
    requires file.size <= policy.maxSize
    ensures Validate(file, policy) == Accepted <==> StartsWith(file.mimeType, c)
  {
    CategoryEntry(c);
    SingleEntry(file, policy);
  }

  /** The shape of a category entry built from `c`. */
  lemma CategoryEntry(c: string)
    requires c != "*" && ',' !in c && (c == [] || !IsSpace(c[0]))
    ensures var e := c + "/*";
      && ',' !in e && !IsSpace(e[0]) && !IsSpace(e[|e| - 1])
      && e != "*/*" && e != "*" && EndsWith(e, "/*") && e[..|e| - 2] == c
  {
    var e := c + "/*";
    assert e[|e| - 2..] == "/*" && e[..|e| - 2] == c;
    assert e[|e| - 1] == '*' && e[|e| - 2] == '/';
    assert e[0] == (if c == [] then '/' else c[0]);
    forall k | 0 <= k < |e| ensures e[k] != ',' {
      if k < |c| { assert e[k] == c[k]; }
    }
    if |e| == 3 {
      assert c == [e[0]];
    }
  }

  /** The image category entry admits the MIME type `imagery/x`. */
  lemma CategoryIsBarePrefix()
    ensures Validate(FileInfo("scan.bin", 1, "imagery/x"), Policy("image/*", 10, true)) == Accepted
  {
    var f := FileInfo("scan.bin", 1, "imagery/x");
    assert "image" + "/*" == "image/*";
    assert StartsWith(f.mimeType, "image");
    CategoryPrefixRule("image", f, Policy("image/*", 10, true));
  }

  /** Extension entries ignore letter case on both sides: upper-casing the
      entry or the file name does not change whether they match. */
  lemma ExtensionIgnoresCase(entry: string, file: FileInfo)
    requires StartsWith(entry, ".") && !EndsWith(entry, "/*")
    ensures EntryMatches(Upper(entry), file) == EntryMatches(entry, file)
    ensures EntryMatches(entry, file.(name := Upper(file.name))) == EntryMatches(entry, file)
  {
    var u := Upper(entry);
    assert u[0] == '.' && u[..1] == ".";
    UpperSlashStar(entry);
    LowerUpper(entry);
    LowerUpper(file.name);
  }

  /** Upper-casing neither creates nor removes a category suffix. */
  lemma UpperSlashStar(s: string)
    ensures EndsWith(Upper(s), "/*") == EndsWith(s, "/*")
  {
    var u := Upper(s);
    if |s| >= 2 {
      assert "/*" == ['/', '*'];
      EndsWithPair(u, '/', '*');
      EndsWithPair(s, '/', '*');
      assert u[|u| - 2] == UpperChar(s[|s| - 2]) && u[|u| - 1] == UpperChar(s[|s| - 1]);
    }
  }

  /** A trailing comma yields an empty last entry, which admits every file
      within the size limit whose MIME type is empty (the browser's value for
      an unknown type), whatever the other entries are. */
  lemma TrailingCommaAdmitsUntyped(file: FileInfo, policy: Policy)
    requires EndsWith(policy.accept, ",")
    requires file.mimeType == "" && file.size <= policy.maxSize
    ensures Validate(file, policy) == Accepted
  {
    EndsWithChar(policy.accept, ',');
    TrailingEntryAccepts(policy.accept, file);
  }

  /** The empty last entry of an accept string that ends in a comma matches
      an untyped file. */
  lemma TrailingEntryAccepts(s: string, file: FileInfo)
    requires |s| >= 1 && s[|s| - 1] == ',' && file.mimeType == ""
    ensures Accepts(s, file)
  {
    EmptyPieceAtEnd(s, ',');
    var n :| 0 <= n < |Split(s, ',')| && Split(s, ',')[n] == "";
    EntryOfPiece(s, n, "");
    TrimEmpty();
    assert EntryMatches(AcceptEntries(s)[n], file);
  }

  /** The entry at a position is the trimmed piece the split leaves there. */
  lemma EntryOfPiece(s: string, n: nat, piece: string)
    requires n < |Split(s, ',')| && Split(s, ',')[n] == piece
    ensures |AcceptEntries(s)| == |Split(s, ',')| && AcceptEntries(s)[n] == Trim(piece)
  {
  }

  /** The instance: the image category entry followed by a comma admits an
      untyped file. */
  lemma TrailingCommaExample()
    ensures Validate(FileInfo("notes", 1, ""), Policy("image/*,", 10, true)) == Accepted
  {
    assert "image/*,"[7..] == ",";
    TrailingCommaAdmitsUntyped(FileInfo("notes", 1, ""), Policy("image/*,", 10, true));
  }

  // ===========================================================================
  // Tasks
  // ===========================================================================

  type TaskId = nat

  /** An abstract object URL made for a preview. */
  type Handle = nat

  datatype Status = Pending | Uploading | Completed | Error

  /** The task's `error` text: a validation failure or a transport failure. */
  datatype TaskError = Rejected(reason: ValidationError) | Failed(message: string)

  /** `UploadingFile`. */
  datatype Task<T> = Task(
    id: TaskId,
    file: FileInfo,
    progress: int,
    status: Status,
    error: Option<TaskError>,
    result: Option<T>,
    preview: Option<Handle>)

  /** What the transport promise resolves to: one item or an array of items. */
  datatype Outcome<T> = Single(item: T) | Batch(items: seq<T>)

  /** What the transport promise rejects with. */
  datatype Thrown = ErrorObject(message: string) | OtherValue

  predicate Busy(s: Status) {
    s == Pending || s == Uploading
  }

  /** `Array.isArray(result) ? result[0] : result`; an empty array gives `undefined`. */
  function SingleResult<T>(r: Outcome<T>): (v: Option<T>)
    ensures r.Single? ==> v == Some(r.item)
    ensures r.Batch? ==> (v.Some? <==> |r.items| > 0) && (v.Some? ==> v.value == r.items[0])
  {
    match r
    case Single(x) => Some(x)
    case Batch(xs) => if |xs| > 0 then Some(xs[0]) else None
  }

  /** `error instanceof Error ? error.message : 'Upload failed'`. */
  function FailureMessage(e: Thrown): (m: string)
    ensures e.ErrorObject? ==> m == e.message
    ensures e.OtherValue? ==> m == "Upload failed"
  {
    match e
    case ErrorObject(msg) => msg
    case OtherValue => "Upload failed"
  }

  /** `uploadConfig.multiple ? fileArray : fileArray.slice(0, 1)`. */
  function Admitted(files: seq<FileInfo>, multiple: bool): (r: seq<FileInfo>)
    ensures multiple ==> r == files
    ensures !multiple ==> |r| == (if |files| == 0 then 0 else 1) && r == files[..|r|]
  {
    if multiple then files else if |files| == 0 then [] else files[..1]
  }

  /** The task `addFiles` builds for one admitted file. */
  ghost predicate AdmittedAs<T>(t: Task<T>, f: FileInfo, policy: Policy) {
    && t.file == f && t.progress == 0 && t.result == None
    && (Validate(f, policy) == Accepted ==> t.status == Pending && t.error == None)
    && (Validate(f, policy).Refused? ==>
          t.status == Error && t.error == Some(Rejected(Validate(f, policy).reason)))
    && (t.preview.Some? <==> IsPreviewable(f))
  }

  /** The task `addFiles` builds for one file from its verdict, given the id
      and the preview handle it draws. */
  function MakeTask<T>(f: FileInfo, v: Verdict, id: TaskId, handle: Handle): Task<T> {
    Task(id, f, 0,
         if v == Accepted then Pending else Error,
         if v.Refused? then Some(Rejected(v.reason)) else None,
         None,
         if IsPreviewable(f) then Some(handle) else None)
  }

  /** `validateFile` applied to each file of the batch. */
  function Verdicts(files: seq<FileInfo>, policy: Policy): (vs: seq<Verdict>)
    ensures |vs| == |files|
  {
    seq(|files|, i requires 0 <= i < |files| => Validate(files[i], policy))
  }

  /** How many previews a batch creates. */
  function PreviewCount(files: seq<FileInfo>): nat {
    if files == [] then 0 else (if IsPreviewable(files[0]) then 1 else 0) + PreviewCount(files[1..])
  }

  /** The `fileArray.map(...)` of `addFiles`, drawing consecutive ids and
      preview handles from the two counters. */
  function NewTasks<T>(files: seq<FileInfo>, verdicts: seq<Verdict>, id: TaskId, handle: Handle): seq<Task<T>>
    requires |verdicts| == |files|
  {
    if files == [] then []
    else [MakeTask(files[0], verdicts[0], id, handle)]
         + NewTasks(files[1..], verdicts[1..], id + 1, if IsPreviewable(files[0]) then handle + 1 else handle)
  }

  /** A valid file becomes a pending task, an invalid one a failed task
      carrying the reason; progress starts at 0, there is no result yet, and
      a preview exists exactly for images. */
  lemma MakeTaskSpec<T>(f: FileInfo, policy: Policy, id: TaskId, handle: Handle)
    ensures var t := MakeTask<T>(f, Validate(f, policy), id, handle);
      && AdmittedAs(t, f, policy) && t.id == id
      && WellFormed(t) && t.status != Uploading
      && (t.preview.Some? ==> t.preview.value == handle)
  {
  }

  lemma PreviewCountStep(files: seq<FileInfo>, i: nat)
    requires 0 < i <= |files|
    ensures PreviewCount(files[..i]) == (if IsPreviewable(files[0]) then 1 else 0) + PreviewCount(files[1..][..i - 1])
  {
    assert files[..i][1..] == files[1..][..i - 1];
  }

  /** The `i`-th task of a batch is built from the `i`-th file and verdict,
      with the `i`-th id and the handle after those of the earlier images. */
  lemma {:induction false} NewTasksAt<T>(files: seq<FileInfo>, verdicts: seq<Verdict>, id: TaskId, handle: Handle)
    requires |verdicts| == |files|
    ensures |NewTasks<T>(files, verdicts, id, handle)| == |files|
    ensures forall i {:trigger NewTasks<T>(files, verdicts, id, handle)[i]} :: 0 <= i < |files| ==>
      NewTasks<T>(files, verdicts, id, handle)[i] == MakeTask(files[i], verdicts[i], id + i, handle + PreviewCount(files[..i]))
    decreases |files|
  {
    if files != [] {
      var h := if IsPreviewable(files[0]) then handle + 1 else handle;
      var r := NewTasks<T>(files, verdicts, id, handle);
      var rest := NewTasks<T>(files[1..], verdicts[1..], id + 1, h);
      NewTasksAt<T>(files[1..], verdicts[1..], id + 1, h);
      assert r == [MakeTask(files[0], verdicts[0], id, handle)] + rest;
      forall i | 1 <= i < |r|
        ensures r[i] == MakeTask(files[i], verdicts[i], id + i, handle + PreviewCount(files[..i]))
      {
        NewTasksAtTail(files, verdicts, id, handle, r, rest, i);
      }
      assert files[..0] == [];
    }
  }

  lemma NewTasksAtTail<T>(files: seq<FileInfo>, verdicts: seq<Verdict>, id: TaskId, handle: Handle,
                          r: seq<Task<T>>, rest: seq<Task<T>>, i: nat)
    requires |verdicts| == |files| && 1 <= i < |r| == |files|
    requires r == [MakeTask(files[0], verdicts[0], id, handle)] + rest
    requires var h := if IsPreviewable(files[0]) then handle + 1 else handle;
      forall j {:trigger rest[j]} :: 0 <= j < |rest| ==> rest[j] == MakeTask(files[1..][j], verdicts[1..][j], id + 1 + j, h + PreviewCount(files[1..][..j]))
    ensures r[i] == MakeTask(files[i], verdicts[i], id + i, handle + PreviewCount(files[..i]))
  {
    PreviewCountStep(files, i);
    assert r[i] == rest[i - 1] && files[i] == files[1..][i - 1] && verdicts[i] == verdicts[1..][i - 1];
  }

  /** Whatever the verdicts, the batch's tasks carry consecutive ids, are
      well formed and none is uploading yet. */
  lemma NewTasksShape<T>(files: seq<FileInfo>, verdicts: seq<Verdict>, id: TaskId, handle: Handle)
    requires |verdicts| == |files|
    ensures var r := NewTasks<T>(files, verdicts, id, handle);
      && |r| == |files|
      && (forall i :: 0 <= i < |r| ==> r[i].id == id + i)
      && (forall i :: 0 <= i < |r| ==> WellFormed(r[i]) && r[i].status != Uploading)
  {
    NewTasksAt<T>(files, verdicts, id, handle);
  }

  /** The batch has one task per admitted file, in file order, with
      consecutive ids, each built as `MakeTaskSpec` says. */
  lemma NewTasksSpec<T>(files: seq<FileInfo>, policy: Policy, id: TaskId, handle: Handle)
    ensures var r := NewTasks<T>(files, Verdicts(files, policy), id, handle);
      && |r| == |files|
      && (forall i :: 0 <= i < |r| ==> AdmittedAs(r[i], files[i], policy) && r[i].id == id + i)
      && (forall i :: 0 <= i < |r| ==> WellFormed(r[i]) && r[i].status != Uploading)
  {
    var vs := Verdicts(files, policy);
    var r := NewTasks<T>(files, vs, id, handle);
    NewTasksAt<T>(files, vs, id, handle);
    forall i | 0 <= i < |r|
      ensures AdmittedAs(r[i], files[i], policy) && r[i].id == id + i && WellFormed(r[i]) && r[i].status != Uploading
    {
      assert vs[i] == Validate(files[i], policy);
      MakeTaskSpec<T>(files[i], policy, id + i, handle + PreviewCount(files[..i]));
    }
  }

  /** The handles from `a` up to, not including, `b`, in order. */
  function Span(a: nat, b: nat): seq<Handle>
    decreases b - a
  {
    if b <= a then [] else [a] + Span(a + 1, b)
  }

  /** A span holds each handle in its range once and no other. */
  lemma {:induction false} SpanCount(a: nat, b: nat, h: Handle)
    ensures multiset(Span(a, b))[h] == (if a <= h < b then 1 else 0)
    decreases b - a
  {
    if a < b {
      SpanCount(a + 1, b, h);
      assert multiset(Span(a, b)) == multiset{a} + multiset(Span(a + 1, b));
    }
  }

  /** The batch's previews are exactly the next `PreviewCount` handles, in
      order. */
  lemma {:induction false} NewTasksPreviews<T>(files: seq<FileInfo>, verdicts: seq<Verdict>, id: TaskId, handle: Handle)
    requires |verdicts| == |files|
    ensures Previews(NewTasks<T>(files, verdicts, id, handle)) == Span(handle, handle + PreviewCount(files))
    decreases |files|
  {
    if files != [] {
      var h := if IsPreviewable(files[0]) then handle + 1 else handle;
      var t := MakeTask<T>(files[0], verdicts[0], id, handle);
      var rest := NewTasks<T>(files[1..], verdicts[1..], id + 1, h);
      NewTasksPreviews<T>(files[1..], verdicts[1..], id + 1, h);
      assert NewTasks<T>(files, verdicts, id, handle) == [t] + rest;
      PreviewsCons(t, rest);
    }
  }

  /** Field coherence every task keeps: an error text exactly on failed
      tasks, and no result before the transfer has settled. A failed task may
      hold a result (the completion hook threw after the transfer succeeded),
      and a settled task's progress may still move (a late `onProgress`). */
  ghost predicate WellFormed<T>(t: Task<T>) {
    && (t.status == Error <==> t.error.Some?)
    && (Busy(t.status) ==> t.result == None)
  }

  function TaskIds<T>(tasks: seq<Task<T>>): set<TaskId> {
    set i | 0 <= i < |tasks| :: tasks[i].id
  }

  /** The ids of the uploading tasks; `UploadingIdsMembers` says which. */
  function UploadingIds<T>(tasks: seq<Task<T>>): set<TaskId> {
    if tasks == [] then {}
    else (if tasks[0].status == Uploading then {tasks[0].id} else {}) + UploadingIds(tasks[1..])
  }

  ghost predicate UniqueIds<T>(tasks: seq<Task<T>>) {
    forall i, j :: 0 <= i < |tasks| && 0 <= j < |tasks| && i != j ==> tasks[i].id != tasks[j].id
  }

  /** The ids of a list, as a set; `ElemsIn` says which. */
  function Elems(s: seq<TaskId>): set<TaskId> {
    if s == [] then {} else Elems(s[..|s| - 1]) + {s[|s| - 1]}
  }

  ghost predicate NoDuplicates(s: seq<TaskId>) {
    forall i, j :: 0 <= i < |s| && 0 <= j < |s| && i != j ==> s[i] != s[j]
  }

  // ===========================================================================
  // Event handlers on the task list (the `current.map(...)` updaters)
  // ===========================================================================

  /** The `onProgress` updater. */
  function SetProgress<T>(tasks: seq<Task<T>>, id: TaskId, percent: int): seq<Task<T>> {
    seq(|tasks|, i requires 0 <= i < |tasks| =>
      if tasks[i].id == id then tasks[i].(progress := percent) else tasks[i])
  }

  /** The success updater. */
  function MarkCompleted<T>(tasks: seq<Task<T>>, id: TaskId, v: Option<T>): seq<Task<T>> {
    seq(|tasks|, i requires 0 <= i < |tasks| =>
      if tasks[i].id == id then tasks[i].(status := Completed, progress := 100, result := v) else tasks[i])
  }

  /** The failure updater. */
  function MarkFailed<T>(tasks: seq<Task<T>>, id: TaskId, message: string): seq<Task<T>> {
    seq(|tasks|, i requires 0 <= i < |tasks| =>
      if tasks[i].id == id then tasks[i].(status := Error, error := Some(Failed(message))) else tasks[i])
  }

  /** A progress event changes the progress of the tasks with that id and nothing else. */
  lemma ProgressOnlyTouchesProgress<T>(tasks: seq<Task<T>>, id: TaskId, percent: int)
    ensures var r := SetProgress(tasks, id, percent);
      && |r| == |tasks|
      && (forall i :: 0 <= i < |r| ==> r[i].id == tasks[i].id && r[i].status == tasks[i].status)
      && (forall i :: 0 <= i < |r| && tasks[i].id == id ==> r[i].progress == percent && r[i].(progress := tasks[i].progress) == tasks[i])
      && (forall i :: 0 <= i < |r| && tasks[i].id != id ==> r[i] == tasks[i])
  {
  }

  /** Settling a transfer whose task is gone (it was cancelled) changes nothing. */
  lemma LateSettleIgnored<T>(tasks: seq<Task<T>>, id: TaskId, v: Option<T>, message: string, percent: int)
    requires id !in TaskIds(tasks)
    ensures MarkCompleted(tasks, id, v) == tasks
    ensures MarkFailed(tasks, id, message) == tasks
    ensures SetProgress(tasks, id, percent) == tasks
  {
    assert forall i :: 0 <= i < |tasks| ==> tasks[i].id in TaskIds(tasks);
  }

  // ===========================================================================
  // The scheduler (`processQueue`)
  // ===========================================================================

  /** Ids of the pending tasks that are not active, in list order. */
  function PendingIds<T>(tasks: seq<Task<T>>, active: set<TaskId>): seq<TaskId> {
    if tasks == [] then []
    else (if tasks[0].status == Pending && tasks[0].id !in active then [tasks[0].id] else [])
         + PendingIds(tasks[1..], active)
  }

  /** `MAX_CONCURRENT_UPLOADS - activeCount`. */
  function FreeSlots(active: set<TaskId>): int {
    MaxConcurrentUploads - |active|
  }

  /** `pending.slice(0, slotsAvailable)`, or nothing when no slot is free. */
  function ToStart<T>(tasks: seq<Task<T>>, active: set<TaskId>): seq<TaskId> {
    var pending := PendingIds(tasks, active);
    if FreeSlots(active) <= 0 then []
    else if |pending| <= FreeSlots(active) then pending
    else pending[..FreeSlots(active)]
  }

  /** The `current.map(...)` that marks the started tasks as uploading. */
  function MarkUploading<T>(tasks: seq<Task<T>>, started: seq<TaskId>): seq<Task<T>> {
    seq(|tasks|, i requires 0 <= i < |tasks| =>
      if tasks[i].id in started then tasks[i].(status := Uploading) else tasks[i])
  }

  lemma {:induction false} PendingIdsMembers<T>(tasks: seq<Task<T>>, active: set<TaskId>)
    ensures forall x :: x in PendingIds(tasks, active) <==>
      exists i :: 0 <= i < |tasks| && tasks[i].id == x && tasks[i].status == Pending && x !in active
    decreases |tasks|
  {
    if tasks != [] {
      PendingIdsMembers(tasks[1..], active);
      forall x | x in PendingIds(tasks, active)
        ensures exists i :: 0 <= i < |tasks| && tasks[i].id == x && tasks[i].status == Pending && x !in active
      {
        if !(tasks[0].status == Pending && tasks[0].id !in active && x == tasks[0].id) {
          var i :| 0 <= i < |tasks[1..]| && tasks[1..][i].id == x && tasks[1..][i].status == Pending && x !in active;
          assert tasks[i + 1] == tasks[1..][i];
        }
      }
      forall x, i | 0 <= i < |tasks| && tasks[i].id == x && tasks[i].status == Pending && x !in active
        ensures x in PendingIds(tasks, active)
      {
        if i > 0 {
          assert tasks[1..][i - 1] == tasks[i];
        }
      }
    }
  }

  lemma {:induction false} PendingIdsAppend<T>(a: seq<Task<T>>, b: seq<Task<T>>, active: set<TaskId>)
    ensures PendingIds(a + b, active) == PendingIds(a, active) + PendingIds(b, active)
    decreases |a|
  {
    if a != [] {
      assert (a + b)[1..] == a[1..] + b;
      PendingIdsAppend(a[1..], b, active);
    } else {
      assert a + b == b;
    }
  }

  lemma {:induction false} PendingIdsUnique<T>(tasks: seq<Task<T>>, active: set<TaskId>)
    requires UniqueIds(tasks)
    ensures NoDuplicates(PendingIds(tasks, active))
    decreases |tasks|
  {
    if tasks != [] {
      assert tasks == [tasks[0]] + tasks[1..];
      UniqueIdsCons(tasks[0], tasks[1..]);
      var rest := PendingIds(tasks[1..], active);
      PendingIdsUnique(tasks[1..], active);
      PendingIdsMembers(tasks[1..], active);
      if tasks[0].status == Pending && tasks[0].id !in active {
        assert tasks[0].id !in rest;
        NoDuplicatesCons(tasks[0].id, rest);
      } else {
        assert PendingIds(tasks, active) == rest;
      }
    }
  }

  lemma NoDuplicatesCons(x: TaskId, rest: seq<TaskId>)
    requires x !in rest && NoDuplicates(rest)
    ensures NoDuplicates([x] + rest)
  {
    var all := [x] + rest;
    forall i, j | 0 <= i < |all| && 0 <= j < |all| && i != j ensures all[i] != all[j] {
      if i == 0 { assert all[j] == rest[j - 1]; }
      else if j == 0 { assert all[i] == rest[i - 1]; }
      else { assert all[i] == rest[i - 1] && all[j] == rest[j - 1]; }
    }
  }

  lemma NoDuplicatesCard(s: seq<TaskId>)
    requires NoDuplicates(s)
    ensures |Elems(s)| == |s|
    decreases |s|
  {
    if s != [] {
      var last := s[|s| - 1];
      var init := s[..|s| - 1];
      assert NoDuplicates(init);
      NoDuplicatesCard(init);
      ElemsIn(init, last);
    }
  }

  /** What `processQueue` starts: never more than the free slots, only pending
      tasks that are not active, and exactly the first such tasks in list
      order (so with `k` free slots and at least `k` candidates, `k` start). */
  lemma ToStartSpec<T>(tasks: seq<Task<T>>, active: set<TaskId>)
    ensures var s := ToStart(tasks, active); var pending := PendingIds(tasks, active);
      && |s| <= (if FreeSlots(active) <= 0 then 0 else FreeSlots(active))
      && (FreeSlots(active) > 0 ==> |s| == (if |pending| <= FreeSlots(active) then |pending| else FreeSlots(active)))
      && s == pending[..|s|]
      && (forall k :: 0 <= k < |s| ==>
            s[k] !in active && exists i :: 0 <= i < |tasks| && tasks[i].id == s[k] && tasks[i].status == Pending)
  {
    PendingIdsMembers(tasks, active);
    var s := ToStart(tasks, active);
    var pending := PendingIds(tasks, active);
    forall k | 0 <= k < |s|
      ensures s[k] !in active && exists i :: 0 <= i < |tasks| && tasks[i].id == s[k] && tasks[i].status == Pending
    {
      assert s[k] == pending[k];
      assert s[k] in pending;
    }
  }

  /** The scheduler keeps the concurrency bound: the ids it adds are new and
      distinct, and at most as many as the free slots. */
  lemma ScheduleBound<T>(tasks: seq<Task<T>>, active: set<TaskId>)
    requires UniqueIds(tasks) && |active| <= MaxConcurrentUploads
    ensures var s := ToStart(tasks, active);
      && NoDuplicates(s) && Elems(s) !! active
      && |active + Elems(s)| == |active| + |s| <= MaxConcurrentUploads
  {
    var s := ToStart(tasks, active);
    var pending := PendingIds(tasks, active);
    ToStartSpec(tasks, active);
    PendingIdsUnique(tasks, active);
    assert NoDuplicates(s) by {
      forall i, j | 0 <= i < |s| && 0 <= j < |s| && i != j ensures s[i] != s[j] {
        assert s[i] == pending[i] && s[j] == pending[j];
      }
    }
    NoDuplicatesCard(s);
    forall x | x in Elems(s) ensures x !in active {
      ElemsIn(s, x);
      var k :| 0 <= k < |s| && s[k] == x;
    }
  }

  lemma MarkUploadingNothing<T>(tasks: seq<Task<T>>)
    ensures MarkUploading(tasks, []) == tasks
  {
  }

  lemma {:induction false} NoPendingLeft<T>(tasks: seq<Task<T>>, active: set<TaskId>)
    requires forall i :: 0 <= i < |tasks| && tasks[i].status == Pending ==> tasks[i].id in active
    ensures PendingIds(tasks, active) == []
    decreases |tasks|
  {
    if tasks != [] {
      assert forall i :: 0 <= i < |tasks[1..]| ==> tasks[1..][i] == tasks[i + 1];
      NoPendingLeft(tasks[1..], active);
    }
  }

  /** Running the scheduler a second time with nothing else changed starts
      nothing: either every slot is now taken or every candidate was started. */
  lemma ScheduleIdempotent<T>(tasks: seq<Task<T>>, active: set<TaskId>)
    requires UniqueIds(tasks) && |active| <= MaxConcurrentUploads
    ensures var s := ToStart(tasks, active);
      ToStart(MarkUploading(tasks, s), active + Elems(s)) == []
  {
    var s := ToStart(tasks, active);
    var pending := PendingIds(tasks, active);
    var after := MarkUploading(tasks, s);
    var active' := active + Elems(s);
    ScheduleBound(tasks, active);
    ToStartSpec(tasks, active);
    if FreeSlots(active) > 0 && |pending| <= FreeSlots(active) {
      PendingIdsMembers(tasks, active);
      assert s == pending;
      forall i | 0 <= i < |after| && after[i].status == Pending ensures after[i].id in active' {
        assert tasks[i] == after[i];
      }
      NoPendingLeft(after, active');
    }
  }

  /** The newest batch sits in front of the list, so its pending tasks are
      started first; when it alone can fill the free slots, no task of an
      older batch starts. */
  lemma NewestBatchFirst<T>(newer: seq<Task<T>>, older: seq<Task<T>>, active: set<TaskId>)
    ensures var s := ToStart(newer + older, active);
      var candidates := PendingIds(newer, active) + PendingIds(older, active);
      |s| <= |candidates| && s == candidates[..|s|]
    ensures |PendingIds(newer, active)| >= FreeSlots(active) ==>
      ToStart(newer + older, active) == ToStart(newer, active)
  {
    PendingIdsAppend(newer, older, active);
    ToStartSpec(newer + older, active);
    var pn := PendingIds(newer, active);
    var k := FreeSlots(active);
    if k > 0 && |pn| >= k {
      assert (pn + PendingIds(older, active))[..k] == pn[..k];
    }
  }

  lemma {:induction false} UploadingIdsMembers<T>(tasks: seq<Task<T>>, x: TaskId)
    ensures x in UploadingIds(tasks) <==> exists i :: 0 <= i < |tasks| && tasks[i].id == x && tasks[i].status == Uploading
    decreases |tasks|
  {
    if tasks != [] {
      UploadingIdsMembers(tasks[1..], x);
      assert forall i :: 1 <= i < |tasks| ==> tasks[i] == tasks[1..][i - 1];
      if x in UploadingIds(tasks[1..]) {
        var i :| 0 <= i < |tasks[1..]| && tasks[1..][i].id == x && tasks[1..][i].status == Uploading;
        assert tasks[i + 1] == tasks[1..][i];
      }
    }
  }

  // ===========================================================================
  // Removal (`cancelUpload`, `clearCompleted`)
  // ===========================================================================

  /** Which tasks a `current.filter(...)` keeps. */
  datatype Selector = AllBut(id: TaskId) | OnlyId(id: TaskId) | BusyOnly | FinishedOnly

  predicate Selects<T>(sel: Selector, t: Task<T>) {
    match sel
    case AllBut(id) => t.id != id
    case OnlyId(id) => t.id == id
    case BusyOnly => Busy(t.status)
    case FinishedOnly => !Busy(t.status)
  }

  function Complement(sel: Selector): Selector {
    match sel
    case AllBut(id) => OnlyId(id)
    case OnlyId(id) => AllBut(id)
    case BusyOnly => FinishedOnly
    case FinishedOnly => BusyOnly
  }

  function Filter<T>(tasks: seq<Task<T>>, sel: Selector): seq<Task<T>> {
    if tasks == [] then []
    else (if Selects(sel, tasks[0]) then [tasks[0]] else []) + Filter(tasks[1..], sel)
  }

  /** `current.find((f) => f.id === id)`. */
  function Find<T>(tasks: seq<Task<T>>, id: TaskId): (r: Option<Task<T>>)
    ensures r.None? <==> id !in TaskIds(tasks)
    ensures r.Some? ==> r.value.id == id && r.value in tasks
  {
    if tasks == [] then None
    else if tasks[0].id == id then Some(tasks[0])
    else
      var r := Find(tasks[1..], id);
      assert TaskIds(tasks) == {tasks[0].id} + TaskIds(tasks[1..]) by {
        forall x | x in TaskIds(tasks) ensures x in {tasks[0].id} + TaskIds(tasks[1..]) {
          var i :| 0 <= i < |tasks| && tasks[i].id == x;
          if i > 0 { assert tasks[1..][i - 1] == tasks[i]; }
        }
        forall x | x in TaskIds(tasks[1..]) ensures x in TaskIds(tasks) {
          var i :| 0 <= i < |tasks[1..]| && tasks[1..][i].id == x;
          assert tasks[i + 1] == tasks[1..][i];
        }
      }
      r
  }

  /** The preview handles the tasks hold, in list order. */
  function Previews<T>(tasks: seq<Task<T>>): seq<Handle> {
    if tasks == [] then []
    else (if tasks[0].preview.Some? then [tasks[0].preview.value] else []) + Previews(tasks[1..])
  }

  function PreviewOf<T>(t: Option<Task<T>>): seq<Handle> {
    if t.Some? && t.value.preview.Some? then [t.value.preview.value] else []
  }

  /** A filter keeps exactly the selected tasks and never grows the list. */
  lemma {:induction false} FilterSpec<T>(tasks: seq<Task<T>>, sel: Selector)
    ensures forall t :: t in Filter(tasks, sel) <==> t in tasks && Selects(sel, t)
    ensures |Filter(tasks, sel)| <= |tasks|
    decreases |tasks|
  {
    if tasks != [] {
      FilterSpec(tasks[1..], sel);
      assert tasks == [tasks[0]] + tasks[1..];
    }
  }

  lemma FilterMember<T>(tasks: seq<Task<T>>, sel: Selector, t: Task<T>)
    requires t in Filter(tasks, sel)
    ensures t in tasks && Selects(sel, t)
  {
    FilterSpec(tasks, sel);
  }

  lemma FilterKeeps<T>(tasks: seq<Task<T>>, sel: Selector, k: nat)
    requires k < |tasks| && Selects(sel, tasks[k])
    ensures tasks[k] in Filter(tasks, sel)
  {
    FilterSpec(tasks, sel);
  }

  lemma {:induction false} FilterAppendLast<T>(tasks: seq<Task<T>>, t: Task<T>, sel: Selector)
    ensures Filter(tasks + [t], sel) == Filter(tasks, sel) + (if Selects(sel, t) then [t] else [])
    decreases |tasks|
  {
    var last := if Selects(sel, t) then [t] else [];
    if tasks == [] {
      assert [t][1..] == [];
      calc {
        Filter([t], sel);
        last + Filter([], sel);
        last;
      }
      assert tasks + [t] == [t];
    } else {
      var head := if Selects(sel, tasks[0]) then [tasks[0]] else [];
      assert (tasks + [t])[0] == tasks[0];
      assert (tasks + [t])[1..] == tasks[1..] + [t];
      FilterAppendLast(tasks[1..], t, sel);
      calc {
        Filter(tasks + [t], sel);
        head + Filter(tasks[1..] + [t], sel);
        head + (Filter(tasks[1..], sel) + last);
        (head + Filter(tasks[1..], sel)) + last;
      }
    }
  }

  lemma {:induction false} PreviewsAppend<T>(a: seq<Task<T>>, b: seq<Task<T>>)
    ensures Previews(a + b) == Previews(a) + Previews(b)
    decreases |a|
  {
    if a == [] {
      assert a + b == b;
    } else {
      var head := if a[0].preview.Some? then [a[0].preview.value] else [];
      assert (a + b)[0] == a[0];
      assert (a + b)[1..] == a[1..] + b;
      PreviewsAppend(a[1..], b);
      calc {
        Previews(a + b);
        head + Previews(a[1..] + b);
        head + (Previews(a[1..]) + Previews(b));
        (head + Previews(a[1..])) + Previews(b);
      }
    }
  }

  lemma {:induction false} PreviewsPointwise<T>(a: seq<Task<T>>, b: seq<Task<T>>)
    requires |a| == |b| && forall i :: 0 <= i < |a| ==> a[i].preview == b[i].preview
    ensures Previews(a) == Previews(b)
    decreases |a|
  {
    if a != [] {
      PreviewsPointwise(a[1..], b[1..]);
    }
  }

  lemma PreviewsCons<T>(t: Task<T>, rest: seq<Task<T>>)
    ensures Previews([t] + rest) == PreviewOf(Some(t)) + Previews(rest)
  {
    assert ([t] + rest)[1..] == rest;
  }

  lemma ComplementSelects<T>(sel: Selector, t: Task<T>)
    ensures Selects(Complement(sel), t) == !Selects(sel, t)
  {
  }

  lemma PartitionCons<T>(t: Task<T>, rest: seq<Task<T>>, f: seq<Task<T>>, g: seq<Task<T>>)
    requires multiset(Previews(f)) + multiset(Previews(g)) == multiset(Previews(rest))
    ensures multiset(Previews([t] + f)) + multiset(Previews(g)) == multiset(Previews([t] + rest))
    ensures multiset(Previews(f)) + multiset(Previews([t] + g)) == multiset(Previews([t] + rest))
  {
    PreviewsCons(t, f);
    PreviewsCons(t, g);
    PreviewsCons(t, rest);
  }

  lemma FilterCons<T>(t: Task<T>, rest: seq<Task<T>>, sel: Selector)
    ensures Filter([t] + rest, sel) == (if Selects(sel, t) then [t] else []) + Filter(rest, sel)
  {
    assert ([t] + rest)[1..] == rest;
  }

  ghost predicate Partitioned<T>(tasks: seq<Task<T>>, sel: Selector) {
    multiset(Previews(Filter(tasks, sel))) + multiset(Previews(Filter(tasks, Complement(sel))))
      == multiset(Previews(tasks))
  }

  lemma PartitionedCons<T>(t: Task<T>, rest: seq<Task<T>>, sel: Selector)
    requires Partitioned(rest, sel)
    ensures Partitioned([t] + rest, sel)
  {
    var f := Filter(rest, sel);
    var g := Filter(rest, Complement(sel));
    FilterCons(t, rest, sel);
    FilterCons(t, rest, Complement(sel));
    ComplementSelects(sel, t);
    PartitionCons(t, rest, f, g);
    if Selects(sel, t) {
      assert Filter([t] + rest, sel) == [t] + f;
      assert Filter([t] + rest, Complement(sel)) == g;
    } else {
      assert Filter([t] + rest, sel) == f;
      assert Filter([t] + rest, Complement(sel)) == [t] + g;
    }
  }

  /** A filter and its complement split the handles between them. */
  lemma {:induction false} PreviewsPartition<T>(tasks: seq<Task<T>>, sel: Selector)
    ensures Partitioned(tasks, sel)
    decreases |tasks|
  {
    if tasks != [] {
      PreviewsPartition(tasks[1..], sel);
      PartitionedCons(tasks[0], tasks[1..], sel);
      assert [tasks[0]] + tasks[1..] == tasks;
    }
  }

  lemma UniqueIdsCons<T>(t: Task<T>, rest: seq<Task<T>>)
    ensures UniqueIds([t] + rest) <==> t.id !in TaskIds(rest) && UniqueIds(rest)
  {
    if UniqueIds([t] + rest) {
      UniqueIdsTail(t, rest);
    }
    if t.id !in TaskIds(rest) && UniqueIds(rest) {
      UniqueIdsPrepend(t, rest);
    }
  }

  lemma UniqueIdsTail<T>(t: Task<T>, rest: seq<Task<T>>)
    requires UniqueIds([t] + rest)
    ensures t.id !in TaskIds(rest) && UniqueIds(rest)
  {
    var all := [t] + rest;
    assert forall i :: 0 <= i < |rest| ==> all[i + 1] == rest[i];
    forall i | 0 <= i < |rest| ensures rest[i].id != t.id {
      assert all[0] == t && all[i + 1] == rest[i];
    }
  }

  lemma UniqueIdsPrepend<T>(t: Task<T>, rest: seq<Task<T>>)
    requires t.id !in TaskIds(rest) && UniqueIds(rest)
    ensures UniqueIds([t] + rest)
  {
    var all := [t] + rest;
    assert forall i :: 0 <= i < |rest| ==> rest[i].id in TaskIds(rest);
    assert forall i :: 1 <= i < |all| ==> all[i] == rest[i - 1];
  }

  lemma FilterIds<T>(tasks: seq<Task<T>>, sel: Selector)
    ensures TaskIds(Filter(tasks, sel)) <= TaskIds(tasks)
  {
    FilterSpec(tasks, sel);
    var f := Filter(tasks, sel);
    forall x | x in TaskIds(f) ensures x in TaskIds(tasks) {
      var i :| 0 <= i < |f| && f[i].id == x;
      assert f[i] in f;
      var j :| 0 <= j < |tasks| && tasks[j] == f[i];
    }
  }

  lemma {:induction false} FilterUnique<T>(tasks: seq<Task<T>>, sel: Selector)
    requires UniqueIds(tasks)
    ensures UniqueIds(Filter(tasks, sel))
    decreases |tasks|
  {
    if tasks != [] {
      UniqueIdsCons(tasks[0], tasks[1..]);
      assert tasks == [tasks[0]] + tasks[1..];
      FilterUnique(tasks[1..], sel);
      if Selects(sel, tasks[0]) {
        FilterIds(tasks[1..], sel);
        UniqueIdsCons(tasks[0], Filter(tasks[1..], sel));
      }
    }
  }

  lemma {:induction false} FilterNone<T>(tasks: seq<Task<T>>, sel: Selector)
    requires forall i :: 0 <= i < |tasks| ==> !Selects(sel, tasks[i])
    ensures Filter(tasks, sel) == []
    decreases |tasks|
  {
    if tasks != [] {
      assert forall i :: 0 <= i < |tasks[1..]| ==> tasks[1..][i] == tasks[i + 1];
      FilterNone(tasks[1..], sel);
    }
  }

  lemma {:induction false} FilterAll<T>(tasks: seq<Task<T>>, sel: Selector)
    requires forall i :: 0 <= i < |tasks| ==> Selects(sel, tasks[i])
    ensures Filter(tasks, sel) == tasks
    decreases |tasks|
  {
    if tasks != [] {
      assert forall i :: 0 <= i < |tasks[1..]| ==> tasks[1..][i] == tasks[i + 1];
      FilterAll(tasks[1..], sel);
      assert tasks == [tasks[0]] + tasks[1..];
    }
  }

  /** Cancelling an id no task has leaves the list as it was and releases nothing. */
  lemma CancelUnknownId<T>(tasks: seq<Task<T>>, id: TaskId)
    requires id !in TaskIds(tasks)
    ensures Filter(tasks, AllBut(id)) == tasks
    ensures PreviewOf(Find(tasks, id)) == []
  {
    assert forall i :: 0 <= i < |tasks| ==> tasks[i].id in TaskIds(tasks);
    FilterAll(tasks, AllBut(id));
  }

  /** Filtering a concatenation filters each part, in order. */
  lemma {:induction false} FilterAppend<T>(a: seq<Task<T>>, b: seq<Task<T>>, sel: Selector)
    ensures Filter(a + b, sel) == Filter(a, sel) + Filter(b, sel)
    decreases |a|
  {
    if a != [] {
      var head := if Selects(sel, a[0]) then [a[0]] else [];
      assert (a + b)[0] == a[0];
      assert (a + b)[1..] == a[1..] + b;
      FilterAppend(a[1..], b, sel);
      calc {
        Filter(a + b, sel);
        head + Filter(a[1..] + b, sel);
        head + (Filter(a[1..], sel) + Filter(b, sel));
        (head + Filter(a[1..], sel)) + Filter(b, sel);
      }
    } else {
      assert a + b == b;
    }
  }

  function Shifted(s: seq<nat>): (r: seq<nat>)
    ensures |r| == |s| && forall k :: 0 <= k < |s| ==> r[k] == s[k] + 1
  {
    seq(|s|, k requires 0 <= k < |s| => s[k] + 1)
  }

  /** The positions of the tasks a filter keeps, front to back. */
  function KeptIndices<T>(tasks: seq<Task<T>>, sel: Selector): seq<nat>
    decreases |tasks|
  {
    if tasks == [] then []
    else (if Selects(sel, tasks[0]) then [0] else []) + Shifted(KeptIndices(tasks[1..], sel))
  }

  /** `r` is the tasks at positions `f`. */
  ghost predicate PicksAt<T>(r: seq<Task<T>>, tasks: seq<Task<T>>, f: seq<nat>) {
    && |f| == |r|
    && forall k :: 0 <= k < |f| ==> f[k] < |tasks| && r[k] == tasks[f[k]]
  }

  ghost predicate Increasing(f: seq<nat>) {
    forall k, l :: 0 <= k < l < |f| ==> f[k] < f[l]
  }

  /** `r` is the tasks at the strictly increasing positions `f`. */
  ghost predicate PicksInOrder<T>(r: seq<Task<T>>, tasks: seq<Task<T>>, f: seq<nat>) {
    PicksAt(r, tasks, f) && Increasing(f)
  }

  /** A filter keeps the selected tasks at increasing positions, so in their
      original relative order, and passes over none of them. */
  lemma FilterInOrder<T>(tasks: seq<Task<T>>, sel: Selector)
    ensures PicksInOrder(Filter(tasks, sel), tasks, KeptIndices(tasks, sel))
    ensures forall i :: 0 <= i < |tasks| && Selects(sel, tasks[i]) ==> i in KeptIndices(tasks, sel)
  {
    KeptPositions(tasks, sel);
    KeptIncreasing(tasks, sel);
    KeptComplete(tasks, sel);
  }

  lemma {:induction false} KeptPositions<T>(tasks: seq<Task<T>>, sel: Selector)
    ensures PicksAt(Filter(tasks, sel), tasks, KeptIndices(tasks, sel))
    decreases |tasks|
  {
    if tasks != [] {
      KeptPositions(tasks[1..], sel);
      PickShifted(tasks, Filter(tasks[1..], sel), KeptIndices(tasks[1..], sel));
    }
  }

  /** Positions picked in the rest of a list, moved one place on, pick the
      same tasks in the whole list, with or without its head in front. */
  lemma PickShifted<T>(tasks: seq<Task<T>>, rr: seq<Task<T>>, g: seq<nat>)
    requires tasks != [] && PicksAt(rr, tasks[1..], g)
    ensures PicksAt(rr, tasks, Shifted(g))
    ensures PicksAt([tasks[0]] + rr, tasks, [0] + Shifted(g))
  {
    var f := Shifted(g);
    forall k | 0 <= k < |f| ensures f[k] < |tasks| && rr[k] == tasks[f[k]] {
      assert tasks[1..][g[k]] == tasks[g[k] + 1];
    }
    var f1 := [0] + f;
    var r1 := [tasks[0]] + rr;
    forall k | 0 <= k < |f1| ensures f1[k] < |tasks| && r1[k] == tasks[f1[k]] {
      if k > 0 {
        assert f1[k] == f[k - 1] && r1[k] == rr[k - 1];
      }
    }
  }

  lemma {:induction false} KeptIncreasing<T>(tasks: seq<Task<T>>, sel: Selector)
    ensures Increasing(KeptIndices(tasks, sel))
    decreases |tasks|
  {
    if tasks != [] {
      KeptIncreasing(tasks[1..], sel);
      ShiftIncreasing(KeptIndices(tasks[1..], sel));
    }
  }

  /** Moving increasing positions one place on keeps them increasing, and
      above the head position 0. */
  lemma ShiftIncreasing(g: seq<nat>)
    requires Increasing(g)
    ensures Increasing(Shifted(g))
    ensures Increasing([0] + Shifted(g))
  {
    var f := [0] + Shifted(g);
    forall k, l | 0 <= k < l < |f| ensures f[k] < f[l] {
      assert f[l] == g[l - 1] + 1;
      if k > 0 {
        assert f[k] == g[k - 1] + 1;
      }
    }
  }

  lemma {:induction false} KeptComplete<T>(tasks: seq<Task<T>>, sel: Selector)
    ensures forall i :: 0 <= i < |tasks| && Selects(sel, tasks[i]) ==> i in KeptIndices(tasks, sel)
    decreases |tasks|
  {
    if tasks != [] {
      var rest := tasks[1..];
      KeptComplete(rest, sel);
      var g := KeptIndices(rest, sel);
      var head: seq<nat> := if Selects(sel, tasks[0]) then [0] else [];
      var f := head + Shifted(g);
      assert f == KeptIndices(tasks, sel);
      forall i | 0 <= i < |tasks| && Selects(sel, tasks[i]) ensures i in f {
        if i == 0 {
          assert f[0] == 0;
        } else {
          assert rest[i - 1] == tasks[i];
          var j :| 0 <= j < |g| && g[j] == i - 1;
          assert f[j + |head|] == i;
        }
      }
    }
  }

  /** With unique ids, the task removed by id is exactly the one `find` returns. */
  lemma {:induction false} OnlyIdIsFound<T>(tasks: seq<Task<T>>, id: TaskId)
    requires UniqueIds(tasks)
    ensures Previews(Filter(tasks, OnlyId(id))) == PreviewOf(Find(tasks, id))
    decreases |tasks|
  {
    if tasks != [] {
      var rest := tasks[1..];
      assert tasks == [tasks[0]] + rest;
      UniqueIdsCons(tasks[0], rest);
      if tasks[0].id == id {
        assert forall i :: 0 <= i < |rest| ==> rest[i].id in TaskIds(rest);
        FilterNone(rest, OnlyId(id));
        assert Filter(tasks, OnlyId(id)) == [tasks[0]];
        PreviewsCons(tasks[0], []);
      } else {
        OnlyIdIsFound(rest, id);
        assert Filter(tasks, OnlyId(id)) == Filter(rest, OnlyId(id));
        assert Find(tasks, id) == Find(rest, id);
      }
    }
  }

  lemma {:induction false} UploadingIdsFilter<T>(tasks: seq<Task<T>>, sel: Selector)
    requires sel.AllBut? || sel.BusyOnly?
    ensures UploadingIds(Filter(tasks, sel)) ==
      (if sel.AllBut? then UploadingIds(tasks) - {sel.id} else UploadingIds(tasks))
  {
    FilterSpec(tasks, sel);
    var f := Filter(tasks, sel);
    forall x | x in UploadingIds(f)
      ensures x in (if sel.AllBut? then UploadingIds(tasks) - {sel.id} else UploadingIds(tasks))
    {
      UploadingIdsMembers(f, x);
      var i :| 0 <= i < |f| && f[i].id == x && f[i].status == Uploading;
      assert f[i] in f;
      var j :| 0 <= j < |tasks| && tasks[j] == f[i];
      UploadingIdsMembers(tasks, x);
    }
    forall x | x in (if sel.AllBut? then UploadingIds(tasks) - {sel.id} else UploadingIds(tasks))
      ensures x in UploadingIds(f)
    {
      UploadingIdsMembers(tasks, x);
      var j :| 0 <= j < |tasks| && tasks[j].id == x && tasks[j].status == Uploading;
      assert tasks[j] in tasks && Selects(sel, tasks[j]);
      var i :| 0 <= i < |f| && f[i] == tasks[j];
      UploadingIdsMembers(f, x);
    }
  }

  /** `clearCompleted` keeps exactly the pending and uploading tasks, in
      their order, and hands exactly the completed and failed ones to the
      preview release. */
  lemma ClearKeepsBusy<T>(tasks: seq<Task<T>>)
    ensures forall t :: t in Filter(tasks, BusyOnly) <==> t in tasks && Busy(t.status)
    ensures forall t :: t in Filter(tasks, FinishedOnly) <==> t in tasks && !Busy(t.status)
  {
    FilterSpec(tasks, BusyOnly);
    FilterSpec(tasks, FinishedOnly);
  }

  /** The tasks `clearCompleted` keeps stay in their list order, and every
      pending or uploading position is among those kept. */
  lemma ClearKeepsOrder<T>(tasks: seq<Task<T>>)
    ensures PicksInOrder(Filter(tasks, BusyOnly), tasks, KeptIndices(tasks, BusyOnly))
    ensures forall i :: 0 <= i < |tasks| && Busy(tasks[i].status) ==> i in KeptIndices(tasks, BusyOnly)
  {
    FilterInOrder(tasks, BusyOnly);
    forall i | 0 <= i < |tasks| && Busy(tasks[i].status) ensures i in KeptIndices(tasks, BusyOnly) {
      assert Selects(BusyOnly, tasks[i]);
    }
  }

  /** Once the concurrency budget is exhausted, cancelling an uploading task
      leaves the next scheduling run a slot for a waiting pending task. */
  lemma CancelFreesSlot<T>(tasks: seq<Task<T>>, id: TaskId, waiting: nat)
    requires UniqueIds(tasks)
    requires |UploadingIds(tasks)| == MaxConcurrentUploads
    requires id in UploadingIds(tasks)
    requires waiting < |tasks| && tasks[waiting].status == Pending
    ensures |ToStart(Filter(tasks, AllBut(id)), UploadingIds(tasks) - {id})| == 1
  {
    var active := UploadingIds(tasks);
    var rest := Filter(tasks, AllBut(id));
    var t := tasks[waiting];
    assert t.id != id && t.id !in active by {
      UploadingIdsMembers(tasks, id);
      UploadingIdsMembers(tasks, t.id);
      var j :| 0 <= j < |tasks| && tasks[j].id == id && tasks[j].status == Uploading;
      assert j != waiting;
      assert forall k :: 0 <= k < |tasks| && tasks[k].id == t.id ==> k == waiting;
    }
    FilterKeeps(tasks, AllBut(id), waiting);
    var i :| 0 <= i < |rest| && rest[i] == t;
    PendingIdsMembers(rest, active - {id});
    assert t.id in PendingIds(rest, active - {id});
    assert |active - {id}| == MaxConcurrentUploads - 1;
  }

  /** `cancelUpload` frees the tracking slot but does not abort the transfer:
      once the freed slot goes to a waiting task, one more transfer is in
      flight than before, and more than `MAX_CONCURRENT_UPLOADS`, while the
      active set is back at the bound. */
  lemma CancelledTransferOutlivesSlot<T>(tasks: seq<Task<T>>, id: TaskId, waiting: nat,
                                         active: set<TaskId>, inFlight: set<TaskId>,
                                         nextId: nat, nextHandle: nat, revoked: seq<Handle>)
    requires Coherent(tasks, active, inFlight, nextId, nextHandle, revoked)
    requires |active| == MaxConcurrentUploads && id in active
    requires waiting < |tasks| && tasks[waiting].status == Pending
    ensures var started := ToStart(Filter(tasks, AllBut(id)), active - {id});
      && |(active - {id}) + Elems(started)| == MaxConcurrentUploads
      && id in inFlight + Elems(started)
      && |inFlight + Elems(started)| == |inFlight| + 1
      && |inFlight + Elems(started)| > MaxConcurrentUploads
  {
    var rest := Filter(tasks, AllBut(id));
    var started := ToStart(rest, active - {id});
    CancelFreesSlot(tasks, id, waiting);
    CancelStep(tasks, id, active, inFlight, nextId, nextHandle, revoked);
    ActiveInFlight(tasks, active, nextId, inFlight);
    StartsOutsideFlight(rest, active - {id}, nextId, inFlight);
    ScheduleBound(rest, active - {id});
    assert inFlight == active + (inFlight - active);
  }

  /** Every tracked upload has a transfer in flight. */
  lemma ActiveInFlight<T>(tasks: seq<Task<T>>, active: set<TaskId>, nextId: nat, inFlight: set<TaskId>)
    requires IdsCoherent(tasks, nextId, inFlight) && SlotsCoherent(tasks, active)
    ensures active <= inFlight
  {
    forall x | x in active ensures x in inFlight {
      UploadingIdsMembers(tasks, x);
    }
  }

  /** A scheduler run starts only transfers that are not yet in flight. */
  lemma StartsOutsideFlight<T>(tasks: seq<Task<T>>, active: set<TaskId>, nextId: nat, inFlight: set<TaskId>)
    requires IdsCoherent(tasks, nextId, inFlight)
    ensures forall k :: 0 <= k < |ToStart(tasks, active)| ==> ToStart(tasks, active)[k] !in inFlight
    ensures |ToStart(tasks, active)| == 1 ==> Elems(ToStart(tasks, active)) == {ToStart(tasks, active)[0]}
  {
    ToStartSpec(tasks, active);
  }

  // ===========================================================================
  // The in-flight flag and the preview budget
  // ===========================================================================

  /** `uploading.some((f) => f.status === 'pending' || f.status === 'uploading')`. */
  function AnyBusy<T>(tasks: seq<Task<T>>): (b: bool)
    ensures b <==> exists i :: 0 <= i < |tasks| && Busy(tasks[i].status)
  {
    if tasks == [] then false
    else if Busy(tasks[0].status) then true
    else
      var b := AnyBusy(tasks[1..]);
      assert forall i :: 1 <= i < |tasks| ==> tasks[i] == tasks[1..][i - 1];
      b
  }

  // ===========================================================================
  // The state invariant, in four parts over plain values
  // ===========================================================================

  /** Ids are unique and drawn from the counter; a listed task is uploading
      exactly when its transfer is in flight. */
  ghost predicate IdsCoherent<T>(tasks: seq<Task<T>>, nextId: nat, inFlight: set<TaskId>) {
    && UniqueIds(tasks)
    && (forall i :: 0 <= i < |tasks| ==> tasks[i].id < nextId)
    && (forall id :: id in inFlight ==> id < nextId)
    && (forall i :: 0 <= i < |tasks| ==> (tasks[i].id in inFlight <==> tasks[i].status == Uploading))
  }

  /** The active set is the set of uploading tasks and never exceeds the bound. */
  ghost predicate SlotsCoherent<T>(tasks: seq<Task<T>>, active: set<TaskId>) {
    active == UploadingIds(tasks) && |active| <= MaxConcurrentUploads
  }

  ghost predicate AllWellFormed<T>(tasks: seq<Task<T>>) {
    forall i :: 0 <= i < |tasks| ==> WellFormed(tasks[i])
  }

  /** Every handle created so far is held by exactly one task or revoked once. */
  ghost predicate PreviewsAccounted<T>(tasks: seq<Task<T>>, revoked: seq<Handle>, nextHandle: nat) {
    forall h: Handle :: multiset(Previews(tasks))[h] + multiset(revoked)[h] == (if h < nextHandle then 1 else 0)
  }

  /** The whole invariant of the hook's state, over its fields' values. */
  ghost predicate Coherent<T>(tasks: seq<Task<T>>, active: set<TaskId>, inFlight: set<TaskId>,
                              nextId: nat, nextHandle: nat, revoked: seq<Handle>) {
    && IdsCoherent(tasks, nextId, inFlight)
    && SlotsCoherent(tasks, active)
    && AllWellFormed(tasks)
    && PreviewsAccounted(tasks, revoked, nextHandle)
  }

  /** Two task lists with the same ids and statuses, position by position. */
  ghost predicate SameShape<T>(a: seq<Task<T>>, b: seq<Task<T>>) {
    |a| == |b| && forall i :: 0 <= i < |a| ==> a[i].id == b[i].id && a[i].status == b[i].status
  }

  lemma SameShapeCoherent<T>(a: seq<Task<T>>, b: seq<Task<T>>, nextId: nat, inFlight: set<TaskId>, active: set<TaskId>)
    requires SameShape(a, b)
    requires IdsCoherent(a, nextId, inFlight) && SlotsCoherent(a, active)
    ensures IdsCoherent(b, nextId, inFlight) && SlotsCoherent(b, active)
  {
    assert UploadingIds(a) == UploadingIds(b) by {
      forall x | x in UploadingIds(b) ensures x in UploadingIds(a) {
        UploadingIdsMembers(a, x);
        UploadingIdsMembers(b, x);
        var i :| 0 <= i < |b| && b[i].id == x && b[i].status == Uploading;
        assert a[i].id == x && a[i].status == Uploading;
      }
      forall x | x in UploadingIds(a) ensures x in UploadingIds(b) {
        UploadingIdsMembers(a, x);
        UploadingIdsMembers(b, x);
        var i :| 0 <= i < |a| && a[i].id == x && a[i].status == Uploading;
        assert b[i].id == x && b[i].status == Uploading;
      }
    }
  }

  /** A progress event keeps the invariant. */
  lemma ProgressStep<T>(tasks: seq<Task<T>>, id: TaskId, percent: int, active: set<TaskId>, inFlight: set<TaskId>,
                        nextId: nat, nextHandle: nat, revoked: seq<Handle>)
    requires Coherent(tasks, active, inFlight, nextId, nextHandle, revoked)
    ensures Coherent(SetProgress(tasks, id, percent), active, inFlight, nextId, nextHandle, revoked)
  {
    var after := SetProgress(tasks, id, percent);
    SameShapeCoherent(tasks, after, nextId, inFlight, active);
    PreviewsPointwise(after, tasks);
    forall i | 0 <= i < |after| ensures WellFormed(after[i]) {
      assert WellFormed(tasks[i]);
    }
  }

  /** Settling a transfer keeps the invariant once the id leaves the in-flight
      and active sets: the task with that id (if still listed) is now
      completed or failed. */
  lemma SettleStep<T>(tasks: seq<Task<T>>, settled: seq<Task<T>>, id: TaskId,
                      nextId: nat, inFlight: set<TaskId>, active: set<TaskId>)
    requires IdsCoherent(tasks, nextId, inFlight) && SlotsCoherent(tasks, active) && AllWellFormed(tasks)
    requires |settled| == |tasks|
    requires forall i :: 0 <= i < |tasks| && tasks[i].id != id ==> settled[i] == tasks[i]
    requires forall i :: 0 <= i < |tasks| && tasks[i].id == id ==>
      settled[i].id == id && settled[i].preview == tasks[i].preview &&
      ((settled[i].status == Completed && settled[i].error == None) ||
       (settled[i].status == Error && settled[i].error.Some?))
    ensures IdsCoherent(settled, nextId, inFlight - {id})
    ensures SlotsCoherent(settled, active - {id})
    ensures AllWellFormed(settled)
    ensures Previews(settled) == Previews(tasks)
  {
    SettleShape(tasks, settled, id, nextId, inFlight);
    SettleSlots(tasks, settled, id, active);
  }

  lemma SettleShape<T>(tasks: seq<Task<T>>, settled: seq<Task<T>>, id: TaskId, nextId: nat, inFlight: set<TaskId>)
    requires IdsCoherent(tasks, nextId, inFlight) && AllWellFormed(tasks)
    requires |settled| == |tasks|
    requires forall i :: 0 <= i < |tasks| && tasks[i].id != id ==> settled[i] == tasks[i]
    requires forall i :: 0 <= i < |tasks| && tasks[i].id == id ==>
      settled[i].id == id && settled[i].preview == tasks[i].preview &&
      ((settled[i].status == Completed && settled[i].error == None) ||
       (settled[i].status == Error && settled[i].error.Some?))
    ensures IdsCoherent(settled, nextId, inFlight - {id})
    ensures AllWellFormed(settled)
    ensures Previews(settled) == Previews(tasks)
  {
    assert forall i :: 0 <= i < |settled| ==> settled[i].id == tasks[i].id;
    PreviewsPointwise(settled, tasks);
    forall i | 0 <= i < |settled| ensures WellFormed(settled[i]) {
      assert WellFormed(tasks[i]);
    }
    assert UniqueIds(settled);
  }

  lemma SettleSlots<T>(tasks: seq<Task<T>>, settled: seq<Task<T>>, id: TaskId, active: set<TaskId>)
    requires SlotsCoherent(tasks, active)
    requires |settled| == |tasks|
    requires forall i :: 0 <= i < |tasks| && tasks[i].id != id ==> settled[i] == tasks[i]
    requires forall i :: 0 <= i < |tasks| && tasks[i].id == id ==>
      settled[i].id == id && settled[i].preview == tasks[i].preview &&
      ((settled[i].status == Completed && settled[i].error == None) ||
       (settled[i].status == Error && settled[i].error.Some?))
    ensures SlotsCoherent(settled, active - {id})
  {
    forall x | x in UploadingIds(settled) ensures x in UploadingIds(tasks) - {id} {
      UploadingIdsMembers(settled, x);
      UploadingIdsMembers(tasks, x);
      var i :| 0 <= i < |settled| && settled[i].id == x && settled[i].status == Uploading;
      assert settled[i] == tasks[i];
    }
    forall x | x in UploadingIds(tasks) - {id} ensures x in UploadingIds(settled) {
      UploadingIdsMembers(settled, x);
      UploadingIdsMembers(tasks, x);
      var i :| 0 <= i < |tasks| && tasks[i].id == x && tasks[i].status == Uploading;
      assert settled[i] == tasks[i];
    }
    assert UploadingIds(settled) <= UploadingIds(tasks);
  }

  /** Each task whose id the scheduler picks is pending and not active. */
  lemma StartedWerePending<T>(tasks: seq<Task<T>>, active: set<TaskId>)
    requires UniqueIds(tasks)
    ensures var started := ToStart(tasks, active);
      forall i :: 0 <= i < |tasks| && tasks[i].id in started ==> tasks[i].status == Pending && tasks[i].id !in active
  {
    var started := ToStart(tasks, active);
    ToStartSpec(tasks, active);
    forall i | 0 <= i < |tasks| && tasks[i].id in started
      ensures tasks[i].status == Pending && tasks[i].id !in active
    {
      var k :| 0 <= k < |started| && started[k] == tasks[i].id;
      var j :| 0 <= j < |tasks| && tasks[j].id == started[k] && tasks[j].status == Pending;
      assert i == j;
    }
  }

  lemma {:induction false} ElemsIn(s: seq<TaskId>, x: TaskId)
    ensures x in Elems(s) <==> x in s
    decreases |s|
  {
    if s != [] {
      ElemsIn(s[..|s| - 1], x);
      assert s == s[..|s| - 1] + [s[|s| - 1]];
    }
  }

  /** Marking the picked tasks as uploading adds exactly their ids to the
      uploading set. */
  lemma MarkedUploading<T>(tasks: seq<Task<T>>, started: seq<TaskId>, active: set<TaskId>)
    requires active == UploadingIds(tasks)
    requires forall x :: x in started ==> exists i :: 0 <= i < |tasks| && tasks[i].id == x
    ensures UploadingIds(MarkUploading(tasks, started)) == active + Elems(started)
  {
    var after := MarkUploading(tasks, started);
    forall x | x in Elems(started) ensures x in UploadingIds(after) {
      ElemsIn(started, x);
      UploadingIdsMembers(after, x);
      var i :| 0 <= i < |tasks| && tasks[i].id == x;
      assert after[i].status == Uploading;
    }
    forall x | x in UploadingIds(after) ensures x in active + Elems(started) {
      UploadingIdsMembers(after, x);
      UploadingIdsMembers(tasks, x);
      var i :| 0 <= i < |after| && after[i].id == x && after[i].status == Uploading;
      ElemsIn(started, x);
      if x !in started {
        assert tasks[i] == after[i];
      }
    }
    forall x | x in active ensures x in UploadingIds(after) {
      UploadingIdsMembers(after, x);
      UploadingIdsMembers(tasks, x);
      var i :| 0 <= i < |tasks| && tasks[i].id == x && tasks[i].status == Uploading;
      assert after[i].status == Uploading;
    }
  }

  /** Starting the tasks the scheduler picks keeps the invariant once their
      ids join the in-flight and active sets. */
  lemma ScheduleStep<T>(tasks: seq<Task<T>>, active: set<TaskId>, inFlight: set<TaskId>,
                        nextId: nat, nextHandle: nat, revoked: seq<Handle>)
    requires Coherent(tasks, active, inFlight, nextId, nextHandle, revoked)
    ensures var started := ToStart(tasks, active);
      Coherent(MarkUploading(tasks, started), active + Elems(started), inFlight + Elems(started), nextId, nextHandle, revoked)
  {
    var started := ToStart(tasks, active);
    var after := MarkUploading(tasks, started);
    ToStartSpec(tasks, active);
    ScheduleBound(tasks, active);
    StartedWerePending(tasks, active);
    PreviewsPointwise(after, tasks);
    MarkedUploading(tasks, started, active);
    ScheduleIds(tasks, started, nextId, inFlight);
  }

  lemma ScheduleIds<T>(tasks: seq<Task<T>>, started: seq<TaskId>, nextId: nat, inFlight: set<TaskId>)
    requires IdsCoherent(tasks, nextId, inFlight) && AllWellFormed(tasks)
    requires forall x :: x in started ==> exists i :: 0 <= i < |tasks| && tasks[i].id == x
    requires forall i :: 0 <= i < |tasks| && tasks[i].id in started ==> tasks[i].status == Pending
    ensures var after := MarkUploading(tasks, started);
      IdsCoherent(after, nextId, inFlight + Elems(started)) && AllWellFormed(after)
  {
    var after := MarkUploading(tasks, started);
    assert forall i :: 0 <= i < |after| ==> after[i].id == tasks[i].id;
    assert UniqueIds(after);
    forall x | x in Elems(started) ensures x < nextId {
      ElemsIn(started, x);
    }
    forall i | 0 <= i < |after|
      ensures WellFormed(after[i]) && (after[i].id in inFlight + Elems(started) <==> after[i].status == Uploading)
    {
      assert WellFormed(tasks[i]);
      ElemsIn(started, tasks[i].id);
    }
  }

  lemma AddStep<T>(added: seq<Task<T>>, tasks: seq<Task<T>>, nextId: nat, inFlight: set<TaskId>, active: set<TaskId>)
    requires IdsCoherent(tasks, nextId, inFlight) && SlotsCoherent(tasks, active) && AllWellFormed(tasks)
    requires forall i :: 0 <= i < |added| ==> added[i].id == nextId + i
    requires forall i :: 0 <= i < |added| ==> WellFormed(added[i]) && added[i].status != Uploading
    ensures IdsCoherent(added + tasks, nextId + |added|, inFlight)
    ensures SlotsCoherent(added + tasks, active)
    ensures AllWellFormed(added + tasks)
    ensures forall i :: 0 <= i < |added| ==> added[i].id !in TaskIds(tasks) && added[i].id !in inFlight
  {
    var all := added + tasks;
    assert forall i :: |added| <= i < |all| ==> all[i] == tasks[i - |added|];
    assert forall i :: 0 <= i < |added| ==> all[i] == added[i];
    assert UniqueIds(all);
    forall x | x in UploadingIds(all) ensures x in UploadingIds(tasks) {
      UploadingIdsMembers(all, x);
      UploadingIdsMembers(tasks, x);
      var i :| 0 <= i < |all| && all[i].id == x && all[i].status == Uploading;
      assert all[i] == tasks[i - |added|];
    }
    forall x | x in UploadingIds(tasks) ensures x in UploadingIds(all) {
      UploadingIdsMembers(all, x);
      UploadingIdsMembers(tasks, x);
      var i :| 0 <= i < |tasks| && tasks[i].id == x && tasks[i].status == Uploading;
      assert all[i + |added|] == tasks[i];
    }
  }

  /** Dropping tasks by a filter keeps the invariant, with the dropped
      uploading ids leaving the active set. */
  lemma RemoveStep<T>(tasks: seq<Task<T>>, sel: Selector, nextId: nat, inFlight: set<TaskId>, active: set<TaskId>)
    requires IdsCoherent(tasks, nextId, inFlight) && SlotsCoherent(tasks, active) && AllWellFormed(tasks)
    requires sel.AllBut? || sel.BusyOnly?
    ensures var rest := Filter(tasks, sel);
      && IdsCoherent(rest, nextId, inFlight)
      && SlotsCoherent(rest, if sel.AllBut? then active - {sel.id} else active)
      && AllWellFormed(rest)
  {
    FilterUnique(tasks, sel);
    FilterKeepsFields(tasks, sel, nextId, inFlight);
    UploadingIdsFilter(tasks, sel);
  }

  /** Every kept task is one of the original ones, so keeps their per-task
      facts. */
  lemma FilterKeepsFields<T>(tasks: seq<Task<T>>, sel: Selector, nextId: nat, inFlight: set<TaskId>)
    requires IdsCoherent(tasks, nextId, inFlight) && AllWellFormed(tasks)
    ensures var rest := Filter(tasks, sel);
      forall i :: 0 <= i < |rest| ==>
        rest[i].id < nextId && WellFormed(rest[i]) && (rest[i].id in inFlight <==> rest[i].status == Uploading)
  {
    var rest := Filter(tasks, sel);
    forall i | 0 <= i < |rest|
      ensures rest[i].id < nextId && WellFormed(rest[i]) && (rest[i].id in inFlight <==> rest[i].status == Uploading)
    {
      FilterMember(tasks, sel, rest[i]);
      var j :| 0 <= j < |tasks| && tasks[j] == rest[i];
    }
  }

  /** Adding a batch in front keeps the invariant once both counters move
      past what the batch drew. */
  lemma AddBatchStep<T>(files: seq<FileInfo>, verdicts: seq<Verdict>, tasks: seq<Task<T>>, active: set<TaskId>,
                        inFlight: set<TaskId>, nextId: nat, nextHandle: nat, revoked: seq<Handle>)
    requires |verdicts| == |files|
    requires Coherent(tasks, active, inFlight, nextId, nextHandle, revoked)
    ensures Coherent(NewTasks<T>(files, verdicts, nextId, nextHandle) + tasks, active, inFlight,
                     nextId + |files|, nextHandle + PreviewCount(files), revoked)
  {
    AddBatchIds<T>(files, verdicts, tasks, active, inFlight, nextId, nextHandle);
    AddBatchPreviews<T>(files, verdicts, tasks, nextId, nextHandle, revoked);
  }

  lemma AddBatchPreviews<T>(files: seq<FileInfo>, verdicts: seq<Verdict>, tasks: seq<Task<T>>,
                            nextId: nat, nextHandle: nat, revoked: seq<Handle>)
    requires |verdicts| == |files|
    requires PreviewsAccounted(tasks, revoked, nextHandle)
    ensures PreviewsAccounted(NewTasks<T>(files, verdicts, nextId, nextHandle) + tasks, revoked, nextHandle + PreviewCount(files))
  {
    NewTasksPreviews<T>(files, verdicts, nextId, nextHandle);
    AddPreviews(NewTasks<T>(files, verdicts, nextId, nextHandle), tasks, revoked, nextHandle, nextHandle + PreviewCount(files));
  }

  lemma AddBatchIds<T>(files: seq<FileInfo>, verdicts: seq<Verdict>, tasks: seq<Task<T>>, active: set<TaskId>,
                       inFlight: set<TaskId>, nextId: nat, nextHandle: nat)
    requires |verdicts| == |files|
    requires IdsCoherent(tasks, nextId, inFlight) && SlotsCoherent(tasks, active) && AllWellFormed(tasks)
    ensures var all := NewTasks<T>(files, verdicts, nextId, nextHandle) + tasks;
      IdsCoherent(all, nextId + |files|, inFlight) && SlotsCoherent(all, active) && AllWellFormed(all)
  {
    NewTasksShape<T>(files, verdicts, nextId, nextHandle);
    AddStep(NewTasks<T>(files, verdicts, nextId, nextHandle), tasks, nextId, inFlight, active);
  }

  lemma AddPreviews<T>(added: seq<Task<T>>, tasks: seq<Task<T>>, revoked: seq<Handle>, handle: nat, handle': nat)
    requires PreviewsAccounted(tasks, revoked, handle)
    requires handle <= handle' && Previews(added) == Span(handle, handle')
    ensures PreviewsAccounted(added + tasks, revoked, handle')
  {
    var now := multiset(Previews(added + tasks));
    PreviewsAppend(added, tasks);
    assert now == multiset(Span(handle, handle')) + multiset(Previews(tasks));
    forall h: Handle
      ensures now[h] + multiset(revoked)[h] == (if h < handle' then 1 else 0)
    {
      SpanCount(handle, handle', h);
      assert multiset(Previews(tasks))[h] + multiset(revoked)[h] == (if h < handle then 1 else 0);
      assert now[h] == multiset(Span(handle, handle'))[h] + multiset(Previews(tasks))[h];
    }
  }

  /** A successful settle keeps the invariant. */
  lemma CompleteStep<T>(tasks: seq<Task<T>>, id: TaskId, v: Option<T>, active: set<TaskId>, inFlight: set<TaskId>,
                        nextId: nat, nextHandle: nat, revoked: seq<Handle>)
    requires Coherent(tasks, active, inFlight, nextId, nextHandle, revoked)
    requires id in inFlight
    ensures Coherent(MarkCompleted(tasks, id, v), active - {id}, inFlight - {id}, nextId, nextHandle, revoked)
  {
    var settled := MarkCompleted(tasks, id, v);
    forall i | 0 <= i < |tasks| && tasks[i].id == id ensures settled[i].error == None {
      assert WellFormed(tasks[i]) && tasks[i].status == Uploading;
    }
    SettleStep(tasks, settled, id, nextId, inFlight, active);
  }

  /** A failure keeps the invariant, whether it ends an uploading task (the
      transfer rejected) or a just-completed one (the completion hook threw). */
  lemma FailStep<T>(tasks: seq<Task<T>>, id: TaskId, message: string, active: set<TaskId>, inFlight: set<TaskId>,
                    nextId: nat, nextHandle: nat, revoked: seq<Handle>)
    requires Coherent(tasks, active, inFlight, nextId, nextHandle, revoked)
    ensures Coherent(MarkFailed(tasks, id, message), active - {id}, inFlight - {id}, nextId, nextHandle, revoked)
  {
    SettleStep(tasks, MarkFailed(tasks, id, message), id, nextId, inFlight, active);
  }

  /** A success whose completion hook then throws keeps the invariant. */
  lemma HookFailStep<T>(tasks: seq<Task<T>>, id: TaskId, v: Option<T>, message: string, active: set<TaskId>,
                        inFlight: set<TaskId>, nextId: nat, nextHandle: nat, revoked: seq<Handle>)
    requires Coherent(tasks, active, inFlight, nextId, nextHandle, revoked)
    requires id in inFlight
    ensures Coherent(MarkFailed(MarkCompleted(tasks, id, v), id, message), active - {id}, inFlight - {id},
                     nextId, nextHandle, revoked)
  {
    CompleteStep(tasks, id, v, active, inFlight, nextId, nextHandle, revoked);
    FailStep(MarkCompleted(tasks, id, v), id, message, active - {id}, inFlight - {id}, nextId, nextHandle, revoked);
    assert active - {id} - {id} == active - {id};
    assert inFlight - {id} - {id} == inFlight - {id};
  }

  /** When the completion hook throws, the catch turns the completed task into
      a failed one carrying the hook's message, and it keeps the completed
      task's progress of 100 and its result; every other task is untouched. */
  lemma HookFailureKeepsResult<T>(tasks: seq<Task<T>>, id: TaskId, v: Option<T>, message: string)
    ensures var r := MarkFailed(MarkCompleted(tasks, id, v), id, message);
      && |r| == |tasks|
      && (forall i :: 0 <= i < |tasks| && tasks[i].id == id ==>
            && r[i].status == Error && r[i].error == Some(Failed(message))
            && r[i].progress == 100 && r[i].result == v
            && r[i].id == id && r[i].file == tasks[i].file && r[i].preview == tasks[i].preview)
      && (forall i :: 0 <= i < |tasks| && tasks[i].id != id ==> r[i] == tasks[i])
  {
  }

  /** Cancelling keeps the invariant: the removed task's preview moves to
      the revoked handles. */
  lemma CancelStep<T>(tasks: seq<Task<T>>, id: TaskId, active: set<TaskId>, inFlight: set<TaskId>,
                      nextId: nat, nextHandle: nat, revoked: seq<Handle>)
    requires Coherent(tasks, active, inFlight, nextId, nextHandle, revoked)
    ensures Coherent(Filter(tasks, AllBut(id)), active - {id}, inFlight, nextId, nextHandle,
                     revoked + PreviewOf(Find(tasks, id)))
  {
    RemoveStep(tasks, AllBut(id), nextId, inFlight, active);
    OnlyIdIsFound(tasks, id);
    PreviewsPartition(tasks, AllBut(id));
    assert Complement(AllBut(id)) == OnlyId(id);
    MovePreviews(tasks, Filter(tasks, AllBut(id)), Filter(tasks, OnlyId(id)), revoked, nextHandle);
  }

  /** Clearing keeps the invariant: the finished tasks' previews move to the
      revoked handles. */
  lemma ClearStep<T>(tasks: seq<Task<T>>, active: set<TaskId>, inFlight: set<TaskId>,
                     nextId: nat, nextHandle: nat, revoked: seq<Handle>)
    requires Coherent(tasks, active, inFlight, nextId, nextHandle, revoked)
    ensures Coherent(Filter(tasks, BusyOnly), active, inFlight, nextId, nextHandle,
                     revoked + Previews(Filter(tasks, FinishedOnly)))
  {
    RemoveStep(tasks, BusyOnly, nextId, inFlight, active);
    PreviewsPartition(tasks, BusyOnly);
    assert Complement(BusyOnly) == FinishedOnly;
    MovePreviews(tasks, Filter(tasks, BusyOnly), Filter(tasks, FinishedOnly), revoked, nextHandle);
  }

  /** Splitting the list into kept and dropped tasks and revoking the
      dropped previews keeps every handle accounted for once. */
  lemma MovePreviews<T>(tasks: seq<Task<T>>, kept: seq<Task<T>>, gone: seq<Task<T>>, revoked: seq<Handle>, nextHandle: nat)
    requires PreviewsAccounted(tasks, revoked, nextHandle)
    requires multiset(Previews(kept)) + multiset(Previews(gone)) == multiset(Previews(tasks))
    ensures PreviewsAccounted(kept, revoked + Previews(gone), nextHandle)
  {
    forall h: Handle
      ensures multiset(Previews(kept))[h] + multiset(revoked + Previews(gone))[h] == (if h < nextHandle then 1 else 0)
    {
      assert multiset(Previews(tasks))[h] + multiset(revoked)[h] == (if h < nextHandle then 1 else 0);
      assert multiset(Previews(kept))[h] + multiset(Previews(gone))[h] == multiset(Previews(tasks))[h];
    }
  }

  lemma ElemsSnoc(s: seq<TaskId>, k: nat)
    requires k < |s|
    ensures Elems(s[..k + 1]) == Elems(s[..k]) + {s[k]}
  {
    assert s[..k + 1][..k] == s[..k];
  }

  /** The `activeUploadsRef.current.add(task.id)` that `startUpload` does for
      each task `processQueue` starts. */
  method Register(active: set<TaskId>, started: seq<TaskId>) returns (running: set<TaskId>)
    ensures running == active + Elems(started)
  {
    running := active;
    var k := 0;
    while k < |started|
      invariant 0 <= k <= |started|
      invariant running == active + Elems(started[..k])
    {
      ElemsSnoc(started, k);
      running := running + {started[k]};
      k := k + 1;
    }
    assert started[..k] == started;
  }

  /** The `forEach` of `clearCompleted` that passes each finished task's
      preview to `URL.revokeObjectURL`, appending it to the log. */
  method Revoke<T>(log: seq<Handle>, done: seq<Task<T>>) returns (log': seq<Handle>)
    ensures log' == log + Previews(done)
  {
    log' := log;
    var k := 0;
    while k < |done|
      invariant 0 <= k <= |done|
      invariant log' == log + Previews(done[..k])
    {
      PreviewsAppend(done[..k], [done[k]]);
      assert done[..k + 1] == done[..k] + [done[k]];
      if done[k].preview.Some? {
        log' := log' + [done[k].preview.value];
      }
      k := k + 1;
    }
    assert done[..k] == done;
  }

  // ===========================================================================
  // The hook's state
  // ===========================================================================

  class Uploader<T> {
    /** The `uploading` list, newest batch first. */
    var tasks: seq<Task<T>>
    /** `activeUploadsRef.current`. */
    var active: set<TaskId>
    /** Fresh-id counter standing in for `generateId`. */
    var nextId: TaskId
    /** Fresh-handle counter standing in for `URL.createObjectURL`. */
    var nextHandle: Handle
    /** Ids whose transport has started and not yet settled, including those
        whose task was cancelled meanwhile (cancelling does not abort). */
    ghost var inFlight: set<TaskId>
    /** The handles passed to `URL.revokeObjectURL`, in order. */
    var revoked: seq<Handle>

    ghost predicate Valid()
      reads this
    {
      Coherent(tasks, active, inFlight, nextId, nextHandle, revoked)
    }

    constructor ()
      ensures Valid()
      ensures tasks == [] && active == {} && inFlight == {} && revoked == []
    {
      tasks := [];
      active := {};
      nextId := 0;
      nextHandle := 0;
      inFlight := {};
      revoked := [];
    }

    /** `isUploading`. */
    function IsUploading(): (b: bool)
      reads this
      ensures b <==> exists i :: 0 <= i < |tasks| && (tasks[i].status == Pending || tasks[i].status == Uploading)
    {
      AnyBusy(tasks)
    }

    /** `addFiles`: the admitted files become new tasks in front of the list.
        Scheduling is deferred (`setTimeout`), so nothing starts here. */
    method AddFiles(files: seq<FileInfo>, config: UploadConfig)
      requires Valid()
      modifies this
      ensures Valid()
      ensures var policy := EffectiveConfig(config);
        var admitted := Admitted(files, policy.multiple);
        && tasks == NewTasks(admitted, Verdicts(admitted, policy), old(nextId), old(nextHandle)) + old(tasks)
        && nextId == old(nextId) + |admitted|
        && nextHandle == old(nextHandle) + PreviewCount(admitted)
      ensures active == old(active) && inFlight == old(inFlight) && revoked == old(revoked)
    {
      var policy := EffectiveConfig(config);
      var admitted := Admitted(files, policy.multiple);
      var verdicts := Verdicts(admitted, policy);
      AddBatchStep<T>(admitted, verdicts, tasks, active, inFlight, nextId, nextHandle, revoked);
      tasks := NewTasks<T>(admitted, verdicts, nextId, nextHandle) + tasks;
      nextId := nextId + |admitted|;
      nextHandle := nextHandle + PreviewCount(admitted);
    }

    /** `processQueue`: starts the first pending tasks in list order, as many
        as there are free slots, marking each uploading. */
    method ProcessQueue() returns (started: seq<TaskId>)
      requires Valid()
      modifies this
      ensures Valid()
      ensures started == ToStart(old(tasks), old(active))
      ensures tasks == MarkUploading(old(tasks), started)
      ensures active == old(active) + Elems(started)
      ensures inFlight == old(inFlight) + Elems(started)
      ensures nextId == old(nextId) && nextHandle == old(nextHandle) && revoked == old(revoked)
    {
      started := ToStart(tasks, active);
      ScheduleStep(tasks, active, inFlight, nextId, nextHandle, revoked);
      var running := Register(active, started);
      tasks := MarkUploading(tasks, started);
      active := running;
      inFlight := inFlight + Elems(started);
    }

    /** An `onProgress` callback. The transport may call it at any time, also
        after its transfer settled; it then moves the settled task's progress
        (or nothing, if the task was cancelled). */
    method Progress(id: TaskId, percent: int)
      requires Valid()
      modifies this
      ensures Valid()
      ensures tasks == SetProgress(old(tasks), id, percent)
      ensures active == old(active) && inFlight == old(inFlight) && revoked == old(revoked)
    {
      ProgressStep(tasks, id, percent, active, inFlight, nextId, nextHandle, revoked);
      tasks := SetProgress(tasks, id, percent);
    }

    /** A resolved transport promise: the task completes with the single
        result, which is also what `onUploadComplete` receives (returned
        here). `hookError` is what that hook throws, if it throws: the catch
        then marks the completed task failed with the hook's message. Either
        way the slot is released and the scheduler runs. */
    method Succeed(id: TaskId, r: Outcome<T>, hookError: Option<Thrown>) returns (delivered: Option<T>, started: seq<TaskId>)
      requires Valid() && id in inFlight
      modifies this
      ensures Valid()
      ensures delivered == SingleResult(r)
      ensures var completed := MarkCompleted(old(tasks), id, delivered);
        var settled := if hookError.Some? then MarkFailed(completed, id, FailureMessage(hookError.value)) else completed;
        && started == ToStart(settled, old(active) - {id})
        && tasks == MarkUploading(settled, started)
      ensures active == old(active) - {id} + Elems(started)
      ensures inFlight == old(inFlight) - {id} + Elems(started)
      ensures revoked == old(revoked)
    {
      delivered := SingleResult(r);
      if hookError.Some? {
        HookFailStep(tasks, id, delivered, FailureMessage(hookError.value), active, inFlight, nextId, nextHandle, revoked);
        tasks := MarkFailed(MarkCompleted(tasks, id, delivered), id, FailureMessage(hookError.value));
      } else {
        CompleteStep(tasks, id, delivered, active, inFlight, nextId, nextHandle, revoked);
        tasks := MarkCompleted(tasks, id, delivered);
      }
      active := active - {id};
      inFlight := inFlight - {id};
      started := ProcessQueue();
    }

    /** A rejected transport promise: the task fails with the error's message
        and keeps its last progress; then the slot is released and the
        scheduler runs. */
    method Fail(id: TaskId, e: Thrown) returns (started: seq<TaskId>)
      requires Valid() && id in inFlight
      modifies this
      ensures Valid()
      ensures var settled := MarkFailed(old(tasks), id, FailureMessage(e));
        && started == ToStart(settled, old(active) - {id})
        && tasks == MarkUploading(settled, started)
      ensures active == old(active) - {id} + Elems(started)
      ensures inFlight == old(inFlight) - {id} + Elems(started)
      ensures revoked == old(revoked)
    {
      FailStep(tasks, id, FailureMessage(e), active, inFlight, nextId, nextHandle, revoked);
      tasks := MarkFailed(tasks, id, FailureMessage(e));
      active := active - {id};
      inFlight := inFlight - {id};
      started := ProcessQueue();
    }

    /** `cancelUpload`: removes the task with that id whatever its status,
        releases its preview and its slot, and starts nothing. */
    method Cancel(id: TaskId)
      requires Valid()
      modifies this
      ensures Valid()
      ensures tasks == Filter(old(tasks), AllBut(id))
      ensures revoked == old(revoked) + PreviewOf(Find(old(tasks), id))
      ensures active == old(active) - {id}
      ensures inFlight == old(inFlight) && nextId == old(nextId) && nextHandle == old(nextHandle)
    {
      var found := Find(tasks, id);
      CancelStep(tasks, id, active, inFlight, nextId, nextHandle, revoked);
      revoked := revoked + PreviewOf(found);
      tasks := Filter(tasks, AllBut(id));
      active := active - {id};
    }

    /** `clearCompleted`: revokes the previews of the completed and failed
        tasks (the `forEach`) and keeps the pending and uploading ones. */
    method ClearCompleted()
      requires Valid()
      modifies this
      ensures Valid()
      ensures tasks == Filter(old(tasks), BusyOnly)
      ensures revoked == old(revoked) + Previews(Filter(old(tasks), FinishedOnly))
      ensures active == old(active) && inFlight == old(inFlight)
      ensures nextId == old(nextId) && nextHandle == old(nextHandle)
    {
      var done := Filter(tasks, FinishedOnly);
      ClearStep(tasks, active, inFlight, nextId, nextHandle, revoked);
      revoked := Revoke(revoked, done);
      tasks := Filter(tasks, BusyOnly);
    }

    /** Every preview ever created is either held by a listed task or has been
        revoked, never both, and none is revoked twice. */
    lemma PreviewsReleasedOnce()
      requires Valid()
      ensures forall h: Handle :: multiset(revoked)[h] <= 1
      ensures forall h: Handle :: h in revoked ==> h !in Previews(tasks)
      ensures forall h: Handle :: h in Previews(tasks) || h in revoked <==> h < nextHandle
    {
      forall h: Handle ensures multiset(revoked)[h] <= 1 && (h in revoked ==> h !in Previews(tasks))
        && (h in Previews(tasks) || h in revoked <==> h < nextHandle)
      {
        assert multiset(Previews(tasks))[h] + multiset(revoked)[h] == (if h < nextHandle then 1 else 0);
        assert (h in Previews(tasks)) == (h in multiset(Previews(tasks)));
        assert (h in revoked) == (h in multiset(revoked));
      }
    }
  }
}
