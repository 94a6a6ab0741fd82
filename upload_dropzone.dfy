/** The upload dropzone component (src/components/UploadDropzone/UploadDropzone.tsx):
    the "accepted types" hint built from the accept list, the drag counter
    that keeps the highlight steady while the pointer crosses child elements,
    and the gating of drops, clicks, key presses and picker changes. */
module UploadDropzone {
  import opened Wrappers
  import opened Text
  import UploadQueue

  // ===========================================================================
  // The accepted-types hint
  // ===========================================================================

  /** The entries with a fixed label. */
  predicate Fixed(entry: string) {
    entry in ["image/*", "image/jpeg", "image/png", "image/gif", "image/webp", "image/svg+xml"]
  }

  /** The hint label of one trimmed accept entry: a fixed name for the common
      image types, otherwise the entry without its first `image/`, in capitals. */
  function Label(entry: string): (l: string)
    ensures entry == "image/*" ==> l == "Images"
    ensures entry == "image/jpeg" ==> l == "JPG"
    ensures entry == "image/png" ==> l == "PNG"
    ensures entry == "image/gif" ==> l == "GIF"
    ensures entry == "image/webp" ==> l == "WebP"
    ensures entry == "image/svg+xml" ==> l == "SVG"
    ensures !Fixed(entry) ==> forall k :: 0 <= k < |l| ==> !('a' <= l[k] <= 'z')
    ensures ',' !in entry ==> ',' !in l
  {
    if entry == "image/*" then "Images"
    else if entry == "image/jpeg" then "JPG"
    else if entry == "image/png" then "PNG"
    else if entry == "image/gif" then "GIF"
    else if entry == "image/webp" then "WebP"
    else if entry == "image/svg+xml" then "SVG"
    else
      FallbackKeepsComma(entry);
      Upper(ReplaceFirst(entry, "image/", ""))
  }

  lemma FallbackKeepsComma(entry: string)
    ensures ',' !in entry ==> ',' !in Upper(ReplaceFirst(entry, "image/", ""))
  {
    if ',' !in entry {
      ReplaceFirstKeepsAbsentChar(entry, "image/", "", ',');
      UpperKeepsAbsentChar(ReplaceFirst(entry, "image/", ""), ',');
    }
  }

  /** Any other image type loses its `image/` prefix; a type without one,
      such as an extension, is only capitalised. */
  lemma FallbackLabel(entry: string)
    requires !Fixed(entry)
    ensures StartsWith(entry, "image/") ==> Label(entry) == Upper(entry[6..])
    ensures !Contains(entry, "image/") ==> Label(entry) == Upper(entry)
  {
    ReplaceFirstSpec(entry, "image/", "");
  }

  /** `.pdf` is shown as `.PDF`. */
  lemma ExtensionLabel()
    ensures Label(".pdf") == ".PDF"
  {
    assert !StartsWith(".pdf", "image/");
    assert !StartsWith("pdf", "image/");
    assert !StartsWith("df", "image/");
    assert !StartsWith("f", "image/");
    assert ReplaceFirst(".pdf", "image/", "") == ".pdf";
  }

  /** One label per comma-separated entry of the accept list, in order. */
  function Labels(accept: string): (ls: seq<string>)
    ensures |ls| == |Split(accept, ',')|
    ensures forall k :: 0 <= k < |ls| ==> ls[k] == Label(UploadQueue.AcceptEntries(accept)[k])
    ensures forall k :: 0 <= k < |ls| ==> ',' !in ls[k]
  {
    var entries := UploadQueue.AcceptEntries(accept);
    forall k | 0 <= k < |entries| ensures ',' !in entries[k] {
      TrimKeepsAbsentChar(Split(accept, ',')[k], ',');
    }
    seq(|entries|, k requires 0 <= k < |entries| => Label(entries[k]))
  }

  lemma TrimKeepsAbsentChar(s: string, c: char)
    requires c !in s
    ensures c !in Trim(s)
  {
    var i :| Flanked(s, Trim(s), i);
  }

  /** An entry without surrounding white space is its own trimmed form. */
  lemma TrimUnspaced(s: string)
    requires s != [] && !IsSpace(s[0]) && !IsSpace(s[|s| - 1])
    ensures Trim(s) == s
  {
    var r := Trim(s);
    var i :| Flanked(s, r, i);
  }

  /** `formatAcceptedTypes`: the labels joined by a comma and a space. */
  function FormatAcceptedTypes(accept: string): string {
    Join(Labels(accept), ", ")
  }

  /** The labels as they reappear when the hint is cut at its commas: the
      first as it is, each later one after the space of the separator. */
  function Spaced(ls: seq<string>): (r: seq<string>)
    requires |ls| >= 1
    ensures |r| == |ls| && r[0] == ls[0]
    ensures forall k {:trigger r[k]} :: 1 <= k < |ls| ==> r[k] == " " + ls[k]
  {
    [ls[0]] + seq(|ls| - 1, k requires 0 <= k < |ls| - 1 => " " + ls[k + 1])
  }

  /** The hint holds exactly one label per accept entry: cutting it at its
      commas gives back every label, in the order of the entries. */
  lemma OneLabelPerEntry(accept: string)
    ensures Split(FormatAcceptedTypes(accept), ',') == Spaced(Labels(accept))
  {
    SplitJoinSpaced(Labels(accept));
  }

  lemma {:induction false} SplitJoinSpaced(ls: seq<string>)
    requires |ls| >= 1
    requires forall k :: 0 <= k < |ls| ==> ',' !in ls[k]
    ensures Split(Join(ls, ", "), ',') == Spaced(ls)
    decreases |ls|
  {
    if |ls| > 1 {
      var rest := ls[1..];
      var tail := Join(rest, ", ");
      SplitJoinSpaced(rest);
      calc {
        Join(ls, ", ");
        ls[0] + ", " + tail;
        ls[0] + [','] + ([' '] + tail);
      }
      SplitAfterFirst(ls[0], ',', [' '] + tail);
      SplitSpaceHead(tail);
      SpacedCons(ls);
    } else {
      assert ls == [ls[0]];
    }
  }

  /** Cutting the hint after its first label. */
  lemma SpacedCons(ls: seq<string>)
    requires |ls| > 1
    ensures var rest := Spaced(ls[1..]);
      Spaced(ls) == [ls[0]] + ([[' '] + rest[0]] + rest[1..])
  {
    var rest := Spaced(ls[1..]);
    var whole := [ls[0]] + ([[' '] + rest[0]] + rest[1..]);
    assert |whole| == |ls|;
    forall k | 0 <= k < |ls| ensures whole[k] == Spaced(ls)[k] {
      if k == 0 {
        assert whole[k] == ls[0];
      } else if k == 1 {
        assert whole[k] == [' '] + rest[0] == " " + ls[1];
      } else {
        assert whole[k] == rest[k - 1] == " " + ls[1..][k - 1];
      }
    }
  }

  /** A leading space joins the first piece of a split. */
  lemma SplitSpaceHead(s: string)
    ensures var pieces := Split(s, ',');
      Split([' '] + s, ',') == [[' '] + pieces[0]] + pieces[1..]
  {
    assert ([' '] + s)[1..] == s;
  }

  /** With the library default accept list the hint reads `Images`. */
  lemma DefaultHint()
    ensures FormatAcceptedTypes(UploadQueue.DefaultAccept) == "Images"
  {
    var accept := UploadQueue.DefaultAccept;
    assert ',' !in accept;
    TrimUnspaced(accept);
    var ls := Labels(accept);
    assert |ls| == 1 && ls[0] == "Images";
    assert Join(ls, ", ") == ls[0];
    assert FormatAcceptedTypes(accept) == Join(ls, ", ");
  }



  // ===========================================================================
  // Drag highlighting
  // ===========================================================================

  /** The drag events the dropzone listens to; `hasItems` says whether the
      drag carries any items. */
  datatype DragEvent = Enter(hasItems: bool) | Leave | Over | Drop

  /** `dragCounterRef.current` and `isDragging`. */
  datatype DragState = DragState(counter: int, dragging: bool)

  const Idle: DragState := DragState(0, false)

  /** One handler's effect. Every enter counts, but only one with items
      lights the zone; a leave clears it only when the count comes back to
      zero; a drop always clears it and resets the count. */
  function Step(s: DragState, e: DragEvent): (s': DragState)
    ensures e.Enter? ==> s'.counter == s.counter + 1 && s'.dragging == (e.hasItems || s.dragging)
    ensures e.Leave? ==> s'.counter == s.counter - 1 && (s'.dragging <==> s.dragging && s'.counter != 0)
    ensures e.Over? ==> s' == s
    ensures e.Drop? ==> s' == Idle
  {
    match e
    case Enter(hasItems) => DragState(s.counter + 1, if hasItems then true else s.dragging)
    case Leave => DragState(s.counter - 1, if s.counter - 1 == 0 then false else s.dragging)
    case Over => s
    case Drop => Idle
  }

  function Run(s: DragState, events: seq<DragEvent>): DragState
    decreases |events|
  {
    if events == [] then s else Run(Step(s, events[0]), events[1..])
  }

  /** How many drag-enters are still open at the end of `events`; a drop closes them all. */
  function Depth(events: seq<DragEvent>): int
    decreases |events|
  {
    if events == [] then 0
    else
      match events[|events| - 1]
      case Enter(_) => Depth(events[..|events| - 1]) + 1
      case Leave => Depth(events[..|events| - 1]) - 1
      case Over => Depth(events[..|events| - 1])
      case Drop => 0
  }

  /** Every leave follows an open enter, which the browser guarantees for a
      pointer that can only leave an element it entered. */
  ghost predicate Paired(events: seq<DragEvent>) {
    forall n :: 0 <= n <= |events| ==> Depth(events[..n]) >= 0
  }

  /** The highlight is off whenever no enter is open. */
  ghost predicate Steady(s: DragState) {
    s.counter >= 0 && (s.counter == 0 ==> !s.dragging)
  }

  lemma RunSnoc(s: DragState, events: seq<DragEvent>, e: DragEvent)
    ensures Run(s, events + [e]) == Step(Run(s, events), e)
    decreases |events|
  {
    if events != [] {
      assert (events + [e])[1..] == events[1..] + [e];
      RunSnoc(Step(s, events[0]), events[1..], e);
    }
  }

  /** From rest, the counter is the number of open enters and the highlight
      is never on with none open. */
  lemma {:induction false} CounterTracksDepth(events: seq<DragEvent>)
    requires Paired(events)
    ensures Run(Idle, events).counter == Depth(events)
    ensures Steady(Run(Idle, events))
    decreases |events|
  {
    if events != [] {
      var init := events[..|events| - 1];
      var e := events[|events| - 1];
      assert events == init + [e];
      forall n | 0 <= n <= |init| ensures Depth(init[..n]) >= 0 {
        assert init[..n] == events[..n];
      }
      assert events[..|events|] == events;
      CounterTracksDepth(init);
      RunSnoc(Idle, init, e);
    }
  }

  /** Once every enter has been matched by a leave, the highlight is off. */
  lemma BalancedEndsIdle(events: seq<DragEvent>)
    requires Paired(events) && Depth(events) == 0
    ensures Run(Idle, events) == Idle
  {
    CounterTracksDepth(events);
  }

  /** Entering a child element before leaving its parent keeps the highlight on. */
  lemma ChildCrossingKeepsHighlight()
    ensures Run(Idle, [Enter(true), Enter(true), Leave]).dragging
    ensures Run(Idle, [Enter(true), Enter(true), Leave, Leave]) == Idle
  {
  }

  // ===========================================================================
  // The component
  // ===========================================================================

  /** The two parts of the prompt text. */
  const DropInvite: string := "Drop files here"
  const ClickHint: string := "click to upload"

  /** The short prompt names no click route. */
  lemma ShortPrompt()
    ensures StartsWith(DropInvite, DropInvite) && !Contains(DropInvite, ClickHint)
  {
    FirstCharMissing(DropInvite, ClickHint);
  }

  /** The long prompt names the click route after the same invitation to drop. */
  lemma LongPrompt()
    ensures var long := DropInvite + " or " + ClickHint;
      StartsWith(long, DropInvite) && Contains(long, ClickHint)
  {
    ConcatParts(DropInvite + " or ", ClickHint);
    ConcatParts(DropInvite, " or " + ClickHint);
    assert DropInvite + " or " + ClickHint == DropInvite + (" or " + ClickHint);
  }

  /** The state the component keeps between events: the counter ref and the
      `isDragging` state. */
  class Dropzone {
    var dragCounter: int
    var isDragging: bool

    function State(): DragState
      reads this
    {
      DragState(dragCounter, isDragging)
    }

    constructor ()
      ensures State() == Idle
    {
      dragCounter := 0;
      isDragging := false;
    }

    method DragEnter(hasItems: bool)
      modifies this
      ensures State() == Step(old(State()), Enter(hasItems))
    {
      dragCounter := dragCounter + 1;
      if hasItems {
        isDragging := true;
      }
    }

    method DragLeave()
      modifies this
      ensures State() == Step(old(State()), Leave)
    {
      dragCounter := dragCounter - 1;
      if dragCounter == 0 {
        isDragging := false;
      }
    }

    /** `handleDrop`: whatever else happens the highlight goes off and the
        count restarts; the files are passed on only when the zone is
        enabled and the drop carries some. */
    method Dropped(disabled: bool, files: seq<UploadQueue.FileInfo>) returns (forwarded: Option<seq<UploadQueue.FileInfo>>)
      modifies this
      ensures State() == Step(old(State()), Drop)
      ensures forwarded.Some? <==> !disabled && |files| > 0
      ensures forwarded.Some? ==> forwarded.value == files
    {
      isDragging := false;
      dragCounter := 0;
      if disabled {
        return None;
      }
      if |files| > 0 {
        return Some(files);
      }
      return None;
    }

    /** The main line of text: it always invites a drop, and it offers the
      click-to-upload route exactly while no drag is over the zone. */
    function Prompt(): (text: string)
      reads this
      ensures StartsWith(text, DropInvite)
      ensures Contains(text, ClickHint) <==> !isDragging
    {
      ShortPrompt();
      LongPrompt();
      if isDragging then DropInvite else DropInvite + " or " + ClickHint
    }
  }

  /** `handleClick`: the file picker opens only when the zone is enabled and
      the hidden input is mounted. */
  function OpensPicker(disabled: bool, mounted: bool): (opens: bool)
    ensures opens <==> !disabled && mounted
  {
    !disabled && mounted
  }

  /** Enter and Space act as a click; other keys do nothing. */
  function KeyOpensPicker(key: string, disabled: bool, mounted: bool): (opens: bool)
    ensures opens <==> (key == "Enter" || key == " ") && OpensPicker(disabled, mounted)
    ensures disabled ==> !opens
  {
    if key == "Enter" || key == " " then OpensPicker(disabled, mounted) else false
  }

  /** The click and the keyboard reach the picker through the same gate: a
      disabled zone or an unmounted input opens it by no route, an enabled zone
      with its input mounted opens it by a click, Enter or Space, and any
      other key never opens it. */
  lemma PickerGates(key: string, disabled: bool, mounted: bool)
    ensures (disabled || !mounted) ==> !OpensPicker(disabled, mounted) && !KeyOpensPicker(key, disabled, mounted)
    ensures (!disabled && mounted) ==>
      && OpensPicker(disabled, mounted)
      && KeyOpensPicker("Enter", disabled, mounted)
      && KeyOpensPicker(" ", disabled, mounted)
    ensures KeyOpensPicker("Enter", disabled, mounted) == OpensPicker(disabled, mounted)
    ensures KeyOpensPicker(" ", disabled, mounted) == OpensPicker(disabled, mounted)
    ensures key != "Enter" && key != " " ==> !KeyOpensPicker(key, disabled, mounted)
  {
  }

  /** `handleInputChange`: a non-empty selection is passed on and the input
      cleared, so that choosing the same file again fires another change. */
  function InputChange(files: seq<UploadQueue.FileInfo>): (r: (Option<seq<UploadQueue.FileInfo>>, bool))
    ensures r.0.Some? <==> |files| > 0
    ensures r.0.Some? ==> r.0.value == files
    ensures r.1 <==> r.0.Some?
  {
    if |files| > 0 then (Some(files), true) else (None, false)
  }
}
