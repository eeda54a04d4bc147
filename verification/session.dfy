/** The form's own logic (abcd.py:255-359) without the widgets: the photo-slot counter
    and its add and delete buttons, the per-slot label choice, how a slot's caption is
    resolved, how a slot's picture is picked, and what the submit button feeds to
    `build_pdf` and to the file-name sanitiser. */
module Session {
  import opened Text
  import opened Outcome
  import opened Normalize
  import opened Layout
  import Filename

  /** `max_photos` (line 286). */
  const MaxPhotos: int := 9

  /** The choice that asks for a typed caption (lines 278, 280, 300, 339). */
  const CustomChoice: string := "직접입력"

  /** The two forms the page can produce (line 269). */
  datatype Mode = Cascade | Ventilation

  /** The drop-down options of each form (lines 276-280). */
  function Options(mode: Mode): (r: seq<string>)
    ensures CustomChoice in r
    ensures forall i :: 0 <= i < |r| ==> r[i] != []
  {
    match mode
    case Cascade =>
      ["장비납품", "급탕모듈러설치", "난방모듈러설치", "하부배관", "LLH시공",
       "연도시공", "외부연도마감", "드레인호스", "NCC판넬", "완료사진", CustomChoice]
    case Ventilation => [CustomChoice]
  }

  /** The PDF title of each form (line 356). */
  function Title(mode: Mode): (r: string)
    ensures !IsBlank(r)
  {
    var r := match mode
      case Cascade => "캐스케이드 기성 청구 양식"
      case Ventilation => "환기 기성 청구 양식";
    assert r[0] !in Whitespace;
    r
  }

  /** What `labels[i]` stores for a slot: the chosen option and the typed text. */
  datatype Choice = Choice(option: string, typed: string)

  /** The session state: the form kind of the radio (lines 257-258, 269-270),
      `photo_count` and `labels`. */
  datatype Form = Form(mode: Mode, count: nat, labels: map<int, Choice>)

  /** A warning the buttons may show instead of acting (lines 318, 326). */
  datatype Notice = Quiet | AtMost9 | AtLeast1

  datatype Step = Step(form: Form, notice: Notice)

  /** The state on first load (lines 255-260). */
  const Initial: Form := Form(Cascade, 1, map[])

  /** Between one and nine slots, and label state only for slots that exist. */
  predicate Valid(f: Form)
  {
    && 1 <= f.count <= MaxPhotos
    && forall k :: k in f.labels ==> 0 <= k < f.count
  }

  /** Every stored option is one the form's drop-down offers. */
  predicate Offered(f: Form)
  {
    forall k :: k in f.labels ==> f.labels[k].option in Options(f.mode)
  }

  /** "➕ 사진 추가" (lines 314-318): below nine slots one more is added; at nine
      nothing changes and the warning is shown. Labels are never touched. */
  function AddPhoto(f: Form): (r: Step)
    ensures r.form.mode == f.mode && r.form.labels == f.labels
    ensures f.count < MaxPhotos <==> r.notice == Quiet
    ensures r.notice == Quiet ==> r.form.count == f.count + 1
    ensures r.notice != Quiet ==> r.form == f && r.notice == AtMost9
    ensures Valid(f) ==> Valid(r.form)
  {
    if f.count < MaxPhotos then Step(f.(count := f.count + 1), Quiet)
    else Step(f, AtMost9)
  }

  /** "➖ 마지막 삭제" (lines 320-326): above one slot the last slot goes, and with it
      the label state of that slot only; at one slot nothing changes and the warning
      is shown. */
  function DeletePhoto(f: Form): (r: Step)
    ensures r.form.mode == f.mode
    ensures f.count > 1 <==> r.notice == Quiet
    ensures r.notice == Quiet ==> r.form.count == f.count - 1 && (f.count - 1) !in r.form.labels
    ensures r.notice == Quiet ==> forall k :: k != f.count - 1 ==>
              (k in r.form.labels <==> k in f.labels) && (k in f.labels ==> r.form.labels[k] == f.labels[k])
    ensures r.notice != Quiet ==> r.form == f && r.notice == AtLeast1
    ensures Valid(f) ==> Valid(r.form)
  {
    if f.count > 1 then Step(f.(count := f.count - 1, labels := f.labels - {f.count - 1}), Quiet)
    else Step(f, AtLeast1)
  }

  /** Lines 294-304, for slot `slot` of the drawn slots: the chosen option is stored,
      with the typed text only when the option is the custom one. */
  function SetChoice(f: Form, slot: int, option: string, typed: string): (r: Form)
    requires 0 <= slot < f.count
    ensures r.mode == f.mode && r.count == f.count && slot in r.labels && r.labels[slot].option == option
    ensures r.labels[slot].typed == (if option == CustomChoice then typed else "")
    ensures forall k :: k != slot ==> (k in r.labels <==> k in f.labels) && (k in f.labels ==> r.labels[k] == f.labels[k])
    ensures Valid(f) ==> Valid(r)
  {
    f.(labels := f.labels[slot := Choice(option, if option == CustomChoice then typed else "")])
  }

  /** The option an untouched drop-down shows for a slot (lines 293-295): the stored
      option while the form offers it, and the form's first option otherwise. */
  function ShownOption(f: Form, slot: int): (r: string)
    ensures r in Options(f.mode)
    ensures slot in f.labels && f.labels[slot].option in Options(f.mode) ==> r == f.labels[slot].option
    ensures !(slot in f.labels && f.labels[slot].option in Options(f.mode)) ==> r == Options(f.mode)[0]
  {
    var options := Options(f.mode);
    if slot in f.labels && f.labels[slot].option in options then f.labels[slot].option else options[0]
  }

  /** What the selection loop stores for a slot whose controls were not touched
      (lines 294-304): the shown option, with the typed text kept only for the custom one. */
  function Shown(f: Form, slot: int): Choice
  {
    var option := ShownOption(f, slot);
    Choice(option, if option == CustomChoice then StoredTyped(f, slot) else "")
  }

  /** The label state after the first `n` rounds of the selection loop (lines 287-304),
      where round `k` stores `shown(k)` for slot `k`: slots below `n` hold what they
      show, every other slot keeps its state. */
  function StoreSlots(labels: map<int, Choice>, n: nat, shown: int -> Choice): (r: map<int, Choice>)
    ensures forall k :: 0 <= k < n ==> k in r && r[k] == shown(k)
    ensures forall k :: !(0 <= k < n) ==> (k in r <==> k in labels)
    ensures forall k :: !(0 <= k < n) && k in labels ==> r[k] == labels[k]
  {
    if n == 0 then labels else StoreSlots(labels, n - 1, shown)[n - 1 := shown(n - 1)]
  }

  /** One pass of the selection loop (lines 287-304) with no control touched. Streamlit
      runs the script again on every press, so this pass comes before any button acts.
      Every drawn slot stores what its drop-down shows; label state of other slots is
      left alone. */
  function Redraw(f: Form): (r: Form)
    ensures r.mode == f.mode && r.count == f.count
    ensures forall k :: 0 <= k < f.count ==> k in r.labels && r.labels[k].option in Options(f.mode)
    ensures forall k :: 0 <= k < f.count ==> r.labels[k] == Shown(f, k)
    ensures forall k :: !(0 <= k < f.count) ==> (k in r.labels <==> k in f.labels)
    ensures forall k :: !(0 <= k < f.count) && k in f.labels ==> r.labels[k] == f.labels[k]
  {
    Form(f.mode, f.count, StoreSlots(f.labels, f.count, ShownBy(f)))
  }

  /** `Shown` for the slots of `f`, as the function the selection loop applies. */
  function ShownBy(f: Form): (r: int -> Choice)
    ensures forall k :: r(k) == Shown(f, k)
  {
    k => Shown(f, k)
  }

  /** Storing, over the same rounds, values that agree with what is already stored
      changes nothing. */
  lemma StoreSlotsAgain(labels: map<int, Choice>, n: nat, shown: int -> Choice, again: int -> Choice)
    requires forall k :: 0 <= k < n ==> again(k) == shown(k)
    ensures StoreSlots(StoreSlots(labels, n, shown), n, again) == StoreSlots(labels, n, shown)
  {
    var once := StoreSlots(labels, n, shown);
    var twice := StoreSlots(once, n, again);
    assert twice.Keys == once.Keys;
  }

  /** A press of one of the page's controls: the two buttons, the form-kind radio, or a
      slot's drop-down and text box. */
  datatype Action = Add | Delete | Switch(mode: Mode) | Select(slot: int, option: string, typed: string)

  /** The form after one press and the rerun it causes: the radio is read first
      (line 270), then the selection loop stores every drawn slot (lines 287-304), then
      the buttons act (lines 312-326). A drop-down only ever yields an option the form
      offers, and a slot that is not drawn has no controls to press. */
  function Apply(f: Form, a: Action): (r: Form)
    ensures r.mode == (if a.Switch? then a.mode else f.mode)
    ensures a.Add? ==> r.count == (if f.count < MaxPhotos then f.count + 1 else f.count)
    ensures a.Delete? ==> r.count == (if f.count > 1 then f.count - 1 else f.count)
    ensures a.Switch? || a.Select? ==> r.count == f.count
    ensures a.Select? && 0 <= a.slot < f.count && a.option in Options(f.mode) ==>
              a.slot in r.labels && r.labels[a.slot] == Choice(a.option, if a.option == CustomChoice then a.typed else "")
    ensures a.Select? && !(0 <= a.slot < f.count && a.option in Options(f.mode)) ==> r == Redraw(f)
    ensures forall k :: 0 <= k < f.count && !(a.Select? && k == a.slot) && !a.Switch? && !(a.Delete? && k == f.count - 1 && f.count > 1) ==>
              k in r.labels && r.labels[k] == Shown(f, k)
  {
    match a
    case Add => AddPhoto(Redraw(f)).form
    case Delete => DeletePhoto(Redraw(f)).form
    case Switch(mode) => Redraw(f.(mode := mode))
    case Select(slot, option, typed) =>
      var g := Redraw(f);
      if 0 <= slot < g.count && option in Options(g.mode) then SetChoice(g, slot, option, typed) else g
  }

  /** The form after a run of actions from `f`. */
  function Run(f: Form, actions: seq<Action>): (r: Form)
    ensures (forall i :: 0 <= i < |actions| ==> !actions[i].Switch?) ==> r.mode == f.mode
    ensures (forall i :: 0 <= i < |actions| ==> actions[i].Select? || actions[i].Switch?) ==> r.count == f.count
    decreases |actions|
  {
    if actions == [] then f else Run(Apply(f, actions[0]), actions[1..])
  }

  /** Pressing one run of controls and then another is the same as pressing them all in
      order. */
  lemma {:induction false} RunConcat(f: Form, first: seq<Action>, second: seq<Action>)
    ensures Run(f, first + second) == Run(Run(f, first), second)
    decreases |first|
  {
    if first != [] {
      assert (first + second)[0] == first[0];
      assert (first + second)[1..] == first[1..] + second;
      RunConcat(Apply(f, first[0]), first[1..], second);
    } else {
      assert first + second == second;
    }
  }

  /** The selection loop keeps a valid form valid, and afterwards every stored option is
      one the form offers. */
  lemma RedrawOffers(f: Form)
    requires Valid(f)
    ensures Valid(Redraw(f)) && Offered(Redraw(f))
  {
  }

  /** A drawn slot shows, on the next pass, what the last pass stored for it. */
  lemma ShownStable(f: Form, k: int)
    requires 0 <= k < f.count
    ensures Shown(Redraw(f), k) == Shown(f, k)
  {
    var g := Redraw(f);
    assert g.labels[k] == Shown(f, k);
    assert ShownOption(g, k) == ShownOption(f, k);
  }

  /** Running the selection loop a second time stores nothing new. */
  lemma RedrawIdempotent(f: Form)
    ensures Redraw(Redraw(f)) == Redraw(f)
  {
    var g := Redraw(f);
    forall k | 0 <= k < f.count ensures ShownBy(g)(k) == ShownBy(f)(k) {
      ShownStable(f, k);
    }
    StoreSlotsAgain(f.labels, f.count, ShownBy(f), ShownBy(g));
  }

  /** A drawn slot without label state (one just added) is stored with the form's first
      option, so on submit its caption is that option: "장비납품" for the cascade form,
      "직접입력" for the ventilation form. */
  lemma FreshSlotCaption(f: Form, slot: int)
    requires 0 <= slot < f.count && slot !in f.labels
    ensures ResolveLabel(Redraw(f), slot) == Options(f.mode)[0]
  {
  }

  /** Any press keeps a valid form valid and leaves only offered options stored. */
  lemma ApplyKeepsValid(f: Form, a: Action)
    requires Valid(f)
    ensures Valid(Apply(f, a)) && Offered(Apply(f, a))
  {
    match a
    case Switch(mode) =>
      RedrawOffers(f.(mode := mode));
    case _ =>
      RedrawOffers(f);
  }

  /** Whatever the user presses, a valid form whose options are all offered stays so:
      the slot count stays between one and nine, label state exists only for drawn
      slots, and every stored option is one of the form's. */
  lemma {:induction false} RunKeepsValid(f: Form, actions: seq<Action>)
    requires Valid(f) && Offered(f)
    ensures Valid(Run(f, actions)) && Offered(Run(f, actions))
    decreases |actions|
  {
    if actions != [] {
      var g := Apply(f, actions[0]);
      ApplyKeepsValid(f, actions[0]);
      RunKeepsValid(g, actions[1..]);
    }
  }

  /** Every form reachable from the first load is valid and stores only offered options. */
  lemma ReachableIsValid(actions: seq<Action>)
    ensures 1 <= Run(Initial, actions).count <= MaxPhotos
    ensures Valid(Run(Initial, actions)) && Offered(Run(Initial, actions))
  {
    RunKeepsValid(Initial, actions);
  }

  /** On every form reachable from the first load, no slot's caption is empty. */
  lemma ReachableCaptionsNonEmpty(actions: seq<Action>, slot: int)
    ensures ResolveLabel(Run(Initial, actions), slot) != []
  {
    var f := Run(Initial, actions);
    ReachableIsValid(actions);
    ResolvedLabelNonEmpty(f, slot);
  }

  /** Adding a slot and deleting it again restores the count and drops only label
      state of the slot that was added. */
  lemma AddThenDelete(f: Form)
    requires Valid(f) && f.count < MaxPhotos
    ensures DeletePhoto(AddPhoto(f).form).form == f
  {
    assert f.count !in f.labels;
    assert f.labels - {f.count} == f.labels;
  }

  /** The stored option of a slot, `"직접입력"` when the slot has no state (line 337). */
  function StoredOption(f: Form, slot: int): string
  {
    if slot in f.labels then f.labels[slot].option else CustomChoice
  }

  /** The stored typed text of a slot, empty when the slot has no state (line 338). */
  function StoredTyped(f: Form, slot: int): string
  {
    if slot in f.labels then f.labels[slot].typed else ""
  }

  /** Line 339: the caption of a slot. */
  function ResolveLabel(f: Form, slot: int): (r: string)
    ensures r != StoredOption(f, slot) ==> StoredOption(f, slot) == CustomChoice && |r| <= |StoredTyped(f, slot)|
  {
    var option := StoredOption(f, slot);
    var typed := StoredTyped(f, slot);
    if option == CustomChoice && Trim(typed) != [] then Trim(typed) else option
  }

  /** What line 339 promises: the typed text, with surrounding whitespace removed and
      never empty, wins exactly when the custom option is chosen and the text is not
      blank; otherwise the caption is the stored option itself. */
  lemma ResolveLabelCases(f: Form, slot: int)
    ensures StoredOption(f, slot) == CustomChoice && !IsBlank(StoredTyped(f, slot)) ==>
              ResolveLabel(f, slot) != [] && exists a :: StripsTo(StoredTyped(f, slot), Whitespace, a, ResolveLabel(f, slot))
    ensures !(StoredOption(f, slot) == CustomChoice && !IsBlank(StoredTyped(f, slot))) ==>
              ResolveLabel(f, slot) == StoredOption(f, slot)
  {
    TrimEmptyIffBlank(StoredTyped(f, slot));
  }

  /** With the custom option and whitespace typed, the caption is "직접입력" itself, never
      an empty string. */
  lemma BlankTypedFallsBack(f: Form, slot: int)
    requires slot in f.labels && f.labels[slot].option == CustomChoice
    requires IsBlank(f.labels[slot].typed)
    ensures ResolveLabel(f, slot) == CustomChoice
  {
  }

  /** Options are never empty, so as long as every stored option is one, no caption is
      empty. */
  lemma ResolvedLabelNonEmpty(f: Form, slot: int)
    requires forall k :: k in f.labels ==> f.labels[k].option != []
    ensures ResolveLabel(f, slot) != []
  {
  }

  /** Lines 342-348: the camera shot wins over the uploaded file. */
  function PickPicture(slot: int, cameras: map<int, Size>, uploads: map<int, Size>): (r: Attachment)
    ensures r.Attached? <==> slot in cameras || slot in uploads
    ensures slot in cameras ==> r == Attached(cameras[slot])
    ensures slot !in cameras && slot in uploads ==> r == Attached(uploads[slot])
  {
    if slot in cameras then Attached(cameras[slot])
    else if slot in uploads then Attached(uploads[slot])
    else Absent
  }

  /** A slot's picture after the padding of line 351, or the division error. */
  function PadAttachment(a: Attachment): (r: Result<Attachment>)
    ensures r.Err? <==> a.Attached? && a.size.h == 0
    ensures r.Ok? ==> (r.value.Attached? <==> a.Attached?)
  {
    match a
    case Absent => Ok(Absent)
    case Attached(s) =>
      match PadToFourThree(s)
      case Err(e) => Err(e)
      case Ok(p) => Ok(Attached(CanvasOf(s, p)))
  }

  /** The picture picked for a slot has zero height, so padding it divides by zero. */
  predicate SlotBroken(slot: int, cameras: map<int, Size>, uploads: map<int, Size>)
  {
    PickPicture(slot, cameras, uploads).Attached? && PickPicture(slot, cameras, uploads).size.h == 0
  }

  /** Lines 336-353 for one slot: its caption and its picked picture padded to 4:3. */
  function SlotItem(f: Form, slot: int, cameras: map<int, Size>, uploads: map<int, Size>): (r: Result<Item>)
    ensures r.Err? <==> SlotBroken(slot, cameras, uploads)
    ensures r.Ok? ==> r.value.caption == ResolveLabel(f, slot)
    ensures r.Ok? ==> (r.value.photo.Attached? <==> slot in cameras || slot in uploads)
  {
    match PadAttachment(PickPicture(slot, cameras, uploads))
    case Err(e) => Err(e)
    case Ok(a) => Ok(Item(ResolveLabel(f, slot), a))
  }

  /** A collected item never holds a picture of zero height: padding made it at least
      one pixel high. */
  lemma CollectedNotBroken(f: Form, slot: int, cameras: map<int, Size>, uploads: map<int, Size>)
    requires SlotItem(f, slot, cameras, uploads).Ok?
    ensures !Broken(SlotItem(f, slot, cameras, uploads).value)
  {
    var picked := PickPicture(slot, cameras, uploads);
    if picked.Attached? {
      PaddedIsLandscapish(picked.size);
    }
  }

  /** The loop of lines 335-353 over the slots `0 .. n-1`, stopping at the first
      slot whose item cannot be built. */
  method Gather(n: nat, item: int -> Result<Item>) returns (r: Result<seq<Item>>)
    ensures r.Err? <==> exists i :: 0 <= i < n && item(i).Err?
    ensures r.Ok? ==> |r.value| == n && forall i :: 0 <= i < n ==> item(i) == Ok(r.value[i])
  {
    var items: seq<Item> := [];
    var i := 0;
    while i < n
      invariant i <= n && |items| == i
      invariant forall k :: 0 <= k < i ==> item(k) == Ok(items[k])
    {
      var next := item(i);
      if next.Err? {
        return Err(next.error);
      }
      items := items + [next.value];
      i := i + 1;
    }
    return Ok(items);
  }

  /** Lines 334-353: one item per drawn slot, in slot order, captioned by
      `ResolveLabel` and carrying the slot's picture padded to 4:3. A picked picture of
      zero height raises the division error, which aborts the submission. */
  method CollectItems(f: Form, cameras: map<int, Size>, uploads: map<int, Size>)
    returns (r: Result<seq<Item>>)
    ensures r.Err? <==> exists i :: 0 <= i < f.count && SlotBroken(i, cameras, uploads)
    ensures r.Ok? ==> |r.value| == f.count
    ensures r.Ok? ==> forall i :: 0 <= i < |r.value| ==> SlotItem(f, i, cameras, uploads) == Ok(r.value[i])
  {
    var item := k => SlotItem(f, k, cameras, uploads);
    r := Gather(f.count, item);
    if r.Err? {
      ghost var i :| 0 <= i < f.count && item(i).Err?;
      assert SlotBroken(i, cameras, uploads);
    } else {
      forall i | 0 <= i < f.count ensures !SlotBroken(i, cameras, uploads) && SlotItem(f, i, cameras, uploads) == Ok(r.value[i]) {
        assert item(i) == Ok(r.value[i]);
      }
    }
  }

  /** The name offered for download ends with this fixed suffix (line 364). */
  const DownloadSuffix: string := "_기성청구양식.pdf"

  /** What the download name is made from (line 359): the address, or the title when
      the address is blank. */
  function DownloadBase(siteAddress: string, mode: Mode): (r: string)
    ensures IsBlank(siteAddress) ==> r == Title(mode)
    ensures !IsBlank(siteAddress) ==> r == siteAddress
  {
    TrimEmptyIffBlank(siteAddress);
    if Trim(siteAddress) != [] then siteAddress else Title(mode)
  }

  /** A legal stem followed by the download suffix. */
  predicate IsDownloadName(r: string)
  {
    |r| > |DownloadSuffix| && r[|r| - |DownloadSuffix|..] == DownloadSuffix
    && Filename.Legal(r[..|r| - |DownloadSuffix|])
  }

  /** Line 364: the suffix appended to a sanitised stem. */
  function WithSuffix(stem: string): (r: string)
    requires stem != [] && Filename.Legal(stem)
    ensures IsDownloadName(r)
    ensures r[..|r| - |DownloadSuffix|] == stem
  {
    var r := stem + DownloadSuffix;
    assert r[..|stem|] == stem;
    assert r[|stem|..] == DownloadSuffix;
    r
  }

  /** The name offered for download (lines 359, 364): the sanitised address, or the
      sanitised title when the address is blank, then the fixed suffix. The stem is
      never empty and free of the characters file systems refuse. */
  function DownloadName(siteAddress: string, mode: Mode, nfkd: string -> string): (r: string)
    ensures IsDownloadName(r)
    ensures r[..|r| - |DownloadSuffix|] == Filename.Sanitize(DownloadBase(siteAddress, mode), nfkd)
  {
    WithSuffix(Filename.Sanitize(DownloadBase(siteAddress, mode), nfkd))
  }

  /** An address that is already a clean file name, and that normalisation leaves alone,
      names the download as it is. */
  lemma DownloadNameKeepsCleanAddress(siteAddress: string, mode: Mode, nfkd: string -> string)
    requires nfkd(siteAddress) == siteAddress
    requires siteAddress != [] && Filename.Legal(siteAddress)
    requires siteAddress[0] !in Whitespace && siteAddress[|siteAddress| - 1] !in Whitespace
    requires siteAddress[0] != '.' && siteAddress[|siteAddress| - 1] != '.'
    ensures DownloadName(siteAddress, mode, nfkd) == siteAddress + DownloadSuffix
  {
    assert !IsBlank(siteAddress);
    Filename.SanitizeKeepsCleanName(siteAddress, nfkd);
  }

  /** The submit handler (lines 331-358) on the label state as the selection loop left
      it: the slots are collected and laid out under the form's title and the address.
      Every slot reaches the grid: the grid has `ceil(count / 3)` rows; its first `count`
      cells are the slots' items rendered in order, each under a non-empty caption; the
      rest are fillers. */
  method SubmitStored(g: Form, siteAddress: string, cameras: map<int, Size>, uploads: map<int, Size>)
    returns (r: Result<Document>)
    requires Valid(g) && Offered(g)
    ensures r.Err? <==> exists i :: 0 <= i < g.count && SlotBroken(i, cameras, uploads)
    ensures r.Ok? ==> r.value.title == Title(g.mode) && r.value.address == AddressText(siteAddress)
    ensures r.Ok? ==> |r.value.grid| == RowsFor(g.count) && r.value.rowHeight == RowHeight(RowsFor(g.count))
    ensures r.Ok? ==> |Flatten(r.value.grid)| == Columns * RowsFor(g.count)
    ensures r.Ok? ==> forall i :: 0 <= i < g.count ==>
              && SlotItem(g, i, cameras, uploads).Ok?
              && Renders(SlotItem(g, i, cameras, uploads).value, Flatten(r.value.grid)[i])
    ensures r.Ok? ==> forall k :: g.count <= k < |Flatten(r.value.grid)| ==> Flatten(r.value.grid)[k] == Filler
    ensures r.Ok? ==> forall i :: 0 <= i < g.count ==>
              && Caption(Flatten(r.value.grid)[i]) == ResolveLabel(g, i)
              && Caption(Flatten(r.value.grid)[i]) != []
              && (Flatten(r.value.grid)[i].ImageCell? <==> i in cameras || i in uploads)
  {
    var collected := CollectItems(g, cameras, uploads);
    if collected.Err? {
      return Err(collected.error);
    }
    var items := collected.value;
    forall i | 0 <= i < |items| ensures !Broken(items[i]) {
      CollectedNotBroken(g, i, cameras, uploads);
    }
    r := BuildPdf(Title(g.mode), siteAddress, items);
    if r.Ok? {
      var cells := Flatten(r.value.grid);
      forall i | 0 <= i < g.count
        ensures Caption(cells[i]) == ResolveLabel(g, i) && Caption(cells[i]) != []
        ensures cells[i].ImageCell? <==> i in cameras || i in uploads
      {
        RenderedCaption(items[i], cells[i]);
        ResolvedLabelNonEmpty(g, i);
      }
    }
  }

  /** The submit button: its press reruns the script, so the selection loop stores every
      drawn slot (lines 287-304) before the handler reads the labels. The document is
      `SubmitStored` of that form, whose captions are therefore never empty. */
  method Submit(f: Form, siteAddress: string, cameras: map<int, Size>, uploads: map<int, Size>)
    returns (r: Result<Document>)
    requires Valid(f)
    ensures r.Err? <==> exists i :: 0 <= i < f.count && SlotBroken(i, cameras, uploads)
    ensures r.Ok? ==> r.value.title == Title(f.mode) && r.value.address == AddressText(siteAddress)
    ensures r.Ok? ==> |r.value.grid| == RowsFor(f.count) && r.value.rowHeight == RowHeight(RowsFor(f.count))
    ensures r.Ok? ==> |Flatten(r.value.grid)| == Columns * RowsFor(f.count)
    ensures r.Ok? ==> forall i :: 0 <= i < f.count ==>
              && SlotItem(Redraw(f), i, cameras, uploads).Ok?
              && Renders(SlotItem(Redraw(f), i, cameras, uploads).value, Flatten(r.value.grid)[i])
    ensures r.Ok? ==> forall k :: f.count <= k < |Flatten(r.value.grid)| ==> Flatten(r.value.grid)[k] == Filler
    ensures r.Ok? ==> forall i :: 0 <= i < f.count ==>
              && Caption(Flatten(r.value.grid)[i]) == ResolveLabel(Redraw(f), i)
              && Caption(Flatten(r.value.grid)[i]) != []
              && (Flatten(r.value.grid)[i].ImageCell? <==> i in cameras || i in uploads)
  {
    RedrawOffers(f);
    r := SubmitStored(Redraw(f), siteAddress, cameras, uploads);
  }
}
