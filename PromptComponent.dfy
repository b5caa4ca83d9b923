/*
 * src/components/PromptComponent.tsx: editing a prompt's text, and the
 * uploads, approvals and removals of its two image variants. Every image
 * handler dispatches UPDATE_PROMPT with a payload naming one variant only,
 * `{ [imageType]: value }`. The uploaded file is known here by its name; the
 * file's content never reaches the project.
 */
module PromptComponent {
  import opened Types
  import opened Text
  import opened Editing
  import opened Reducer

  /** `'image_a' | 'image_b'` */
  datatype ImageVariant = ImageA | ImageB

  function Other(v: ImageVariant): ImageVariant
  {
    if v == ImageA then ImageB else ImageA
  }

  /** `prompt[imageType]` */
  function Variant(q: Prompt, v: ImageVariant): Option<ImageData>
  {
    if v == ImageA then q.imageA else q.imageB
  }

  /** `{ [imageType]: image }` */
  function ImagePatch(v: ImageVariant, image: Option<ImageData>): PromptPatch
  {
    if v == ImageA then EmptyPromptPatch.(imageA := Set(image)) else EmptyPromptPatch.(imageB := Set(image))
  }

  /**
   * Merging an image payload sets the named variant and nothing else: the
   * other variant and every other property of the prompt are kept.
   */
  lemma ImagePatchSetsOnly(q: Prompt, v: ImageVariant, image: Option<ImageData>)
    ensures var r := MergePrompt(q, ImagePatch(v, image));
      && Variant(r, v) == image
      && Variant(r, Other(v)) == Variant(q, Other(v))
      && r.(imageA := q.imageA, imageB := q.imageB) == q
  {
  }

  /**
   * What `handlePromptSave` dispatches for the typed text `temp`: nothing when
   * it is blank, otherwise an update of the prompt text alone.
   */
  function PromptSaveAction(chapterIndex: nat, sceneIndex: nat, promptIndex: nat, temp: string): (r: Option<Action>)
    ensures r.None? <==> forall k :: 0 <= k < |temp| ==> IsWhitespace(temp[k])
    ensures r.Some? ==> && r.value.UpdatePrompt? && r.value.promptPatch.promptText.Set?
                        && r.value.promptPatch == EmptyPromptPatch.(promptText := r.value.promptPatch.promptText)
  {
    match Committed(temp)
    case None => None
    case Some(text) => Some(UpdatePrompt(chapterIndex, sceneIndex, promptIndex, EmptyPromptPatch.(promptText := Set(text))))
  }

  /** Saving a non-blank prompt text sets it to the trimmed text and changes no other prompt property. */
  lemma PromptSaveSets(p: Project, ci: nat, si: nat, pi: nat, temp: string)
    requires ValidPrompt(p, ci, si, pi) && Committed(temp).Some?
    ensures var a := PromptSaveAction(ci, si, pi, temp).value;
      && Defined(ProjectState(Some(p)), a)
      && var q := Reduce(ProjectState(Some(p)), a).project.value;
      && SameOutline(q, p)
      && PromptAt(q, ci, si, pi) == PromptAt(p, ci, si, pi).(promptText := Trim(temp))
      && Trim(temp) != []
      && forall ci', si', pi' :: ValidPrompt(p, ci', si', pi') && (ci', si', pi') != (ci, si, pi) ==>
           PromptAt(q, ci', si', pi') == PromptAt(p, ci', si', pi')
  {
    var a := PromptSaveAction(ci, si, pi, temp).value;
    UpdatePromptFrame(p, ci, si, pi, a.promptPatch);
  }

  /** `handlePromptEdit` */
  method HandlePromptEdit(editor: TextEditor, prompt: Prompt)
    modifies editor
    ensures editor.isEditing && editor.temp == prompt.promptText
  {
    editor.Edit(prompt.promptText);
  }

  /** `handlePromptSave`: the action it dispatches, if any; editing ends either way. */
  method HandlePromptSave(editor: TextEditor, ci: nat, si: nat, pi: nat) returns (dispatched: Option<Action>)
    modifies editor
    ensures dispatched == PromptSaveAction(ci, si, pi, old(editor.temp))
    ensures !editor.isEditing && editor.temp == old(editor.temp)
  {
    var text := editor.Save();
    if text.Some? {
      dispatched := Some(UpdatePrompt(ci, si, pi, EmptyPromptPatch.(promptText := Set(text.value))));
    } else {
      dispatched := None;
    }
  }

  /** `handlePromptCancel` */
  method HandlePromptCancel(editor: TextEditor)
    modifies editor
    ensures !editor.isEditing && editor.temp == ""
  {
    editor.Cancel();
  }

  /** What `handleImageUpload` dispatches for a file named `fileName`: a new, unapproved image. */
  function UploadAction(ci: nat, si: nat, pi: nat, v: ImageVariant, fileName: string): Action
  {
    UpdatePrompt(ci, si, pi, ImagePatch(v, Some(ImageData("uploads/" + fileName, false))))
  }

  /**
   * What `handleImageApproval` dispatches: the variant's image with only its
   * `approved` flag replaced, or nothing when the prompt has no such image.
   */
  function ApprovalAction(ci: nat, si: nat, pi: nat, prompt: Prompt, v: ImageVariant, approved: bool): (r: Option<Action>)
    ensures r.None? <==> Variant(prompt, v).None?
  {
    match Variant(prompt, v)
    case None => None
    case Some(image) => Some(UpdatePrompt(ci, si, pi, ImagePatch(v, Some(image.(approved := approved)))))
  }

  /**
   * The approve button, shown only beside an existing image: it asks for the
   * opposite of the image's current approval.
   */
  function ApproveButtonAction(ci: nat, si: nat, pi: nat, prompt: Prompt, v: ImageVariant): Option<Action>
  {
    match Variant(prompt, v)
    case None => None
    case Some(image) => ApprovalAction(ci, si, pi, prompt, v, !image.approved)
  }

  /** What `handleImageRemove` dispatches: the variant set to `undefined`. */
  function RemoveAction(ci: nat, si: nat, pi: nat, v: ImageVariant): Action
  {
    UpdatePrompt(ci, si, pi, ImagePatch(v, None))
  }

  /**
   * An upload sets the chosen variant to an unapproved image at
   * `uploads/<file name>`; the other variant, the prompt's other properties
   * and every other prompt are unchanged.
   */
  lemma UploadSetsVariant(p: Project, ci: nat, si: nat, pi: nat, v: ImageVariant, fileName: string)
    requires ValidPrompt(p, ci, si, pi)
    ensures var a := UploadAction(ci, si, pi, v, fileName);
      && Defined(ProjectState(Some(p)), a)
      && var q := Reduce(ProjectState(Some(p)), a).project.value;
      && var before, after := PromptAt(p, ci, si, pi), PromptAt(q, ci, si, pi);
      && SameOutline(q, p)
      && Variant(after, v) == Some(ImageData("uploads/" + fileName, false))
      && Variant(after, Other(v)) == Variant(before, Other(v))
      && after.(imageA := before.imageA, imageB := before.imageB) == before
      && forall ci', si', pi' :: ValidPrompt(p, ci', si', pi') && (ci', si', pi') != (ci, si, pi) ==>
           PromptAt(q, ci', si', pi') == PromptAt(p, ci', si', pi')
  {
    var patch := ImagePatch(v, Some(ImageData("uploads/" + fileName, false)));
    UpdatePromptFrame(p, ci, si, pi, patch);
    ImagePatchSetsOnly(PromptAt(p, ci, si, pi), v, Some(ImageData("uploads/" + fileName, false)));
  }

  /**
   * Setting the approval of an existing image replaces its `approved` flag by
   * the one given and keeps its path; the other variant, the prompt's other
   * properties and every other prompt are unchanged.
   */
  lemma ApprovalSetsFlag(p: Project, ci: nat, si: nat, pi: nat, v: ImageVariant, approved: bool)
    requires ValidPrompt(p, ci, si, pi) && Variant(PromptAt(p, ci, si, pi), v).Some?
    ensures var before := PromptAt(p, ci, si, pi);
      && var image := Variant(before, v).value;
      && var a := ApprovalAction(ci, si, pi, before, v, approved);
      && a.Some? && Defined(ProjectState(Some(p)), a.value)
      && var q := Reduce(ProjectState(Some(p)), a.value).project.value;
      && var after := PromptAt(q, ci, si, pi);
      && SameOutline(q, p)
      && Variant(after, v) == Some(ImageData(image.path, approved))
      && Variant(after, Other(v)) == Variant(before, Other(v))
      && after.(imageA := before.imageA, imageB := before.imageB) == before
      && forall ci', si', pi' :: ValidPrompt(p, ci', si', pi') && (ci', si', pi') != (ci, si, pi) ==>
           PromptAt(q, ci', si', pi') == PromptAt(p, ci', si', pi')
  {
    var before := PromptAt(p, ci, si, pi);
    var image := Variant(before, v).value;
    var patch := ImagePatch(v, Some(image.(approved := approved)));
    UpdatePromptFrame(p, ci, si, pi, patch);
    ImagePatchSetsOnly(before, v, Some(image.(approved := approved)));
  }

  /**
   * The approve button flips the image's approval and keeps its path; the
   * other variant and the prompt's other properties are unchanged.
   */
  lemma ApproveButtonFlips(p: Project, ci: nat, si: nat, pi: nat, v: ImageVariant)
    requires ValidPrompt(p, ci, si, pi) && Variant(PromptAt(p, ci, si, pi), v).Some?
    ensures var before := PromptAt(p, ci, si, pi);
      && var image := Variant(before, v).value;
      && var a := ApproveButtonAction(ci, si, pi, before, v);
      && a.Some? && Defined(ProjectState(Some(p)), a.value)
      && var q := Reduce(ProjectState(Some(p)), a.value).project.value;
      && var after := PromptAt(q, ci, si, pi);
      && SameOutline(q, p)
      && Variant(after, v) == Some(ImageData(image.path, !image.approved))
      && Variant(after, Other(v)) == Variant(before, Other(v))
      && after.(imageA := before.imageA, imageB := before.imageB) == before
      && forall ci', si', pi' :: ValidPrompt(p, ci', si', pi') && (ci', si', pi') != (ci, si, pi) ==>
           PromptAt(q, ci', si', pi') == PromptAt(p, ci', si', pi')
  {
    var image := Variant(PromptAt(p, ci, si, pi), v).value;
    ApprovalSetsFlag(p, ci, si, pi, v, !image.approved);
  }

  /** Pressing the approve button twice gives back the state it started from. */
  lemma ApproveTwiceRestores(p: Project, ci: nat, si: nat, pi: nat, v: ImageVariant)
    requires ValidPrompt(p, ci, si, pi) && Variant(PromptAt(p, ci, si, pi), v).Some?
    ensures var s0 := ProjectState(Some(p));
      && var a1 := ApproveButtonAction(ci, si, pi, PromptAt(p, ci, si, pi), v);
      && a1.Some? && Defined(s0, a1.value)
      && var s1 := Reduce(s0, a1.value);
      && s1.project.Some? && ValidPrompt(s1.project.value, ci, si, pi)
      && var a2 := ApproveButtonAction(ci, si, pi, PromptAt(s1.project.value, ci, si, pi), v);
      && a2.Some? && Defined(s1, a2.value)
      && Reduce(s1, a2.value) == s0
  {
    var q := PromptAt(p, ci, si, pi);
    var image := Variant(q, v).value;
    var first := ImagePatch(v, Some(image.(approved := !image.approved)));
    ApproveButtonFlips(p, ci, si, pi, v);
    var s1 := Reduce(ProjectState(Some(p)), UpdatePrompt(ci, si, pi, first));
    var q1 := PromptAt(s1.project.value, ci, si, pi);
    var second := ImagePatch(v, Some(image));
    assert Variant(q1, v).value.(approved := !Variant(q1, v).value.approved) == image;
    UpdatePromptTwice(p, ci, si, pi, first, second);
    UpdatePromptUnchanged(p, ci, si, pi, ThenPrompt(first, second));
  }

  /**
   * Removing sets the chosen variant to absent and keeps everything else;
   * removing it again changes nothing.
   */
  lemma RemoveClears(p: Project, ci: nat, si: nat, pi: nat, v: ImageVariant)
    requires ValidPrompt(p, ci, si, pi)
    ensures var a := RemoveAction(ci, si, pi, v);
      && Defined(ProjectState(Some(p)), a)
      && var s1 := Reduce(ProjectState(Some(p)), a);
      && var before, after := PromptAt(p, ci, si, pi), PromptAt(s1.project.value, ci, si, pi);
      && SameOutline(s1.project.value, p)
      && Variant(after, v).None?
      && Variant(after, Other(v)) == Variant(before, Other(v))
      && after.(imageA := before.imageA, imageB := before.imageB) == before
      && (forall ci', si', pi' :: ValidPrompt(p, ci', si', pi') && (ci', si', pi') != (ci, si, pi) ==>
            PromptAt(s1.project.value, ci', si', pi') == PromptAt(p, ci', si', pi'))
      && Defined(s1, a) && Reduce(s1, a) == s1
  {
    var patch := ImagePatch(v, None);
    UpdatePromptFrame(p, ci, si, pi, patch);
    ImagePatchSetsOnly(PromptAt(p, ci, si, pi), v, None);
    var s1 := Reduce(ProjectState(Some(p)), RemoveAction(ci, si, pi, v));
    UpdatePromptUnchanged(s1.project.value, ci, si, pi, patch);
  }
}
