/*
 * src/components/SceneComponent.tsx: editing a scene's description and adding
 * a prompt to the scene. The prompt's `created_at` is today's date, read from
 * the clock; it is a parameter here.
 */
module SceneComponent {
  import opened Types
  import opened Text
  import opened Editing
  import opened Reducer
  import opened ExportUtils

  /**
   * What `handleDescriptionSave` dispatches for the typed text `temp`: nothing
   * when it is blank, otherwise an update of this scene's description alone.
   */
  function DescriptionSaveAction(chapterIndex: nat, sceneIndex: nat, temp: string): (r: Option<Action>)
    ensures r.None? <==> forall k :: 0 <= k < |temp| ==> IsWhitespace(temp[k])
    ensures r.Some? ==> r.value.UpdateScene? && r.value.chapterIndex == chapterIndex && r.value.sceneIndex == sceneIndex
  {
    match Committed(temp)
    case None => None
    case Some(text) => Some(UpdateScene(chapterIndex, sceneIndex, ScenePatch(Keep, Set(text), Keep, Keep)))
  }

  /**
   * Saving a non-blank description sets it to the trimmed text; the scene
   * keeps its number, style and prompts, and every other scene is unchanged.
   */
  lemma DescriptionSaveSets(p: Project, chapterIndex: nat, sceneIndex: nat, temp: string)
    requires ValidScene(p, chapterIndex, sceneIndex) && Committed(temp).Some?
    ensures var a := DescriptionSaveAction(chapterIndex, sceneIndex, temp).value;
      && Defined(ProjectState(Some(p)), a)
      && var q := Reduce(ProjectState(Some(p)), a).project.value;
      && var s := p.video.chapters[chapterIndex].scenes[sceneIndex];
      && var scenes := q.video.chapters[chapterIndex].scenes;
      && |scenes| == |p.video.chapters[chapterIndex].scenes|
      && scenes[sceneIndex] == s.(sceneDescription := Trim(temp))
      && Trim(temp) != []
      && forall j :: 0 <= j < |scenes| && j != sceneIndex ==> scenes[j] == p.video.chapters[chapterIndex].scenes[j]
  {
    var a := DescriptionSaveAction(chapterIndex, sceneIndex, temp).value;
    UpdateSceneFrame(p, chapterIndex, sceneIndex, a.scenePatch);
  }

  /** `handleDescriptionEdit` */
  method HandleDescriptionEdit(editor: TextEditor, scene: Scene)
    modifies editor
    ensures editor.isEditing && editor.temp == scene.sceneDescription
  {
    editor.Edit(scene.sceneDescription);
  }

  /** `handleDescriptionSave`: the action it dispatches, if any; editing ends either way. */
  method HandleDescriptionSave(editor: TextEditor, chapterIndex: nat, sceneIndex: nat) returns (dispatched: Option<Action>)
    modifies editor
    ensures dispatched == DescriptionSaveAction(chapterIndex, sceneIndex, old(editor.temp))
    ensures !editor.isEditing && editor.temp == old(editor.temp)
  {
    var text := editor.Save();
    if text.Some? {
      dispatched := Some(UpdateScene(chapterIndex, sceneIndex, ScenePatch(Keep, Set(text.value), Keep, Keep)));
    } else {
      dispatched := None;
    }
  }

  /** `handleDescriptionCancel` */
  method HandleDescriptionCancel(editor: TextEditor)
    modifies editor
    ensures !editor.isEditing && editor.temp == ""
  {
    editor.Cancel();
  }

  /** `${chapterIndex + 1}-${sceneIndex + 1}-${position}-new-prompt` */
  function NewPromptFileName(chapterIndex: nat, sceneIndex: nat, position: nat): string
  {
    NatToString(chapterIndex + 1) + "-" + (NatToString(sceneIndex + 1) + "-" + (NatToString(position) + "-" + "new-prompt"))
  }

  /** The chapter, scene and position numbers can be read back from a new prompt's file name. */
  lemma NewPromptFileNameInjective(ci: nat, si: nat, n: nat, ci': nat, si': nat, n': nat)
    ensures NewPromptFileName(ci, si, n) == NewPromptFileName(ci', si', n') <==> ci == ci' && si == si' && n == n'
  {
    if NewPromptFileName(ci, si, n) == NewPromptFileName(ci', si', n') {
      NumberedInjective(ci + 1, ci' + 1, NatToString(si + 1) + "-" + (NatToString(n) + "-" + "new-prompt"),
                        NatToString(si' + 1) + "-" + (NatToString(n') + "-" + "new-prompt"));
      NumberedInjective(si + 1, si' + 1, NatToString(n) + "-" + "new-prompt", NatToString(n') + "-" + "new-prompt");
      NumberedInjective(n, n', "new-prompt", "new-prompt");
    }
  }

  /** The `newPrompt` of `handleAddPrompt`, created on the day `today`. */
  function NewPrompt(chapterIndex: nat, sceneIndex: nat, scene: Scene, today: string): Prompt
  {
    Prompt(
      promptText := "New prompt description...",
      imageSize := Some("1024x1024"),
      aspectRatio := Some("1:1"),
      seed := None,
      approvalStatus := Some(1),
      fileName := NewPromptFileName(chapterIndex, sceneIndex, |scene.prompts| + 1),
      createdAt := Some(today),
      imageA := None,
      imageB := None)
  }

  /** What `handleAddPrompt` dispatches. */
  function AddPromptAction(chapterIndex: nat, sceneIndex: nat, scene: Scene, today: string): Action
  {
    AddPrompt(chapterIndex, sceneIndex, NewPrompt(chapterIndex, sceneIndex, scene, today))
  }

  /**
   * Adding a prompt appends it as the scene's last prompt; its file name
   * carries the chapter's and the scene's positions and its own, all counted
   * from 1.
   */
  lemma AddPromptAppendsNew(p: Project, chapterIndex: nat, sceneIndex: nat, today: string)
    requires ValidScene(p, chapterIndex, sceneIndex)
    ensures var scene := p.video.chapters[chapterIndex].scenes[sceneIndex];
      && var a := AddPromptAction(chapterIndex, sceneIndex, scene, today);
      && Defined(ProjectState(Some(p)), a)
      && var q := Reduce(ProjectState(Some(p)), a).project.value;
      && var prompts := q.video.chapters[chapterIndex].scenes[sceneIndex].prompts;
      && |prompts| == |scene.prompts| + 1
      && prompts[..|scene.prompts|] == scene.prompts
      && prompts[|prompts| - 1] == NewPrompt(chapterIndex, sceneIndex, scene, today)
      && prompts[|prompts| - 1].fileName == NewPromptFileName(chapterIndex, sceneIndex, |prompts|)
  {
    var scene := p.video.chapters[chapterIndex].scenes[sceneIndex];
    AddPromptAppends(p, chapterIndex, sceneIndex, NewPrompt(chapterIndex, sceneIndex, scene, today));
  }

  /**
   * A freshly added prompt exports with approval 1, the size '1024x1024' and
   * so the style 'vivid', one image, and no seed.
   */
  lemma NewPromptRow(chapter: Chapter, chapterIndex: nat, sceneIndex: nat, scene: Scene, today: string)
    ensures var row := RowFor(chapter, NewPrompt(chapterIndex, sceneIndex, scene, today));
      && row.a == 1 && row.style == Some("vivid") && row.size == Some("1024x1024")
      && row.n == Some(1) && SeedText(row.seed) == ""
      && row.category == chapter.chapterFileName
      && row.filename == NewPromptFileName(chapterIndex, sceneIndex, |scene.prompts| + 1)
  {
    RowForFields(chapter, NewPrompt(chapterIndex, sceneIndex, scene, today));
  }
}
