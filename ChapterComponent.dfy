/*
 * src/components/ChapterComponent.tsx: renaming a chapter (which also
 * renames its file) and adding a scene to it. What a handler dispatches is an
 * `Action` of the reducer; the component's `updateChapter` and `addScene`
 * are the provider's one-line wrappers around `dispatch`.
 */
module ChapterComponent {
  import opened Types
  import opened Text
  import opened Editing
  import opened Reducer

  /** `${chapterIndex + 1}-${fileNameSlug}` */
  function ChapterFileName(chapterIndex: nat, title: string): string
  {
    NatToString(chapterIndex + 1) + "-" + Slug(title)
  }

  /**
   * A chapter file name is itself a slug: the chapter's position counted from
   * 1 in decimal, a `-`, then the slug of the title.
   */
  lemma ChapterFileNameParts(chapterIndex: nat, title: string)
    ensures var f, d := ChapterFileName(chapterIndex, title), NatToString(chapterIndex + 1);
      && IsSlug(f)
      && |d| < |f| && f[|d|] == '-' && f[|d| + 1..] == Slug(title)
      && (forall k :: 0 <= k < |d| ==> IsDigit(f[k]))
      && DigitsValue(f[..|d|]) == chapterIndex + 1
  {
    var f, d := ChapterFileName(chapterIndex, title), NatToString(chapterIndex + 1);
    NatToStringRoundTrip(chapterIndex + 1);
    SlugContents(title);
    assert f[..|d|] == d;
    assert f[|d| + 1..] == Slug(title);
  }

  /**
   * Chapters at different positions get different file names, whatever their
   * titles; at the same position, titles with the same slug share a file name.
   */
  lemma ChapterFileNameInjective(i: nat, j: nat, title: string, title': string)
    ensures ChapterFileName(i, title) == ChapterFileName(j, title') <==> i == j && Slug(title) == Slug(title')
  {
    if ChapterFileName(i, title) == ChapterFileName(j, title') {
      NumberedInjective(i + 1, j + 1, Slug(title), Slug(title'));
    }
  }

  /**
   * What `handleTitleSave` dispatches for the typed text `temp`: nothing when
   * it is blank, otherwise an update of this chapter's title and file name
   * that leaves its style and scenes alone.
   */
  function TitleSaveAction(chapterIndex: nat, temp: string): (r: Option<Action>)
    ensures r.None? <==> forall k :: 0 <= k < |temp| ==> IsWhitespace(temp[k])
    ensures r.Some? ==> && r.value.UpdateChapter? && r.value.index == chapterIndex
                        && r.value.chapterPatch.style.Keep? && r.value.chapterPatch.scenes.Keep?
  {
    match Committed(temp)
    case None => None
    case Some(title) =>
      Some(UpdateChapter(chapterIndex, ChapterPatch(Set(title), Set(ChapterFileName(chapterIndex, title)), Keep, Keep)))
  }

  /**
   * Saving a non-blank title renames the chapter to the trimmed text and its
   * file to the position-and-slug name; the chapter keeps its style and
   * scenes, and every other chapter and the video are unchanged.
   */
  lemma TitleSaveRenames(p: Project, chapterIndex: nat, temp: string)
    requires ValidChapter(p, chapterIndex) && Committed(temp).Some?
    ensures var a := TitleSaveAction(chapterIndex, temp).value;
      && Defined(ProjectState(Some(p)), a)
      && var q := Reduce(ProjectState(Some(p)), a).project.value;
      && var c, c' := p.video.chapters[chapterIndex], q.video.chapters[chapterIndex];
      && |q.video.chapters| == |p.video.chapters|
      && c'.chapterTitle == Trim(temp) && c'.chapterTitle != []
      && c'.chapterFileName == ChapterFileName(chapterIndex, Trim(temp))
      && c'.style == c.style && c'.scenes == c.scenes
      && q.video == p.video.(chapters := q.video.chapters)
      && forall j :: 0 <= j < |p.video.chapters| && j != chapterIndex ==> q.video.chapters[j] == p.video.chapters[j]
  {
    var a := TitleSaveAction(chapterIndex, temp).value;
    UpdateChapterFrame(p, chapterIndex, a.chapterPatch);
  }

  /** `handleTitleEdit` */
  method HandleTitleEdit(editor: TextEditor, chapter: Chapter)
    modifies editor
    ensures editor.isEditing && editor.temp == chapter.chapterTitle
  {
    editor.Edit(chapter.chapterTitle);
  }

  /** `handleTitleSave`: the action it dispatches, if any; editing ends either way. */
  method HandleTitleSave(editor: TextEditor, chapterIndex: nat) returns (dispatched: Option<Action>)
    modifies editor
    ensures dispatched == TitleSaveAction(chapterIndex, old(editor.temp))
    ensures !editor.isEditing && editor.temp == old(editor.temp)
  {
    var title := editor.Save();
    if title.Some? {
      dispatched := Some(UpdateChapter(chapterIndex,
        ChapterPatch(Set(title.value), Set(ChapterFileName(chapterIndex, title.value)), Keep, Keep)));
    } else {
      dispatched := None;
    }
  }

  /** `handleTitleCancel` */
  method HandleTitleCancel(editor: TextEditor)
    modifies editor
    ensures !editor.isEditing && editor.temp == ""
  {
    editor.Cancel();
  }

  /** The `newScene` of `handleAddScene`. */
  function NewScene(chapter: Chapter): Scene
  {
    var number := |chapter.scenes| + 1;
    Scene(number, "Scene " + NatToString(number), Some(OrEmpty(chapter.style)), [])
  }

  /** What `handleAddScene` dispatches. */
  function AddSceneAction(chapterIndex: nat, chapter: Chapter): Action
  {
    AddScene(chapterIndex, NewScene(chapter))
  }

  /** Scenes numbered 1, 2, 3, ... in order. */
  predicate Numbered(scenes: seq<Scene>)
  {
    forall j :: 0 <= j < |scenes| ==> scenes[j].sceneNumber == j + 1
  }

  /**
   * Adding a scene appends an empty scene whose number is the new scene
   * count, described as `Scene <number>`, with the chapter's style or `''`;
   * scenes numbered 1, 2, 3, ... stay numbered so.
   */
  lemma AddSceneNumbers(p: Project, chapterIndex: nat)
    requires ValidChapter(p, chapterIndex)
    ensures var chapter := p.video.chapters[chapterIndex];
      && Defined(ProjectState(Some(p)), AddSceneAction(chapterIndex, chapter))
      && var q := Reduce(ProjectState(Some(p)), AddSceneAction(chapterIndex, chapter)).project.value;
      && var scenes := q.video.chapters[chapterIndex].scenes;
      && var last := scenes[|scenes| - 1];
      && |scenes| == |chapter.scenes| + 1
      && last.sceneNumber == |scenes|
      && last.sceneDescription == "Scene " + NatToString(|scenes|)
      && last.style == Some(OrEmpty(chapter.style)) && last.prompts == []
      && (Numbered(chapter.scenes) ==> Numbered(scenes))
  {
    var chapter := p.video.chapters[chapterIndex];
    AddSceneAppends(p, chapterIndex, NewScene(chapter));
  }

  /**
   * Scene numbers are not renumbered on delete: deleting the first of scenes
   * numbered 1, 2, 3 and adding a scene gives two scenes numbered 3.
   */
  lemma DeleteThenAddRepeatsNumber(p: Project, chapterIndex: nat)
    requires ValidChapter(p, chapterIndex)
    requires var scenes := p.video.chapters[chapterIndex].scenes; |scenes| >= 2 && Numbered(scenes)
    ensures var s1 := Reduce(ProjectState(Some(p)), DeleteScene(chapterIndex, 0));
      && s1.project.Some? && ValidChapter(s1.project.value, chapterIndex)
      && var chapter := s1.project.value.video.chapters[chapterIndex];
      && var scenes := Reduce(s1, AddSceneAction(chapterIndex, chapter)).project.value.video.chapters[chapterIndex].scenes;
      && |scenes| == |p.video.chapters[chapterIndex].scenes|
      && scenes[|scenes| - 2].sceneNumber == scenes[|scenes| - 1].sceneNumber
  {
    var before := p.video.chapters[chapterIndex].scenes;
    DeleteSceneShifts(p, chapterIndex, 0);
    var s1 := Reduce(ProjectState(Some(p)), DeleteScene(chapterIndex, 0));
    var chapter := s1.project.value.video.chapters[chapterIndex];
    assert chapter.scenes[|chapter.scenes| - 1] == before[|before| - 1];
    AddSceneAppends(s1.project.value, chapterIndex, NewScene(chapter));
  }
}
