/*
 * src/components/VideoComponent.tsx: editing the video's title and adding a
 * chapter. The component renders nothing, and so offers none of these
 * handlers, while no project is loaded.
 */
module VideoComponent {
  import opened Types
  import opened Text
  import opened Editing
  import opened Reducer
  import opened ExportUtils
  import opened ChapterComponent

  /**
   * What `handleTitleSave` dispatches for the typed text `temp`: nothing when
   * it is blank, otherwise an update of the title alone.
   */
  function TitleSaveAction(temp: string): (r: Option<Action>)
    ensures r.None? <==> forall k :: 0 <= k < |temp| ==> IsWhitespace(temp[k])
    ensures r.Some? ==> && r.value.UpdateVideo? && r.value.videoPatch.title.Set?
                        && r.value.videoPatch == EmptyVideoPatch.(title := r.value.videoPatch.title)
  {
    match Committed(temp)
    case None => None
    case Some(title) => Some(UpdateVideo(EmptyVideoPatch.(title := Set(title))))
  }

  /**
   * Saving a non-blank title sets the video title to the trimmed text and
   * changes nothing else; the title stays non-empty, so the project's JSON
   * still passes the import check.
   */
  lemma TitleSaveKeepsImportable(p: Project, temp: string)
    requires Committed(temp).Some?
    ensures var a := TitleSaveAction(temp).value;
      && Defined(ProjectState(Some(p)), a)
      && var q := Reduce(ProjectState(Some(p)), a).project.value;
      && q.video == p.video.(title := Trim(temp))
      && ParseJSONProject(Some(ProjectToJson(q))) == Some(ProjectToJson(q))
  {
    var a := TitleSaveAction(temp).value;
    UpdateVideoMerges(p, a.videoPatch);
    var q := Reduce(ProjectState(Some(p)), a).project.value;
    ExportedJsonImports(q);
  }

  /** `handleTitleEdit` */
  method HandleTitleEdit(editor: TextEditor, video: Video)
    modifies editor
    ensures editor.isEditing && editor.temp == video.title
  {
    editor.Edit(video.title);
  }

  /** `handleTitleSave`: the action it dispatches, if any; editing ends either way. */
  method HandleTitleSave(editor: TextEditor) returns (dispatched: Option<Action>)
    modifies editor
    ensures dispatched == TitleSaveAction(old(editor.temp))
    ensures !editor.isEditing && editor.temp == old(editor.temp)
  {
    var title := editor.Save();
    if title.Some? {
      dispatched := Some(UpdateVideo(EmptyVideoPatch.(title := Set(title.value))));
    } else {
      dispatched := None;
    }
  }

  /** `handleTitleCancel` */
  method HandleTitleCancel(editor: TextEditor)
    modifies editor
    ensures !editor.isEditing && editor.temp == ""
  {
    editor.Cancel();
  }

  /** The `newChapter` of `handleAddChapter`. */
  function NewChapter(video: Video): Chapter
  {
    var number := |video.chapters| + 1;
    Chapter("Chapter " + NatToString(number), NatToString(number) + "-" + "new-chapter",
            Some(OrEmpty(video.style)), [])
  }

  /** What `handleAddChapter` dispatches. */
  function AddChapterAction(video: Video): Action
  {
    AddChapter(NewChapter(video))
  }

  /**
   * Adding a chapter appends an empty chapter titled `Chapter <n>`, where n is
   * the new chapter count, with the video's style or `''`. Its file name is
   * the one renaming it to "New Chapter" would give: position, `-`, slug.
   */
  lemma AddChapterAppendsNew(p: Project)
    ensures var a := AddChapterAction(p.video);
      && Defined(ProjectState(Some(p)), a)
      && var chapters := Reduce(ProjectState(Some(p)), a).project.value.video.chapters;
      && var n := |chapters|;
      && var last := chapters[n - 1];
      && n == |p.video.chapters| + 1 && chapters[..n - 1] == p.video.chapters
      && last.chapterTitle == "Chapter " + NatToString(n)
      && last.chapterFileName == ChapterFileName(n - 1, "New Chapter")
      && last.style == Some(OrEmpty(p.video.style)) && last.scenes == []
  {
    AddChapterAppends(p, NewChapter(p.video));
    NewChapterSlug();
  }

  /**
   * The file-name part `new-chapter` is the slug of the title "New Chapter":
   * lower-cased, its one space turned into `-`. It is its own slug too.
   */
  lemma NewChapterSlug()
    ensures Slug("New Chapter") == "new-chapter"
    ensures Slug("new-chapter") == "new-chapter"
  {
    NewChapterLower();
    NewChapterWords();
    DashForWhitespaceRun("new", " ", "chapter");
    DashForWhitespaceOfPlain("new");
    DashForWhitespaceOfPlain("chapter");
    KeepSlugCharsOfSlug("new-chapter");
    SlugOfSlug("new-chapter");
  }

  lemma NewChapterLower()
    ensures ToLower("New Chapter") == "new" + " " + "chapter"
  {
    var lower := ToLower("New Chapter");
    forall k | 0 <= k < 11 ensures lower[k] == ("new" + " " + "chapter")[k] {
    }
  }

  lemma NewChapterWords()
    ensures NoWhitespace("new") && NoWhitespace("chapter")
    ensures IsSlug("new-chapter") && "new" + "-" + "chapter" == "new-chapter"
  {
    forall k | 0 <= k < 11 ensures IsSlugChar("new-chapter"[k]) {
    }
  }
}
