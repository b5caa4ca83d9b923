/*
 * A component's handlers and the reducer and the CSV export together: a
 * session that loads a project, adds a prompt from the scene's button,
 * deletes a prompt and exports.
 */
module EndToEnd {
  import opened Types
  import opened Reducer
  import opened ExportUtils
  import opened SceneComponent

  /** A project of one chapter holding one scene with two prompts. */
  predicate OneSceneTwoPrompts(p: Project)
  {
    |p.video.chapters| == 1 && |p.video.chapters[0].scenes| == 1 && |p.video.chapters[0].scenes[0].prompts| == 2
  }

  /** The rows of a chapter whose only scene holds exactly two prompts. */
  lemma TwoPromptRows(c: Chapter)
    requires |c.scenes| == 1 && |c.scenes[0].prompts| == 2
    ensures ChapterRows([c]) == [RowFor(c, c.scenes[0].prompts[0]), RowFor(c, c.scenes[0].prompts[1])]
  {
    var prompts := c.scenes[0].prompts;
    assert [c][..0] == [] && c.scenes[..0] == [];
    assert ChapterRows([c]) == SceneRows(c, c.scenes);
    assert SceneRows(c, c.scenes) == PromptRows(c, prompts);
    assert prompts[..1][..0] == [];
    assert PromptRows(c, prompts[..1]) == [RowFor(c, prompts[0])];
  }

  /** The export of two rows: the header line and the two rendered rows. */
  lemma ExportOfTwoRows(q: Project)
    requires |Rows(q)| == 2
    ensures ExportAsCSV(q) == Header + "\n" + RenderRow(Rows(q)[0]) + "\n" + RenderRow(Rows(q)[1])
  {
    var first, second := RenderRow(Rows(q)[0]), RenderRow(Rows(q)[1]);
    var lines := [Header] + RenderRows(Rows(q));
    assert lines == [Header] + [first, second];
    JoinCons(Header, [first, second], '\n');
    JoinCons(first, [second], '\n');
  }

  /**
   * Load a project of one chapter, one scene and two prompts, add a prompt
   * with the scene's button, then delete the first prompt: the scene then
   * holds the former second prompt followed by the new one, and the export is
   * the header and exactly those two rows.
   */
  lemma AddThenDeletePrompt(p: Project, today: string)
    requires OneSceneTwoPrompts(p)
    ensures var scene := p.video.chapters[0].scenes[0];
      && var s1 := Reduce(Reduce(ProjectState(None), LoadProject(p)), AddPromptAction(0, 0, scene, today));
      && s1.project.Some?
      && var added := s1.project.value.video.chapters[0].scenes[0].prompts;
      && |added| == 3 && added[..2] == scene.prompts && added[2] == NewPrompt(0, 0, scene, today)
      && Defined(s1, DeletePrompt(0, 0, 0))
      && var q := Reduce(s1, DeletePrompt(0, 0, 0)).project.value;
      && OneSceneTwoPrompts(q)
      && var c := q.video.chapters[0];
      && c == p.video.chapters[0].(scenes := c.scenes)
      && c.scenes[0].prompts == [scene.prompts[1], NewPrompt(0, 0, scene, today)]
      && Rows(q) == [RowFor(c, scene.prompts[1]), RowFor(c, NewPrompt(0, 0, scene, today))]
      && ExportAsCSV(q) == Header + "\n" + RenderRow(Rows(q)[0]) + "\n" + RenderRow(Rows(q)[1])
  {
    var scene := p.video.chapters[0].scenes[0];
    var np := NewPrompt(0, 0, scene, today);
    AddPromptAppends(p, 0, 0, np);
    var s1 := Reduce(Reduce(ProjectState(None), LoadProject(p)), AddPromptAction(0, 0, scene, today));
    DeletePromptShifts(s1.project.value, 0, 0, 0);
    var q := Reduce(s1, DeletePrompt(0, 0, 0)).project.value;
    var c := q.video.chapters[0];
    assert c.scenes[0].prompts == [scene.prompts[1], np];
    assert q.video.chapters == [c];
    TwoPromptRows(c);
    ExportOfTwoRows(q);
  }

  /**
   * New prompts are named by the scene's prompt count, not by a counter: in a
   * scene of two prompts, adding a prompt, deleting the first and adding
   * another gives two prompts with the same file name.
   */
  lemma AddDeleteAddRepeatsFileName(p: Project, today: string, later: string)
    requires OneSceneTwoPrompts(p)
    ensures var s1 := Reduce(ProjectState(Some(p)), AddPromptAction(0, 0, p.video.chapters[0].scenes[0], today));
      && s1.project.Some? && Defined(s1, DeletePrompt(0, 0, 0))
      && var s2 := Reduce(s1, DeletePrompt(0, 0, 0));
      && s2.project.Some? && ValidScene(s2.project.value, 0, 0)
      && var s3 := Reduce(s2, AddPromptAction(0, 0, s2.project.value.video.chapters[0].scenes[0], later));
      && s3.project.Some?
      && var prompts := s3.project.value.video.chapters[0].scenes[0].prompts;
      && |prompts| == 3
      && prompts[1].fileName == prompts[2].fileName == NewPromptFileName(0, 0, 3)
  {
    var scene := p.video.chapters[0].scenes[0];
    AddPromptAppends(p, 0, 0, NewPrompt(0, 0, scene, today));
    var s1 := Reduce(ProjectState(Some(p)), AddPromptAction(0, 0, scene, today));
    DeletePromptShifts(s1.project.value, 0, 0, 0);
    var s2 := Reduce(s1, DeletePrompt(0, 0, 0));
    var scene2 := s2.project.value.video.chapters[0].scenes[0];
    assert scene2.prompts[1] == NewPrompt(0, 0, scene, today);
    AddPromptAppends(s2.project.value, 0, 0, NewPrompt(0, 0, scene2, later));
  }
}
