/*
 * `projectReducer` of src/context/reducer.ts with the action union of
 * src/context/types.ts. The state holds at most one project; every action but
 * LOAD_PROJECT leaves a state without a project as it is. Nodes are addressed
 * by index paths only: an update merges a payload into the node at the path,
 * an add appends to the addressed child sequence, a delete keeps every child
 * whose position differs from the given index (`Array.prototype.filter`).
 *
 * Where the source dereferences `chapters[ci]` or `scenes[si]` (and where it
 * assigns `updated[i] = ...` for an update) an index outside the sequence
 * makes the source throw or write past the end of the array; `Defined` makes
 * those indices a precondition. A delete index is never dereferenced, so any
 * integer is accepted there.
 */
module Reducer {
  import opened Types

  datatype ProjectState = ProjectState(project: Option<Project>)

  datatype Action =
    | LoadProject(payload: Project)
    | UpdateVideo(videoPatch: VideoPatch)
    | AddChapter(chapter: Chapter)
    | UpdateChapter(index: int, chapterPatch: ChapterPatch)
    | DeleteChapter(deleteIndex: int)
    | AddScene(chapterIndex: int, scene: Scene)
    | UpdateScene(chapterIndex: int, sceneIndex: int, scenePatch: ScenePatch)
    | DeleteScene(chapterIndex: int, sceneIndex: int)
    | AddPrompt(chapterIndex: int, sceneIndex: int, prompt: Prompt)
    | UpdatePrompt(chapterIndex: int, sceneIndex: int, promptIndex: int, promptPatch: PromptPatch)
    | DeletePrompt(chapterIndex: int, sceneIndex: int, promptIndex: int)
      /** Any other `type`: the `default` branch. */
    | Unrecognised(actionType: string)

  predicate ValidChapter(p: Project, ci: int)
  {
    0 <= ci < |p.video.chapters|
  }

  predicate ValidScene(p: Project, ci: int, si: int)
  {
    ValidChapter(p, ci) && 0 <= si < |p.video.chapters[ci].scenes|
  }

  predicate ValidPrompt(p: Project, ci: int, si: int, pi: int)
  {
    ValidScene(p, ci, si) && 0 <= pi < |p.video.chapters[ci].scenes[si].prompts|
  }

  /** The index paths the reducer dereferences exist. */
  predicate Defined(s: ProjectState, a: Action)
  {
    s.project.None? ||
    var p := s.project.value;
    match a
    case UpdateChapter(i, _) => ValidChapter(p, i)
    case AddScene(ci, _) => ValidChapter(p, ci)
    case UpdateScene(ci, si, _) => ValidScene(p, ci, si)
    case DeleteScene(ci, _) => ValidChapter(p, ci)
    case AddPrompt(ci, si, _) => ValidScene(p, ci, si)
    case UpdatePrompt(ci, si, pi, _) => ValidPrompt(p, ci, si, pi)
    case DeletePrompt(ci, si, _) => ValidScene(p, ci, si)
    case _ => true
  }

  /** `s.filter((_, index) => index !== i)` */
  function Filtered<T>(s: seq<T>, i: int): seq<T>
    decreases |s|
  {
    if s == [] then []
    else
      var last := |s| - 1;
      Filtered(s[..last], i) + (if last == i then [] else [s[last]])
  }

  /**
   * Filtering out position `i` removes exactly the element at `i` when there is
   * one, and removes nothing otherwise.
   */
  lemma {:induction false} FilteredRemovesAt<T>(s: seq<T>, i: int)
    ensures Filtered(s, i) == if 0 <= i < |s| then s[..i] + s[i + 1..] else s
    decreases |s|
  {
    if s != [] {
      var last := |s| - 1;
      FilteredRemovesAt(s[..last], i);
      if i == last {
        assert s[..i] + s[i + 1..] == s[..last];
      } else if 0 <= i < last {
        assert s[..last][..i] == s[..i];
        assert s[..last][i + 1..] + [s[last]] == s[i + 1..];
      } else {
        assert s[..last] + [s[last]] == s;
      }
    }
  }

  /** Positions before `i` keep their element; positions from `i` on hold their right neighbour's. */
  lemma FilteredShifts<T>(s: seq<T>, i: int)
    ensures 0 <= i < |s| ==> |Filtered(s, i)| == |s| - 1
    ensures !(0 <= i < |s|) ==> Filtered(s, i) == s
    ensures forall j {:trigger Filtered(s, i)[j]} :: 0 <= j < |Filtered(s, i)| ==>
              Filtered(s, i)[j] == if 0 <= i <= j then s[j + 1] else s[j]
  {
    FilteredRemovesAt(s, i);
  }

  function WithScenes(c: Chapter, scenes: seq<Scene>): Chapter
  {
    c.(scenes := scenes)
  }

  function WithPrompts(s: Scene, prompts: seq<Prompt>): Scene
  {
    s.(prompts := prompts)
  }

  /** The video after an action other than LOAD_PROJECT, on a loaded project. */
  function NextVideo(p: Project, a: Action): Video
    requires Defined(ProjectState(Some(p)), a)
  {
    var v := p.video;
    var chapters := v.chapters;
    match a
    case LoadProject(_) => v
    case Unrecognised(_) => v
    case UpdateVideo(patch) => MergeVideo(v, patch)
    case AddChapter(c) => v.(chapters := chapters + [c])
    case UpdateChapter(i, patch) =>
      v.(chapters := chapters[i := MergeChapter(chapters[i], patch)])
    case DeleteChapter(i) => v.(chapters := Filtered(chapters, i))
    case AddScene(ci, scene) =>
      var c := chapters[ci];
      v.(chapters := chapters[ci := WithScenes(c, c.scenes + [scene])])
    case UpdateScene(ci, si, patch) =>
      var c := chapters[ci];
      v.(chapters := chapters[ci := WithScenes(c, c.scenes[si := MergeScene(c.scenes[si], patch)])])
    case DeleteScene(ci, si) =>
      var c := chapters[ci];
      v.(chapters := chapters[ci := WithScenes(c, Filtered(c.scenes, si))])
    case AddPrompt(ci, si, prompt) =>
      var c := chapters[ci];
      var s := c.scenes[si];
      v.(chapters := chapters[ci := WithScenes(c, c.scenes[si := WithPrompts(s, s.prompts + [prompt])])])
    case UpdatePrompt(ci, si, pi, patch) =>
      var c := chapters[ci];
      var s := c.scenes[si];
      var q := MergePrompt(s.prompts[pi], patch);
      v.(chapters := chapters[ci := WithScenes(c, c.scenes[si := WithPrompts(s, s.prompts[pi := q])])])
    case DeletePrompt(ci, si, pi) =>
      var c := chapters[ci];
      var s := c.scenes[si];
      v.(chapters := chapters[ci := WithScenes(c, c.scenes[si := WithPrompts(s, Filtered(s.prompts, pi))])])
  }

  /** `projectReducer(state, action)` */
  function Reduce(s: ProjectState, a: Action): ProjectState
    requires Defined(s, a)
  {
    match a
    case LoadProject(p) => ProjectState(Some(p))
    case Unrecognised(_) => s
    case _ =>
      if s.project.None? then s
      else ProjectState(Some(Project(NextVideo(s.project.value, a))))
  }

  // ---------------------------------------------------------------------
  // Properties of the reducer
  // ---------------------------------------------------------------------

  /** LOAD_PROJECT replaces the whole state by the payload, whatever was loaded before. */
  lemma LoadReplaces(s: ProjectState, p: Project)
    ensures Reduce(s, LoadProject(p)) == ProjectState(Some(p))
  {
  }

  /** Without a loaded project every action but LOAD_PROJECT, and any unrecognised action, is a no-op. */
  lemma NoProjectNoOp(s: ProjectState, a: Action)
    requires s.project.None? || a.Unrecognised?
    requires !a.LoadProject?
    ensures Defined(s, a) && Reduce(s, a) == s
  {
  }

  /**
   * UPDATE_VIDEO is a shallow merge: each property named in the payload takes
   * the payload's value, every other property (the chapters included) keeps
   * the old one.
   */
  lemma UpdateVideoMerges(p: Project, patch: VideoPatch)
    ensures var r := Reduce(ProjectState(Some(p)), UpdateVideo(patch));
      && r.project.Some?
      && var v, w := p.video, r.project.value.video;
      && (patch.title.Keep? ==> w.title == v.title)
      && (patch.title.Set? ==> w.title == patch.title.value)
      && (patch.description.Keep? ==> w.description == v.description)
      && (patch.description.Set? ==> w.description == patch.description.value)
      && (patch.style.Keep? ==> w.style == v.style)
      && (patch.style.Set? ==> w.style == patch.style.value)
      && (patch.defaultImageSize.Keep? ==> w.defaultImageSize == v.defaultImageSize)
      && (patch.defaultImageSize.Set? ==> w.defaultImageSize == patch.defaultImageSize.value)
      && (patch.transcriptions.Keep? ==> w.transcriptions == v.transcriptions)
      && (patch.transcriptions.Set? ==> w.transcriptions == patch.transcriptions.value)
      && (patch.chapters.Keep? ==> w.chapters == v.chapters)
      && (patch.chapters.Set? ==> w.chapters == patch.chapters.value)
  {
  }

  /** ADD_CHAPTER appends: one more chapter, the new one last, the others in place, the video otherwise unchanged. */
  lemma AddChapterAppends(p: Project, c: Chapter)
    ensures var r := Reduce(ProjectState(Some(p)), AddChapter(c));
      && r.project.Some?
      && var old_, new_ := p.video.chapters, r.project.value.video.chapters;
      && |new_| == |old_| + 1
      && new_[|old_|] == c
      && new_[..|old_|] == old_
      && r.project.value.video == p.video.(chapters := new_)
  {
  }

  /** ADD_SCENE appends to the addressed chapter's scenes and changes nothing else. */
  lemma AddSceneAppends(p: Project, ci: int, scene: Scene)
    requires ValidChapter(p, ci)
    ensures var r := Reduce(ProjectState(Some(p)), AddScene(ci, scene));
      && r.project.Some?
      && var chapters := r.project.value.video.chapters;
      && r.project.value.video == p.video.(chapters := chapters)
      && |chapters| == |p.video.chapters|
      && (forall j :: 0 <= j < |chapters| && j != ci ==> chapters[j] == p.video.chapters[j])
      && var old_, new_ := p.video.chapters[ci].scenes, chapters[ci].scenes;
      && chapters[ci] == p.video.chapters[ci].(scenes := new_)
      && |new_| == |old_| + 1 && new_[|old_|] == scene && new_[..|old_|] == old_
  {
  }

  /** ADD_PROMPT appends to the addressed scene's prompts and changes nothing else. */
  lemma AddPromptAppends(p: Project, ci: int, si: int, prompt: Prompt)
    requires ValidScene(p, ci, si)
    ensures var r := Reduce(ProjectState(Some(p)), AddPrompt(ci, si, prompt));
      && r.project.Some?
      && var chapters := r.project.value.video.chapters;
      && r.project.value.video == p.video.(chapters := chapters)
      && |chapters| == |p.video.chapters|
      && (forall j :: 0 <= j < |chapters| && j != ci ==> chapters[j] == p.video.chapters[j])
      && var scenes := chapters[ci].scenes;
      && chapters[ci] == p.video.chapters[ci].(scenes := scenes)
      && |scenes| == |p.video.chapters[ci].scenes|
      && (forall j :: 0 <= j < |scenes| && j != si ==> scenes[j] == p.video.chapters[ci].scenes[j])
      && var old_, new_ := p.video.chapters[ci].scenes[si].prompts, scenes[si].prompts;
      && scenes[si] == p.video.chapters[ci].scenes[si].(prompts := new_)
      && |new_| == |old_| + 1 && new_[|old_|] == prompt && new_[..|old_|] == old_
  {
  }

  /** UPDATE_CHAPTER merges into the addressed chapter only. */
  lemma UpdateChapterFrame(p: Project, i: int, patch: ChapterPatch)
    requires ValidChapter(p, i)
    ensures var r := Reduce(ProjectState(Some(p)), UpdateChapter(i, patch));
      && r.project.Some?
      && var chapters := r.project.value.video.chapters;
      && r.project.value.video == p.video.(chapters := chapters)
      && |chapters| == |p.video.chapters|
      && chapters[i] == MergeChapter(p.video.chapters[i], patch)
      && (forall j :: 0 <= j < |chapters| && j != i ==> chapters[j] == p.video.chapters[j])
  {
  }

  /** UPDATE_SCENE merges into the addressed scene only. */
  lemma UpdateSceneFrame(p: Project, ci: int, si: int, patch: ScenePatch)
    requires ValidScene(p, ci, si)
    ensures var r := Reduce(ProjectState(Some(p)), UpdateScene(ci, si, patch));
      && r.project.Some?
      && var chapters := r.project.value.video.chapters;
      && r.project.value.video == p.video.(chapters := chapters)
      && |chapters| == |p.video.chapters|
      && (forall j :: 0 <= j < |chapters| && j != ci ==> chapters[j] == p.video.chapters[j])
      && var scenes := chapters[ci].scenes;
      && chapters[ci] == p.video.chapters[ci].(scenes := scenes)
      && |scenes| == |p.video.chapters[ci].scenes|
      && scenes[si] == MergeScene(p.video.chapters[ci].scenes[si], patch)
      && (forall j :: 0 <= j < |scenes| && j != si ==> scenes[j] == p.video.chapters[ci].scenes[j])
  {
  }

  /** The prompt at an index path, when the path exists. */
  function PromptAt(p: Project, ci: int, si: int, pi: int): Prompt
    requires ValidPrompt(p, ci, si, pi)
  {
    p.video.chapters[ci].scenes[si].prompts[pi]
  }

  /** Two projects have the same chapters, scenes and prompts positions, and agree on everything but the prompts themselves. */
  predicate SameOutline(p: Project, q: Project)
  {
    && p.video == q.video.(chapters := p.video.chapters)
    && |p.video.chapters| == |q.video.chapters|
    && forall ci :: 0 <= ci < |p.video.chapters| ==>
         && var c, d := p.video.chapters[ci], q.video.chapters[ci];
         && c == d.(scenes := c.scenes)
         && |c.scenes| == |d.scenes|
         && forall si :: 0 <= si < |c.scenes| ==>
              && c.scenes[si] == d.scenes[si].(prompts := c.scenes[si].prompts)
              && |c.scenes[si].prompts| == |d.scenes[si].prompts|
  }

  /**
   * UPDATE_PROMPT at a valid path changes that one prompt, to its merge with
   * the payload; every other prompt, every scene, chapter and video property
   * and every sequence length stays as it was.
   */
  lemma UpdatePromptFrame(p: Project, ci: int, si: int, pi: int, patch: PromptPatch)
    requires ValidPrompt(p, ci, si, pi)
    ensures var r := Reduce(ProjectState(Some(p)), UpdatePrompt(ci, si, pi, patch));
      && r.project.Some?
      && var q := r.project.value;
      && SameOutline(q, p)
      && PromptAt(q, ci, si, pi) == MergePrompt(PromptAt(p, ci, si, pi), patch)
      && forall ci', si', pi' :: ValidPrompt(p, ci', si', pi') && (ci', si', pi') != (ci, si, pi) ==>
           PromptAt(q, ci', si', pi') == PromptAt(p, ci', si', pi')
  {
    var q := Reduce(ProjectState(Some(p)), UpdatePrompt(ci, si, pi, patch)).project.value;
    forall ci', si', pi' | ValidPrompt(p, ci', si', pi') && (ci', si', pi') != (ci, si, pi)
      ensures PromptAt(q, ci', si', pi') == PromptAt(p, ci', si', pi')
    {
      if ci' == ci && si' == si {
        assert pi' != pi;
      }
    }
  }

  /**
   * DELETE_CHAPTER(i): chapters before `i` stay, the chapter at `i` is dropped
   * and the later ones move down by one; an index outside the chapters removes
   * nothing. The video's other properties are unchanged.
   */
  lemma DeleteChapterShifts(p: Project, i: int)
    ensures var r := Reduce(ProjectState(Some(p)), DeleteChapter(i));
      && r.project.Some?
      && var old_, new_ := p.video.chapters, r.project.value.video.chapters;
      && r.project.value.video == p.video.(chapters := new_)
      && (0 <= i < |old_| ==> |new_| == |old_| - 1)
      && (!(0 <= i < |old_|) ==> new_ == old_)
      && (forall j :: 0 <= j < |new_| ==> new_[j] == if 0 <= i <= j then old_[j + 1] else old_[j])
  {
    var r := Reduce(ProjectState(Some(p)), DeleteChapter(i));
    assert r.project.value.video.chapters == Filtered(p.video.chapters, i);
    FilteredShifts(p.video.chapters, i);
  }

  /** DELETE_SCENE removes one scene of the addressed chapter, shifting the later ones down, and changes nothing else. */
  lemma DeleteSceneShifts(p: Project, ci: int, si: int)
    requires ValidChapter(p, ci)
    ensures var r := Reduce(ProjectState(Some(p)), DeleteScene(ci, si));
      && r.project.Some?
      && var chapters := r.project.value.video.chapters;
      && r.project.value.video == p.video.(chapters := chapters)
      && |chapters| == |p.video.chapters|
      && (forall j :: 0 <= j < |chapters| && j != ci ==> chapters[j] == p.video.chapters[j])
      && var old_, new_ := p.video.chapters[ci].scenes, chapters[ci].scenes;
      && chapters[ci] == p.video.chapters[ci].(scenes := new_)
      && (0 <= si < |old_| ==> |new_| == |old_| - 1)
      && (!(0 <= si < |old_|) ==> new_ == old_)
      && (forall j :: 0 <= j < |new_| ==> new_[j] == if 0 <= si <= j then old_[j + 1] else old_[j])
  {
    var r := Reduce(ProjectState(Some(p)), DeleteScene(ci, si));
    assert r.project.value.video.chapters[ci].scenes == Filtered(p.video.chapters[ci].scenes, si);
    FilteredShifts(p.video.chapters[ci].scenes, si);
  }

  /** DELETE_PROMPT removes one prompt of the addressed scene, shifting the later ones down, and changes nothing else. */
  lemma DeletePromptShifts(p: Project, ci: int, si: int, pi: int)
    requires ValidScene(p, ci, si)
    ensures var r := Reduce(ProjectState(Some(p)), DeletePrompt(ci, si, pi));
      && r.project.Some?
      && var chapters := r.project.value.video.chapters;
      && r.project.value.video == p.video.(chapters := chapters)
      && |chapters| == |p.video.chapters|
      && (forall j :: 0 <= j < |chapters| && j != ci ==> chapters[j] == p.video.chapters[j])
      && var scenes := chapters[ci].scenes;
      && chapters[ci] == p.video.chapters[ci].(scenes := scenes)
      && |scenes| == |p.video.chapters[ci].scenes|
      && (forall j :: 0 <= j < |scenes| && j != si ==> scenes[j] == p.video.chapters[ci].scenes[j])
      && var old_, new_ := p.video.chapters[ci].scenes[si].prompts, scenes[si].prompts;
      && scenes[si] == p.video.chapters[ci].scenes[si].(prompts := new_)
      && (0 <= pi < |old_| ==> |new_| == |old_| - 1)
      && (!(0 <= pi < |old_|) ==> new_ == old_)
      && (forall j :: 0 <= j < |new_| ==> new_[j] == if 0 <= pi <= j then old_[j + 1] else old_[j])
  {
    var r := Reduce(ProjectState(Some(p)), DeletePrompt(ci, si, pi));
    var old_ := p.video.chapters[ci].scenes[si].prompts;
    assert r.project.value.video.chapters[ci].scenes[si].prompts == Filtered(old_, pi);
    FilteredShifts(old_, pi);
  }

  /**
   * Two UPDATE_PROMPTs at the same path act as one whose payload is their
   * spread `{ ...first, ...second }`.
   */
  lemma UpdatePromptTwice(p: Project, ci: int, si: int, pi: int, first: PromptPatch, second: PromptPatch)
    requires ValidPrompt(p, ci, si, pi)
    ensures var s1 := Reduce(ProjectState(Some(p)), UpdatePrompt(ci, si, pi, first));
      && s1.project.Some? && ValidPrompt(s1.project.value, ci, si, pi)
      && Reduce(s1, UpdatePrompt(ci, si, pi, second)) ==
         Reduce(ProjectState(Some(p)), UpdatePrompt(ci, si, pi, ThenPrompt(first, second)))
  {
    var c := p.video.chapters[ci];
    var s := c.scenes[si];
    var q := s.prompts[pi];
    MergePromptTwice(q, first, second);
    var q1 := MergePrompt(q, first);
    var s1 := WithPrompts(s, s.prompts[pi := q1]);
    var c1 := WithScenes(c, c.scenes[si := s1]);
    var q2 := MergePrompt(q1, second);
    assert s.prompts[pi := q1][pi := q2] == s.prompts[pi := q2];
    assert c.scenes[si := s1][si := WithPrompts(s1, s1.prompts[pi := q2])] == c.scenes[si := WithPrompts(s, s.prompts[pi := q2])];
    assert p.video.chapters[ci := c1][ci := WithScenes(c1, c1.scenes[si := WithPrompts(s1, s1.prompts[pi := q2])])] ==
           p.video.chapters[ci := WithScenes(c, c.scenes[si := WithPrompts(s, s.prompts[pi := q2])])];
  }

  /** An UPDATE_PROMPT whose merge leaves the prompt as it was leaves the whole state as it was. */
  lemma UpdatePromptUnchanged(p: Project, ci: int, si: int, pi: int, patch: PromptPatch)
    requires ValidPrompt(p, ci, si, pi)
    requires MergePrompt(PromptAt(p, ci, si, pi), patch) == PromptAt(p, ci, si, pi)
    ensures Reduce(ProjectState(Some(p)), UpdatePrompt(ci, si, pi, patch)) == ProjectState(Some(p))
  {
    var c := p.video.chapters[ci];
    var s := c.scenes[si];
    assert s.prompts[pi := s.prompts[pi]] == s.prompts;
    assert c.scenes[si := s] == c.scenes;
    assert p.video.chapters[ci := c] == p.video.chapters;
  }
}
