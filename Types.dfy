/*
 * The storyboard data model of src/types/index.ts: a Project owns one Video,
 * which owns an ordered sequence of Chapters, each owning Scenes, each owning
 * Prompts. Optional TypeScript properties (`style?: string`) are `Option`s.
 *
 * A `Partial<T>` update payload is a record with one `Field` per property of
 * `T`: `Keep` when the payload does not mention the property, `Set(v)` when it
 * does. For an optional property `Set(None)` is the explicit `undefined` that
 * PromptComponent uses to remove an image, which is different from `Keep`.
 * The Merge functions are the object spread `{ ...current, ...payload }`.
 */
module Types {

  datatype Option<T> = None | Some(value: T)

  /** One property of a `Partial<T>` payload. */
  datatype Field<T> = Keep | Set(value: T)

  /** The value a property has after `{ ...current, ...payload }`. */
  function Apply<T>(f: Field<T>, current: T): T
  {
    match f
    case Keep => current
    case Set(v) => v
  }

  /** `{ ...first, ...second }` on payloads: the later payload wins property by property. */
  function Then<T>(first: Field<T>, second: Field<T>): Field<T>
  {
    if second.Set? then second else first
  }

  /** `x || ''` for an optional string: the string, or `''` when it is absent (an empty string is `''` either way). */
  function OrEmpty(s: Option<string>): string
  {
    if s.Some? then s.value else ""
  }

  datatype ImageData = ImageData(path: string, approved: bool)

  /** A prompt with its two generated image variants `image_a` and `image_b`. */
  datatype Prompt = Prompt(
    promptText: string,
    imageSize: Option<string>,
    aspectRatio: Option<string>,
    seed: Option<int>,
    approvalStatus: Option<int>,
    fileName: string,
    createdAt: Option<string>,
    imageA: Option<ImageData>,
    imageB: Option<ImageData>)

  datatype Scene = Scene(
    sceneNumber: int,
    sceneDescription: string,
    style: Option<string>,
    prompts: seq<Prompt>)

  datatype Chapter = Chapter(
    chapterTitle: string,
    chapterFileName: string,
    style: Option<string>,
    scenes: seq<Scene>)

  datatype Transcriptions = Transcriptions(storyboard: Option<string>, narrative: Option<string>)

  datatype Video = Video(
    title: string,
    description: Option<string>,
    style: Option<string>,
    defaultImageSize: Option<string>,
    transcriptions: Option<Transcriptions>,
    chapters: seq<Chapter>)

  datatype Project = Project(video: Video)

  /** `Partial<Video>` */
  datatype VideoPatch = VideoPatch(
    title: Field<string>,
    description: Field<Option<string>>,
    style: Field<Option<string>>,
    defaultImageSize: Field<Option<string>>,
    transcriptions: Field<Option<Transcriptions>>,
    chapters: Field<seq<Chapter>>)

  /** `Partial<Chapter>` */
  datatype ChapterPatch = ChapterPatch(
    chapterTitle: Field<string>,
    chapterFileName: Field<string>,
    style: Field<Option<string>>,
    scenes: Field<seq<Scene>>)

  /** `Partial<Scene>` */
  datatype ScenePatch = ScenePatch(
    sceneNumber: Field<int>,
    sceneDescription: Field<string>,
    style: Field<Option<string>>,
    prompts: Field<seq<Prompt>>)

  /** `Partial<Prompt>` */
  datatype PromptPatch = PromptPatch(
    promptText: Field<string>,
    imageSize: Field<Option<string>>,
    aspectRatio: Field<Option<string>>,
    seed: Field<Option<int>>,
    approvalStatus: Field<Option<int>>,
    fileName: Field<string>,
    createdAt: Field<Option<string>>,
    imageA: Field<Option<ImageData>>,
    imageB: Field<Option<ImageData>>)

  const EmptyVideoPatch := VideoPatch(Keep, Keep, Keep, Keep, Keep, Keep)
  const EmptyChapterPatch := ChapterPatch(Keep, Keep, Keep, Keep)
  const EmptyScenePatch := ScenePatch(Keep, Keep, Keep, Keep)
  const EmptyPromptPatch := PromptPatch(Keep, Keep, Keep, Keep, Keep, Keep, Keep, Keep, Keep)

  function MergeVideo(v: Video, p: VideoPatch): Video
  {
    Video(Apply(p.title, v.title), Apply(p.description, v.description), Apply(p.style, v.style),
          Apply(p.defaultImageSize, v.defaultImageSize), Apply(p.transcriptions, v.transcriptions),
          Apply(p.chapters, v.chapters))
  }

  function MergeChapter(c: Chapter, p: ChapterPatch): Chapter
  {
    Chapter(Apply(p.chapterTitle, c.chapterTitle), Apply(p.chapterFileName, c.chapterFileName),
            Apply(p.style, c.style), Apply(p.scenes, c.scenes))
  }

  function MergeScene(s: Scene, p: ScenePatch): Scene
  {
    Scene(Apply(p.sceneNumber, s.sceneNumber), Apply(p.sceneDescription, s.sceneDescription),
          Apply(p.style, s.style), Apply(p.prompts, s.prompts))
  }

  function MergePrompt(q: Prompt, p: PromptPatch): Prompt
  {
    Prompt(Apply(p.promptText, q.promptText), Apply(p.imageSize, q.imageSize),
           Apply(p.aspectRatio, q.aspectRatio), Apply(p.seed, q.seed),
           Apply(p.approvalStatus, q.approvalStatus), Apply(p.fileName, q.fileName),
           Apply(p.createdAt, q.createdAt), Apply(p.imageA, q.imageA), Apply(p.imageB, q.imageB))
  }

  function ThenPrompt(first: PromptPatch, second: PromptPatch): PromptPatch
  {
    PromptPatch(Then(first.promptText, second.promptText), Then(first.imageSize, second.imageSize),
                Then(first.aspectRatio, second.aspectRatio), Then(first.seed, second.seed),
                Then(first.approvalStatus, second.approvalStatus), Then(first.fileName, second.fileName),
                Then(first.createdAt, second.createdAt), Then(first.imageA, second.imageA),
                Then(first.imageB, second.imageB))
  }

  /** A shallow merge with the empty payload `{}` changes nothing. */
  lemma MergeEmpty(v: Video, c: Chapter, s: Scene, q: Prompt)
    ensures MergeVideo(v, EmptyVideoPatch) == v
    ensures MergeChapter(c, EmptyChapterPatch) == c
    ensures MergeScene(s, EmptyScenePatch) == s
    ensures MergePrompt(q, EmptyPromptPatch) == q
  {
  }

  /**
   * Dispatching two prompt payloads one after the other is the same as
   * dispatching their spread `{ ...first, ...second }` once; in particular
   * dispatching the same payload twice is the same as dispatching it once.
   */
  lemma MergePromptTwice(q: Prompt, first: PromptPatch, second: PromptPatch)
    ensures MergePrompt(MergePrompt(q, first), second) == MergePrompt(q, ThenPrompt(first, second))
    ensures MergePrompt(MergePrompt(q, first), first) == MergePrompt(q, first)
  {
  }
}
