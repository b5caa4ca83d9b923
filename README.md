# Storyboard editor: reducer, CSV/JSON export and editing components

This project models the state core of a browser editor for video storyboards
in Dafny. A project holds one video. The video holds an ordered list of
chapters, each chapter a list of scenes, and each scene a list of image
prompts. A prompt may carry two generated image variants, A and B, each with
its own approval flag.

The model covers four parts of the editor:

- **`projectReducer`** (modules `Types` and `Reducer`). It is a pure function
  from a state and an action to a new state. Updates are object spreads of a
  `Partial<T>` payload (`Field<T>` = `Keep | Set(v)`). Adds append. Deletes
  keep every element whose position differs from the given index. Each action
  is proved to change exactly the node its index path names and nothing else.
- **`convertToCSV` / `exportAsCSV`** (modules `ExportUtils` and `CsvReader`).
  `convertToCSV` is three nested `forEach` loops that push one row per prompt.
  Here it is a method with loops, proved against recursive row functions. The
  CSV text is proved to read back into its header and one record per prompt
  under an RFC 4180-style reader that ends records at `\n`. The prompt text
  comes back unchanged whatever quotes, commas or line breaks it holds.
  Because only the prompt column is quoted, a comma in a chapter file name
  splits its row.
- **`parseJSONProject`** (module `ExportUtils`). It is modelled as the
  structural check applied to the value `JSON.parse` returns. A project's own
  JSON value passes the check exactly when the video title is non-empty.
- **The components `VideoComponent`, `ChapterComponent`, `SceneComponent` and
  `PromptComponent`** (one module each, plus `Editing`). Their
  edit/save/cancel state is a class `TextEditor` with `isEditing` and `temp`
  fields. A save dispatches the trimmed text unless it is blank. Each
  component's add handler builds a new node, and the image handlers build
  single-variant payloads. The actions they dispatch are combined with the
  reducer:
  - a chapter rename sets the chapter's file name to its position plus the
    title's slug, and a file name determines the position;
  - uploads, approvals and removals touch only the named image variant;
  - pressing the approve button twice restores the state;
  - scene numbers and new-prompt file names repeat after a delete followed by
    an add.

The module `EndToEnd` follows one session: load a project of one chapter, one
scene and two prompts, add a prompt, delete the first, and export. The result
is the header and exactly two rows, the former second prompt's and the new
one's.

## Model

| member | source | states |
|---|---|---|
| Types.MergeVideo | src/context/reducer.ts:12 | `{ ...video, ...payload }`: a property the payload names takes the payload's value (an explicit `undefined` included) and every other property keeps its own; `MergeEmpty` and `Reducer.UpdateVideoMerges` state it |
| Types.MergeChapter | src/context/reducer.ts:32 | the same property-by-property spread for a chapter; `MergeEmpty` states that an empty payload changes nothing |
| Types.MergeScene | src/context/reducer.ts:76 | the same property-by-property spread for a scene; `MergeEmpty` states that an empty payload changes nothing |
| Types.MergePrompt | src/context/reducer.ts:135 | the same property-by-property spread for a prompt; `MergeEmpty` and `MergePromptTwice` state its laws |
| Types.MergeEmpty | src/context/reducer.ts:12 | spreading an empty payload over a video, chapter, scene or prompt leaves it unchanged |
| Types.MergePromptTwice | src/context/reducer.ts:135 | two successive prompt spreads equal one spread of the combined payload `{...first, ...second}`; spreading the same payload twice equals spreading it once |
| Text.TrimStart | src/components/ChapterComponent.tsx:23-26 | the result is a suffix of the input, everything dropped is whitespace, and it starts with a non-whitespace character or is empty |
| Text.TrimEnd | src/components/ChapterComponent.tsx:23-26 | the result is a prefix of the input, everything dropped is whitespace, and it ends with a non-whitespace character or is empty |
| Text.TrimIsSlice | src/components/ChapterComponent.tsx:23-26 | `trim()` is a contiguous slice of the input with only whitespace outside it, and its ends are not whitespace |
| Text.TrimEmptyIff | src/components/ChapterComponent.tsx:23 | `trim()` is empty exactly when every character is whitespace, which is when the `if (temp.trim())` guard fails |
| Text.TrimIdempotent | src/components/ChapterComponent.tsx:23-26 | trimming twice gives the same result as trimming once |
| Text.ToLower | src/components/ChapterComponent.tsx:24 | `toLowerCase` keeps the length and lower-cases each character |
| Text.DashForWhitespace | src/components/ChapterComponent.tsx:24 | `replace(/\s+/g, '-')` leaves no whitespace and never makes the text longer; what it writes is fixed by `DashForWhitespaceOfPlain` and `DashForWhitespaceRun` |
| Text.KeepSlugChars | src/components/ChapterComponent.tsx:24 | `replace(/[^a-z0-9-]/g, '')` leaves only `a-z`, `0-9` and `-`, and never makes the text longer; which characters it keeps is fixed by `KeepSlugCharsAppend` |
| Text.DashForWhitespaceOfPlain | src/components/ChapterComponent.tsx:24 | a text without whitespace is copied unchanged, every character in order |
| Text.DashForWhitespaceAppend | src/components/ChapterComponent.tsx:24 | a text that does not end in whitespace is rewritten independently of what follows it |
| Text.DashForWhitespaceRun | src/components/ChapterComponent.tsx:24 | a maximal run of whitespace, with no whitespace just before or after it, becomes exactly one `-`, and the text on either side is rewritten on its own |
| Text.KeepSlugCharsAppend | src/components/ChapterComponent.tsx:24 | the character filter works character by character: a slug character is kept, any other character is dropped, and the results for consecutive parts are concatenated |
| Text.Trim | src/components/ChapterComponent.tsx:23-26 | `trim()` is `trimEnd` after `trimStart`; `TrimIsSlice`, `TrimEmptyIff` and `TrimIdempotent` state what it keeps |
| Text.Slug | src/components/ChapterComponent.tsx:24 | the file-name slug: lower-case, each whitespace run made one `-`, characters outside `a-z0-9-` dropped; `SlugContents` and `SlugIdempotent` state what it keeps |
| Text.SlugContents | src/components/ChapterComponent.tsx:24 | the file-name slug contains only `a-z0-9-` and keeps every letter and digit of the lower-cased title, in order |
| Text.SlugOfSlug | src/components/ChapterComponent.tsx:24 | a text that is already a slug is its own slug |
| Text.SlugIdempotent | src/components/ChapterComponent.tsx:24 | slugging a slug changes nothing |
| Text.NatToStringRoundTrip | src/components/ChapterComponent.tsx:27 | the decimal form of `chapterIndex + 1` in a template literal is non-empty, all digits, has no leading zero unless it is `0`, and reads back as the number |
| Text.NatToStringInjective | src/components/ChapterComponent.tsx:27 | different numbers have different decimal forms |
| Text.NumberedInjective | src/components/ChapterComponent.tsx:27 | a text `<number>-<rest>` determines both the number and the rest |
| Text.IntToStringChars | src/utils/exportUtils.ts:54-62 | an integer joined into a CSV line renders as an optional `-` followed by digits only; the `-` appears exactly for negative integers, and the digits read back as the integer's magnitude |
| Reducer.LoadReplaces | src/context/reducer.ts:5-6 | LOAD_PROJECT replaces the state by its payload, whatever was loaded before |
| Reducer.NoProjectNoOp | src/context/reducer.ts:176-177 | an unrecognised action, and any action but LOAD_PROJECT while no project is loaded (each case's `if (!state.project) return state`), returns the state unchanged |
| Reducer.Reduce | src/context/reducer.ts:3-179 | `projectReducer`, one case per action type; each case is stated by its lemma below |
| Reducer.UpdateVideoMerges | src/context/reducer.ts:8-15 | UPDATE_VIDEO: each property named in the payload takes the payload's value and every other property keeps its own, property by property |
| Reducer.AddChapterAppends | src/context/reducer.ts:17-27 | ADD_CHAPTER appends the payload as the last chapter, keeps the others in order, and changes no other video property |
| Reducer.UpdateChapterFrame | src/context/reducer.ts:29-41 | UPDATE_CHAPTER merges the payload into the indexed chapter only; the chapter count and every other chapter stay as they were |
| Reducer.Filtered | src/context/reducer.ts:49 | `filter((_, index) => index !== i)`, written element by element; `FilteredRemovesAt` and `FilteredShifts` state what it keeps |
| Reducer.FilteredRemovesAt | src/context/reducer.ts:49 | `filter((_, index) => index !== i)` is the list without position `i`, or the list itself when `i` is outside it |
| Reducer.FilteredShifts | src/context/reducer.ts:49 | after that filter, the elements before `i` stay in place and the later ones move down by one |
| Reducer.DeleteChapterShifts | src/context/reducer.ts:43-53 | DELETE_CHAPTER drops the indexed chapter and shifts the later ones down; an index outside the list removes nothing |
| Reducer.AddSceneAppends | src/context/reducer.ts:55-70 | ADD_SCENE appends to the indexed chapter's scenes and changes no other chapter or property |
| Reducer.UpdateSceneFrame | src/context/reducer.ts:72-89 | UPDATE_SCENE merges the payload into the indexed scene only |
| Reducer.DeleteSceneShifts | src/context/reducer.ts:91-106 | DELETE_SCENE drops the indexed scene of the indexed chapter and shifts the later ones down; nothing else changes |
| Reducer.AddPromptAppends | src/context/reducer.ts:108-128 | ADD_PROMPT appends to the indexed scene's prompts and changes nothing else |
| Reducer.UpdatePromptFrame | src/context/reducer.ts:130-152 | UPDATE_PROMPT replaces the prompt at the path by its merge with the payload; every other prompt, every scene, chapter and video property, and every list length stays as it was |
| Reducer.DeletePromptShifts | src/context/reducer.ts:154-174 | DELETE_PROMPT drops the indexed prompt of the indexed scene and shifts the later ones down; nothing else changes |
| Reducer.UpdatePromptTwice | src/context/reducer.ts:130-152 | two UPDATE_PROMPTs at one path act as one UPDATE_PROMPT whose payload is their spread |
| Reducer.UpdatePromptUnchanged | src/context/reducer.ts:130-152 | an UPDATE_PROMPT whose merge leaves the prompt as it is returns an equal state |
| ExportUtils.RowForFields | src/utils/exportUtils.ts:29-38 | a prompt's row has the chapter's file name as category; the prompt's file name, text, size and seed; `n` = 1; `approval_status \|\| 1` as `a` (never 0); and style 'vivid' exactly when the size is '1024x1024', otherwise 'natural' |
| ExportUtils.RowFor | src/utils/exportUtils.ts:29-38 | the row pushed for one prompt; `RowForFields` states each column |
| ExportUtils.PromptRowsAt | src/utils/exportUtils.ts:28-40 | the k-th row of a scene is the row of its k-th prompt |
| ExportUtils.ConvertToCSV | src/utils/exportUtils.ts:23-45 | the three nested loops push exactly the rows of the chapters, in chapter, then scene, then prompt order |
| ExportUtils.PushChapterRows | src/utils/exportUtils.ts:26-41 | the chapter callback appends the rows of the chapter's scenes, in order, to what was pushed before |
| ExportUtils.PushSceneRows | src/utils/exportUtils.ts:27-40 | the scene callback appends one row per prompt, in order |
| ExportUtils.SceneRowsCount | src/utils/exportUtils.ts:27-41 | a chapter's scenes give exactly one row per prompt |
| ExportUtils.RowCount | src/utils/exportUtils.ts:23-45 | the project gives exactly one row per prompt |
| ExportUtils.SceneRowsPrefix | src/utils/exportUtils.ts:27-41 | the rows of the first m scenes are a prefix of the rows of all scenes |
| ExportUtils.ChapterRowsPrefix | src/utils/exportUtils.ts:26-42 | the rows of the first m chapters are a prefix of the rows of all chapters |
| ExportUtils.SceneRowAt | src/utils/exportUtils.ts:27-41 | prompt `pi` of scene `si` has its row at the number of prompts in earlier scenes plus `pi` |
| ExportUtils.RowAt | src/utils/exportUtils.ts:23-45 | the prompt at path (ci, si, pi) has its row after the rows of every prompt in earlier chapters and earlier scenes |
| ExportUtils.RowsFromPrompts | src/utils/exportUtils.ts:23-45 | every row is the row of some prompt of the project |
| ExportUtils.ChapterRowFrom | src/utils/exportUtils.ts:23-45 | for every row position, it returns the path of the prompt whose row stands there |
| ExportUtils.RowsHaveStyle | src/utils/exportUtils.ts:34 | every row's style is 'vivid' or 'natural' |
| ExportUtils.RenderRows | src/utils/exportUtils.ts:53-62 | one line per row, the k-th line rendering the k-th row |
| ExportUtils.ExportAsCSV | src/utils/exportUtils.ts:47-66 | `exportAsCSV`: the header line and one line per row joined by `\n`; `ExportStartsWithHeader` and `ExportReadsBack` state what it holds |
| ExportUtils.ExportStartsWithHeader | src/utils/exportUtils.ts:47-66 | the text starts with the header line; it is the header alone exactly when the project has no prompt, and otherwise a `\n` follows the header |
| ExportUtils.EscapeQuotes | src/utils/exportUtils.ts:57 | `replace(/"/g, '""')`: every quote doubled, every other character copied; its inverse is the CSV field reader, and `ReadQuotedEscaped` states the round trip |
| ExportUtils.ReadQuotedEscaped | src/utils/exportUtils.ts:57 | a prompt wrapped in quotes with its quotes doubled reads back as the original prompt |
| ExportUtils.SeedText | src/utils/exportUtils.ts:60 | the seed column: the seed's digits, or an empty field when the seed is falsy; `SeedAndCountFallback` states when it is empty |
| ExportUtils.CountText | src/utils/exportUtils.ts:61 | the count column: the count's digits, or 1 when the count is falsy; `SeedAndCountFallback` states when it falls back |
| ExportUtils.SeedAndCountFallback | src/utils/exportUtils.ts:60-61 | the seed field is empty exactly when the seed is absent or 0; the count field is `1` when the count is absent or 0, and for a positive count it is digits that read back to the count |
| ExportUtils.ReadPlainOf | src/utils/exportUtils.ts:53-62 | an unquoted field without `,`, `"` or `\n` reads back as itself, up to the next separator |
| ExportUtils.ReadFieldOf | src/utils/exportUtils.ts:53-62 | every field the export writes reads back as its text |
| ExportUtils.ReadRecordOf | src/utils/exportUtils.ts:53-62 | a line of readable fields joined by `,` reads back as the list of their texts |
| ExportUtils.ReadAllOf | src/utils/exportUtils.ts:51-63 | lines joined by `\n` read back as one record per line |
| ExportUtils.RowLinesProperties | src/utils/exportUtils.ts:53-62 | rendering the rows' cells gives the export's lines, their texts are the rows' fields, and every cell is readable |
| ExportUtils.ExportReadsBack | src/utils/exportUtils.ts:47-66 | when no unquoted column holds `,`, `"` or `\n`, the CSV reads back as the header names followed by each prompt's eight fields, in prompt order, with the prompt text verbatim |
| ExportUtils.CommaInCategorySplitsRow | src/utils/exportUtils.ts:53-62 | a category containing `,` is written unquoted, so its row reads back with nine fields, the category split in two |
| ExportUtils.ParseJSONProject | src/utils/exportUtils.ts:78-92 | the import returns the parsed value unchanged exactly when it has a `video` object with a truthy `title` and an array `chapters`, and null otherwise, including when `JSON.parse` throws |
| ExportUtils.ProjectToJson | src/utils/exportUtils.ts:3-5 | the value `exportAsJSON` serialises: every property of the project under its own key, absent optional properties left out; `ExportedJsonImports` states that it passes the import check exactly when the title is not empty |
| ExportUtils.ExportedJsonImports | src/utils/exportUtils.ts:78-92 | a project's own JSON value (what `exportAsJSON` serialises) passes the import check exactly when the video title is non-empty |
| Editing.Committed | src/components/VideoComponent.tsx:20-25 | the text a save dispatches: none exactly when the typed text is blank; otherwise its trimmed form, non-empty with non-whitespace ends |
| Editing.CommittedIdempotent | src/components/VideoComponent.tsx:20-25 | editing a saved text and saving it unchanged dispatches the same text |
| Editing.TextEditor.constructor | src/components/VideoComponent.tsx:8-9 | the editor starts closed with an empty temporary text |
| Editing.TextEditor.Edit | src/components/VideoComponent.tsx:15-18 | edit copies the current value into the input and opens it |
| Editing.TextEditor.Change | src/components/VideoComponent.tsx:55 | typing replaces the temporary text and leaves the editing flag alone |
| Editing.TextEditor.Save | src/components/VideoComponent.tsx:20-25 | save yields the committed text, closes the editor, and keeps the typed text |
| Editing.TextEditor.Cancel | src/components/VideoComponent.tsx:27-30 | cancel clears the typed text and closes the editor |
| VideoComponent.TitleSaveAction | src/components/VideoComponent.tsx:20-25 | nothing is dispatched exactly when the text is blank; otherwise an UPDATE_VIDEO whose payload names the title only |
| VideoComponent.TitleSaveKeepsImportable | src/components/VideoComponent.tsx:20-25 | saving a non-blank title sets the title to the trimmed text, changes no other video property, and the project's JSON still passes the import check |
| VideoComponent.HandleTitleEdit | src/components/VideoComponent.tsx:15-18 | the input opens holding the video title |
| VideoComponent.HandleTitleSave | src/components/VideoComponent.tsx:20-25 | the handler dispatches exactly `TitleSaveAction` of the typed text and closes the editor |
| VideoComponent.HandleTitleCancel | src/components/VideoComponent.tsx:27-30 | the input closes with its text cleared |
| VideoComponent.AddChapterAppendsNew | src/components/VideoComponent.tsx:32-40 | the new last chapter is titled `Chapter <n>` (n = the new chapter count), has the file name that renaming it to "New Chapter" would give at that position, the video's style or `''`, and no scenes; earlier chapters are unchanged |
| VideoComponent.NewChapterSlug | src/components/VideoComponent.tsx:35 | `new-chapter` is the slug of the title "New Chapter", and its own slug |
| VideoComponent.NewChapter | src/components/VideoComponent.tsx:33-38 | the `newChapter` object; `AddChapterAppendsNew` states its title, file name, style and scenes |
| VideoComponent.AddChapterAction | src/components/VideoComponent.tsx:32-40 | `handleAddChapter` dispatches ADD_CHAPTER with that chapter; `AddChapterAppendsNew` states the result |
| ChapterComponent.ChapterFileNameParts | src/components/ChapterComponent.tsx:24-27 | a chapter file name is a slug made of the position counted from 1 in decimal, `-`, and the title's slug |
| ChapterComponent.ChapterFileNameInjective | src/components/ChapterComponent.tsx:27 | two renamed chapters share a file name exactly when they are at the same position and their titles have the same slug |
| ChapterComponent.ChapterFileName | src/components/ChapterComponent.tsx:24-27 | `${chapterIndex + 1}-${fileNameSlug}`; `ChapterFileNameParts` and `ChapterFileNameInjective` state its parts and that it determines the position |
| ChapterComponent.TitleSaveAction | src/components/ChapterComponent.tsx:22-31 | nothing is dispatched exactly when the text is blank; otherwise an UPDATE_CHAPTER at this chapter that leaves its style and scenes alone |
| ChapterComponent.TitleSaveRenames | src/components/ChapterComponent.tsx:22-31 | saving renames the chapter to the trimmed text and its file to position-and-slug; the chapter keeps its style and scenes, and every other chapter and the video are unchanged |
| ChapterComponent.HandleTitleEdit | src/components/ChapterComponent.tsx:17-20 | the input opens holding the chapter title |
| ChapterComponent.HandleTitleSave | src/components/ChapterComponent.tsx:22-31 | the handler dispatches exactly `TitleSaveAction` of the typed text and closes the editor |
| ChapterComponent.HandleTitleCancel | src/components/ChapterComponent.tsx:33-36 | the input closes with its text cleared |
| ChapterComponent.NewScene | src/components/ChapterComponent.tsx:45-50 | the `newScene` object; `AddSceneNumbers` states its number, description, style and prompts |
| ChapterComponent.AddSceneAction | src/components/ChapterComponent.tsx:44-52 | `handleAddScene` dispatches ADD_SCENE at this chapter with that scene; `AddSceneNumbers` states the result |
| ChapterComponent.AddSceneNumbers | src/components/ChapterComponent.tsx:44-52 | the new last scene is numbered with the new scene count, described as `Scene <number>`, has the chapter's style or `''` and no prompts; scenes numbered 1, 2, 3, ... stay numbered so |
| ChapterComponent.DeleteThenAddRepeatsNumber | src/components/ChapterComponent.tsx:44-52 | after deleting the first of scenes numbered 1..n, adding a scene gives two scenes with the same number |
| SceneComponent.DescriptionSaveAction | src/components/SceneComponent.tsx:23-28 | nothing is dispatched exactly when the text is blank; otherwise an UPDATE_SCENE at this scene |
| SceneComponent.DescriptionSaveSets | src/components/SceneComponent.tsx:23-28 | saving sets the description to the trimmed text; the scene keeps its number, style and prompts, and the other scenes are unchanged |
| SceneComponent.HandleDescriptionEdit | src/components/SceneComponent.tsx:18-21 | the input opens holding the scene description |
| SceneComponent.HandleDescriptionSave | src/components/SceneComponent.tsx:23-28 | the handler dispatches exactly `DescriptionSaveAction` of the typed text and closes the editor |
| SceneComponent.HandleDescriptionCancel | src/components/SceneComponent.tsx:30-33 | the input closes with its text cleared |
| SceneComponent.NewPromptFileName | src/components/SceneComponent.tsx:47 | `<chapter>-<scene>-<count>-new-prompt`, positions counted from 1; `NewPromptFileNameInjective` states that it determines its three numbers |
| SceneComponent.NewPrompt | src/components/SceneComponent.tsx:42-49 | the `newPrompt` object; `AddPromptAppendsNew` and `NewPromptRow` state its fields and its export row |
| SceneComponent.AddPromptAction | src/components/SceneComponent.tsx:41-51 | `handleAddPrompt` dispatches ADD_PROMPT at this scene with that prompt; `AddPromptAppendsNew` states the result |
| SceneComponent.NewPromptFileNameInjective | src/components/SceneComponent.tsx:47 | a new prompt's file name determines the chapter position, the scene position and the prompt count it was built from |
| SceneComponent.AddPromptAppendsNew | src/components/SceneComponent.tsx:41-50 | the new prompt becomes the scene's last prompt, earlier prompts unchanged, and its file name carries the positions and the new prompt count |
| SceneComponent.NewPromptRow | src/components/SceneComponent.tsx:41-50 | a new prompt exports with `a` = 1, size '1024x1024', style 'vivid', `n` = 1, an empty seed, the chapter's file name as category and its own file name |
| PromptComponent.ImagePatchSetsOnly | src/components/PromptComponent.tsx:55-67 | a `{ [imageType]: value }` payload sets that variant and leaves the other variant and every other prompt property alone |
| PromptComponent.PromptSaveAction | src/components/PromptComponent.tsx:28-33 | nothing is dispatched exactly when the text is blank; otherwise an UPDATE_PROMPT whose payload names the prompt text only |
| PromptComponent.PromptSaveSets | src/components/PromptComponent.tsx:28-33 | saving sets the prompt text to the trimmed text and changes no other prompt property and no other node |
| PromptComponent.HandlePromptEdit | src/components/PromptComponent.tsx:23-26 | the input opens holding the prompt text |
| PromptComponent.HandlePromptSave | src/components/PromptComponent.tsx:28-33 | the handler dispatches exactly `PromptSaveAction` of the typed text and closes the editor |
| PromptComponent.HandlePromptCancel | src/components/PromptComponent.tsx:35-38 | the input closes with its text cleared |
| PromptComponent.ImagePatch | src/components/PromptComponent.tsx:55 | the payload `{ [imageType]: value }`; `ImagePatchSetsOnly` states that it sets that variant only |
| PromptComponent.UploadAction | src/components/PromptComponent.tsx:46-56 | `handleImageUpload` dispatches UPDATE_PROMPT with an unapproved image at `uploads/<file name>`; `UploadSetsVariant` states the result |
| PromptComponent.ApprovalAction | src/components/PromptComponent.tsx:58-64 | nothing is dispatched exactly when the prompt has no image in that variant |
| PromptComponent.ApprovalSetsFlag | src/components/PromptComponent.tsx:58-64 | for an existing image, the approval given replaces its `approved` flag and its path is kept; the other variant, the other prompt properties and every other prompt are unchanged |
| PromptComponent.ApproveButtonAction | src/components/PromptComponent.tsx:82-85 | the button, shown only beside an image, asks for the opposite of its approval; `ApproveButtonFlips` and `ApproveTwiceRestores` state the result |
| PromptComponent.UploadSetsVariant | src/components/PromptComponent.tsx:46-56 | an upload sets the variant to an unapproved image at `uploads/<file name>`; the other variant, the other prompt properties and every other prompt are unchanged |
| PromptComponent.ApproveButtonFlips | src/components/PromptComponent.tsx:82-85 | the button next to an existing image flips its approval and keeps its path and everything else |
| PromptComponent.ApproveTwiceRestores | src/components/PromptComponent.tsx:85 | pressing the approve button twice returns the state it started from |
| PromptComponent.RemoveAction | src/components/PromptComponent.tsx:66-68 | `handleImageRemove` dispatches UPDATE_PROMPT with the variant set to `undefined`; `RemoveClears` states the result |
| PromptComponent.RemoveClears | src/components/PromptComponent.tsx:66-68 | removing makes the variant absent and keeps everything else; removing again changes nothing |
| EndToEnd.TwoPromptRows | src/utils/exportUtils.ts:23-45 | a chapter whose only scene has two prompts exports exactly their two rows, in order |
| EndToEnd.ExportOfTwoRows | src/utils/exportUtils.ts:47-66 | with two rows the CSV text is the header, `\n`, the first row, `\n`, the second row |
| EndToEnd.AddThenDeletePrompt | src/components/SceneComponent.tsx:41-50 | from one chapter, one scene and two prompts: adding gives three prompts with the new one last; deleting prompt 0 leaves the former second prompt and the new one; the export is the header and exactly those two rows |
| EndToEnd.AddDeleteAddRepeatsFileName | src/components/SceneComponent.tsx:47 | adding a prompt, deleting the first and adding again gives two prompts with the same file name |

## Left out

- JSON text: `JSON.stringify` / `JSON.parse` are not modelled. `exportAsJSON` is the value `ProjectToJson` it would serialise, and `parseJSONProject` takes the value `JSON.parse` returns, or None when it throws. Pretty-printing, and the `as Project` cast that accepts any extra or ill-typed properties, are left out.
- Browser I/O: `downloadJSON`, `copyJSONToClipboard`, `downloadCSV` and the file-input event (only `file.name` is used) need the DOM, the clipboard or the file system.
- `console.error` in `parseJSONProject` has no effect on the result and is left out.
- ProjectControls, ProjectProvider, ProjectContext, App and sampleData are not part of this model. The provider's methods are one-line `dispatch` wrappers, so components are modelled as producing the reducer `Action` that the wrapper dispatches.
- The `handleDelete` handlers dispatch DELETE_CHAPTER, DELETE_SCENE or DELETE_PROMPT only after `window.confirm`, a user dialog. The deletes themselves are modelled in the reducer.
- JSX rendering, `isExpanded` and the Enter/Escape key bindings are presentation that calls the modelled handlers.
- `created_at` is `new Date().toISOString().split('T')[0]`, read from the clock. It is the parameter `today`.
- The reducer's parent indices, and the index of an update, must be valid (`Defined`). The source does not check them: with an index equal to the list's length it appends a record holding only the payload's properties, with a larger one it also leaves empty slots before that record, with a negative index it sets a property that is not an array element, and a parent index outside its list throws. These paths are not modelled. A delete index may be any integer.
- `toLowerCase` is modelled for ASCII only, and `\s` / `trim` use the JavaScript whitespace code points listed in `Text.IsWhitespace`. Unicode case mapping is not modelled.
- Numbers (`seed`, `approval_status`, `scene_number`) are integers. Fractions, NaN and the exponent form JavaScript uses from 1e21 upwards are not modelled. JSON numbers are reals in `Json`.
- The `Prompt` interface declares an `image` property, but the components read and write `image_a` and `image_b`. The model follows the components and has no `image` property.
- The header line is defined as the header names joined by `,`. The equality with the literal `a,category,filename,prompt,style,size,seed,n` is not proved separately.
- The CSV export quotes only the prompt column, as the code does; it does not quote every text field that contains a delimiter or a quote. `CommaInCategorySplitsRow` states the consequence, and `ExportReadsBack` therefore requires the unquoted columns to be free of `,`, `"` and `\n`.
- CsvReader is a reference reader used to state what the export means. The editor never reads CSV.
