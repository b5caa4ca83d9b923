/*
 * src/utils/exportUtils.ts: flattening a project into CSV rows
 * (`convertToCSV`), rendering them as CSV text (`exportAsCSV`) and the
 * structural check `parseJSONProject` applies after `JSON.parse`.
 */
module ExportUtils {
  import opened Types
  import opened Text
  import opened CsvReader

  /** The `CSVRow` record of src/types/index.ts. */
  datatype CSVRow = CSVRow(
    a: int,
    category: string,
    filename: string,
    prompt: string,
    style: Option<string>,
    size: Option<string>,
    seed: Option<int>,
    n: Option<int>)

  /** The one image size exported with the 'vivid' style. */
  const SquareSize: string := "1024x1024"

  /** The row `convertToCSV` builds for one prompt of a chapter. */
  function RowFor(chapter: Chapter, prompt: Prompt): (row: CSVRow)
  {
    CSVRow(
      a := match prompt.approvalStatus
           case Some(status) => if status != 0 then status else 1
           case None => 1,
      category := chapter.chapterFileName,
      filename := prompt.fileName,
      prompt := prompt.promptText,
      style := Some(if prompt.imageSize == Some(SquareSize) then "vivid" else "natural"),
      size := prompt.imageSize,
      seed := prompt.seed,
      n := Some(1))
  }

  /**
   * What a row says about its prompt: the chapter's file name as category, the
   * prompt's file name, text, size and seed, a count of one image,
   * `approval_status || 1` as the approval column (a status of 0 or none at
   * all count as 1), and the style 'vivid' exactly for the size '1024x1024',
   * 'natural' otherwise.
   */
  lemma RowForFields(chapter: Chapter, prompt: Prompt)
    ensures var row := RowFor(chapter, prompt);
      && row.category == chapter.chapterFileName
      && row.filename == prompt.fileName && row.prompt == prompt.promptText
      && row.size == prompt.imageSize && row.seed == prompt.seed && row.n == Some(1)
      && row.a != 0
      && (prompt.approvalStatus.Some? && prompt.approvalStatus.value != 0 ==> row.a == prompt.approvalStatus.value)
      && (prompt.approvalStatus.None? || prompt.approvalStatus.value == 0 ==> row.a == 1)
      && (row.style == Some("vivid") || row.style == Some("natural"))
      && (row.style == Some("vivid") <==> prompt.imageSize == Some("1024x1024"))
  {
  }

  // ---------------------------------------------------------------------
  // convertToCSV: the rows, in chapter, scene, prompt order
  // ---------------------------------------------------------------------

  /** The rows of some prompts of `chapter`, one per prompt, in order. */
  function PromptRows(chapter: Chapter, prompts: seq<Prompt>): (rows: seq<CSVRow>)
    ensures |rows| == |prompts|
    decreases |prompts|
  {
    if prompts == [] then []
    else PromptRows(chapter, prompts[..|prompts| - 1]) + [RowFor(chapter, prompts[|prompts| - 1])]
  }

  /** The k-th of those rows is the row of the k-th prompt. */
  lemma {:induction false} PromptRowsAt(chapter: Chapter, prompts: seq<Prompt>, k: int)
    requires 0 <= k < |prompts|
    ensures PromptRows(chapter, prompts)[k] == RowFor(chapter, prompts[k])
    decreases |prompts|
  {
    if k < |prompts| - 1 {
      PromptRowsAt(chapter, prompts[..|prompts| - 1], k);
    }
  }

  /** The rows of some scenes of `chapter`, scene after scene. */
  function SceneRows(chapter: Chapter, scenes: seq<Scene>): seq<CSVRow>
    decreases |scenes|
  {
    if scenes == [] then []
    else SceneRows(chapter, scenes[..|scenes| - 1]) + PromptRows(chapter, scenes[|scenes| - 1].prompts)
  }

  /** The rows of some chapters, chapter after chapter. */
  function ChapterRows(chapters: seq<Chapter>): seq<CSVRow>
    decreases |chapters|
  {
    if chapters == [] then []
    else
      var last := chapters[|chapters| - 1];
      ChapterRows(chapters[..|chapters| - 1]) + SceneRows(last, last.scenes)
  }

  /** The rows of a whole project. */
  function Rows(project: Project): seq<CSVRow>
  {
    ChapterRows(project.video.chapters)
  }

  /**
   * `convertToCSV`: a `forEach` over the chapters whose callback runs a
   * `forEach` over the chapter's scenes whose callback runs a `forEach` over
   * the scene's prompts, pushing one row per prompt. Each callback is a method
   * here; `csvRows` is threaded through them.
   */
  method ConvertToCSV(project: Project) returns (csvRows: seq<CSVRow>)
    ensures csvRows == Rows(project)
  {
    csvRows := [];
    var chapters := project.video.chapters;
    var i := 0;
    while i < |chapters|
      invariant 0 <= i <= |chapters|
      invariant csvRows == ChapterRows(chapters[..i])
    {
      csvRows := PushChapterRows(csvRows, chapters[i]);
      assert chapters[..i + 1][..i] == chapters[..i];
      i := i + 1;
    }
    assert chapters[..i] == chapters;
  }

  /** The callback of the chapter loop: the rows of every scene of one chapter. */
  method PushChapterRows(csvRows: seq<CSVRow>, chapter: Chapter) returns (pushed: seq<CSVRow>)
    ensures pushed == csvRows + SceneRows(chapter, chapter.scenes)
  {
    pushed := csvRows;
    var scenes := chapter.scenes;
    var j := 0;
    while j < |scenes|
      invariant 0 <= j <= |scenes|
      invariant pushed == csvRows + SceneRows(chapter, scenes[..j])
    {
      pushed := PushSceneRows(pushed, chapter, scenes[j]);
      assert scenes[..j + 1][..j] == scenes[..j];
      j := j + 1;
    }
    assert scenes[..j] == scenes;
  }

  /** The callback of the scene loop: one row per prompt of the scene. */
  method PushSceneRows(csvRows: seq<CSVRow>, chapter: Chapter, scene: Scene) returns (pushed: seq<CSVRow>)
    ensures pushed == csvRows + PromptRows(chapter, scene.prompts)
  {
    pushed := csvRows;
    var prompts := scene.prompts;
    var k := 0;
    while k < |prompts|
      invariant 0 <= k <= |prompts|
      invariant pushed == csvRows + PromptRows(chapter, prompts[..k])
    {
      pushed := pushed + [RowFor(chapter, prompts[k])];
      assert prompts[..k + 1][..k] == prompts[..k];
      k := k + 1;
    }
    assert prompts[..k] == prompts;
  }

  /** The number of prompts in some scenes. */
  function ScenePromptCount(scenes: seq<Scene>): nat
    decreases |scenes|
  {
    if scenes == [] then 0 else ScenePromptCount(scenes[..|scenes| - 1]) + |scenes[|scenes| - 1].prompts|
  }

  /** The number of prompts in some chapters. */
  function PromptCount(chapters: seq<Chapter>): nat
    decreases |chapters|
  {
    if chapters == [] then 0
    else PromptCount(chapters[..|chapters| - 1]) + ScenePromptCount(chapters[|chapters| - 1].scenes)
  }

  lemma {:induction false} SceneRowsCount(chapter: Chapter, scenes: seq<Scene>)
    ensures |SceneRows(chapter, scenes)| == ScenePromptCount(scenes)
    decreases |scenes|
  {
    if scenes != [] {
      SceneRowsCount(chapter, scenes[..|scenes| - 1]);
    }
  }

  /** There is exactly one row per prompt of the project. */
  lemma {:induction false} RowCount(chapters: seq<Chapter>)
    ensures |ChapterRows(chapters)| == PromptCount(chapters)
    decreases |chapters|
  {
    if chapters != [] {
      RowCount(chapters[..|chapters| - 1]);
      SceneRowsCount(chapters[|chapters| - 1], chapters[|chapters| - 1].scenes);
    }
  }

  lemma {:induction false} SceneRowsPrefix(chapter: Chapter, scenes: seq<Scene>, m: nat)
    requires m <= |scenes|
    ensures SceneRows(chapter, scenes[..m]) <= SceneRows(chapter, scenes)
    decreases |scenes|
  {
    if m < |scenes| {
      var front := scenes[..|scenes| - 1];
      assert front[..m] == scenes[..m];
      SceneRowsPrefix(chapter, front, m);
    } else {
      assert scenes[..m] == scenes;
    }
  }

  lemma {:induction false} ChapterRowsPrefix(chapters: seq<Chapter>, m: nat)
    requires m <= |chapters|
    ensures ChapterRows(chapters[..m]) <= ChapterRows(chapters)
    decreases |chapters|
  {
    if m < |chapters| {
      var front := chapters[..|chapters| - 1];
      assert front[..m] == chapters[..m];
      ChapterRowsPrefix(front, m);
    } else {
      assert chapters[..m] == chapters;
    }
  }

  /** The rows of the first n + 1 scenes: those of the first n, then those of scene n. */
  lemma SceneRowsSnoc(chapter: Chapter, scenes: seq<Scene>, n: int)
    requires 0 <= n < |scenes|
    ensures SceneRows(chapter, scenes[..n + 1]) == SceneRows(chapter, scenes[..n]) + PromptRows(chapter, scenes[n].prompts)
  {
    var upTo := scenes[..n + 1];
    assert upTo[..n] == scenes[..n];
  }

  /** The rows of scene si sit in `SceneRows` after the rows of the scenes before it. */
  lemma SceneRowsAt(chapter: Chapter, scenes: seq<Scene>, si: int, i: int)
    requires 0 <= si < |scenes| && 0 <= i < |PromptRows(chapter, scenes[si].prompts)|
    ensures ScenePromptCount(scenes[..si]) + i < |SceneRows(chapter, scenes)|
    ensures SceneRows(chapter, scenes)[ScenePromptCount(scenes[..si]) + i] == PromptRows(chapter, scenes[si].prompts)[i]
  {
    var before, mine := SceneRows(chapter, scenes[..si]), PromptRows(chapter, scenes[si].prompts);
    var k := ScenePromptCount(scenes[..si]) + i;
    SceneRowsSnoc(chapter, scenes, si);
    SceneRowsCount(chapter, scenes[..si]);
    AppendIndexRight(before, mine, i, k);
    SceneRowsPrefixAt(chapter, scenes, si + 1, k);
  }

  /** Prompt pi of scene si has its row after the rows of the earlier scenes' prompts. */
  lemma SceneRowAt(chapter: Chapter, scenes: seq<Scene>, si: int, pi: int)
    requires 0 <= si < |scenes| && 0 <= pi < |scenes[si].prompts|
    ensures ScenePromptCount(scenes[..si]) + pi < |SceneRows(chapter, scenes)|
    ensures SceneRows(chapter, scenes)[ScenePromptCount(scenes[..si]) + pi] == RowFor(chapter, scenes[si].prompts[pi])
  {
    PromptRowsAt(chapter, scenes[si].prompts, pi);
    SceneRowsAt(chapter, scenes, si, pi);
  }

  /**
   * The row of the prompt at index path (ci, si, pi) is the one after the rows
   * of all prompts of earlier chapters and of earlier scenes of its chapter:
   * rows come in chapter, then scene, then prompt order.
   */
  lemma {:induction false} RowAt(chapters: seq<Chapter>, ci: int, si: int, pi: int)
    requires 0 <= ci < |chapters|
    requires 0 <= si < |chapters[ci].scenes| && 0 <= pi < |chapters[ci].scenes[si].prompts|
    ensures PromptCount(chapters[..ci]) + (ScenePromptCount(chapters[ci].scenes[..si]) + pi) < |ChapterRows(chapters)|
    ensures ChapterRows(chapters)[PromptCount(chapters[..ci]) + (ScenePromptCount(chapters[ci].scenes[..si]) + pi)]
         == RowFor(chapters[ci], chapters[ci].scenes[si].prompts[pi])
    decreases |chapters|, 1
  {
    if ci < |chapters| - 1 {
      RowAtEarlierChapter(chapters, ci, si, pi);
    } else {
      RowAtLastChapter(chapters, si, pi);
    }
  }

  /** `RowAt` for a chapter before the last: its row lies among the rows of the chapters before the last. */
  lemma {:induction false} RowAtEarlierChapter(chapters: seq<Chapter>, ci: int, si: int, pi: int)
    requires 0 <= ci < |chapters| - 1
    requires 0 <= si < |chapters[ci].scenes| && 0 <= pi < |chapters[ci].scenes[si].prompts|
    ensures PromptCount(chapters[..ci]) + (ScenePromptCount(chapters[ci].scenes[..si]) + pi) < |ChapterRows(chapters)|
    ensures ChapterRows(chapters)[PromptCount(chapters[..ci]) + (ScenePromptCount(chapters[ci].scenes[..si]) + pi)]
         == RowFor(chapters[ci], chapters[ci].scenes[si].prompts[pi])
    decreases |chapters|, 0
  {
    var n := |chapters| - 1;
    var front, last := chapters[..n], chapters[n];
    ChapterRowsLast(chapters);
    PrefixOfPrefix(chapters, n, ci);
    RowAt(front, ci, si, pi);
    AppendIndexLeft(ChapterRows(front), SceneRows(last, last.scenes),
      PromptCount(chapters[..ci]) + (ScenePromptCount(chapters[ci].scenes[..si]) + pi));
  }

  /** The rows of some chapters: those of all but the last, then those of the last. */
  lemma ChapterRowsLast(chapters: seq<Chapter>)
    requires |chapters| > 0
    ensures var n := |chapters| - 1;
      ChapterRows(chapters) == ChapterRows(chapters[..n]) + SceneRows(chapters[n], chapters[n].scenes)
  {
  }

  /** A prefix of a prefix, and an element inside the prefix. */
  lemma PrefixOfPrefix<T>(s: seq<T>, n: int, i: int)
    requires 0 <= i < n <= |s|
    ensures s[..n][..i] == s[..i] && s[..n][i] == s[i]
  {
  }

  /** `RowAt` for the last chapter: its rows follow those of all the chapters before it. */
  lemma RowAtLastChapter(chapters: seq<Chapter>, si: int, pi: int)
    requires |chapters| > 0
    requires var ci := |chapters| - 1; 0 <= si < |chapters[ci].scenes| && 0 <= pi < |chapters[ci].scenes[si].prompts|
    ensures var ci := |chapters| - 1;
      && PromptCount(chapters[..ci]) + (ScenePromptCount(chapters[ci].scenes[..si]) + pi) < |ChapterRows(chapters)|
      && ChapterRows(chapters)[PromptCount(chapters[..ci]) + (ScenePromptCount(chapters[ci].scenes[..si]) + pi)]
         == RowFor(chapters[ci], chapters[ci].scenes[si].prompts[pi])
  {
    var n := |chapters| - 1;
    var front, last := chapters[..n], chapters[n];
    var j := ScenePromptCount(last.scenes[..si]) + pi;
    var k := PromptCount(front) + j;
    assert ChapterRows(chapters) == ChapterRows(front) + SceneRows(last, last.scenes);
    RowCount(front);
    SceneRowAt(last, last.scenes, si, pi);
    AppendIndexRight(ChapterRows(front), SceneRows(last, last.scenes), j, k);
  }

  /** The k-th row of the first m scenes is the k-th row of all of them. */
  lemma SceneRowsPrefixAt(chapter: Chapter, scenes: seq<Scene>, m: int, k: int)
    requires 0 <= m <= |scenes| && 0 <= k < |SceneRows(chapter, scenes[..m])|
    ensures k < |SceneRows(chapter, scenes)| && SceneRows(chapter, scenes)[k] == SceneRows(chapter, scenes[..m])[k]
  {
    SceneRowsPrefix(chapter, scenes, m);
  }

  /** Indexing within the first part of a concatenation stays in it. */
  lemma AppendIndexLeft<T>(a: seq<T>, b: seq<T>, k: int)
    requires 0 <= k < |a|
    ensures (a + b)[k] == a[k]
  {
  }

  /** Indexing past the first part of a concatenation lands in the second. */
  lemma AppendIndexRight<T>(a: seq<T>, b: seq<T>, i: int, k: int)
    requires 0 <= i < |b| && k == |a| + i
    ensures k < |a + b| && (a + b)[k] == b[i]
  {
  }

  // ---------------------------------------------------------------------
  // exportAsCSV: the text
  // ---------------------------------------------------------------------

  /** `parts.join(sep)` */
  function Join(parts: seq<string>, sep: char): string
    decreases |parts|
  {
    if |parts| == 0 then ""
    else if |parts| == 1 then parts[0]
    else parts[0] + [sep] + Join(parts[1..], sep)
  }

  lemma JoinCons(first: string, rest: seq<string>, sep: char)
    requires rest != []
    ensures Join([first] + rest, sep) == first + [sep] + Join(rest, sep)
  {
    assert ([first] + rest)[1..] == rest;
  }

  /** `s.replace(/"/g, '""')` */
  function EscapeQuotes(s: string): string
    decreases |s|
  {
    if s == [] then ""
    else (if s[0] == '"' then "\"\"" else [s[0]]) + EscapeQuotes(s[1..])
  }

  /** A CSV field as written: verbatim, or wrapped in quotes with its quotes doubled. */
  datatype Cell = Plain(text: string) | Quoted(text: string)

  function Encode(c: Cell): string
  {
    match c
    case Plain(t) => t
    case Quoted(t) => "\"" + EscapeQuotes(t) + "\""
  }

  /** `cells.map(Encode)` */
  function EncodeAll(cells: seq<Cell>): (r: seq<string>)
    ensures |r| == |cells| && forall k :: 0 <= k < |cells| ==> r[k] == Encode(cells[k])
    decreases |cells|
  {
    if cells == [] then [] else [Encode(cells[0])] + EncodeAll(cells[1..])
  }

  /** `cells.map(c => c.text)` */
  function Texts(cells: seq<Cell>): (r: seq<string>)
    ensures |r| == |cells| && forall k :: 0 <= k < |cells| ==> r[k] == cells[k].text
    decreases |cells|
  {
    if cells == [] then [] else [cells[0].text] + Texts(cells[1..])
  }

  const HeaderNames: seq<string> := ["a", "category", "filename", "prompt", "style", "size", "seed", "n"]

  /** `row.seed || ''`: no seed and a seed of 0 both render empty. */
  function SeedText(seed: Option<int>): string
  {
    if seed.Some? && seed.value != 0 then IntToString(seed.value) else ""
  }

  /** `row.n || 1` */
  function CountText(n: Option<int>): string
  {
    if n.Some? && n.value != 0 then IntToString(n.value) else "1"
  }

  /**
   * `||` falls back exactly on the falsy values: a seed renders empty exactly
   * when it is absent or 0, and a count renders as 1 when it is absent or 0
   * and otherwise as digits that read back to it.
   */
  lemma SeedAndCountFallback(seed: Option<int>, n: Option<int>)
    ensures SeedText(seed) == "" <==> seed.None? || seed.value == 0
    ensures n.None? || n.value == 0 ==> CountText(n) == "1"
    ensures n.Some? && n.value > 0 ==>
      && (forall k :: 0 <= k < |CountText(n)| ==> IsDigit(CountText(n)[k]))
      && DigitsValue(CountText(n)) == n.value
  {
    if seed.Some? && seed.value != 0 {
      IntToStringChars(seed.value);
    }
    if n.Some? && n.value > 0 {
      IntToStringChars(n.value);
    }
  }

  /** The eight fields of a row as `exportAsCSV` writes them; only the prompt is quoted. */
  function RowCells(row: CSVRow): seq<Cell>
  {
    [Plain(IntToString(row.a)), Plain(row.category), Plain(row.filename), Quoted(row.prompt),
     Plain(OrEmpty(row.style)), Plain(OrEmpty(row.size)), Plain(SeedText(row.seed)), Plain(CountText(row.n))]
  }

  function RenderRow(row: CSVRow): string
  {
    Join(EncodeAll(RowCells(row)), ',')
  }

  /** `csvRows.map(row => ...join(','))` */
  function RenderRows(rows: seq<CSVRow>): (lines: seq<string>)
    ensures |lines| == |rows| && forall k :: 0 <= k < |rows| ==> lines[k] == RenderRow(rows[k])
    decreases |rows|
  {
    if rows == [] then [] else [RenderRow(rows[0])] + RenderRows(rows[1..])
  }

  /** `exportAsCSV`: the header line, then one line per row, joined by `\n`. */
  function ExportAsCSV(project: Project): string
  {
    Join([Join(HeaderNames, ',')] + RenderRows(Rows(project)), '\n')
  }

  /** The header line: the column names joined by `,`. */
  const Header: string := Join(HeaderNames, ',')

  /**
   * The export starts with the header line. A project without prompts exports
   * the header alone; otherwise a `\n` follows it (and there is no `\n` at the
   * very end, as the last line is a rendered row).
   */
  lemma ExportStartsWithHeader(project: Project)
    ensures var text := ExportAsCSV(project);
      && |Header| <= |text| && text[..|Header|] == Header
      && (PromptCount(project.video.chapters) == 0 <==> text == Header)
      && (PromptCount(project.video.chapters) > 0 ==> text[|Header|] == '\n')
  {
    RowCount(project.video.chapters);
    var lines := [Header] + RenderRows(Rows(project));
    if |lines| > 1 {
      assert ExportAsCSV(project) == Header + "\n" + Join(lines[1..], '\n');
    }
  }

  // ---------------------------------------------------------------------
  // Reading the export back
  // ---------------------------------------------------------------------

  /** Text that can stand in a CSV field without quotes (section 2, rule 5 of RFC 4180, with `\n` records). */
  predicate PlainText(s: string)
  {
    forall k :: 0 <= k < |s| ==> s[k] != ',' && s[k] != '"' && s[k] != '\n'
  }

  predicate CellReadable(c: Cell)
  {
    c.Quoted? || PlainText(c.text)
  }

  predicate FieldEnd(t: string)
  {
    t == [] || t[0] == ',' || t[0] == '\n'
  }

  /** Undoubling the quotes of a quoted field recovers the text that was quoted. */
  lemma {:induction false} ReadQuotedEscaped(f: string, t: string)
    requires t == [] || t[0] != '"'
    ensures ReadQuoted(EscapeQuotes(f) + "\"" + t) == Some((f, t))
    decreases |f|
  {
    if f == [] {
      assert EscapeQuotes(f) + "\"" + t == "\"" + t;
    } else {
      ReadQuotedEscaped(f[1..], t);
      var rest := EscapeQuotes(f[1..]) + "\"" + t;
      if f[0] == '"' {
        assert EscapeQuotes(f) + "\"" + t == "\"\"" + rest;
        assert ("\"\"" + rest)[2..] == rest;
      } else {
        assert EscapeQuotes(f) + "\"" + t == [f[0]] + rest;
        assert ([f[0]] + rest)[1..] == rest;
      }
      assert [f[0]] + f[1..] == f;
    }
  }

  lemma {:induction false} ReadPlainOf(f: string, t: string)
    requires PlainText(f) && FieldEnd(t)
    ensures ReadPlain(f + t) == (f, t)
    decreases |f|
  {
    if f == [] {
      assert f + t == t;
    } else {
      ReadPlainOf(f[1..], t);
      assert (f + t)[1..] == f[1..] + t;
      assert [f[0]] + f[1..] == f;
    }
  }

  lemma ReadFieldOf(c: Cell, t: string)
    requires CellReadable(c) && FieldEnd(t)
    ensures ReadField(Encode(c) + t) == Some((c.text, t))
  {
    match c
    case Plain(f) =>
      ReadPlainOf(f, t);
    case Quoted(f) =>
      ReadQuotedEscaped(f, t);
      assert (Encode(c) + t)[1..] == EscapeQuotes(f) + "\"" + t;
  }

  /** A record written from readable cells reads back as the cells' texts. */
  lemma {:induction false} ReadRecordOf(cells: seq<Cell>, t: string)
    requires |cells| >= 1 && forall k :: 0 <= k < |cells| ==> CellReadable(cells[k])
    requires t == [] || t[0] == '\n'
    ensures ReadRecord(Join(EncodeAll(cells), ',') + t) ==
            Some((Texts(cells), if t == [] then [] else t[1..], t != []))
    decreases |cells|
  {
    var parts := EncodeAll(cells);
    if |cells| == 1 {
      ReadFieldOf(cells[0], t);
      assert parts == [Encode(cells[0])];
      assert Texts(cells) == [cells[0].text];
    } else {
      var tail := cells[1..];
      var line := Join(EncodeAll(tail), ',');
      assert cells == [cells[0]] + tail;
      EncodeAllCons(cells[0], tail);
      JoinCons(Encode(cells[0]), EncodeAll(tail), ',');
      ReadRecordOf(tail, t);
      var after := [','] + (line + t);
      Regroup(Encode(cells[0]), [','], line, t);
      ReadFieldOf(cells[0], after);
      DropFirst(',', line + t);
    }
  }

  lemma Regroup(a: string, b: string, c: string, d: string)
    ensures a + b + c + d == a + (b + (c + d))
  {
  }

  lemma DropFirst(c: char, s: string)
    ensures ([c] + s)[1..] == s
  {
  }

  /** The same for the last record of a text. */
  lemma ReadLastRecordOf(cells: seq<Cell>)
    requires |cells| >= 1 && forall k :: 0 <= k < |cells| ==> CellReadable(cells[k])
    ensures ReadRecord(Join(EncodeAll(cells), ',')) == Some((Texts(cells), [], false))
  {
    var line := Join(EncodeAll(cells), ',');
    ReadRecordOf(cells, []);
    assert line + [] == line;
  }

  /** Each line's cells, encoded and joined by `,`. */
  function EncodeLines(lines: seq<seq<Cell>>): (r: seq<string>)
    ensures |r| == |lines| && forall i :: 0 <= i < |lines| ==> r[i] == Join(EncodeAll(lines[i]), ',')
    decreases |lines|
  {
    if lines == [] then [] else [Join(EncodeAll(lines[0]), ',')] + EncodeLines(lines[1..])
  }

  function TextLines(lines: seq<seq<Cell>>): (r: seq<seq<string>>)
    ensures |r| == |lines| && forall i :: 0 <= i < |lines| ==> r[i] == Texts(lines[i])
    decreases |lines|
  {
    if lines == [] then [] else [Texts(lines[0])] + TextLines(lines[1..])
  }

  predicate LinesReadable(lines: seq<seq<Cell>>)
  {
    forall i :: 0 <= i < |lines| ==>
      |lines[i]| >= 1 && forall k :: 0 <= k < |lines[i]| ==> CellReadable(lines[i][k])
  }

  /** Lines written from readable cells, joined by `\n`, read back as their texts. */
  lemma {:induction false} ReadAllOf(lines: seq<seq<Cell>>)
    requires |lines| >= 1 && LinesReadable(lines)
    ensures ReadAll(Join(EncodeLines(lines), '\n')) == Some(TextLines(lines))
    decreases |lines|
  {
    var texts := EncodeLines(lines);
    var line := Join(EncodeAll(lines[0]), ',');
    if |lines| == 1 {
      ReadLastRecordOf(lines[0]);
      assert texts == [line];
      assert TextLines(lines) == [Texts(lines[0])];
    } else {
      var tail := lines[1..];
      var others := Join(EncodeLines(tail), '\n');
      assert TextLines(lines) == [Texts(lines[0])] + TextLines(tail);
      LinesReadableTail(lines);
      ReadAllOf(tail);
      SplitFirstLine(lines);
      ReadRecordOf(lines[0], ['\n'] + others);
      DropFirst('\n', others);
    }
  }

  lemma LinesReadableTail(lines: seq<seq<Cell>>)
    requires |lines| >= 1 && LinesReadable(lines)
    ensures LinesReadable(lines[1..])
  {
    var tail := lines[1..];
    forall i | 0 <= i < |tail| ensures |tail[i]| >= 1 && forall k :: 0 <= k < |tail[i]| ==> CellReadable(tail[i][k]) {
      assert tail[i] == lines[i + 1];
    }
  }

  /** The joined lines are the first line, a `\n`, and the other lines joined. */
  lemma SplitFirstLine(lines: seq<seq<Cell>>)
    requires |lines| >= 2
    ensures Join(EncodeLines(lines), '\n') ==
            Join(EncodeAll(lines[0]), ',') + (['\n'] + Join(EncodeLines(lines[1..]), '\n'))
  {
    var rest := EncodeLines(lines[1..]);
    assert EncodeLines(lines) == [Join(EncodeAll(lines[0]), ',')] + rest;
    JoinConsGrouped(Join(EncodeAll(lines[0]), ','), rest, '\n');
  }

  lemma JoinConsGrouped(first: string, rest: seq<string>, sep: char)
    requires rest != []
    ensures Join([first] + rest, sep) == first + ([sep] + Join(rest, sep))
  {
    JoinCons(first, rest, sep);
  }

  /** The fields `exportAsCSV` writes unquoted contain no `,`, `"` or `\n`. */
  predicate UnquotedFieldsPlain(row: CSVRow)
  {
    PlainText(row.category) && PlainText(row.filename) && PlainText(OrEmpty(row.size))
  }

  lemma IntToStringPlain(i: int)
    ensures PlainText(IntToString(i))
  {
    IntToStringChars(i);
  }

  lemma RowCellsReadable(row: CSVRow)
    requires UnquotedFieldsPlain(row)
    requires row.style == Some("vivid") || row.style == Some("natural")
    ensures |RowCells(row)| >= 1 && forall k :: 0 <= k < |RowCells(row)| ==> CellReadable(RowCells(row)[k])
  {
    OtherCellsReadable(row);
  }

  /** Every cell of a row but the category's is readable when the file name and size are plain. */
  lemma OtherCellsReadable(row: CSVRow)
    requires PlainText(row.filename) && PlainText(OrEmpty(row.size))
    requires row.style == Some("vivid") || row.style == Some("natural")
    ensures |RowCells(row)| == 8 && CellReadable(RowCells(row)[0])
    ensures forall k :: 2 <= k < 8 ==> CellReadable(RowCells(row)[k])
  {
    IntToStringPlain(row.a);
    if row.seed.Some? { IntToStringPlain(row.seed.value); }
    if row.n.Some? { IntToStringPlain(row.n.value); }
    StylesPlain();
  }

  lemma StylesPlain()
    ensures PlainText("vivid") && PlainText("natural")
  {
    assert PlainText("vivid");
    assert PlainText("natural");
  }

  /** The texts a reader finds in a rendered row: the row's fields, the prompt unquoted. */
  function RowFields(row: CSVRow): seq<string>
  {
    [IntToString(row.a), row.category, row.filename, row.prompt,
     OrEmpty(row.style), OrEmpty(row.size), SeedText(row.seed), CountText(row.n)]
  }

  function RowLines(rows: seq<CSVRow>): (lines: seq<seq<Cell>>)
    ensures |lines| == |rows| && forall k :: 0 <= k < |rows| ==> lines[k] == RowCells(rows[k])
    decreases |rows|
  {
    if rows == [] then [] else [RowCells(rows[0])] + RowLines(rows[1..])
  }

  function FieldsOfRows(rows: seq<CSVRow>): (fields: seq<seq<string>>)
    ensures |fields| == |rows| && forall k :: 0 <= k < |rows| ==> fields[k] == RowFields(rows[k])
    decreases |rows|
  {
    if rows == [] then [] else [RowFields(rows[0])] + FieldsOfRows(rows[1..])
  }

  /** The rows whose unquoted fields are plain and whose style is one of the two the export writes. */
  predicate RowsWritable(rows: seq<CSVRow>)
  {
    forall k :: 0 <= k < |rows| ==>
      UnquotedFieldsPlain(rows[k]) && (rows[k].style == Some("vivid") || rows[k].style == Some("natural"))
  }

  /** The export's lines are the rows' cells encoded, their texts the rows' fields, and every cell readable. */
  lemma RowLinesProperties(rows: seq<CSVRow>)
    requires RowsWritable(rows)
    ensures EncodeLines(RowLines(rows)) == RenderRows(rows)
    ensures TextLines(RowLines(rows)) == FieldsOfRows(rows)
    ensures LinesReadable(RowLines(rows))
  {
    RowLinesRender(rows);
    RowLinesTexts(rows);
    RowLinesReadable(rows);
  }

  lemma RowLinesRender(rows: seq<CSVRow>)
    ensures EncodeLines(RowLines(rows)) == RenderRows(rows)
  {
  }

  lemma RowLinesTexts(rows: seq<CSVRow>)
    ensures TextLines(RowLines(rows)) == FieldsOfRows(rows)
  {
    forall k | 0 <= k < |rows|
      ensures Texts(RowCells(rows[k])) == RowFields(rows[k])
    {
      RowCellsTexts(rows[k]);
    }
  }

  lemma RowLinesReadable(rows: seq<CSVRow>)
    requires RowsWritable(rows)
    ensures LinesReadable(RowLines(rows))
  {
    forall k | 0 <= k < |rows|
      ensures |RowCells(rows[k])| >= 1 && forall j :: 0 <= j < |RowCells(rows[k])| ==> CellReadable(RowCells(rows[k])[j])
    {
      RowCellsReadable(rows[k]);
    }
  }

  /** `row` is the row `convertToCSV` builds for some prompt of `chapters`. */
  predicate IsPromptRow(chapters: seq<Chapter>, row: CSVRow)
  {
    exists ci, si, pi ::
      && 0 <= ci < |chapters| && 0 <= si < |chapters[ci].scenes|
      && 0 <= pi < |chapters[ci].scenes[si].prompts|
      && row == RowFor(chapters[ci], chapters[ci].scenes[si].prompts[pi])
  }

  /** Every row of the export is the row of one prompt of the project. */
  lemma RowsFromPrompts(chapters: seq<Chapter>)
    ensures forall k :: 0 <= k < |ChapterRows(chapters)| ==> IsPromptRow(chapters, ChapterRows(chapters)[k])
  {
    forall k | 0 <= k < |ChapterRows(chapters)|
      ensures IsPromptRow(chapters, ChapterRows(chapters)[k])
    {
      var ci, si, pi := ChapterRowFrom(chapters, k);
      var prompt := chapters[ci].scenes[si].prompts[pi];
      assert ChapterRows(chapters)[k] == RowFor(chapters[ci], prompt);
    }
  }

  lemma {:induction false} ChapterRowFrom(chapters: seq<Chapter>, k: int) returns (ci: int, si: int, pi: int)
    requires 0 <= k < |ChapterRows(chapters)|
    ensures 0 <= ci < |chapters| && 0 <= si < |chapters[ci].scenes| && 0 <= pi < |chapters[ci].scenes[si].prompts|
    ensures ChapterRows(chapters)[k] == RowFor(chapters[ci], chapters[ci].scenes[si].prompts[pi])
    decreases |chapters|
  {
    var n := |chapters| - 1;
    var front := chapters[..n];
    var last := chapters[n];
    assert ChapterRows(chapters) == ChapterRows(front) + SceneRows(last, last.scenes);
    if k < |ChapterRows(front)| {
      ci, si, pi := ChapterRowFrom(front, k);
      assert front[ci] == chapters[ci];
    } else {
      ci := n;
      si, pi := SceneRowsFromPrompts(last, last.scenes, k - |ChapterRows(front)|);
    }
  }

  lemma {:induction false} SceneRowsFromPrompts(chapter: Chapter, scenes: seq<Scene>, k: int)
    returns (si: int, pi: int)
    requires 0 <= k < |SceneRows(chapter, scenes)|
    ensures 0 <= si < |scenes| && 0 <= pi < |scenes[si].prompts|
    ensures SceneRows(chapter, scenes)[k] == RowFor(chapter, scenes[si].prompts[pi])
    decreases |scenes|
  {
    var n := |scenes| - 1;
    var front := scenes[..n];
    assert SceneRows(chapter, scenes) == SceneRows(chapter, front) + PromptRows(chapter, scenes[n].prompts);
    if k < |SceneRows(chapter, front)| {
      si, pi := SceneRowsFromPrompts(chapter, front, k);
    } else {
      si := n;
      pi := PromptRowFrom(chapter, scenes[n].prompts, k - |SceneRows(chapter, front)|);
    }
  }

  lemma {:induction false} PromptRowFrom(chapter: Chapter, prompts: seq<Prompt>, k: int) returns (pi: int)
    requires 0 <= k < |PromptRows(chapter, prompts)|
    ensures 0 <= pi < |prompts| && PromptRows(chapter, prompts)[k] == RowFor(chapter, prompts[pi])
    decreases |prompts|
  {
    var n := |prompts| - 1;
    if k < |PromptRows(chapter, prompts[..n])| {
      pi := PromptRowFrom(chapter, prompts[..n], k);
    } else {
      pi := n;
    }
  }

  /**
   * Reading the exported text back gives the header names and then, for each
   * prompt in order, its row's eight fields, the prompt text exactly as it was
   * (whatever quotes, commas or line breaks it holds) — provided the fields
   * written without quotes contain no `,`, `"` or `\n`.
   */
  lemma ExportReadsBack(project: Project)
    requires forall k :: 0 <= k < |Rows(project)| ==> UnquotedFieldsPlain(Rows(project)[k])
    ensures ReadAll(ExportAsCSV(project)) == Some([HeaderNames] + FieldsOfRows(Rows(project)))
  {
    var rows := Rows(project);
    RowsHaveStyle(project.video.chapters);
    RowLinesProperties(rows);
    var header := PlainCells(HeaderNames);
    HeaderNamesPlain();
    PlainCellsReadable(HeaderNames);
    LinesCons(header, RowLines(rows));
    ReadAllOf([header] + RowLines(rows));
  }

  /** Encoding, reading and readability of lines, one line in front of others. */
  lemma LinesCons(line: seq<Cell>, lines: seq<seq<Cell>>)
    ensures EncodeLines([line] + lines) == [Join(EncodeAll(line), ',')] + EncodeLines(lines)
    ensures TextLines([line] + lines) == [Texts(line)] + TextLines(lines)
    ensures |line| >= 1 && (forall k :: 0 <= k < |line| ==> CellReadable(line[k])) && LinesReadable(lines) ==>
            LinesReadable([line] + lines)
  {
    assert ([line] + lines)[1..] == lines;
    if |line| >= 1 && (forall k :: 0 <= k < |line| ==> CellReadable(line[k])) && LinesReadable(lines) {
      var all := [line] + lines;
      forall i | 0 <= i < |all| ensures |all[i]| >= 1 && forall k :: 0 <= k < |all[i]| ==> CellReadable(all[i][k]) {
        if i > 0 {
          assert all[i] == lines[i - 1];
        }
      }
    }
  }

  /** Every row's style is 'vivid' or 'natural'. */
  lemma RowsHaveStyle(chapters: seq<Chapter>)
    ensures forall k :: 0 <= k < |ChapterRows(chapters)| ==>
      ChapterRows(chapters)[k].style == Some("vivid") || ChapterRows(chapters)[k].style == Some("natural")
  {
    forall k | 0 <= k < |ChapterRows(chapters)|
      ensures ChapterRows(chapters)[k].style == Some("vivid") || ChapterRows(chapters)[k].style == Some("natural")
    {
      var ci, si, pi := ChapterRowFrom(chapters, k);
    }
  }

  /** Names written as plain cells. */
  function PlainCells(names: seq<string>): (cells: seq<Cell>)
    ensures EncodeAll(cells) == names && Texts(cells) == names
    ensures |cells| == |names| && forall k :: 0 <= k < |names| ==> cells[k] == Plain(names[k])
    decreases |names|
  {
    if names == [] then [] else [Plain(names[0])] + PlainCells(names[1..])
  }

  lemma PlainCellsReadable(names: seq<string>)
    requires forall k :: 0 <= k < |names| ==> PlainText(names[k])
    ensures forall k :: 0 <= k < |names| ==> CellReadable(PlainCells(names)[k])
  {
  }

  lemma HeaderNamesPlain()
    ensures forall k :: 0 <= k < |HeaderNames| ==> PlainText(HeaderNames[k])
  {
    assert PlainText("a");
    assert PlainText("category");
    assert PlainText("filename");
    assert PlainText("prompt");
    assert PlainText("style");
    assert PlainText("size");
    assert PlainText("seed");
    assert PlainText("n");
  }

  /**
   * Only the prompt is quoted: a category read from a project with a `,` in
   * it splits its row into nine fields where the header has eight.
   */
  lemma CommaInCategorySplitsRow(row: CSVRow, x: string, y: string)
    requires row.category == x + "," + y && PlainText(x) && PlainText(y)
    requires PlainText(row.filename) && PlainText(OrEmpty(row.size))
    requires row.style == Some("vivid") || row.style == Some("natural")
    ensures ReadRecord(RenderRow(row)) == Some(([IntToString(row.a), x, y] + RowFields(row)[2..], [], false))
  {
    var cells := RowCells(row);
    OtherCellsReadable(row);
    ReadRecordSplitsField(cells, x, y);
    RowCellsTexts(row);
    assert Texts(cells[2..]) == Texts(cells)[2..];
  }

  /** The texts of a row's cells are its fields. */
  lemma RowCellsTexts(row: CSVRow)
    ensures Texts(RowCells(row)) == RowFields(row)
  {
  }

  lemma EncodeAllCons(c: Cell, cells: seq<Cell>)
    ensures EncodeAll([c] + cells) == [Encode(c)] + EncodeAll(cells)
    ensures Texts([c] + cells) == [c.text] + Texts(cells)
  {
    assert ([c] + cells)[1..] == cells;
  }

  /** The cells of a record with its plain second field cut in two at a `,`. */
  function SplitSecond(cells: seq<Cell>, x: string, y: string): (split: seq<Cell>)
    requires |cells| >= 2
    ensures |split| == |cells| + 1
    ensures split[0] == cells[0] && split[1] == Plain(x) && split[2] == Plain(y)
    ensures forall k :: 3 <= k < |split| ==> split[k] == cells[k - 1]
  {
    [cells[0]] + ([Plain(x)] + ([Plain(y)] + cells[2..]))
  }

  lemma SplitSecondTexts(cells: seq<Cell>, x: string, y: string)
    requires |cells| >= 2
    ensures Texts(SplitSecond(cells, x, y)) == [cells[0].text, x, y] + Texts(cells[2..])
  {
    var split := SplitSecond(cells, x, y);
    var r := [cells[0].text, x, y] + Texts(cells[2..]);
    forall k | 0 <= k < |r| ensures Texts(split)[k] == r[k] {
      if k >= 3 {
        assert r[k] == Texts(cells[2..])[k - 3];
      }
    }
  }

  /** A plain second field holding a `,` reads back as two fields. */
  lemma ReadRecordSplitsField(cells: seq<Cell>, x: string, y: string)
    requires |cells| >= 2 && cells[1] == Plain(x + "," + y) && PlainText(x) && PlainText(y)
    requires CellReadable(cells[0]) && forall k :: 2 <= k < |cells| ==> CellReadable(cells[k])
    ensures ReadRecord(Join(EncodeAll(cells), ',')) == Some(([cells[0].text, x, y] + Texts(cells[2..]), [], false))
  {
    var split := SplitSecond(cells, x, y);
    SplitLine(cells, x, y);
    SplitSecondTexts(cells, x, y);
    assert forall k :: 0 <= k < |split| ==> CellReadable(split[k]);
    ReadLastRecordOf(split);
  }

  lemma SplitLine(cells: seq<Cell>, x: string, y: string)
    requires |cells| >= 2 && cells[1] == Plain(x + "," + y)
    ensures Join(EncodeAll(cells), ',') == Join(EncodeAll([cells[0]] + ([Plain(x)] + ([Plain(y)] + cells[2..]))), ',')
  {
    var rest := cells[2..];
    assert cells == [cells[0]] + ([cells[1]] + rest);
    EncodeAllCons(cells[1], rest);
    EncodeAllCons(cells[0], [cells[1]] + rest);
    EncodeAllCons(Plain(y), rest);
    EncodeAllCons(Plain(x), [Plain(y)] + rest);
    EncodeAllCons(cells[0], [Plain(x)] + ([Plain(y)] + rest));
    SplitJoin(Encode(cells[0]), x, y, EncodeAll(rest));
  }

  lemma SplitJoin(first: string, x: string, y: string, tail: seq<string>)
    ensures Join([first] + ([x + "," + y] + tail), ',') == Join([first] + ([x] + ([y] + tail)), ',')
  {
    JoinCons(first, [x + "," + y] + tail, ',');
    JoinCons(first, [x] + ([y] + tail), ',');
    JoinCons(x, [y] + tail, ',');
    if tail == [] {
      assert [x + "," + y] + tail == [x + "," + y];
      assert [y] + tail == [y];
    } else {
      JoinCons(x + "," + y, tail, ',');
      JoinCons(y, tail, ',');
    }
  }

  // ---------------------------------------------------------------------
  // parseJSONProject
  // ---------------------------------------------------------------------

  /** A value produced by `JSON.parse`. */
  datatype Json =
    | JNull
    | JBool(b: bool)
    | JNumber(n: real)
    | JString(s: string)
    | JArray(items: seq<Json>)
    | JObject(members: map<string, Json>)

  /** JavaScript truthiness of a parsed value. */
  predicate Truthy(j: Json)
  {
    match j
    case JNull => false
    case JBool(b) => b
    case JNumber(n) => n != 0.0
    case JString(s) => s != ""
    case _ => true
  }

  /** `j[key]`, with None for `undefined`: the key is missing or `j` is not an object. */
  function Member(j: Json, key: string): Option<Json>
  {
    if j.JObject? && key in j.members then Some(j.members[key]) else None
  }

  /**
   * `parseJSONProject`, given what `JSON.parse` made of the text (None when it
   * threw). Reading a property of `null` throws inside the same `try`, so it
   * gives None as well, like a missing property.
   */
  function ParseJSONProject(parsed: Option<Json>): (r: Option<Json>)
    ensures r.Some? ==> r == parsed
    ensures r.Some? <==>
      && parsed.Some? && parsed.value.JObject?
      && "video" in parsed.value.members
      && var video := parsed.value.members["video"];
      && video.JObject?
      && "title" in video.members && Truthy(video.members["title"])
      && "chapters" in video.members && video.members["chapters"].JArray?
  {
    match parsed
    case None => None
    case Some(j) =>
      var video := Member(j, "video");
      if video.None? || !Truthy(video.value) then None
      else
        var title := Member(video.value, "title");
        if title.None? || !Truthy(title.value) then None
        else
          var chapters := Member(video.value, "chapters");
          if chapters.None? || !chapters.value.JArray? then None
          else parsed
  }

  function OptionalString(key: string, value: Option<string>): map<string, Json>
  {
    if value.Some? then map[key := JString(value.value)] else map[]
  }

  function OptionalNumber(key: string, value: Option<int>): map<string, Json>
  {
    if value.Some? then map[key := JNumber(value.value as real)] else map[]
  }

  function ImageToJson(key: string, image: Option<ImageData>): map<string, Json>
  {
    if image.Some? then
      map[key := JObject(map["path" := JString(image.value.path), "approved" := JBool(image.value.approved)])]
    else map[]
  }

  /** The object `JSON.stringify` serialises for a prompt: absent optional properties are left out. */
  function PromptToJson(q: Prompt): Json
  {
    JObject(map["prompt_text" := JString(q.promptText), "file_name" := JString(q.fileName)]
      + OptionalString("image_size", q.imageSize) + OptionalString("aspect_ratio", q.aspectRatio)
      + OptionalNumber("seed", q.seed) + OptionalNumber("approval_status", q.approvalStatus)
      + OptionalString("created_at", q.createdAt)
      + ImageToJson("image_a", q.imageA) + ImageToJson("image_b", q.imageB))
  }

  function SceneToJson(s: Scene): Json
  {
    JObject(map["scene_number" := JNumber(s.sceneNumber as real),
                "scene_description" := JString(s.sceneDescription),
                "prompts" := JArray(seq(|s.prompts|, k requires 0 <= k < |s.prompts| => PromptToJson(s.prompts[k])))]
      + OptionalString("style", s.style))
  }

  function ChapterToJson(c: Chapter): Json
  {
    JObject(map["chapter_title" := JString(c.chapterTitle),
                "chapter_file_name" := JString(c.chapterFileName),
                "scenes" := JArray(seq(|c.scenes|, k requires 0 <= k < |c.scenes| => SceneToJson(c.scenes[k])))]
      + OptionalString("style", c.style))
  }

  function TranscriptionsToJson(t: Option<Transcriptions>): map<string, Json>
  {
    if t.Some? then
      map["transcriptions" := JObject(OptionalString("storyboard", t.value.storyboard)
                                      + OptionalString("narrative", t.value.narrative))]
    else map[]
  }

  function VideoToJson(v: Video): Json
  {
    JObject(OptionalString("description", v.description) + OptionalString("style", v.style)
      + OptionalString("default_image_size", v.defaultImageSize) + TranscriptionsToJson(v.transcriptions)
      + map["title" := JString(v.title),
            "chapters" := JArray(seq(|v.chapters|, k requires 0 <= k < |v.chapters| => ChapterToJson(v.chapters[k])))])
  }

  /** The value `exportAsJSON` serialises, before it becomes text. */
  function ProjectToJson(p: Project): Json
  {
    JObject(map["video" := VideoToJson(p.video)])
  }

  /**
   * A project's own JSON value passes the import check, unchanged, exactly
   * when its video title is not empty.
   */
  lemma ExportedJsonImports(p: Project)
    ensures ParseJSONProject(Some(ProjectToJson(p))) ==
            if p.video.title != "" then Some(ProjectToJson(p)) else None
  {
    var video := VideoToJson(p.video);
    assert "title" in video.members && video.members["title"] == JString(p.video.title);
    assert "chapters" in video.members && video.members["chapters"].JArray?;
  }
}
