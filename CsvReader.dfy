/*
 * A reader for the CSV text the editor exports, in the style of section 2 of
 * RFC 4180 except that records end at `\n` rather than CRLF: a field that
 * starts with `"` runs to the next lone `"`, with `""` standing for one quote
 * character inside it; any other field runs to the next `,` or `\n`. The
 * editor itself never reads CSV; this reader is the independent definition the
 * export is proved against.
 */
module CsvReader {
  import opened Types

  /**
   * The rest of a quoted field after its opening quote: its content and the
   * text after the closing quote, or None when the quote is never closed.
   */
  function ReadQuoted(s: string): (r: Option<(string, string)>)
    ensures r.Some? ==> |r.value.1| < |s|
    decreases |s|
  {
    if s == [] then None
    else if s[0] == '"' then
      if |s| > 1 && s[1] == '"' then
        match ReadQuoted(s[2..])
        case None => None
        case Some((f, rest)) => Some(("\"" + f, rest))
      else Some(("", s[1..]))
    else
      match ReadQuoted(s[1..])
      case None => None
      case Some((f, rest)) => Some(([s[0]] + f, rest))
  }

  /** An unquoted field: everything up to the next `,` or `\n`, and what follows it. */
  function ReadPlain(s: string): (r: (string, string))
    ensures |r.1| <= |s|
    decreases |s|
  {
    if s == [] || s[0] == ',' || s[0] == '\n' then ("", s)
    else
      var (f, rest) := ReadPlain(s[1..]);
      ([s[0]] + f, rest)
  }

  function ReadField(s: string): (r: Option<(string, string)>)
    ensures r.Some? ==> |r.value.1| <= |s|
  {
    if s != [] && s[0] == '"' then ReadQuoted(s[1..]) else Some(ReadPlain(s))
  }

  /**
   * One record: its fields, the text after the `\n` that ends it, and whether
   * such a `\n` was there (false at the end of the text). None when a closing
   * quote is followed by anything but `,`, `\n` or the end of the text.
   */
  function ReadRecord(s: string): (r: Option<(seq<string>, string, bool)>)
    ensures r.Some? ==> |r.value.1| <= |s| && (r.value.2 ==> |r.value.1| < |s|)
    decreases |s|
  {
    match ReadField(s)
    case None => None
    case Some((f, rest)) =>
      if rest == [] then Some(([f], [], false))
      else if rest[0] == '\n' then Some(([f], rest[1..], true))
      else if rest[0] == ',' then
        match ReadRecord(rest[1..])
        case None => None
        case Some((fields, after, more)) => Some(([f] + fields, after, more))
      else None
  }

  /** All records of a text, in order. */
  function ReadAll(s: string): Option<seq<seq<string>>>
    decreases |s|
  {
    match ReadRecord(s)
    case None => None
    case Some((fields, rest, more)) =>
      if !more then Some([fields])
      else
        match ReadAll(rest)
        case None => None
        case Some(records) => Some([fields] + records)
  }
}
