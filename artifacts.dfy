/**
 * The artifacts `generate` writes after the stream ends: the entry appended
 * to the text file, the default file names built from the prompt's hash and
 * the temperature, and the HTML and accent handed to the image renderer.
 */
module Artifacts {

  import opened Wrappers
  import opened Text
  import opened Colour

  /** `"=" * 20`, the line between two generations in the text file. */
  const Separator := Repeat('=', 20)

  /**
   * `plain_text + "\n" + "=" * 20 + "\n"`: the text comes first, unchanged,
   * followed by a newline, twenty `=` and a final newline.
   */
  function TextEntry(plainText: string): (e: string)
    ensures |e| == |plainText| + 22
    ensures e[..|plainText|] == plainText
    ensures e[|plainText|] == '\n' && e[|e| - 1] == '\n'
    ensures forall i :: |plainText| < i < |e| - 1 ==> e[i] == '='
  {
    plainText + "\n" + Separator + "\n"
  }

  /** The text of an entry: everything before its last 22 characters. */
  function EntryText(entry: string): string
    requires |entry| >= 22
  {
    entry[..|entry| - 22]
  }

  /** Appending generations one after another, as repeated runs do to the same file. */
  function AppendEntries(file: string, texts: seq<string>): string
    decreases |texts|
  {
    if texts == [] then file else AppendEntries(file + TextEntry(texts[0]), texts[1..])
  }

  /** Each run only adds to the end of the file: what was there stays a prefix. */
  lemma {:induction false} AppendKeepsPrefix(file: string, texts: seq<string>)
    ensures |AppendEntries(file, texts)| >= |file|
    ensures AppendEntries(file, texts)[..|file|] == file
    decreases |texts|
  {
    if texts != [] {
      var next := file + TextEntry(texts[0]);
      AppendKeepsPrefix(next, texts[1..]);
      assert next[..|file|] == file;
    }
  }

  /** The latest run's entry is the end of the file. */
  lemma {:induction false} AppendOneMore(file: string, texts: seq<string>, text: string)
    ensures AppendEntries(file, texts + [text]) == AppendEntries(file, texts) + TextEntry(text)
    decreases |texts|
  {
    if texts == [] {
      assert texts + [text] == [text];
      assert [text][1..] == [];
    } else {
      assert (texts + [text])[0] == texts[0];
      assert (texts + [text])[1..] == texts[1..] + [text];
      AppendOneMore(file + TextEntry(texts[0]), texts[1..], text);
    }
  }

  /** The text of an entry is recovered from it. */
  lemma EntryTextRecovers(text: string)
    ensures EntryText(TextEntry(text)) == text
  {
  }

  /** `str(temperature).replace(".", "_")`, the temperature already printed by `str`. */
  function TempString(temperature: string): (r: string)
    ensures |r| == |temperature| && '.' !in r
    ensures forall i :: 0 <= i < |r| ==> r[i] == if temperature[i] == '.' then '_' else temperature[i]
  {
    ReplaceCharPointwise(temperature, '.', '_');
    ReplaceAll(temperature, ".", "_")
  }

  /** The first eight hex characters of the SHA-256 of the prompt, taken as given. */
  type PromptHash = h: string | |h| == 8 witness "00000000"

  /** `txt_output/{prompt_hash}__{temp_string}.txt`. */
  function DefaultTxtPath(hash: PromptHash, temperature: string): (p: string)
    ensures |p| == 25 + |temperature|
    ensures p[..11] == "txt_output/" && p[11..19] == hash && p[19..21] == "__"
    ensures p[21..|p| - 4] == TempString(temperature) && p[|p| - 4..] == ".txt"
  {
    "txt_output/" + hash + "__" + TempString(temperature) + ".txt"
  }

  /** `datetime.now().strftime("%Y%m%d_%H%M%S")`: fifteen characters for a four-digit year. */
  type Timestamp = t: string | |t| == 15 witness "20200101_000000"

  /** `img_output/{timestamp}__{prompt_hash}__{temp_string}.png`. */
  function DefaultImgPath(timestamp: Timestamp, hash: PromptHash, temperature: string): (p: string)
    ensures |p| == 42 + |temperature|
    ensures p[..11] == "img_output/" && p[11..26] == timestamp && p[26..28] == "__"
    ensures p[28..36] == hash && p[36..38] == "__"
    ensures p[38..|p| - 4] == TempString(temperature) && p[|p| - 4..] == ".png"
  {
    "img_output/" + timestamp + "__" + hash + "__" + TempString(temperature) + ".png"
  }

  /** `output_txt` when it is truthy (neither `None` nor empty), else the default. */
  function TxtFileName(outputTxt: Option<string>, hash: PromptHash, temperature: string): (path: string)
    ensures outputTxt.Some? && outputTxt.value != "" ==> path == outputTxt.value
    ensures outputTxt == None || outputTxt == Some("") ==> path == DefaultTxtPath(hash, temperature)
  {
    if outputTxt.Some? && outputTxt.value != "" then outputTxt.value
    else DefaultTxtPath(hash, temperature)
  }

  /** `output_img` when it is truthy, else the default. */
  function ImgFileName(outputImg: Option<string>, timestamp: Timestamp, hash: PromptHash, temperature: string)
    : (path: string)
    ensures outputImg.Some? && outputImg.value != "" ==> path == outputImg.value
    ensures outputImg == None || outputImg == Some("") ==> path == DefaultImgPath(timestamp, hash, temperature)
  {
    if outputImg.Some? && outputImg.value != "" then outputImg.value
    else DefaultImgPath(timestamp, hash, temperature)
  }

  /**
   * The default text file names one prompt hash and one printed temperature:
   * runs share a file exactly when both agree.
   */
  lemma DefaultTxtPathDetermines(h1: PromptHash, t1: string, h2: PromptHash, t2: string)
    requires DefaultTxtPath(h1, t1) == DefaultTxtPath(h2, t2)
    ensures h1 == h2 && TempString(t1) == TempString(t2)
  {
    var p := DefaultTxtPath(h1, t1);
    assert p[21..|p| - 4] == TempString(t1);
  }

  /**
   * The default image file names one timestamp, one prompt hash and one
   * printed temperature: runs a second apart never overwrite each other's image.
   */
  lemma DefaultImgPathDetermines(s1: Timestamp, h1: PromptHash, t1: string,
                                 s2: Timestamp, h2: PromptHash, t2: string)
    requires DefaultImgPath(s1, h1, t1) == DefaultImgPath(s2, h2, t2)
    ensures s1 == s2 && h1 == h2 && TempString(t1) == TempString(t2)
  {
    var p := DefaultImgPath(s1, h1, t1);
    assert p[38..|p| - 4] == TempString(t1);
  }

  /** `raw_html.replace("\n", "</br>")`: the HTML for the image template has no newline left. */
  function ImageHtml(rawHtml: string): (r: string)
    ensures '\n' !in r
  {
    ReplaceAllRemovesChar(rawHtml, '\n', "</br>");
    ReplaceAll(rawHtml, "\n", "</br>")
  }

  /** HTML on a single line goes to the template unchanged. */
  lemma SingleLineHtmlUnchanged(rawHtml: string)
    requires '\n' !in rawHtml
    ensures ImageHtml(rawHtml) == rawHtml
  {
    ContainsChar(rawHtml, '\n');
    ReplaceAllAbsent(rawHtml, "\n", "</br>");
  }

  /**
   * Each newline becomes `</br>` and the lines between are handled on their
   * own; with `SingleLineHtmlUnchanged` this fixes the result for every input.
   */
  lemma NewlineBecomesBreak(a: string, b: string)
    ensures ImageHtml(a + "\n" + b) == ImageHtml(a) + "</br>" + ImageHtml(b)
  {
    ReplaceCharDistributes(a + "\n", b, '\n', "</br>");
    ReplaceCharDistributes(a, "\n", '\n', "</br>");
    assert StartsWith("\n", "\n");
    assert "\n"[1..] == [];
  }

  /** The `accent` parameter of the template, `rgb(a0,a1,a2)`, not capped; it reads back as the accent. */
  function AccentParameter(accent: Rgb): (s: string)
    ensures ParseRgb(s) == Some(accent)
  {
    ParseFormatRgb(accent);
    FormatRgb(accent)
  }
}
