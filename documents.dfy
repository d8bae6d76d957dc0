/**
 * Text extraction from uploaded resumes. The PDF and DOCX libraries are not
 * modelled; what they report is an input: a PDF either cannot be opened or is a
 * sequence of pages, each of which yields its text or fails (returns no text or
 * raises), and a DOCX either cannot be opened or is a sequence of paragraphs.
 */
module Documents {
  import opened Wrappers
  import opened PyStr

  datatype PageText = Extracted(text: string) | Failed

  datatype PdfFile = CorruptPdf | Pdf(pages: seq<PageText>)

  datatype DocxFile = CorruptDocx | Docx(paragraphs: seq<string>)

  /** An uploaded file: its name, and what each reader makes of its bytes. */
  datatype Upload = Upload(name: string, asPdf: PdfFile, asDocx: DocxFile)

  /** The page texts in order, up to the first page that fails. */
  function ReadablePrefix(pages: seq<PageText>): (t: string)
  {
    if pages == [] || pages[0].Failed? then [] else pages[0].text + ReadablePrefix(pages[1..])
  }

  /**
   * What utils.pdf_to_text returns: the appending loop is cut short by the first
   * failing page (adding a missing text raises, and the handler returns the text
   * gathered so far); a file that cannot be opened gives the empty text.
   */
  function PdfText(doc: PdfFile): (t: string)
  {
    match doc
    case CorruptPdf => []
    case Pdf(pages) => ReadablePrefix(pages)
  }

  /** utils.pdf_to_text, as the loop it is. */
  method PdfToText(doc: PdfFile) returns (text: string)
    ensures text == PdfText(doc)
  {
    text := "";
    if doc.CorruptPdf? {
      return;
    }
    var pages := doc.pages;
    for i := 0 to |pages|
      invariant text + ReadablePrefix(pages[i..]) == ReadablePrefix(pages)
    {
      assert pages[i..][1..] == pages[i + 1..];
      if pages[i].Failed? {
        return;
      }
      text := text + pages[i].text;
    }
  }

  /** Every paragraph followed by a line break. */
  function Lines(paragraphs: seq<string>): (t: string)
  {
    if paragraphs == [] then [] else paragraphs[0] + "\n" + Lines(paragraphs[1..])
  }

  /** What utils.docx_to_text returns; a document that cannot be opened gives the empty text. */
  function DocxText(doc: DocxFile): (t: string)
  {
    match doc
    case CorruptDocx => []
    case Docx(paragraphs) => Lines(paragraphs)
  }

  /** utils.docx_to_text, as the loop it is. */
  method DocxToText(doc: DocxFile) returns (text: string)
    ensures text == DocxText(doc)
  {
    text := "";
    if doc.CorruptDocx? {
      return;
    }
    var paragraphs := doc.paragraphs;
    for i := 0 to |paragraphs|
      invariant text + Lines(paragraphs[i..]) == Lines(paragraphs)
    {
      assert paragraphs[i..][1..] == paragraphs[i + 1..];
      text := text + paragraphs[i] + "\n";
    }
  }

  /**
   * utils.file_to_text: the reader is chosen by a case-sensitive suffix, `.pdf`
   * first, and any other name (`.PDF` among them) gives `None`.
   */
  function FileToText(file: Upload): (r: Option<string>)
    ensures r.Some? <==> EndsWith(file.name, ".pdf") || EndsWith(file.name, ".docx")
    ensures EndsWith(file.name, ".pdf") ==> r == Some(PdfText(file.asPdf))
    ensures EndsWith(file.name, ".docx") ==> r == Some(DocxText(file.asDocx))
  {
    if EndsWith(file.name, ".pdf") then
      assert file.name[|file.name| - 1] == 'f';
      Some(PdfText(file.asPdf))
    else if EndsWith(file.name, ".docx") then Some(DocxText(file.asDocx))
    else None
  }

  /** The text of a PDF whose pages all yield text is the concatenation of all of them. */
  lemma {:induction false} AllPagesRead(pages: seq<PageText>, t: string)
    requires forall k :: 0 <= k < |pages| ==> pages[k].Extracted?
    ensures ReadablePrefix(pages + [Extracted(t)]) == ReadablePrefix(pages) + t
  {
    if pages == [] {
      assert [Extracted(t)][1..] == [];
    } else {
      assert (pages + [Extracted(t)])[1..] == pages[1..] + [Extracted(t)];
      AllPagesRead(pages[1..], t);
    }
  }

  /** Nothing after the first failing page reaches the text, whatever those pages hold. */
  lemma {:induction false} PagesAfterFailureDropped(before: seq<PageText>, after: seq<PageText>)
    requires forall k :: 0 <= k < |before| ==> before[k].Extracted?
    ensures ReadablePrefix(before + [Failed] + after) == ReadablePrefix(before)
  {
    if before == [] {
      assert ([] + [Failed] + after)[0] == Failed;
    } else {
      assert (before + [Failed] + after)[1..] == before[1..] + [Failed] + after;
      PagesAfterFailureDropped(before[1..], after);
    }
  }

  /** Pages contribute in order: the text of any run of readable leading pages is a prefix of the whole text. */
  lemma {:induction false} PdfTextIsPrefix(pages: seq<PageText>, k: nat)
    requires k <= |pages| && forall j :: 0 <= j < k ==> pages[j].Extracted?
    ensures ReadablePrefix(pages[..k]) <= ReadablePrefix(pages)
  {
    if k > 0 {
      assert pages[..k][1..] == pages[1..][..k - 1];
      PdfTextIsPrefix(pages[1..], k - 1);
    }
  }

  /** The index of the first line break in `s`, or `|s|`. */
  function LineEnd(s: string): (e: nat)
    ensures e <= |s| && (e < |s| ==> s[e] == '\n')
    ensures forall k :: 0 <= k < e ==> s[k] != '\n'
  {
    if s == [] || s[0] == '\n' then 0 else 1 + LineEnd(s[1..])
  }

  /** The lines of `s`, cut at each line break; a final line break ends the last line and adds none. */
  function SplitLines(s: string): (ls: seq<string>)
    decreases |s|
  {
    if s == [] then []
    else
      var e := LineEnd(s);
      if e == |s| then [s] else [s[..e]] + SplitLines(s[e + 1..])
  }

  /**
   * Splitting the DOCX text at its line breaks gives back the paragraphs, provided
   * no paragraph holds a line break of its own.
   */
  lemma {:induction false} DocxLinesRoundTrip(paragraphs: seq<string>)
    requires forall i :: 0 <= i < |paragraphs| ==> '\n' !in paragraphs[i]
    ensures SplitLines(Lines(paragraphs)) == paragraphs
  {
    if paragraphs != [] {
      var p := paragraphs[0];
      var s := Lines(paragraphs);
      assert s == p + ("\n" + Lines(paragraphs[1..]));
      LineEndAfter(p, "\n" + Lines(paragraphs[1..]));
      assert s[..|p|] == p;
      assert s[|p| + 1..] == Lines(paragraphs[1..]);
      DocxLinesRoundTrip(paragraphs[1..]);
    }
  }

  lemma LineEndAfter(p: string, rest: string)
    requires '\n' !in p && rest != [] && rest[0] == '\n'
    ensures LineEnd(p + rest) == |p|
  {
    assert forall k :: 0 <= k < |p| ==> (p + rest)[k] == p[k];
    assert (p + rest)[|p|] == '\n';
  }

  /** The suffix test is case-sensitive: an upper-case `.PDF` is read by neither reader. */
  lemma UpperCaseSuffixIgnored(pdf: PdfFile, docx: DocxFile)
    ensures FileToText(Upload("cv.PDF", pdf, docx)) == None
  {
    assert "cv.PDF"[2..] != ".pdf";
    assert "cv.PDF"[1..] != ".docx";
  }
}
