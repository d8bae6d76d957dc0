/**
 * The command-line shortlister (ats_cli.py): every PDF in the resume folder is
 * read, scored by the model against a fixed job description and moved to the
 * shortlist folder when the score is above 90. Unlike the web app it handles no
 * error while reading a PDF or calling the model: such an error ends the run.
 * The directory listing, the file move and the model are inputs: a listing that
 * could not be read is `None`, each file carries its pages and the script of
 * outcomes the model gives for it.
 */
module AtsCli {
  import opened Wrappers
  import opened PyStr
  import opened Documents
  import opened ScoringClient
  import Prompts

  /** The CLI's own copy of the score template up to the job description. */
  const CliHead: string :=
    "\n" +
    "    You are a skilled ATS (Applicant Tracking System) scanner with a deep understanding of ATS functionality. \n" +
    "    Evaluate the given resume against the provided job description and provide a match score. The output should be a single number representing the percentage match without the % symbol, based on the following criteria:\n" +
    "\n" +
    "    - If the resume is empty or not valid, return 0.\n" +
    "    - If the resume does not fit the job description at all (i.e., no relevant skills or experience), return 0.\n" +
    "    - If the resume partially matches the job description, calculate a percentage match based on the overlap of required skills, experience, and qualifications.\n" +
    "    - If the resume fully matches the job description, return a percentage close to 100.\n" +
    "\n" +
    "    Provide only a single number as the output. Do not include any additional text or explanations.\n" +
    "\n" +
    "    Job Description:\n" +
    "    "

  const CliMiddle: string := "\n" + "\n" + "    Resume:\n" + "    "

  const CliTail: string := "\n" + "    "

  /** ats_cli.get_prompt: the description and the resume text between the CLI's own fixed pieces. */
  function CliPrompt(text: string, description: string): (p: string)
    ensures Prompts.Framed(p, CliHead, description, CliMiddle, text, CliTail)
  {
    CliHead + description + CliMiddle + text + CliTail
  }

  /** The CLI's template is the web app's, character for character. */
  lemma CliPromptIsScorePrompt(text: string, description: string)
    ensures CliPrompt(text, description) == Prompts.ScorePrompt(text, description)
  {
    assert CliHead == Prompts.ScoreHead;
  }

  predicate AllExtracted(pages: seq<PageText>) {
    forall k :: 0 <= k < |pages| ==> pages[k].Extracted?
  }

  /** The text of every page, in order, for pages that all yield text. */
  function AllPages(pages: seq<PageText>): (t: string)
    requires AllExtracted(pages)
  {
    if pages == [] then []
    else
      assert AllExtracted(pages[..|pages| - 1]);
      AllPages(pages[..|pages| - 1]) + pages[|pages| - 1].text
  }

  /**
   * What ats_cli.pdf_to_text returns, `None` standing for the exception it lets
   * through: a file that cannot be opened, or a page without text (`text +=
   * None` raises).
   */
  function CliPdfText(doc: PdfFile): (r: Option<string>)
    ensures r.Some? <==> doc.Pdf? && AllExtracted(doc.pages)
  {
    if doc.Pdf? && AllExtracted(doc.pages) then Some(AllPages(doc.pages)) else None
  }

  /** ats_cli.pdf_to_text, as the loop it is; the first page without text raises. */
  method CliPdfToText(doc: PdfFile) returns (r: Option<string>)
    ensures r == CliPdfText(doc)
  {
    if doc.CorruptPdf? {
      return None;
    }
    var pages := doc.pages;
    var text := "";
    for i := 0 to |pages|
      invariant AllExtracted(pages[..i]) && text == AllPages(pages[..i])
    {
      assert pages[..i + 1][..i] == pages[..i];
      if pages[i].Failed? {
        return None;
      }
      text := text + pages[i].text;
    }
    assert pages[..|pages|] == pages;
    return Some(text);
  }

  /**
   * When the CLI reads a PDF it reads the same text as the web app: with every
   * page yielding text, the web app's reader does not stop early either.
   */
  lemma {:induction false} CliPdfTextAgrees(doc: PdfFile)
    requires CliPdfText(doc).Some?
    ensures CliPdfText(doc).value == PdfText(doc)
  {
    AllPagesIsReadablePrefix(doc.pages);
  }

  lemma {:induction false} AllPagesIsReadablePrefix(pages: seq<PageText>)
    requires AllExtracted(pages)
    ensures AllPages(pages) == ReadablePrefix(pages)
  {
    if pages != [] {
      var n := |pages| - 1;
      assert AllExtracted(pages[..n]);
      AllPagesIsReadablePrefix(pages[..n]);
      Documents.AllPagesRead(pages[..n], pages[n].text);
      assert pages[..n] + [Extracted(pages[n].text)] == pages;
    }
  }

  /** The retry budget get_ats_percentage is called with. */
  const CliRetries: nat := 5

  /** The stripped reply text, `None` after `retries` quota errors, or an exception that ends the run. */
  datatype Percentage = Answered(response: string) | GaveUp | Raised

  /** The outcome of get_ats_percentage and the number of outcomes of the script used up. */
  datatype PercentRun = PercentRun(result: Percentage, calls: nat)

  /**
   * What get_ats_percentage returns on the script `replies`. Every call either
   * returns (a reply, empty or not) or spends one retry (a quota error); any other
   * error escapes the loop.
   */
  function AtsPercentage(replies: seq<ApiOutcome>, retries: nat): (run: PercentRun)
    ensures run.calls <= retries && run.calls <= |replies|
  {
    if retries == 0 then PercentRun(GaveUp, 0)
    else if replies == [] then PercentRun(Raised, 0)
    else
      match replies[0]
      case Exhausted =>
        var rest := AtsPercentage(replies[1..], retries - 1);
        PercentRun(rest.result, rest.calls + 1)
      case OtherError => PercentRun(Raised, 1)
      case Reply(text) => PercentRun(Answered(Strip(text)), 1)
  }

  /** ats_cli.get_ats_percentage: the retry loop; the sleeps are left out. */
  method GetAtsPercentage(replies: seq<ApiOutcome>, retries: nat) returns (result: Percentage, calls: nat)
    ensures PercentRun(result, calls) == AtsPercentage(replies, retries)
  {
    var attempt := 0;
    calls := 0;
    while attempt < retries
      invariant calls == attempt <= retries && attempt <= |replies|
      invariant AtsPercentage(replies, retries) ==
                  var rest := AtsPercentage(replies[attempt..], retries - attempt);
                  PercentRun(rest.result, attempt + rest.calls)
    {
      if attempt == |replies| {
        return Raised, calls;
      }
      var outcome := replies[attempt];
      assert replies[attempt..][1..] == replies[attempt + 1..];
      calls := calls + 1;
      match outcome
      case Exhausted =>
        attempt := attempt + 1;
      case OtherError =>
        return Raised, calls;
      case Reply(text) =>
        return Answered(Strip(text)), calls;
    }
    result := GaveUp;
  }

  /** get_ats_percentage gives up exactly when the first `retries` outcomes are all quota errors. */
  lemma {:induction false} GivesUpExactly(replies: seq<ApiOutcome>, retries: nat)
    ensures AtsPercentage(replies, retries).result == GaveUp <==>
              retries <= |replies| && forall k :: 0 <= k < retries ==> replies[k] == Exhausted
    ensures AtsPercentage(replies, retries).result == GaveUp ==> AtsPercentage(replies, retries).calls == retries
  {
    if retries > 0 && replies != [] {
      GivesUpExactly(replies[1..], retries - 1);
      assert forall k :: 1 <= k < retries && k < |replies| ==> replies[1..][k - 1] == replies[k];
    }
  }

  /**
   * The first outcome that is not a quota error decides, when it comes within the
   * budget: a reply is returned stripped, even when it is empty, and another error
   * escapes; no later outcome is used.
   */
  lemma {:induction false} FirstAnswerReturned(replies: seq<ApiOutcome>, retries: nat, d: nat)
    requires d < retries && d < |replies| && replies[d] != Exhausted
    requires forall k :: 0 <= k < d ==> replies[k] == Exhausted
    ensures AtsPercentage(replies, retries) ==
              PercentRun(if replies[d].Reply? then Answered(Strip(replies[d].text)) else Raised, d + 1)
  {
    if d > 0 {
      assert replies[0] == Exhausted;
      assert forall k :: 0 <= k < d - 1 ==> replies[1..][k] == replies[k + 1];
      FirstAnswerReturned(replies[1..], retries - 1, d - 1);
    }
  }

  /** A file as main sees it: its name in the listing, its pages, and the model's outcomes for it. */
  datatype CliFile = CliFile(name: string, pdf: PdfFile, replies: seq<ApiOutcome>)

  /** What main does with one listed file. */
  datatype CliVerdict =
    | NotPdf
    | Skipped
    | Shortlisted(score: int)
    | NotShortlisted(score: int)
    | InvalidResponse

  /** The `.pdf` test of main, made on the lower-cased name. */
  predicate IsPdfName(name: string) {
    EndsWith(LowerStr(name), ".pdf")
  }

  /**
   * The body of main's loop for one file; `None` is an exception that ends the
   * run (an unreadable PDF or an error of the model other than a quota error).
   * A response that `int()` rejects, the empty one among them, is reported as
   * invalid; a score is shortlisted only when it is above 90.
   */
  function Decide(f: CliFile): (v: Option<CliVerdict>)
  {
    if !IsPdfName(f.name) then Some(NotPdf)
    else
      match CliPdfText(f.pdf)
      case None => None
      case Some(_) =>
        match AtsPercentage(f.replies, CliRetries).result
        case Raised => None
        case GaveUp => Some(Skipped)
        case Answered(response) =>
          match ParseInt(response)
          case None => Some(InvalidResponse)
          case Some(n) => Some(if n > 90 then Shortlisted(n) else NotShortlisted(n))
  }

  /**
   * A file is shortlisted with score `n` exactly when its lower-cased name ends in
   * `.pdf`, all its pages yield text, the model answers within the budget and the
   * answer is the integer `n`, which is above 90.
   */
  lemma ShortlistedExactly(f: CliFile, n: int)
    ensures Decide(f) == Some(Shortlisted(n)) <==>
              && IsPdfName(f.name) && CliPdfText(f.pdf).Some?
              && AtsPercentage(f.replies, CliRetries).result.Answered?
              && ParseInt(AtsPercentage(f.replies, CliRetries).result.response) == Some(n)
              && n > 90
    ensures Decide(f) == Some(NotShortlisted(n)) <==>
              && IsPdfName(f.name) && CliPdfText(f.pdf).Some?
              && AtsPercentage(f.replies, CliRetries).result.Answered?
              && ParseInt(AtsPercentage(f.replies, CliRetries).result.response) == Some(n)
              && n <= 90
  {
  }

  /** The threshold is strict: a reply of exactly 90 is not shortlisted, 91 is. */
  lemma ThresholdIsStrict(name: string, doc: PdfFile, n: nat)
    requires IsPdfName(name) && CliPdfText(doc).Some?
    ensures Decide(CliFile(name, doc, [Reply(Decimal(n))])) ==
              Some(if n > 90 then Shortlisted(n) else NotShortlisted(n))
  {
    var d := Decimal(n);
    assert IsDigit(d[0]) && IsDigit(d[|d| - 1]);
    StripTrimmed(d);
    ParseDecimal(n);
    assert AtsPercentage([Reply(d)], CliRetries) == PercentRun(Answered(d), 1);
  }

  /** An empty reply is returned as it is and then rejected by `int()`. */
  lemma EmptyReplyIsInvalid(name: string, doc: PdfFile)
    requires IsPdfName(name) && CliPdfText(doc).Some?
    ensures Decide(CliFile(name, doc, [Reply("")])) == Some(InvalidResponse)
  {
    StripTrimmed("");
    assert AtsPercentage([Reply("")], CliRetries) == PercentRun(Answered(""), 1);
  }

  /** Five quota errors in a row make main skip the file, whatever the model says next. */
  lemma FiveQuotaErrorsSkip(name: string, doc: PdfFile, later: seq<ApiOutcome>)
    requires IsPdfName(name) && CliPdfText(doc).Some?
    ensures Decide(CliFile(name, doc, [Exhausted, Exhausted, Exhausted, Exhausted, Exhausted] + later)) == Some(Skipped)
  {
    var replies := [Exhausted, Exhausted, Exhausted, Exhausted, Exhausted] + later;
    assert forall k :: 0 <= k < CliRetries ==> replies[k] == Exhausted;
    GivesUpExactly(replies, CliRetries);
  }

  /**
   * main tests the suffix on the lower-cased name, so `cv.PDF` is read, while the
   * web app's file_to_text reads no such file.
   */
  lemma UpperCaseSuffixRead(pdf: PdfFile, docx: DocxFile)
    ensures IsPdfName("cv.PDF")
    ensures FileToText(Upload("cv.PDF", pdf, docx)) == None
  {
    var lowered := LowerStr("cv.PDF");
    assert Lower('P') == 'p' && Lower('D') == 'd' && Lower('F') == 'f' && Lower('.') == '.';
    assert lowered[2..] == ".pdf";
    UpperCaseSuffixIgnored(pdf, docx);
  }

  /** main's loop body, with the calls it makes. */
  method DecideFile(f: CliFile) returns (v: Option<CliVerdict>)
    ensures v == Decide(f)
  {
    if !IsPdfName(f.name) {
      return Some(NotPdf);
    }
    var text := CliPdfToText(f.pdf);
    if text.None? {
      return None;
    }
    var response, _ := GetAtsPercentage(f.replies, CliRetries);
    match response
    case Raised =>
      return None;
    case GaveUp =>
      return Some(Skipped);
    case Answered(r) =>
      var parsed := ParseInt(r);
      if parsed.None? {
        return Some(InvalidResponse);
      }
      var n := parsed.value;
      if !(n > 90) {
        return Some(NotShortlisted(n));
      }
      return Some(Shortlisted(n));
  }

  /** A run of main: nothing to do, or the verdicts on the listed files in order and whether an exception ended it. */
  datatype CliRun = NoResumes | Ran(verdicts: seq<CliVerdict>, crashed: bool)

  /** The names of the files moved to the shortlist folder, in listing order. */
  function MovedNames(files: seq<CliFile>, verdicts: seq<CliVerdict>): (names: seq<string>)
    requires |verdicts| <= |files|
    ensures |names| <= |verdicts|
  {
    if verdicts == [] then []
    else
      var n := |verdicts| - 1;
      MovedNames(files, verdicts[..n]) + (if verdicts[n].Shortlisted? then [files[n].name] else [])
  }

  /** `verdicts` are main's verdicts on the first files of `files`, in order. */
  predicate Decided(files: seq<CliFile>, verdicts: seq<CliVerdict>) {
    |verdicts| <= |files| && forall i :: 0 <= i < |verdicts| ==> Decide(files[i]) == Some(verdicts[i])
  }

  lemma DecidedExtends(files: seq<CliFile>, verdicts: seq<CliVerdict>, v: CliVerdict)
    requires Decided(files, verdicts) && |verdicts| < |files|
    requires Decide(files[|verdicts|]) == Some(v)
    ensures Decided(files, verdicts + [v])
  {
    var vs := verdicts + [v];
    forall i | 0 <= i < |vs|
      ensures Decide(files[i]) == Some(vs[i])
    {
      if i < |verdicts| {
        assert vs[i] == verdicts[i];
      }
    }
  }

  lemma MovedNamesExtends(files: seq<CliFile>, verdicts: seq<CliVerdict>, v: CliVerdict)
    requires |verdicts| < |files|
    ensures MovedNames(files, verdicts + [v]) ==
              MovedNames(files, verdicts) + (if v.Shortlisted? then [files[|verdicts|].name] else [])
  {
    assert (verdicts + [v])[..|verdicts|] == verdicts;
  }

  /**
   * ats_cli.main: an unreadable or empty listing does nothing; otherwise the files
   * are decided in listing order until the first exception, which ends the run.
   */
  method RunShortlist(listing: Option<seq<CliFile>>) returns (run: CliRun, moved: seq<string>)
    ensures run == NoResumes <==> listing.None? || listing.value == []
    ensures run == NoResumes ==> moved == []
    ensures run.Ran? ==>
              && Decided(listing.value, run.verdicts)
              && (run.crashed <==> |run.verdicts| < |listing.value|)
              && (run.crashed ==> Decide(listing.value[|run.verdicts|]).None?)
              && moved == MovedNames(listing.value, run.verdicts)
  {
    if listing.None? || |listing.value| == 0 {
      return NoResumes, [];
    }
    var files := listing.value;
    var verdicts: seq<CliVerdict> := [];
    moved := [];
    for i := 0 to |files|
      invariant |verdicts| == i && Decided(files, verdicts)
      invariant moved == MovedNames(files, verdicts)
    {
      var v := DecideFile(files[i]);
      if v.None? {
        return Ran(verdicts, true), moved;
      }
      DecidedExtends(files, verdicts, v.value);
      MovedNamesExtends(files, verdicts, v.value);
      if v.value.Shortlisted? {
        moved := moved + [files[i].name];
      }
      verdicts := verdicts + [v.value];
    }
    return Ran(verdicts, false), moved;
  }
}
