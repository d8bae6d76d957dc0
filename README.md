# ATS resume scorer, modelled in Dafny

The system scores resumes against a job description with a language model. It has
two front ends.

- The web app (`main.py`) does the following for each uploaded file:
  - reads the file as a PDF and rejects it when no text comes out;
  - has the model score it, and rejects it below the score criterion;
  - asks the model for the candidate's name, email and phone;
  - pulls the fields out of the reply with three regular expressions;
  - keeps a record when a name and an email are present, with the name cleaned up.
- The command-line shortlister (`ats_cli.py`) scores every PDF in a folder against a
  fixed description. It moves a file to the shortlist folder when the score is above 90.

The model covers both loops and everything they call in `utils.py`:
- the PDF and DOCX readers and the suffix dispatch;
- the two prompt templates;
- the scoring loop with its quota retries, and the single-call variants;
- the three field extractors, as `re.search` over case-insensitive patterns with
  Python's backtracking order;
- the name clean-up.

The language model, the PDF and DOCX libraries and the directory listing are not
modelled. What they return is an input:
- a PDF is a sequence of pages, and each page yields its text or fails;
- the model is a script of outcomes, one per call: a quota error, another error, or a
  reply whose text may be empty.

A call made after the script has run out behaves like an error other than a quota
error.

Modules, one per file:
- `Wrappers` (`wrappers.dfy`): the `Option` type that stands for Python's `None`-or-value results.
- `PyStr` (`pystr.dfy`): the Python string and integer behaviour the code relies on,
  namely `isspace`/`\s`, `strip`, `lower`, `endswith` and `int()`.
- `Documents` (`documents.dfy`): `pdf_to_text`, `docx_to_text` and `file_to_text`.
- `Prompts` (`prompts.dfy`): `get_prompt` and `get_candidate_info_prompt`.
- `ScoringClient` (`scoring.dfy`): `get_ats_score`, `get_ats_score_deprecated` and
  `get_candidate_info`.
- `CandidateFields` (`extractors.dfy`): the three `extract_info_details_*` functions.
- `CandidateFieldExamples` (`field_examples.dfy`): the extractors on concrete replies.
- `PlainText` (`plain.dfy`): `make_text_plain`.
- `ResumePipeline` (`pipeline.dfy`): the resume loop of `main.py`.
- `AtsCli` (`cli.dfy`): `ats_cli.py`.

In these places the code does something its own prompts and messages do not suggest.
The model follows the code.
- A page whose `extract_text()` returns `None` or raises does not just contribute
  nothing: in `utils.pdf_to_text` the appending line (utils.py:83-84) raises. The
  handler then returns the text gathered so far, so every later page is dropped too
  (`Documents.PagesAfterFailureDropped`). In `ats_cli.pdf_to_text` (ats_cli.py:15-20)
  nothing catches the error, and it ends the whole run. A page whose text is `""` adds
  nothing, and reading goes on. The model's `Failed` page stands for the first case,
  and `Extracted("")` for the second.
- The score prompt asks for "the percentage match" and "a percentage close to 100"
  (utils.py:41-46), but the reply is not checked against 0..100. Whatever integer the
  reply holds is returned, whatever its sign or size (`ScoringClient.ScoreIsUnclamped`).
- An empty reply is asked again without spending the retry budget, because only a
  quota error advances `attempt` (utils.py:141-146; `ScoringClient.EmptyRepliesAreFree`).
- The command-line run stops at the first error that is not a quota error: neither
  `get_ats_percentage` nor `main` in `ats_cli.py` catches it. It does not go on to the
  remaining files (`AtsCli.RunShortlist`).
- In the web app, the error for a missing description or missing uploads
  (main.py:47-54) is only shown. The loop still runs over whatever was uploaded
  (`ResumePipeline.ProcessResumes`).

## Model

| member | source | states |
|---|---|---|
| `PyStr.Strip` | utils.py:24 | `strip()` returns the slice of the text that starts at its first non-whitespace character and is followed only by whitespace; the result neither starts nor ends with whitespace, and it is empty exactly when the text is all whitespace |
| `PyStr.StripTrimmed` | utils.py:142 | text with no whitespace at either end comes out of `strip()` unchanged |
| `PyStr.StripIdempotent` | utils.py:73 | stripping twice gives the same as stripping once |
| `PyStr.LowerStr` | ats_cli.py:97 | `lower()` keeps the length and lower-cases every character in place |
| `PyStr.ParseInt` | utils.py:142 | `int()` on stripped text accepts exactly an optional sign followed by one or more ASCII digits: every such text is accepted and nothing else is; a negative result comes from a leading `-` |
| `PyStr.ParseNonCanonical` | utils.py:142 | `int()` also reads the forms `str(n)` never produces: a leading `+` or a leading zero leaves the value n unchanged (`+95` and `095` give 95) |
| `PyStr.StripPadded` | utils.py:142 | `strip()` removes exactly the whitespace put around a text that has none at either end |
| `PyStr.ParseDecimal` | utils.py:142 | `int()` reads back any integer from its decimal form `IntStr`, with a leading `-` for negatives |
| `Documents.PdfToText` | utils.py:79-87 | the appending loop returns the page texts in order up to the first page whose `extract_text()` returns `None` or raises, and `""` for a file that cannot be opened |
| `Documents.AllPagesRead` | utils.py:83-85 | when every page yields text, one more page appends its text to the result |
| `Documents.PagesAfterFailureDropped` | utils.py:83-87 | nothing after the first page whose `extract_text()` returns `None` or raises reaches the result, whatever those pages hold |
| `Documents.PdfTextIsPrefix` | utils.py:83-85 | the text of any run of readable leading pages is a prefix of the whole text |
| `Documents.DocxToText` | utils.py:97-106 | the loop returns every paragraph followed by a line break, and `""` for a document that cannot be opened |
| `Documents.DocxLinesRoundTrip` | utils.py:101-102 | splitting the DOCX text at line breaks gives back the paragraphs, when no paragraph holds a line break |
| `Documents.FileToText` | utils.py:89-95 | a case-sensitive `.pdf` suffix picks the PDF reader and `.docx` the DOCX reader; the result is absent exactly when neither suffix is present |
| `Documents.UpperCaseSuffixIgnored` | utils.py:91-95 | `cv.PDF` is read by neither reader |
| `Prompts.ScorePrompt` | utils.py:38-55 | `get_prompt` is the fixed head, the description, the fixed middle, the resume text and the fixed tail, each verbatim at its offset |
| `Prompts.ScorePromptInjective` | utils.py:38-55 | two score prompts with descriptions of the same length are equal only for the same description and resume text |
| `Prompts.CandidateInfoPrompt` | utils.py:57-64 | `get_candidate_info_prompt` is the fixed head, the resume text and the fixed tail, each verbatim at its offset |
| `Prompts.CandidateInfoPromptInjective` | utils.py:57-64 | the candidate-info prompt determines the resume text |
| `ScoringClient.ParseScoreReadsInteger` | utils.py:142-149 | for every integer n, a reply holding `str(n)` between any whitespace scores n, negative or above 100 alike |
| `ScoringClient.AtsScore` | utils.py:134-151 | the scoring loop never uses more outcomes than the script holds |
| `ScoringClient.GetAtsScore` | utils.py:134-151 | the retry loop returns the score and the number of calls that `AtsScore` gives |
| `ScoringClient.FirstDecisiveOutcomeDecides` | utils.py:138-149 | the first outcome that is neither a quota error nor an empty reply decides the score, if fewer than `retries` quota errors come before it: a reply gives its parsed text, an error gives 0, and no later outcome is read |
| `ScoringClient.GivesUpAfterRetries` | utils.py:138-151 | when `retries` quota errors come before any decisive outcome, the loop stops right after the last of them and returns 0 |
| `ScoringClient.AtMostRetriesExhaustions` | utils.py:138-146 | the loop never takes more than `retries` quota errors |
| `ScoringClient.NonZeroScoreIsParsed` | utils.py:140-142 | a score other than 0 is the integer in the stripped text of the last reply the loop read |
| `ScoringClient.ScoreIsUnclamped` | utils.py:138-149 | for every integer n, when the first decisive outcome of a script is a reply holding n between whitespace, the loop returns n after that call, with no clamping to 0..100 |
| `ScoringClient.EmptyRepliesAreFree` | utils.py:141-142 | with a budget of one retry, three empty replies and then `80` score 80 after four calls |
| `ScoringClient.BudgetSpent` | utils.py:143-146 | with a budget of one, a single quota error ends the loop with 0 and the next reply is never read |
| `ScoringClient.PercentSignScoresZero` | utils.py:142-149 | a reply of `85%` scores 0 and ends the loop |
| `ScoringClient.AtsScoreDeprecated` | utils.py:119-124 | a single call: a non-zero score is the integer in a reply, and a reply holding an integer gives it |
| `ScoringClient.CandidateInfo` | utils.py:108-117 | the details are the stripped reply text; an error or an all-whitespace reply gives `""`; the result never starts or ends with whitespace |
| `CandidateFields.ClassMatchAtIsLeftmostLongest` | utils.py:22-32 | at one position, the name or phone scanner matches exactly when the keyword, separators and a non-empty group can be split out there; it picks the split Python's backtracking prefers, the latest group start and then the longest group |
| `CandidateFields.EmailMatchAtIsLongest` | utils.py:26-28 | at one position, the email scanner matches exactly when keyword, separators, local part, `@` and domain can be split out there; the group starts after all the separators and takes the longest domain |
| `CandidateFields.FirstMatch` | utils.py:23 | the search fails exactly when no position matches; otherwise it stops at the first position that matches |
| `CandidateFields.SearchIsLeftmost` | utils.py:22-32 | `re.search` with the name or phone pattern: no match exactly when no position admits the pattern; otherwise the leftmost such position, with the split Python prefers there |
| `CandidateFields.EmailSearchIsLeftmost` | utils.py:26-28 | the same for the email pattern |
| `CandidateFields.ExtractedInClass` | utils.py:22-32 | a stripped name or phone group holds only characters of the group's class |
| `CandidateFields.EmailGroupShaped` | utils.py:27-28 | an email group is a non-empty local part, `@` and a non-empty domain, and stripping keeps it whole |
| `CandidateFields.ExtractName` | utils.py:22-24 | an extracted name holds only ASCII letters and whitespace, and it is empty or starts and ends with a letter |
| `CandidateFields.ExtractEmail` | utils.py:26-28 | an extracted email is local part, `@`, domain |
| `CandidateFields.ExtractPhone` | utils.py:30-32 | an extracted phone holds only ASCII digits, `(`, `)`, `+`, `-` and whitespace, with no whitespace at either end |
| `CandidateFieldExamples.InfoLineName` | utils.py:22-24 | the reply format the prompt asks for gives the name `Jane Doe` |
| `CandidateFieldExamples.InfoLineEmail` | utils.py:26-28 | the same reply gives the email `jane@x.com` |
| `CandidateFieldExamples.InfoLinePhone` | utils.py:30-32 | the same reply gives the phone `555-1234` |
| `CandidateFieldExamples.NameRunsAcrossLines` | utils.py:23-24 | when the email label follows on the next line, the name runs over the line break and takes in `Email` |
| `CandidateFieldExamples.PhoneGroupCanBeASpace` | utils.py:31-32 | `Phone: n/a` gives the empty phone: the group is the separator's last space, given back by backtracking |
| `CandidateFieldExamples.NameGroupCanBeASpace` | utils.py:23-24 | `Name: 42` gives the empty name in the same way |
| `CandidateFieldExamples.NameSearchFallsThrough` | utils.py:23-24 | a `name` inside `Filename.pdf` does not match, and the search goes on to the later `Name: Ann` |
| `PlainText.TitleFrom` | utils.py:69 | `title()` keeps every character up to case; a letter is upper-case exactly when the character before it is not a letter |
| `PlainText.Collapse` | utils.py:70 | every non-whitespace character is kept, in order; the only whitespace left is the space character, never two side by side; a single whitespace character becomes one space outside a run and nothing inside one, any other single character is kept |
| `PlainText.CollapseConcat` | utils.py:70 | the scan distributes over concatenation, the second part read in the state the first part's last character leaves; with the single-character cases this fixes the result on every text, so each whitespace run becomes exactly one space |
| `PlainText.DeleteNonWord` | utils.py:71 | only word characters and whitespace are left; a text made of them alone is kept unchanged; any other single character is deleted |
| `PlainText.DeleteNonWordConcat` | utils.py:71 | the deletion works character by character: it distributes over concatenation, so with the single-character cases it fixes the result on every text |
| `PlainText.MakeTextPlain` | utils.py:66-77 | the cleaned name holds only word characters and spaces, and it neither starts nor ends with a space |
| `PlainText.PlainKeepsWordContent` | utils.py:66-77 | compared without case, the cleaned name has exactly the word characters of the input, in order |
| `PlainText.PlainKeepsLetters` | utils.py:66-77 | a name with a letter in it never cleans to `""` |
| `PlainText.PlainDropsApostrophe` | utils.py:69-71 | `o'b` becomes `OB`: the apostrophe is deleted after title-casing |
| `PlainText.PlainFixesSpacingAndCase` | utils.py:69-73 | `jo  DOE` becomes `Jo Doe` |
| `PlainText.PlainCanLeaveDoubleSpace` | utils.py:70-71 | `a - b` becomes `A  B`: deleting punctuation can leave two spaces side by side |
| `PlainText.PlainJoinsLetters` | utils.py:69-71 | `a.b` becomes `AB` |
| `PlainText.PlainRecasesJoinedLetters` | utils.py:69 | `AB` becomes `Ab` |
| `PlainText.PlainNotIdempotent` | utils.py:66-77 | cleaning twice can differ from cleaning once |
| `ResumePipeline.AssessUnreadable` | main.py:59-62 | a file is rejected as unreadable exactly when its PDF text is empty, and then no prompt is sent |
| `ResumePipeline.AssessCalls` | main.py:64-73 | a readable file costs the calls of the scoring loop, and the details are asked for exactly when the score meets the criterion |
| `ResumePipeline.AssessScores` | main.py:66-95 | a file rejected for its score scored below the criterion; one rejected later, or kept, scored at least the criterion; a record names its upload and position |
| `ResumePipeline.AssessPassedFields` | main.py:78-86 | a kept record has a non-empty name and a non-empty email |
| `ResumePipeline.AssessUpload` | main.py:58-95 | one pass of the loop body gives the verdict, calls and details request that `Assess` describes |
| `ResumePipeline.ProcessResumes` | main.py:47-95 | the notice for a missing description or missing uploads is only shown; every upload is assessed in order, and the records of the passing files are collected in upload order |
| `ResumePipeline.RecordsFollowUploads` | main.py:57-95 | the kept records come from distinct uploads in strictly increasing upload order, each naming its own file |
| `ResumePipeline.RecordsMeetCriteria` | main.py:66-95 | every kept record meets the criterion and has a non-empty name and email |
| `AtsCli.CliPrompt` | ats_cli.py:52-69 | the command-line `get_prompt` is its own fixed head, the description, its fixed middle, the resume text and its fixed tail, each verbatim at its offset |
| `AtsCli.CliPromptIsScorePrompt` | ats_cli.py:52-69 | the command-line prompt is the web app's score prompt, character for character |
| `AtsCli.CliPdfToText` | ats_cli.py:15-20 | the loop returns all page texts in order, and it raises for a file that cannot be opened or a page whose `extract_text()` returns `None` or raises |
| `AtsCli.CliPdfTextAgrees` | ats_cli.py:15-20 | when the command-line reader succeeds, it reads the same text as the web app's reader |
| `AtsCli.GetAtsPercentage` | ats_cli.py:71-82 | the retry loop returns what `AtsPercentage` gives, with the number of calls |
| `AtsCli.AtsPercentage` | ats_cli.py:71-82 | the loop makes at most `retries` calls, and never more than the script holds |
| `AtsCli.GivesUpExactly` | ats_cli.py:71-82 | the loop gives up exactly when the first `retries` outcomes are all quota errors, and then it has made `retries` calls |
| `AtsCli.FirstAnswerReturned` | ats_cli.py:73-80 | the first outcome that is not a quota error decides, within the budget: a reply is returned stripped, even when empty, and any other error escapes |
| `AtsCli.ShortlistedExactly` | ats_cli.py:96-117 | a file is shortlisted with score n exactly when its lower-cased name ends in `.pdf`, every page yields text, the model answers, the answer is the integer n, and n > 90; with n ≤ 90 it is not shortlisted |
| `AtsCli.DecideFile` | ats_cli.py:96-117 | one pass of the loop body gives the verdict `Decide` describes, or the exception that ends the run |
| `AtsCli.ThresholdIsStrict` | ats_cli.py:109-115 | a reply of n shortlists the file exactly when n > 90 |
| `AtsCli.EmptyReplyIsInvalid` | ats_cli.py:76-117 | an empty reply is returned as it is and then reported as an invalid response |
| `AtsCli.FiveQuotaErrorsSkip` | ats_cli.py:71-82 | five quota errors in a row skip the file, whatever comes next |
| `AtsCli.UpperCaseSuffixRead` | ats_cli.py:97 | `cv.PDF` is processed by the command line, while the web app's `file_to_text` reads no such file |
| `AtsCli.RunShortlist` | ats_cli.py:90-117 | an unreadable or empty listing does nothing; otherwise the files are decided in listing order until the first exception, which ends the run; the moved files are exactly the shortlisted ones, in order |

## Left out

- The language model, the API key and the model choice are left out. Each call's
  outcome is the next element of a script.
- A script that runs out is read as an error that is not a quota error. The real
  service could go on answering with empty replies, and then `get_ats_score` would
  loop for ever.
- The `time.sleep` delays and the `rate_limit` decorator are left out. They only delay
  the calls.
- Printing and logging are left out: the stdout redirection, `print` and the Streamlit
  messages. The loop's message for each file is modelled as its verdict.
- Non-ASCII text is not modelled in four places:
  - Unicode NFKD normalisation in `make_text_plain`; it is the identity on ASCII;
  - the non-ASCII parts of `\w`, `lower()` and `title()`;
  - Unicode case folding under `(?i)`;
  - the non-ASCII decimal digits that `\d` in the phone pattern (utils.py:31) also
    matches; `CandidateFields.PhoneChars` takes ASCII digits only.
  All of these work over ASCII letters in the model. `isspace` and `\s` do cover the
  full Python whitespace set.
- `int()` is modelled on stripped text: an optional sign, then ASCII digits. It does not
  accept underscores between digits or non-ASCII digits.
- Exceptions from `str` operations inside `make_text_plain` and from the DOCX paragraph
  loop cannot occur on the modelled inputs. Those `except` branches are not modelled.
- The Google Drive upload branch is left out: it calls
  `utils.fetch_resumes_from_drive`, which the repository does not define.
- Everything after the record list in `main.py` is left out: showing the results, the
  CSV, the ZIP download and the dated file name. Also left out are `get_csv`,
  `create_zip_file`, `get_day_month_year` and the commented-out emails. These only
  format or deliver the records.
- `email_service.py`, `calendar_api.py` and `rate_limit.py` are not part of this model.
- `ResumePipeline.Assess` records the number of score prompts and whether the details
  prompt was sent, not the prompt texts. The prompts themselves are modelled and proved
  in `Prompts`.
- `ats_cli.get_description` is left out. It is a fixed text that only goes into the
  prompt, and the scripted model does not read the prompt.
- `ats_cli.get_pdf_path` and the folder creation are left out; they are path handling
  only.
- `ats_cli.get_resume_dir` is modelled as an optional listing: `None` when the folder
  cannot be read.
- `AtsCli.RunShortlist` does not model a failing `shutil.move`. In the source that
  error is caught by the same handler as a bad integer and reported as an invalid
  response; the model assumes the move succeeds.
