/**
 * The resume loop of the web app (main.py): every uploaded file is read as a PDF,
 * scored against the job description, compared with the score criterion, asked
 * for the candidate's details and, when a name and an email come back, kept as a
 * record. A file is rejected at the first of four checks it fails. The page,
 * widgets and downloads around the loop are not modelled; each upload carries the
 * outcomes the model gives for it.
 */
module ResumePipeline {
  import opened Wrappers
  import opened PyStr
  import opened Documents
  import opened ScoringClient
  import opened CandidateFields
  import opened PlainText

  /** An uploaded file with the script of score outcomes and the candidate-info outcome the model gives for it. */
  datatype Submission = Submission(name: string, pdf: PdfFile, scoreReplies: seq<ApiOutcome>, infoReply: ApiOutcome)

  /** An entry of `proceed_resumes`; `resumeFile` is the position of the upload it was made from. */
  datatype Record = Record(name: string, email: string, phone: Option<string>, score: int, resume: string, resumeFile: nat)

  /** What happened to one file: the message the loop writes, or the record it keeps. */
  datatype Verdict =
    | Unreadable
    | BelowCriteria(score: int)
    | NoCandidateInfo(score: int)
    | NoNameOrEmail(score: int)
    | Passed(record: Record)

  /**
   * The verdict on one file, the number of score prompts sent for it (the calls
   * get_ats_score makes) and whether the candidate-info prompt was sent after them.
   */
  datatype Assessment = Assessment(verdict: Verdict, scoreCalls: nat, infoAsked: bool)

  /** The error shown when the button is pressed without a description or without uploads. */
  datatype Notice = NoDescription | NoUploads

  /** Python truthiness of an optional string: present and not empty. */
  predicate Present(v: Option<string>) {
    v.Some? && v.value != []
  }

  /**
   * The loop body of main.py for the upload at position `index`. An empty text is
   * rejected before any prompt; a score below the criterion before the details are
   * asked for; an empty details reply before any field is extracted; a missing or
   * empty name or email after. A kept record has the plain form of the name.
   * The replies are scripted in `sub` and do not depend on the prompt, so
   * `description`, which main.py puts into the score prompt, changes nothing here.
   */
  function Assess(description: string, criteria: int, index: nat, sub: Submission): (a: Assessment)
  {
    var text := PdfText(sub.pdf);
    if text == [] then Assessment(Unreadable, 0, false)
    else
      var run := AtsScore(sub.scoreReplies, DefaultRetries);
      if run.score < criteria then Assessment(BelowCriteria(run.score), run.calls, false)
      else
        var details := CandidateInfo(sub.infoReply);
        if details == [] then Assessment(NoCandidateInfo(run.score), run.calls, true)
        else
          var name := ExtractName(details);
          var email := ExtractEmail(details);
          var phone := ExtractPhone(details);
          if !Present(name) || !Present(email) then Assessment(NoNameOrEmail(run.score), run.calls, true)
          else Assessment(Passed(Record(MakeTextPlain(name.value), email.value, phone, run.score, sub.name, index)), run.calls, true)
  }

  /** An unreadable file is rejected first and costs no call to the model. */
  lemma AssessUnreadable(description: string, criteria: int, index: nat, sub: Submission)
    ensures Assess(description, criteria, index, sub).verdict == Unreadable <==> PdfText(sub.pdf) == []
    ensures Assess(description, criteria, index, sub).verdict == Unreadable ==>
              Assess(description, criteria, index, sub).scoreCalls == 0 && !Assess(description, criteria, index, sub).infoAsked
  {
  }

  /**
   * A readable file costs the calls of the scoring loop, and the candidate-info
   * prompt is sent exactly when the score meets the criterion.
   */
  lemma AssessCalls(description: string, criteria: int, index: nat, sub: Submission)
    ensures var a := Assess(description, criteria, index, sub);
            a.verdict != Unreadable ==> a.scoreCalls == AtsScore(sub.scoreReplies, DefaultRetries).calls
    ensures var a := Assess(description, criteria, index, sub);
            a.infoAsked <==> a.verdict != Unreadable && AtsScore(sub.scoreReplies, DefaultRetries).score >= criteria
  {
  }

  /**
   * A file rejected for its score scored below the criterion; one rejected later,
   * or kept, scored at least the criterion; a record names the upload it was made from.
   */
  lemma AssessScores(description: string, criteria: int, index: nat, sub: Submission)
    ensures var v := Assess(description, criteria, index, sub).verdict;
            v.BelowCriteria? ==> v.score < criteria
    ensures var v := Assess(description, criteria, index, sub).verdict;
            v.NoCandidateInfo? || v.NoNameOrEmail? ==> v.score >= criteria
    ensures var v := Assess(description, criteria, index, sub).verdict;
            v.Passed? ==> v.record.score >= criteria && v.record.resume == sub.name && v.record.resumeFile == index
  {
  }

  /** A kept record has a non-empty name and email: the plain form of a non-empty name is not empty. */
  lemma AssessPassedFields(description: string, criteria: int, index: nat, sub: Submission)
    ensures var v := Assess(description, criteria, index, sub).verdict;
            v.Passed? ==> v.record.name != [] && v.record.email != []
  {
    var v := Assess(description, criteria, index, sub).verdict;
    if v.Passed? {
      var name := ExtractName(CandidateInfo(sub.infoReply));
      PlainKeepsLetters(name.value, 0);
    }
  }

  /** The records of the files that passed, in the order of the assessments. */
  function PassedRecords(assessments: seq<Assessment>): (rs: seq<Record>)
    ensures |rs| <= |assessments|
  {
    if assessments == [] then []
    else
      var last := assessments[|assessments| - 1];
      PassedRecords(assessments[..|assessments| - 1]) + Kept(last)
  }

  /** The record an assessment keeps, if any. */
  function Kept(a: Assessment): (rs: seq<Record>)
  {
    if a.verdict.Passed? then [a.verdict.record] else []
  }

  lemma PassedRecordsAppend(assessments: seq<Assessment>, a: Assessment)
    ensures PassedRecords(assessments + [a]) == PassedRecords(assessments) + Kept(a)
  {
    assert (assessments + [a])[..|assessments|] == assessments;
  }

  /**
   * The body of the loop in main.py for one upload, each `continue` a return: the
   * text, then the score against the criterion, then the details reply, then the
   * name and email fields.
   */
  method AssessUpload(description: string, criteria: int, index: nat, sub: Submission) returns (a: Assessment)
    ensures a == Assess(description, criteria, index, sub)
  {
    var text := PdfToText(sub.pdf);
    if text == [] {
      return Assessment(Unreadable, 0, false);
    }
    var score, calls := GetAtsScore(sub.scoreReplies, DefaultRetries);
    if score < criteria {
      return Assessment(BelowCriteria(score), calls, false);
    }
    var details := CandidateInfo(sub.infoReply);
    if details == "" {
      return Assessment(NoCandidateInfo(score), calls, true);
    }
    var name := ExtractName(details);
    var email := ExtractEmail(details);
    var phone := ExtractPhone(details);
    if !Present(name) || !Present(email) {
      return Assessment(NoNameOrEmail(score), calls, true);
    }
    var record := Record(MakeTextPlain(name.value), email.value, phone, score, sub.name, index);
    return Assessment(Passed(record), calls, true);
  }

  /**
   * main.py:47-95. The notice is only shown: the loop runs over the uploads
   * whatever it says, every file is assessed as `Assess` describes, and the
   * records of the files that pass are appended in upload order.
   */
  method ProcessResumes(description: string, criteria: int, uploads: seq<Submission>)
    returns (notice: Option<Notice>, proceed: seq<Record>, assessments: seq<Assessment>)
    ensures notice == (if description == [] then Some(NoDescription) else if uploads == [] then Some(NoUploads) else None)
    ensures |assessments| == |uploads|
    ensures Assessed(description, criteria, uploads, assessments)
    ensures proceed == PassedRecords(assessments)
  {
    notice := if description == [] then Some(NoDescription) else if uploads == [] then Some(NoUploads) else None;
    proceed := [];
    assessments := [];
    for i := 0 to |uploads|
      invariant |assessments| == i
      invariant Assessed(description, criteria, uploads, assessments)
      invariant proceed == PassedRecords(assessments)
    {
      var a := AssessUpload(description, criteria, i, uploads[i]);
      PassedRecordsAppend(assessments, a);
      AssessedExtends(description, criteria, uploads, assessments, a);
      assessments := assessments + [a];
      proceed := proceed + Kept(a);
    }
  }

  /** All assessments so far are those of the uploads at the same positions. */
  predicate Assessed(description: string, criteria: int, uploads: seq<Submission>, assessments: seq<Assessment>) {
    |assessments| <= |uploads| &&
    forall i :: 0 <= i < |assessments| ==> assessments[i] == Assess(description, criteria, i, uploads[i])
  }

  lemma AssessedExtends(description: string, criteria: int, uploads: seq<Submission>, assessments: seq<Assessment>, a: Assessment)
    requires Assessed(description, criteria, uploads, assessments) && |assessments| < |uploads|
    requires a == Assess(description, criteria, |assessments|, uploads[|assessments|])
    ensures Assessed(description, criteria, uploads, assessments + [a])
  {
    assert forall j :: 0 <= j < |assessments| ==> (assessments + [a])[j] == assessments[j];
  }


  /**
   * When every kept record carries the position of its assessment and the name of
   * the upload there, the kept records come in strictly increasing positions.
   */
  lemma {:induction false} KeptInOrder(uploads: seq<Submission>, assessments: seq<Assessment>)
    requires |assessments| <= |uploads|
    requires forall i :: 0 <= i < |assessments| && assessments[i].verdict.Passed? ==>
               assessments[i].verdict.record.resumeFile == i && assessments[i].verdict.record.resume == uploads[i].name
    ensures forall k :: 0 <= k < |PassedRecords(assessments)| ==>
              && PassedRecords(assessments)[k].resumeFile < |assessments|
              && PassedRecords(assessments)[k].resume == uploads[PassedRecords(assessments)[k].resumeFile].name
    ensures forall k, l :: 0 <= k < l < |PassedRecords(assessments)| ==>
              PassedRecords(assessments)[k].resumeFile < PassedRecords(assessments)[l].resumeFile
  {
    if assessments != [] {
      var n := |assessments| - 1;
      assert forall i :: 0 <= i < n ==> assessments[..n][i] == assessments[i];
      KeptInOrder(uploads, assessments[..n]);
      assert PassedRecords(assessments) == PassedRecords(assessments[..n]) + Kept(assessments[n]);
    }
  }

  /** When every kept record meets a condition, every record in the list does. */
  lemma {:induction false} KeptMeet(criteria: int, assessments: seq<Assessment>)
    requires forall i :: 0 <= i < |assessments| && assessments[i].verdict.Passed? ==>
               var r := assessments[i].verdict.record;
               r.score >= criteria && r.name != [] && r.email != []
    ensures forall r :: r in PassedRecords(assessments) ==> r.score >= criteria && r.name != [] && r.email != []
  {
    if assessments != [] {
      var n := |assessments| - 1;
      assert forall i :: 0 <= i < n ==> assessments[..n][i] == assessments[i];
      KeptMeet(criteria, assessments[..n]);
    }
  }

  /**
   * The kept records come from distinct uploads, in upload order: their positions
   * strictly increase and each names the file it was made from.
   */
  lemma RecordsFollowUploads(description: string, criteria: int, uploads: seq<Submission>, assessments: seq<Assessment>)
    requires Assessed(description, criteria, uploads, assessments)
    ensures forall k :: 0 <= k < |PassedRecords(assessments)| ==>
              && PassedRecords(assessments)[k].resumeFile < |assessments|
              && PassedRecords(assessments)[k].resume == uploads[PassedRecords(assessments)[k].resumeFile].name
    ensures forall k, l :: 0 <= k < l < |PassedRecords(assessments)| ==>
              PassedRecords(assessments)[k].resumeFile < PassedRecords(assessments)[l].resumeFile
  {
    forall i | 0 <= i < |assessments| && assessments[i].verdict.Passed?
      ensures assessments[i].verdict.record.resumeFile == i && assessments[i].verdict.record.resume == uploads[i].name
    {
      AssessScores(description, criteria, i, uploads[i]);
    }
    KeptInOrder(uploads, assessments);
  }

  /** Every kept record meets the criterion and has a non-empty name and email. */
  lemma RecordsMeetCriteria(description: string, criteria: int, uploads: seq<Submission>, assessments: seq<Assessment>)
    requires Assessed(description, criteria, uploads, assessments)
    ensures forall r :: r in PassedRecords(assessments) ==> r.score >= criteria && r.name != [] && r.email != []
  {
    forall i | 0 <= i < |assessments| && assessments[i].verdict.Passed?
      ensures var r := assessments[i].verdict.record; r.score >= criteria && r.name != [] && r.email != []
    {
      AssessScores(description, criteria, i, uploads[i]);
      AssessPassedFields(description, criteria, i, uploads[i]);
    }
    KeptMeet(criteria, assessments);
  }
}
