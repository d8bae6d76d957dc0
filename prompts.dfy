/**
 * The two prompt templates of the scorer. Both are f-strings: fixed text with the
 * job description and the resume text inserted verbatim. The score prompt puts the
 * description before the resume; the candidate-info prompt holds the resume only.
 * The fixed text is reproduced character for character, including the indentation
 * of the triple-quoted literals and the trailing space after the first sentence.
 */
module Prompts {
  /** The score prompt up to the job description. */
  const ScoreHead: string :=
    "\n" +
    "    You are a skilled ATS (Applicant Tracking System) scanner with a deep understanding of ATS functionality. \n" +
    "    Evaluate the given resume against the provided job description and provide a match score. The output should be a single number representing the percentage match without the % symbol, based on the following criteria:\n" +
    "\n" +
    "    - If the resume is empty or not valid, return 0.\n" +
    "    - If the resume does not fit the job description at all (i.e., no relevant skills or experience), return 0.\n" +
    "    - If the resume partially matches the job description, calculate a percentage match based on the overlap of required skills, experience, and qualifications.\n" +
    "    - If the resume fully matches the job description, return a percentage close to 100.\n" +
    "\n" +
    "    Provide only a single number as the output. Do not include any additional text or explanations.\n" +
    "\n" +
    "    Job Description:\n" +
    "    "

  /** The score prompt between the job description and the resume. */
  const ScoreMiddle: string := "\n" + "\n" + "    Resume:\n" + "    "

  /** The line break and indentation before the closing quotes of both templates. */
  const PromptTail: string := "\n" + "    "

  /** The candidate-info prompt up to the resume text. */
  const InfoHead: string :=
    "\n" +
    "    Extract the candidate's name, email, and phone number from the following resume text.\n" +
    "    Anything happens the format should strictly be like this the format \"Name: ..., Email: ..., Phone: ...\n" +
    "\n" +
    "    Resume Text:\n" +
    "    "

  /**
   * get_prompt: the job description and then the resume text sit verbatim between
   * the fixed pieces of the template.
   */
  function ScorePrompt(text: string, description: string): (p: string)
    ensures Framed(p, ScoreHead, description, ScoreMiddle, text, PromptTail)
  {
    ScoreHead + description + ScoreMiddle + text + PromptTail
  }

  /** get_candidate_info_prompt: the resume text sits verbatim between the fixed head and tail. */
  function CandidateInfoPrompt(text: string): (p: string)
    ensures Framed(p, InfoHead, text, [], [], PromptTail)
  {
    Concatenation3(InfoHead, text, PromptTail);
    InfoHead + text + PromptTail
  }

  /**
   * `p` is `head`, `x`, `middle`, `y` and `tail` in this order: each piece sits
   * verbatim at the offset the lengths of the pieces before it give.
   */
  predicate Framed(p: string, head: string, x: string, middle: string, y: string, tail: string) {
    var i, j, k, l := |head|, |head| + |x|, |head| + |x| + |middle|, |head| + |x| + |middle| + |y|;
    && |p| == l + |tail|
    && p[..i] == head
    && p[i..j] == x
    && p[j..k] == middle
    && p[k..l] == y
    && p[l..] == tail
  }

  /** A concatenation of five pieces is framed by them. */
  lemma Concatenation(head: string, x: string, middle: string, y: string, tail: string)
    ensures Framed(head + x + middle + y + tail, head, x, middle, y, tail)
  {
  }

  /** A concatenation of three pieces is framed by them, with nothing in the place of the second insert. */
  lemma Concatenation3(head: string, x: string, tail: string)
    ensures Framed(head + x + tail, head, x, [], [], tail)
  {
    assert head + x + [] + [] + tail == head + x + tail;
    Concatenation(head, x, [], [], tail);
  }

  /** Fixed pieces around two inserted strings, the first of a known length, determine both. */
  lemma FramedInjective(p: string, head: string, middle: string, tail: string, x1: string, y1: string, x2: string, y2: string)
    requires |x1| == |x2|
    requires Framed(p, head, x1, middle, y1, tail) && Framed(p, head, x2, middle, y2, tail)
    ensures x1 == x2 && y1 == y2
  {
  }

  /**
   * Two score prompts built around descriptions of the same length are equal only
   * when they were built from the same description and the same resume text.
   */
  lemma ScorePromptInjective(text1: string, description1: string, text2: string, description2: string)
    requires |description1| == |description2|
    requires ScorePrompt(text1, description1) == ScorePrompt(text2, description2)
    ensures text1 == text2 && description1 == description2
  {
    FramedInjective(ScorePrompt(text1, description1), ScoreHead, ScoreMiddle, PromptTail, description1, text1, description2, text2);
  }

  /** The candidate-info prompt determines the resume text it was built from. */
  lemma CandidateInfoPromptInjective(text1: string, text2: string)
    requires CandidateInfoPrompt(text1) == CandidateInfoPrompt(text2)
    ensures text1 == text2
  {
    assert |text1| == |text2|;
    FramedInjective(CandidateInfoPrompt(text1), InfoHead, [], PromptTail, text1, [], text2, []);
  }
}
