/**
 * The field extractors on concrete replies: the line format the candidate-info
 * prompt asks for, and the quirks of the patterns (a name that runs across a line
 * break, a group that is a single backtracked space, a keyword inside a longer
 * word that does not match and lets the search fall through to a later one).
 * The replies are written as concatenations of short pieces; each example is
 * split into the anchored match, the absence of earlier keywords and the result.
 */
module CandidateFieldExamples {
  import opened Wrappers
  import opened PyStr
  import opened CandidateFields

  /** The reply in exactly the requested format. */
  const InfoLine := "Name: " + "Jane Doe" + ", Email: " + "jane@x.com" + ", Phone: " + "555-1234"

  lemma InfoLineNameAt()
    ensures MatchAt(NamePattern, InfoLine, 0) == Some(Span(6, 14))
  {
    var s := InfoLine;
    assert KeywordAt(s, 0, "name");
    RunEndIs(s, 4, 6, Separator);
    RunEndIs(s, 6, 14, NameChars);
  }

  lemma InfoLineNameText()
    ensures InfoLine[6..14] == "Jane Doe"
  {
  }

  lemma JaneDoeStripped()
    ensures Strip("Jane Doe") == "Jane Doe"
  {
    assert !IsSpace('J') && !IsSpace('e');
    StripTrimmed("Jane Doe");
  }

  lemma InfoLineName()
    ensures ExtractName(InfoLine) == Some("Jane Doe")
  {
    InfoLineNameAt();
    ExtractHitsAt(NamePattern, InfoLine, 0, Span(6, 14));
    InfoLineNameText();
    JaneDoeStripped();
  }

  lemma InfoLineEmailKeyword()
    ensures KeywordAt(InfoLine, 16, "email") && InfoLine[27] == '@'
  {
  }

  lemma InfoLineEmailUser()
    ensures RunEnd(InfoLine, 21, Separator) == 23 && RunEnd(InfoLine, 23, EmailChars) == 27
  {
    RunEndIs(InfoLine, 21, 23, Separator);
    RunEndIs(InfoLine, 23, 27, EmailChars);
  }

  lemma InfoLineEmailDomain()
    ensures RunEnd(InfoLine, 28, EmailChars) == 33
  {
    RunEndIs(InfoLine, 28, 33, EmailChars);
  }

  lemma InfoLineEmailAt()
    ensures MatchAt(EmailPattern, InfoLine, 16) == Some(Span(23, 33))
  {
    InfoLineEmailKeyword();
    InfoLineEmailUser();
    InfoLineEmailDomain();
    EmailMatchAtIs(InfoLine, 16, 23, 27, 33);
  }

  /** Neither later label occurs in the name part `Name: Jane Doe`. */
  lemma InfoLineNameHasNoLabel(kw: string)
    requires kw == "email" || kw == "phone"
    ensures forall k :: 0 <= k < 14 ==> !KeywordAt(InfoLine, k, kw)
  {
    NoKeywordIn(InfoLine, kw, 0, 6);
    NoKeywordIn(InfoLine, kw, 6, 14);
  }

  lemma InfoLineEmailFirst()
    ensures forall k :: 0 <= k < 16 ==> !KeywordAt(InfoLine, k, "email")
  {
    InfoLineNameHasNoLabel("email");
    NoKeywordIn(InfoLine, "email", 14, 16);
  }

  lemma InfoLineEmailGroup()
    ensures Extract(EmailPattern, InfoLine) == Some(Strip(InfoLine[23..33]))
  {
    InfoLineEmailAt();
    InfoLineEmailFirst();
    ExtractHitsAt(EmailPattern, InfoLine, 16, Span(23, 33));
  }

  lemma InfoLineEmailText()
    ensures InfoLine[23..33] == "jane@x.com"
  {
  }

  lemma EmailStripped()
    ensures Strip("jane@x.com") == "jane@x.com"
  {
    assert !IsSpace('j') && !IsSpace('m');
    StripTrimmed("jane@x.com");
  }

  lemma InfoLineEmail()
    ensures ExtractEmail(InfoLine) == Some("jane@x.com")
  {
    InfoLineEmailGroup();
    InfoLineEmailText();
    EmailStripped();
  }

  lemma InfoLinePhoneAt()
    ensures MatchAt(PhonePattern, InfoLine, 35) == Some(Span(42, 50))
  {
    var s := InfoLine;
    assert KeywordAt(s, 35, "phone");
    RunEndIs(s, 40, 42, Separator);
    RunEndIs(s, 42, 50, PhoneChars);
  }

  lemma InfoLinePhoneNotInEmailLabel()
    ensures forall k :: 14 <= k < 23 ==> !KeywordAt(InfoLine, k, "phone")
  {
    NoKeywordIn(InfoLine, "phone", 14, 23);
  }

  lemma InfoLinePhoneNotInEmail()
    ensures forall k :: 14 <= k < 35 ==> !KeywordAt(InfoLine, k, "phone")
  {
    InfoLinePhoneNotInEmailLabel();
    NoKeywordIn(InfoLine, "phone", 23, 33);
    NoKeywordIn(InfoLine, "phone", 33, 35);
  }

  lemma InfoLinePhoneGroup()
    ensures Extract(PhonePattern, InfoLine) == Some(Strip(InfoLine[42..50]))
  {
    InfoLinePhoneAt();
    InfoLineNameHasNoLabel("phone");
    InfoLinePhoneNotInEmail();
    ExtractHitsAt(PhonePattern, InfoLine, 35, Span(42, 50));
  }

  lemma InfoLinePhoneText()
    ensures InfoLine[42..50] == "555-1234"
  {
  }

  lemma PhoneStripped()
    ensures Strip("555-1234") == "555-1234"
  {
    assert !IsSpace('5') && !IsSpace('4');
    StripTrimmed("555-1234");
  }

  lemma InfoLinePhone()
    ensures ExtractPhone(InfoLine) == Some("555-1234")
  {
    InfoLinePhoneGroup();
    InfoLinePhoneText();
    PhoneStripped();
  }

  /** The reply of the line-break example: one label per line. */
  const TwoLines := "Name: " + "Jane Doe" + "\nEmail: " + "j@x.io"

  lemma TwoLinesNameAt()
    ensures MatchAt(NamePattern, TwoLines, 0) == Some(Span(6, 20))
  {
    var s := TwoLines;
    RunEndIs(s, 4, 6, Separator);
    assert forall k :: 6 <= k < 14 ==> IsAsciiLetter(s[k]) || s[k] == ' ';
    assert s[14] == '\n' && forall k :: 15 <= k < 20 ==> IsAsciiLetter(s[k]);
    RunEndIs(s, 6, 20, NameChars);
  }

  lemma TwoLinesNameGroup()
    ensures Extract(NamePattern, TwoLines) == Some(Strip(TwoLines[6..20]))
  {
    TwoLinesNameAt();
    ExtractHitsAt(NamePattern, TwoLines, 0, Span(6, 20));
  }

  lemma TwoLinesNameText()
    ensures TwoLines[6..20] == "Jane Doe" + "\nEmail"
  {
    assert TwoLines[6..14] == "Jane Doe";
    assert TwoLines[14..20] == "\nEmail";
    assert TwoLines[6..20] == TwoLines[6..14] + TwoLines[14..20];
  }

  lemma RunOnStripped()
    ensures Strip("Jane Doe" + "\nEmail") == "Jane Doe" + "\nEmail"
  {
    assert !IsSpace('J') && !IsSpace('l');
    StripTrimmed("Jane Doe" + "\nEmail");
  }

  /** `\s` in the name class lets the capture run over the line break into the next label. */
  lemma NameRunsAcrossLines()
    ensures ExtractName(TwoLines) == Some("Jane Doe" + "\nEmail")
  {
    TwoLinesNameGroup();
    TwoLinesNameText();
    RunOnStripped();
  }

  /**
   * No phone character follows the separators, so `[:\s]*` gives back its last
   * space, the group is that one space, and stripping it leaves `""`.
   */
  lemma PhoneGroupCanBeASpace()
    ensures ExtractPhone("Phone: " + "n/a") == Some("")
  {
    var s := "Phone: " + "n/a";
    RunEndIs(s, 5, 7, Separator);
    RunEndIs(s, 6, 7, PhoneChars);
    SearchHitsAt(PhonePattern, s, 0);
    assert s[6..7] == " ";
  }

  /** The same backtracking gives an empty name when digits follow the label. */
  lemma NameGroupCanBeASpace()
    ensures ExtractName("Name: " + "42") == Some("")
  {
    var s := "Name: " + "42";
    RunEndIs(s, 4, 6, Separator);
    RunEndIs(s, 5, 6, NameChars);
    SearchHitsAt(NamePattern, s, 0);
    assert s[5..6] == " ";
  }

  /** The reply of the fall-through example: `name` first occurs inside a file name. */
  const FileNameReply := "Filename" + ".pdf, " + "Name: Ann"

  /** At `Filename` the keyword is followed by `.`, which neither the separators nor the group accept. */
  lemma FileNameNoMatch()
    ensures MatchAt(NamePattern, FileNameReply, 4).None?
  {
    RunEndIs(FileNameReply, 8, 8, Separator);
  }

  /** Apart from the `name` inside `Filename`, the keyword does not occur before the label. */
  lemma FileNameOtherwiseAbsent()
    ensures forall k :: 0 <= k < 14 && k != 4 ==> !KeywordAt(FileNameReply, k, "name")
  {
    var s := FileNameReply;
    NoKeywordIn(s, "name", 0, 4);
    NoKeywordIn(s, "name", 5, 8);
    NoKeywordIn(s, "name", 8, 14);
  }

  lemma FileNameLabelAt()
    ensures MatchAt(NamePattern, FileNameReply, 14) == Some(Span(20, 23))
  {
    var s := FileNameReply;
    assert KeywordAt(s, 14, "name");
    RunEndIs(s, 18, 20, Separator);
    RunEndIs(s, 20, 23, NameChars);
  }

  lemma FileNameGroup()
    ensures Extract(NamePattern, FileNameReply) == Some(Strip(FileNameReply[20..23]))
  {
    var s := FileNameReply;
    FileNameNoMatch();
    FileNameOtherwiseAbsent();
    FileNameLabelAt();
    var ms := Attempts(NamePattern, s);
    forall k | 0 <= k < 14 ensures ms[k].None? {
      if k != 4 {
        assert !KeywordAt(s, k, "name");
      }
    }
    FirstMatchIs(ms, 0, 14);
  }

  lemma FileNameLabelText()
    ensures FileNameReply[20..23] == "Ann"
  {
  }

  lemma AnnStripped()
    ensures Strip("Ann") == "Ann"
  {
    assert !IsSpace('A') && !IsSpace('n');
    StripTrimmed("Ann");
  }

  /** The search moves past the `name` inside `Filename` to the later label. */
  lemma NameSearchFallsThrough()
    ensures ExtractName(FileNameReply) == Some("Ann")
  {
    FileNameGroup();
    FileNameLabelText();
    AnnStripped();
  }
}
