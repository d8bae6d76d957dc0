/**
 * make_text_plain, the clean-up applied to an extracted candidate name, over ASCII:
 * lower-case then title-case, every whitespace run collapsed to one space, every
 * character that is neither a word character nor whitespace deleted, then strip.
 * NFKD normalisation is the identity on ASCII text.
 */
module PlainText {
  import opened PyStr

  /**
   * `str.title()`: a letter is upper-cased when the character before it is not a
   * letter (or it comes first and `prevCased` is false) and lower-cased otherwise;
   * every other character is kept.
   */
  function TitleFrom(s: string, prevCased: bool): (r: string)
    ensures |r| == |s|
    ensures forall k :: 0 <= k < |s| ==> Lower(r[k]) == Lower(s[k])
    ensures forall k :: 0 <= k < |s| && !IsAsciiLetter(s[k]) ==> r[k] == s[k]
    ensures forall k :: 0 <= k < |s| && IsAsciiLetter(s[k]) ==>
              (IsUpper(r[k]) <==> (if k == 0 then !prevCased else !IsAsciiLetter(s[k - 1])))
    ensures forall k :: 0 <= k < |s| && IsAsciiLetter(s[k]) ==> IsAsciiLetter(r[k])
  {
    if s == [] then []
    else
      var c := if !IsAsciiLetter(s[0]) then s[0] else if prevCased then Lower(s[0]) else Upper(s[0]);
      var rest := TitleFrom(s[1..], IsAsciiLetter(s[0]));
      assert forall k :: 1 <= k < |s| ==> s[1..][k - 1] == s[k];
      [c] + rest
  }

  function Title(s: string): (r: string)
  {
    TitleFrom(s, false)
  }

  /** The characters of `s` that are not whitespace, in order. */
  function Visible(s: string): (v: string)
    ensures |v| <= |s|
    ensures forall k :: 0 <= k < |v| ==> !IsSpace(v[k])
  {
    if s == [] then []
    else if IsSpace(s[0]) then Visible(s[1..])
    else [s[0]] + Visible(s[1..])
  }

  /**
   * `re.sub(r'\s+', ' ', s)`, scanning with `inRun` set while inside a whitespace run:
   * every character that is not whitespace is kept, in order; the only whitespace
   * left is single spaces, never two side by side; inside a run, the rest of the run
   * is dropped.
   */
  function Collapse(s: string, inRun: bool): (r: string)
    ensures forall k :: 0 <= k < |r| ==> r[k] == ' ' || !IsSpace(r[k])
    ensures forall k :: 0 < k < |r| ==> r[k - 1] != ' ' || r[k] != ' '
    ensures Visible(r) == Visible(s)
    ensures inRun && r != [] ==> r[0] != ' '
    ensures !inRun && s != [] && IsSpace(s[0]) ==> r != [] && r[0] == ' '
    ensures |s| == 1 ==> r == (if IsSpace(s[0]) then (if inRun then [] else " ") else s)
    ensures |r| <= |s|
  {
    if s == [] then []
    else if IsSpace(s[0]) then
      var rest := Collapse(s[1..], true);
      if inRun then rest
      else
        assert ([' '] + rest)[1..] == rest;
        [' '] + rest
    else
      var rest := Collapse(s[1..], false);
      assert ([s[0]] + rest)[1..] == rest;
      [s[0]] + rest
  }

  /**
   * The scan reads one character at a time: collapsing a concatenation collapses the
   * second part in the state the first part leaves. With the one-character cases in
   * `Collapse`'s contract this fixes the result on every text.
   */
  lemma {:induction false} CollapseConcat(a: string, b: string, inRun: bool)
    ensures Collapse(a + b, inRun) ==
            Collapse(a, inRun) + Collapse(b, if a == [] then inRun else IsSpace(a[|a| - 1]))
  {
    if a == [] {
      assert a + b == b;
    } else {
      assert (a + b)[0] == a[0] && (a + b)[1..] == a[1..] + b;
      CollapseConcat(a[1..], b, IsSpace(a[0]));
      if a[1..] != [] {
        assert a[1..][|a[1..]| - 1] == a[|a| - 1];
      }
    }
  }

  /**
   * `re.sub(r'[^\w\s]', '', s)`: only word characters and whitespace are left; a
   * text made of them alone is kept unchanged, and any other single character is
   * deleted. With `DeleteNonWordConcat` this fixes the result on every text.
   */
  function DeleteNonWord(s: string): (r: string)
    ensures forall k :: 0 <= k < |r| ==> IsWordChar(r[k]) || IsSpace(r[k])
    ensures (forall k :: 0 <= k < |s| ==> IsWordChar(s[k]) || IsSpace(s[k])) ==> r == s
    ensures |s| == 1 && !IsWordChar(s[0]) && !IsSpace(s[0]) ==> r == []
    ensures |r| <= |s|
  {
    if s == [] then []
    else if IsWordChar(s[0]) || IsSpace(s[0]) then [s[0]] + DeleteNonWord(s[1..])
    else DeleteNonWord(s[1..])
  }

  /** The deletion works character by character: it distributes over concatenation. */
  lemma {:induction false} DeleteNonWordConcat(a: string, b: string)
    ensures DeleteNonWord(a + b) == DeleteNonWord(a) + DeleteNonWord(b)
  {
    if a == [] {
      assert a + b == b;
    } else {
      assert (a + b)[0] == a[0] && (a + b)[1..] == a[1..] + b;
      DeleteNonWordConcat(a[1..], b);
    }
  }

  /** Deleting characters brings in no whitespace other than the space character. */
  lemma {:induction false} DeleteKeepsOnlySpaceChar(s: string)
    requires forall k :: 0 <= k < |s| ==> s[k] == ' ' || !IsSpace(s[k])
    ensures forall k :: 0 <= k < |DeleteNonWord(s)| ==> DeleteNonWord(s)[k] == ' ' || !IsSpace(DeleteNonWord(s)[k])
  {
    if s != [] {
      assert s[0] == ' ' || !IsSpace(s[0]);
      DeleteKeepsOnlySpaceChar(s[1..]);
    }
  }

  /**
   * make_text_plain: the result holds only word characters and the space character,
   * and neither starts nor ends with a space.
   */
  function MakeTextPlain(text: string): (r: string)
    ensures forall k :: 0 <= k < |r| ==> IsWordChar(r[k]) || r[k] == ' '
    ensures r == [] || (r[0] != ' ' && r[|r| - 1] != ' ')
  {
    var titled := Title(LowerStr(text));
    var collapsed := Collapse(titled, false);
    var cleaned := DeleteNonWord(collapsed);
    if cleaned != [] then
      CleanedChars(collapsed);
      var r := Strip(cleaned);
      assert forall k :: 0 <= k < |r| ==> IsWordChar(r[k]) || r[k] == ' ';
      r
    else cleaned
  }

  /** After the deletion and the strip, a collapsed text holds only word characters and the space character. */
  lemma CleanedChars(collapsed: string)
    requires forall k :: 0 <= k < |collapsed| ==> collapsed[k] == ' ' || !IsSpace(collapsed[k])
    ensures forall k :: 0 <= k < |Strip(DeleteNonWord(collapsed))| ==>
              IsWordChar(Strip(DeleteNonWord(collapsed))[k]) || Strip(DeleteNonWord(collapsed))[k] == ' '
  {
    var cleaned := DeleteNonWord(collapsed);
    DeleteKeepsOnlySpaceChar(collapsed);
    var r := Strip(cleaned);
    forall k | 0 <= k < |r| ensures IsWordChar(r[k]) || r[k] == ' ' {
      StripChars(cleaned, k);
    }
  }

  /** The word characters of `s` in order, each compared without case. */
  function WordContent(s: string): (w: string)
    ensures |w| <= |s|
    ensures forall k :: 0 <= k < |w| ==> IsWordChar(w[k]) && !IsUpper(w[k])
  {
    if s == [] then []
    else if IsWordChar(s[0]) then [Lower(s[0])] + WordContent(s[1..])
    else WordContent(s[1..])
  }

  lemma {:induction false} WordContentConcat(a: string, b: string)
    ensures WordContent(a + b) == WordContent(a) + WordContent(b)
  {
    if a == [] {
      assert a + b == b;
    } else {
      assert (a + b)[0] == a[0] && (a + b)[1..] == a[1..] + b;
      WordContentConcat(a[1..], b);
    }
  }

  lemma {:induction false} WordContentOfSpaces(s: string)
    requires forall k :: 0 <= k < |s| ==> IsSpace(s[k])
    ensures WordContent(s) == []
  {
    if s != [] {
      assert IsSpace(s[0]);
      WordContentOfSpaces(s[1..]);
    }
  }

  /** Two strings that agree character by character up to case have the same word content. */
  lemma {:induction false} WordContentIgnoresCase(s: string, t: string)
    requires |s| == |t|
    requires forall k :: 0 <= k < |s| ==> Lower(s[k]) == Lower(t[k]) && (IsWordChar(s[k]) <==> IsWordChar(t[k]))
    ensures WordContent(s) == WordContent(t)
  {
    if s != [] {
      WordContentIgnoresCase(s[1..], t[1..]);
    }
  }

  lemma {:induction false} CollapseKeepsWordContent(s: string, inRun: bool)
    ensures WordContent(Collapse(s, inRun)) == WordContent(s)
  {
    if s != [] {
      CollapseKeepsWordContent(s[1..], IsSpace(s[0]));
      if IsSpace(s[0]) && !inRun {
        WordContentConcat([' '], Collapse(s[1..], true));
      } else if !IsSpace(s[0]) {
        WordContentConcat([s[0]], Collapse(s[1..], false));
      }
    }
  }

  lemma {:induction false} DeleteKeepsWordContent(s: string)
    ensures WordContent(DeleteNonWord(s)) == WordContent(s)
  {
    if s != [] {
      DeleteKeepsWordContent(s[1..]);
      if IsWordChar(s[0]) || IsSpace(s[0]) {
        WordContentConcat([s[0]], DeleteNonWord(s[1..]));
      }
    }
  }

  /** Whitespace around a text adds no word character. */
  lemma WordContentBetweenSpaces(before: string, r: string, after: string)
    requires forall k :: 0 <= k < |before| ==> IsSpace(before[k])
    requires forall k :: 0 <= k < |after| ==> IsSpace(after[k])
    ensures WordContent(before + r + after) == WordContent(r)
  {
    WordContentOfSpaces(before);
    WordContentOfSpaces(after);
    WordContentConcat(before + r, after);
    WordContentConcat(before, r);
  }

  lemma StripKeepsWordContent(s: string)
    ensures WordContent(Strip(s)) == WordContent(s)
  {
    var i := ContentStart(s);
    var r := Strip(s);
    var before, after := s[..i], s[i + |r|..];
    StripSplits(s);
    assert forall k :: 0 <= k < |before| ==> IsSpace(before[k]);
    assert forall k :: 0 <= k < |after| ==> IsSpace(after[k]) by {
      forall k | 0 <= k < |after| ensures IsSpace(after[k]) {
        assert after[k] == s[i + |r| + k];
      }
    }
    WordContentBetweenSpaces(before, r, after);
  }

  /**
   * make_text_plain loses no word character and adds none: compared without case,
   * the word characters of the result are those of the input, in order.
   */
  lemma PlainKeepsWordContent(text: string)
    ensures WordContent(MakeTextPlain(text)) == WordContent(text)
  {
    var lowered := LowerStr(text);
    var titled := Title(lowered);
    var collapsed := Collapse(titled, false);
    var cleaned := DeleteNonWord(collapsed);
    WordContentIgnoresCase(text, lowered);
    WordContentIgnoresCase(lowered, titled);
    CollapseKeepsWordContent(titled, false);
    DeleteKeepsWordContent(collapsed);
    if cleaned != [] {
      StripKeepsWordContent(cleaned);
    }
  }

  /** A name with a letter in it keeps a letter, so it never becomes empty. */
  lemma PlainKeepsLetters(text: string, k: nat)
    requires k < |text| && IsAsciiLetter(text[k])
    ensures MakeTextPlain(text) != []
  {
    assert IsWordChar(text[k..][0]);
    assert WordContent(text[k..]) != [];
    assert text[..k] + text[k..] == text;
    WordContentConcat(text[..k], text[k..]);
    PlainKeepsWordContent(text);
    assert WordContent([]) == [];
  }

  // Each example below is split into its stages: lower-case, title-case, then
  // collapse and delete, with the class of every character involved stated first.

  lemma ApostropheLowered()
    ensures LowerStr("o'b") == "o'b"
  {
    assert !IsUpper('o') && !IsUpper('\'') && !IsUpper('b');
  }

  lemma ApostropheTitled()
    ensures Title("o'b") == "O'B"
  {
    assert IsAsciiLetter('o') && !IsAsciiLetter('\'') && IsAsciiLetter('b');
  }

  lemma ApostropheCleaned()
    ensures DeleteNonWord(Collapse("O'B", false)) == "OB"
  {
    assert !IsSpace('O') && !IsSpace('\'') && !IsSpace('B');
    assert Collapse("O'B", false) == "O'B";
    assert IsWordChar('O') && !IsWordChar('\'') && IsWordChar('B');
  }

  lemma ApostropheStripped()
    ensures Strip("OB") == "OB"
  {
    assert !IsSpace('O') && !IsSpace('B');
    StripTrimmed("OB");
  }

  /** An apostrophe is deleted after title-casing, so the letter after it stays upper-case. */
  lemma PlainDropsApostrophe()
    ensures MakeTextPlain("o'b") == "OB"
  {
    ApostropheLowered();
    ApostropheTitled();
    ApostropheCleaned();
    ApostropheStripped();
  }

  lemma SpacingLowered()
    ensures LowerStr("jo  DOE") == "jo  doe"
  {
    assert IsUpper('D') && IsUpper('O') && IsUpper('E') && !IsUpper('j') && !IsUpper('o') && !IsUpper(' ');
  }

  lemma SpacingTitled()
    ensures Title("jo  doe") == "Jo  Doe"
  {
    assert IsAsciiLetter('j') && IsAsciiLetter('o') && IsAsciiLetter('d') && IsAsciiLetter('e') && !IsAsciiLetter(' ');
  }

  lemma SpacingCollapsed()
    ensures Collapse("Jo  Doe", false) == "Jo Doe"
  {
    assert !IsSpace('J') && !IsSpace('o') && IsSpace(' ') && !IsSpace('D') && !IsSpace('e');
  }

  lemma SpacingCleaned()
    ensures DeleteNonWord(Collapse("Jo  Doe", false)) == "Jo Doe"
  {
    SpacingCollapsed();
    assert IsWordChar('J') && IsWordChar('o') && IsSpace(' ') && IsWordChar('D') && IsWordChar('e');
  }

  lemma SpacingStripped()
    ensures Strip("Jo Doe") == "Jo Doe"
  {
    assert !IsSpace('J') && !IsSpace('e');
    StripTrimmed("Jo Doe");
  }

  /** A name as a model might reply it: the run of spaces goes and the casing is fixed. */
  lemma PlainFixesSpacingAndCase()
    ensures MakeTextPlain("jo  DOE") == "Jo Doe"
  {
    SpacingLowered();
    SpacingTitled();
    SpacingCleaned();
    SpacingStripped();
  }

  lemma DoubleSpaceLowered()
    ensures LowerStr("a - b") == "a - b"
  {
    assert !IsUpper('a') && !IsUpper(' ') && !IsUpper('-') && !IsUpper('b');
  }

  lemma DoubleSpaceTitled()
    ensures Title("a - b") == "A - B"
  {
    assert IsAsciiLetter('a') && !IsAsciiLetter(' ') && !IsAsciiLetter('-') && IsAsciiLetter('b');
  }

  lemma DoubleSpaceCollapsed()
    ensures Collapse("A - B", false) == "A - B"
  {
    assert !IsSpace('A') && IsSpace(' ') && !IsSpace('-') && !IsSpace('B');
  }

  lemma DoubleSpaceCleaned()
    ensures DeleteNonWord(Collapse("A - B", false)) == "A  B"
  {
    DoubleSpaceCollapsed();
    assert IsWordChar('A') && !IsWordChar('-') && IsWordChar('B') && IsSpace(' ');
  }

  lemma DoubleSpaceStripped()
    ensures Strip("A  B") == "A  B"
  {
    assert !IsSpace('A') && !IsSpace('B');
    StripTrimmed("A  B");
  }

  /** Deleting punctuation between two spaces leaves the two spaces side by side. */
  lemma PlainCanLeaveDoubleSpace()
    ensures MakeTextPlain("a - b") == "A  B"
  {
    DoubleSpaceLowered();
    DoubleSpaceTitled();
    DoubleSpaceCleaned();
    DoubleSpaceStripped();
  }

  lemma DotLowered()
    ensures LowerStr("a.b") == "a.b"
  {
    assert !IsUpper('a') && !IsUpper('.') && !IsUpper('b');
  }

  lemma DotTitled()
    ensures Title("a.b") == "A.B"
  {
    assert IsAsciiLetter('a') && !IsAsciiLetter('.') && IsAsciiLetter('b');
  }

  lemma DotCleaned()
    ensures DeleteNonWord(Collapse("A.B", false)) == "AB"
  {
    assert !IsSpace('A') && !IsSpace('.') && !IsSpace('B');
    assert Collapse("A.B", false) == "A.B";
    assert IsWordChar('A') && !IsWordChar('.') && IsWordChar('B');
  }

  lemma DotStripped()
    ensures Strip("AB") == "AB"
  {
    assert !IsSpace('A') && !IsSpace('B');
    StripTrimmed("AB");
  }

  /** A dot between two letters is deleted and the letters are joined, both upper-case. */
  lemma PlainJoinsLetters()
    ensures MakeTextPlain("a.b") == "AB"
  {
    DotLowered();
    DotTitled();
    DotCleaned();
    DotStripped();
  }

  lemma JoinedLowered()
    ensures LowerStr("AB") == "ab"
  {
    assert IsUpper('A') && IsUpper('B');
  }

  lemma JoinedTitled()
    ensures Title("ab") == "Ab"
  {
    assert IsAsciiLetter('a') && IsAsciiLetter('b');
  }

  lemma JoinedCleaned()
    ensures DeleteNonWord(Collapse("Ab", false)) == "Ab"
  {
    assert !IsSpace('A') && !IsSpace('b');
    assert Collapse("Ab", false) == "Ab";
    assert IsWordChar('A') && IsWordChar('b');
  }

  lemma JoinedStripped()
    ensures Strip("Ab") == "Ab"
  {
    assert !IsSpace('A') && !IsSpace('b');
    StripTrimmed("Ab");
  }

  /** Two joined upper-case letters are one word to title-casing: the second is lower-cased. */
  lemma PlainRecasesJoinedLetters()
    ensures MakeTextPlain("AB") == "Ab"
  {
    JoinedLowered();
    JoinedTitled();
    JoinedCleaned();
    JoinedStripped();
  }

  /** make_text_plain is not idempotent: a second pass re-cases the letters it joined. */
  lemma PlainNotIdempotent()
    ensures MakeTextPlain(MakeTextPlain("a.b")) != MakeTextPlain("a.b")
  {
    PlainJoinsLetters();
    PlainRecasesJoinedLetters();
  }
}
