/** The scenarios of the repository's unit tests, stated as lemmas about the
    model. The regular expressions "[a-z]" and "[a-c]" are given by the
    character classes they denote. */
module StringSanitizerExamples {
  import opened Wrappers
  import opened TextPrimitives
  import opened StringSanitizer

  /** The verdict of the pattern "[a-z]" on a one-character string. */
  const LowerAToZ: char -> bool := c => 'a' <= c <= 'z'

  /** The verdict of the pattern "[a-c]" on a one-character string. */
  const LowerAToC: char -> bool := c => 'a' <= c <= 'c'

  /* The inputs of a test are parameters fixed by the requires clause, which
     keeps the verifier from unfolding every function on the literal strings. */

  /** Only the first "hello" is replaced. */
  lemma {:induction false} ReplaceFirstExample(text: string, search: string, replace: string)
    requires text == "hello world, hello!" && search == "hello" && replace == "hi"
    ensures ReplaceFirstOccurrenceOfStringInText(Some(text), Some(search), Some(replace)) == Some("hi world, hello!")
  {
    assert text[0..5] == search;
    assert IsFirstOccurrence(text, search, 0);
    ReplaceFirstAt(text, search, replace, 0);
    assert Splice(text, 0, 5, replace) == "hi world, hello!";
  }

  /** Only the last "hello" is replaced. */
  lemma {:induction false} ReplaceLastExample(text: string, search: string, replace: string)
    requires text == "hello world, hello!" && search == "hello" && replace == "hi"
    ensures ReplaceLastOccurrenceOfStringInText(Some(text), Some(search), Some(replace)) == Some("hello world, hi!")
  {
    assert text[13..18] == search;
    assert text[14..19] == "ello!";
    ReplaceLastAt(text, search, replace, 13);
    assert Splice(text, 13, 5, replace) == "hello world, hi!";
  }

  /** A search text that does not occur leaves the text as it was. */
  lemma {:induction false} ReplaceNotFoundExample(text: string, search: string, replace: string)
    requires text == "nothing to replace here" && search == "missing" && replace == "found"
    ensures ReplaceFirstOccurrenceOfStringInText(Some(text), Some(search), Some(replace)) == Some(text)
  {
    assert 'm' !in text;
    forall q | 0 <= q && q + 7 <= |text|
      ensures !OccursAt(text, search, q)
    {
      assert text[q..q + 7][0] == text[q] != 'm';
    }
  }

  /** The digits of "abc123" fail "[a-z]", each reported once, in order. */
  lemma {:induction false} FindNonMatchingExample(input: string, pattern: string)
    requires input == "abc123" && pattern == "[a-z]"
    ensures FindNonMatchingCharacters(Some(input), Some(pattern), LowerAToZ) == "123"
  {
    FirstIndexUnique(input, '1', 3);
    FirstIndexUnique(input, '2', 4);
    FirstIndexUnique(input, '3', 5);
    FindNonMatchingCharactersIsDetermined(input, pattern, LowerAToZ, "123");
  }

  /** Every character of "abc" matches "[a-c]", so nothing is reported. */
  lemma {:induction false} FindNonMatchingFullMatchExample(input: string, pattern: string)
    requires input == "abc" && pattern == "[a-c]"
    ensures FindNonMatchingCharacters(Some(input), Some(pattern), LowerAToC) == []
  {
    NoMembersIsEmpty(FindNonMatchingCharacters(Some(input), Some(pattern), LowerAToC));
  }

  /** Space, newline and tab are the characters of "a b\nc\t" that fail "[a-z]". */
  lemma {:induction false} FindNonMatchingWhitespaceExample(input: string, pattern: string)
    requires input == "a b\nc\t" && pattern == "[a-z]"
    ensures FindNonMatchingCharacters(Some(input), Some(pattern), LowerAToZ) == " \n\t"
  {
    FirstIndexUnique(input, ' ', 1);
    FirstIndexUnique(input, '\n', 3);
    FirstIndexUnique(input, '\t', 5);
    FindNonMatchingCharactersIsDetermined(input, pattern, LowerAToZ, " \n\t");
  }

  /** The labels of space, newline and tab. */
  lemma {:induction false} WhitespaceLabels(found: string)
    requires found == " \n\t"
    ensures Labels(found) == ["[Space]", "[Newline]", "[Tab]"]
  {
    var labels := Labels(found);
    assert labels[0] == "[Space]" && labels[1] == "[Newline]" && labels[2] == "[Tab]";
  }

  /** Those three labels joined with ", ". */
  lemma {:induction false} JoinWhitespaceLabels(labels: seq<string>)
    requires labels == ["[Space]", "[Newline]", "[Tab]"]
    ensures Join(", ", labels) == "[Space], [Newline], [Tab]"
  {
    assert Join(", ", labels[2..]) == "[Tab]";
    assert Join(", ", labels[1..]) == "[Newline]" + ", " + "[Tab]";
    assert Join(", ", labels) == "[Space]" + ", " + ("[Newline]" + ", " + "[Tab]");
  }

  /** Whatever the input, when the characters found are space, newline and tab,
      the formatted report is their three labels. */
  lemma {:induction false} FormattedWhitespace(input: Option<string>, pattern: Option<string>, isMatch: char -> bool)
    requires FindNonMatchingCharacters(input, pattern, isMatch) == " \n\t"
    ensures FindNonMatchingCharactersFormatted(input, pattern, isMatch) == "[Space], [Newline], [Tab]"
  {
    var found := FindNonMatchingCharacters(input, pattern, isMatch);
    WhitespaceLabels(found);
    JoinWhitespaceLabels(Labels(found));
  }

  /** Space, newline and tab are reported by their labels. */
  lemma {:induction false} FormattedExample(input: string, pattern: string)
    requires input == "a b\nc\t" && pattern == "[a-z]"
    ensures FindNonMatchingCharactersFormatted(Some(input), Some(pattern), LowerAToZ) == "[Space], [Newline], [Tab]"
  {
    FindNonMatchingWhitespaceExample(input, pattern);
    FormattedWhitespace(Some(input), Some(pattern), LowerAToZ);
  }

  /** Null stays null and "" stays "". */
  lemma RemoveInvalidCharactersNullOrEmptyExample(invalidPathChars: set<char>, invalidFileNameChars: set<char>)
    ensures RemoveInvalidCharacters(None, invalidPathChars, invalidFileNameChars) == None
    ensures RemoveInvalidCharacters(Some(""), invalidPathChars, invalidFileNameChars) == Some("")
  {
  }

  /** Filtering text made of passing stretches around a failing one drops just that stretch. */
  lemma {:induction false} WhereDropsMiddle(before: string, middle: string, after: string, keep: char -> bool)
    requires forall i :: 0 <= i < |before| ==> keep(before[i])
    requires forall i :: 0 <= i < |middle| ==> !keep(middle[i])
    requires forall i :: 0 <= i < |after| ==> keep(after[i])
    ensures Where(before + middle + after, keep) == before + after
  {
    var bm := before + middle;
    WhereConcat(bm, after, keep);
    WhereConcat(before, middle, keep);
    WhereKeepsAll(before, keep);
    WhereKeepsAll(after, keep);
    WhereKeepsNone(middle, keep);
    assert Where(bm, keep) == before + [];
    assert before + [] == before;
  }

  /** The shape of the removal tests ("test<>:|?*string"): text made of valid
      stretches around a stretch of characters invalid in a path or a file name
      comes back as just the valid stretches. */
  lemma {:induction false} RemoveInvalidCharactersDropsMiddle(before: string, middle: string, after: string,
                                                             invalidPathChars: set<char>, invalidFileNameChars: set<char>)
    requires forall i :: 0 <= i < |before| ==> before[i] !in invalidPathChars && before[i] !in invalidFileNameChars
    requires forall i :: 0 <= i < |middle| ==> middle[i] in invalidPathChars || middle[i] in invalidFileNameChars
    requires forall i :: 0 <= i < |after| ==> after[i] !in invalidPathChars && after[i] !in invalidFileNameChars
    ensures RemoveInvalidCharacters(Some(before + middle + after), invalidPathChars, invalidFileNameChars)
         == Some(before + after)
  {
    var keep := NotIn(invalidPathChars + invalidFileNameChars);
    WhereDropsMiddle(before, middle, after, keep);
    RemoveInvalidCharactersIsWhere(before + middle + after, invalidPathChars, invalidFileNameChars);
  }
}
