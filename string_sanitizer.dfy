/** The StringSanitizer static class: filtering of characters that are invalid
    in file paths and file names, replacement of the first or last occurrence of
    a substring, and discovery (raw and formatted) of the characters that fail a
    pattern.

    The host's invalid-character tables are parameters (invalidPathChars,
    invalidFileNameChars). A compiled regular expression is a pattern string,
    kept for its null-or-empty guard, together with isMatch, its verdict on
    each one-character string. A string that may be null is an Option<string>. */
module StringSanitizer {
  import opened Wrappers
  import opened TextPrimitives

  /** string.IsNullOrEmpty */
  predicate IsNullOrEmpty(value: Option<string>)
  {
    value.None? || value.value == []
  }

  /** The test `c => !invalidChars.Contains(c)` of both removal operations. */
  function NotIn(invalidChars: set<char>): char -> bool
  {
    c => c !in invalidChars
  }

  /* ---------------- invalid-character removal ---------------- */

  /** Keeps exactly the characters of value that are not invalid in a path:
      a subsequence of value, free of invalid characters, with every valid
      character kept as often as it occurs. Null and "" come back unchanged. */
  function RemoveInvalidPathCharacters(value: Option<string>, invalidPathChars: set<char>): (r: Option<string>)
    ensures IsNullOrEmpty(value) ==> r == value
    ensures value.Some? <==> r.Some?
    ensures value.Some? ==> IsFiltering(r.value, value.value, NotIn(invalidPathChars))
    ensures value.Some? ==> forall i :: 0 <= i < |r.value| ==> r.value[i] !in invalidPathChars
  {
    if IsNullOrEmpty(value) then value
    else
      WhereIsFiltering(value.value, NotIn(invalidPathChars));
      Some(Where(value.value, NotIn(invalidPathChars)))
  }

  /** Keeps exactly the characters of value that are not invalid in a file name;
      null and "" come back unchanged. */
  function RemoveInvalidFileNameCharacters(value: Option<string>, invalidFileNameChars: set<char>): (r: Option<string>)
    ensures IsNullOrEmpty(value) ==> r == value
    ensures value.Some? <==> r.Some?
    ensures value.Some? ==> IsFiltering(r.value, value.value, NotIn(invalidFileNameChars))
    ensures value.Some? ==> forall i :: 0 <= i < |r.value| ==> r.value[i] !in invalidFileNameChars
  {
    if IsNullOrEmpty(value) then value
    else
      WhereIsFiltering(value.value, NotIn(invalidFileNameChars));
      Some(Where(value.value, NotIn(invalidFileNameChars)))
  }

  /** Path removal followed by file-name removal. The result is filtering once
      by the union of the two tables, so it holds no character of either. */
  function RemoveInvalidCharacters(value: Option<string>, invalidPathChars: set<char>, invalidFileNameChars: set<char>): (r: Option<string>)
    ensures IsNullOrEmpty(value) ==> r == value
    ensures value.Some? <==> r.Some?
    ensures value.Some? ==> IsFiltering(r.value, value.value, NotIn(invalidPathChars + invalidFileNameChars))
    ensures value.Some? ==> forall i :: 0 <= i < |r.value| ==>
      r.value[i] !in invalidPathChars && r.value[i] !in invalidFileNameChars
  {
    if IsNullOrEmpty(value) then value
    else
      var afterPath := RemoveInvalidPathCharacters(value, invalidPathChars);
      var afterFileName := RemoveInvalidFileNameCharacters(afterPath, invalidFileNameChars);
      RemovalComposes(value.value, invalidPathChars, invalidFileNameChars);
      WhereIsFiltering(value.value, NotIn(invalidPathChars + invalidFileNameChars));
      afterFileName
  }

  /** For any string: path removal then file-name removal is removal by the union. */
  lemma RemovalComposes(s: string, invalidPathChars: set<char>, invalidFileNameChars: set<char>)
    ensures var afterPath := RemoveInvalidPathCharacters(Some(s), invalidPathChars);
      && afterPath.Some?
      && RemoveInvalidFileNameCharacters(afterPath, invalidFileNameChars)
        == Some(Where(s, NotIn(invalidPathChars + invalidFileNameChars)))
  {
    var both := invalidPathChars + invalidFileNameChars;
    WhereWhere(s, NotIn(invalidPathChars), NotIn(invalidFileNameChars), NotIn(both));
    WhereIsFiltering(s, NotIn(both));
    var afterPath := RemoveInvalidPathCharacters(Some(s), invalidPathChars);
    FilteringIsWhere(afterPath.value, s, NotIn(invalidPathChars));
    var afterFileName := RemoveInvalidFileNameCharacters(afterPath, invalidFileNameChars);
    FilteringIsWhere(afterFileName.value, afterPath.value, NotIn(invalidFileNameChars));
  }

  /** RemoveInvalidCharacters on a string is Where by the union of the two tables. */
  lemma {:induction false} RemoveInvalidCharactersIsWhere(s: string, invalidPathChars: set<char>, invalidFileNameChars: set<char>)
    ensures RemoveInvalidCharacters(Some(s), invalidPathChars, invalidFileNameChars)
         == Some(Where(s, NotIn(invalidPathChars + invalidFileNameChars)))
  {
    var r := RemoveInvalidCharacters(Some(s), invalidPathChars, invalidFileNameChars);
    FilteringIsWhere(r.value, s, NotIn(invalidPathChars + invalidFileNameChars));
  }

  /** Removing valid-only text changes nothing, so each removal is idempotent. */
  lemma RemovalIsIdempotent(value: Option<string>, invalidPathChars: set<char>, invalidFileNameChars: set<char>)
    ensures var once := RemoveInvalidPathCharacters(value, invalidPathChars);
      RemoveInvalidPathCharacters(once, invalidPathChars) == once
    ensures var once := RemoveInvalidFileNameCharacters(value, invalidFileNameChars);
      RemoveInvalidFileNameCharacters(once, invalidFileNameChars) == once
    ensures var once := RemoveInvalidCharacters(value, invalidPathChars, invalidFileNameChars);
      RemoveInvalidCharacters(once, invalidPathChars, invalidFileNameChars) == once
  {
    if value.Some? {
      var once := RemoveInvalidPathCharacters(value, invalidPathChars);
      WhereKeepsAll(once.value, NotIn(invalidPathChars));
      var once' := RemoveInvalidFileNameCharacters(value, invalidFileNameChars);
      WhereKeepsAll(once'.value, NotIn(invalidFileNameChars));
      var once'' := RemoveInvalidCharacters(value, invalidPathChars, invalidFileNameChars);
      var both := invalidPathChars + invalidFileNameChars;
      WhereKeepsAll(once''.value, NotIn(both));
      RemovalComposes(once''.value, invalidPathChars, invalidFileNameChars);
    }
  }

  /** The two removals commute: their order does not change the final text. */
  lemma RemovalOrderIsIrrelevant(value: Option<string>, invalidPathChars: set<char>, invalidFileNameChars: set<char>)
    ensures RemoveInvalidFileNameCharacters(RemoveInvalidPathCharacters(value, invalidPathChars), invalidFileNameChars)
         == RemoveInvalidPathCharacters(RemoveInvalidFileNameCharacters(value, invalidFileNameChars), invalidPathChars)
  {
    if value.Some? {
      RemovalComposes(value.value, invalidPathChars, invalidFileNameChars);
      RemovalComposes(value.value, invalidFileNameChars, invalidPathChars);
      assert invalidPathChars + invalidFileNameChars == invalidFileNameChars + invalidPathChars;
    }
  }

  /* ---------------- first/last occurrence replacement ---------------- */

  /** Shared logic of the two replacements. Null or "" text, or a null or ""
      search, return the text unchanged; so does a search that does not occur.
      Otherwise the occurrence at the lowest (firstOccurrence) or highest
      index is spliced out and replaceText (null counting as "") put in its place. */
  function ReplaceOccurrence(originalText: Option<string>, searchText: Option<string>, replaceText: Option<string>, firstOccurrence: bool): (r: Option<string>)
    ensures IsNullOrEmpty(originalText) || IsNullOrEmpty(searchText) ==> r == originalText
    ensures originalText.Some? && searchText.Some? && (forall q :: !OccursAt(originalText.value, searchText.value, q))
      ==> r == originalText
    ensures !IsNullOrEmpty(originalText) && !IsNullOrEmpty(searchText) && (exists q :: OccursAt(originalText.value, searchText.value, q))
      ==> exists p ::
        && (if firstOccurrence then IsFirstOccurrence(originalText.value, searchText.value, p)
            else IsLastOccurrence(originalText.value, searchText.value, p))
        && r == Some(Splice(originalText.value, p, |searchText.value|, replaceText.GetOr("")))
  {
    if IsNullOrEmpty(originalText) || IsNullOrEmpty(searchText) then originalText
    else
      var text, search := originalText.value, searchText.value;
      var pos := if firstOccurrence then IndexOf(text, search) else LastIndexOf(text, search);
      if pos < 0 then originalText
      else
        assert if firstOccurrence then IsFirstOccurrence(text, search, pos) else IsLastOccurrence(text, search, pos);
        Some(Splice(text, pos, |search|, replaceText.GetOr("")))
  }

  /** Replaces the occurrence of searchText at the lowest index: the text
      before it, then the replacement, then the text after it. */
  function ReplaceFirstOccurrenceOfStringInText(originalText: Option<string>, searchText: Option<string>, replaceText: Option<string>): (r: Option<string>)
    ensures IsNullOrEmpty(originalText) || IsNullOrEmpty(searchText) ==> r == originalText
    ensures originalText.Some? && searchText.Some? && (forall q :: !OccursAt(originalText.value, searchText.value, q))
      ==> r == originalText
    ensures !IsNullOrEmpty(originalText) && !IsNullOrEmpty(searchText) && (exists q :: OccursAt(originalText.value, searchText.value, q))
      ==> exists p ::
        && IsFirstOccurrence(originalText.value, searchText.value, p)
        && r == Some(Splice(originalText.value, p, |searchText.value|, replaceText.GetOr("")))
  {
    ReplaceOccurrence(originalText, searchText, replaceText, true)
  }

  /** Replaces the occurrence of searchText at the highest index. */
  function ReplaceLastOccurrenceOfStringInText(originalText: Option<string>, searchText: Option<string>, replaceText: Option<string>): (r: Option<string>)
    ensures IsNullOrEmpty(originalText) || IsNullOrEmpty(searchText) ==> r == originalText
    ensures originalText.Some? && searchText.Some? && (forall q :: !OccursAt(originalText.value, searchText.value, q))
      ==> r == originalText
    ensures !IsNullOrEmpty(originalText) && !IsNullOrEmpty(searchText) && (exists q :: OccursAt(originalText.value, searchText.value, q))
      ==> exists p ::
        && IsLastOccurrence(originalText.value, searchText.value, p)
        && r == Some(Splice(originalText.value, p, |searchText.value|, replaceText.GetOr("")))
  {
    ReplaceOccurrence(originalText, searchText, replaceText, false)
  }

  /** When searchText occurs exactly once, replacing the first and replacing
      the last occurrence give the same text. */
  lemma FirstAndLastAgreeOnSingleOccurrence(originalText: Option<string>, searchText: Option<string>, replaceText: Option<string>, p: int)
    requires originalText.Some? && searchText.Some?
    requires OccursAt(originalText.value, searchText.value, p)
    requires forall q :: OccursAt(originalText.value, searchText.value, q) ==> q == p
    ensures ReplaceFirstOccurrenceOfStringInText(originalText, searchText, replaceText)
         == ReplaceLastOccurrenceOfStringInText(originalText, searchText, replaceText)
  {
  }

  /** At the first occurrence p of a non-empty search text, the result is the
      text with the search text at p spliced out and the replacement spliced
      in. */
  lemma ReplaceFirstAt(text: string, search: string, replace: string, p: int)
    requires search != []
    requires IsFirstOccurrence(text, search, p)
    ensures ReplaceFirstOccurrenceOfStringInText(Some(text), Some(search), Some(replace))
         == Some(Splice(text, p, |search|, replace))
  {
    var r := ReplaceFirstOccurrenceOfStringInText(Some(text), Some(search), Some(replace));
    var p' :| IsFirstOccurrence(text, search, p') && r == Some(Splice(text, p', |search|, replace));
    assert !(p' < p) && !(p < p');
  }

  /** Likewise at the last occurrence p. */
  lemma ReplaceLastAt(text: string, search: string, replace: string, p: int)
    requires search != []
    requires IsLastOccurrence(text, search, p)
    ensures ReplaceLastOccurrenceOfStringInText(Some(text), Some(search), Some(replace))
         == Some(Splice(text, p, |search|, replace))
  {
    var r := ReplaceLastOccurrenceOfStringInText(Some(text), Some(search), Some(replace));
    var p' :| IsLastOccurrence(text, search, p') && r == Some(Splice(text, p', |search|, replace));
    assert !(p' < p) && !(p < p');
  }

  /** Only the first occurrence is touched: every occurrence lying wholly after
      it is still in the result, shifted by the change in length. */
  lemma ReplaceFirstKeepsLaterOccurrences(text: string, search: string, replace: string, q: int)
    requires text != [] && search != []
    requires OccursAt(text, search, q) && IndexOf(text, search) + |search| <= q
    ensures var r := ReplaceFirstOccurrenceOfStringInText(Some(text), Some(search), Some(replace));
      r.Some? && OccursAt(r.value, search, q - |search| + |replace|)
  {
    var p := IndexOf(text, search);
    assert IsFirstOccurrence(text, search, p);
    ReplaceFirstAt(text, search, replace, p);
    SpliceKeepsOccurrences(text, p, |search|, replace, search, q);
  }

  /** Only the last occurrence is touched: every occurrence lying wholly before
      it is still in the result, at the same index. */
  lemma ReplaceLastKeepsEarlierOccurrences(text: string, search: string, replace: string, q: int)
    requires text != [] && search != []
    requires OccursAt(text, search, q) && q + |search| <= LastIndexOf(text, search)
    ensures var r := ReplaceLastOccurrenceOfStringInText(Some(text), Some(search), Some(replace));
      r.Some? && OccursAt(r.value, search, q)
  {
    var p := LastIndexOf(text, search);
    assert IsLastOccurrence(text, search, p);
    ReplaceLastAt(text, search, replace, p);
    SpliceKeepsOccurrences(text, p, |search|, replace, search, q);
  }

  /* ---------------- non-matching character discovery ---------------- */

  /** The distinct characters of input that fail the pattern, in order of first
      occurrence; nothing for a null or "" input or pattern. */
  function FindNonMatchingCharacters(input: Option<string>, pattern: Option<string>, isMatch: char -> bool): (r: string)
    ensures IsNullOrEmpty(input) || IsNullOrEmpty(pattern) ==> r == []
    ensures !IsNullOrEmpty(input) && !IsNullOrEmpty(pattern) ==>
      && NoDuplicates(r)
      && (forall c :: c in r <==> c in input.value && !isMatch(c))
      && (forall i, j :: 0 <= i < j < |r| ==> FirstIndex(input.value, r[i]) < FirstIndex(input.value, r[j]))
  {
    if IsNullOrEmpty(input) || IsNullOrEmpty(pattern) then []
    else
      var found := Distinct(Where(input.value, Fails(isMatch)));
      DistinctWhereOrder(input.value, Fails(isMatch), found);
      found
  }

  /** The test `c => !regex.IsMatch(c.ToString())`. */
  function Fails(isMatch: char -> bool): char -> bool
  {
    c => !isMatch(c)
  }

  /** The contract of FindNonMatchingCharacters determines its result: any list
      with those three properties is the one it returns. */
  lemma FindNonMatchingCharactersIsDetermined(input: string, pattern: string, isMatch: char -> bool, r: string)
    requires input != [] && pattern != []
    requires NoDuplicates(r)
    requires forall c :: c in r <==> c in input && !isMatch(c)
    requires forall i, j :: 0 <= i < j < |r| ==> FirstIndex(input, r[i]) < FirstIndex(input, r[j])
    ensures r == FindNonMatchingCharacters(Some(input), Some(pattern), isMatch)
  {
    var found := FindNonMatchingCharacters(Some(input), Some(pattern), isMatch);
    assert InFirstOccurrenceOrder(input, r) && InFirstOccurrenceOrder(input, found);
    FirstOccurrenceOrderUnique(input, r, found);
  }

  /* ---------------- formatting ---------------- */

  /** Space, newline and tab become the labels [Space], [Newline] and [Tab];
      every other character stands for itself. No label contains a space. */
  function FormatSpecialCharacter(c: char): (r: string)
    ensures ' ' !in r
    ensures |r| == 1 <==> c != ' ' && c != '\n' && c != '\t'
    ensures |r| == 1 ==> r == [c]
  {
    match c
    case ' ' => "[Space]"
    case '\n' => "[Newline]"
    case '\t' => "[Tab]"
    case _ => [c]
  }

  /** The labels of cs, one per character (the Select at the join). */
  function Labels(cs: string): (r: seq<string>)
    ensures |r| == |cs|
  {
    seq(|cs|, i requires 0 <= i < |cs| => FormatSpecialCharacter(cs[i]))
  }

  /** The labels of the non-matching characters joined with ", "; "" when there are none. */
  function FindNonMatchingCharactersFormatted(input: Option<string>, pattern: Option<string>, isMatch: char -> bool): (r: string)
    ensures r == [] <==> FindNonMatchingCharacters(input, pattern, isMatch) == []
  {
    Join(", ", Labels(FindNonMatchingCharacters(input, pattern, isMatch)))
  }

  /** The character a label stands for. */
  function ParseLabel(tag: string): (r: Option<char>)
  {
    if tag == "[Space]" then Some(' ')
    else if tag == "[Newline]" then Some('\n')
    else if tag == "[Tab]" then Some('\t')
    else if |tag| == 1 then Some(tag[0])
    else None
  }

  /** Every label names back its character, so distinct characters get distinct labels. */
  lemma {:induction false} ParseLabelInvertsFormat(c: char)
    ensures ParseLabel(FormatSpecialCharacter(c)) == Some(c)
  {
    if c != ' ' && c != '\n' && c != '\t' {
      assert FormatSpecialCharacter(c) == [c];
    }
  }

  /** The characters named by a list of labels, or None if one is not a label. */
  function ParseLabels(labels: seq<string>): (r: Option<string>)
    ensures r.Some? ==> |r.value| == |labels|
  {
    if labels == [] then Some([])
    else match (ParseLabel(labels[0]), ParseLabels(labels[1..]))
      case (Some(c), Some(rest)) => Some([c] + rest)
      case _ => None
  }

  /** Reads the characters back out of formatted output. */
  function ParseFormatted(formatted: string): (r: Option<string>)
  {
    if formatted == [] then Some([]) else ParseLabels(Split(formatted, ", "))
  }

  /** Labels are parsed back to the characters they were made from. */
  lemma {:induction false} ParseLabelsOfLabels(cs: string)
    ensures ParseLabels(Labels(cs)) == Some(cs)
    decreases |cs|
  {
    if cs != [] {
      ParseLabelInvertsFormat(cs[0]);
      assert Labels(cs)[1..] == Labels(cs[1..]);
      ParseLabelsOfLabels(cs[1..]);
      assert cs == [cs[0]] + cs[1..];
    }
  }

  /** The formatted output loses nothing: parsing it gives back exactly the
      non-matching characters, in their order. */
  lemma FormattedRoundTrip(input: Option<string>, pattern: Option<string>, isMatch: char -> bool)
    ensures ParseFormatted(FindNonMatchingCharactersFormatted(input, pattern, isMatch))
         == Some(FindNonMatchingCharacters(input, pattern, isMatch))
  {
    var found := FindNonMatchingCharacters(input, pattern, isMatch);
    if found != [] {
      var labels := Labels(found);
      SplitJoin(labels);
      ParseLabelsOfLabels(found);
    }
  }
}
