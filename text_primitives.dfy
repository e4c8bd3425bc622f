/** Models of the base-library operations the sanitizer is built from:
    Enumerable.Where, Enumerable.Distinct, ordinal String.IndexOf and
    String.LastIndexOf, the Substring splice, and String.Join. Where,
    Distinct, IndexOf and LastIndexOf are proved against independent
    specifications; Join has Split undoing it for non-empty lists of parts
    without spaces, as labels are. */
module TextPrimitives {

  /* ---------------- Where: order-preserving filtering ---------------- */

  /** Enumerable.Where over the characters of a string: the characters of s
      for which keep holds, in their original order, repetitions included. */
  function Where(s: string, keep: char -> bool): (r: string)
    ensures |r| <= |s|
    ensures forall c :: c in r <==> c in s && keep(c)
  {
    if s == [] then []
    else if keep(s[0]) then [s[0]] + Where(s[1..], keep)
    else Where(s[1..], keep)
  }

  /** r can be obtained from s by deleting zero or more characters. */
  ghost predicate IsSubsequence(r: string, s: string)
    decreases |s|
  {
    if r == [] then true
    else if s == [] then false
    else (r[0] == s[0] && IsSubsequence(r[1..], s[1..])) || IsSubsequence(r, s[1..])
  }

  /** r is "s with every character failing keep deleted", described without
      saying how it is computed: a subsequence of s, made only of characters
      satisfying keep, that keeps every occurrence of each such character. */
  ghost predicate IsFiltering(r: string, s: string, keep: char -> bool)
  {
    && IsSubsequence(r, s)
    && (forall i :: 0 <= i < |r| ==> keep(r[i]))
    && (forall c :: keep(c) ==> multiset(r)[c] == multiset(s)[c])
  }

  /** A subsequence never holds a character more often than the sequence. */
  lemma {:induction false} SubsequenceCounts(r: string, s: string)
    ensures IsSubsequence(r, s) ==> multiset(r) <= multiset(s)
    decreases |s|
  {
    if IsSubsequence(r, s) && r != [] {
      assert s == [s[0]] + s[1..];
      if r[0] == s[0] && IsSubsequence(r[1..], s[1..]) {
        SubsequenceCounts(r[1..], s[1..]);
        assert r == [r[0]] + r[1..];
      } else {
        SubsequenceCounts(r, s[1..]);
      }
    }
  }

  /** Where meets the filtering specification. */
  lemma {:induction false} WhereIsFiltering(s: string, keep: char -> bool)
    ensures IsFiltering(Where(s, keep), s, keep)
    decreases |s|
  {
    if s != [] {
      WhereIsFiltering(s[1..], keep);
      var t := Where(s[1..], keep);
      assert s == [s[0]] + s[1..];
      if keep(s[0]) {
        assert ([s[0]] + t)[1..] == t;
      }
    }
  }

  /** The filtering specification determines its result: whatever meets it is Where. */
  lemma {:induction false} FilteringIsWhere(r: string, s: string, keep: char -> bool)
    requires IsFiltering(r, s, keep)
    ensures r == Where(s, keep)
    decreases |s|
  {
    if s == [] {
      assert r == [];
    } else {
      var x, t := s[0], s[1..];
      assert s == [x] + t;
      assert multiset(s)[x] == multiset(t)[x] + 1;
      if r == [] {
        assert !keep(x);
        FilteringIsWhere(r, t, keep);
      } else if !keep(x) {
        assert keep(r[0]);
        assert IsSubsequence(r, t);
        FilteringIsWhere(r, t, keep);
      } else {
        // r cannot skip x: then it would hold one x fewer than s does
        SubsequenceCounts(r, t);
        assert !IsSubsequence(r, t);
        assert r == [x] + r[1..];
        FilteringIsWhere(r[1..], t, keep);
      }
    }
  }

  /** The filtering specification and Where are the same thing. */
  lemma WhereCharacterization(r: string, s: string, keep: char -> bool)
    ensures IsFiltering(r, s, keep) <==> r == Where(s, keep)
  {
    WhereIsFiltering(s, keep);
    if IsFiltering(r, s, keep) {
      FilteringIsWhere(r, s, keep);
    }
  }

  /** Filtering twice is filtering once by the conjunction of the two tests. */
  lemma {:induction false} WhereWhere(s: string, p: char -> bool, q: char -> bool, both: char -> bool)
    requires forall c :: both(c) == (p(c) && q(c))
    ensures Where(Where(s, p), q) == Where(s, both)
    decreases |s|
  {
    if s != [] {
      WhereWhere(s[1..], p, q, both);
      if p(s[0]) {
        assert Where([s[0]] + Where(s[1..], p), q) == Where([s[0]], q) + Where(Where(s[1..], p), q) by {
          assert ([s[0]] + Where(s[1..], p))[1..] == Where(s[1..], p);
        }
      }
    }
  }

  /** Filtering distributes over concatenation. */
  lemma {:induction false} WhereConcat(a: string, b: string, keep: char -> bool)
    ensures Where(a + b, keep) == Where(a, keep) + Where(b, keep)
    decreases |a|
  {
    if a != [] {
      assert (a + b)[0] == a[0] && (a + b)[1..] == a[1..] + b;
      WhereConcat(a[1..], b, keep);
    } else {
      assert a + b == b;
    }
  }

  /** Filtering a sequence whose characters all pass the test changes nothing. */
  lemma {:induction false} WhereKeepsAll(s: string, keep: char -> bool)
    requires forall i :: 0 <= i < |s| ==> keep(s[i])
    ensures Where(s, keep) == s
    decreases |s|
  {
    if s != [] {
      WhereKeepsAll(s[1..], keep);
      assert s == [s[0]] + s[1..];
    }
  }

  /** A string with no members is empty. */
  lemma NoMembersIsEmpty(r: string)
    requires forall c :: c !in r
    ensures r == []
  {
    HeadIsMember(r);
  }

  /** The head of a non-empty string is one of its members. */
  lemma HeadIsMember(r: string)
    ensures r != [] ==> r[0] in r
  {
  }

  /** Filtering a sequence none of whose characters pass the test leaves nothing. */
  lemma WhereKeepsNone(s: string, keep: char -> bool)
    requires forall i :: 0 <= i < |s| ==> !keep(s[i])
    ensures Where(s, keep) == []
  {
    NoMembersIsEmpty(Where(s, keep));
  }

  /* ---------------- Distinct: first occurrences, in order ---------------- */

  /** No character appears twice. */
  predicate NoDuplicates(s: string)
  {
    forall i, j :: 0 <= i < j < |s| ==> s[i] != s[j]
  }

  /** The index at which c first occurs in s. */
  ghost function FirstIndex(s: string, c: char): (i: nat)
    requires c in s
    ensures i < |s| && s[i] == c && c !in s[..i]
  {
    if s[0] == c then 0
    else
      assert s == [s[0]] + s[1..];
      1 + FirstIndex(s[1..], c)
  }

  /** The three properties of FirstIndex's contract single it out. */
  lemma FirstIndexUnique(s: string, c: char, i: nat)
    requires i < |s| && s[i] == c && c !in s[..i]
    ensures FirstIndex(s, c) == i
  {
    var k := FirstIndex(s, c);
    assert forall j :: 0 <= j < i ==> s[..i][j] == s[j];
    assert forall j :: 0 <= j < k ==> s[..k][j] == s[j];
  }

  /** Appending a character does not move the first occurrence of one already present. */
  lemma FirstIndexAppend(s: string, x: char, c: char)
    requires c in s
    ensures c in s + [x] && FirstIndex(s + [x], c) == FirstIndex(s, c)
  {
    var k := FirstIndex(s, c);
    assert (s + [x])[..k] == s[..k];
    FirstIndexUnique(s + [x], c, k);
  }

  /** Enumerable.Distinct: every character of s once, at the place where it first
      occurs, so the result lists the characters in order of first occurrence. */
  function Distinct(s: string): (r: string)
    ensures NoDuplicates(r)
    ensures forall c :: c in r <==> c in s
    ensures forall i, j :: 0 <= i < j < |r| ==> FirstIndex(s, r[i]) < FirstIndex(s, r[j])
  {
    if s == [] then []
    else
      var p, x := s[..|s| - 1], s[|s| - 1];
      assert s == p + [x];
      var d := Distinct(p);
      DistinctStep(p, x, d);
      if x in d then d else d + [x]
  }

  /** The inductive step of Distinct: adding the last character of s keeps the
      result ordered by first occurrence in s. */
  lemma DistinctStep(p: string, x: char, d: string)
    requires forall c :: c in d <==> c in p
    requires forall i, j :: 0 <= i < j < |d| ==> FirstIndex(p, d[i]) < FirstIndex(p, d[j])
    ensures forall i :: 0 <= i < |d| ==> FirstIndex(p + [x], d[i]) == FirstIndex(p, d[i])
    ensures x !in d ==> FirstIndex(p + [x], x) == |p|
  {
    forall i | 0 <= i < |d|
      ensures FirstIndex(p + [x], d[i]) == FirstIndex(p, d[i])
    {
      FirstIndexAppend(p, x, d[i]);
    }
    if x !in d {
      assert (p + [x])[..|p|] == p;
      FirstIndexUnique(p + [x], x, |p|);
    }
  }

  /** Filtering keeps the relative order of first occurrences: a character that
      first appears before another in the filtered string also does so in s. */
  lemma {:induction false} WhereFirstIndexOrder(s: string, keep: char -> bool, c: char, d: char)
    requires c in Where(s, keep) && d in Where(s, keep)
    requires FirstIndex(Where(s, keep), c) < FirstIndex(Where(s, keep), d)
    ensures FirstIndex(s, c) < FirstIndex(s, d)
    decreases |s|
  {
    var x, t := s[0], s[1..];
    var w, wt := Where(s, keep), Where(t, keep);
    assert s == [x] + t;
    if keep(x) {
      assert w == [x] + wt;
      if c != x {
        assert d != x;
        assert FirstIndex(w, c) == 1 + FirstIndex(wt, c);
        assert FirstIndex(w, d) == 1 + FirstIndex(wt, d);
        WhereFirstIndexOrder(t, keep, c, d);
      } else {
        assert FirstIndex(s, c) == 0;
        assert d != x;
      }
    } else {
      assert c != x && d != x;
      WhereFirstIndexOrder(t, keep, c, d);
    }
  }

  /** Distinct after Where lists the kept characters in order of their first
      occurrence in the unfiltered string. */
  lemma DistinctWhereOrder(s: string, keep: char -> bool, r: string)
    requires r == Distinct(Where(s, keep))
    ensures forall i, j :: 0 <= i < j < |r| ==> FirstIndex(s, r[i]) < FirstIndex(s, r[j])
  {
    forall i, j | 0 <= i < j < |r|
      ensures FirstIndex(s, r[i]) < FirstIndex(s, r[j])
    {
      WhereFirstIndexOrder(s, keep, r[i], r[j]);
    }
  }

  /** Every character of r occurs in s, and r lists them in order of first occurrence in s. */
  ghost predicate InFirstOccurrenceOrder(s: string, r: string)
  {
    && (forall c :: c in r ==> c in s)
    && (forall i, j :: 0 <= i < j < |r| ==> FirstIndex(s, r[i]) < FirstIndex(s, r[j]))
  }

  /** The head of such a list has the least first index of all its characters. */
  lemma HeadFirstInOrder(s: string, r: string)
    requires r != [] && InFirstOccurrenceOrder(s, r)
    ensures forall c :: c in r ==> FirstIndex(s, r[0]) <= FirstIndex(s, c)
  {
    forall c | c in r
      ensures FirstIndex(s, r[0]) <= FirstIndex(s, c)
    {
      var k :| 0 <= k < |r| && r[k] == c;
    }
  }

  /** The tail of a duplicate-free list in first-occurrence order is one too,
      and holds exactly the characters of the list other than its head. */
  lemma TailInOrder(s: string, r: string)
    requires r != [] && NoDuplicates(r) && InFirstOccurrenceOrder(s, r)
    ensures NoDuplicates(r[1..]) && InFirstOccurrenceOrder(s, r[1..])
    ensures forall c :: c in r[1..] <==> c in r && c != r[0]
  {
    assert r == [r[0]] + r[1..];
  }

  /** Two duplicate-free lists of the same characters of s, both in order of
      first occurrence in s, are the same list: the order of first
      occurrence determines the result of Distinct. */
  lemma {:induction false} FirstOccurrenceOrderUnique(s: string, r1: string, r2: string)
    requires NoDuplicates(r1) && NoDuplicates(r2)
    requires forall c :: c in r1 <==> c in r2
    requires InFirstOccurrenceOrder(s, r1) && InFirstOccurrenceOrder(s, r2)
    ensures r1 == r2
    decreases |r1|
  {
    if r1 == [] {
      NoMembersIsEmpty(r2);
    } else {
      var a := r1[0];
      assert a in r2;
      var b := r2[0];
      HeadIsMember(r2);
      HeadFirstInOrder(s, r1);
      HeadFirstInOrder(s, r2);
      // both heads carry the least first index, so they are the same character
      assert FirstIndex(s, a) == FirstIndex(s, b);
      assert a == s[FirstIndex(s, a)] == b;
      TailInOrder(s, r1);
      TailInOrder(s, r2);
      FirstOccurrenceOrderUnique(s, r1[1..], r2[1..]);
      assert r1 == [a] + r1[1..] && r2 == [b] + r2[1..];
    }
  }

  /* ---------------- ordinal substring search ---------------- */

  /** search occurs in text starting at index p (exact, character-by-character). */
  predicate OccursAt(text: string, search: string, p: int)
  {
    0 <= p && p + |search| <= |text| && text[p..p + |search|] == search
  }

  /** Search from index from upwards; -1 when there is no occurrence at or above from. */
  function IndexOfFrom(text: string, search: string, from: nat): (r: int)
    ensures r == -1 ==> forall q :: from <= q ==> !OccursAt(text, search, q)
    ensures r != -1 ==> from <= r && OccursAt(text, search, r)
    ensures r != -1 ==> forall q :: from <= q < r ==> !OccursAt(text, search, q)
    decreases |text| - from
  {
    if from + |search| > |text| then -1
    else if OccursAt(text, search, from) then from
    else IndexOfFrom(text, search, from + 1)
  }

  /** String.IndexOf(search, StringComparison.Ordinal): the lowest index at which
      search occurs in text, or -1 when it does not occur. */
  function IndexOf(text: string, search: string): (r: int)
    ensures r == -1 <==> forall q :: !OccursAt(text, search, q)
    ensures r != -1 ==> OccursAt(text, search, r)
    ensures forall q :: 0 <= q < r ==> !OccursAt(text, search, q)
  {
    IndexOfFrom(text, search, 0)
  }

  /** Search from index p downwards; -1 when there is no occurrence at or below p. */
  function LastIndexFrom(text: string, search: string, p: int): (r: int)
    ensures r == -1 ==> forall q :: q <= p ==> !OccursAt(text, search, q)
    ensures r != -1 ==> r <= p && OccursAt(text, search, r)
    ensures r != -1 ==> forall q :: r < q <= p ==> !OccursAt(text, search, q)
    decreases p + 1
  {
    if p < 0 then -1
    else if OccursAt(text, search, p) then p
    else LastIndexFrom(text, search, p - 1)
  }

  /** String.LastIndexOf(search, StringComparison.Ordinal) for a non-empty search:
      the highest index at which search occurs in text, or -1 when it does not occur. */
  function LastIndexOf(text: string, search: string): (r: int)
    ensures r == -1 <==> forall q :: !OccursAt(text, search, q)
    ensures r != -1 ==> OccursAt(text, search, r)
    ensures forall q :: r < q ==> !OccursAt(text, search, q)
  {
    LastIndexFrom(text, search, |text| - |search|)
  }

  /** search occurs at p and at no lower index. */
  ghost predicate IsFirstOccurrence(text: string, search: string, p: int)
  {
    OccursAt(text, search, p) && forall q :: q < p ==> !OccursAt(text, search, q)
  }

  /** search occurs at p and at no higher index. */
  ghost predicate IsLastOccurrence(text: string, search: string, p: int)
  {
    OccursAt(text, search, p) && forall q :: p < q ==> !OccursAt(text, search, q)
  }

  /** text with its n characters from index p replaced by insert
      (text.Substring(0, p) + insert + text.Substring(p + n)). */
  function Splice(text: string, p: nat, n: nat, insert: string): (r: string)
    requires p + n <= |text|
    ensures |r| == |text| - n + |insert|
    ensures r[..p] == text[..p] && r[p + |insert|..] == text[p + n..]
    ensures r[p..p + |insert|] == insert
  {
    text[..p] + insert + text[p + n..]
  }

  /** A splice leaves every occurrence that lies wholly before the replaced
      stretch where it was, and moves every one wholly after it by the change
      in length. */
  lemma SpliceKeepsOccurrences(text: string, p: nat, n: nat, insert: string, search: string, q: int)
    requires p + n <= |text|
    requires OccursAt(text, search, q)
    ensures q + |search| <= p ==> OccursAt(Splice(text, p, n, insert), search, q)
    ensures p + n <= q ==> OccursAt(Splice(text, p, n, insert), search, q - n + |insert|)
  {
    var r := Splice(text, p, n, insert);
    if q + |search| <= p {
      assert r[q..q + |search|] == r[..p][q..q + |search|] == text[..p][q..q + |search|];
    }
    if p + n <= q {
      var q' := q - n + |insert|;
      assert r == text[..p] + insert + text[p + n..];
      assert forall j :: q' <= j < q' + |search| ==> r[j] == text[j + n - |insert|];
      assert r[q'..q' + |search|] == text[q..q + |search|];
    }
  }

  /* ---------------- String.Join, and Split undoing it ---------------- */

  /** String.Join(sep, parts): the parts with sep between neighbours; "" for no parts. */
  function Join(sep: string, parts: seq<string>): (r: string)
    ensures parts == [] ==> r == []
    ensures parts != [] ==> parts[0] <= r
  {
    if parts == [] then []
    else if |parts| == 1 then parts[0]
    else parts[0] + sep + Join(sep, parts[1..])
  }

  /** Cut text at every occurrence of sep, scanning from the left. */
  function Split(text: string, sep: string): (r: seq<string>)
    requires sep != []
    ensures |r| >= 1
    decreases |text|
  {
    var i := IndexOf(text, sep);
    if i < 0 then [text]
    else [text[..i]] + Split(text[i + |sep|..], sep)
  }

  /** Text without a space holds no ", ". */
  lemma NoSeparatorWithoutSpace(p: string)
    requires ' ' !in p
    ensures IndexOf(p, ", ") == -1
  {
    forall q | 0 <= q && q + 2 <= |p|
      ensures !OccursAt(p, ", ", q)
    {
      assert p[q..q + 2][1] == p[q + 1] != ' ';
    }
  }

  /** In p + ", " + rest with no space in p, the first ", " is the one after p. */
  lemma FirstSeparatorAfter(p: string, rest: string)
    requires ' ' !in p
    ensures IndexOf(p + ", " + rest, ", ") == |p|
  {
    var text := p + ", " + rest;
    assert OccursAt(text, ", ", |p|) by {
      assert text[|p|..|p| + 2] == ", ";
    }
    // no separator can start inside p: the character after it is never a space
    forall q | 0 <= q < |p|
      ensures !OccursAt(text, ", ", q)
    {
      assert text[q..q + 2][1] == text[q + 1];
      if q + 1 < |p| {
        assert text[q + 1] == p[q + 1] != ' ';
      } else {
        assert text[q + 1] == ',';
      }
    }
  }

  /** Joining with ", " parts that contain no space can be undone by splitting at ", ". */
  lemma {:induction false} SplitJoin(parts: seq<string>)
    requires parts != []
    requires forall k :: 0 <= k < |parts| ==> ' ' !in parts[k]
    ensures Split(Join(", ", parts), ", ") == parts
    decreases |parts|
  {
    var p := parts[0];
    if |parts| == 1 {
      NoSeparatorWithoutSpace(p);
    } else {
      var rest := Join(", ", parts[1..]);
      var text := p + ", " + rest;
      FirstSeparatorAfter(p, rest);
      assert text[..|p|] == p;
      assert text[|p| + 2..] == rest;
      SplitJoin(parts[1..]);
    }
  }

  /** The restriction to parts without spaces is needed: a part that contains
      ", " is cut in two. */
  lemma {:induction false} SplitCutsPartWithSeparator(part: string)
    requires part == "a, b"
    ensures Split(Join(", ", [part]), ", ") == ["a", "b"]
  {
    assert Join(", ", [part]) == part;
    assert part[0..2][0] == 'a';
    assert part[1..3] == ", ";
    assert !OccursAt(part, ", ", 0) && OccursAt(part, ", ", 1);
    assert IndexOf(part, ", ") == 1;
    assert part[..1] == "a" && part[3..] == "b";
    NoSeparatorWithoutSpace("b");
  }
}
