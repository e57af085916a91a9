/**
 * Slug normalisation for post and category titles: lower-case the title,
 * delete apostrophes, turn every maximal run of characters other than
 * `a-z` and `0-9` into one hyphen, and trim hyphens at both ends.
 */
module Slug {

  predicate IsUpper(c: char) {
    'A' <= c <= 'Z'
  }

  /** The characters a slug keeps from its title. */
  predicate IsAlnum(c: char) {
    ('a' <= c <= 'z') || ('0' <= c <= '9')
  }

  predicate IsSlugChar(c: char) {
    IsAlnum(c) || c == '-'
  }

  predicate NotApostrophe(c: char) {
    c != '\''
  }

  predicate NotHyphen(c: char) {
    c != '-'
  }

  predicate AllSlugChars(s: string) {
    forall i :: 0 <= i < |s| ==> IsSlugChar(s[i])
  }

  predicate NoDoubleHyphen(s: string) {
    forall i, j :: 0 <= i < |s| && 0 <= j < |s| && j == i + 1 ==> !(s[i] == '-' && s[j] == '-')
  }

  /** A finished slug: `[a-z0-9-]` only, no `--`, no hyphen at either end. */
  predicate IsSlug(s: string) {
    && AllSlugChars(s)
    && NoDoubleHyphen(s)
    && (s != [] ==> s[0] != '-' && s[|s| - 1] != '-')
  }

  const LowerLetters := "abcdefghijklmnopqrstuvwxyz"

  /** ASCII lower-casing: `A-Z` become `a-z`, every other character is kept. */
  function LowerChar(c: char): (d: char)
    ensures !IsUpper(c) ==> d == c
    ensures IsUpper(c) ==> d == LowerLetters[c as int - 'A' as int]
    ensures !IsUpper(d)
    ensures IsAlnum(d) ==> IsAlnum(c) || IsUpper(c)
  {
    if IsUpper(c) then (c as int - 'A' as int + 'a' as int) as char else c
  }

  /** The title lower-cased character by character. */
  function Lower(s: string): (r: string)
    ensures |r| == |s|
    ensures forall i :: 0 <= i < |s| ==> r[i] == LowerChar(s[i])
  {
    seq(|s|, i requires 0 <= i < |s| => LowerChar(s[i]))
  }

  /** Lower-casing turns each capital `A-Z` into its letter of `a-z` and keeps every other character. */
  lemma LowerAscii(s: string)
    ensures |Lower(s)| == |s|
    ensures forall i :: 0 <= i < |s| && !IsUpper(s[i]) ==> Lower(s)[i] == s[i]
    ensures forall i :: 0 <= i < |s| && IsUpper(s[i]) ==> Lower(s)[i] == LowerLetters[s[i] as int - 'A' as int]
  {
  }

  /** The characters of `s` that satisfy `keep`, in order. */
  function Filter(s: string, keep: char -> bool): (r: string)
    ensures |r| <= |s|
    ensures forall i :: 0 <= i < |r| ==> keep(r[i])
    ensures forall c :: c in r ==> c in s
  {
    if s == [] then [] else (if keep(s[0]) then [s[0]] else []) + Filter(s[1..], keep)
  }

  function DropApostrophes(s: string): string {
    Filter(s, NotApostrophe)
  }

  function KeepAlnum(s: string): string {
    Filter(s, IsAlnum)
  }

  function RemoveHyphens(s: string): string {
    Filter(s, NotHyphen)
  }

  /** `s` without its leading run of characters outside `[a-z0-9]`. */
  function SkipSeparators(s: string): (r: string)
    ensures |r| <= |s| && r == s[|s| - |r|..]
    ensures r == [] || IsAlnum(r[0])
    ensures forall i :: 0 <= i < |s| - |r| ==> !IsAlnum(s[i])
  {
    if s != [] && !IsAlnum(s[0]) then
      var r := SkipSeparators(s[1..]);
      assert forall i :: 1 <= i < |s| - |r| ==> s[i] == s[1..][i - 1];
      r
    else s
  }

  /** Every maximal run of characters outside `[a-z0-9]` replaced by one hyphen. */
  function Collapse(s: string): (r: string)
    ensures AllSlugChars(r)
    ensures NoDoubleHyphen(r)
    ensures s != [] && IsAlnum(s[0]) ==> r != [] && r[0] == s[0]
    decreases |s|
  {
    if s == [] then []
    else if IsAlnum(s[0]) then
      var rest := Collapse(s[1..]);
      ConsKeepsShape(s[0], rest);
      [s[0]] + rest
    else
      var rest := Collapse(SkipSeparators(s[1..]));
      ConsKeepsShape('-', rest);
      "-" + rest
  }

  /** A slug character put in front keeps the shape, unless it would make `--`. */
  lemma ConsKeepsShape(c: char, r: string)
    requires IsSlugChar(c) && AllSlugChars(r) && NoDoubleHyphen(r)
    requires c == '-' ==> r == [] || r[0] != '-'
    ensures AllSlugChars([c] + r) && NoDoubleHyphen([c] + r)
  {
    var t := [c] + r;
    assert forall i :: 1 <= i < |t| ==> t[i] == r[i - 1];
  }

  /** `s` without leading hyphens. */
  function TrimLeading(s: string): (r: string)
    ensures |r| <= |s| && r == s[|s| - |r|..]
    ensures r == [] || r[0] != '-'
    ensures forall i :: 0 <= i < |s| - |r| ==> s[i] == '-'
  {
    if s != [] && s[0] == '-' then TrimLeading(s[1..]) else s
  }

  /** `s` without trailing hyphens. */
  function TrimTrailing(s: string): (r: string)
    ensures |r| <= |s| && r == s[..|r|]
    ensures r == [] || r[|r| - 1] != '-'
    ensures forall i :: |r| <= i < |s| ==> s[i] == '-'
  {
    if s != [] && s[|s| - 1] == '-' then TrimTrailing(s[..|s| - 1]) else s
  }

  /** Hyphens trimmed at both ends of a collapsed title. */
  function TrimHyphens(collapsed: string): (slug: string)
    requires AllSlugChars(collapsed) && NoDoubleHyphen(collapsed)
    ensures IsSlug(slug)
  {
    var lead := TrimLeading(collapsed);
    SliceKeepsShape(collapsed, |collapsed| - |lead|, |collapsed|);
    var trimmed := TrimTrailing(lead);
    SliceKeepsShape(lead, 0, |trimmed|);
    trimmed
  }

  /** The slug of a title. */
  function Slugify(input: string): (slug: string)
    ensures IsSlug(slug)
  {
    TrimHyphens(Collapse(DropApostrophes(Lower(input))))
  }

  /** A slice of a string made of slug characters without `--` has the same two properties. */
  lemma SliceKeepsShape(s: string, lo: int, hi: int)
    requires 0 <= lo <= hi <= |s|
    requires AllSlugChars(s) && NoDoubleHyphen(s)
    ensures AllSlugChars(s[lo..hi]) && NoDoubleHyphen(s[lo..hi])
  {
    var t := s[lo..hi];
    assert forall i :: 0 <= i < |t| ==> t[i] == s[lo + i];
  }

  // ---------------------------------------------------------------------------
  // Filtering

  lemma {:induction false} FilterAppend(a: string, b: string, keep: char -> bool)
    ensures Filter(a + b, keep) == Filter(a, keep) + Filter(b, keep)
    decreases |a|
  {
    if a == [] {
      assert a + b == b;
    } else {
      assert (a + b)[0] == a[0];
      assert (a + b)[1..] == a[1..] + b;
      FilterAppend(a[1..], b, keep);
    }
  }

  lemma {:induction false} FilterKeepsAll(s: string, keep: char -> bool)
    requires forall i :: 0 <= i < |s| ==> keep(s[i])
    ensures Filter(s, keep) == s
    decreases |s|
  {
    if s != [] {
      FilterKeepsAll(s[1..], keep);
    }
  }

  lemma {:induction false} FilterDropsAll(s: string, keep: char -> bool)
    requires forall i :: 0 <= i < |s| ==> !keep(s[i])
    ensures Filter(s, keep) == []
    decreases |s|
  {
    if s != [] {
      FilterDropsAll(s[1..], keep);
    }
  }

  /** Dropping apostrophes first does not change which alphanumerics remain. */
  lemma {:induction false} KeepAlnumDropApostrophes(s: string)
    ensures KeepAlnum(DropApostrophes(s)) == KeepAlnum(s)
    decreases |s|
  {
    if s != [] {
      KeepAlnumDropApostrophes(s[1..]);
      var head := if NotApostrophe(s[0]) then [s[0]] else [];
      FilterAppend(head, DropApostrophes(s[1..]), IsAlnum);
      assert KeepAlnum(head) == (if IsAlnum(s[0]) then [s[0]] else []);
    }
  }

  /** On slug characters, removing hyphens and keeping alphanumerics are the same. */
  lemma {:induction false} RemoveHyphensOfSlugChars(s: string)
    requires AllSlugChars(s)
    ensures RemoveHyphens(s) == KeepAlnum(s)
    decreases |s|
  {
    if s != [] {
      RemoveHyphensOfSlugChars(s[1..]);
    }
  }

  // ---------------------------------------------------------------------------
  // Alphanumerics are preserved

  lemma {:induction false} SkipSeparatorsKeepsAlnum(s: string)
    ensures KeepAlnum(SkipSeparators(s)) == KeepAlnum(s)
    decreases |s|
  {
    if s != [] && !IsAlnum(s[0]) {
      SkipSeparatorsKeepsAlnum(s[1..]);
      assert KeepAlnum(s) == [] + KeepAlnum(s[1..]);
    }
  }

  lemma {:induction false} CollapseKeepsAlnum(s: string)
    ensures KeepAlnum(Collapse(s)) == KeepAlnum(s)
    decreases |s|
  {
    if s == [] {
    } else if IsAlnum(s[0]) {
      CollapseKeepsAlnum(s[1..]);
      FilterAppend([s[0]], Collapse(s[1..]), IsAlnum);
    } else {
      var rest := SkipSeparators(s[1..]);
      CollapseKeepsAlnum(rest);
      SkipSeparatorsKeepsAlnum(s[1..]);
      FilterAppend("-", Collapse(rest), IsAlnum);
    }
  }

  lemma TrimLeadingKeepsAlnum(s: string)
    ensures KeepAlnum(TrimLeading(s)) == KeepAlnum(s)
  {
    var lead := TrimLeading(s);
    var k := |s| - |lead|;
    assert s == s[..k] + lead;
    FilterAppend(s[..k], lead, IsAlnum);
    FilterDropsAll(s[..k], IsAlnum);
  }

  lemma TrimTrailingKeepsAlnum(s: string)
    ensures KeepAlnum(TrimTrailing(s)) == KeepAlnum(s)
  {
    var trimmed := TrimTrailing(s);
    assert s == trimmed + s[|trimmed|..];
    FilterAppend(trimmed, s[|trimmed|..], IsAlnum);
    FilterDropsAll(s[|trimmed|..], IsAlnum);
  }

  /**
   * Deleting the hyphens from a slug gives exactly the alphanumerics of the
   * lower-cased title, in order: nothing is lost, added or reordered.
   */
  lemma SlugKeepsAlnum(input: string)
    ensures RemoveHyphens(Slugify(input)) == KeepAlnum(Lower(input))
  {
    var lowered := Lower(input);
    var collapsed := Collapse(DropApostrophes(lowered));
    RemoveHyphensOfSlugChars(Slugify(input));
    TrimLeadingKeepsAlnum(collapsed);
    TrimTrailingKeepsAlnum(TrimLeading(collapsed));
    CollapseKeepsAlnum(DropApostrophes(lowered));
    KeepAlnumDropApostrophes(lowered);
  }

  /** The slug is empty exactly when the title has no character of `[a-zA-Z0-9]`. */
  lemma SlugEmptyIff(input: string)
    ensures Slugify(input) == [] <==> forall i :: 0 <= i < |input| ==> !IsAlnum(LowerChar(input[i]))
  {
    var slug := Slugify(input);
    var lowered := Lower(input);
    SlugKeepsAlnum(input);
    RemoveHyphensOfSlugChars(slug);
    if slug != [] {
      assert IsAlnum(slug[0]);
      assert KeepAlnum(slug) != [];
      if forall i :: 0 <= i < |input| ==> !IsAlnum(LowerChar(input[i])) {
        FilterDropsAll(lowered, IsAlnum);
      }
    } else {
      forall i | 0 <= i < |input|
        ensures !IsAlnum(LowerChar(input[i]))
      {
        if IsAlnum(lowered[i]) {
          assert lowered == lowered[..i] + lowered[i..];
          FilterAppend(lowered[..i], lowered[i..], IsAlnum);
        }
      }
    }
  }

  // ---------------------------------------------------------------------------
  // Idempotence

  /** Collapsing changes nothing in a string of slug characters without `--`. */
  lemma {:induction false} CollapseFixes(s: string)
    requires AllSlugChars(s) && NoDoubleHyphen(s)
    ensures Collapse(s) == s
    decreases |s|
  {
    if s != [] {
      SliceKeepsShape(s, 1, |s|);
      CollapseFixes(s[1..]);
      if !IsAlnum(s[0]) {
        assert s[1..] == [] || IsAlnum(s[1]);
        assert SkipSeparators(s[1..]) == s[1..];
      }
    }
  }

  /** A finished slug is its own slug. */
  lemma SlugFixes(slug: string)
    requires IsSlug(slug)
    ensures Slugify(slug) == slug
  {
    assert Lower(slug) == slug;
    FilterKeepsAll(slug, NotApostrophe);
    CollapseFixes(slug);
  }

  /** Slugifying twice gives the same slug as once. */
  lemma SlugifyIdempotent(input: string)
    ensures Slugify(Slugify(input)) == Slugify(input)
  {
    SlugFixes(Slugify(input));
  }

  // ---------------------------------------------------------------------------
  // Apostrophes

  /** Lower-casing leaves a title unchanged exactly when it has no capital letter. */
  lemma LowerFixesIff(s: string)
    ensures Lower(s) == s <==> forall i :: 0 <= i < |s| ==> !IsUpper(s[i])
  {
    if Lower(s) == s {
      forall i | 0 <= i < |s| ensures !IsUpper(s[i]) {
        assert !IsUpper(Lower(s)[i]);
      }
    }
  }

  /** Lower-casing twice is lower-casing once. */
  lemma LowerIdempotent(s: string)
    ensures Lower(Lower(s)) == Lower(s)
  {
    LowerFixesIff(Lower(s));
  }

  lemma LowerAppend(a: string, b: string)
    ensures Lower(a + b) == Lower(a) + Lower(b)
  {
  }

  lemma DropApostropheOfLower(before: string, after: string)
    ensures DropApostrophes(Lower(before + "'" + after)) == DropApostrophes(Lower(before + after))
  {
    var la := Lower(before);
    var lb := Lower(after);
    assert Lower(before + "'" + after) == la + "'" + lb;
    assert Lower(before + after) == la + lb;
    FilterAppend(la + "'", lb, NotApostrophe);
    FilterAppend(la, "'", NotApostrophe);
    FilterAppend(la, lb, NotApostrophe);
    assert Filter("'", NotApostrophe) == [];
  }

  /** An apostrophe anywhere in the title is deleted without leaving a separator. */
  lemma ApostropheDeleted(before: string, after: string)
    ensures Slugify(before + "'" + after) == Slugify(before + after)
  {
    DropApostropheOfLower(before, after);
  }

  // ---------------------------------------------------------------------------
  // Examples

  /** A word of alphanumerics passes through `Collapse` unchanged. */
  lemma {:induction false} CollapseWord(word: string, rest: string)
    requires forall i :: 0 <= i < |word| ==> IsAlnum(word[i])
    ensures Collapse(word + rest) == word + Collapse(rest)
    decreases |word|
  {
    if word != [] {
      assert (word + rest)[0] == word[0];
      assert (word + rest)[1..] == word[1..] + rest;
      CollapseWord(word[1..], rest);
      assert word == [word[0]] + word[1..];
    } else {
      assert word + rest == rest;
    }
  }

  /** A non-empty run of separators before a word, or at the end, becomes one hyphen. */
  lemma CollapseSeparators(run: string, rest: string)
    requires run != [] && forall i :: 0 <= i < |run| ==> !IsAlnum(run[i])
    requires rest == [] || IsAlnum(rest[0])
    ensures Collapse(run + rest) == "-" + Collapse(rest)
  {
    CollapseSeparatorHead(run, rest);
    var tail := run[1..];
    assert forall i :: 0 <= i < |tail| ==> !IsAlnum(tail[i]) by {
      forall i | 0 <= i < |tail| ensures !IsAlnum(tail[i]) {
        assert tail[i] == run[i + 1];
      }
    }
    SkipRun(tail, rest);
  }

  lemma CollapseSeparatorHead(run: string, rest: string)
    requires run != [] && !IsAlnum(run[0])
    ensures Collapse(run + rest) == "-" + Collapse(SkipSeparators(run[1..] + rest))
  {
    var s := run + rest;
    assert s[0] == run[0] && s[1..] == run[1..] + rest;
  }

  lemma {:induction false} SkipRun(run: string, rest: string)
    requires forall i :: 0 <= i < |run| ==> !IsAlnum(run[i])
    requires rest == [] || IsAlnum(rest[0])
    ensures SkipSeparators(run + rest) == rest
    decreases |run|
  {
    if run == [] {
      assert run + rest == rest;
    } else {
      assert (run + rest)[0] == run[0];
      assert (run + rest)[1..] == run[1..] + rest;
      SkipRun(run[1..], rest);
    }
  }

  /** A word and the separator run after it become the word and one hyphen. */
  lemma CollapseWordThen(word: string, sep: string, rest: string)
    requires forall i :: 0 <= i < |word| ==> IsAlnum(word[i])
    requires sep != [] && forall i :: 0 <= i < |sep| ==> !IsAlnum(sep[i])
    requires rest == [] || IsAlnum(rest[0])
    ensures Collapse(word + sep + rest) == word + "-" + Collapse(rest)
  {
    CollapseSeparators(sep, rest);
    assert word + sep + rest == word + (sep + rest);
    CollapseWord(word, sep + rest);
  }

  /** The words of a lower-case title come out joined by single hyphens. */
  lemma CollapseTwoWords(a: string, sep: string, b: string)
    requires forall i :: 0 <= i < |a| ==> IsAlnum(a[i])
    requires forall i :: 0 <= i < |b| ==> IsAlnum(b[i])
    requires b != []
    requires sep != [] && forall i :: 0 <= i < |sep| ==> !IsAlnum(sep[i])
    ensures Collapse(a + sep + b) == a + "-" + b
  {
    CollapseWord(b, []);
    assert b + [] == b;
    CollapseWordThen(a, sep, b);
  }

  /** When collapsing leaves no hyphen at either end, trimming changes nothing. */
  lemma SlugifyUntrimmed(input: string)
    requires var c := Collapse(DropApostrophes(Lower(input))); c != [] && c[0] != '-' && c[|c| - 1] != '-'
    ensures Slugify(input) == Collapse(DropApostrophes(Lower(input)))
  {
  }

  lemma LowerThreeParts(a: string, sep: string, b: string)
    requires forall i :: 0 <= i < |sep| ==> sep[i] != '\''
    requires forall i :: 0 <= i < |a| ==> IsAlnum(LowerChar(a[i]))
    requires forall i :: 0 <= i < |b| ==> IsAlnum(LowerChar(b[i]))
    ensures DropApostrophes(Lower(a + sep + b)) == Lower(a) + Lower(sep) + Lower(b)
  {
    var t := Lower(a) + Lower(sep) + Lower(b);
    assert Lower(a + sep + b) == t;
    assert forall i :: 0 <= i < |t| ==> NotApostrophe(t[i]);
    FilterKeepsAll(t, NotApostrophe);
  }

  /**
   * Two alphanumeric words around a run of spaces or punctuation (no
   * apostrophe) become the two lower-cased words joined by one hyphen.
   */
  lemma SlugOfTwoWords(a: string, sep: string, b: string)
    requires a != [] && b != []
    requires forall i :: 0 <= i < |a| ==> IsAlnum(LowerChar(a[i]))
    requires forall i :: 0 <= i < |b| ==> IsAlnum(LowerChar(b[i]))
    requires sep != [] && forall i :: 0 <= i < |sep| ==> !IsAlnum(LowerChar(sep[i])) && sep[i] != '\''
    ensures Slugify(a + sep + b) == Lower(a) + "-" + Lower(b)
  {
    var la, ls, lb := Lower(a), Lower(sep), Lower(b);
    LowerThreeParts(a, sep, b);
    CollapseTwoWords(la, ls, lb);
    var collapsed := la + "-" + lb;
    assert collapsed[0] == la[0];
    assert collapsed[|collapsed| - 1] == lb[|lb| - 1];
    SlugifyUntrimmed(a + sep + b);
  }

  /** The side conditions of `SlugOfTwoWords` for "Hello, World". */
  lemma HelloWorldParts()
    ensures forall i :: 0 <= i < |"Hello"| ==> IsAlnum(LowerChar("Hello"[i]))
    ensures forall i :: 0 <= i < |"World"| ==> IsAlnum(LowerChar("World"[i]))
    ensures forall i :: 0 <= i < |", "| ==> !IsAlnum(LowerChar(", "[i])) && ", "[i] != '\''
    ensures Lower("Hello") + "-" + Lower("World") == "hello-world"
    ensures "Hello" + ", " + "World" == "Hello, World"
  {
  }

  lemma ExampleTwoWords()
    ensures Slugify("Hello, World") == "hello-world"
  {
    HelloWorldParts();
    SlugOfTwoWords("Hello", ", ", "World");
  }

  /** The side conditions of `SlugOfTwoWords` for a title with a typographic apostrophe. */
  lemma CurlyApostropheParts()
    ensures forall i :: 0 <= i < |"It"| ==> IsAlnum(LowerChar("It"[i]))
    ensures forall i :: 0 <= i < |"s"| ==> IsAlnum(LowerChar("s"[i]))
    ensures forall i :: 0 <= i < |"\U{2019}"| ==> !IsAlnum(LowerChar("\U{2019}"[i])) && "\U{2019}"[i] != '\''
    ensures Lower("It") + "-" + Lower("s") == "it-s"
    ensures "It" + "\U{2019}" + "s" == "It\U{2019}s"
  {
  }

  /** A single alphanumeric word is its own slug, lower-cased. */
  lemma SlugOfOneWord(w: string)
    requires w != []
    requires forall i :: 0 <= i < |w| ==> IsAlnum(LowerChar(w[i]))
    ensures Slugify(w) == Lower(w)
  {
    var lw := Lower(w);
    assert forall i :: 0 <= i < |lw| ==> NotApostrophe(lw[i]);
    FilterKeepsAll(lw, NotApostrophe);
    CollapseWord(lw, []);
    assert lw + [] == lw;
    SlugifyUntrimmed(w);
  }

  /** Only the ASCII apostrophe is deleted: U+2019 is a separator like any other. */
  lemma ExampleCurlyApostrophe()
    ensures Slugify("It\U{2019}s") == "it-s"
  {
    CurlyApostropheParts();
    SlugOfTwoWords("It", "\U{2019}", "s");
  }

  lemma ApostropheParts()
    ensures forall i :: 0 <= i < |"Its"| ==> IsAlnum(LowerChar("Its"[i]))
    ensures Lower("Its") == "its"
    ensures "It" + "'" + "s" == "It's" && "It" + "s" == "Its"
  {
  }

  lemma ExampleApostrophe()
    ensures Slugify("It's") == "its"
  {
    ApostropheParts();
    ApostropheDeleted("It", "s");
    SlugOfOneWord("Its");
  }

  /** A collapsed title that ends in one hyphen after a word loses that hyphen and nothing else. */
  lemma SlugifyTrailingHyphen(input: string, body: string)
    requires body != [] && body[0] != '-' && body[|body| - 1] != '-'
    requires Collapse(DropApostrophes(Lower(input))) == body + "-"
    ensures Slugify(input) == body
  {
    var c := body + "-";
    assert c[0] == body[0];
    assert TrimLeading(c) == c;
    assert c[..|c| - 1] == body;
    assert TrimTrailing(body) == body;
  }

  /**
   * Three alphanumeric words, each followed by a run of spaces or
   * punctuation (no apostrophe), become the three lower-cased words joined
   * by hyphens: the run after the last word is trimmed away.
   */
  lemma SlugOfThreeWords(a: string, s1: string, b: string, s2: string, c: string, s3: string)
    requires a != [] && b != [] && c != []
    requires forall i :: 0 <= i < |a| ==> IsAlnum(LowerChar(a[i]))
    requires forall i :: 0 <= i < |b| ==> IsAlnum(LowerChar(b[i]))
    requires forall i :: 0 <= i < |c| ==> IsAlnum(LowerChar(c[i]))
    requires s1 != [] && forall i :: 0 <= i < |s1| ==> !IsAlnum(LowerChar(s1[i])) && s1[i] != '\''
    requires s2 != [] && forall i :: 0 <= i < |s2| ==> !IsAlnum(LowerChar(s2[i])) && s2[i] != '\''
    requires s3 != [] && forall i :: 0 <= i < |s3| ==> !IsAlnum(LowerChar(s3[i])) && s3[i] != '\''
    ensures Slugify(a + s1 + b + s2 + c + s3) == Lower(a) + "-" + Lower(b) + "-" + Lower(c)
  {
    var input := a + s1 + b + s2 + c + s3;
    var la, lb, lc := Lower(a), Lower(b), Lower(c);
    LowerSixParts(a, s1, b, s2, c, s3);
    CollapseThreeWords(la, Lower(s1), lb, Lower(s2), lc, Lower(s3));
    var body := la + "-" + lb + "-" + lc;
    assert body[0] == la[0] && body[|body| - 1] == lc[|lc| - 1];
    SlugifyTrailingHyphen(input, body);
  }

  /** Lower-casing the six pieces one by one; no apostrophe is there to delete. */
  lemma LowerSixParts(a: string, s1: string, b: string, s2: string, c: string, s3: string)
    requires forall i :: 0 <= i < |a| ==> IsAlnum(LowerChar(a[i]))
    requires forall i :: 0 <= i < |b| ==> IsAlnum(LowerChar(b[i]))
    requires forall i :: 0 <= i < |c| ==> IsAlnum(LowerChar(c[i]))
    requires forall i :: 0 <= i < |s1| ==> s1[i] != '\''
    requires forall i :: 0 <= i < |s2| ==> s2[i] != '\''
    requires forall i :: 0 <= i < |s3| ==> s3[i] != '\''
    ensures DropApostrophes(Lower(a + s1 + b + s2 + c + s3))
      == Lower(a) + Lower(s1) + Lower(b) + Lower(s2) + Lower(c) + Lower(s3)
  {
    var lowered := Lower(a) + Lower(s1) + Lower(b) + Lower(s2) + Lower(c) + Lower(s3);
    assert Lower(a + s1 + b + s2 + c + s3) == lowered;
    assert forall i :: 0 <= i < |lowered| ==> NotApostrophe(lowered[i]);
    FilterKeepsAll(lowered, NotApostrophe);
  }

  /** Three words, each followed by a separator run, collapse to the words each followed by one hyphen. */
  lemma CollapseThreeWords(a: string, s1: string, b: string, s2: string, c: string, s3: string)
    requires b != [] && c != []
    requires forall i :: 0 <= i < |a| ==> IsAlnum(a[i])
    requires forall i :: 0 <= i < |b| ==> IsAlnum(b[i])
    requires forall i :: 0 <= i < |c| ==> IsAlnum(c[i])
    requires s1 != [] && forall i :: 0 <= i < |s1| ==> !IsAlnum(s1[i])
    requires s2 != [] && forall i :: 0 <= i < |s2| ==> !IsAlnum(s2[i])
    requires s3 != [] && forall i :: 0 <= i < |s3| ==> !IsAlnum(s3[i])
    ensures Collapse(a + s1 + b + s2 + c + s3) == a + "-" + b + "-" + c + "-"
  {
    var tail := c + s3;
    CollapseWordThen(c, s3, []);
    assert c + s3 + [] == tail;
    assert Collapse(tail) == c + "-";
    var rest := b + s2 + tail;
    assert rest[0] == b[0];
    CollapseWordThen(b, s2, tail);
    assert Collapse(rest) == b + "-" + (c + "-");
    ConcatSix(a, s1, b, s2, c, s3);
    CollapseWordThen(a, s1, rest);
    assert Collapse(a + s1 + rest) == a + "-" + (b + "-" + (c + "-"));
    ConcatHyphens(a, b, c);
  }

  lemma ConcatSix(a: string, s1: string, b: string, s2: string, c: string, s3: string)
    ensures a + s1 + b + s2 + c + s3 == a + s1 + (b + s2 + (c + s3))
  {
  }

  lemma ConcatHyphens(a: string, b: string, c: string)
    ensures a + "-" + (b + "-" + (c + "-")) == a + "-" + b + "-" + c + "-"
  {
  }

  /** The pieces of "It's a Test!!" once its apostrophe is deleted. */
  lemma ItsATestParts()
    ensures "It" + "'" + "s a Test!!" == "It's a Test!!"
    ensures "It" + "s a Test!!" == "Its" + " " + "a" + " " + "Test" + "!!"
    ensures forall i :: 0 <= i < |"Its"| ==> IsAlnum(LowerChar("Its"[i]))
    ensures forall i :: 0 <= i < |"a"| ==> IsAlnum(LowerChar("a"[i]))
    ensures forall i :: 0 <= i < |"Test"| ==> IsAlnum(LowerChar("Test"[i]))
    ensures forall i :: 0 <= i < |" "| ==> !IsAlnum(LowerChar(" "[i])) && " "[i] != '\''
    ensures forall i :: 0 <= i < |"!!"| ==> !IsAlnum(LowerChar("!!"[i])) && "!!"[i] != '\''
    ensures Lower("Its") + "-" + Lower("a") + "-" + Lower("Test") == "its-a-test"
  {
  }

  lemma ExampleApostropheAndPunctuation()
    ensures Slugify("It's a Test!!") == "its-a-test"
  {
    ItsATestParts();
    ApostropheDeleted("It", "s a Test!!");
    SlugOfThreeWords("Its", " ", "a", " ", "Test", "!!");
  }

  lemma ExampleOnlySeparators()
    ensures Slugify("---") == ""
    ensures Slugify("!!") == ""
  {
    assert Lower("---") == "---";
    FilterKeepsAll("---", NotApostrophe);
    assert Collapse("---") == "-";
    assert Lower("!!") == "!!";
    FilterKeepsAll("!!", NotApostrophe);
    assert Collapse("!!") == "-";
  }
}
