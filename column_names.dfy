/**
 * Normalisation of CSV header names (`clean_column_name`): strip surrounding
 * whitespace, lower-case, then replace every maximal run of non-word
 * characters by a single underscore. Character classes are the ASCII ones.
 */
module ColumnNames {

  /** Python's `str.isspace` on ASCII: space, \t \n \v \f \r and the
      separators 0x1C to 0x1F. */
  predicate IsSpace(c: char) {
    var n := c as int;
    n == 32 || 9 <= n <= 13 || 28 <= n <= 31
  }

  predicate IsUpper(c: char) {
    'A' <= c <= 'Z'
  }

  /** A character of the regular-expression class `\w` (ASCII). */
  predicate IsWordChar(c: char) {
    'a' <= c <= 'z' || 'A' <= c <= 'Z' || '0' <= c <= '9' || c == '_'
  }

  /** The characters a normalised name may contain. */
  predicate IsNameChar(c: char) {
    'a' <= c <= 'z' || '0' <= c <= '9' || c == '_'
  }

  predicate IsCleanName(s: string) {
    forall i :: 0 <= i < |s| ==> IsNameChar(s[i])
  }

  predicate NoUpper(s: string) {
    forall i :: 0 <= i < |s| ==> !IsUpper(s[i])
  }

  predicate AllSpace(s: string) {
    forall i :: 0 <= i < |s| ==> IsSpace(s[i])
  }

  predicate AllWord(s: string) {
    forall i :: 0 <= i < |s| ==> IsWordChar(s[i])
  }

  predicate AllNonWord(s: string) {
    forall i :: 0 <= i < |s| ==> !IsWordChar(s[i])
  }

  // ---------------------------------------------------------------------
  // str.strip()

  /** Drops the leading whitespace of `s`. */
  function TrimStart(s: string): (r: string)
    ensures |r| <= |s| && r == s[|s| - |r|..]
    ensures AllSpace(s[..|s| - |r|])
    ensures r == [] || !IsSpace(r[0])
    decreases |s|
  {
    if s != [] && IsSpace(s[0]) then
      var r := TrimStart(s[1..]);
      assert s[|s| - |r|..] == s[1..][|s| - 1 - |r|..];
      assert s[..|s| - |r|] == [s[0]] + s[1..][..|s| - 1 - |r|];
      r
    else
      s
  }

  /** Drops the trailing whitespace of `s`. */
  function TrimEnd(s: string): (r: string)
    ensures |r| <= |s| && r == s[..|r|]
    ensures AllSpace(s[|r|..])
    ensures r == [] || !IsSpace(r[|r| - 1])
    decreases |s|
  {
    if s != [] && IsSpace(s[|s| - 1]) then
      var init := s[..|s| - 1];
      var r := TrimEnd(init);
      assert s[..|r|] == init[..|r|];
      assert s[|r|..] == init[|r|..] + [s[|s| - 1]];
      r
    else
      s
  }

  /** `str.strip()`: the result neither starts nor ends with whitespace;
      `StripRemovesSurroundingSpace` shows that only whitespace was removed. */
  function Strip(s: string): (r: string)
    ensures |r| <= |s|
    ensures r == [] || (!IsSpace(r[0]) && !IsSpace(r[|r| - 1]))
  {
    TrimEnd(TrimStart(s))
  }

  /** The stripped string is a slice of `s` with whitespace only before
      and after it. */
  lemma StripRemovesSurroundingSpace(s: string)
    ensures exists k ::
              && 0 <= k <= |s| - |Strip(s)|
              && Strip(s) == s[k..k + |Strip(s)|]
              && AllSpace(s[..k]) && AllSpace(s[k + |Strip(s)|..])
  {
    var t := TrimStart(s);
    var r := TrimEnd(t);
    var k := |s| - |t|;
    assert r == s[k..k + |r|];
    assert s[k + |r|..] == t[|r|..];
  }

  lemma {:induction false} TrimStartPadded(p: string, r: string)
    requires AllSpace(p)
    ensures TrimStart(p + r) == TrimStart(r)
    decreases |p|
  {
    if p == [] {
      assert p + r == r;
    } else {
      assert (p + r)[0] == p[0];
      assert (p + r)[1..] == p[1..] + r;
      TrimStartPadded(p[1..], r);
    }
  }

  lemma {:induction false} TrimEndPadded(r: string, q: string)
    requires AllSpace(q)
    ensures TrimEnd(r + q) == TrimEnd(r)
    decreases |q|
  {
    if q == [] {
      assert r + q == r;
    } else {
      var q' := q[..|q| - 1];
      assert (r + q)[|r + q| - 1] == q[|q| - 1];
      assert (r + q)[..|r + q| - 1] == r + q';
      TrimEndPadded(r, q');
    }
  }

  /** Stripping `r` surrounded by whitespace gives back `r` whenever `r`
      neither starts nor ends with whitespace: together with the
      postcondition of `Strip` and `StripRemovesSurroundingSpace` this pins
      the result down uniquely. */
  lemma StripPadded(p: string, r: string, q: string)
    requires AllSpace(p) && AllSpace(q)
    requires r == [] || (!IsSpace(r[0]) && !IsSpace(r[|r| - 1]))
    ensures Strip(p + r + q) == r
  {
    assert p + r + q == p + (r + q);
    TrimStartPadded(p, r + q);
    if r == [] {
      assert r + q == q;
      assert TrimStart(q) == [];
      assert TrimEnd([]) == [];
    } else {
      assert (r + q)[0] == r[0];
      assert TrimStart(r + q) == r + q;
      TrimEndPadded(r, q);
      assert TrimEnd(r) == r;
    }
  }

  // ---------------------------------------------------------------------
  // str.lower()

  function LowerChar(c: char): char {
    if IsUpper(c) then (c as int + 32) as char else c
  }

  /** `str.lower()` on ASCII: each upper-case letter becomes its lower-case
      counterpart, every other character is kept; no character changes class. */
  function Lower(s: string): (r: string)
    ensures |r| == |s| && NoUpper(r)
    ensures forall i :: 0 <= i < |s| ==>
      && (IsUpper(s[i]) ==> r[i] as int == s[i] as int + 32)
      && (!IsUpper(s[i]) ==> r[i] == s[i])
      && (IsWordChar(r[i]) <==> IsWordChar(s[i]))
      && (IsSpace(r[i]) <==> IsSpace(s[i]))
  {
    seq(|s|, i requires 0 <= i < |s| => LowerChar(s[i]))
  }

  // ---------------------------------------------------------------------
  // re.sub(r'\W+', '_', s)

  /** Length of the maximal run of non-word characters that `s` starts with. */
  function NonWordRun(s: string): (n: nat)
    ensures n <= |s|
    ensures AllNonWord(s[..n])
    ensures n == |s| || IsWordChar(s[n])
    decreases |s|
  {
    if s == [] || IsWordChar(s[0]) then 0 else 1 + NonWordRun(s[1..])
  }

  /** `re.sub(r'\W+', '_', s)`: scanning left to right, word characters are
      copied and each maximal run of non-word characters is replaced by one
      underscore. The result holds word characters only and is no longer
      than `s`. */
  function CollapseNonWord(s: string): (r: string)
    ensures |r| <= |s|
    ensures AllWord(r)
    ensures NoUpper(s) ==> NoUpper(r)
    decreases |s|
  {
    if s == [] then []
    else if IsWordChar(s[0]) then [s[0]] + CollapseNonWord(s[1..])
    else "_" + CollapseNonWord(s[NonWordRun(s)..])
  }

  /** A prefix of word characters passes through unchanged. */
  lemma {:induction false} CollapseWordPrefix(w: string, t: string)
    requires AllWord(w)
    ensures CollapseNonWord(w + t) == w + CollapseNonWord(t)
    decreases |w|
  {
    if w != [] {
      assert (w + t)[0] == w[0] && IsWordChar(w[0]);
      assert (w + t)[1..] == w[1..] + t;
      CollapseWordPrefix(w[1..], t);
      calc {
        CollapseNonWord(w + t);
        [w[0]] + CollapseNonWord(w[1..] + t);
        [w[0]] + (w[1..] + CollapseNonWord(t));
        { assert [w[0]] + w[1..] == w; }
        w + CollapseNonWord(t);
      }
    } else {
      assert w + t == t;
    }
  }

  /** A string of word characters only is a fixed point. */
  lemma CollapseAllWord(w: string)
    requires AllWord(w)
    ensures CollapseNonWord(w) == w
  {
    CollapseWordPrefix(w, []);
    assert w + [] == w;
  }

  /** The leading non-word run of `n + t` is exactly `n` when `t` starts
      with a word character or is empty. */
  lemma {:induction false} NonWordRunOf(n: string, t: string)
    requires AllNonWord(n)
    requires t == [] || IsWordChar(t[0])
    ensures NonWordRun(n + t) == |n|
    decreases |n|
  {
    if n == [] {
      assert n + t == t;
    } else {
      assert (n + t)[1..] == n[1..] + t;
      NonWordRunOf(n[1..], t);
    }
  }

  /** The defining step of the substitution: a word prefix `w`, then a
      maximal non-word run `n` (followed by the end or a word character),
      become `w` and a single underscore. Together with `CollapseAllWord`
      this determines `CollapseNonWord` on every string. */
  lemma CollapseRun(w: string, n: string, t: string)
    requires AllWord(w) && n != [] && AllNonWord(n)
    requires t == [] || IsWordChar(t[0])
    ensures CollapseNonWord(w + n + t) == w + "_" + CollapseNonWord(t)
  {
    assert w + n + t == w + (n + t);
    CollapseWordPrefix(w, n + t);
    NonWordRunOf(n, t);
    assert (n + t)[0] == n[0];
    assert (n + t)[|n|..] == t;
  }

  // ---------------------------------------------------------------------
  // clean_column_name

  /** `clean_column_name`: the result consists of lower-case letters,
      digits and underscores only, and is never longer than the input. */
  function CleanColumnName(name: string): (r: string)
    ensures IsCleanName(r)
    ensures |r| <= |name|
  {
    CollapseNonWord(Lower(Strip(name)))
  }

  /** Names that are already normalised are returned unchanged, and they are
      the only ones. */
  lemma CleanColumnNameFixedPoints(s: string)
    ensures CleanColumnName(s) == s <==> IsCleanName(s)
  {
    if IsCleanName(s) {
      assert s == [] || (!IsSpace(s[0]) && !IsSpace(s[|s| - 1]));
      StripPadded([], s, []);
      assert [] + s + [] == s;
      assert Lower(s) == s;
      assert AllWord(s);
      CollapseAllWord(s);
    }
  }

  /** Normalising a normalised name changes nothing. */
  lemma CleanColumnNameIdempotent(s: string)
    ensures CleanColumnName(CleanColumnName(s)) == CleanColumnName(s)
  {
    CleanColumnNameFixedPoints(CleanColumnName(s));
  }

  lemma LowerConcat(a: string, b: string)
    ensures Lower(a + b) == Lower(a) + Lower(b)
  {
  }

  lemma StripWordsPadded(p: string, a: string, n: string, b: string, q: string)
    requires AllSpace(p) && AllSpace(q)
    requires a != [] && AllWord(a) && AllWord(b)
    requires b == [] ==> n != [] && !IsSpace(n[|n| - 1])
    ensures Strip(p + a + n + b + q) == a + n + b
  {
    var core := a + n + b;
    assert p + a + n + b + q == p + core + q;
    assert core[0] == a[0];
    assert core[|core| - 1] == if b == [] then n[|n| - 1] else b[|b| - 1];
    StripPadded(p, core, q);
  }

  lemma CollapseTwoWords(a: string, n: string, b: string)
    requires AllWord(a) && AllWord(b)
    requires n != [] && AllNonWord(n)
    ensures CollapseNonWord(Lower(a) + Lower(n) + Lower(b)) == Lower(a) + "_" + Lower(b)
  {
    var la, ln, lb := Lower(a), Lower(n), Lower(b);
    assert lb == [] || IsWordChar(lb[0]);
    CollapseRun(la, ln, lb);
    CollapseAllWord(lb);
  }

  /** Two words separated by a run of non-word characters, with whitespace
      around them, become the two lower-cased words joined by a single
      underscore; an empty second word leaves a trailing underscore. */
  lemma CleanTwoWords(p: string, a: string, n: string, b: string, q: string)
    requires AllSpace(p) && AllSpace(q)
    requires a != [] && AllWord(a) && AllWord(b)
    requires n != [] && AllNonWord(n)
    requires b == [] ==> !IsSpace(n[|n| - 1])
    ensures CleanColumnName(p + a + n + b + q) == Lower(a) + "_" + Lower(b)
  {
    StripWordsPadded(p, a, n, b, q);
    LowerConcat(a + n, b);
    LowerConcat(a, n);
    CollapseTwoWords(a, n, b);
  }

  // The three header names below are split into the parts `CleanTwoWords`
  // expects; each `...Parts` lemma checks the split on the literal.

  lemma VideoIdParts()
    ensures "" + "Video" + " " + "ID" + "" == "Video ID"
    ensures AllSpace("") && AllWord("Video") && AllWord("ID") && AllNonWord(" ")
    ensures Lower("Video") + "_" + Lower("ID") == "video_id"
  {
  }

  lemma ExampleVideoId()
    ensures CleanColumnName("Video ID") == "video_id"
  {
    VideoIdParts();
    CleanTwoWords("", "Video", " ", "ID", "");
  }

  lemma LikeCountParts()
    ensures "" + "Like" + "-" + "Count" + "" == "Like-Count"
    ensures AllSpace("") && AllWord("Like") && AllWord("Count") && AllNonWord("-")
    ensures Lower("Like") + "_" + Lower("Count") == "like_count"
  {
  }

  lemma ExampleLikeCount()
    ensures CleanColumnName("Like-Count") == "like_count"
  {
    LikeCountParts();
    CleanTwoWords("", "Like", "-", "Count", "");
  }

  lemma ViewsParts()
    ensures "  " + "Views" + "!!" + "" + "" == "  Views!!"
    ensures AllSpace("  ") && AllSpace("") && AllWord("Views") && AllWord("")
    ensures AllNonWord("!!") && !IsSpace('!')
    ensures Lower("Views") + "_" + Lower("") == "views_"
  {
  }

  /** Trailing punctuation leaves a trailing underscore. */
  lemma ExampleViews()
    ensures CleanColumnName("  Views!!") == "views_"
  {
    ViewsParts();
    CleanTwoWords("  ", "Views", "!!", "", "");
  }

  /** Existing underscores are word characters and survive. */
  lemma ExampleDoubleUnderscore()
    ensures CleanColumnName("a__b") == "a__b"
  {
    DoubleUnderscoreIsClean();
    CleanColumnNameFixedPoints("a__b");
  }

  lemma DoubleUnderscoreIsClean()
    ensures IsCleanName("a__b")
  {
  }
}
