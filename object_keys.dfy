/**
 * Object keys of the cleaner: which keys it accepts as input, and the
 * `raw/` to `clean/` rewrite that names the object it writes.
 */
module ObjectKeys {

  const RawSegment := "raw/"
  const CleanSegment := "clean/"
  const CsvSuffix := ".csv"

  predicate StartsWith(s: string, p: string) {
    |p| <= |s| && s[..|p|] == p
  }

  /** `s.endswith(p)` */
  predicate EndsWith(s: string, p: string) {
    |p| <= |s| && s[|s| - |p|..] == p
  }

  /** `p in s`: `p` occurs at some position of `s`. */
  predicate Contains(s: string, p: string)
    decreases |s|
  {
    StartsWith(s, p) || (s != [] && Contains(s[1..], p))
  }

  /** `s.replace(pat, rep)`: scanning left to right, every occurrence of
      `pat` that does not overlap an earlier replaced one becomes `rep`.
      A string without `pat` is returned unchanged. */
  function ReplaceAll(s: string, pat: string, rep: string): (r: string)
    requires pat != []
    ensures !Contains(s, pat) ==> r == s
    decreases |s|
  {
    if |s| < |pat| then s
    else if StartsWith(s, pat) then rep + ReplaceAll(s[|pat|..], pat, rep)
    else [s[0]] + ReplaceAll(s[1..], pat, rep)
  }

  /** The segment step of `str.replace`: when no occurrence of `pat` starts
      inside `w`, the first one is the `pat` after it; it becomes `rep`, `w`
      is kept, and the rest is replaced on its own. With the identity on a
      string without `pat` this determines `ReplaceAll` on every string. */
  lemma {:induction false} ReplaceAllSegment(w: string, pat: string, t: string, rep: string)
    requires pat != []
    requires forall i :: 0 <= i < |w| ==> !StartsWith((w + pat + t)[i..], pat)
    ensures ReplaceAll(w + pat + t, pat, rep) == w + rep + ReplaceAll(t, pat, rep)
    decreases |w|
  {
    var s := w + pat + t;
    if w == [] {
      assert s == pat + t;
      assert s[..|pat|] == pat;
      assert s[|pat|..] == t;
    } else {
      assert s[0..] == s;
      assert s[1..] == w[1..] + pat + t;
      forall i | 0 <= i < |w| - 1
        ensures !StartsWith((w[1..] + pat + t)[i..], pat)
      {
        assert (w[1..] + pat + t)[i..] == s[i + 1..];
      }
      ReplaceAllSegment(w[1..], pat, t, rep);
      assert [s[0]] + (w[1..] + rep + ReplaceAll(t, pat, rep)) == w + rep + ReplaceAll(t, pat, rep);
    }
  }

  /** A string that contains `raw/` and ends in `.csv` has room for both:
      no suffix of `raw/` is a prefix of `.csv`, so they cannot overlap. */
  lemma {:induction false} RawAndCsvDisjoint(s: string)
    requires Contains(s, RawSegment) && EndsWith(s, CsvSuffix)
    ensures |s| >= |RawSegment| + |CsvSuffix|
    decreases |s|
  {
    if StartsWith(s, RawSegment) {
      RawCsvDisjoint(s);
    } else if |s| < 5 {
      NoMatchShort(s[1..], RawSegment);
      assert false;
    } else {
      EndsWithDrop(s, 1, CsvSuffix);
      RawAndCsvDisjoint(s[1..]);
    }
  }

  /** The guard of the handler: a key is processed only if it ends in
      `.csv` and contains `raw/` somewhere. */
  function IsInputKey(key: string): (b: bool)
    ensures b ==> |key| >= |RawSegment| + |CsvSuffix|
  {
    if EndsWith(key, CsvSuffix) && Contains(key, RawSegment) then
      RawAndCsvDisjoint(key);
      true
    else
      false
  }

  /** `key.replace("raw/", "clean/")`: the key the cleaned object is written to. */
  function CleanKey(key: string): (r: string)
    ensures !Contains(key, RawSegment) ==> r == key
  {
    ReplaceAll(key, RawSegment, CleanSegment)
  }

  // ---------------------------------------------------------------------
  // Properties of the rewrite

  /** One step of the rewrite, by the shape of the key's head. */
  lemma CleanKeyStep(s: string)
    ensures s == [] ==> CleanKey(s) == []
    ensures StartsWith(s, RawSegment) ==> CleanKey(s) == CleanSegment + CleanKey(s[4..])
    ensures s != [] && !StartsWith(s, RawSegment) ==> CleanKey(s) == [s[0]] + CleanKey(s[1..])
  {
    if s != [] && !StartsWith(s, RawSegment) && |s| < 4 {
      assert CleanKey(s[1..]) == s[1..];
      assert [s[0]] + s[1..] == s;
    }
  }

  /** The rewrite leaves a prefix without `c` unchanged: if the rewritten
      key starts with `k` characters none of which is `c` (the first
      character of `clean/`), the key itself starts with them. */
  lemma {:induction false} CleanKeyHead(s: string, k: nat)
    requires k <= |CleanKey(s)|
    requires forall i :: 0 <= i < k ==> CleanKey(s)[i] != 'c'
    ensures k <= |s| && s[..k] == CleanKey(s)[..k]
    decreases k
  {
    if k > 0 {
      CleanKeyStep(s);
      assert CleanKey(s)[0] != 'c';
      assert s != [] && !StartsWith(s, RawSegment);
      assert forall i :: 0 <= i < k - 1 ==> CleanKey(s[1..])[i] == CleanKey(s)[i + 1];
      CleanKeyHead(s[1..], k - 1);
      assert s[..k] == [s[0]] + s[1..][..k - 1];
      assert CleanKey(s)[..k] == [s[0]] + CleanKey(s[1..])[..k - 1];
    }
  }

  /** A string that starts with a character absent from `p`'s first
      position, and then has no occurrence of `p`, has none at all. */
  lemma {:induction false} NoMatchAfterPrefix(h: string, t: string, p: string)
    requires p != []
    requires forall i :: 0 <= i < |h| ==> h[i] != p[0]
    requires !Contains(t, p)
    ensures !Contains(h + t, p)
    decreases |h|
  {
    if h == [] {
      assert h + t == t;
    } else {
      assert (h + t)[0] == h[0];
      assert (h + t)[1..] == h[1..] + t;
      NoMatchAfterPrefix(h[1..], t, p);
    }
  }

  /** No `raw/` survives the rewrite: a new occurrence cannot be formed,
      because `clean/` holds no `r` and `raw/` cannot overlap itself. */
  lemma {:induction false} CleanKeyHasNoRaw(s: string)
    ensures !Contains(CleanKey(s), RawSegment)
    decreases |s|
  {
    CleanKeyStep(s);
    if |s| < 4 {
      assert CleanKey(s) == s;
      NoMatchShort(s, RawSegment);
    } else if StartsWith(s, RawSegment) {
      CleanKeyHasNoRaw(s[4..]);
      NoMatchAfterPrefix(CleanSegment, CleanKey(s[4..]), RawSegment);
    } else {
      var t := CleanKey(s[1..]);
      CleanKeyHasNoRaw(s[1..]);
      if StartsWith([s[0]] + t, RawSegment) {
        assert forall i :: 0 <= i < 3 ==> t[i] == ([s[0]] + t)[i + 1];
        assert t[..3] == "aw/";
        CleanKeyHead(s[1..], 3);
        assert false;
      }
    }
  }

  lemma {:induction false} NoMatchShort(s: string, p: string)
    requires |s| < |p|
    ensures !Contains(s, p)
    decreases |s|
  {
    if s != [] {
      NoMatchShort(s[1..], p);
    }
  }

  lemma EndsWithDrop(s: string, k: nat, p: string)
    requires EndsWith(s, p) && k + |p| <= |s|
    ensures EndsWith(s[k..], p)
  {
    assert s[k..][|s| - k - |p|..] == s[|s| - |p|..];
  }

  lemma EndsWithPrepend(h: string, t: string, p: string)
    requires EndsWith(t, p)
    ensures EndsWith(h + t, p)
  {
    assert (h + t)[|h + t| - |p|..] == t[|t| - |p|..];
  }

  /** A key that starts with `raw/` and ends with `.csv` has room for both. */
  lemma RawCsvDisjoint(s: string)
    requires StartsWith(s, RawSegment) && EndsWith(s, CsvSuffix)
    ensures |s| >= 8
  {
    assert s[|s| - 4] == '.';
    assert forall i :: 0 <= i < 4 ==> s[i] == RawSegment[i] != '.';
  }

  /** The `.csv` ending survives the rewrite: no `raw/` can overlap it. */
  lemma {:induction false} CleanKeyKeepsCsv(s: string)
    requires EndsWith(s, CsvSuffix)
    ensures EndsWith(CleanKey(s), CsvSuffix)
    decreases |s|
  {
    CleanKeyStep(s);
    if StartsWith(s, RawSegment) {
      RawCsvDisjoint(s);
      EndsWithDrop(s, 4, CsvSuffix);
      CleanKeyKeepsCsv(s[4..]);
      EndsWithPrepend(CleanSegment, CleanKey(s[4..]), CsvSuffix);
    } else if |s| == 4 {
      assert CleanKey(s[1..]) == s[1..];
      assert [s[0]] + s[1..] == s;
    } else {
      EndsWithDrop(s, 1, CsvSuffix);
      CleanKeyKeepsCsv(s[1..]);
      EndsWithPrepend([s[0]], CleanKey(s[1..]), CsvSuffix);
    }
  }

  /** An output key never qualifies as an input key, so the object the
      cleaner writes does not set it off again. */
  lemma CleanKeyIsNotInput(key: string)
    ensures !IsInputKey(CleanKey(key))
  {
    CleanKeyHasNoRaw(key);
  }

  /** For an accepted key, the destination still ends in `.csv` and differs
      from the source key, so the raw object is never overwritten. */
  lemma CleanKeyOfInput(key: string)
    requires IsInputKey(key)
    ensures EndsWith(CleanKey(key), CsvSuffix)
    ensures CleanKey(key) != key
  {
    CleanKeyKeepsCsv(key);
    CleanKeyHasNoRaw(key);
  }

  lemma RawKeyParts()
    ensures "raw/2024/file.csv" == RawSegment + "2024/file.csv"
    ensures EndsWith("raw/2024/file.csv", CsvSuffix)
    ensures forall i :: 0 <= i < |"2024/file.csv"| ==> "2024/file.csv"[i] != 'r'
    ensures CleanSegment + "2024/file.csv" == "clean/2024/file.csv"
  {
  }

  lemma ExampleRawKey()
    ensures IsInputKey("raw/2024/file.csv")
    ensures CleanKey("raw/2024/file.csv") == "clean/2024/file.csv"
  {
    var tail := "2024/file.csv";
    RawKeyParts();
    NoMatchAfterPrefix(tail, [], RawSegment);
    assert tail + [] == tail;
    CleanKeyStep(RawSegment + tail);
    assert (RawSegment + tail)[4..] == tail;
  }

  lemma OtherKeyParts()
    ensures "othe" + ("r" + "/file.csv") == "other/file.csv"
    ensures forall i :: 0 <= i < |"othe"| ==> "othe"[i] != 'r'
    ensures forall i :: 0 <= i < |"/file.csv"| ==> "/file.csv"[i] != 'r'
    ensures !StartsWith("r" + "/file.csv", RawSegment)
  {
    assert ("r" + "/file.csv")[1] == '/' != RawSegment[1];
  }

  /** `raw/` has to occur literally: `other/` does not qualify. */
  lemma ExampleOtherKey()
    ensures !IsInputKey("other/file.csv")
  {
    OtherKeyParts();
    NoMatchAfterPrefix("/file.csv", [], RawSegment);
    assert "/file.csv" + [] == "/file.csv";
    assert ("r" + "/file.csv")[1..] == "/file.csv";
    NoMatchAfterPrefix("othe", "r" + "/file.csv", RawSegment);
  }
}
