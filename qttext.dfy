/**
 * The parts of Qt's QString behaviour that the playlist code relies on:
 * whitespace trimming, forward and backward search, the case-insensitive
 * `contains` and the `operator<` used to sort category names.
 */
module QtText {
  import opened Wrappers

  /** Characters that QChar::isSpace classifies as white space. */
  predicate IsSpace(c: char) {
    ('\t' <= c <= '\r') || c == ' ' || c == '\U{85}' || c == '\U{A0}' || c == '\U{1680}'
    || ('\U{2000}' <= c <= '\U{200A}') || c == '\U{2028}' || c == '\U{2029}'
    || c == '\U{202F}' || c == '\U{205F}' || c == '\U{3000}'
  }

  /** The first index at or after `i` that does not hold white space, or `|s|`. */
  function SkipSpaces(s: string, i: nat): (r: nat)
    requires i <= |s|
    ensures i <= r <= |s|
    ensures forall k :: i <= k < r ==> IsSpace(s[k])
    ensures r == |s| || !IsSpace(s[r])
    decreases |s| - i
  {
    if i < |s| && IsSpace(s[i]) then SkipSpaces(s, i + 1) else i
  }

  /** The least `r` in `lo..j` such that `s[r..j]` is all white space. */
  function SkipSpacesBack(s: string, lo: nat, j: nat): (r: nat)
    requires lo <= j <= |s|
    ensures lo <= r <= j
    ensures forall k :: r <= k < j ==> IsSpace(s[k])
    ensures r == lo || !IsSpace(s[r - 1])
    decreases j
  {
    if lo < j && IsSpace(s[j - 1]) then SkipSpacesBack(s, lo, j - 1) else j
  }

  /** QString::trimmed: `s` without the white space at either end. */
  function Trim(s: string): (r: string)
    ensures |r| <= |s|
    ensures r == [] || (!IsSpace(r[0]) && !IsSpace(r[|r| - 1]))
  {
    var i := SkipSpaces(s, 0);
    s[i..SkipSpacesBack(s, i, |s|)]
  }

  /** `Trim(s)` is the slice of `s` between a white-space prefix and a white-space suffix. */
  lemma TrimIsSlice(s: string)
    ensures exists i, j :: 0 <= i <= j <= |s| && Trim(s) == s[i..j]
                           && (forall k :: 0 <= k < i ==> IsSpace(s[k]))
                           && (forall k :: j <= k < |s| ==> IsSpace(s[k]))
  {
    var i := SkipSpaces(s, 0);
    var j := SkipSpacesBack(s, i, |s|);
    assert Trim(s) == s[i..j];
  }

  /** Trimming a trimmed string changes nothing. */
  lemma TrimIdempotent(s: string)
    ensures Trim(Trim(s)) == Trim(s)
  {
    var r := Trim(s);
    assert SkipSpaces(r, 0) == 0;
    assert SkipSpacesBack(r, 0, |r|) == |r|;
    assert r[0..|r|] == r;
  }

  /** A line trims to the empty string exactly when all of it is white space. */
  lemma TrimBlank(s: string)
    ensures Trim(s) == [] <==> forall k :: 0 <= k < |s| ==> IsSpace(s[k])
  {
    var i := SkipSpaces(s, 0);
    var j := SkipSpacesBack(s, i, |s|);
    if Trim(s) == [] {
      assert i == j;
    } else {
      assert s[i] == Trim(s)[0];
    }
  }

  /** Every character of `Trim(s)` is a character of `s`. */
  lemma TrimKeepsCharacters(s: string, c: char)
    requires c in Trim(s)
    ensures c in s
  {
    var i := SkipSpaces(s, 0);
    var j := SkipSpacesBack(s, i, |s|);
    var r := Trim(s);
    var k :| 0 <= k < |r| && r[k] == c;
    assert s[i + k] == c;
  }

  /** `p` occurs in `s` starting at index `k`. */
  predicate OccursAt(s: string, p: string, k: int) {
    0 <= k && k + |p| <= |s| && s[k..k + |p|] == p
  }

  /**
   * QString::indexOf(p, from): the first index at or after `from` where `p`
   * occurs, or None (QString::indexOf's -1) when there is none.
   */
  function IndexOf(s: string, p: string, from: nat): (r: Option<nat>)
    ensures r.Some? ==> from <= r.value && OccursAt(s, p, r.value)
    ensures r.Some? ==> forall k :: from <= k < r.value ==> !OccursAt(s, p, k)
    ensures r.None? ==> forall k :: from <= k ==> !OccursAt(s, p, k)
    decreases |s| - from
  {
    if from + |p| > |s| then None
    else if OccursAt(s, p, from) then Some(from)
    else IndexOf(s, p, from + 1)
  }

  /** QString::lastIndexOf(c): the last index holding `c`, or None when `c` is absent. */
  function LastIndexOf(s: string, c: char): (r: Option<nat>)
    ensures r.Some? ==> r.value < |s| && s[r.value] == c
    ensures r.Some? ==> forall k :: r.value < k < |s| ==> s[k] != c
    ensures r.None? ==> forall k :: 0 <= k < |s| ==> s[k] != c
  {
    LastIndexBelow(s, c, |s|)
  }

  /** The last index below `n` holding `c`, searching downwards from `n - 1`. */
  function LastIndexBelow(s: string, c: char, n: nat): (r: Option<nat>)
    requires n <= |s|
    ensures r.Some? ==> r.value < n && s[r.value] == c
    ensures r.Some? ==> forall k :: r.value < k < n ==> s[k] != c
    ensures r.None? ==> forall k :: 0 <= k < n ==> s[k] != c
  {
    if n == 0 then None
    else if s[n - 1] == c then Some(n - 1)
    else LastIndexBelow(s, c, n - 1)
  }

  /**
   * `s` with `fold` applied to each character. `fold` stands for the
   * one-to-one case folding QChar applies in a case-insensitive comparison;
   * it is a parameter, not part of this model.
   */
  function Fold(s: string, fold: char -> char): string {
    seq(|s|, k requires 0 <= k < |s| => fold(s[k]))
  }

  /** QString::contains(q, Qt::CaseInsensitive), with `fold` as the case folding. */
  predicate ContainsIgnoringCase(text: string, q: string, fold: char -> char) {
    IndexOf(Fold(text, fold), Fold(q, fold), 0).Some?
  }

  /** The slice of `text` at `k` as long as `q` equals `q` once both are case-folded. */
  predicate MatchesAt(text: string, q: string, k: int, fold: char -> char) {
    0 <= k <= |text| - |q| && Fold(text[k..k + |q|], fold) == Fold(q, fold)
  }

  /** `q` is found in `text` ignoring case exactly when some slice of `text` matches it. */
  lemma ContainsIgnoringCaseMeans(text: string, q: string, fold: char -> char)
    ensures ContainsIgnoringCase(text, q, fold) <==> exists k :: MatchesAt(text, q, k, fold)
  {
    var ft, fq := Fold(text, fold), Fold(q, fold);
    forall k | 0 <= k <= |text| - |q|
      ensures OccursAt(ft, fq, k) <==> MatchesAt(text, q, k, fold)
    {
      assert Fold(text[k..k + |q|], fold) == ft[k..k + |q|];
    }
    if ContainsIgnoringCase(text, q, fold) {
      var k := IndexOf(ft, fq, 0).value;
      assert OccursAt(ft, fq, k);
      assert MatchesAt(text, q, k, fold);
    }
  }

  /** Every piece of a text, the empty one included, is found in it, whatever the folding. */
  lemma SliceIsFound(text: string, i: nat, j: nat, fold: char -> char)
    requires i <= j <= |text|
    ensures ContainsIgnoringCase(text, text[i..j], fold)
  {
    ContainsIgnoringCaseMeans(text, text[i..j], fold);
    assert MatchesAt(text, text[i..j], i, fold);
  }

  /** QString's operator<: ordinal comparison, a proper prefix before its extensions. */
  predicate Less(a: string, b: string) {
    if |a| == 0 then |b| > 0
    else if |b| == 0 then false
    else if a[0] != b[0] then a[0] < b[0]
    else Less(a[1..], b[1..])
  }

  predicate LessEq(a: string, b: string) {
    a == b || Less(a, b)
  }

  lemma {:induction false} LessIrreflexive(a: string)
    ensures !Less(a, a)
  {
    if |a| > 0 {
      LessIrreflexive(a[1..]);
    }
  }

  lemma {:induction false} LessTransitive(a: string, b: string, c: string)
    requires Less(a, b) && Less(b, c)
    ensures Less(a, c)
  {
    if |a| > 0 && a[0] == b[0] && b[0] == c[0] {
      LessTransitive(a[1..], b[1..], c[1..]);
    }
  }

  lemma {:induction false} LessTotal(a: string, b: string)
    ensures Less(a, b) || a == b || Less(b, a)
  {
    if |a| > 0 && |b| > 0 && a[0] == b[0] {
      LessTotal(a[1..], b[1..]);
      if a[1..] == b[1..] {
        assert a == [a[0]] + a[1..] && b == [b[0]] + b[1..];
      }
    }
  }

  /** Not-less is the reverse of less-or-equal: the order is total. */
  lemma NotLess(a: string, b: string)
    requires !Less(a, b)
    ensures LessEq(b, a)
  {
    LessTotal(a, b);
  }

  lemma LessEqTransitive(a: string, b: string, c: string)
    requires LessEq(a, b) && LessEq(b, c)
    ensures LessEq(a, c)
  {
    if a != b && b != c {
      LessTransitive(a, b, c);
    }
  }

  /** Less is asymmetric. */
  lemma LessAsymmetric(a: string, b: string)
    requires Less(a, b)
    ensures !Less(b, a)
  {
    if Less(b, a) {
      LessTransitive(a, b, a);
      LessIrreflexive(a);
    }
  }
}
