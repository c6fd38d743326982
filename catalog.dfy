/**
 * PlaylistModel: the channel catalog loaded from a playlist file, its sorted
 * list of distinct categories, and the displayed list produced by filtering.
 */
module Catalog {
  import opened Wrappers
  import opened QtText
  import opened PlaylistParser

  // ---------------------------------------------------------------------
  // Categories

  /** The categories that occur among `channels`. */
  function CategorySet(channels: seq<Channel>): set<string> {
    set c | c in channels :: c.category
  }

  /** Appending a channel adds exactly its category. */
  lemma CategorySetSnoc(channels: seq<Channel>, c: Channel)
    ensures CategorySet(channels + [c]) == CategorySet(channels) + {c.category}
  {
    assert forall d :: d in channels + [c] <==> d in channels || d == c;
  }

  function Elements(s: seq<string>): set<string> {
    set x | x in s
  }

  /** No element occurs twice. */
  predicate Distinct(s: seq<string>) {
    forall i, j :: 0 <= i < j < |s| ==> s[i] != s[j]
  }

  /** Ascending order, duplicates allowed (what std::sort produces). */
  predicate Sorted(s: seq<string>) {
    forall i, j :: 0 <= i < j < |s| ==> LessEq(s[i], s[j])
  }

  /** Strictly ascending order: sorted without duplicates. */
  predicate StrictlySorted(s: seq<string>) {
    forall i, j :: 0 <= i < j < |s| ==> Less(s[i], s[j])
  }

  /** A value occurring at two positions occurs at least twice in the multiset. */
  lemma DuplicateCount(s: seq<string>, i: nat, j: nat)
    requires i < j < |s| && s[i] == s[j]
    ensures multiset(s)[s[i]] >= 2
  {
    assert s == s[..i] + [s[i]] + s[i + 1..j] + [s[j]] + s[j + 1..];
  }

  /** In a sequence without duplicates, every value occurs at most once. */
  lemma {:induction false} DistinctCount(s: seq<string>, x: string)
    requires Distinct(s)
    ensures multiset(s)[x] <= 1
  {
    if s != [] {
      assert s == [s[0]] + s[1..];
      DistinctCount(s[1..], x);
      if s[0] == x {
        assert x !in s[1..];
      }
    }
  }

  /** Having no duplicates depends only on the multiset of elements. */
  lemma DistinctPermutation(a: seq<string>, b: seq<string>)
    requires Distinct(a) && multiset(a) == multiset(b)
    ensures Distinct(b)
  {
    forall i, j | 0 <= i < j < |b| ensures b[i] != b[j] {
      if b[i] == b[j] {
        DuplicateCount(b, i, j);
        DistinctCount(a, b[i]);
      }
    }
  }

  /**
   * The category list is determined by its set: two strictly ascending lists
   * with the same elements are equal.
   */
  lemma {:induction false} StrictlySortedUnique(a: seq<string>, b: seq<string>)
    requires StrictlySorted(a) && StrictlySorted(b) && Elements(a) == Elements(b)
    ensures a == b
    decreases |a|
  {
    if a != [] {
      assert a[0] in Elements(b);
    }
    if b != [] {
      assert b[0] in Elements(a);
    }
    if a != [] && b != [] {
      if a[0] != b[0] {
        var i :| 0 <= i < |b| && b[i] == a[0];
        var j :| 0 <= j < |a| && a[j] == b[0];
        assert Less(b[0], a[0]) && Less(a[0], b[0]);
        LessAsymmetric(a[0], b[0]);
      }
      forall x | x in Elements(a[1..]) ensures x in Elements(b[1..]) {
        var k :| 1 <= k < |a| && a[k] == x;
        assert x in Elements(b);
        if x == b[0] {
          LessIrreflexive(a[0]);
        }
      }
      forall x | x in Elements(b[1..]) ensures x in Elements(a[1..]) {
        var k :| 1 <= k < |b| && b[k] == x;
        assert x in Elements(a);
        if x == a[0] {
          LessIrreflexive(b[0]);
        }
      }
      StrictlySortedUnique(a[1..], b[1..]);
      assert a == [a[0]] + a[1..] && b == [b[0]] + b[1..];
    }
  }

  /** QSet::values: the elements of `s`, each once, in some order. */
  method Values(s: set<string>) returns (r: seq<string>)
    ensures Elements(r) == s
    ensures Distinct(r)
  {
    r := [];
    var rest := s;
    while rest != {}
      invariant Elements(r) + rest == s
      invariant Elements(r) !! rest
      invariant Distinct(r)
      decreases rest
    {
      var x :| x in rest;
      r := r + [x];
      rest := rest - {x};
    }
  }

  /** `s` with `x` inserted before the first element not below it. */
  method InsertSorted(s: seq<string>, x: string) returns (r: seq<string>)
    requires Sorted(s)
    ensures Sorted(r)
    ensures multiset(r) == multiset(s) + multiset{x}
  {
    var k := 0;
    while k < |s| && Less(s[k], x)
      invariant 0 <= k <= |s|
      invariant forall i :: 0 <= i < k ==> Less(s[i], x)
    {
      k := k + 1;
    }
    forall j | k <= j < |s| ensures LessEq(x, s[j]) {
      NotLess(s[k], x);
      LessEqTransitive(x, s[k], s[j]);
    }
    r := s[..k] + [x] + s[k..];
    forall i, j | 0 <= i < j < |r| ensures LessEq(r[i], r[j]) {
      if j < k || i > k {
      } else if i == k {
      } else if j == k {
      } else {
        assert r[i] == s[i] && r[j] == s[j - 1];
      }
    }
    assert s == s[..k] + s[k..];
  }

  /** std::sort: the same elements in ascending order (insertion sort). */
  method Sort(xs: seq<string>) returns (r: seq<string>)
    ensures Sorted(r)
    ensures multiset(r) == multiset(xs)
  {
    r := [];
    var i := 0;
    while i < |xs|
      invariant 0 <= i <= |xs|
      invariant Sorted(r)
      invariant multiset(r) == multiset(xs[..i])
    {
      r := InsertSorted(r, xs[i]);
      assert xs[..i + 1] == xs[..i] + [xs[i]];
      i := i + 1;
    }
    assert xs[..|xs|] == xs;
  }

  /** A sorted list without duplicates is strictly ascending. */
  lemma SortedDistinct(s: seq<string>)
    requires Sorted(s) && Distinct(s)
    ensures StrictlySorted(s)
  {
  }

  // ---------------------------------------------------------------------
  // The view filter

  /** The inclusion test of filterChannels. */
  predicate Matches(c: Channel, category: string, query: string, fold: char -> char) {
    c.category == category && (query == "" || ContainsIgnoringCase(c.name, query, fold))
  }

  /** The channels kept by filterChannels, in catalog order. */
  function Filter(channels: seq<Channel>, category: string, query: string, fold: char -> char): seq<Channel>
    decreases |channels|
  {
    if channels == [] then []
    else
      var last := channels[|channels| - 1];
      Filter(channels[..|channels| - 1], category, query, fold) + (if Matches(last, category, query, fold) then [last] else [])
  }

  /** `a` is obtained from `b` by deleting elements, without reordering. */
  predicate IsSubsequence(a: seq<Channel>, b: seq<Channel>)
    decreases |b|
  {
    a == [] ||
    (b != [] &&
     ((a[|a| - 1] == b[|b| - 1] && IsSubsequence(a[..|a| - 1], b[..|b| - 1])) ||
      IsSubsequence(a, b[..|b| - 1])))
  }

  /** The displayed list is an order-preserving subsequence of the catalog. */
  lemma {:induction false} FilterIsSubsequence(channels: seq<Channel>, category: string, query: string, fold: char -> char)
    ensures IsSubsequence(Filter(channels, category, query, fold), channels)
    decreases |channels|
  {
    if channels != [] {
      var init, last := channels[..|channels| - 1], channels[|channels| - 1];
      FilterIsSubsequence(init, category, query, fold);
      var f := Filter(init, category, query, fold);
      if Matches(last, category, query, fold) {
        var a := f + [last];
        assert Filter(channels, category, query, fold) == a;
        assert a[|a| - 1] == last && a[..|a| - 1] == f;
        assert IsSubsequence(a, channels);
      } else {
        assert Filter(channels, category, query, fold) == f;
      }
    }
  }

  /**
   * Each channel occurs in the displayed list exactly as often as in the
   * catalog when it matches, and not at all otherwise.
   */
  lemma {:induction false} FilterCount(channels: seq<Channel>, category: string, query: string, fold: char -> char, c: Channel)
    ensures multiset(Filter(channels, category, query, fold))[c] ==
            if Matches(c, category, query, fold) then multiset(channels)[c] else 0
    decreases |channels|
  {
    if channels != [] {
      var init := channels[..|channels| - 1];
      FilterCount(init, category, query, fold, c);
      assert channels == init + [channels[|channels| - 1]];
    }
  }

  /** A channel is displayed exactly when it is in the catalog and matches. */
  lemma FilterMembership(channels: seq<Channel>, category: string, query: string, fold: char -> char, c: Channel)
    ensures c in Filter(channels, category, query, fold) <==> c in channels && Matches(c, category, query, fold)
  {
    FilterCount(channels, category, query, fold, c);
  }

  /** With an empty query the filter keeps exactly the channels of the category. */
  lemma EmptyQueryKeepsCategory(channels: seq<Channel>, category: string, fold: char -> char, c: Channel)
    ensures multiset(Filter(channels, category, "", fold))[c] ==
            if c.category == category then multiset(channels)[c] else 0
  {
    FilterCount(channels, category, "", fold, c);
  }

  /** Filtering the displayed list again with the same arguments changes nothing. */
  lemma {:induction false} FilterIdempotent(channels: seq<Channel>, category: string, query: string, fold: char -> char)
    ensures Filter(Filter(channels, category, query, fold), category, query, fold) == Filter(channels, category, query, fold)
    decreases |channels|
  {
    if channels != [] {
      var init := channels[..|channels| - 1];
      var last := channels[|channels| - 1];
      FilterIdempotent(init, category, query, fold);
      var f := Filter(init, category, query, fold);
      if Matches(last, category, query, fold) {
        var a := f + [last];
        assert a[|a| - 1] == last && a[..|a| - 1] == f;
        assert Filter(a, category, query, fold) == Filter(f, category, query, fold) + [last];
      } else {
        assert Filter(channels, category, query, fold) == f;
      }
    }
  }

  /** A category that no channel has, the empty one included, displays nothing. */
  lemma {:induction false} UnknownCategoryShowsNothing(channels: seq<Channel>, category: string, query: string, fold: char -> char)
    requires category !in CategorySet(channels)
    ensures Filter(channels, category, query, fold) == []
    decreases |channels|
  {
    if channels != [] {
      var init := channels[..|channels| - 1];
      assert CategorySet(init) <= CategorySet(channels);
      UnknownCategoryShowsNothing(init, category, query, fold);
      assert channels[|channels| - 1] in channels;
    }
  }

  // ---------------------------------------------------------------------
  // The model object

  class PlaylistModel {
    var allChannels: seq<Channel>
    var displayedChannels: seq<Channel>
    var categories: seq<string>

    /**
     * The model's invariant: the catalog holds only well-formed channels,
     * the category list is the strictly ascending listing of the catalog's
     * categories, and the displayed list is a subsequence of the catalog.
     */
    ghost predicate Valid()
      reads this
    {
      && (forall c :: c in allChannels ==> WellFormed(c))
      && StrictlySorted(categories)
      && Elements(categories) == CategorySet(allChannels)
      && IsSubsequence(displayedChannels, allChannels)
    }

    constructor ()
      ensures Valid()
      ensures allChannels == [] && displayedChannels == [] && categories == []
    {
      allChannels, displayedChannels, categories := [], [], [];
    }

    /** The `categories` property: the catalog's categories, ascending, each once. */
    function Categories(): (r: seq<string>)
      reads this
      requires Valid()
      ensures StrictlySorted(r)
      ensures forall x :: x in r <==> x in CategorySet(allChannels)
    {
      assert forall x :: x in categories <==> x in Elements(categories);
      categories
    }

    /**
     * loadPlaylist. `file` is None when the file cannot be opened, else its
     * lines. All three lists are cleared first; on success the catalog is
     * the parse of the lines and the category list their sorted distinct
     * categories; the displayed list stays empty.
     */
    method LoadPlaylist(file: Option<seq<string>>)
      modifies this
      ensures Valid()
      ensures displayedChannels == []
      ensures file.None? ==> allChannels == [] && categories == []
      ensures file.Some? ==> allChannels == Parse(file.value)
      ensures StrictlySorted(categories) && Elements(categories) == CategorySet(allChannels)
    {
      allChannels := [];
      displayedChannels := [];
      categories := [];
      if file.None? {
        return;
      }
      var lines := file.value;
      var currentName := "";
      var currentCategory := DefaultCategory;
      var uniqueCategories: set<string> := {};
      var i := 0;
      while i < |lines|
        invariant 0 <= i <= |lines|
        invariant Run(Start, lines[..i]) == ParserState(currentName, currentCategory, allChannels)
        invariant uniqueCategories == CategorySet(allChannels)
        invariant displayedChannels == [] && categories == []
      {
        assert lines[..i + 1][..i] == lines[..i];
        currentName, currentCategory, uniqueCategories :=
          ReadLine(lines[i], currentName, currentCategory, uniqueCategories);
        i := i + 1;
      }
      assert lines[..|lines|] == lines;
      var values := Values(uniqueCategories);
      categories := Sort(values);
      DistinctPermutation(values, categories);
      SortedDistinct(categories);
      assert Elements(categories) == Elements(values) by {
        forall x ensures x in categories <==> x in values {
          assert x in categories <==> x in multiset(categories);
        }
      }
      ParseWellFormed(lines);
    }

    /** The `#EXTINF` branch of the loop: the category is reset and searched for, then the name taken after the last comma. */
    static method ReadExtinf(line: string) returns (name: string, category: string)
      ensures category == GroupTitle(line).GetOr(DefaultCategory)
      ensures name == ExtractName(line)
    {
      category := DefaultCategory;
      var groupTitleIndex := IndexOf(line, GroupTitleKey, 0);
      if groupTitleIndex.Some? {
        var endQuote := IndexOf(line, "\"", groupTitleIndex.value + 13);
        if endQuote.Some? {
          category := line[groupTitleIndex.value + 13..endQuote.value];
        }
      }
      var commaIndex := LastIndexOf(line, ',');
      if commaIndex.Some? {
        name := Trim(line[commaIndex.value + 1..]);
      } else {
        name := UnknownName;
      }
    }

    /** One iteration of the loop of loadPlaylist: the line is trimmed and dispatched on its kind. */
    method ReadLine(raw: string, currentName: string, currentCategory: string, uniqueCategories: set<string>)
      returns (name: string, category: string, unique: set<string>)
      requires uniqueCategories == CategorySet(allChannels)
      modifies this`allChannels
      ensures ParserState(name, category, allChannels) ==
              Step(ParserState(currentName, currentCategory, old(allChannels)), raw)
      ensures unique == CategorySet(allChannels)
    {
      ghost var before := ParserState(currentName, currentCategory, allChannels);
      name, category, unique := currentName, currentCategory, uniqueCategories;
      var line := Trim(raw);
      if line == "" {
        StepOnIgnored(before, raw);
      } else if ExtinfTag <= line {
        name, category := ReadExtinf(line);
        StepOnExtinf(before, raw);
      } else if ExtgrpTag <= line {
        category := Trim(line[8..]);
        StepOnExtgrp(before, raw);
      } else if !("#" <= line) {
        StepOnLocation(before, raw);
        if name != "" {
          CategorySetSnoc(allChannels, Channel(name, line, category));
          allChannels := allChannels + [Channel(name, line, category)];
          unique := unique + {category};
          name := "";
        }
      } else {
        StepOnIgnored(before, raw);
      }
    }

    /**
     * filterChannels: the displayed list becomes the channels of the catalog
     * that match the category and the query, in catalog order; nothing else
     * changes.
     */
    method FilterChannels(category: string, searchQuery: string, fold: char -> char)
      requires Valid()
      modifies this`displayedChannels
      ensures Valid()
      ensures displayedChannels == Filter(allChannels, category, searchQuery, fold)
      ensures allChannels == old(allChannels) && categories == old(categories)
    {
      displayedChannels := [];
      for i := 0 to |allChannels|
        invariant displayedChannels == Filter(allChannels[..i], category, searchQuery, fold)
      {
        var channel := allChannels[i];
        assert allChannels[..i + 1][..i] == allChannels[..i];
        if channel.category == category {
          if searchQuery == "" || ContainsIgnoringCase(channel.name, searchQuery, fold) {
            displayedChannels := displayedChannels + [channel];
          }
        }
      }
      assert allChannels[..|allChannels|] == allChannels;
      FilterIsSubsequence(allChannels, category, searchQuery, fold);
    }
  }
}
