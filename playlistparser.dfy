/**
 * The line-by-line state machine of PlaylistModel::loadPlaylist, as a pure
 * specification: one step per input line over the pending name, the pending
 * category and the channels emitted so far.
 */
module PlaylistParser {
  import opened Wrappers
  import opened QtText

  /** One playable entry of the catalog. */
  datatype Channel = Channel(name: string, location: string, category: string)

  const DefaultCategory: string := "Boshqa (Others)"
  const UnknownName: string := "Unknown Channel"
  const ExtinfTag: string := "#EXTINF"
  const ExtgrpTag: string := "#EXTGRP:"
  const GroupTitleKey: string := "group-title=\""

  /** The parser's variables between two lines: currentName, currentCategory and the channels appended so far. */
  datatype ParserState = ParserState(name: string, category: string, channels: seq<Channel>)

  /** The state before the first line: no pending name, the default category, no channels. */
  const Start: ParserState := ParserState("", DefaultCategory, [])

  /** How loadPlaylist treats a trimmed line, tested in loadPlaylist's order. */
  datatype LineKind = Blank | Extinf | Extgrp | Location | Comment

  function Classify(line: string): LineKind {
    if line == "" then Blank
    else if ExtinfTag <= line then Extinf
    else if ExtgrpTag <= line then Extgrp
    else if !("#" <= line) then Location
    else Comment
  }

  /**
   * The text between the first `group-title="` of the line and the next
   * double quote, or None when either is missing.
   */
  function GroupTitle(line: string): (r: Option<string>)
  {
    match IndexOf(line, GroupTitleKey, 0)
    case None => None
    case Some(g) =>
      match IndexOf(line, "\"", g + |GroupTitleKey|)
      case None => None
      case Some(e) => Some(line[g + |GroupTitleKey|..e])
  }

  /** The channel name of an `#EXTINF` line: the trimmed text after its last comma, else the placeholder. */
  function ExtractName(line: string): string {
    match LastIndexOf(line, ',')
    case Some(i) => Trim(line[i + 1..])
    case None => UnknownName
  }

  /** The effect of one raw input line on the parser state. */
  function Step(st: ParserState, raw: string): ParserState {
    var line := Trim(raw);
    match Classify(line)
    case Blank => st
    case Extinf => st.(name := ExtractName(line), category := GroupTitle(line).GetOr(DefaultCategory))
    case Extgrp => st.(category := Trim(line[|ExtgrpTag|..]))
    case Location =>
      if st.name != "" then
        st.(channels := st.channels + [Channel(st.name, line, st.category)], name := "")
      else st
    case Comment => st
  }

  /** The state after feeding `lines`, in order, to the parser started in `st`. */
  function Run(st: ParserState, lines: seq<string>): ParserState
    decreases |lines|
  {
    if lines == [] then st
    else Step(Run(st, lines[..|lines| - 1]), lines[|lines| - 1])
  }

  /** The channels that loadPlaylist appends for a file with these lines. */
  function Parse(lines: seq<string>): seq<Channel> {
    Run(Start, lines).channels
  }

  /**
   * Category resolution for one entry in one expression: the
   * last `#EXTGRP:` override if any, else the `group-title` attribute of the
   * `#EXTINF` line if any, else the default.
   */
  function ResolveCategory(extinf: string, groupOverride: Option<string>): string {
    groupOverride.GetOr(GroupTitle(extinf).GetOr(DefaultCategory))
  }

  /** The trimmed remainder of the last `#EXTGRP:` line among `lines`, if there is one. */
  function LastGroupOverride(lines: seq<string>): Option<string>
    decreases |lines|
  {
    if lines == [] then None
    else
      var line := Trim(lines[|lines| - 1]);
      if Classify(line) == Extgrp then Some(Trim(line[|ExtgrpTag|..]))
      else LastGroupOverride(lines[..|lines| - 1])
  }

  /** A line that neither starts a new entry nor ends the pending one. */
  predicate IsBetweenLine(raw: string) {
    var k := Classify(Trim(raw));
    k == Blank || k == Extgrp || k == Comment
  }

  /** What every emitted channel looks like. */
  predicate WellFormed(c: Channel) {
    && c.name != ""
    && ',' !in c.name
    && c.location != ""
    && !("#" <= c.location)
    && Trim(c.location) == c.location
  }

  /** What holds of the parser state between lines. */
  predicate Consistent(st: ParserState) {
    && ',' !in st.name
    && forall c :: c in st.channels ==> WellFormed(c)
  }

  // ---------------------------------------------------------------------
  // Properties of the pieces of one line

  /** A group-title value never contains a double quote: it stops at the first one. */
  lemma GroupTitleHasNoQuote(line: string)
    requires GroupTitle(line).Some?
    ensures '"' !in GroupTitle(line).value
  {
    var g := IndexOf(line, GroupTitleKey, 0).value;
    var from := g + |GroupTitleKey|;
    var e := IndexOf(line, "\"", from).value;
    var v := line[from..e];
    forall k | 0 <= k < |v| ensures v[k] != '"' {
      assert !OccursAt(line, "\"", from + k);
      assert line[from + k..from + k + 1] == [line[from + k]];
    }
  }

  /** GroupTitle is None exactly when the key is missing or has no closing quote after it. */
  lemma GroupTitleMissing(line: string)
    ensures GroupTitle(line).None? <==>
            (forall k :: !OccursAt(line, GroupTitleKey, k)) ||
            (exists g :: OccursAt(line, GroupTitleKey, g) &&
                         (forall k :: g <= k < g + |GroupTitleKey| || k < g || !OccursAt(line, "\"", k)) &&
                         (forall h :: 0 <= h < g ==> !OccursAt(line, GroupTitleKey, h)))
  {
    match IndexOf(line, GroupTitleKey, 0)
    case None =>
    case Some(g) =>
      if GroupTitle(line).None? {
        assert forall k :: g <= k < g + |GroupTitleKey| || k < g || !OccursAt(line, "\"", k);
      } else {
        var e := IndexOf(line, "\"", g + |GroupTitleKey|).value;
        assert OccursAt(line, GroupTitleKey, g);
        forall g' | OccursAt(line, GroupTitleKey, g') &&
                    (forall h :: 0 <= h < g' ==> !OccursAt(line, GroupTitleKey, h))
          ensures !(forall k :: g' <= k < g' + |GroupTitleKey| || k < g' || !OccursAt(line, "\"", k))
        {
          assert g' == g;
          assert OccursAt(line, "\"", e);
        }
      }
  }

  /** A channel name never contains a comma: it is taken after the last one. */
  lemma ExtractNameHasNoComma(line: string)
    ensures ',' !in ExtractName(line)
  {
    var last := LastIndexOf(line, ',');
    if last.Some? {
      var rest := line[last.value + 1..];
      NoneAfterLast(line, ',', last.value);
      if ',' in Trim(rest) {
        TrimKeepsCharacters(rest, ',');
      }
    }
  }

  /** Nothing after the last occurrence of `c` is `c`. */
  lemma NoneAfterLast(s: string, c: char, i: nat)
    requires LastIndexOf(s, c) == Some(i)
    ensures c !in s[i + 1..]
  {
    var rest := s[i + 1..];
    forall k | 0 <= k < |rest| ensures rest[k] != c {
      assert rest[k] == s[i + 1 + k];
    }
  }

  // ---------------------------------------------------------------------
  // Properties of whole runs

  /** Feeding `a` and then `b` is feeding `a + b`. */
  lemma {:induction false} RunAppend(st: ParserState, a: seq<string>, b: seq<string>)
    ensures Run(st, a + b) == Run(Run(st, a), b)
    decreases |b|
  {
    if b == [] {
      assert a + b == a;
    } else {
      var b' := b[..|b| - 1];
      assert (a + b)[..|a + b| - 1] == a + b';
      RunAppend(st, a, b');
    }
  }

  /** Feeding one more line is one more step. */
  lemma RunSnoc(st: ParserState, lines: seq<string>, raw: string)
    ensures Run(st, lines + [raw]) == Step(Run(st, lines), raw)
  {
    assert (lines + [raw])[..|lines|] == lines;
  }

  /**
   * Channels are only ever appended, at most one per line: the channels
   * emitted for earlier lines stay in front of those for later lines.
   */
  lemma {:induction false} ChannelsOnlyGrow(st: ParserState, lines: seq<string>)
    ensures st.channels <= Run(st, lines).channels
    ensures |Run(st, lines).channels| <= |st.channels| + |lines|
    decreases |lines|
  {
    if lines != [] {
      ChannelsOnlyGrow(st, lines[..|lines| - 1]);
      StepChannels(Run(st, lines[..|lines| - 1]), lines[|lines| - 1]);
    }
  }

  /** The channels of a file's first lines are a prefix of the channels of the whole file. */
  lemma ParsePrefix(a: seq<string>, b: seq<string>)
    ensures Parse(a) <= Parse(a + b)
  {
    RunAppend(Start, a, b);
    ChannelsOnlyGrow(Run(Start, a), b);
  }

  // The effect of one line, kind by kind.

  lemma StepOnExtinf(st: ParserState, raw: string)
    requires Classify(Trim(raw)) == Extinf
    ensures Step(st, raw) == st.(name := ExtractName(Trim(raw)),
                                 category := GroupTitle(Trim(raw)).GetOr(DefaultCategory))
  {
  }

  lemma StepOnExtgrp(st: ParserState, raw: string)
    requires Classify(Trim(raw)) == Extgrp
    ensures Step(st, raw) == st.(category := Trim(Trim(raw)[|ExtgrpTag|..]))
  {
  }

  lemma StepOnLocation(st: ParserState, raw: string)
    requires Classify(Trim(raw)) == Location
    ensures Step(st, raw) == if st.name != "" then
                               st.(channels := st.channels + [Channel(st.name, Trim(raw), st.category)], name := "")
                             else st
  {
  }

  lemma StepOnIgnored(st: ParserState, raw: string)
    requires Classify(Trim(raw)) == Blank || Classify(Trim(raw)) == Comment
    ensures Step(st, raw) == st
  {
  }

  /** A line appends a channel only when it is a location line and a name is pending. */
  lemma StepChannels(st: ParserState, raw: string)
    ensures Step(st, raw).channels ==
            st.channels + if Classify(Trim(raw)) == Location && st.name != "" then [Channel(st.name, Trim(raw), st.category)] else []
  {
    var kind := Classify(Trim(raw));
    if kind == Extinf {
      StepOnExtinf(st, raw);
    } else if kind == Extgrp {
      StepOnExtgrp(st, raw);
    } else if kind == Location {
      StepOnLocation(st, raw);
    } else {
      StepOnIgnored(st, raw);
    }
  }

  /** One line keeps the state consistent. */
  /** Emitting the pending entry for a well-formed location line keeps the state consistent. */
  lemma EmitConsistent(st: ParserState, line: string)
    requires Consistent(st) && st.name != ""
    requires line != "" && !("#" <= line) && Trim(line) == line
    ensures Consistent(st.(channels := st.channels + [Channel(st.name, line, st.category)], name := ""))
  {
    var added := Channel(st.name, line, st.category);
    assert forall c :: c in st.channels + [added] ==> c in st.channels || c == added;
  }

  lemma StepConsistent(st: ParserState, raw: string)
    requires Consistent(st)
    ensures Consistent(Step(st, raw))
  {
    var kind := Classify(Trim(raw));
    if kind == Extinf {
      StepOnExtinf(st, raw);
      ExtractNameHasNoComma(Trim(raw));
    } else if kind == Extgrp {
      StepOnExtgrp(st, raw);
    } else if kind == Location {
      StepOnLocation(st, raw);
      if st.name != "" {
        TrimIdempotent(raw);
        EmitConsistent(st, Trim(raw));
      }
    } else {
      StepOnIgnored(st, raw);
    }
  }

  lemma {:induction false} RunConsistent(st: ParserState, lines: seq<string>)
    requires Consistent(st)
    ensures Consistent(Run(st, lines))
    decreases |lines|
  {
    if lines != [] {
      RunConsistent(st, lines[..|lines| - 1]);
      StepConsistent(Run(st, lines[..|lines| - 1]), lines[|lines| - 1]);
    }
  }

  /**
   * Every channel parsed from a file has a non-empty name without a comma and
   * a location that is a trimmed, non-empty line not starting with `#`.
   */
  lemma ParseWellFormed(lines: seq<string>)
    ensures forall c :: c in Parse(lines) ==> WellFormed(c)
  {
    RunConsistent(Start, lines);
  }

  /**
   * Without an `#EXTINF` line nothing is emitted: with no pending name every
   * location line is dropped and the name stays empty.
   */
  lemma {:induction false} NoExtinfNoChannels(st: ParserState, lines: seq<string>)
    requires st.name == ""
    requires forall k :: 0 <= k < |lines| ==> Classify(Trim(lines[k])) != Extinf
    ensures Run(st, lines).channels == st.channels
    ensures Run(st, lines).name == ""
    decreases |lines|
  {
    if lines != [] {
      NoExtinfNoChannels(st, lines[..|lines| - 1]);
    }
  }

  /** A file whose lines contain no `#EXTINF` line yields no channels at all. */
  lemma NoExtinfEmptyCatalog(lines: seq<string>)
    requires forall k :: 0 <= k < |lines| ==> Classify(Trim(lines[k])) != Extinf
    ensures Parse(lines) == []
  {
    NoExtinfNoChannels(Start, lines);
  }

  /** Lines that neither start nor end an entry change only the pending category, to the last override among them. */
  lemma {:induction false} BetweenLines(st: ParserState, between: seq<string>)
    requires forall k :: 0 <= k < |between| ==> IsBetweenLine(between[k])
    ensures Run(st, between) == st.(category := LastGroupOverride(between).GetOr(st.category))
    decreases |between|
  {
    if between != [] {
      var b', last := between[..|between| - 1], between[|between| - 1];
      BetweenLines(st, b');
      if Classify(Trim(last)) == Extgrp {
        StepOnExtgrp(Run(st, b'), last);
      } else {
        StepOnIgnored(Run(st, b'), last);
      }
    }
  }

  /** After an `#EXTINF` line and any number of in-between lines, the pending entry has the extracted name and the category ResolveCategory gives. */
  lemma PendingEntry(st: ParserState, extinf: string, between: seq<string>)
    requires Classify(Trim(extinf)) == Extinf
    requires forall k :: 0 <= k < |between| ==> IsBetweenLine(between[k])
    ensures Run(st, [extinf] + between) ==
            st.(name := ExtractName(Trim(extinf)),
                category := ResolveCategory(Trim(extinf), LastGroupOverride(between)))
  {
    assert [extinf][..0] == [];
    StepOnExtinf(st, extinf);
    RunAppend(st, [extinf], between);
    BetweenLines(Step(st, extinf), between);
  }

  /**
   * One complete entry: an `#EXTINF` line, lines that neither start nor end an
   * entry, then a location line. It emits exactly one channel, named after
   * the `#EXTINF` line and categorised by ResolveCategory, unless the name is
   * empty.
   */
  lemma EntryEmitsOneChannel(st: ParserState, extinf: string, between: seq<string>, location: string)
    requires Classify(Trim(extinf)) == Extinf
    requires forall k :: 0 <= k < |between| ==> IsBetweenLine(between[k])
    requires Classify(Trim(location)) == Location
    ensures var name := ExtractName(Trim(extinf));
            var category := ResolveCategory(Trim(extinf), LastGroupOverride(between));
            Run(st, [extinf] + between + [location]).channels ==
              st.channels + (if name != "" then [Channel(name, Trim(location), category)] else [])
  {
    PendingEntry(st, extinf, between);
    RunSnoc(st, [extinf] + between, location);
    StepOnLocation(Run(st, [extinf] + between), location);
  }

  /** After its location line an entry leaves no pending name, so a further location line is dropped. */
  lemma EntryClearsName(st: ParserState, extinf: string, between: seq<string>, location: string)
    requires Classify(Trim(extinf)) == Extinf
    requires forall k :: 0 <= k < |between| ==> IsBetweenLine(between[k])
    requires Classify(Trim(location)) == Location
    ensures Run(st, [extinf] + between + [location]).name == ""
  {
    RunSnoc(st, [extinf] + between, location);
    StepOnLocation(Run(st, [extinf] + between), location);
  }

  /**
   * An entry followed by lines without `#EXTINF` (say an `#EXTGRP:` line and
   * another location line) emits the entry's channel and nothing more.
   */
  lemma EntryThenOrphans(st: ParserState, extinf: string, between: seq<string>, location: string, rest: seq<string>)
    requires Classify(Trim(extinf)) == Extinf
    requires forall k :: 0 <= k < |between| ==> IsBetweenLine(between[k])
    requires Classify(Trim(location)) == Location
    requires forall k :: 0 <= k < |rest| ==> Classify(Trim(rest[k])) != Extinf
    ensures Run(st, [extinf] + between + [location] + rest).channels ==
            Run(st, [extinf] + between + [location]).channels
  {
    EntryClearsName(st, extinf, between, location);
    RunAppend(st, [extinf] + between + [location], rest);
    NoExtinfNoChannels(Run(st, [extinf] + between + [location]), rest);
  }

  /** An `#EXTGRP:` line after the `#EXTINF` line wins over its group-title attribute. */
  lemma GroupOverrideWins(st: ParserState, extinf: string, group: string, location: string)
    requires Classify(Trim(extinf)) == Extinf && ExtractName(Trim(extinf)) != ""
    requires Classify(Trim(group)) == Extgrp
    requires Classify(Trim(location)) == Location
    ensures Run(st, [extinf] + [group] + [location]).channels ==
            st.channels + [Channel(ExtractName(Trim(extinf)), Trim(location), Trim(Trim(group)[|ExtgrpTag|..]))]
  {
    SingleOverride(group);
    EntryEmitsOneChannel(st, extinf, [group], location);
  }

  lemma SingleOverride(group: string)
    requires Classify(Trim(group)) == Extgrp
    ensures forall k :: 0 <= k < |[group]| ==> IsBetweenLine([group][k])
    ensures LastGroupOverride([group]) == Some(Trim(Trim(group)[|ExtgrpTag|..]))
  {
    assert [group][..0] == [];
  }

}
