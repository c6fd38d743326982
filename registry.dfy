/**
 * PlaylistManager: the user's list of named playlist sources, each a file
 * path or a network address, with index-checked editing and lookup.
 */
module Registry {
  import opened Wrappers

  /** One saved playlist source. */
  datatype PlaylistInfo = PlaylistInfo(name: string, source: string, isUrl: bool)

  /** One decoded record of the saved file; files written by older versions lack `isUrl`. */
  datatype StoredRecord = StoredRecord(name: string, source: string, isUrl: Option<bool>)

  /** addPlaylist's heuristic: a scheme starting with "http" (http, https, ...) or exactly "ftp" is a network address. */
  predicate IsUrlScheme(scheme: string) {
    "http" <= scheme || scheme == "ftp"
  }

  /**
   * Which schemes the heuristic accepts. QUrl reports schemes in lower case,
   * so only lower-case schemes are shown; any scheme with the prefix "http"
   * is accepted, streaming schemes such as rtsp and udp are not.
   */
  lemma IsUrlSchemeExamples()
    ensures IsUrlScheme("http") && IsUrlScheme("https") && IsUrlScheme("ftp") && IsUrlScheme("httpx")
    ensures !IsUrlScheme("") && !IsUrlScheme("file") && !IsUrlScheme("ftps")
    ensures !IsUrlScheme("rtsp") && !IsUrlScheme("udp")
  {
    assert "file"[0] != "http"[0] && "ftps"[0] != "http"[0];
    assert "rtsp"[0] != "http"[0] && "udp"[0] != "http"[0];
    assert "ftps" != "ftp" && "rtsp" != "ftp" && "udp" != "ftp";
  }

  /**
   * The entry that addPlaylist appends and editPlaylist stores: the given
   * name and source, flagged as a network address by the scheme of the
   * source (`schemeOf` stands for QUrl(source).scheme()).
   */
  function NewInfo(name: string, source: string, schemeOf: string -> string): (r: PlaylistInfo)
    ensures r.name == name && r.source == source
    ensures r.isUrl <==> "http" <= schemeOf(source) || schemeOf(source) == "ftp"
  {
    PlaylistInfo(name, source, IsUrlScheme(schemeOf(source)))
  }

  /** The record savePlaylists writes for an entry: all three fields, `isUrl` included. */
  function ToRecord(info: PlaylistInfo): StoredRecord {
    StoredRecord(info.name, info.source, Some(info.isUrl))
  }

  /** The entry loadPlaylists builds from a record: a stored `isUrl` is kept, a missing one is inferred. */
  function FromRecord(rec: StoredRecord, schemeOf: string -> string): (r: PlaylistInfo)
    ensures r.name == rec.name && r.source == rec.source
    ensures rec.isUrl.Some? ==> r.isUrl == rec.isUrl.value
    ensures rec.isUrl.None? ==> r.isUrl == IsUrlScheme(schemeOf(rec.source))
  {
    match rec.isUrl
    case Some(flag) => PlaylistInfo(rec.name, rec.source, flag)
    case None => NewInfo(rec.name, rec.source, schemeOf)
  }

  /** A legacy record without `isUrl` loads as the entry addPlaylist would have created. */
  lemma LegacyRecordAsAdded(name: string, source: string, schemeOf: string -> string)
    ensures FromRecord(StoredRecord(name, source, None), schemeOf) == NewInfo(name, source, schemeOf)
  {
  }

  /** Saving an entry and loading it back gives the same entry, whatever the scheme of its source. */
  lemma RecordRoundTrip(info: PlaylistInfo, schemeOf: string -> string)
    ensures FromRecord(ToRecord(info), schemeOf) == info
  {
  }

  /** The list loadPlaylists builds from the records, one entry per record, in order. */
  function FromRecords(records: seq<StoredRecord>, schemeOf: string -> string): (r: seq<PlaylistInfo>)
    ensures |r| == |records|
    ensures forall k :: 0 <= k < |records| ==> r[k] == FromRecord(records[k], schemeOf)
  {
    seq(|records|, k requires 0 <= k < |records| => FromRecord(records[k], schemeOf))
  }

  /** Records written for a list load back as that list. */
  lemma ListRoundTrip(list: seq<PlaylistInfo>, schemeOf: string -> string)
    ensures FromRecords(seq(|list|, k requires 0 <= k < |list| => ToRecord(list[k])), schemeOf) == list
  {
  }

  /** QList::removeAt: `s` without its element at `i`, the others in their order. */
  function RemoveAt<T>(s: seq<T>, i: nat): (r: seq<T>)
    requires i < |s|
    ensures |r| == |s| - 1
    ensures forall k :: 0 <= k < i ==> r[k] == s[k]
    ensures forall k :: i <= k < |r| ==> r[k] == s[k + 1]
    ensures multiset(r) == multiset(s) - multiset{s[i]}
  {
    assert s == s[..i] + [s[i]] + s[i + 1..];
    s[..i] + s[i + 1..]
  }

  class PlaylistManager {
    var playlists: seq<PlaylistInfo>

    /**
     * The constructor loads the saved list. `saved` is None when the file
     * cannot be opened or does not hold a JSON array; the list then stays empty.
     */
    constructor (saved: Option<seq<StoredRecord>>, schemeOf: string -> string)
      ensures saved.None? ==> playlists == []
      ensures saved.Some? ==> playlists == FromRecords(saved.value, schemeOf)
    {
      playlists := [];
      new;
      LoadPlaylists(saved, schemeOf);
    }

    /**
     * loadPlaylists: on a readable array the list is cleared and rebuilt
     * from the records in order; otherwise it is left as it was.
     */
    method LoadPlaylists(saved: Option<seq<StoredRecord>>, schemeOf: string -> string)
      modifies this
      ensures saved.None? ==> playlists == old(playlists)
      ensures saved.Some? ==> playlists == FromRecords(saved.value, schemeOf)
    {
      if saved.None? {
        return;
      }
      var records := saved.value;
      playlists := [];
      for i := 0 to |records|
        invariant |playlists| == i
        invariant forall k :: 0 <= k < i ==> playlists[k] == FromRecord(records[k], schemeOf)
      {
        var rec := records[i];
        var info := PlaylistInfo(rec.name, rec.source, false);
        if rec.isUrl.Some? {
          info := info.(isUrl := rec.isUrl.value);
        } else {
          info := info.(isUrl := IsUrlScheme(schemeOf(rec.source)));
        }
        playlists := playlists + [info];
      }
    }

    /** addPlaylist: exactly one new entry at the end; the earlier entries are untouched. */
    method AddPlaylist(name: string, source: string, schemeOf: string -> string)
      modifies this
      ensures playlists == old(playlists) + [NewInfo(name, source, schemeOf)]
      ensures |playlists| == |old(playlists)| + 1
      ensures playlists[..|old(playlists)|] == old(playlists)
    {
      var info := PlaylistInfo(name, source, IsUrlScheme(schemeOf(source)));
      playlists := playlists + [info];
    }

    /** removePlaylist: an out-of-range index changes nothing, a valid one drops exactly that entry. */
    method RemovePlaylist(index: int)
      modifies this
      ensures !(0 <= index < |old(playlists)|) ==> playlists == old(playlists)
      ensures 0 <= index < |old(playlists)| ==> playlists == RemoveAt(old(playlists), index)
    {
      if index < 0 || index >= |playlists| {
        return;
      }
      playlists := playlists[..index] + playlists[index + 1..];
    }

    /**
     * editPlaylist: an out-of-range index changes nothing; a valid one
     * replaces the name, source and flag of that entry only.
     */
    method EditPlaylist(index: int, name: string, source: string, schemeOf: string -> string)
      modifies this
      ensures |playlists| == |old(playlists)|
      ensures !(0 <= index < |old(playlists)|) ==> playlists == old(playlists)
      ensures 0 <= index < |old(playlists)| ==> playlists[index] == NewInfo(name, source, schemeOf)
      ensures forall k :: 0 <= k < |playlists| && k != index ==> playlists[k] == old(playlists)[k]
    {
      if index < 0 || index >= |playlists| {
        return;
      }
      var info := playlists[index];
      info := info.(name := name, source := source);
      info := info.(isUrl := IsUrlScheme(schemeOf(source)));
      playlists := playlists[index := info];
    }

    /** getSource: the stored source, or the empty string for an out-of-range index. */
    function GetSource(index: int): (r: string)
      reads this
      ensures 0 <= index < |playlists| ==> r == playlists[index].source
      ensures !(0 <= index < |playlists|) ==> r == ""
    {
      if index < 0 || index >= |playlists| then "" else playlists[index].source
    }

    /** getName: the stored name, or the empty string for an out-of-range index. */
    function GetName(index: int): (r: string)
      reads this
      ensures 0 <= index < |playlists| ==> r == playlists[index].name
      ensures !(0 <= index < |playlists|) ==> r == ""
    {
      if index < 0 || index >= |playlists| then "" else playlists[index].name
    }
  }
}
