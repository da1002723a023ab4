/**
  The text form of the lists kept in the settings files. NG users and NG comments are stored as one
  comma-joined string each and read back by splitting on commas, stripping every piece and dropping
  the empty ones. The channel list is stored comma-joined too but read back by a bare split.
 */
module SettingsCodec {
  import opened Text

  const SEPARATOR := ','

  /** An item that survives a save and a reload of an NG list unchanged. */
  predicate StorableItem(x: string) {
    x != [] && Stripped(x) && SEPARATOR !in x
  }

  /** What `save_ng_settings` stores for one NG list. */
  function EncodeNgList(items: seq<string>): string {
    Join(items, SEPARATOR)
  }

  /** Strip every piece and keep the non-empty results, in order. */
  function CleanPieces(pieces: seq<string>): (r: seq<string>)
    requires forall p :: p in pieces ==> SEPARATOR !in p
    ensures forall x :: x in r ==> StorableItem(x)
    ensures |r| <= |pieces|
  {
    if pieces == [] then []
    else
      var item := Strip(pieces[0]);
      assert SEPARATOR !in item by { SliceKeepsMissing(pieces[0], item, SEPARATOR); }
      assert forall p :: p in pieces[1..] ==> p in pieces;
      var rest := CleanPieces(pieces[1..]);
      if item != [] then [item] + rest else rest
  }

  /** A piece that is not blank is kept, stripped. */
  lemma {:induction false} CleanPiecesKeeps(pieces: seq<string>, p: string)
    requires forall p :: p in pieces ==> SEPARATOR !in p
    requires p in pieces && Strip(p) != []
    ensures Strip(p) in CleanPieces(pieces)
  {
    var first, rest := pieces[0], pieces[1..];
    if p != first {
      assert p in rest;
      assert forall p :: p in rest ==> p in pieces;
      CleanPiecesKeeps(rest, p);
    }
  }

  /** Every item kept is the stripped form of some piece that is not blank. */
  lemma {:induction false} CleanPiecesFrom(pieces: seq<string>)
    requires forall p :: p in pieces ==> SEPARATOR !in p
    ensures forall x :: x in CleanPieces(pieces) ==> exists p :: p in pieces && Strip(p) == x && x != []
  {
    if pieces != [] {
      var first, rest := pieces[0], pieces[1..];
      assert forall p :: p in rest ==> p in pieces;
      CleanPiecesFrom(rest);
      forall x | x in CleanPieces(pieces) ensures exists p :: p in pieces && Strip(p) == x && x != [] {
        if Strip(first) != [] && x == Strip(first) {
          assert first in pieces;
        } else {
          assert x in CleanPieces(rest);
          var p :| p in rest && Strip(p) == x && x != [];
          assert p in pieces;
        }
      }
    }
  }

  /** Cleaning works piece by piece: the pieces of a concatenation give their results in order. */
  lemma {:induction false} CleanPiecesAppend(a: seq<string>, b: seq<string>)
    requires forall p :: p in a + b ==> SEPARATOR !in p
    ensures CleanPieces(a + b) == CleanPieces(a) + CleanPieces(b)
  {
    if a != [] {
      assert (a + b)[0] == a[0] && (a + b)[1..] == a[1..] + b;
      assert forall p :: p in a[1..] + b ==> p in a + b;
      CleanPiecesAppend(a[1..], b);
    } else {
      assert a + b == b;
    }
  }

  /** One piece gives its stripped text, or nothing when that is empty. */
  lemma CleanPiecesSingle(p: string)
    requires SEPARATOR !in p
    ensures CleanPieces([p]) == if Strip(p) != [] then [Strip(p)] else []
  {
    assert [p][1..] == [];
  }

  /** What `load_ng_settings` reads back for one NG list. */
  function DecodeNgList(stored: string): (r: seq<string>)
    ensures forall x :: x in r ==> StorableItem(x)
  {
    CleanPieces(Split(stored, SEPARATOR))
  }

  /** What `save_settings` stores for the channel list. */
  function EncodeChannels(channels: seq<string>): string {
    Join(channels, SEPARATOR)
  }

  /** What `load_settings` reads back for the channel list: no stripping, no filtering. */
  function DecodeChannels(stored: string): (r: seq<string>)
    ensures |r| >= 1
    ensures forall c :: c in r ==> SEPARATOR !in c
    ensures EncodeChannels(r) == stored
  {
    Split(stored, SEPARATOR)
  }

  /** A character missing from a string is missing from the result of stripping it. */
  lemma SliceKeepsMissing(s: string, r: string, c: char)
    requires c !in s
    requires exists lo, hi :: 0 <= lo <= hi <= |s| && r == s[lo..hi]
    ensures c !in r
  {
    var lo, hi :| 0 <= lo <= hi <= |s| && r == s[lo..hi];
    assert forall i :: 0 <= i < |r| ==> r[i] == s[lo + i];
  }

  /** Pieces that are already storable items pass through unchanged. */
  lemma {:induction false} CleanPiecesKeepsStorable(pieces: seq<string>)
    requires forall p :: p in pieces ==> SEPARATOR !in p
    requires forall p :: p in pieces ==> StorableItem(p)
    ensures CleanPieces(pieces) == pieces
  {
    if pieces != [] {
      var first, rest := pieces[0], pieces[1..];
      assert pieces == [first] + rest;
      assert first in pieces;
      assert forall p :: p in rest ==> p in pieces;
      CleanPiecesAppend([first], rest);
      CleanPiecesSingle(first);
      StripFixesStripped(first);
      CleanPiecesKeepsStorable(rest);
    }
  }

  /** Saving an NG list and loading it back gives the same list, whenever every item is storable. */
  lemma NgListRoundTrip(items: seq<string>)
    requires forall x :: x in items ==> StorableItem(x)
    ensures DecodeNgList(EncodeNgList(items)) == items
  {
    if items == [] {
      assert Split([], SEPARATOR) == [[]];
      assert Strip([]) == [];
    } else {
      SplitJoin(items, SEPARATOR);
      CleanPiecesKeepsStorable(items);
    }
  }

  /** A list that has been loaded once comes back unchanged from every further save and load. */
  lemma NgListReloadStable(stored: string)
    ensures DecodeNgList(EncodeNgList(DecodeNgList(stored))) == DecodeNgList(stored)
  {
    NgListRoundTrip(DecodeNgList(stored));
  }

  /**
    Loading keeps every comma-separated piece that is not blank, stripped, and nothing else.
    `CleanPiecesAppend` adds that the pieces come out in their stored order.
   */
  lemma DecodeNgListContents(stored: string)
    ensures forall p :: p in Split(stored, SEPARATOR) && Strip(p) != [] ==> Strip(p) in DecodeNgList(stored)
    ensures forall x :: x in DecodeNgList(stored) ==> exists p :: p in Split(stored, SEPARATOR) && Strip(p) == x && x != []
  {
    var pieces := Split(stored, SEPARATOR);
    forall p | p in pieces && Strip(p) != [] ensures Strip(p) in CleanPieces(pieces) {
      CleanPiecesKeeps(pieces, p);
    }
    CleanPiecesFrom(pieces);
  }

  /** A missing or empty entry loads as the empty list. */
  lemma NgListEmptyDecodes()
    ensures DecodeNgList("") == []
  {
    assert Split("", SEPARATOR) == [""];
    assert Strip("") == "";
  }

  lemma SampleSplit()
    ensures Split(" a , ,b", SEPARATOR) == [" a ", " ", "b"]
  {
    SplitJoin([" a ", " ", "b"], SEPARATOR);
    assert Join([" a ", " ", "b"], SEPARATOR) == " a , ,b";
  }

  lemma SampleStrips()
    ensures Strip(" a ") == "a" && Strip(" ") == "" && Strip("b") == "b"
  {
    assert TrimStart(" a ") == "a ";
    assert TrimEnd("a ") == "a";
    assert TrimStart(" ") == "";
    StripFixesStripped("b");
  }

  /** Three comma-free pieces are cleaned one by one, in order. */
  lemma CleanThree(p: string, q: string, t: string)
    requires SEPARATOR !in p && SEPARATOR !in q && SEPARATOR !in t
    ensures CleanPieces([p, q, t]) == CleanPieces([p]) + CleanPieces([q]) + CleanPieces([t])
  {
    assert [p, q, t] == [p] + [q, t] && [q, t] == [q] + [t];
    CleanPiecesAppend([p], [q, t]);
    CleanPiecesAppend([q], [t]);
  }

  lemma DecodeSample(stored: string, p: string, q: string, t: string)
    requires Split(stored, SEPARATOR) == [p, q, t]
    requires Strip(p) == "a" && Strip(q) == [] && Strip(t) == "b"
    ensures DecodeNgList(stored) == ["a", "b"]
  {
    assert p in [p, q, t] && q in [p, q, t] && t in [p, q, t];
    CleanThree(p, q, t);
    CleanPiecesSingle(p);
    CleanPiecesSingle(q);
    CleanPiecesSingle(t);
  }

  /** A hand-edited entry loads with its items stripped and its blank items dropped, in order. */
  lemma HandEditedListLoadsClean()
    ensures DecodeNgList(" a , ,b") == ["a", "b"]
  {
    SampleSplit();
    SampleStrips();
    DecodeSample(" a , ,b", " a ", " ", "b");
  }

  /** An NG item holding a comma does not survive a save and a reload. */
  lemma NgItemWithCommaIsLost()
    ensures EncodeNgList(["a,b"]) == "a,b"
    ensures DecodeNgList(EncodeNgList(["a,b"])) != ["a,b"]
  {
  }

  /** Saving a channel list and loading it back gives the same list when it is non-empty and comma-free. */
  lemma ChannelsRoundTrip(channels: seq<string>)
    requires |channels| >= 1
    requires forall c :: c in channels ==> SEPARATOR !in c
    ensures DecodeChannels(EncodeChannels(channels)) == channels
  {
    SplitJoin(channels, SEPARATOR);
  }

  /** An empty channel list comes back as a list holding one empty channel name. */
  lemma EmptyChannelsReloadAsBlank()
    ensures DecodeChannels(EncodeChannels([])) == [""]
  {
  }
}
