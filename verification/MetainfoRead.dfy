/** What decodeFile makes of any tree: which entries it takes up, which of several with one key, and how many pieces. */
module MetainfoRead {
  import opened OrderedMap
  import opened Decimal
  import opened Bencode
  import opened CStrings
  import opened Metainfo

  type Entries = seq<DictEntry>

  /** The loops run to the first entry without a value. */
  predicate Ends(es: Entries)
  {
    |es| == 0 || es[0].val.None?
  }

  ghost predicate Reaches(es: Entries, i: nat)
  {
    i < |es| && forall j | 0 <= j <= i :: es[j].val.Some?
  }

  predicate HasKey(e: DictEntry, key: Text)
  {
    e.key.Some? && CStr(e.key.value) == key
  }

  /** The value of the last entry with a key. */
  function Last(es: Entries, key: Text): Option<Node>
  {
    if Ends(es) then None
    else if Last(es[1..], key).Some? then Last(es[1..], key)
    else if HasKey(es[0], key) then es[0].val
    else None
  }

  /** The entries with one of the keys, or without any, which the loops cannot read. */
  function Only(es: Entries, keys: set<Text>): Entries
  {
    if Ends(es) then []
    else (if es[0].key.None? || CStr(es[0].key.value) in keys then [es[0]] else []) + Only(es[1..], keys)
  }

  function TextOr(n: Option<Node>, otherwise: Text): Text
  {
    if n.Some? && StrOf(n.value).Some? then CStr(StrOf(n.value).value) else otherwise
  }

  predicate IsText(n: Option<Node>)
  {
    n.Some? ==> StrOf(n.value).Some?
  }

  predicate IsInt(n: Option<Node>)
  {
    n.Some? ==> n.value.IntNode?
  }

  function IntOr(n: Option<Node>, otherwise: int): int
  {
    if n.Some? && n.value.IntNode? then AsInt32(n.value.i) else otherwise
  }

  // ----- the info dictionary

  /** What one entry does to each field. */
  lemma {:induction false} InfoStep(out: Info, e: DictEntry)
    requires e.val.Some? && e.key.Some? && InfoField(out, e.key.value, e.val.value).Some?
    ensures var r := InfoField(out, e.key.value, e.val.value).value;
            && r.announce == out.announce
            && (HasKey(e, NAME) ==> StrOf(e.val.value).Some?)
            && r.name == (if HasKey(e, NAME) then TextOr(e.val, out.name) else out.name)
            && (HasKey(e, LENGTH) || HasKey(e, PIECE_LENGTH) ==> e.val.value.IntNode?)
            && r.length == (if HasKey(e, LENGTH) then IntOr(e.val, out.length) else out.length)
            && r.pieceLength == (if HasKey(e, PIECE_LENGTH) then IntOr(e.val, out.pieceLength) else out.pieceLength)
            && (!HasKey(e, PIECE_LENGTH) ==> r.numPieces == out.numPieces)
            && (!HasKey(e, PIECES) ==> r.hashes == out.hashes)
  {
    KeysDiffer();
  }

  /** The string and int fields are those of the last entries with their keys, or what they were if there is none. */
  lemma {:induction false} InfoIsLast(out: Info, es: Entries)
    requires InfoFields(out, es).Some?
    ensures var r := InfoFields(out, es).value;
            && r.announce == out.announce
            && IsText(Last(es, NAME)) && r.name == TextOr(Last(es, NAME), out.name)
            && IsInt(Last(es, LENGTH)) && r.length == IntOr(Last(es, LENGTH), out.length)
            && IsInt(Last(es, PIECE_LENGTH)) && r.pieceLength == IntOr(Last(es, PIECE_LENGTH), out.pieceLength)
            && (Last(es, PIECE_LENGTH).None? ==> r.numPieces == out.numPieces)
            && (Last(es, PIECES).None? ==> r.hashes == out.hashes)
    decreases |es|
  {
    if !Ends(es) {
      InfoStep(out, es[0]);
      InfoIsLast(InfoField(out, es[0].key.value, es[0].val.value).value, es[1..]);
    }
  }

  lemma KeysDiffer()
    ensures |NAME| == 4 && |LENGTH| == 6 && |PIECE_LENGTH| == 12 && |PIECES| == 6 && LENGTH[0] != PIECES[0]
    ensures |ANNOUNCE| == 8 && |INFO| == 4
  {
  }

  /** No other entry makes a difference. */
  lemma {:induction false} InfoOthersDropped(out: Info, es: Entries)
    ensures InfoFields(out, es) == InfoFields(out, Only(es, {NAME, LENGTH, PIECE_LENGTH, PIECES}))
    decreases |es|
  {
    var keys := {NAME, LENGTH, PIECE_LENGTH, PIECES};
    if !Ends(es) {
      var kept := Only(es[1..], keys);
      if es[0].key.Some? && CStr(es[0].key.value) !in keys {
        assert Only(es, keys) == kept;
        InfoOthersDropped(out, es[1..]);
      } else {
        assert Only(es, keys)[1..] == kept;
        if es[0].key.Some? && InfoField(out, es[0].key.value, es[0].val.value).Some? {
          InfoOthersDropped(InfoField(out, es[0].key.value, es[0].val.value).value, es[1..]);
        }
      }
    }
  }

  lemma {:induction false} InfoSplits(out: Info, es: Entries, i: nat)
    requires Reaches(es, i) && InfoFields(out, es).Some?
    ensures InfoFields(out, es[..i]).Some? && InfoFields(InfoFields(out, es[..i]).value, es[i..]) == InfoFields(out, es)
    decreases i
  {
    if i == 0 {
      assert es[..0] == [] && es[0..] == es;
    } else {
      var next := InfoField(out, es[0].key.value, es[0].val.value).value;
      InfoSplits(next, es[1..], i - 1);
      assert es[..i][1..] == es[1..][..i - 1] && es[1..][i - 1..] == es[i..];
    }
  }

  /** Main result: the number of pieces is the length over the piece length, rounded up, for every positive piece length. The
      length is what the entries in front of the last "piece length" leave. */
  lemma {:induction false} NumPiecesIsCeiling(out: Info, es: Entries, i: nat)
    requires Reaches(es, i) && HasKey(es[i], PIECE_LENGTH) && Last(es[i + 1..], PIECE_LENGTH).None?
    requires InfoFields(out, es).Some?
    ensures var r := InfoFields(out, es).value;
            var length := IntOr(Last(es[..i], LENGTH), out.length);
            && (r.pieceLength > 0 ==> r.pieceLength * (r.numPieces - 1) < length <= r.pieceLength * r.numPieces)
            && (Last(es[i + 1..], LENGTH).None? ==> r.length == length)
  {
    InfoSplits(out, es, i);
    var before := InfoFields(out, es[..i]).value;
    InfoIsLast(out, es[..i]);
    assert es[i..][0] == es[i] && es[i..][1..] == es[i + 1..];
    var next := InfoField(before, es[i].key.value, es[i].val.value).value;
    KeysDiffer();
    InfoIsLast(next, es[i + 1..]);
    if next.pieceLength > 0 {
      PiecesIsCeiling(before.length, next.pieceLength);
    }
  }

  /** The first n blocks of 20 bytes of a string and the zero behind it. */
  ghost predicate AreBlocks(hashes: seq<Text>, s: Text, n: int)
  {
    && 20 * n <= |s| + 1
    && |hashes| == (if n < 0 then 0 else n)
    && forall k | 0 <= k < n :: hashes[k] == (s + [0])[20 * k..20 * k + 20]
  }

  /** The hashes are the blocks of 20 bytes of the last "pieces", as many as there are pieces by then. */
  lemma {:induction false} HashesAreBlocks(out: Info, es: Entries, i: nat)
    requires Reaches(es, i) && HasKey(es[i], PIECES) && Last(es[i + 1..], PIECES).None?
    requires InfoFields(out, es).Some?
    ensures InfoFields(out, es[..i]).Some?
    ensures var r := InfoFields(out, es).value;
            var n := InfoFields(out, es[..i]).value.numPieces;
            && (Last(es[i + 1..], PIECE_LENGTH).None? ==> r.numPieces == n)
            && StrOf(es[i].val.value).Some?
            && AreBlocks(r.hashes, StrOf(es[i].val.value).value, n)
  {
    InfoSplits(out, es, i);
    assert es[i..][0] == es[i] && es[i..][1..] == es[i + 1..];
    KeysDiffer();
    InfoIsLast(InfoField(InfoFields(out, es[..i]).value, es[i].key.value, es[i].val.value).value, es[i + 1..]);
  }

  // ----- the top dictionary

  /** The info dictionary and the address do not meet. */
  lemma {:induction false} InfoIgnoresAnnounce(out: Info, a: Text, es: Entries)
    ensures InfoFields(out.(announce := a), es) ==
            match InfoFields(out, es) case None => None case Some(r) => Some(r.(announce := a))
    decreases |es|
  {
    if !Ends(es) && es[0].key.Some? {
      var key, n := es[0].key.value, es[0].val.value;
      assert InfoField(out.(announce := a), key, n) ==
             match InfoField(out, key, n) case None => None case Some(r) => Some(r.(announce := a));
      if InfoField(out, key, n).Some? {
        InfoIgnoresAnnounce(InfoField(out, key, n).value, a, es[1..]);
      }
    }
  }

  /** Main result: the address is the string of the last "announce", or what it was if there is none. */
  lemma {:induction false} AnnounceIsLast(out: Info, es: Entries)
    requires FileFields(out, es).Some?
    ensures IsText(Last(es, ANNOUNCE)) && FileFields(out, es).value.announce == TextOr(Last(es, ANNOUNCE), out.announce)
    decreases |es|
  {
    if !Ends(es) {
      KeysDiffer();
      if HasKey(es[0], INFO) {
        InfoIsLast(out, es[0].val.value.entries);
      }
      AnnounceIsLast(FileField(out, es[0].key.value, es[0].val.value).value, es[1..]);
    }
  }

  /** Main result: entries whose key is neither "announce" nor "info" make no difference. */
  lemma {:induction false} OthersDropped(out: Info, es: Entries)
    ensures FileFields(out, es) == FileFields(out, Only(es, {ANNOUNCE, INFO}))
    decreases |es|
  {
    var keys := {ANNOUNCE, INFO};
    if !Ends(es) {
      var kept := Only(es[1..], keys);
      if es[0].key.Some? && CStr(es[0].key.value) !in keys {
        assert Only(es, keys) == kept;
        OthersDropped(out, es[1..]);
      } else {
        assert Only(es, keys)[1..] == kept;
        if es[0].key.Some? && FileField(out, es[0].key.value, es[0].val.value).Some? {
          OthersDropped(FileField(out, es[0].key.value, es[0].val.value).value, es[1..]);
        }
      }
    }
  }

  /** Without an "info" nothing but the address changes. */
  lemma {:induction false} NoInfo(out: Info, es: Entries)
    requires FileFields(out, es).Some? && Last(es, INFO).None?
    ensures FileFields(out, es).value == out.(announce := FileFields(out, es).value.announce)
    decreases |es|
  {
    if !Ends(es) {
      NoInfo(FileField(out, es[0].key.value, es[0].val.value).value, es[1..]);
    }
  }

  /** Main result: with one "info", the other fields are read from it alone. */
  lemma {:induction false} InfoIsRead(out: Info, es: Entries, i: nat)
    requires Reaches(es, i) && HasKey(es[i], INFO) && Last(es[..i], INFO).None? && Last(es[i + 1..], INFO).None?
    requires FileFields(out, es).Some?
    ensures es[i].val.value.DictNode?
    ensures InfoFields(out, es[i].val.value.entries) == Some(FileFields(out, es).value.(announce := out.announce))
    decreases i
  {
    KeysDiffer();
    var next := FileField(out, es[0].key.value, es[0].val.value).value;
    if i == 0 {
      NoInfo(next, es[1..]);
      InfoIsLast(out, es[0].val.value.entries);
    } else {
      assert es[..i][1..] == es[1..][..i - 1] && es[1..][i..] == es[i + 1..];
      InfoIsRead(next, es[1..], i - 1);
      InfoIgnoresAnnounce(next, out.announce, es[i].val.value.entries);
    }
  }
}
