/** The text of metainfo files byte by byte, and what is written and read for some files. */
module MetainfoExamples {
  import opened OrderedMap
  import opened Decimal
  import opened Bencode
  import opened CStrings
  import opened Metainfo
  import opened MetainfoRead

  // ----- the text that is written

  /** The text between the values: d 8:announce, 4:info and e, byte by byte. */
  lemma {:induction false} FileTextIs(address: CString, info: Be)
    ensures Encode(BeDict(FilePairs(address, info))) ==
            [100] + [56, 58, 97, 110, 110, 111, 117, 110, 99, 101] + EncodeString(address)
            + [52, 58, 105, 110, 102, 111] + Encode(info) + [101]
  {
    var p, q := Pair(ANNOUNCE, BeStr(address)), Pair(INFO, info);
    assert FilePairs(address, info) == [p] + [q] && [] + [p] == [p];
    AppendPair([], p);
    AppendPair([p], q);
    KeyTexts();
  }

  /** d 6:length i and e, 4:name, 12:piece length i256e, 6:pieces and e. */
  lemma {:induction false} InfoTextIs(name: CString, length: int, hashes: Text)
    ensures Encode(BeDict(InfoPairs(name, length, hashes))) ==
            [100] + [54, 58, 108, 101, 110, 103, 116, 104] + ([105] + Signed(length) + [101])
            + [52, 58, 110, 97, 109, 101] + EncodeString(name)
            + [49, 50, 58, 112, 105, 101, 99, 101, 32, 108, 101, 110, 103, 116, 104] + [105, 50, 53, 54, 101]
            + [54, 58, 112, 105, 101, 99, 101, 115] + EncodeString(hashes) + [101]
  {
    var p0, p1, p2, p3 := Pair(LENGTH, BeInt(length)), Pair(NAME, BeStr(name)), Pair(PIECE_LENGTH, BeInt(PIECE)),
        Pair(PIECES, BeStr(hashes));
    assert InfoPairs(name, length, hashes) == [] + [p0] + [p1] + [p2] + [p3];
    TwoMore([], p0, p1);
    TwoMore([] + [p0] + [p1], p2, p3);
    KeyTexts();
    assert [DICT] + EncodePairs([]) == [DICT];
  }

  lemma {:induction false} TwoMore(ps: seq<Pair>, p: Pair, q: Pair)
    ensures [DICT] + EncodePairs(ps + [p] + [q]) ==
            [DICT] + EncodePairs(ps) + EncodeString(p.key) + Encode(p.val) + EncodeString(q.key) + Encode(q.val)
  {
    AppendPair(ps, p);
    AppendPair(ps + [p], q);
  }

  lemma {:induction false} KeyTexts()
    ensures EncodeString(ANNOUNCE) == [56, 58, 97, 110, 110, 111, 117, 110, 99, 101]
    ensures EncodeString(INFO) == [52, 58, 105, 110, 102, 111]
    ensures EncodeString(LENGTH) == [54, 58, 108, 101, 110, 103, 116, 104]
    ensures EncodeString(NAME) == [52, 58, 110, 97, 109, 101]
    ensures EncodeString(PIECE_LENGTH) == [49, 50, 58, 112, 105, 101, 99, 101, 32, 108, 101, 110, 103, 116, 104]
    ensures EncodeString(PIECES) == [54, 58, 112, 105, 101, 99, 101, 115]
    ensures EncodeInt(PIECE) == [105, 50, 53, 54, 101]
  {
    assert Digits(12) == [49, 50] && Digits(256) == [50, 53, 54];
  }

  // ----- one hash too many

  /** A file of one full piece has two hashes, of which the second is over the first piece again; an empty file has one. */
  lemma {:induction false} ExtraHashExamples(name: CString, address: CString, file: Text, mem: Stack, sha: Text -> Digest)
    requires |file| == 256
    ensures var h := sha(CStr(file + mem.behind(0))) + sha(CStr(file + mem.behind(1)));
            |h| == 40 &&
            FileValue(name, address, file, mem, sha) == BeDict(FilePairs(address, BeDict(InfoPairs(name, 256, h))))
    ensures var h := sha(CStr(mem.stale + mem.behind(0)));
            FileValue(name, address, [], mem, sha) == BeDict(FilePairs(address, BeDict(InfoPairs(name, 0, h))))
  {
    TwoHashes(file, mem, sha);
    OneHash(mem, sha);
    AsInt32Keeps(256);
    AsInt32Keeps(0);
  }

  lemma {:induction false} TwoHashes(file: Text, mem: Stack, sha: Text -> Digest)
    requires |file| == 256
    ensures Hashes(file, mem, sha, HashCount(file)) == sha(CStr(file + mem.behind(0))) + sha(CStr(file + mem.behind(1)))
  {
    var ds := Digests(file, mem, sha, 2);
    assert file[0..256] == file && file[256..] + file[0..] == file;
    assert Buffered(file, mem, 0) == file == Buffered(file, mem, 1);
    assert ds[..1] == [ds[0]] && ds[..1][..0] == [];
    assert Joint(ds[..1]) == ds[0];
  }

  lemma {:induction false} OneHash(mem: Stack, sha: Text -> Digest)
    ensures Hashes([], mem, sha, HashCount([])) == sha(CStr(mem.stale + mem.behind(0)))
  {
    var ds := Digests([], mem, sha, 1);
    assert Buffered([], mem, 0) == mem.stale;
    assert ds[..0] == [] && HashCount([]) == 1;
    assert Joint(ds) == Joint([]) + ds[0] == ds[0];
  }

  // ----- one file, byte by byte

  function Str(key: Text, s: Text): DictEntry
  {
    DictEntry(Some(key), Some(StrNode(Some(s))))
  }

  function Int(key: Text, i: int): DictEntry
  {
    DictEntry(Some(key), Some(IntNode(i)))
  }

  /** length, name, piece length, pieces */
  function ExampleInfo(name: Text, hash: Text): Entries
  {
    [Int([108, 101, 110, 103, 116, 104], 31690), Str([110, 97, 109, 101], name),
     Int([112, 105, 101, 99, 101, 32, 108, 101, 110, 103, 116, 104], 262144), Str([112, 105, 101, 99, 101, 115], hash)]
  }

  /** announce, two more entries, info */
  function ExampleFile(host: Text, madeBy: Text, tool: Text, date: Text, info: Entries): Entries
  {
    [Str([97, 110, 110, 111, 117, 110, 99, 101], host), Str(madeBy, tool), Int(date, 1352142460),
     DictEntry(Some([105, 110, 102, 111]), Some(DictNode(info)))]
  }

  /** The keys of moby_dick.txt.torrent: what it was created by, and its creation date, are passed over. */
  lemma {:induction false} MobyDickExample(out: Info, host: CString, madeBy: CString, tool: CString, date: CString,
                                           name: CString, hash: Text)
    requires madeBy == [99, 114, 101, 97, 116, 101, 100, 32, 98, 121] && |hash| == 20
    requires date == [99, 114, 101, 97, 116, 105, 111, 110, 32, 100, 97, 116, 101]
    ensures FileFields(out, ExampleFile(host, madeBy, tool, date, ExampleInfo(name, hash))) ==
            Some(Info(host, name, 31690, 262144, 1, [hash]))
  {
    InfoExample(out.(announce := host), name, hash);
    PassedOver(out, host, madeBy, tool, date, 1352142460, ExampleInfo(name, hash));
  }

  lemma {:induction false} PassedOver(out: Info, host: CString, maker: CString, tool: CString, date: CString, i: int, info: Entries)
    requires |maker| > 8 && |date| > 8
    ensures FileFields(out, [Str(ANNOUNCE, host), Str(maker, tool), Int(date, i), DictEntry(Some(INFO), Some(DictNode(info)))]) ==
            InfoFields(out.(announce := host), info)
  {
    var o := out.(announce := host);
    var e0, e1, e2, e3 := Str(ANNOUNCE, host), Str(maker, tool), Int(date, i), DictEntry(Some(INFO), Some(DictNode(info)));
    assert [e0, e1, e2, e3] == [e0] + ([e1] + ([e2] + ([e3] + [])));
    ReadAnnounce(out, host);
    ReadInfoDict(o, info);
    FileFirst(out, e0, [e1] + ([e2] + ([e3] + [])), o);
    OtherFirst(o, maker, e1.val.value, [e2] + ([e3] + []));
    OtherFirst(o, date, e2.val.value, [e3] + []);
    if InfoFields(o, info).Some? {
      FileFirst(o, e3, [], InfoFields(o, info).value);
    }
  }

  lemma {:induction false} FileFirst(out: Info, e: DictEntry, rest: Entries, next: Info)
    requires e.key.Some? && e.val.Some? && FileField(out, e.key.value, e.val.value) == Some(next)
    ensures FileFields(out, [e] + rest) == FileFields(next, rest)
  {
    assert ([e] + rest)[1..] == rest;
  }

  lemma {:induction false} InfoFirst(out: Info, e: DictEntry, rest: Entries, next: Info)
    requires e.key.Some? && e.val.Some? && InfoField(out, e.key.value, e.val.value) == Some(next)
    ensures InfoFields(out, [e] + rest) == InfoFields(next, rest)
  {
    assert ([e] + rest)[1..] == rest;
  }

  lemma {:induction false} OtherFirst(out: Info, key: CString, val: Node, rest: Entries)
    requires |key| != 8 && |key| != 4
    ensures FileFields(out, [DictEntry(Some(key), Some(val))] + rest) == FileFields(out, rest)
  {
    CStrWhole(key);
    KeysDiffer();
    FileFirst(out, DictEntry(Some(key), Some(val)), rest, out);
  }

  lemma {:induction false} InfoExample(out: Info, name: CString, hash: Text)
    requires |hash| == 20
    ensures InfoFields(out, ExampleInfo(name, hash)) == Some(Info(out.announce, name, 31690, 262144, 1, [hash]))
  {
    var e0, e1, e2, e3 := Int(LENGTH, 31690), Str(NAME, name), Int(PIECE_LENGTH, 262144), Str(PIECES, hash);
    var o1 := out.(length := 31690);
    var o2 := o1.(name := name);
    var o3 := o2.(pieceLength := 262144, numPieces := 1);
    assert PIECE_LENGTH == [112, 105, 101, 99, 101, 32, 108, 101, 110, 103, 116, 104];
    assert ExampleInfo(name, hash) == [e0] + ([e1] + ([e2] + ([e3] + [])));
    AsInt32Keeps(31690);
    ReadLength(out, 31690);
    ReadName(o1, name);
    ReadExamplePieceLength(o2);
    ReadPieces(o3, hash);
    OneBlock(hash);
    InfoFirst(out, e0, [e1] + ([e2] + ([e3] + [])), o1);
    InfoFirst(o1, e1, [e2] + ([e3] + []), o2);
    InfoFirst(o2, e2, [e3] + [], o3);
    InfoFirst(o3, e3, [], o3.(hashes := [hash]));
  }

  lemma {:induction false} ReadExamplePieceLength(out: Info)
    requires out.length == 31690
    ensures InfoField(out, PIECE_LENGTH, IntNode(262144)) == Some(out.(pieceLength := 262144, numPieces := 1))
  {
    KeyIsItself(PIECE_LENGTH);
    KeysDiffer();
    AsInt32Keeps(262144);
  }

  lemma {:induction false} OneBlock(hash: Text)
    requires |hash| == 20
    ensures Slices(hash, 1) == [hash]
  {
    assert (hash + [0])[0..20] == hash;
  }
}
