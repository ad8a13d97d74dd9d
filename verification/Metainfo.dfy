/** Metainfo files: encodeFile writes one, decodeFile reads it back into a bt_info_t. */
module Metainfo {
  import opened Bits
  import opened OrderedMap
  import opened Decimal
  import opened Bencode
  import opened CStrings
  import opened Sequences

  const ANNOUNCE: Text := [97, 110, 110, 111, 117, 110, 99, 101]
  const INFO: Text := [105, 110, 102, 111]
  const LENGTH: Text := [108, 101, 110, 103, 116, 104]
  const NAME: Text := [110, 97, 109, 101]
  const PIECE_LENGTH: Text := [112, 105, 101, 99, 101, 32] + LENGTH
  const PIECES: Text := [112, 105, 101, 99, 101, 115]

  const PIECE := 256
  const DIGEST := 20

  // ----- ints

  /** The conversion to int. */
  function AsInt32(i: int): (r: int)
    ensures INT_MIN <= r <= INT_MAX
  {
    (i + 0x8000_0000) % 0x1_0000_0000 - 0x8000_0000
  }

  lemma {:induction false} AsInt32Keeps(i: int)
    ensures AsInt32(i) == i <==> INT_MIN <= i <= INT_MAX
    ensures i >= 0 ==> AsInt32(i) <= i
  {
  }

  /** C's division, which truncates toward zero, and its remainder, which has the dividend's sign. */
  function Quotient(a: int, b: int): int
    requires b != 0
  {
    var q := Abs(a) / Abs(b);
    if (a < 0) == (b < 0) then q else -q
  }

  function Remainder(a: int, b: int): int
    requires b != 0
  {
    var r := Abs(a) % Abs(b);
    if a < 0 then -r else r
  }

  function Abs(a: int): (r: nat)
    ensures a != 0 ==> r > 0
  {
    if a < 0 then -a else a
  }

  // ----- writing

  type Digest = s: Text | |s| == DIGEST witness seq(DIGEST, _ => 0)

  /** What infoDict finds in memory: the buffer before the first read, and the bytes behind the buffer when hash k is taken. */
  datatype Memory = Memory(stale: Text, behind: nat -> Text)

  type Stack = m: Memory | |m.stale| == PIECE witness Memory(seq(PIECE, _ => 0), _ => [])

  /** The 256-byte buffer when the k-th hash is taken: a short read leaves the older bytes behind it. */
  function Buffered(file: Text, mem: Stack, k: nat): (b: Text)
    requires PIECE * k <= |file|
    ensures |b| == PIECE
  {
    var lo := PIECE * k;
    if lo + PIECE <= |file| then file[lo..lo + PIECE]
    else
      var before := if k == 0 then mem.stale else file[lo - PIECE..lo];
      file[lo..] + before[|file| - lo..]
  }

  /** The bytes given to the k-th SHA1. Their number is strlen of the buffer, which has no room for a closing zero: if there
      is none in it, the bytes behind it count until one comes. */
  function HashInput(file: Text, mem: Stack, k: nat): Text
    requires PIECE * k <= |file|
  {
    CStr(Buffered(file, mem, k) + mem.behind(k))
  }

  /** The k-th hash written, with sha for SHA-1. */
  function HashAt(file: Text, mem: Stack, sha: Text -> Digest, k: nat): Digest
    requires PIECE * k <= |file|
  {
    sha(HashInput(file, mem, k))
  }

  function Digests(file: Text, mem: Stack, sha: Text -> Digest, n: nat): (ds: seq<Digest>)
    requires PIECE * n <= |file| + PIECE
    ensures |ds| == n && forall k | 0 <= k < n :: ds[k] == HashAt(file, mem, sha, k)
  {
    seq(n, k requires 0 <= k < n => HashAt(file, mem, sha, k))
  }

  function Joint(ds: seq<Digest>): Text
  {
    if |ds| == 0 then [] else Joint(ds[..|ds| - 1]) + ds[|ds| - 1]
  }

  /** The hashes one after the other. */
  function Hashes(file: Text, mem: Stack, sha: Text -> Digest, n: nat): Text
    requires PIECE * n <= |file| + PIECE
  {
    Joint(Digests(file, mem, sha, n))
  }

  function HashCount(file: Text): (n: nat)
    ensures PIECE * n <= |file| + PIECE
  {
    |file| / PIECE + 1
  }

  /** fread: up to PIECE bytes go to the front of the buffer. */
  method Fread(file: Text, at: nat, buffer: Text) returns (n: nat, filled: Text)
    requires at <= |file| && |buffer| == PIECE
    ensures n == (if |file| - at >= PIECE then PIECE else |file| - at) && filled == file[at..at + n] + buffer[n..]
  {
    n := if |file| - at >= PIECE then PIECE else |file| - at;
    filled := file[at..at + n] + buffer[n..];
  }

  lemma {:induction false} BufferedFirst(file: Text, mem: Stack, n: nat)
    requires n == if |file| >= PIECE then PIECE else |file|
    ensures Buffered(file, mem, 0) == file[0..n] + mem.stale[n..]
  {
  }

  lemma {:induction false} BufferedNext(file: Text, mem: Stack, k: nat, next: nat, at: nat, n: nat)
    requires next == k + 1 && at == PIECE * next <= |file|
    requires n == if |file| - at >= PIECE then PIECE else |file| - at
    ensures Buffered(file, mem, next) == file[at..at + n] + Buffered(file, mem, k)[n..]
  {
    FullBuffer(file, mem, k, at - PIECE);
    if n == PIECE {
      FullBuffer(file, mem, next, at);
    }
  }

  lemma {:induction false} FullBuffer(file: Text, mem: Stack, k: nat, lo: nat)
    requires lo == PIECE * k && lo + PIECE <= |file|
    ensures Buffered(file, mem, k) == file[lo..lo + PIECE]
  {
  }

  /** Appends the k-th hash. */
  method AppendHash(file: Text, mem: Stack, sha: Text -> Digest, hashes: Text, buffer: Text, k: nat)
    returns (longer: Text, next: nat)
    requires PIECE * k <= |file| && hashes == Hashes(file, mem, sha, k) && buffer == Buffered(file, mem, k)
    ensures longer == hashes + HashAt(file, mem, sha, k)
    ensures next == k + 1 && longer == Hashes(file, mem, sha, next)
  {
    longer, next := hashes + sha(CStr(buffer + mem.behind(k))), k + 1;
    assert Digests(file, mem, sha, next)[..k] == Digests(file, mem, sha, k);
  }

  method HashPieces(file: Text, mem: Stack, sha: Text -> Digest) returns (hashes: Text)
    ensures hashes == Hashes(file, mem, sha, HashCount(file))
    ensures AllHashed(hashes, file, mem, sha)
  {
    HashesAreAll(file, mem, sha);
    hashes := [];
    var at, k := 0, 0;
    var next: nat;
    var n, buffer := Fread(file, at, mem.stale);
    BufferedFirst(file, mem, n);
    while n == PIECE
      invariant at == PIECE * k <= |file| && hashes == Hashes(file, mem, sha, k)
      invariant n == (if |file| - at >= PIECE then PIECE else |file| - at) && buffer == Buffered(file, mem, k)
      decreases |file| - at
    {
      hashes, next := AppendHash(file, mem, sha, hashes, buffer, k);
      at := at + PIECE;
      n, buffer := Fread(file, at, buffer);
      BufferedNext(file, mem, k, next, at, n);
      k := next;
    }
    hashes, next := AppendHash(file, mem, sha, hashes, buffer, k);
    assert HashCount(file) == next;
  }

  /** One hash of 20 bytes for each full read of 256 bytes, and one more, each over the buffer as it stands. */
  ghost predicate AllHashed(hashes: Text, file: Text, mem: Stack, sha: Text -> Digest)
  {
    exists n: nat ::
      && |hashes| == 20 * n && 256 * n <= |file| + 256 && |file| < 256 * n
      && (forall k | 0 <= k < n :: hashes[20 * k..20 * k + 20] == HashAt(file, mem, sha, k))
      && hashes[20 * (n - 1)..] == sha(CStr(LastBuffer(file, mem) + mem.behind(n - 1)))
  }

  /** What is in the buffer after the last read: what that read got, then the rest of the bytes of the read before. */
  function LastBuffer(file: Text, mem: Stack): Text
  {
    var left := |file| % 256;
    var before := if |file| < 256 then mem.stale else file[|file| - left - 256..|file| - left];
    file[|file| - left..] + before[left..]
  }

  lemma {:induction false} HashesAreAll(file: Text, mem: Stack, sha: Text -> Digest)
    ensures AllHashed(Hashes(file, mem, sha, HashCount(file)), file, mem, sha)
  {
    var n := HashCount(file);
    var hashes := Hashes(file, mem, sha, n);
    forall k | 0 <= k < n ensures |hashes| == 20 * n && hashes[20 * k..20 * k + 20] == HashAt(file, mem, sha, k) {
      HashSlice(file, mem, sha, n, k);
    }
    LastBuffered(file, mem);
    ToTheEnd(hashes, 20 * (n - 1), 20 * (n - 1) + 20);
  }

  lemma {:induction false} ToTheEnd(s: Text, lo: nat, hi: nat)
    requires lo <= hi == |s|
    ensures s[lo..] == s[lo..hi]
  {
  }

  lemma {:induction false} LastBuffered(file: Text, mem: Stack)
    ensures Buffered(file, mem, HashCount(file) - 1) == LastBuffer(file, mem)
  {
  }

  function InfoPairs(name: CString, length: int, hashes: Text): seq<Pair>
  {
    [Pair(LENGTH, BeInt(length)), Pair(NAME, BeStr(name)), Pair(PIECE_LENGTH, BeInt(PIECE)), Pair(PIECES, BeStr(hashes))]
  }

  function FilePairs(address: CString, info: Be): seq<Pair>
  {
    [Pair(ANNOUNCE, BeStr(address)), Pair(INFO, info)]
  }

  /** The value a metainfo file holds; the file's length is printed as an int. */
  function FileValue(name: CString, address: CString, file: Text, mem: Stack, sha: Text -> Digest): Be
  {
    BeDict(FilePairs(address, BeDict(InfoPairs(name, AsInt32(|file|), Hashes(file, mem, sha, HashCount(file))))))
  }

  lemma {:induction false} EncodePairsSnoc(ps: seq<Pair>, p: Pair)
    ensures EncodePairs(ps + [p]) == EncodePairs(ps) + (EncodeString(p.key) + Encode(p.val))
  {
    if |ps| > 0 {
      assert (ps + [p])[1..] == ps[1..] + [p];
      EncodePairsSnoc(ps[1..], p);
      ConcatAssoc(EncodeString(ps[0].key) + Encode(ps[0].val), EncodePairs(ps[1..]), EncodeString(p.key) + Encode(p.val));
    } else {
      assert (ps + [p])[1..] == [];
    }
  }

  /** A key and a value appended to an open dictionary. */
  lemma {:induction false} AppendPair(ps: seq<Pair>, p: Pair)
    ensures [DICT] + EncodePairs(ps) + EncodeString(p.key) + Encode(p.val) == [DICT] + EncodePairs(ps + [p])
  {
    EncodePairsSnoc(ps, p);
    ConcatFour([DICT], EncodePairs(ps), EncodeString(p.key), Encode(p.val));
  }

  method AppendField(ans: Text, ghost ps: seq<Pair>, p: Pair) returns (longer: Text)
    requires ans == [DICT] + EncodePairs(ps)
    ensures longer == [DICT] + EncodePairs(ps + [p])
  {
    longer := ans + EncodeString(p.key);
    longer := longer + Encode(p.val);
    AppendPair(ps, p);
  }

  method InfoDict(name: CString, file: Text, mem: Stack, sha: Text -> Digest) returns (ans: Text)
    ensures ans == Encode(BeDict(InfoPairs(name, AsInt32(|file|), Hashes(file, mem, sha, HashCount(file)))))
  {
    ans := [DICT];
    var p0, p1, p2 := Pair(LENGTH, BeInt(AsInt32(|file|))), Pair(NAME, BeStr(name)), Pair(PIECE_LENGTH, BeInt(PIECE));
    ans := AppendField(ans, [], p0);
    ans := AppendField(ans, [] + [p0], p1);
    ans := AppendField(ans, [] + [p0] + [p1], p2);
    ans := AppendPieces(ans, [] + [p0] + [p1] + [p2], file, mem, sha);
    ans := ans + [END];
    ghost var hashes := Hashes(file, mem, sha, HashCount(file));
    assert [] + [p0] + [p1] + [p2] + [Pair(PIECES, BeStr(hashes))] == InfoPairs(name, AsInt32(|file|), hashes);
  }

  method AppendPieces(ans: Text, ghost ps: seq<Pair>, file: Text, mem: Stack, sha: Text -> Digest) returns (longer: Text)
    requires ans == [DICT] + EncodePairs(ps)
    ensures longer == [DICT] + EncodePairs(ps + [Pair(PIECES, BeStr(Hashes(file, mem, sha, HashCount(file))))])
  {
    var hashes := HashPieces(file, mem, sha);
    longer := AppendField(ans, ps, Pair(PIECES, BeStr(hashes)));
  }

  function Joined(parts: seq<Text>, i: nat): Text
    requires i <= |parts|
  {
    if i == 0 then [] else Joined(parts, i - 1) + parts[i - 1]
  }

  /** encodeDict, and the same loop in encodeFile: the parts are already encoded. */
  method EncodeDict(parts: seq<Text>) returns (ans: Text)
    ensures ans == [DICT] + Joined(parts, |parts|) + [END]
  {
    ans := [DICT];
    var i := 0;
    while i < |parts|
      invariant i <= |parts| && ans == [DICT] + Joined(parts, i)
    {
      ans := ans + parts[i];
      i := i + 1;
    }
    ans := ans + [END];
  }

  method EncodeFile(name: CString, address: CString, file: Text, mem: Stack, sha: Text -> Digest) returns (ans: Text)
    ensures ans == Encode(FileValue(name, address, file, mem, sha))
  {
    var info := InfoDict(name, file, mem, sha);
    ans := EncodeDict([EncodeString(ANNOUNCE), EncodeString(address), EncodeString(INFO), info]);
    FileText(address, BeDict(InfoPairs(name, AsInt32(|file|), Hashes(file, mem, sha, HashCount(file)))));
  }

  lemma {:induction false} FileText(address: CString, info: Be)
    ensures EncodePairs(FilePairs(address, info)) ==
            Joined([EncodeString(ANNOUNCE), EncodeString(address), EncodeString(INFO), Encode(info)], 4)
  {
    var p, q := Pair(ANNOUNCE, BeStr(address)), Pair(INFO, info);
    EncodePairsSnoc([], p);
    EncodePairsSnoc([p], q);
    assert FilePairs(address, info) == [p] + [q] && [p] == [] + [p];
    JoinedFour(EncodeString(ANNOUNCE), EncodeString(address), EncodeString(INFO), Encode(info));
  }

  lemma {:induction false} JoinedFour(a: Text, b: Text, c: Text, d: Text)
    ensures Joined([a, b, c, d], 4) == (a + b) + (c + d)
  {
    var parts := [a, b, c, d];
    assert Joined(parts, 1) == a;
    assert Joined(parts, 2) == a + b;
    assert Joined(parts, 3) == a + b + c;
  }

  // ----- reading

  /** bt_info_t. */
  datatype Info = Info(announce: Text, name: Text, length: int, pieceLength: int, numPieces: int, hashes: seq<Text>)

  /** What of a tree's strings a field can use: nothing if the node is not a string or holds none. */
  function StrOf(n: Node): Option<Text>
  {
    if n.StrNode? then n.s else None
  }

  function Pieces(length: int, pieceLength: int): int
    requires pieceLength != 0
  {
    Quotient(length, pieceLength) + if Remainder(length, pieceLength) > 0 then 1 else 0
  }

  /** n blocks of 20 bytes from the front of a C string's bytes, its closing zero included. */
  function Slices(s: Text, n: int): (r: seq<Text>)
    requires DIGEST * n <= |s| + 1
    ensures n >= 0 ==> |r| == n
  {
    seq(if n < 0 then 0 else n, k requires 0 <= k < n => (s + [0])[DIGEST * k..DIGEST * k + DIGEST])
  }

  /** One entry of the info dictionary. None stands for what C gives no meaning: a null pointer read, a division by zero
      or too large, bytes read behind the end of a string, or a value taken for one of another type. */
  function InfoField(out: Info, key: Text, n: Node): Option<Info>
  {
    var k := CStr(key);
    if k == NAME then
      match StrOf(n) case None => None case Some(s) => Some(out.(name := CStr(s)))
    else if k == LENGTH then
      if n.IntNode? then Some(out.(length := AsInt32(n.i))) else None
    else if k == PIECE_LENGTH then
      if !n.IntNode? then None
      else
        var pieceLength := AsInt32(n.i);
        if pieceLength == 0 || (pieceLength == -1 && out.length == INT_MIN) then None
        else Some(out.(pieceLength := pieceLength, numPieces := Pieces(out.length, pieceLength)))
    else if k == PIECES then
      match StrOf(n)
      case None => None
      case Some(s) => if DIGEST * out.numPieces > |s| + 1 then None else Some(out.(hashes := Slices(s, out.numPieces)))
    else Some(out)
  }

  /** The inner loop: it ends at an entry without a value, and strcmp needs a key. */
  function InfoFields(out: Info, es: seq<DictEntry>): Option<Info>
    decreases |es|
  {
    if |es| == 0 || es[0].val.None? then Some(out)
    else if es[0].key.None? then None
    else
      match InfoField(out, es[0].key.value, es[0].val.value)
      case None => None
      case Some(next) => InfoFields(next, es[1..])
  }

  function FileField(out: Info, key: Text, n: Node): Option<Info>
  {
    var k := CStr(key);
    if k == ANNOUNCE then
      match StrOf(n) case None => None case Some(s) => Some(out.(announce := CStr(s)))
    else if k == INFO then
      if n.DictNode? then InfoFields(out, n.entries) else None
    else Some(out)
  }

  function FileFields(out: Info, es: seq<DictEntry>): Option<Info>
    decreases |es|
  {
    if |es| == 0 || es[0].val.None? then Some(out)
    else if es[0].key.None? then None
    else
      match FileField(out, es[0].key.value, es[0].val.value)
      case None => None
      case Some(next) => FileFields(next, es[1..])
  }

  class BtInfo {
    var announce: Text
    var name: Text
    var length: int
    var pieceLength: int
    var numPieces: int
    var hashes: seq<Text>

    ghost function Contents(): Info
      reads this
    {
      Info(announce, name, length, pieceLength, numPieces, hashes)
    }

    /** malloc: whatever the memory held. */
    constructor (garbage: Info)
      ensures Contents() == garbage
    {
      announce, name, length := garbage.announce, garbage.name, garbage.length;
      pieceLength, numPieces, hashes := garbage.pieceLength, garbage.numPieces, garbage.hashes;
    }

    method ReadInfoField(key: Text, n: Node)
      requires InfoField(Contents(), key, n).Some?
      modifies this
      ensures Some(Contents()) == InfoField(old(Contents()), key, n)
    {
      if CStr(key) == NAME {
        name := CStr(n.s.value);
      } else if CStr(key) == LENGTH {
        length := AsInt32(n.i);
      } else if CStr(key) == PIECE_LENGTH {
        pieceLength := AsInt32(n.i);
        numPieces := Quotient(length, pieceLength);
        if Remainder(length, pieceLength) > 0 {
          numPieces := numPieces + 1;
        }
      } else if CStr(key) == PIECES {
        CopyHashes(n.s.value);
      }
    }

    method CopyHashes(s: Text)
      requires DIGEST * numPieces <= |s| + 1
      modifies this`hashes
      ensures hashes == Slices(s, numPieces)
    {
      hashes := [];
      var k := 0;
      while k < numPieces
        invariant 0 <= k && (k <= numPieces || k == 0)
        invariant |hashes| == k && forall j | 0 <= j < k :: hashes[j] == (s + [0])[DIGEST * j..DIGEST * j + DIGEST]
      {
        hashes := hashes + [(s + [0])[DIGEST * k..DIGEST * k + DIGEST]];
        k := k + 1;
      }
    }

    method ReadInfo(es: seq<DictEntry>)
      requires InfoFields(Contents(), es).Some?
      modifies this
      ensures Some(Contents()) == InfoFields(old(Contents()), es)
    {
      var j := 0;
      while j < |es| && es[j].val.Some?
        invariant j <= |es|
        invariant InfoFields(Contents(), es[j..]) == InfoFields(old(Contents()), es)
        decreases |es| - j
      {
        ReadInfoField(es[j].key.value, es[j].val.value);
        assert es[j..][1..] == es[j + 1..];
        j := j + 1;
      }
    }

    method ReadFileField(key: Text, n: Node)
      requires FileField(Contents(), key, n).Some?
      modifies this
      ensures Some(Contents()) == FileField(old(Contents()), key, n)
    {
      if CStr(key) == ANNOUNCE {
        announce := CStr(n.s.value);
      } else if CStr(key) == INFO {
        ReadInfo(n.entries);
      }
    }

    /** decodeFile, from the decoded tree. */
    method ReadFile(es: seq<DictEntry>)
      requires FileFields(Contents(), es).Some?
      modifies this
      ensures Some(Contents()) == FileFields(old(Contents()), es)
    {
      var i := 0;
      while i < |es| && es[i].val.Some?
        invariant i <= |es|
        invariant FileFields(Contents(), es[i..]) == FileFields(old(Contents()), es)
        decreases |es| - i
      {
        ReadFileField(es[i].key.value, es[i].val.value);
        assert es[i..][1..] == es[i + 1..];
        i := i + 1;
      }
    }
  }

  // ----- reading back what was written

  lemma {:induction false} KeyIsItself(key: Text)
    requires key == PIECE_LENGTH
    ensures CStr(key) == key
  {
    CStrAppend([112, 105, 101, 99, 101, 32], LENGTH);
    CStrWhole(LENGTH);
  }

  lemma {:induction false} ReadLength(out: Info, i: int)
    ensures InfoField(out, LENGTH, IntNode(i)) == Some(out.(length := AsInt32(i)))
  {
    CStrWhole(LENGTH);
  }

  lemma {:induction false} ReadName(out: Info, name: CString)
    ensures InfoField(out, NAME, StrNode(Some(name))) == Some(out.(name := name))
  {
    CStrWhole(NAME);
    CStrWhole(name);
  }

  lemma {:induction false} ReadPieceLength(out: Info)
    ensures InfoField(out, PIECE_LENGTH, IntNode(PIECE)) ==
            Some(out.(pieceLength := PIECE, numPieces := Pieces(out.length, PIECE)))
  {
    KeyIsItself(PIECE_LENGTH);
    assert |PIECE_LENGTH| == 12 && |NAME| == 4 && |LENGTH| == 6;
  }

  lemma {:induction false} ReadPieces(out: Info, hashes: Text)
    requires DIGEST * out.numPieces <= |hashes| + 1
    ensures InfoField(out, PIECES, StrNode(Some(hashes))) == Some(out.(hashes := Slices(hashes, out.numPieces)))
  {
    CStrWhole(PIECES);
  }

  lemma {:induction false} ReadAnnounce(out: Info, address: CString)
    ensures FileField(out, ANNOUNCE, StrNode(Some(address))) == Some(out.(announce := address))
  {
    CStrWhole(ANNOUNCE);
    CStrWhole(address);
  }

  lemma {:induction false} ReadInfoDict(out: Info, es: seq<DictEntry>)
    ensures FileField(out, INFO, DictNode(es)) == InfoFields(out, es)
  {
    CStrWhole(INFO);
  }

  lemma {:induction false} InfoFieldsCons(out: Info, p: Pair, ps: seq<Pair>)
    ensures InfoFields(out, PairImages([p] + ps)) ==
            match InfoField(out, p.key, Image(p.val)) case None => None case Some(next) => InfoFields(next, PairImages(ps))
  {
    assert ([p] + ps)[1..] == ps;
    assert PairImages([p] + ps)[1..] == PairImages(ps);
  }

  lemma {:induction false} FileFieldsCons(out: Info, p: Pair, ps: seq<Pair>)
    ensures FileFields(out, PairImages([p] + ps)) ==
            match FileField(out, p.key, Image(p.val)) case None => None case Some(next) => FileFields(next, PairImages(ps))
  {
    assert ([p] + ps)[1..] == ps;
    assert PairImages([p] + ps)[1..] == PairImages(ps);
  }

  /** The info dictionary read back: length comes before piece length, and that before pieces, as the reader needs. */
  lemma {:induction false} InfoReadBack(out: Info, name: CString, length: int, hashes: Text)
    requires AsInt32(length) == length && DIGEST * Pieces(length, PIECE) <= |hashes| + 1
    ensures InfoFields(out, PairImages(InfoPairs(name, length, hashes))) ==
            Some(Info(out.announce, name, length, PIECE, Pieces(length, PIECE), Slices(hashes, Pieces(length, PIECE))))
  {
    var p0, p1, p2, p3 := Pair(LENGTH, BeInt(length)), Pair(NAME, BeStr(name)), Pair(PIECE_LENGTH, BeInt(PIECE)),
        Pair(PIECES, BeStr(hashes));
    assert InfoPairs(name, length, hashes) == [p0] + ([p1] + ([p2] + ([p3] + [])));
    var o1 := out.(length := length);
    var o2 := o1.(name := name);
    var o3 := o2.(pieceLength := PIECE, numPieces := Pieces(length, PIECE));
    InfoFieldsCons(out, p0, [p1] + ([p2] + ([p3] + [])));
    InfoFieldsCons(o1, p1, [p2] + ([p3] + []));
    InfoFieldsCons(o2, p2, [p3] + []);
    InfoFieldsCons(o3, p3, []);
    ReadLength(out, length);
    ReadName(o1, name);
    ReadPieceLength(o2);
    ReadPieces(o3, hashes);
  }

  lemma {:induction false} FileReadBack(out: Info, name: CString, address: CString, length: int, hashes: Text)
    requires AsInt32(length) == length && DIGEST * Pieces(length, PIECE) <= |hashes| + 1
    ensures FileFields(out, PairImages(FilePairs(address, BeDict(InfoPairs(name, length, hashes))))) ==
            Some(Info(address, name, length, PIECE, Pieces(length, PIECE), Slices(hashes, Pieces(length, PIECE))))
  {
    var info := BeDict(InfoPairs(name, length, hashes));
    var p0, p1 := Pair(ANNOUNCE, BeStr(address)), Pair(INFO, info);
    assert FilePairs(address, info) == [p0] + ([p1] + []);
    FileFieldsCons(out, p0, [p1] + []);
    FileFieldsCons(out.(announce := address), p1, []);
    ReadAnnounce(out, address);
    ReadInfoDict(out.(announce := address), PairImages(InfoPairs(name, length, hashes)));
    InfoReadBack(out.(announce := address), name, length, hashes);
  }

  lemma {:induction false} JointSize(ds: seq<Digest>)
    ensures |Joint(ds)| == DIGEST * |ds|
  {
    if |ds| > 0 {
      JointSize(ds[..|ds| - 1]);
    }
  }

  lemma {:induction false} JointSlice(ds: seq<Digest>, k: nat, lo: nat, hi: nat)
    requires k < |ds| && lo == DIGEST * k && hi == lo + DIGEST
    ensures hi <= |Joint(ds)| && Joint(ds)[lo..hi] == ds[k]
  {
    var front, last := ds[..|ds| - 1], ds[|ds| - 1];
    JointSize(ds);
    JointSize(front);
    if k < |front| {
      JointSlice(front, k, lo, hi);
      SliceOfFront(Joint(front), last, lo, hi);
    } else {
      SliceOfBack(Joint(front), last, lo, hi);
    }
  }

  /** Hash k is the k-th block of 20 bytes. */
  lemma {:induction false} HashSlice(file: Text, mem: Stack, sha: Text -> Digest, n: nat, k: nat)
    requires PIECE * n <= |file| + PIECE && k < n
    ensures |Hashes(file, mem, sha, n)| == DIGEST * n
    ensures Hashes(file, mem, sha, n)[DIGEST * k..DIGEST * k + DIGEST] == HashAt(file, mem, sha, k)
  {
    JointSize(Digests(file, mem, sha, n));
    JointSlice(Digests(file, mem, sha, n), k, DIGEST * k, DIGEST * k + DIGEST);
  }

  lemma {:induction false} SliceOfFront(a: Text, b: Text, lo: nat, hi: nat)
    requires lo <= hi <= |a|
    ensures (a + b)[lo..hi] == a[lo..hi]
  {
  }

  lemma {:induction false} SliceOfBack(a: Text, b: Text, lo: nat, hi: nat)
    requires lo == |a| && hi == lo + |b|
    ensures (a + b)[lo..hi] == b
  {
  }

  /** The number of pieces is the length over the piece length, rounded up, also for a length that has wrapped around. */
  lemma {:induction false} PiecesIsCeiling(length: int, pieceLength: int)
    requires pieceLength > 0
    ensures pieceLength * (Pieces(length, pieceLength) - 1) < length <= pieceLength * Pieces(length, pieceLength)
  {
    var a := Abs(length);
    var q, r := a / pieceLength, a % pieceLength;
    DivMod(a, pieceLength, q, r);
    if length < 0 {
      assert Pieces(length, pieceLength) == -q;
    } else {
      assert Pieces(length, pieceLength) == if r > 0 then q + 1 else q;
    }
  }

  lemma {:induction false} DivMod(a: int, d: int, q: int, r: int)
    requires a >= 0 && d > 0 && q == a / d && r == a % d
    ensures a == d * q + r && r < d
    ensures d * (q + 1) == d * q + d && d * (q - 1) == d * q - d && d * -q == -(d * q) && d * (-q - 1) == -(d * q) - d
  {
  }

  /** decodeFile's reading of a text: what it makes of the tree, when the text is a dictionary. */
  function ReadMetainfo(text: Text, out: Info): Option<Info>
  {
    match Decode(text)
    case Undefined => None
    case Result(None, _, _) => None
    case Result(Some(n), _, _) => if n.DictNode? then FileFields(out, n.entries) else None
  }

  predicate LengthsFit(name: CString, address: CString, file: Text)
  {
    |name| <= LLONG_MAX && |address| <= LLONG_MAX && |file| <= LLONG_MAX
  }

  lemma {:induction false} FileValueIsSound(name: CString, address: CString, length: int, hashes: Text)
    requires |name| <= LLONG_MAX && |address| <= LLONG_MAX && |hashes| <= LLONG_MAX && AsInt32(length) == length
    ensures var v := BeDict(FilePairs(address, BeDict(InfoPairs(name, length, hashes)))); InRange(v) && NonEmpty(v)
  {
    PairsAreSound(Pair(PIECES, BeStr(hashes)), []);
    PairsAreSound(Pair(PIECE_LENGTH, BeInt(PIECE)), [Pair(PIECES, BeStr(hashes))]);
    PairsAreSound(Pair(NAME, BeStr(name)), [Pair(PIECE_LENGTH, BeInt(PIECE)), Pair(PIECES, BeStr(hashes))]);
    PairsAreSound(Pair(LENGTH, BeInt(length)),
                  [Pair(NAME, BeStr(name)), Pair(PIECE_LENGTH, BeInt(PIECE)), Pair(PIECES, BeStr(hashes))]);
    assert InfoPairs(name, length, hashes) ==
           [Pair(LENGTH, BeInt(length))] + [Pair(NAME, BeStr(name)), Pair(PIECE_LENGTH, BeInt(PIECE)), Pair(PIECES, BeStr(hashes))];
    assert [Pair(NAME, BeStr(name)), Pair(PIECE_LENGTH, BeInt(PIECE)), Pair(PIECES, BeStr(hashes))] ==
           [Pair(NAME, BeStr(name))] + [Pair(PIECE_LENGTH, BeInt(PIECE)), Pair(PIECES, BeStr(hashes))];
    assert [Pair(PIECE_LENGTH, BeInt(PIECE)), Pair(PIECES, BeStr(hashes))] ==
           [Pair(PIECE_LENGTH, BeInt(PIECE))] + [Pair(PIECES, BeStr(hashes))];
    assert [Pair(PIECES, BeStr(hashes))] == [Pair(PIECES, BeStr(hashes))] + [];
    var info := BeDict(InfoPairs(name, length, hashes));
    PairsAreSound(Pair(INFO, info), []);
    PairsAreSound(Pair(ANNOUNCE, BeStr(address)), [Pair(INFO, info)]);
    assert FilePairs(address, info) == [Pair(ANNOUNCE, BeStr(address))] + [Pair(INFO, info)];
    assert [Pair(INFO, info)] == [Pair(INFO, info)] + [];
  }

  lemma {:induction false} PairsAreSound(p: Pair, ps: seq<Pair>)
    ensures InRangePairs([p] + ps) == (|p.key| <= LLONG_MAX && InRange(p.val) && InRangePairs(ps))
    ensures NonEmptyPairs([p] + ps) == (NonEmpty(p.val) && NonEmptyPairs(ps))
  {
    assert ([p] + ps)[1..] == ps;
  }

  /** The first m of these hashes are those taken of the file. */
  ghost predicate AsTaken(hashes: seq<Text>, file: Text, mem: Stack, sha: Text -> Digest, m: int)
  {
    m <= |hashes| && forall k | 0 <= k < m :: PIECE * k <= |file| && hashes[k] == HashAt(file, mem, sha, k)
  }

  /**
   Main result: a metainfo file, whatever follows it, reads back as its address, its name, its length as an int and the
   piece length, with the number of pieces these give, and the k-th hash as it was taken. Nothing depends on what the
   structure held before.
   */
  lemma {:induction false} MetainfoRoundTrip(name: CString, address: CString, file: Text, mem: Stack, sha: Text -> Digest,
                                             rest: Text, garbage: Info)
    requires LengthsFit(name, address, file)
    ensures var length := AsInt32(|file|);
            var back := ReadMetainfo(Encode(FileValue(name, address, file, mem, sha)) + rest, garbage);
            back.Some? && back.value.announce == address && back.value.name == name && back.value.length == length &&
            back.value.pieceLength == PIECE && back.value.numPieces == Pieces(length, PIECE) &&
            AsTaken(back.value.hashes, file, mem, sha, Pieces(length, PIECE))
  {
    var length, n := AsInt32(|file|), HashCount(file);
    AsInt32Keeps(length);
    HashesSuffice(file, mem, sha);
    TextReadBack(name, address, length, Hashes(file, mem, sha, n), rest, garbage);
    SlicesAreHashes(file, mem, sha, n, Pieces(length, PIECE));
  }

  /** The hashes are not too many to print and enough for the pieces. */
  lemma {:induction false} HashesSuffice(file: Text, mem: Stack, sha: Text -> Digest)
    requires |file| <= LLONG_MAX
    ensures var m, size := Pieces(AsInt32(|file|), PIECE), |Hashes(file, mem, sha, HashCount(file))|;
            size <= LLONG_MAX && DIGEST * m <= size + 1 && m <= HashCount(file)
  {
    JointSize(Digests(file, mem, sha, HashCount(file)));
    AsInt32Keeps(|file|);
    PiecesCovered(AsInt32(|file|), |file|);
  }

  lemma {:induction false} TextReadBack(name: CString, address: CString, length: int, hashes: Text, rest: Text, garbage: Info)
    requires |name| <= LLONG_MAX && |address| <= LLONG_MAX && |hashes| <= LLONG_MAX && AsInt32(length) == length
    requires DIGEST * Pieces(length, PIECE) <= |hashes| + 1
    ensures ReadMetainfo(Encode(BeDict(FilePairs(address, BeDict(InfoPairs(name, length, hashes))))) + rest, garbage) ==
            Some(Info(address, name, length, PIECE, Pieces(length, PIECE), Slices(hashes, Pieces(length, PIECE))))
  {
    FileValueIsSound(name, address, length, hashes);
    DecodeEncode(BeDict(FilePairs(address, BeDict(InfoPairs(name, length, hashes)))), rest);
    FileReadBack(garbage, name, address, length, hashes);
  }

  lemma {:induction false} SlicesAreHashes(file: Text, mem: Stack, sha: Text -> Digest, n: nat, m: int)
    requires PIECE * n <= |file| + PIECE && m <= n
    ensures |Hashes(file, mem, sha, n)| == DIGEST * n
    ensures AsTaken(Slices(Hashes(file, mem, sha, n), m), file, mem, sha, m)
  {
    if n > 0 {
      HashSlice(file, mem, sha, n, 0);
    }
    forall k | 0 <= k < m
      ensures PIECE * k <= |file| && Slices(Hashes(file, mem, sha, n), m)[k] == HashAt(file, mem, sha, k)
    {
      SliceIsHash(file, mem, sha, n, m, k);
    }
  }

  lemma {:induction false} SliceIsHash(file: Text, mem: Stack, sha: Text -> Digest, n: nat, m: int, k: nat)
    requires PIECE * n <= |file| + PIECE && k < m <= n && |Hashes(file, mem, sha, n)| == DIGEST * n
    ensures Slices(Hashes(file, mem, sha, n), m)[k] == HashAt(file, mem, sha, k)
  {
    HashSlice(file, mem, sha, n, k);
    SliceOfFront(Hashes(file, mem, sha, n), [0], DIGEST * k, DIGEST * k + DIGEST);
  }

  /** However the length wraps as an int, the hashes written cover the pieces read. */
  lemma {:induction false} PiecesCovered(length: int, size: nat)
    requires length <= size
    ensures Pieces(length, PIECE) <= size / PIECE + 1
  {
  }

  /** The file's own length comes back exactly if it fits an int; then the pieces are its length over 256, rounded up. */
  lemma {:induction false} LengthComesBackIff(name: CString, address: CString, file: Text,
                                              mem: Stack, sha: Text -> Digest, rest: Text, garbage: Info)
    requires LengthsFit(name, address, file)
    ensures var back := ReadMetainfo(Encode(FileValue(name, address, file, mem, sha)) + rest, garbage);
            back.Some? && (back.value.length == |file| <==> |file| <= INT_MAX) &&
            (|file| <= INT_MAX ==> PIECE * (back.value.numPieces - 1) < |file| <= PIECE * back.value.numPieces)
  {
    MetainfoRoundTrip(name, address, file, mem, sha, rest, garbage);
    AsInt32Keeps(|file|);
    PiecesIsCeiling(|file|, PIECE);
  }

  /** A file of 2^31 bytes comes back with a negative length and no pieces. */
  lemma {:induction false} LongFileExample(name: CString, address: CString, mem: Stack, sha: Text -> Digest, rest: Text,
                                           garbage: Info)
    requires |name| <= LLONG_MAX && |address| <= LLONG_MAX
    ensures var back := ReadMetainfo(Encode(FileValue(name, address, seq(0x8000_0000, _ => 0), mem, sha)) + rest, garbage);
            back.Some? && back.value.length == INT_MIN && back.value.numPieces < 0
  {
    MetainfoRoundTrip(name, address, seq(0x8000_0000, _ => 0), mem, sha, rest, garbage);
  }

  /** The k-th hash is taken over the k-th piece exactly if the piece has no zero byte and the byte behind it in memory is
      one. Where C gives the length a meaning, that is never so for a piece that fills the buffer. */
  lemma {:induction false} HashIsOfPieceIff(file: Text, mem: Stack, k: nat)
    requires PIECE * k < |file|
    ensures var piece, b := PieceOf(file, k), Buffered(file, mem, k);
            var all := b + mem.behind(k);
            (HashInput(file, mem, k) == piece <==> NoNul(piece) && (|all| == |piece| || all[|piece|] == 0)) &&
            (!NoNul(b) ==> (HashInput(file, mem, k) == piece <==> NoNul(piece) && |piece| < PIECE && b[|piece|] == 0))
  {
    PieceInFront(file, mem, k);
    var b, n := Buffered(file, mem, k), |PieceOf(file, k)|;
    var all := b + mem.behind(k);
    assert all[..n] == b[..n] && all == all[..n] + all[n..];
    FrontIsAllIff(all[..n], all[n..]);
    assert n == PIECE ==> b[..n] == b;
  }

  /** The hash depends on the buffer alone, so that C gives it a meaning, exactly if the buffer holds a zero byte. */
  lemma {:induction false} HashIsDefinedIff(file: Text, mem: Stack, k: nat)
    requires PIECE * k <= |file|
    ensures (forall m: Stack | m.stale == mem.stale :: HashInput(file, m, k) == HashInput(file, mem, k)) <==>
            !NoNul(Buffered(file, mem, k))
  {
    var b := Buffered(file, mem, k);
    if NoNul(b) {
      var m, n := Memory(mem.stale, _ => []), Memory(mem.stale, _ => [1]);
      assert Buffered(file, m, k) == b == Buffered(file, n, k);
      assert b + [] == b;
      CStrWhole(b);
      CStrWhole(b + [1]);
      assert |HashInput(file, m, k)| != |HashInput(file, n, k)|;
    } else {
      forall m: Stack | m.stale == mem.stale ensures HashInput(file, m, k) == HashInput(file, mem, k) {
        assert Buffered(file, m, k) == b;
        CStrAppend(b, m.behind(k));
        CStrAppend(b, mem.behind(k));
      }
    }
  }

  /** A piece that starts with a zero byte is hashed as if it were empty, so such pieces cannot be told apart. */
  lemma {:induction false} ZeroFirstIsEmpty(file: Text, mem: Stack, sha: Text -> Digest, k: nat)
    requires PIECE * k < |file| && file[PIECE * k] == 0
    ensures HashAt(file, mem, sha, k) == sha([])
  {
    PieceInFront(file, mem, k);
    assert Buffered(file, mem, k)[0] == PieceOf(file, k)[0];
  }

  /** A full piece of text is hashed together with what lies behind the buffer. */
  lemma {:induction false} TextRunsOver(file: Text, mem: Stack, sha: Text -> Digest)
    requires |file| == PIECE && NoNul(file)
    ensures HashAt(file, mem, sha, 0) == sha(file + CStr(mem.behind(0)))
  {
    FullBuffer(file, mem, 0, 0);
    assert file[0..PIECE] == file;
    CStrAppend(file, mem.behind(0));
  }

  /** Both at concrete files: zeros throughout, and the letter A throughout. */
  lemma {:induction false} HashExamples(mem: Stack, sha: Text -> Digest)
    ensures HashAt(seq(PIECE, _ => 0), mem, sha, 0) == sha([])
    ensures HashAt(seq(PIECE, _ => 65), mem, sha, 0) == sha(seq(PIECE, _ => 65) + CStr(mem.behind(0)))
  {
    ZeroFirstIsEmpty(seq(PIECE, _ => 0), mem, sha, 0);
    TextRunsOver(seq(PIECE, _ => 65), mem, sha);
  }

  function PieceOf(file: Text, k: nat): (piece: Text)
    requires PIECE * k < |file|
    ensures 0 < |piece| <= PIECE
  {
    file[PIECE * k..if PIECE * k + PIECE <= |file| then PIECE * k + PIECE else |file|]
  }

  lemma {:induction false} PieceInFront(file: Text, mem: Stack, k: nat)
    requires PIECE * k < |file|
    ensures Buffered(file, mem, k)[..|PieceOf(file, k)|] == PieceOf(file, k)
  {
  }

  lemma {:induction false} FrontIsAllIff(s: Text, t: Text)
    ensures CStr(s + t) == s <==> NoNul(s) && (|t| == 0 || t[0] == 0)
  {
    CStrAppend(s, t);
    CStrWhole(s);
    CStrNoNul(s);
  }
}
