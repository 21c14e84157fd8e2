/** `.torrent` files: reading one, and generating the dummy used for capture. */
module Torrent {
  import opened Wrappers
  import opened Bytes
  import opened SortedMap
  import opened Bencode
  import opened BencodeLaws
  import opened BencodeDecoder
  import opened InfoHash

  const K_ANNOUNCE: bytes := Ascii("announce")
  const K_NAME: bytes := Ascii("name")
  const K_LENGTH: bytes := Ascii("length")
  const K_FILES: bytes := Ascii("files")
  const K_PIECE_LENGTH: bytes := Ascii("piece length")
  const K_PIECES: bytes := Ascii("pieces")

  const SHA1_LEN: nat := 20
  const CAPTURE_PIECE_LENGTH: nat := 16_384
  const CAPTURE_TORRENT_SIZE: nat := 1_048_576

  datatype Meta<H> = Meta(announceUrl: bytes, infoHash: H, name: bytes, totalSize: nat)

  datatype TorrentError =
    | Undecodable(error: Error)
    | MissingAnnounce
    | HashFailed(reason: HashError)
    | MissingInfo
    | MissingName
    | NoLength

  /** A file's length cast to u64, zero if it has none. */
  function LengthOf(file: Value): nat {
    match GetInt(file, K_LENGTH) case Some(n) => n % U64_MODULUS case None => 0
  }

  /** Addition on u64. */
  function Plus(a: nat, b: nat): nat {
    (a + b) % U64_MODULUS
  }

  /** The sum of the files' lengths. */
  function SumLengths(files: seq<Value>): nat {
    if files == [] then 0
    else Plus(SumLengths(files[..|files| - 1]), LengthOf(files[|files| - 1]))
  }

  function InfoHashOf<H>(data: bytes, sha1: bytes -> H): Result<H, HashError> {
    var slice := InfoSlice(data);
    if slice.Ok? then Result.Ok(sha1(data[slice.value.0..slice.value.1])) else Result.Err(slice.error)
  }

  function Parse<H>(data: bytes, sha1: bytes -> H): Result<Meta<H>, TorrentError> {
    var root := Decode(data);
    if root.Err? then Result.Err(Undecodable(root.error)) else
    var announce := GetStr(root.value, K_ANNOUNCE);
    if announce.None? then Result.Err(MissingAnnounce) else
    var hash := InfoHashOf(data, sha1);
    if hash.Err? then Result.Err(HashFailed(hash.error)) else
    var info := root.value.Get(K_INFO);
    if info.None? then Result.Err(MissingInfo) else
    var name := GetStr(info.value, K_NAME);
    if name.None? then Result.Err(MissingName) else
    var size := TotalSize(info.value);
    if size.None? then Result.Err(NoLength) else
    Result.Ok(Meta(announce.value, hash.value, name.value, size.value))
  }

  function TotalSize(info: Value): Option<nat> {
    match GetInt(info, K_LENGTH)
    case Some(n) => Some(n % U64_MODULUS)
    case None =>
      match info.Get(K_FILES)
      case Some(List(files)) => Some(SumLengths(files))
      case _ => None
  }

  method AddLengths(files: seq<Value>) returns (sum: nat)
    ensures sum == SumLengths(files)
  {
    hide GetInt;
    sum := 0;
    for i := 0 to |files|
      invariant sum == SumLengths(files[..i])
    {
      assert files[..i + 1][..i] == files[..i];
      var length := GetInt(files[i], K_LENGTH);
      sum := (sum + (match length case Some(n) => n % U64_MODULUS case None => 0)) % U64_MODULUS;
    }
    assert files[..|files|] == files;
  }

  /** `parse`: the tree gives the fields, a second walk of the bytes the hash. */
  method ParseTorrent<H>(data: bytes, sha1: bytes -> H) returns (r: Result<Meta<H>, TorrentError>)
    ensures r == Parse(data, sha1)
  {
    hide GetInt, GetStr, SumLengths, InfoSlice, ParseValue;
    var root := DecodeData(data);
    if root.Err? { return Result.Err(Undecodable(root.error)); }
    var announce := GetStr(root.value, K_ANNOUNCE);
    if announce.None? { return Result.Err(MissingAnnounce); }
    var hash := ComputeInfoHash(data, sha1);
    if hash.Err? { return Result.Err(HashFailed(hash.error)); }
    var info := root.value.Get(K_INFO);
    if info.None? { return Result.Err(MissingInfo); }
    var name := GetStr(info.value, K_NAME);
    if name.None? { return Result.Err(MissingName); }
    var length, files := GetInt(info.value, K_LENGTH), info.value.Get(K_FILES);
    var size: nat;
    if length.Some? {
      size := length.value % U64_MODULUS;
    } else if files.Some? && files.value.List? {
      size := AddLengths(files.value.items);
    } else {
      return Result.Err(NoLength);
    }
    return Result.Ok(Meta(announce.value, hash.value, name.value, size));
  }

  // ---------- Generating ----------

  /** One zero hash for each piece of the dummy content. */
  function DummyPieces(): (r: bytes)
    ensures |r| == 1280
  {
    seq((CAPTURE_TORRENT_SIZE + CAPTURE_PIECE_LENGTH - 1) / CAPTURE_PIECE_LENGTH * SHA1_LEN, _ => 0)
  }

  function InfoDict(name: bytes): Value {
    Dict(Insert(Insert(Insert(Insert([],
      K_LENGTH, Int(CAPTURE_TORRENT_SIZE)),
      K_NAME, Bytes(name)),
      K_PIECE_LENGTH, Int(CAPTURE_PIECE_LENGTH)),
      K_PIECES, Bytes(DummyPieces())))
  }

  function TorrentDict(url: bytes, name: bytes): Value {
    Dict(Insert(Insert([], K_ANNOUNCE, Bytes(url)), K_INFO, InfoDict(name)))
  }

  /** `generate`; that the hash of the new file exists is proved, not assumed. */
  method Generate<H>(url: bytes, name: bytes, sha1: bytes -> H) returns (torrent: bytes, hash: H)
    requires IsStr(url) && IsStr(name) && |Encode(TorrentDict(url, name))| <= ISIZE_MAX
    ensures torrent == Encode(TorrentDict(url, name)) && hash == sha1(Encode(InfoDict(name)))
  {
    hide Encode, InfoSlice, ValidUtf8;
    var info: seq<Pair<Value>> := [];
    info := Insert(info, K_LENGTH, Int(CAPTURE_TORRENT_SIZE));
    info := Insert(info, K_NAME, Bytes(name));
    info := Insert(info, K_PIECE_LENGTH, Int(CAPTURE_PIECE_LENGTH));
    info := Insert(info, K_PIECES, Bytes(DummyPieces()));
    var top: seq<Pair<Value>> := [];
    top := Insert(top, K_ANNOUNCE, Bytes(url));
    top := Insert(top, K_INFO, Dict(info));
    torrent := EncodeValue(Dict(top));
    var r := ComputeInfoHash(torrent, sha1);
    GeneratedSlice(url, name);
    hash := r.value;
  }

  // ---------- Generating then parsing ----------

  lemma {:induction false} KeysDiffer()
    ensures K_LENGTH != K_NAME && K_LENGTH != K_PIECE_LENGTH && K_LENGTH != K_PIECES
    ensures K_NAME != K_PIECE_LENGTH && K_NAME != K_PIECES && K_PIECE_LENGTH != K_PIECES
    ensures K_ANNOUNCE != K_INFO && Less(K_ANNOUNCE, K_INFO)
  {
    assert K_LENGTH[0] == 108 && K_PIECES[0] == 112;
    assert K_ANNOUNCE[0] == 97 && K_INFO[0] == 105;
  }

  lemma {:induction false} InfoDictFields(name: bytes)
    requires IsStr(name)
    ensures Valid(InfoDict(name))
    ensures GetStr(InfoDict(name), K_NAME) == Some(name)
    ensures TotalSize(InfoDict(name)) == Some(CAPTURE_TORRENT_SIZE)
  {
    hide ValidUtf8, Insert;
    KeysDiffer();
    var m1 := Insert<Value>([], K_LENGTH, Int(CAPTURE_TORRENT_SIZE));
    var m2 := Insert(m1, K_NAME, Bytes(name));
    var m3 := Insert(m2, K_PIECE_LENGTH, Int(CAPTURE_PIECE_LENGTH));
    var m4 := Insert(m3, K_PIECES, Bytes(DummyPieces()));
    InsertSorted<Value>([], K_LENGTH, Int(CAPTURE_TORRENT_SIZE));
    InsertSorted(m1, K_NAME, Bytes(name));
    InsertSorted(m2, K_PIECE_LENGTH, Int(CAPTURE_PIECE_LENGTH));
    InsertSorted(m3, K_PIECES, Bytes(DummyPieces()));
    InsertKeys<Value>([], K_LENGTH, Int(CAPTURE_TORRENT_SIZE));
    InsertKeys(m1, K_NAME, Bytes(name));
    InsertKeys(m2, K_PIECE_LENGTH, Int(CAPTURE_PIECE_LENGTH));
    InsertKeys(m3, K_PIECES, Bytes(DummyPieces()));
    forall key | key == K_NAME || key == K_LENGTH
      ensures InfoDict(name).Get(key) == Lookup(m2, key)
    {
      LookupInsert(m2, K_PIECE_LENGTH, Int(CAPTURE_PIECE_LENGTH), key);
      LookupInsert(m3, K_PIECES, Bytes(DummyPieces()), key);
    }
    LookupInsert(m1, K_NAME, Bytes(name), K_NAME);
    LookupInsert(m1, K_NAME, Bytes(name), K_LENGTH);
    LookupInsert<Value>([], K_LENGTH, Int(CAPTURE_TORRENT_SIZE), K_LENGTH);
  }

  lemma {:induction false} TorrentDictShape(url: bytes, name: bytes)
    ensures TorrentDict(url, name) == Dict([Pair(K_ANNOUNCE, Bytes(url)), Pair(K_INFO, InfoDict(name))])
  {
    KeysDiffer();
    InsertLast([Pair(K_ANNOUNCE, Bytes(url))], K_INFO, InfoDict(name));
  }

  lemma {:induction false} TorrentDictFields(url: bytes, name: bytes)
    requires IsStr(url) && IsStr(name)
    ensures Valid(TorrentDict(url, name))
    ensures GetStr(TorrentDict(url, name), K_ANNOUNCE) == Some(url)
    ensures TorrentDict(url, name).Get(K_INFO) == Some(InfoDict(name))
  {
    hide ValidUtf8, InfoDict, TorrentDict;
    KeysDiffer();
    TorrentDictShape(url, name);
    var entries := [Pair(K_ANNOUNCE, Bytes(url)), Pair(K_INFO, InfoDict(name))];
    assert entries[1..] == [Pair(K_INFO, InfoDict(name))];
    assert Lookup(entries, K_INFO) == Lookup(entries[1..], K_INFO);
    InfoDictFields(name);
  }

  lemma {:induction false} GeneratedSlice(url: bytes, name: bytes)
    requires IsStr(url) && IsStr(name) && |Encode(TorrentDict(url, name))| <= ISIZE_MAX
    ensures var torrent := Encode(TorrentDict(url, name));
            && InfoSlice(torrent).Ok?
            && torrent[InfoSlice(torrent).value.0..InfoSlice(torrent).value.1] == Encode(InfoDict(name))
  {
    hide Encode, InfoDict, TorrentDict, InfoSlice, IsStr;
    TorrentDictFields(url, name);
    HashOfEncoded(TorrentDict(url, name), InfoDict(name));
  }

  /** For every URL and name, parsing the generated file returns that URL, that
      name, the fixed size, and a hash that depends on the name alone. */
  lemma {:induction false} GenerateThenParse<H>(url: bytes, name: bytes, sha1: bytes -> H)
    requires IsStr(url) && IsStr(name) && |Encode(TorrentDict(url, name))| <= ISIZE_MAX
    ensures Parse(Encode(TorrentDict(url, name)), sha1)
            == Result.Ok(Meta(url, sha1(Encode(InfoDict(name))), name, CAPTURE_TORRENT_SIZE))
  {
    hide Encode, InfoDict, TorrentDict, InfoSlice, IsStr, Decode, GetStr, TotalSize;
    TorrentDictFields(url, name);
    assert Valid(InfoDict(name)) && GetStr(InfoDict(name), K_NAME) == Some(name)
           && TotalSize(InfoDict(name)) == Some(CAPTURE_TORRENT_SIZE) by { InfoDictFields(name); }
    DecodeEncode(TorrentDict(url, name));
    GeneratedSlice(url, name);
  }

  /** Two names that differ hash different bytes. */
  lemma {:induction false} NameDecidesHashedBytes(name: bytes, other: bytes)
    requires IsStr(name) && IsStr(other)
    requires |Encode(InfoDict(name))| <= USIZE_MAX && |Encode(InfoDict(other))| <= USIZE_MAX
    ensures Encode(InfoDict(name)) == Encode(InfoDict(other)) <==> name == other
  {
    hide Encode, InfoDict, IsStr, GetStr;
    InfoDictFields(name);
    InfoDictFields(other);
    DecodeEncode(InfoDict(name));
    DecodeEncode(InfoDict(other));
  }

  // ---------- Multi-file torrents ----------

  /** One file counts its own length, cast to u64, or nothing without one. */
  lemma {:induction false} OneFile(file: Value)
    ensures SumLengths([file]) == match GetInt(file, K_LENGTH) case Some(n) => AsU64(n) case None => 0
  {
    hide GetInt;
    assert [file][..0] == [];
    assert SumLengths([]) == 0;
  }

  lemma {:induction false} PlusAssociates(a: nat, b: nat, c: nat)
    ensures Plus(Plus(a, b), c) == Plus(a, Plus(b, c))
  {
    var m := U64_MODULUS;
    var p, q := (a + b) / m, (b + c) / m;
    assert a + b == m * p + (a + b) % m && b + c == m * q + (b + c) % m;
    SameRemainder((a + b) % m + c, a + (b + c) % m, q - p);
  }

  lemma {:induction false} SameRemainder(x: nat, y: nat, k: int)
    requires x == y + U64_MODULUS * k
    ensures x % U64_MODULUS == y % U64_MODULUS
  {
  }

  /** The total of two lists of files is the sum of their totals, modulo 2^64. */
  lemma {:induction false} SumOfParts(a: seq<Value>, b: seq<Value>)
    ensures SumLengths(a + b) == (SumLengths(a) + SumLengths(b)) % U64_MODULUS
  {
    PartsSum(a, b);
  }

  lemma {:induction false} PartsSum(a: seq<Value>, b: seq<Value>)
    ensures SumLengths(a + b) == Plus(SumLengths(a), SumLengths(b))
    decreases |b|
  {
    hide LengthOf, Plus;
    if b == [] {
      assert a + [] == a;
      SumFits(a);
    } else {
      var init, last := b[..|b| - 1], b[|b| - 1];
      assert (a + b)[..|a + b| - 1] == a + init;
      PartsSum(a, init);
      PlusAssociates(SumLengths(a), SumLengths(init), LengthOf(last));
    }
  }

  lemma {:induction false} SumFits(files: seq<Value>)
    ensures SumLengths(files) <= USIZE_MAX && Plus(SumLengths(files), 0) == SumLengths(files)
  {
  }

  function Without(files: seq<Value>, i: nat): (r: seq<Value>)
    requires i < |files|
    ensures |r| == |files| - 1
  {
    files[..i] + files[i + 1..]
  }

  /** Any one file can be set aside and added last. */
  lemma {:induction false} SetAside(files: seq<Value>, i: nat)
    requires i < |files|
    ensures SumLengths(files) == Plus(SumLengths(Without(files, i)), SumLengths([files[i]]))
    ensures multiset(Without(files, i)) == multiset(files) - multiset{files[i]}
  {
    hide SumLengths;
    var a, one, b := files[..i], [files[i]], files[i + 1..];
    assert files == a + one + b;
    PartsSum(a + one, b);
    PartsSum(a, one);
    PartsSum(a, b);
    Rearranged(SumLengths(a), SumLengths(one), SumLengths(b));
    assert multiset(files) == multiset(a) + multiset(one) + multiset(b);
  }

  /** The first of some files, wherever it stands among the same ones. */
  lemma {:induction false} Found(a: seq<Value>, b: seq<Value>) returns (i: nat)
    requires multiset(a) == multiset(b) && a != []
    ensures i < |b| && b[i] == a[0]
  {
    assert a[0] in multiset(b);
    i :| 0 <= i < |b| && b[i] == a[0];
  }

  lemma {:induction false} SameSize(a: seq<Value>, b: seq<Value>)
    requires multiset(a) == multiset(b)
    ensures |a| == |b|
  {
    assert |multiset(a)| == |a| && |multiset(b)| == |b|;
  }

  /** Files in another order have the same total. */
  lemma {:induction false} SumIgnoresOrder(a: seq<Value>, b: seq<Value>)
    requires multiset(a) == multiset(b)
    ensures SumLengths(a) == SumLengths(b)
    decreases |a|
  {
    hide SumLengths, Without, Plus;
    SameSize(a, b);
    if a != [] {
      var i := Found(a, b);
      SetAside(a, 0);
      SetAside(b, i);
      SumIgnoresOrder(Without(a, 0), Without(b, i));
    }
  }

  lemma {:induction false} Rearranged(a: nat, b: nat, c: nat)
    ensures Plus(Plus(a, b), c) == Plus(Plus(a, c), b)
  {
    PlusAssociates(a, b, c);
    PlusAssociates(a, c, b);
    assert Plus(b, c) == Plus(c, b);
  }

  type FileLength = n: int | 0 <= n <= I64_MAX

  function Total(ns: seq<FileLength>): nat {
    if ns == [] then 0 else ns[0] + Total(ns[1..])
  }

  /** A list of files of the given lengths, each under some path. */
  function Files(ns: seq<FileLength>, path: Value): (r: seq<Value>)
    ensures |r| == |ns| && forall i | 0 <= i < |r| :: r[i] == Dict([Pair(K_LENGTH, Int(ns[i])), Pair(Ascii("path"), path)])
  {
    seq(|ns|, i requires 0 <= i < |ns| => Dict([Pair(K_LENGTH, Int(ns[i])), Pair(Ascii("path"), path)]))
  }

  /** A total that fits u64 is the plain sum of the lengths. */
  lemma {:induction false} FilesTotal(ns: seq<FileLength>, path: Value)
    requires Total(ns) <= USIZE_MAX
    ensures SumLengths(Files(ns, path)) == Total(ns)
  {
    hide SumLengths, Ascii;
    if ns == [] {
      Nothing();
    } else {
      FilesTotal(ns[1..], path);
      var files := Files(ns, path);
      assert files == [files[0]] + Files(ns[1..], path);
      OneFile(files[0]);
      SumOfParts([files[0]], Files(ns[1..], path));
    }
  }

  lemma {:induction false} Nothing()
    ensures SumLengths([]) == 0
  {
  }

  /** The info dict of a multi-file torrent. */
  function MultiInfo(name: bytes, ns: seq<FileLength>, path: Value): Value {
    Dict([Pair(K_FILES, List(Files(ns, path))), Pair(K_NAME, Bytes(name))])
  }

  function MultiTorrent(url: bytes, name: bytes, ns: seq<FileLength>, path: Value): Value {
    Dict([Pair(K_ANNOUNCE, Bytes(url)), Pair(K_INFO, MultiInfo(name, ns, path))])
  }

  lemma {:induction false} MultiKeys()
    ensures Less(K_FILES, K_NAME) && Less(K_LENGTH, Ascii("path")) && Less(K_ANNOUNCE, K_INFO)
    ensures K_FILES != K_NAME && K_ANNOUNCE != K_INFO && K_LENGTH != K_FILES && K_LENGTH != K_NAME
  {
    KeysDiffer();
    assert K_FILES[0] == 102 && K_NAME[0] == 110 && K_LENGTH[0] == 108 && Ascii("path")[0] == 112;
  }

  lemma {:induction false} MultiInfoFields(name: bytes, ns: seq<FileLength>, path: Value)
    requires IsStr(name) && Valid(path)
    ensures Valid(MultiInfo(name, ns, path))
    ensures GetStr(MultiInfo(name, ns, path), K_NAME) == Some(name)
    ensures TotalSize(MultiInfo(name, ns, path)) == Some(SumLengths(Files(ns, path)))
  {
    hide ValidUtf8, SumLengths, Ascii, Less;
    MultiKeys();
    var entries := [Pair(K_FILES, List(Files(ns, path))), Pair(K_NAME, Bytes(name))];
    assert entries[1..] == [Pair(K_NAME, Bytes(name))];
    forall x | x in Files(ns, path) ensures Valid(x) {
      var i :| 0 <= i < |ns| && x == Files(ns, path)[i];
      var pairs := [Pair(K_LENGTH, Int(ns[i])), Pair(Ascii("path"), path)];
      assert Sorted(pairs);
      assert forall p | p in pairs :: p == pairs[0] || p == pairs[1];
    }
    assert forall p | p in entries :: p == entries[0] || p == entries[1];
    assert Sorted(entries);
    assert Lookup(entries, K_NAME) == Lookup(entries[1..], K_NAME);
    assert Lookup(entries, K_LENGTH) == Lookup(entries[1..], K_LENGTH) == Lookup(entries[1..][1..], K_LENGTH);
  }

  /** Parsing a multi-file torrent gives its URL, its name, the hash of its info
      dict, and the sum of its files' lengths when that fits u64. */
  lemma {:induction false} MultiFileParses<H>(url: bytes, name: bytes, ns: seq<FileLength>, path: Value, sha1: bytes -> H)
    requires IsStr(url) && IsStr(name) && Valid(path) && |Encode(MultiTorrent(url, name, ns, path))| <= ISIZE_MAX
    requires Total(ns) <= USIZE_MAX
    ensures Parse(Encode(MultiTorrent(url, name, ns, path)), sha1)
            == Result.Ok(Meta(url, sha1(Encode(MultiInfo(name, ns, path))), name, Total(ns)))
  {
    hide Encode, MultiInfo, InfoSlice, IsStr, Decode, GetStr, TotalSize, SumLengths, Total, Ascii;
    var info := MultiInfo(name, ns, path);
    var root := MultiTorrent(url, name, ns, path);
    MultiInfoFields(name, ns, path);
    FilesTotal(ns, path);
    MultiRoot(url, info);
    DecodeEncode(root);
    HashOfEncoded(root, info);
  }

  lemma {:induction false} MultiRoot(url: bytes, info: Value)
    requires IsStr(url) && Valid(info)
    ensures var root := Dict([Pair(K_ANNOUNCE, Bytes(url)), Pair(K_INFO, info)]);
            Valid(root) && GetStr(root, K_ANNOUNCE) == Some(url) && root.Get(K_INFO) == Some(info)
  {
    hide ValidUtf8, Less, Ascii;
    MultiKeys();
    var entries := [Pair(K_ANNOUNCE, Bytes(url)), Pair(K_INFO, info)];
    assert entries[1..] == [Pair(K_INFO, info)];
    assert Sorted(entries);
    assert forall p | p in entries :: p == entries[0] || p == entries[1];
    assert Lookup(entries, K_INFO) == Lookup(entries[1..], K_INFO);
  }

  // ---------- What parses ----------

  /** The entry stands in a dict. */
  predicate Stands(v: Value, name: string, x: Value) {
    v.Dict? && Has(v.entries, name, x)
  }

  ghost predicate HasText(v: Value, name: string) {
    exists text: bytes :: Stands(v, name, Bytes(text)) && ValidUtf8(text)
  }

  lemma {:induction false} Gets(v: Value, name: string)
    requires Valid(v)
    ensures forall x: Value :: v.Get(Ascii(name)) == Some(x) <==> Stands(v, name, x)
    ensures GetStr(v, Ascii(name)).Some? <==> HasText(v, name)
    ensures v.Get(Ascii(name)).Some? ==> Valid(v.Get(Ascii(name)).value)
  {
    hide Ascii, ValidUtf8;
    if v.Dict? {
      forall x: Value ensures v.Get(Ascii(name)) == Some(x) <==> Stands(v, name, x) {
        LookupIff(v.entries, Ascii(name), x);
      }
    }
    if v.Get(Ascii(name)).Some? { assert Stands(v, name, v.Get(Ascii(name)).value); }
  }

  /** A decodable file without a text `announce` fails for that, one without
      `info` because there is nothing to hash; a missing `info` is never found out
      later, since the walk has then found one. */
  lemma {:induction false} RootDecides<H>(data: bytes, sha1: bytes -> H)
    requires |data| <= USIZE_MAX && Decode(data).Ok?
    ensures var r, root := Parse(data, sha1), Decode(data).value;
            && (r == Result.Err(MissingAnnounce) <==> !HasText(root, "announce"))
            && (r == Result.Err(HashFailed(NoInfo))
                <==> HasText(root, "announce") && forall x: Value :: !Stands(root, "info", x))
            && (r.Ok? || r.error.MissingAnnounce? || r.error == HashFailed(NoInfo)
                || r.error.MissingName? || r.error.NoLength?)
  {
    hide Decode, InfoSlice, SliceHolds, HasText, TopEntries, TotalSize, Ascii, GetStr, First, Last;
    var root := Decode(data).value;
    DecodedIsValid(data);
    Gets(root, "announce");
    Gets(root, "info");
    AnnounceNeedsDict(root);
    if root.Dict? { WalkAgainstTree(data); }
  }

  lemma {:induction false} AnnounceNeedsDict(root: Value)
    ensures GetStr(root, K_ANNOUNCE).Some? ==> root.Dict?
  {
  }

  lemma {:induction false} DecodedIsValid(data: bytes)
    requires |data| <= USIZE_MAX && Decode(data).Ok?
    ensures Valid(Decode(data).value)
  {
    hide ParseValue;
    ParseValid(data, 0);
  }

  /** A size is found in a `length`, or in `files` where there is none. */
  ghost predicate HasSize(info: Value, size: nat) {
    || (exists n: i64 :: Stands(info, "length", Int(n)) && size == if n < 0 then n + U64_MODULUS else n)
    || ((forall n: i64 :: !Stands(info, "length", Int(n)))
        && exists files: seq<Value> :: Stands(info, "files", List(files)) && size == SumLengths(files))
  }

  lemma {:induction false} SizeFound(info: Value)
    requires Valid(info)
    ensures forall size: nat :: TotalSize(info) == Some(size) <==> HasSize(info, size)
  {
    hide Ascii, SumLengths, Stands;
    Gets(info, "length");
    Gets(info, "files");
    var length, files := GetInt(info, K_LENGTH), info.Get(K_FILES);
    if length.Some? {
      assert Stands(info, "length", Int(length.value));
      Cast(length.value);
    } else if files.Some? && files.value.List? {
      assert Stands(info, "files", List(files.value.items));
    }
  }

  lemma {:induction false} Cast(n: i64)
    ensures (n as int) % U64_MODULUS == if n < 0 then n + U64_MODULUS else n
  {
  }

  lemma {:induction false} InfoIsRead<H>(data: bytes, sha1: bytes -> H, info: Value)
    requires Decode(data).Ok? && GetStr(Decode(data).value, K_ANNOUNCE).Some? && InfoHashOf(data, sha1).Ok?
    requires Decode(data).value.Get(K_INFO) == Some(info)
    ensures var r, name, size := Parse(data, sha1), GetStr(info, K_NAME), TotalSize(info);
            && (r == Result.Err(MissingName) <==> name.None?)
            && (r == Result.Err(NoLength) <==> name.Some? && size.None?)
            && (r.Ok? ==> Some(r.value.name) == name && Some(r.value.totalSize) == size)
  {
    hide Decode, GetStr, TotalSize, InfoHashOf, Ascii;
  }

  /** Then the `info` value decides: it needs a text name, and an integer `length`
      or a list of `files`; a length counts before any files. */
  lemma {:induction false} InfoDecides<H>(data: bytes, sha1: bytes -> H, info: Value)
    requires |data| <= USIZE_MAX && Decode(data).Ok? && HasText(Decode(data).value, "announce")
    requires Stands(Decode(data).value, "info", info)
    ensures var r := Parse(data, sha1);
            && (r == Result.Err(MissingName) <==> !HasText(info, "name"))
            && (r == Result.Err(NoLength) <==> HasText(info, "name") && forall size: nat :: !HasSize(info, size))
            && (r.Ok? ==> Stands(info, "name", Bytes(r.value.name)) && HasSize(info, r.value.totalSize))
  {
    hide Decode, InfoSlice, SliceHolds, TopEntries, Ascii, HasText, HasSize, TotalSize, First, Last, Parse;
    var root := Decode(data).value;
    DecodedIsValid(data);
    Gets(root, "announce");
    Gets(root, "info");
    WalkAgainstTree(data);
    InfoIsRead(data, sha1, info);
    Gets(info, "name");
    SizeFound(info);
    if TotalSize(info).Some? { assert HasSize(info, TotalSize(info).value); }
  }
}
