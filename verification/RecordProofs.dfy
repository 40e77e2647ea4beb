/** `s3a-cli prove` and `verify-proof`: inclusion proofs for the fixed-size records of a tile. */
module RecordProofs {
  import opened Prelude
  import opened Hex
  import opened Merkle

  const SCHEME: string := "s3a-merkle-rfc6962-sha256-v1"

  /** `record_count` of a tile header is a 32-bit number. */
  type Word32 = w: int | 0 <= w < 0x1_0000_0000

  /** The part of a tile that proofs depend on; `payloadBytes` and `recordCount` come from its header. */
  datatype Tile = Tile(tileId: nat, payload: Bytes, payloadBytes: nat, recordCount: Word32)

  datatype RecordProof = RecordProof(
    scheme: string, tileIndex: nat, tileId: nat, recordIndex: nat, treeSize: nat,
    recordHex: string, rootHex: string, pathHex: seq<string>)

  datatype Error =
    | NoRecords
    | NotDivisible
    | OutOfRange
    | BadRecordSize
    | ProofFailed
    | UnknownScheme
    | BadHex
    | BadLength

  datatype Result<+T> = Ok(value: T) | Err(error: Error)

  /** `tile_records`: the used payload and the record size. */
  function TileRecords(payload: Bytes, payloadBytes: nat, count: nat): Result<(Bytes, nat)> {
    if count == 0 then Err(NoRecords)
    else if payloadBytes > |payload| || payloadBytes % count != 0 then Err(NotDivisible)
    else Ok((payload[..payloadBytes], payloadBytes / count))
  }

  lemma SliceInRange(i: nat, n: nat, size: nat)
    requires i < n
    ensures i * size + size <= n * size
  {
    var gap := n - i - 1;
    assert n * size == i * size + size + gap * size by {
      assert n == i + 1 + gap;
    }
  }

  function RecordAt(data: Bytes, size: nat, i: nat): (record: Bytes)
    requires size > 0 && |data| % size == 0 && i < |data| / size
    ensures i * size + size <= |data| && record == data[i * size..i * size + size]
  {
    SliceInRange(i, |data| / size, size);
    data[i * size..i * size + size]
  }

  /** `data` cut into records of `size` bytes. */
  function Records(data: Bytes, size: nat): (records: seq<Bytes>)
    requires size > 0 && |data| % size == 0
    ensures |records| == |data| / size && forall record :: record in records ==> |record| == size
  {
    seq(|data| / size, i requires 0 <= i < |data| / size => RecordAt(data, size, i))
  }

  /** `merkle_root_fixed` */
  function MerkleRootFixed(h: Hash, data: Bytes, size: nat): Option<Digest> {
    if size == 0 || |data| % size != 0 then None else Some(Root(h, Records(data, size)))
  }

  /** `tile_record_root` */
  function TileRecordRoot(h: Hash, t: Tile): Result<(Digest, nat)> {
    match TileRecords(t.payload, t.payloadBytes, t.recordCount)
    case Err(e) => Err(e)
    case Ok((data, size)) =>
      match MerkleRootFixed(h, data, size)
      case None => Err(BadRecordSize)
      case Some(root) => Ok((root, t.recordCount))
  }

  /** A tile whose payload splits into equal, non-empty records. */
  predicate Splits(t: Tile) {
    && 0 < t.recordCount
    && 0 < t.payloadBytes <= |t.payload|
    && t.payloadBytes % t.recordCount == 0
  }

  lemma MultipleIsFar(k: int, b: nat)
    requires k != 0
    ensures k * b >= b || k * b <= 0 - b
  {
    if k > 0 { assert (k - 1) * b >= 0; } else { assert (-k - 1) * b >= 0; }
  }

  lemma DivideProduct(a: nat, b: nat)
    requires b > 0
    ensures (b * a) % b == 0 && (b * a) / b == a
  {
    var q, r := (b * a) / b, (b * a) % b;
    assert (a - q) * b == r;
    if a != q { MultipleIsFar(a - q, b); }
  }

  lemma SplitArithmetic(bytes: nat, count: nat)
    requires count > 0 && bytes % count == 0 && bytes > 0
    ensures bytes / count > 0 && bytes % (bytes / count) == 0 && bytes / (bytes / count) == count
  {
    var size := bytes / count;
    assert bytes == size * count;
    DivideProduct(count, size);
  }

  function TileLeaves(t: Tile): (leaves: seq<Bytes>)
    requires Splits(t)
    ensures |leaves| == t.recordCount
  {
    var size := t.payloadBytes / t.recordCount;
    SplitArithmetic(t.payloadBytes, t.recordCount);
    Records(t.payload[..t.payloadBytes], size)
  }

  /** All parts, one behind the other. */
  function Concat(parts: seq<Bytes>): Bytes {
    if parts == [] then [] else Concat(parts[..|parts| - 1]) + parts[|parts| - 1]
  }

  lemma RecordIsSlice(data: Bytes, size: nat, i: nat, start: nat)
    requires size > 0 && |data| % size == 0 && i < |data| / size && start == i * size
    ensures start + size <= |data| && Records(data, size)[i] == data[start..start + size]
  {
    SliceInRange(i, |data| / size, size);
    assert Records(data, size)[i] == RecordAt(data, size, i);
  }

  lemma NextMultiple(i: nat, size: nat)
    ensures (i + 1) * size == i * size + size
  {
  }

  lemma OneMorePart(data: Bytes, parts: seq<Bytes>, n: nat, start: nat, end: nat)
    requires n < |parts| && start <= end <= |data| && parts[n] == data[start..end]
    requires Concat(parts[..n]) == data[..start]
    ensures Concat(parts[..n + 1]) == data[..end]
  {
    assert parts[..n + 1][..n] == parts[..n];
    assert data[..end] == data[..start] + data[start..end];
  }

  lemma {:induction false} RecordsMakeData(data: Bytes, size: nat, n: nat, end: nat)
    requires size > 0 && |data| % size == 0 && n <= |data| / size && end == n * size
    ensures end <= |data| && Concat(Records(data, size)[..n]) == data[..end]
  {
    if n > 0 {
      var start := (n - 1) * size;
      NextMultiple(n - 1, size);
      RecordIsSlice(data, size, n - 1, start);
      RecordsMakeData(data, size, n - 1, start);
      OneMorePart(data, Records(data, size), n - 1, start, end);
      hide Records, RecordAt, Concat;
    }
  }

  lemma LeavesAreRecords(t: Tile)
    requires Splits(t)
    ensures var data, size := t.payload[..t.payloadBytes], t.payloadBytes / t.recordCount;
            && size > 0 && |data| % size == 0 && |data| / size == t.recordCount
            && t.recordCount * size == t.payloadBytes && TileLeaves(t) == Records(data, size)
  {
    SplitArithmetic(t.payloadBytes, t.recordCount);
  }

  /** The leaves of a tile are its payload, cut in order into parts of equal length. */
  lemma LeavesMakePayload(t: Tile)
    requires Splits(t)
    ensures |TileLeaves(t)| == t.recordCount && Concat(TileLeaves(t)) == t.payload[..t.payloadBytes]
    ensures forall leaf :: leaf in TileLeaves(t) ==> |leaf| == t.payloadBytes / t.recordCount
  {
    var size, data := t.payloadBytes / t.recordCount, t.payload[..t.payloadBytes];
    LeavesAreRecords(t);
    RecordsMakeData(data, size, t.recordCount, t.payloadBytes);
    hide Records, TileLeaves, Splits;
    assert Records(data, size)[..t.recordCount] == Records(data, size);
    assert data[..t.payloadBytes] == data;
  }

  /** Leaf `i` is the i-th such part. */
  lemma LeafIsSlice(t: Tile, i: nat, size: nat, start: nat)
    requires Splits(t) && i < t.recordCount && size * t.recordCount == t.payloadBytes && start == i * size
    ensures start + size <= t.payloadBytes && TileLeaves(t)[i] == t.payload[start..start + size]
  {
    var data := t.payload[..t.payloadBytes];
    assert t.payloadBytes / t.recordCount == size by { DivideProduct(size, t.recordCount); }
    LeavesAreRecords(t);
    RecordIsSlice(data, size, i, start);
    hide TileLeaves, Records, Splits;
    assert data[start..start + size] == t.payload[start..start + size];
  }

  /** A tile has a record root exactly when it splits, and it is the RFC 6962 root of its records. */
  lemma RootOfTile(h: Hash, t: Tile)
    ensures TileRecordRoot(h, t).Ok? <==> Splits(t)
    ensures Splits(t) ==> TileRecordRoot(h, t).value == (Root(h, TileLeaves(t)), |TileLeaves(t)|)
  {
    if t.recordCount > 0 && t.payloadBytes > 0 && t.payloadBytes % t.recordCount == 0 {
      SplitArithmetic(t.payloadBytes, t.recordCount);
    }
  }

  function EncodeAll(path: seq<Digest>): (texts: seq<string>)
    ensures |texts| == |path|
  {
    if path == [] then [] else [BytesToHex(path[0])] + EncodeAll(path[1..])
  }

  /** The proof document for record `i` of a tile. */
  function GenuineProof(h: Hash, t: Tile, tileIndex: nat, i: nat): RecordProof
    requires Splits(t) && i < t.recordCount
  {
    var leaves := TileLeaves(t);
    RecordProof(SCHEME, tileIndex, t.tileId, i, |leaves|,
                BytesToHex(leaves[i]), BytesToHex(Root(h, leaves)), EncodeAll(AuditPath(h, i, leaves)))
  }

  /** The document for record `i` carries the i-th part of the payload and the tile's root, and names
      scheme, tile, index and count. */
  lemma DocumentCarriesRecord(h: Hash, t: Tile, tileIndex: nat, i: nat, size: nat, start: nat)
    requires Splits(t) && i < t.recordCount && size * t.recordCount == t.payloadBytes && start == i * size
    ensures var p := GenuineProof(h, t, tileIndex, i);
            && start + size <= t.payloadBytes
            && HexDecode(p.recordHex) == Some(t.payload[start..start + size])
            && HexDecode(p.rootHex) == Some(Root(h, TileLeaves(t)))
            && p.scheme == "s3a-merkle-rfc6962-sha256-v1" && p.tileIndex == tileIndex && p.tileId == t.tileId
            && p.recordIndex == i && p.treeSize == t.recordCount
  {
    hide HexDecode, BytesToHex, Root;
    LeafIsSlice(t, i, size, start);
    DecodeOfEncode(TileLeaves(t)[i]);
    DecodeOfEncode(Root(h, TileLeaves(t)));
  }

  /** What `prove` and the tile root refuse, and in which order. */
  lemma TileRefusals(h: Hash, t: Tile)
    ensures TileRecordRoot(h, t) == Err(NoRecords) <==> t.recordCount == 0
    ensures TileRecordRoot(h, t) == Err(NotDivisible) <==>
              t.recordCount != 0 && (t.payloadBytes > |t.payload| || t.payloadBytes % t.recordCount != 0)
    ensures TileRecordRoot(h, t) == Err(BadRecordSize) <==> t.recordCount != 0 && t.payloadBytes == 0
  {
    RootOfTile(h, t);
  }

  lemma FitsBuffer(m: nat, n: Word32)
    requires m < n
    ensures PathLength(m, n) <= 32
  {
    assert Pow2(8) == 256;
    assert Pow2(16) == 0x1_0000;
    assert Pow2(24) == 0x100_0000;
    assert Pow2(32) == 0x1_0000_0000;
    PathLengthBound(m, n, 32);
  }

  /** `prove`: the path goes through a buffer of `MAX_PROOF_LEN` hashes, which always suffices. */
  method Prove(h: Hash, t: Tile, tileIndex: nat, record: nat) returns (r: Result<RecordProof>)
    ensures r == if TileRecords(t.payload, t.payloadBytes, t.recordCount).Err?
                 then Err(TileRecords(t.payload, t.payloadBytes, t.recordCount).error)
                 else if record >= t.recordCount then Err(OutOfRange)
                 else if !Splits(t) then Err(BadRecordSize)
                 else Ok(GenuineProof(h, t, tileIndex, record))
  {
    hide BytesToHex, AuditPath, Root;
    var n := t.recordCount;
    match TileRecords(t.payload, t.payloadBytes, n) {
      case Err(e) => return Err(e);
      case Ok((data, size)) =>
        if record >= n {
          return Err(OutOfRange);
        }
        var root := MerkleRootFixed(h, data, size);
        RootOfTile(h, t);
        if root.None? {
          return Err(BadRecordSize);
        }
        var leaves := Records(data, size);
        var buf := new Digest[MAX_PROOF_LEN](_ => seq(32, _ => 0));
        FitsBuffer(record, n);
        var len := InclusionProof(h, leaves, record, buf);
        return Ok(RecordProof(SCHEME, tileIndex, t.tileId, record, n,
                              BytesToHex(RecordAt(data, size, record)), BytesToHex(root.value),
                              EncodeAll(buf[..len.value])));
    }
  }

  function DecodeDigest(text: string): Result<Digest> {
    match HexDecode(text)
    case None => Err(BadHex)
    case Some(b) => if |b| == 32 then Ok(b) else Err(BadLength)
  }

  function DecodeAll(texts: seq<string>): (r: Result<seq<Digest>>)
    ensures r.Ok? ==> |r.value| == |texts|
    ensures r.Err? ==> r.error in {BadHex, BadLength}
  {
    if texts == [] then Ok([])
    else
      match DecodeDigest(texts[0])
      case Err(e) => Err(e)
      case Ok(d) =>
        match DecodeAll(texts[1..])
        case Err(e) => Err(e)
        case Ok(ds) => Ok([d] + ds)
  }

  function Prefixed(path: seq<Digest>, rest: Result<seq<Digest>>): Result<seq<Digest>> {
    if rest.Err? then rest else Ok(path + rest.value)
  }

  lemma PrefixStart(rest: Result<seq<Digest>>)
    ensures Prefixed([], rest) == rest
  {
    if rest.Ok? { assert [] + rest.value == rest.value; }
  }

  lemma PrefixStep(path: seq<Digest>, texts: seq<string>)
    requires texts != [] && DecodeDigest(texts[0]).Ok?
    ensures Prefixed(path, DecodeAll(texts)) == Prefixed(path + [DecodeDigest(texts[0]).value], DecodeAll(texts[1..]))
  {
    hide DecodeDigest;
    var d := DecodeDigest(texts[0]).value;
    if DecodeAll(texts[1..]).Ok? {
      var ds := DecodeAll(texts[1..]).value;
      assert path + ([d] + ds) == (path + [d]) + ds;
    }
  }

  /** What `verify` answers: format errors in the order of the checks, a root mismatch as a plain
      refusal, and otherwise acceptance in the sense of section 2.1.1 of RFC 6962. */
  function Verdict(h: Hash, p: RecordProof, expectedRoot: Option<Digest>): Result<bool> {
    if p.scheme != SCHEME then Err(UnknownScheme)
    else if HexDecode(p.recordHex).None? then Err(BadHex)
    else
      match DecodeDigest(p.rootHex)
      case Err(e) => Err(e)
      case Ok(root) =>
        if expectedRoot.Some? && expectedRoot.value != root then Ok(false)
        else
          match DecodeAll(p.pathHex)
          case Err(e) => Err(e)
          case Ok(path) => Ok(Accepts(h, HexDecode(p.recordHex).value, p.recordIndex, p.treeSize, path, root))
  }

  /** `verify`, growing the decoded path entry by entry. */
  method Verify(h: Hash, p: RecordProof, expectedRoot: Option<Digest>) returns (r: Result<bool>)
    ensures r == Verdict(h, p, expectedRoot)
  {
    hide HexDecode, Accepts;
    if p.scheme != SCHEME {
      return Err(UnknownScheme);
    }
    var record := HexDecode(p.recordHex);
    if record.None? {
      return Err(BadHex);
    }
    var root := DecodeDigest(p.rootHex);
    if root.Err? {
      return Err(root.error);
    }
    if expectedRoot.Some? && expectedRoot.value != root.value {
      return Ok(false);
    }
    var path: seq<Digest> := [];
    assert p.pathHex[0..] == p.pathHex;
    PrefixStart(DecodeAll(p.pathHex));
    for i := 0 to |p.pathHex|
      invariant DecodeAll(p.pathHex) == Prefixed(path, DecodeAll(p.pathHex[i..]))
    {
      var b := DecodeDigest(p.pathHex[i]);
      assert p.pathHex[i..][1..] == p.pathHex[i + 1..];
      if b.Err? {
        return Err(b.error);
      }
      PrefixStep(path, p.pathHex[i..]);
      path := path + [b.value];
    }
    assert path + [] == path;
    var ok := VerifyInclusion(h, record.value, p.recordIndex, p.treeSize, path, root.value);
    r := Ok(ok);
  }

  lemma {:induction false} DecodeAllOfEncodeAll(path: seq<Digest>)
    ensures DecodeAll(EncodeAll(path)) == Ok(path)
  {
    hide BytesToHex, HexDecode;
    if path == [] {
    } else {
      DecodeOfEncode(path[0]);
      DecodeAllOfEncodeAll(path[1..]);
      assert [path[0]] + path[1..] == path;
      assert EncodeAll(path)[1..] == EncodeAll(path[1..]);
    }
  }

  /** Completeness: for every tile that splits and every index in range, what `prove` produces
      verifies against the tile's own root; the path is no longer than the logarithm of the count. */
  lemma Completeness(h: Hash, t: Tile, tileIndex: nat, i: nat, c: nat)
    requires Splits(t) && i < t.recordCount <= Pow2(c)
    ensures var p := GenuineProof(h, t, tileIndex, i);
            && TileRecordRoot(h, t).Ok?
            && Verdict(h, p, Some(TileRecordRoot(h, t).value.0)) == Ok(true)
            && Verdict(h, p, None) == Ok(true)
            && |p.pathHex| <= c
  {
    hide BytesToHex, HexDecode;
    var leaves := TileLeaves(t);
    RootOfTile(h, t);
    DecodeOfEncode(leaves[i]);
    DecodeOfEncode(Root(h, leaves));
    DecodeAllOfEncodeAll(AuditPath(h, i, leaves));
    PathLeadsToRoot(h, i, leaves);
    PathLengthBound(i, |leaves|, c);
  }

  /** Every byte string hashed while a proof document is checked. */
  function DocumentInputs(h: Hash, p: RecordProof): set<Bytes> {
    if HexDecode(p.recordHex).None? || DecodeAll(p.pathHex).Err? then {}
    else ProofInputs(h, HexDecode(p.recordHex).value, p.recordIndex, p.treeSize, DecodeAll(p.pathHex).value)
  }

  /** Against a tile's genuine root and size a document is accepted exactly if it is well formed,
      names a record in range, and carries that record's bytes, the tile's root and the one genuine
      path, unless the hash collides among the inputs of this tile and this check. */
  lemma TileSoundness(h: Hash, t: Tile, p: RecordProof)
    requires TileRecordRoot(h, t).Ok? && p.treeSize == TileRecordRoot(h, t).value.1
    requires Splits(t) ==> InjectiveOn(h, TreeInputs(h, TileLeaves(t)) + DocumentInputs(h, p))
    ensures Splits(t)
    ensures Verdict(h, p, Some(TileRecordRoot(h, t).value.0)) == Ok(true) <==>
              && p.scheme == SCHEME && p.recordIndex < t.recordCount
              && HexDecode(p.recordHex) == Some(TileLeaves(t)[p.recordIndex])
              && DecodeDigest(p.rootHex) == Ok(Root(h, TileLeaves(t)))
              && DecodeAll(p.pathHex) == Ok(AuditPath(h, p.recordIndex, TileLeaves(t)))
  {
    RootOfTile(h, t);
    var leaves := TileLeaves(t);
    hide HexDecode, TileLeaves, TileRecordRoot, DecodeAll, DecodeDigest, InjectiveOn, Accepts, TreeInputs, ProofInputs;
    hide AuditPath, Root;
    if HexDecode(p.recordHex).Some? && DecodeAll(p.pathHex).Ok? {
      SoundAndComplete(h, HexDecode(p.recordHex).value, p.recordIndex, leaves, DecodeAll(p.pathHex).value);
    }
  }

  lemma {:induction false} FirstBadEntry(texts: seq<string>, i: nat)
    requires i < |texts| && DecodeDigest(texts[i]).Err?
    requires forall j :: 0 <= j < i ==> DecodeDigest(texts[j]).Ok?
    ensures DecodeAll(texts) == Err(DecodeDigest(texts[i]).error)
  {
    hide DecodeDigest;
    if i > 0 {
      FirstBadEntry(texts[1..], i - 1);
    }
  }

  /** What is refused, in the order of the checks: the scheme, the record, the root, by its digits and
      then by its length, a root other than the expected one, whatever the path, and the first path
      entry in disorder. */
  lemma DocumentRefusals(h: Hash, p: RecordProof, expected: Option<Digest>, i: nat)
    ensures var known := p.scheme == "s3a-merkle-rfc6962-sha256-v1";
            var record, root := HexDecode(p.recordHex), HexDecode(p.rootHex);
            var readable := known && record.Some? && root.Some? && |root.value| == 32;
            && (!known <==> Verdict(h, p, expected) == Err(UnknownScheme))
            && (known && record.None? ==> Verdict(h, p, expected) == Err(BadHex))
            && (known && record.Some? && root.None? ==> Verdict(h, p, expected) == Err(BadHex))
            && (known && record.Some? && root.Some? && |root.value| != 32 ==>
                  Verdict(h, p, expected) == Err(BadLength))
            && (readable && expected.Some? && expected.value != root.value ==> Verdict(h, p, expected) == Ok(false))
            && (readable && (expected.Some? ==> expected.value == root.value) && i < |p.pathHex|
                && (forall j :: 0 <= j < i ==> DecodeDigest(p.pathHex[j]).Ok?) ==>
                  var entry := HexDecode(p.pathHex[i]);
                  && (entry.None? ==> Verdict(h, p, expected) == Err(BadHex))
                  && (entry.Some? && |entry.value| != 32 ==> Verdict(h, p, expected) == Err(BadLength)))
  {
    if i < |p.pathHex| && DecodeDigest(p.pathHex[i]).Err? && forall j :: 0 <= j < i ==> DecodeDigest(p.pathHex[j]).Ok? {
      FirstBadEntry(p.pathHex, i);
    }
    hide HexDecode, DecodeAll, Accepts;
  }

  /** Without an expected root a document is checked against the root it names itself. */
  lemma OwnRootCounts(h: Hash, p: RecordProof, root: Digest)
    requires DecodeDigest(p.rootHex) == Ok(root)
    ensures Verdict(h, p, None) == Verdict(h, p, Some(root))
  {
    hide HexDecode, DecodeDigest, DecodeAll, Accepts;
  }

  /** Such acceptance says as much about a tile as one against the tile's root exactly if the root in
      the document is the tile's. */
  lemma UnanchoredIff(h: Hash, t: Tile, p: RecordProof)
    requires TileRecordRoot(h, t).Ok? && p.treeSize == TileRecordRoot(h, t).value.1
    ensures Verdict(h, p, Some(TileRecordRoot(h, t).value.0)) == Ok(true) <==>
              Verdict(h, p, None) == Ok(true) && DecodeDigest(p.rootHex) == Ok(TileRecordRoot(h, t).value.0)
  {
    hide HexDecode, DecodeAll, Accepts, TileRecordRoot, DecodeDigest;
    if DecodeDigest(p.rootHex).Ok? { OwnRootCounts(h, p, DecodeDigest(p.rootHex).value); }
  }

  /** On its own it says nothing: for any bytes there is a document that is accepted. */
  lemma UnanchoredAcceptsAnything(h: Hash, record: Bytes, tileIndex: nat, tileId: nat)
    ensures var leaf := BytesToHex(LeafHash(h, record));
            var p := RecordProof(SCHEME, tileIndex, tileId, 0, 1, BytesToHex(record), leaf, []);
            Verdict(h, p, None) == Ok(true)
  {
    hide HexDecode, BytesToHex, LeafHash;
    DecodeOfEncode(record);
    DecodeOfEncode(LeafHash(h, record));
  }

  /** Even with a false index or tree size, acceptance against a tile's root only ever vouches
      for bytes that are one of the tile's records, under the same condition on the hash. */
  lemma TileMembership(h: Hash, t: Tile, p: RecordProof)
    requires TileRecordRoot(h, t).Ok?
    requires Verdict(h, p, Some(TileRecordRoot(h, t).value.0)) == Ok(true)
    requires Splits(t) ==> InjectiveOn(h, TreeInputs(h, TileLeaves(t)) + DocumentInputs(h, p))
    ensures Splits(t) && HexDecode(p.recordHex).value in TileLeaves(t)
  {
    RootOfTile(h, t);
    var leaves := TileLeaves(t);
    hide HexDecode, TileLeaves, TileRecordRoot, DecodeAll, DecodeDigest;
    hide InjectiveOn, Accepts, TreeInputs, ProofInputs, Root;
    MembershipSoundness(h, HexDecode(p.recordHex).value, p.recordIndex, p.treeSize, leaves, DecodeAll(p.pathHex).value);
  }
}
