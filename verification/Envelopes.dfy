/**
 The byte strings that get signed: commit envelopes (`crypto.ts`), change-request approvals and
 conflict resolutions (`RepoCoordinator.ts`). Text fields are given as their UTF-8 bytes.
 */
module Envelopes {
  import opened Prelude
  import opened Hex

  const COMMIT_MAGIC: Bytes := [83, 51, 65, 67, 79, 77, 77, 73, 84, 49]                     // S3ACOMMIT1
  const APPROVE_MAGIC: Bytes := [83, 51, 65, 67, 82, 95, 65, 80, 80, 82, 79, 86, 69, 49]    // S3ACR_APPROVE1
  const RESOLVE_MAGIC: Bytes := [83, 51, 65, 86, 67, 83, 95, 82, 69, 83, 49]                // S3AVCS_RES1
  const ZERO_SEAL: Bytes := [
    0, 0, 0, 0, 0, 0, 0, 0, 0, 0, 0, 0, 0, 0, 0, 0,
    0, 0, 0, 0, 0, 0, 0, 0, 0, 0, 0, 0, 0, 0, 0, 0]
  const TWO_64: int := 0x1_0000_0000_0000_0000

  // ---------------------------------------------------------------------------------------
  // Fixed-width little-endian numbers
  // ---------------------------------------------------------------------------------------

  function LittleEndian(v: nat, width: nat): (bytes: Bytes)
    ensures |bytes| == width
  {
    if width == 0 then [] else [(v % 256) as Byte] + LittleEndian(v / 256, width - 1)
  }

  function FromLittleEndian(bytes: Bytes): nat {
    if bytes == [] then 0 else bytes[0] as nat + 256 * FromLittleEndian(bytes[1..])
  }

  function Pow256(e: nat): nat {
    if e == 0 then 1 else 256 * Pow256(e - 1)
  }

  lemma {:induction false} LittleEndianRoundTrip(v: nat, width: nat)
    requires v < Pow256(width)
    ensures FromLittleEndian(LittleEndian(v, width)) == v
  {
    if width == 0 {
    } else {
      LittleEndianRoundTrip(v / 256, width - 1);
      assert LittleEndian(v, width)[1..] == LittleEndian(v / 256, width - 1);
    }
  }

  /** `setBigUint64(0, v, true)`: the value modulo 2^64, also for negative numbers. */
  function U64(v: int): (bytes: Bytes)
    ensures |bytes| == 8
  {
    LittleEndian(v % TWO_64, 8)
  }

  lemma U64RoundTrip(v: int)
    ensures FromLittleEndian(U64(v)) == v % TWO_64
  {
    assert Pow256(8) == TWO_64 by {
      assert Pow256(2) == 0x1_0000;
      assert Pow256(4) == 0x1_0000_0000;
      assert Pow256(6) == 0x1_0000_0000_0000;
    }
    LittleEndianRoundTrip(v % TWO_64, 8);
  }

  // ---------------------------------------------------------------------------------------
  // Commit envelopes
  // ---------------------------------------------------------------------------------------

  function From(bytes: Bytes, start: nat): Bytes {
    if start <= |bytes| then bytes[start..] else []
  }

  /** The 32 bytes at a place where one layer was written over another, over zeros. */
  function Slot(top: Bytes, middle: Bytes, bottom: Bytes): (field: Bytes)
    ensures |field| == 32
    ensures forall i :: 0 <= i < 32 ==>
              field[i] == if i < |top| then top[i] else if i < |middle| then middle[i]
                else if i < |bottom| then bottom[i] else 0
  {
    seq(32, i requires 0 <= i < 32 =>
      if i < |top| then top[i] else if i < |middle| then middle[i] else if i < |bottom| then bottom[i] else 0)
  }

  datatype SignedCommit = SignedCommit(
    seal: Bytes, parentCount: Byte, parent0: Bytes, parent1: Bytes, timestamp: nat, message: Bytes)

  /** A commit as received: hashes are hexadecimal text, absent parents are missing or empty. */
  datatype Commit = Commit(
    sealHash: string, parentCount: Option<int>, parents: seq<string>, timestamp: int, message: Bytes)
  {
    function Seal(): Bytes {
      HexToBytes(sealHash)
    }

    function Parent(i: nat): Bytes {
      if i < |parents| && parents[i] != "" then HexToBytes(parents[i]) else ZERO_SEAL
    }

    function Text(): Bytes {
      if |message| <= 256 then message else message[..256]
    }

    /** Some hash reaches past the end of the envelope, which is an error. The layout reserves 32
        bytes for every hash, but nothing checks their length. */
    predicate Overruns() {
      var end := 115 + |Text()|;
      10 + |Seal()| > end || 43 + |Parent(0)| > end || 75 + |Parent(1)| > end
    }

    /** Everything a signature over the envelope commits to. A short hash is filled up, with what an
        over-long one before it left there or else with zeros. */
    function Signed(): SignedCommit {
      SignedCommit(
        Slot(Seal(), [], []),
        ((if parentCount.Some? then parentCount.value else 1) % 256) as Byte,
        Slot(Parent(0), From(Seal(), 33), []),
        Slot(Parent(1), From(Parent(0), 32), From(Seal(), 65)),
        timestamp % TWO_64, Text())
    }
  }

  /** The envelope of a commit that does not overrun it. */
  function CommitEnvelope(c: Commit): Bytes {
    var s := c.Signed();
    COMMIT_MAGIC + s.seal + [s.parentCount] + s.parent0 + s.parent1 + U64(c.timestamp) + s.message
  }

  function DecodeCommit(e: Bytes): SignedCommit
    requires |e| >= 115
  {
    SignedCommit(e[10..42], e[42], e[43..75], e[75..107], FromLittleEndian(e[107..115]), e[115..])
  }

  lemma CommitFields(magic: Bytes, s: SignedCommit, time: Bytes)
    requires |magic| == 10 && |s.seal| == |s.parent0| == |s.parent1| == 32 && |time| == 8
    ensures var e := magic + s.seal + [s.parentCount] + s.parent0 + s.parent1 + time + s.message;
            && |e| >= 115 && e[10..42] == s.seal && e[42] == s.parentCount && e[43..75] == s.parent0
            && e[75..107] == s.parent1 && e[107..115] == time && e[115..] == s.message
  {
  }

  /** The envelope carries exactly the signed fields: they can be read back from it. */
  lemma CommitRoundTrip(c: Commit)
    ensures |CommitEnvelope(c)| >= 115 && DecodeCommit(CommitEnvelope(c)) == c.Signed()
  {
    U64RoundTrip(c.timestamp);
    var s := c.Signed();
    assert |s.seal| == 32 && |s.parent0| == 32 && |s.parent1| == 32 && s.timestamp == c.timestamp % TWO_64;
    hide HexToBytes, U64, FromLittleEndian, Commit.Signed;
    CommitFields(COMMIT_MAGIC, s, U64(c.timestamp));
  }

  lemma SameRemainder(a: Commit, b: Commit)
    requires a.Signed() == b.Signed()
    ensures U64(a.timestamp) == U64(b.timestamp)
  {
  }

  lemma SameSignedSameEnvelope(a: Commit, b: Commit)
    requires a.Signed() == b.Signed()
    ensures CommitEnvelope(a) == CommitEnvelope(b)
  {
    hide Commit.Signed, U64;
    assert U64(a.timestamp) == U64(b.timestamp) by { SameRemainder(a, b); }
  }

  /** Two commits share an envelope exactly when they agree on every signed field. */
  lemma CommitEnvelopeKernel(a: Commit, b: Commit)
    ensures CommitEnvelope(a) == CommitEnvelope(b) <==> a.Signed() == b.Signed()
  {
    CommitRoundTrip(a);
    CommitRoundTrip(b);
    if a.Signed() == b.Signed() {
      hide CommitEnvelope;
      SameSignedSameEnvelope(a, b);
    }
  }

  /** Hashes of the reserved length are what they are in the envelope, whatever lies around them. */
  lemma FullSlot(top: Bytes, middle: Bytes, bottom: Bytes)
    requires |top| == 32
    ensures Slot(top, middle, bottom) == top
  {
  }

  lemma SignedOfFitting(c: Commit)
    requires |c.Seal()| == |c.Parent(0)| == |c.Parent(1)| == 32
    requires |c.message| <= 256 && 0 <= c.timestamp < TWO_64 && c.parentCount.Some? && 0 <= c.parentCount.value < 256
    ensures c.Signed() ==
              SignedCommit(c.Seal(), c.parentCount.value as Byte, c.Parent(0), c.Parent(1), c.timestamp, c.message)
  {
    hide Slot, Commit.Seal, Commit.Parent, From;
    FullSlot(c.Seal(), [], []);
    FullSlot(c.Parent(0), From(c.Seal(), 33), []);
    FullSlot(c.Parent(1), From(c.Parent(0), 32), From(c.Seal(), 65));
  }

  /** For values that fit their fields nothing is lost: equal envelopes mean equal commits. */
  lemma FittingCommitsAreInjective(a: Commit, b: Commit)
    requires CommitEnvelope(a) == CommitEnvelope(b)
    requires forall c :: c in {a, b} ==>
               && |c.Seal()| == |c.Parent(0)| == |c.Parent(1)| == 32
               && |c.message| <= 256 && 0 <= c.timestamp < TWO_64
               && c.parentCount.Some? && 0 <= c.parentCount.value < 256
    ensures a.Seal() == b.Seal() && a.parentCount == b.parentCount
    ensures a.Parent(0) == b.Parent(0) && a.Parent(1) == b.Parent(1)
    ensures a.timestamp == b.timestamp && a.message == b.message
  {
    CommitEnvelopeKernel(a, b);
    forall c | c in {a, b}
      ensures c.Signed() ==
                SignedCommit(c.Seal(), c.parentCount.value as Byte, c.Parent(0), c.Parent(1), c.timestamp, c.message)
    {
      SignedOfFitting(c);
    }
    hide HexToBytes, CommitEnvelope, Commit.Signed, Commit.Seal, Commit.Parent;
    assert a in {a, b} && b in {a, b};
  }

  predicate IsZero(bytes: Bytes) {
    forall i :: 0 <= i < |bytes| ==> bytes[i] == 0
  }

  /** A seal hash shorter than its place is ambiguous with itself and zero bytes behind it, and with
      nothing else of at most that length. */
  lemma ShortSealsAgreeIff(a: Bytes, b: Bytes)
    requires |a| <= |b| <= 32
    ensures Slot(a, [], []) == Slot(b, [], []) <==> b[..|a|] == a && IsZero(b[|a|..])
  {
    hide Slot;
    if Slot(a, [], []) == Slot(b, [], []) {
      forall i | 0 <= i < |b| ensures b[i] == if i < |a| then a[i] else 0 {
        assert Slot(b, [], [])[i] == b[i];
      }
      assert b[..|a|] == a;
    } else {
      var i :| 0 <= i < 32 && Slot(a, [], [])[i] != Slot(b, [], [])[i];
      assert i < |b| && (if i < |a| then a[i] else 0) != b[i];
      assert b[..|a|] == a && i >= |a| ==> b[|a|..][i - |a|] == b[i];
      assert i < |a| ==> b[..|a|][i] == b[i];
    }
  }

  /** Without a parent count one parent is counted. */
  lemma MissingCountIsOne(c: Commit)
    requires c.parentCount.None?
    ensures CommitEnvelope(c) == CommitEnvelope(c.(parentCount := Some(1)))
    ensures c.Signed().parentCount == 1
  {
    var d := c.(parentCount := Some(1));
    assert c.Seal() == d.Seal() && c.Parent(0) == d.Parent(0) && c.Parent(1) == d.Parent(1) && c.Text() == d.Text();
    hide Commit.Seal, Commit.Parent, Commit.Text, Slot, From, U64;
  }

  /** A missing or empty parent hash is 32 zero bytes, however long the hashes before it are. */
  lemma MissingParentIsZero(c: Commit)
    ensures |c.parents| < 1 || c.parents[0] == "" ==> forall i :: 0 <= i < 32 ==> c.Signed().parent0[i] == 0
    ensures |c.parents| < 2 || c.parents[1] == "" ==> forall i :: 0 <= i < 32 ==> c.Signed().parent1[i] == 0
  {
    assert |ZERO_SEAL| == 32;
    assert forall i :: 0 <= i < 32 ==> ZERO_SEAL[i] == 0;
    hide Commit.Seal, Slot;
  }

  // ---------------------------------------------------------------------------------------
  // Approval and resolution envelopes: an id ended by a zero byte, then free text
  // ---------------------------------------------------------------------------------------

  function Terminated(id: Bytes, text: Bytes): Bytes {
    id + [0] + text
  }

  /** Reads up to the first zero byte. */
  function DecodeTerminated(e: Bytes): Option<(Bytes, Bytes)> {
    if e == [] then None
    else if e[0] == 0 then Some(([], e[1..]))
    else
      var rest := DecodeTerminated(e[1..]);
      if rest.None? then None else Some(([e[0]] + rest.value.0, rest.value.1))
  }

  lemma {:induction false} DecodedIdHasNoZero(e: Bytes)
    ensures DecodeTerminated(e).Some? ==> 0 !in DecodeTerminated(e).value.0
  {
    if e == [] {
    } else {
      DecodedIdHasNoZero(e[1..]);
    }
  }

  /** Reading back gives the id and text exactly when the id has no zero byte. */
  lemma {:induction false} TerminatedRoundTrip(id: Bytes, text: Bytes)
    ensures DecodeTerminated(Terminated(id, text)) == Some((id, text)) <==> 0 !in id
  {
    var e := Terminated(id, text);
    DecodedIdHasNoZero(e);
    if id == [] {
      assert e[1..] == text;
    } else if 0 !in id {
      assert e[1..] == Terminated(id[1..], text);
      TerminatedRoundTrip(id[1..], text);
      assert [id[0]] + id[1..] == id;
    }
  }

  function ApproveEnvelope(timestamp: int, crId: Bytes, rationale: Bytes): Bytes {
    APPROVE_MAGIC + U64(timestamp) + Terminated(crId, rationale)
  }

  function ResolveEnvelope(chooseTarget: bool, timestamp: int, recordId: Bytes, rationale: Bytes): Bytes {
    RESOLVE_MAGIC + [if chooseTarget then 1 else 2] + U64(timestamp) + Terminated(recordId, rationale)
  }

  function DecodeApprove(e: Bytes): (nat, Option<(Bytes, Bytes)>)
    requires |e| >= 22
  {
    (FromLittleEndian(e[14..22]), DecodeTerminated(e[22..]))
  }

  function DecodeResolve(e: Bytes): (bool, nat, Option<(Bytes, Bytes)>)
    requires |e| >= 20
  {
    (e[11] == 1, FromLittleEndian(e[12..20]), DecodeTerminated(e[20..]))
  }

  /** An approval envelope reads back as what was approved exactly when the id has no zero byte. */
  lemma ApproveRoundTrip(timestamp: int, crId: Bytes, rationale: Bytes)
    ensures var e := ApproveEnvelope(timestamp, crId, rationale);
            |e| >= 22 && (DecodeApprove(e) == (timestamp % TWO_64, Some((crId, rationale))) <==> 0 !in crId)
  {
    var e := ApproveEnvelope(timestamp, crId, rationale);
    assert e[14..22] == U64(timestamp) && e[22..] == Terminated(crId, rationale);
    U64RoundTrip(timestamp);
    TerminatedRoundTrip(crId, rationale);
  }

  lemma ResolveRoundTrip(target: bool, timestamp: int, recordId: Bytes, rationale: Bytes)
    ensures var e := ResolveEnvelope(target, timestamp, recordId, rationale);
            |e| >= 20 && (DecodeResolve(e) == (target, timestamp % TWO_64, Some((recordId, rationale))) <==>
              0 !in recordId)
  {
    var e := ResolveEnvelope(target, timestamp, recordId, rationale);
    assert e[12..20] == U64(timestamp) && e[20..] == Terminated(recordId, rationale);
    U64RoundTrip(timestamp);
    TerminatedRoundTrip(recordId, rationale);
  }

  /** Without zero bytes in the ids, one signature can approve one thing only. */
  lemma ApproveInjective(t: int, id: Bytes, text: Bytes, t': int, id': Bytes, text': Bytes)
    requires 0 !in id && 0 !in id' && ApproveEnvelope(t, id, text) == ApproveEnvelope(t', id', text')
    ensures t % TWO_64 == t' % TWO_64 && id == id' && text == text'
  {
    ApproveRoundTrip(t, id, text);
    ApproveRoundTrip(t', id', text');
  }

  lemma ResolveInjective(c: bool, t: int, id: Bytes, text: Bytes, c': bool, t': int, id': Bytes, text': Bytes)
    requires 0 !in id && 0 !in id' && ResolveEnvelope(c, t, id, text) == ResolveEnvelope(c', t', id', text')
    ensures c == c' && t % TWO_64 == t' % TWO_64 && id == id' && text == text'
  {
    ResolveRoundTrip(c, t, id, text);
    ResolveRoundTrip(c', t', id', text');
  }

  /** Any id with a zero byte is ambiguous: cutting it there approves another id with the same bytes. */
  lemma ZeroByteIsAmbiguous(t: int, id: Bytes, text: Bytes, k: nat)
    requires k < |id| && id[k] == 0
    ensures ApproveEnvelope(t, id, text) == ApproveEnvelope(t, id[..k], id[k + 1..] + [0] + text)
    ensures id[..k] != id
  {
    assert Terminated(id, text) == Terminated(id[..k], id[k + 1..] + [0] + text);
  }

  predicate Spells(bytes: Bytes, text: string) {
    |bytes| == |text| && forall i :: 0 <= i < |text| ==> bytes[i] as int == text[i] as int
  }

  lemma MagicsSpell()
    ensures Spells(COMMIT_MAGIC, "S3ACOMMIT1")
    ensures Spells(APPROVE_MAGIC, "S3ACR_APPROVE1")
    ensures Spells(RESOLVE_MAGIC, "S3AVCS_RES1")
  {
  }

  /** What every envelope starts with: the name of its kind, then, for a resolution, a one for the
      target and a two for the source, then the time, the id, a zero byte and the text. */
  lemma EnvelopesStart(c: Commit, t: int, id: Bytes, text: Bytes, target: bool)
    ensures |CommitEnvelope(c)| >= 10 && Spells(CommitEnvelope(c)[..10], "S3ACOMMIT1")
    ensures var e := ApproveEnvelope(t, id, text);
            |e| >= 14 && Spells(e[..14], "S3ACR_APPROVE1") && e[14..] == U64(t) + id + [0] + text
    ensures var e := ResolveEnvelope(target, t, id, text);
            && |e| >= 12 && Spells(e[..11], "S3AVCS_RES1") && e[11] == (if target then 1 else 2)
            && e[12..] == U64(t) + id + [0] + text
  {
    MagicsSpell();
    hide Spells, U64, Commit.Signed;
    assert CommitEnvelope(c)[..10] == COMMIT_MAGIC;
    assert U64(t) + Terminated(id, text) == U64(t) + id + [0] + text;
    hide Terminated;
    assert ApproveEnvelope(t, id, text)[..14] == APPROVE_MAGIC;
    assert ApproveEnvelope(t, id, text)[14..] == U64(t) + Terminated(id, text);
    assert ResolveEnvelope(target, t, id, text)[..11] == RESOLVE_MAGIC;
    assert ResolveEnvelope(target, t, id, text)[12..] == U64(t) + Terminated(id, text);
  }

  lemma LittleEndianStart(v: nat, rest: nat)
    ensures LittleEndian(v, rest + 1) == [(v % 256) as Byte] + LittleEndian(v / 256, rest)
  {
  }

  lemma {:induction false} ZerosAlone(width: nat)
    ensures forall i :: 0 <= i < width ==> LittleEndian(0, width)[i] == 0
  {
    if width == 0 {
    } else {
      ZerosAlone(width - 1);
    }
  }

  lemma RemainderOfRemainder(v: int)
    ensures (v % TWO_64) % 256 == v % 256
  {
    var q, r := v / TWO_64, v % TWO_64;
    assert TWO_64 == 256 * 0x100_0000_0000_0000;
    assert v == 256 * (0x100_0000_0000_0000 * q) + r;
  }

  /** The lowest byte of a number comes first, and the rest follows in the same way. */
  lemma LowestByteFirst(v: int)
    ensures U64(v)[0] as int == v % 256
    ensures 0 <= v < 256 ==> U64(v)[1..] == [0, 0, 0, 0, 0, 0, 0]
  {
    LittleEndianStart(v % TWO_64, 7);
    RemainderOfRemainder(v);
    if 0 <= v < 256 {
      assert LittleEndian(0, 7) == [0, 0, 0, 0, 0, 0, 0] by { ZerosAlone(7); }
      hide LittleEndian;
    }
  }

  /** No byte string is an envelope of two kinds. */
  lemma KindsAreDisjoint(c: Commit, t: int, id: Bytes, text: Bytes, target: bool, t': int, id': Bytes, text': Bytes)
    ensures CommitEnvelope(c) != ApproveEnvelope(t, id, text)
    ensures CommitEnvelope(c) != ResolveEnvelope(target, t', id', text')
    ensures ApproveEnvelope(t, id, text) != ResolveEnvelope(target, t', id', text')
  {
    hide U64, Terminated, Commit.Signed;
    assert CommitEnvelope(c)[3] == 67 && CommitEnvelope(c)[4] == 79;
    assert ApproveEnvelope(t, id, text)[3] == 67 && ApproveEnvelope(t, id, text)[4] == 82;
    assert ResolveEnvelope(target, t', id', text')[3] == 86;
  }

  // ---------------------------------------------------------------------------------------
  // The array-writing code
  // ---------------------------------------------------------------------------------------

  /** `bytes` with `src` written at an offset. */
  function Written(bytes: Bytes, src: Bytes, off: nat): (result: Bytes)
    requires off + |src| <= |bytes|
    ensures |result| == |bytes|
    ensures forall i :: 0 <= i < |bytes| ==> result[i] == if off <= i < off + |src| then src[i - off] else bytes[i]
  {
    bytes[..off] + src + bytes[off + |src|..]
  }

  /** `dst.set(src, off)`: a source that does not fit is an error, and nothing is written. */
  method SetBytes(dst: array<Byte>, src: Bytes, off: nat) returns (ok: bool)
    modifies dst
    ensures ok <==> off + |src| <= dst.Length
    ensures dst[..] == if ok then Written(old(dst[..]), src, off) else old(dst[..])
  {
    ok := off + |src| <= dst.Length;
    if ok {
      forall i | 0 <= i < |src| { dst[off + i] := src[i]; }
    }
  }

  method AppendBytes(dst: array<Byte>, src: Bytes, off: nat) returns (next: nat)
    requires off + |src| <= dst.Length
    modifies dst
    ensures next == off + |src|
    ensures dst[..next] == old(dst[..off]) + src
  {
    var ok := SetBytes(dst, src, off);
    next := off + |src|;
    assert dst[..next] == dst[..][..next];
    assert old(dst[..off]) == old(dst[..])[..off];
  }

  lemma TerminatedLast(start: Bytes, id: Bytes, text: Bytes)
    ensures start + id + [0] + text == start + Terminated(id, text)
  {
  }

  lemma LayoutParts(c: Commit, b: Bytes, b0: Bytes, b1: Bytes, b2: Bytes, b3: Bytes, b4: Bytes, b5: Bytes, b6: Bytes)
    requires !c.Overruns() && |b| == 115 + |c.Text()| && IsZero(b)
    requires b0 == Written(b, COMMIT_MAGIC, 0) && b1 == Written(b0, c.Seal(), 10)
    requires b2 == b1[42 := c.Signed().parentCount]
    requires b3 == Written(b2, c.Parent(0), 43) && b4 == Written(b3, c.Parent(1), 75)
    requires b5 == Written(b4, U64(c.timestamp), 107) && b6 == Written(b5, c.Text(), 115)
    ensures |b6| == 115 + |c.Text()| && b6[..10] == COMMIT_MAGIC && b6[10..42] == c.Signed().seal
    ensures b6[42] == c.Signed().parentCount
    ensures b6[43..75] == c.Signed().parent0 && b6[75..107] == c.Signed().parent1
    ensures b6[107..115] == U64(c.timestamp) && b6[115..] == c.Text()
  {
    hide Slot, HexToBytes, U64, Commit.Seal, Commit.Parent, Written;
  }

  /** The six writes of `computeCommitEnvelope`, one over the other, give the layout. */
  lemma WritesGiveLayout(c: Commit, b: Bytes, b0: Bytes, b1: Bytes, b2: Bytes, b3: Bytes, b4: Bytes, b5: Bytes,
      b6: Bytes)
    requires !c.Overruns() && |b| == 115 + |c.Text()| && IsZero(b)
    requires b0 == Written(b, COMMIT_MAGIC, 0)
    requires b1 == Written(b0, c.Seal(), 10)
    requires b2 == b1[42 := c.Signed().parentCount]
    requires b3 == Written(b2, c.Parent(0), 43)
    requires b4 == Written(b3, c.Parent(1), 75)
    requires b5 == Written(b4, U64(c.timestamp), 107)
    requires b6 == Written(b5, c.Text(), 115)
    ensures b6 == CommitEnvelope(c)
  {
    var s := c.Signed();
    hide Slot, HexToBytes, U64, Commit.Seal, Commit.Parent, Written;
    LayoutParts(c, b, b0, b1, b2, b3, b4, b5, b6);
    hide Commit.Signed, Commit.Text, Commit.Overruns;
    assert b6 == b6[..10] + b6[10..42] + [b6[42]] + b6[43..75] + b6[75..107] + b6[107..115] + b6[115..];
  }

  /** `computeCommitEnvelope`: the fields are copied to fixed offsets, whatever the length of the
      hashes; a hash that does not fit the envelope at all is an error. */
  method ComputeCommitEnvelope(c: Commit) returns (envelope: Option<array<Byte>>)
    ensures envelope.None? <==> c.Overruns()
    ensures envelope.Some? ==> fresh(envelope.value) && envelope.value[..] == CommitEnvelope(c)
  {
    hide Slot, HexToBytes, U64, Written, CommitEnvelope, Commit.Seal, Commit.Parent;
    var e := new Byte[10 + 32 + 1 + 32 + 32 + 8 + |c.Text()|](_ => 0);
    ghost var b := e[..];
    var ok := SetBytes(e, COMMIT_MAGIC, 0);
    ghost var b0 := e[..];
    ok := SetBytes(e, c.Seal(), 10);
    if !ok { return None; }
    ghost var b1 := e[..];
    e[42] := c.Signed().parentCount;
    ghost var b2 := e[..];
    ok := SetBytes(e, c.Parent(0), 43);
    if !ok { return None; }
    ghost var b3 := e[..];
    ok := SetBytes(e, c.Parent(1), 75);
    if !ok { return None; }
    ghost var b4 := e[..];
    ok := SetBytes(e, U64(c.timestamp), 107);
    ghost var b5 := e[..];
    ok := SetBytes(e, c.Text(), 115);
    WritesGiveLayout(c, b, b0, b1, b2, b3, b4, b5, e[..]);
    return Some(e);
  }

  /** The envelope an approval request is checked against. */
  method ComputeApproveEnvelope(timestamp: int, crId: Bytes, rationale: Bytes) returns (envelope: array<Byte>)
    ensures fresh(envelope) && envelope[..] == ApproveEnvelope(timestamp, crId, rationale)
  {
    hide U64, Terminated;
    envelope := new Byte[14 + 8 + |crId| + 1 + |rationale|](_ => 0);
    var off := AppendBytes(envelope, APPROVE_MAGIC, 0);
    off := AppendBytes(envelope, U64(timestamp), off);
    off := AppendBytes(envelope, crId, off);
    off := AppendBytes(envelope, [0], off);
    off := AppendBytes(envelope, rationale, off);
    assert envelope[..] == envelope[..off];
    TerminatedLast(APPROVE_MAGIC + U64(timestamp), crId, rationale);
  }

  /** The envelope a conflict resolution is checked against. */
  method ComputeResolveEnvelope(target: bool, timestamp: int, recordId: Bytes, rationale: Bytes)
    returns (envelope: array<Byte>)
    ensures fresh(envelope) && envelope[..] == ResolveEnvelope(target, timestamp, recordId, rationale)
  {
    hide U64, Terminated;
    ghost var start := RESOLVE_MAGIC + [if target then 1 else 2] + U64(timestamp);
    envelope := new Byte[11 + 1 + 8 + |recordId| + 1 + |rationale|](_ => 0);
    var off := AppendBytes(envelope, RESOLVE_MAGIC, 0);
    off := AppendBytes(envelope, [if target then 1 else 2], off);
    off := AppendBytes(envelope, U64(timestamp), off);
    assert envelope[..off] == start;
    off := AppendBytes(envelope, recordId, off);
    off := AppendBytes(envelope, [0], off);
    off := AppendBytes(envelope, rationale, off);
    assert envelope[..] == envelope[..off];
    TerminatedLast(start, recordId, rationale);
  }
}
