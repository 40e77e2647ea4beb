/**
 Whose approvals count as two: how a supervisor key may be spelled, which spellings the check for a
 second person recognises, and what a signature on record stands for.

 An allowed key is compared trimmed and in lower case, but the check for a second person compares
 the keys untrimmed. The same key with a blank behind it passes for another one, unless the key
 belongs to a supervisor known by name.
 */
module Supervisors {
  import opened Prelude
  import opened Text
  import opened Hex
  import opened CR = ChangeRequests
  import Envelopes
  import opened Tasks

  /** A key as the list of allowed keys knows it. */
  function NormalKey(pubkey: string): string {
    ToLower(Trim(pubkey))
  }

  predicate IsLowerHex(s: string) {
    forall i :: 0 <= i < |s| ==> '0' <= s[i] <= '9' || 'a' <= s[i] <= 'f'
  }

  /** Every allowed key is 64 hexadecimal digits, as an Ed25519 key has to be. */
  ghost predicate WellConfigured(env: Env) {
    forall k :: k in env.supervisors ==> |k| == 64 && IsLowerHex(k)
  }

  predicate IsAshley(key: string) {
    "7988cfd6" <= key || "91f13001" <= key || "fc8f1671" <= key
  }

  predicate IsWard(key: string) {
    "00a1ab12" <= key || "15eb471d" <= key || "b81765c7" <= key
  }

  // ---------------------------------------------------------------------------------------
  // Names and the check for a second person
  // ---------------------------------------------------------------------------------------

  lemma LettersAround(x: string, i: nat)
    requires i < |"Supervisor (" + x + ")"| && LowerChar(("Supervisor (" + x + ")")[i]) in {'w', 'y'}
    ensures ("Supervisor (" + x + ")")[i] in x
  {
    var head := "Supervisor (";
    assert forall j :: 0 <= j < |head| ==> LowerChar(head[j]) !in {'w', 'y'};
    assert forall j :: 0 <= j < |head| ==> ("Supervisor (" + x + ")")[j] == head[j];
    assert i >= |head| && i - |head| < |x|;
    assert ("Supervisor (" + x + ")")[i] == x[i - |head|];
  }

  /** The name of a supervisor not known by name has no "w" or "y" that the key does not have. */
  lemma UnnamedLetters(pubkey: string, c: char)
    requires !IsAshley(NormalKey(pubkey)) && !IsWard(NormalKey(pubkey)) && pubkey != "" && c in {'w', 'y'}
    ensures c in ToLower(SupervisorName(pubkey)) ==> c in NormalKey(pubkey)
  {
    var name := SupervisorName(pubkey);
    LowerAt(name);
    if c in ToLower(name) {
      var i :| 0 <= i < |name| && LowerChar(name[i]) == c;
      var x := if |pubkey| > 8 then pubkey[..8] else pubkey;
      assert name == "Supervisor (" + x + ")";
      LettersAround(x, i);
      assert name[i] in pubkey;
      TrimStartKeeps(pubkey, name[i]);
      TrimEndKeeps(TrimStart(pubkey), name[i]);
      LowerAt(Trim(pubkey));
      var j :| 0 <= j < |Trim(pubkey)| && Trim(pubkey)[j] == name[i];
      assert NormalKey(pubkey)[j] == c;
    }
  }

  lemma LowerLetters(s: string, start: string, c: char)
    requires |start| <= |s| && forall i :: 0 <= i < |start| ==> LowerChar(s[i]) == start[i]
    requires forall i :: 0 <= i < |s| ==> LowerChar(s[i]) != c
    ensures start <= ToLower(s) && c !in ToLower(s)
  {
    LowerAt(s);
  }

  lemma AshleyLetters()
    ensures "ashley" <= ToLower("Ashley (Supervisor)") && 'w' !in ToLower("Ashley (Supervisor)")
  {
    hide ToLower;
    LowerLetters("Ashley (Supervisor)", "ashley", 'w');
  }

  lemma WardLetters()
    ensures "ward" <= ToLower("Ward (Supervisor)") && 'y' !in ToLower("Ward (Supervisor)")
  {
    hide ToLower;
    LowerLetters("Ward (Supervisor)", "ward", 'y');
  }

  lemma NotBoth(key: string)
    ensures !(IsAshley(key) && IsWard(key))
  {
    if IsAshley(key) {
      assert key[0] in {'7', '9', 'f'};
    }
    if IsWard(key) {
      assert key[0] in {'0', '1', 'b'};
    }
  }

  /** Without its telling letter a name does not contain the supervisor's. */
  lemma LettersTell(name: string)
    ensures 'y' !in name ==> !Contains(name, "ashley")
    ensures 'w' !in name ==> !Contains(name, "ward")
  {
    assert "ashley"[5] == 'y' && "ward"[0] == 'w';
    if Contains(name, "ashley") { ContainsChar(name, "ashley", 'y'); }
    if Contains(name, "ward") { ContainsChar(name, "ward", 'w'); }
  }

  /** The name tells exactly the two supervisors known by their key prefixes. */
  lemma NameTells(pubkey: string)
    requires IsLowerHex(NormalKey(pubkey)) && pubkey != ""
    ensures Contains(ToLower(SupervisorName(pubkey)), "ashley") <==> IsAshley(NormalKey(pubkey))
    ensures Contains(ToLower(SupervisorName(pubkey)), "ward") <==> IsWard(NormalKey(pubkey))
  {
    hide ToLower;
    var key := NormalKey(pubkey);
    LettersTell(ToLower(SupervisorName(pubkey)));
    NotBoth(key);
    if IsAshley(key) {
      AshleyLetters();
    } else if IsWard(key) {
      WardLetters();
    } else {
      UnnamedLetters(pubkey, 'w');
      UnnamedLetters(pubkey, 'y');
      hide SupervisorName, IsAshley, IsWard, NormalKey;
    }
  }

  /** Everyone else is named by the first eight characters of the key, as written. */
  lemma OthersAreNamedByKey(pubkey: string)
    requires !IsAshley(NormalKey(pubkey)) && !IsWard(NormalKey(pubkey)) && |pubkey| >= 8
    ensures SupervisorName(pubkey) == "Supervisor (" + pubkey[..8] + ")" && SupervisorName("") == "Human Supervisor"
  {
    hide ToLower, Trim;
    assert pubkey[..|pubkey|] == pubkey;
  }

  /** An approval whose key has the form of an allowed one and whose name is that of its key. */
  ghost predicate IsWellFormed(a: Approval) {
    a.reviewerPubkey != "" && IsLowerHex(NormalKey(a.reviewerPubkey))
      && a.supervisorName == SupervisorName(a.reviewerPubkey)
  }

  lemma GenuineIsWellFormed(env: Env, crId: string, a: Approval)
    requires WellConfigured(env) && IsGenuine(env, crId, a)
    ensures IsWellFormed(a) && |NormalKey(a.reviewerPubkey)| == 64
  {
  }

  /** Two approvals count as one person's exactly if the keys are written alike up to case, or
      both are Ashley's, or both are Ward's. */
  lemma SamePersonIff(a: Approval, b: Approval)
    requires IsWellFormed(a) && IsWellFormed(b)
    ensures SamePerson(a, b) <==>
              || ToLower(a.reviewerPubkey) == ToLower(b.reviewerPubkey)
              || (IsAshley(NormalKey(a.reviewerPubkey)) && IsAshley(NormalKey(b.reviewerPubkey)))
              || (IsWard(NormalKey(a.reviewerPubkey)) && IsWard(NormalKey(b.reviewerPubkey)))
  {
    NameTells(a.reviewerPubkey);
    NameTells(b.reviewerPubkey);
    hide ToLower, Contains, SupervisorName, IsAshley, IsWard, NormalKey;
  }

  /** A second approval under the very same key is let through exactly if the key belongs to neither
      Ashley nor Ward and is written differently, which can only be in the blanks around it. */
  lemma RepeatIsMissedIff(a: Approval, b: Approval)
    requires IsWellFormed(a) && IsWellFormed(b) && NormalKey(a.reviewerPubkey) == NormalKey(b.reviewerPubkey)
    ensures !SamePerson(a, b) <==>
              && ToLower(a.reviewerPubkey) != ToLower(b.reviewerPubkey)
              && !IsAshley(NormalKey(a.reviewerPubkey)) && !IsWard(NormalKey(a.reviewerPubkey))
  {
    SamePersonIff(a, b);
  }

  function Respelled(a: Approval, pubkey: string): Approval {
    a.(reviewerPubkey := pubkey, supervisorName := SupervisorName(pubkey))
  }

  lemma BlankBehind(pubkey: string)
    ensures NormalKey(pubkey + " ") == NormalKey(pubkey) && ToLower(pubkey + " ") != ToLower(pubkey)
    ensures pubkey + " " != ""
  {
    TrimDropsBlank(pubkey);
    LowerAt(pubkey);
    LowerAt(pubkey + " ");
  }

  /** Every repetition of a key is noticed, however it is written, exactly if the key belongs to one
      of the two supervisors known by name. */
  lemma RepeatsAreNoticedIff(a: Approval)
    requires IsWellFormed(a)
    ensures (forall pubkey :: pubkey != "" && NormalKey(pubkey) == NormalKey(a.reviewerPubkey) ==>
             SamePerson(a, Respelled(a, pubkey)))
       <==> IsAshley(NormalKey(a.reviewerPubkey)) || IsWard(NormalKey(a.reviewerPubkey))
  {
    forall pubkey | pubkey != "" && NormalKey(pubkey) == NormalKey(a.reviewerPubkey)
      ensures SamePerson(a, Respelled(a, pubkey)) <==>
                || ToLower(a.reviewerPubkey) == ToLower(pubkey)
                || IsAshley(NormalKey(a.reviewerPubkey)) || IsWard(NormalKey(a.reviewerPubkey))
    {
      RepeatIsMissedIff(a, Respelled(a, pubkey));
    }
    BlankBehind(a.reviewerPubkey);
  }

  // ---------------------------------------------------------------------------------------
  // One key, two approvals
  // ---------------------------------------------------------------------------------------

  lemma {:induction false} PairsDropLast(s: string, c: char)
    requires |s| % 2 == 0
    ensures Pairs(s + [c]) == Pairs(s)
    decreases |s|
  {
    hide ParsePair;
    if s == "" {
      assert Pairs([c]) == [];
    } else {
      assert (s + [c])[2..] == s[2..] + [c];
      PairsDropLast(s[2..], c);
    }
  }

  /** A key of full length and the same key with a blank behind it are the same bytes. */
  lemma BlankIsNoByte(key: string)
    requires |key| == 64 && IsLowerHex(key)
    ensures HexToBytes(key + " ") == HexToBytes(key)
  {
    assert key[1] != 'x' && (key + " ")[1] == key[1];
    PairsDropLast(key, ' ');
  }

  lemma NormalAlready(key: string)
    requires key != "" && IsLowerHex(key)
    ensures NormalKey(key) == key
  {
    LowerAt(key);
  }

  lemma CommitTakenIgnoresReview(crs: Crs, k: string, cr: ChangeRequest)
    requires k in crs && SameSubmission(crs[k], cr)
    ensures CommitTaken(crs[k := cr], cr) == CommitTaken(crs, crs[k])
  {
    var crs' := crs[k := cr];
    HighRiskIgnoresReview(crs[k], cr);
    if CommitTaken(crs, crs[k]) {
      var j :| j in crs && crs[j].id != crs[k].id && crs[j].taskId != crs[k].taskId && crs[j].Sha() == crs[k].Sha();
      assert j in crs' && crs'[j] == crs[j];
    }
    if CommitTaken(crs', cr) {
      var j :| j in crs' && crs'[j].id != cr.id && crs'[j].taskId != cr.taskId && crs'[j].Sha() == cr.Sha();
      assert j in crs && crs[j] == crs'[j];
    }
  }

  /** Two requests that pass every check and are not taken for one person's approve and merge a
      high-risk change request. */
  lemma TwoRequestsMerge(env: Env, crs: Crs, tasks: seq<Task>, r: ApproveRequest, again: ApproveRequest)
    requires KeyAllowed(env.supervisors, r.reviewerPubkey) && KeyAllowed(env.supervisors, again.reviewerPubkey)
    requires r.isAdmin && again.isAdmin && r.signature != "" && again.signature != "" && r.crId == again.crId
    requires r.crId in crs
    requires SignatureValid(env, r.crId, r.Given(), r.rationale)
    requires SignatureValid(env, r.crId, again.Given(), again.rationale)
    requires !SamePerson(r.Given(), again.Given())
    requires var cr := crs[r.crId]; ExitOk(cr) && !CommitTaken(crs, cr) && HighRisk(cr) && cr.firstApproval.None?
    ensures var (first, crs1, tasks1) := Approve(env, crs, tasks, r);
            var (second, crs2, _) := Approve(env, crs1, tasks1, again);
            && first == FirstOfTwo && second == ApprovedAndMerged
            && r.crId in crs2 && crs2[r.crId].status == Approved && HighRisk(crs2[r.crId])
  {
    var cr := crs[r.crId];
    var cr1 := cr.(status := PendingReview, firstApproval := Some(r.Given()));
    CommitTakenIgnoresReview(crs, r.crId, cr1);
    HighRiskIgnoresReview(cr, cr1);
    HighRiskIgnoresReview(cr, cr1.(status := Approved, secondApproval := Some(again.Given())));
    assert ExitOk(cr1);
    hide KeyAllowed, SignatureValid, HighRisk, CommitTaken, SamePerson, ExitOk, SupervisorName, UpdateFirst;
  }

  /** A supervisor who is not known by name approves a high-risk change request alone: the request of
      the first approval, sent again with a blank behind the key, counts as the second. Even the
      signature is the same one, since the envelope does not name the key. */
  lemma OneKeySignsTwice(env: Env, crs: Crs, tasks: seq<Task>, r: ApproveRequest)
    requires |r.reviewerPubkey| == 64 && IsLowerHex(r.reviewerPubkey) && r.reviewerPubkey in env.supervisors
    requires !IsAshley(r.reviewerPubkey) && !IsWard(r.reviewerPubkey)
    requires r.isAdmin && r.signature != "" && r.crId in crs && SignatureValid(env, r.crId, r.Given(), r.rationale)
    requires var cr := crs[r.crId]; ExitOk(cr) && !CommitTaken(crs, cr) && HighRisk(cr) && cr.firstApproval.None?
    ensures var again := r.(reviewerPubkey := r.reviewerPubkey + " ");
            var (first, crs1, tasks1) := Approve(env, crs, tasks, r);
            var (second, crs2, _) := Approve(env, crs1, tasks1, again);
            && first == FirstOfTwo && second == ApprovedAndMerged
            && r.crId in crs2 && crs2[r.crId].status == Approved && HighRisk(crs2[r.crId])
            && HexToBytes(again.reviewerPubkey) == HexToBytes(r.reviewerPubkey)
  {
    var again := r.(reviewerPubkey := r.reviewerPubkey + " ");
    NormalAlready(r.reviewerPubkey);
    BlankIsNoByte(r.reviewerPubkey);
    BlankBehind(r.reviewerPubkey);
    assert SignatureValid(env, r.crId, again.Given(), again.rationale);
    hide Approve, SignatureValid, HexToBytes, HighRisk, CommitTaken;
    hide ToLower, Trim, SupervisorName, IsAshley, IsWard, ExitOk;
    RepeatIsMissedIff(r.Given(), again.Given());
    hide SamePerson;
    TwoRequestsMerge(env, crs, tasks, r, again);
  }

  lemma {:induction false} MixedCaseDecodes(hex: string)
    requires |hex| % 2 == 0 && IsLowerHex(ToLower(hex))
    ensures HexDecode(hex).Some?
    decreases |hex|
  {
    LowerAt(hex);
    if hex == "" {
    } else {
      LowerAt(hex[2..]);
      assert forall i :: 0 <= i < |hex| - 2 ==> ToLower(hex[2..])[i] == ToLower(hex)[i + 2];
      MixedCaseDecodes(hex[2..]);
      assert DigitValue(hex[0]).Some? by { assert ToLower(hex)[0] == LowerChar(hex[0]); }
      assert DigitValue(hex[1]).Some? by { assert ToLower(hex)[1] == LowerChar(hex[1]); }
    }
  }

  /** The bytes of a key determine it, up to case. */
  lemma KeyOfBytes(key: string)
    requires |ToLower(key)| == 64 && IsLowerHex(ToLower(key))
    ensures BytesToHex(HexToBytes(key)) == ToLower(key)
  {
    LowerAt(key);
    MixedCaseDecodes(key);
    StrictAgreesWithLenient(key);
  }

  /** With both keys written without blanks around them, approvals not taken for one person's are
      under different keys, as text in normal form and as bytes. */
  lemma TrimmedKeysDiffer(a: Approval, b: Approval)
    requires IsWellFormed(a) && IsWellFormed(b) && !SamePerson(a, b)
    requires |NormalKey(a.reviewerPubkey)| == |NormalKey(b.reviewerPubkey)| == 64
    requires Trim(a.reviewerPubkey) == a.reviewerPubkey && Trim(b.reviewerPubkey) == b.reviewerPubkey
    ensures NormalKey(a.reviewerPubkey) != NormalKey(b.reviewerPubkey)
    ensures HexToBytes(a.reviewerPubkey) != HexToBytes(b.reviewerPubkey)
  {
    KeyOfBytes(a.reviewerPubkey);
    KeyOfBytes(b.reviewerPubkey);
    hide HexToBytes, BytesToHex;
  }

  /** Two allowed keys, different also as bytes. */
  predicate HaveTwoKeys(env: Env, first: string, second: string) {
    && NormalKey(first) in env.supervisors && NormalKey(second) in env.supervisors
    && NormalKey(first) != NormalKey(second) && HexToBytes(first) != HexToBytes(second)
  }

  /** So two approvals on record under keys without blanks, not taken for one person's, are under
      two allowed keys. */
  lemma TrimmedApprovalsHaveTwoKeys(env: Env, crId: string, a: Approval, b: Approval)
    requires WellConfigured(env) && IsGenuine(env, crId, a) && IsGenuine(env, crId, b) && !SamePerson(a, b)
    requires Trim(a.reviewerPubkey) == a.reviewerPubkey && Trim(b.reviewerPubkey) == b.reviewerPubkey
    ensures IsSigned(env, crId, a) && IsSigned(env, crId, b) && HaveTwoKeys(env, a.reviewerPubkey, b.reviewerPubkey)
  {
    GenuineIsWellFormed(env, crId, a);
    GenuineIsWellFormed(env, crId, b);
    hide SamePerson, HexToBytes, IsSigned, WellConfigured, IsWellFormed, Trim, ToLower, SupervisorName;
    TrimmedKeysDiffer(a, b);
  }

  // ---------------------------------------------------------------------------------------
  // What a signature stands for
  // ---------------------------------------------------------------------------------------

  /** Under this key this signature verifies for one message at most. */
  ghost predicate SignsOneMessage(env: Env, key: Bytes, signature: Bytes) {
    forall m, m' :: env.verify(key, m, signature) && env.verify(key, m', signature) ==> m == m'
  }

  /** A signature that verifies for one message only approves one change request, at one time: it
      cannot be on record for another, unless an id has a zero byte in it. */
  lemma SignatureServesOneChangeRequest(env: Env, k: string, a: Approval, k': string, a': Approval)
    requires IsSigned(env, k, a) && IsSigned(env, k', a')
    requires HexToBytes(a.reviewerPubkey) == HexToBytes(a'.reviewerPubkey)
    requires HexToBytes(a.signature) == HexToBytes(a'.signature)
    requires SignsOneMessage(env, HexToBytes(a.reviewerPubkey), HexToBytes(a.signature))
    requires 0 !in env.utf8(k) && 0 !in env.utf8(k') && (env.utf8(k) == env.utf8(k') ==> k == k')
    ensures k == k' && a.timestamp % Envelopes.TWO_64 == a'.timestamp % Envelopes.TWO_64
  {
    var rationale :| SignatureValid(env, k, a, rationale);
    var rationale' :| SignatureValid(env, k', a', rationale');
    hide HexToBytes, Envelopes.ApproveEnvelope;
    Envelopes.ApproveInjective(a.timestamp, env.utf8(k), env.utf8(rationale), a'.timestamp, env.utf8(k'),
      env.utf8(rationale'));
  }
}
