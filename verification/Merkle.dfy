/**
 Merkle commitments over records: the tree hash, the audit path and the iterative verifier of
 `merkle.rs`, with RFC 6962 (sections 2.1 and 2.1.1) as the reference for what they compute.

 The hash is a parameter: any function from byte strings to 32-byte digests. No such function is
 free of collisions, so the security results name the finite set of byte strings that building one
 tree and checking one proof hash, and ask only that the hash does not collide on those.
 */
module Merkle {
  import opened Prelude

  type Digest = d: Bytes | |d| == 32 witness seq(32, _ => 0)
  type Hash = Bytes -> Digest

  const MAX_PROOF_LEN: nat := 64

  function LeafHash(h: Hash, record: Bytes): Digest {
    h([0] + record)
  }

  function NodeHash(h: Hash, left: Digest, right: Digest): Digest {
    h([1] + left + right)
  }

  // ---------------------------------------------------------------------------------------
  // Split point, tree hash and audit path, as section 2.1 of RFC 6962 defines them
  // ---------------------------------------------------------------------------------------

  /** The exponent of the largest power of two strictly below `n`. */
  function SplitExponent(n: nat): (e: nat)
    requires n >= 2
    ensures Pow2(e) < n <= 2 * Pow2(e)
  {
    if n == 2 then 0
    else
      var e := SplitExponent((n + 1) / 2);
      e + 1
  }

  function SplitPoint(n: nat): (k: nat)
    requires n >= 2
    ensures 0 < k < n <= 2 * k
  {
    Pow2(SplitExponent(n))
  }

  /** MTH of RFC 6962: the root over a list of records. */
  function Root(h: Hash, leaves: seq<Bytes>): Digest
    decreases |leaves|
  {
    if |leaves| == 0 then h([])
    else if |leaves| == 1 then LeafHash(h, leaves[0])
    else
      var k := SplitPoint(|leaves|);
      NodeHash(h, Root(h, leaves[..k]), Root(h, leaves[k..]))
  }

  /** The depth of leaf `m` in a tree of `n` leaves. */
  function PathLength(m: nat, n: nat): nat
    requires m < n
    decreases n
  {
    if n == 1 then 0
    else
      var k := SplitPoint(n);
      1 + if m < k then PathLength(m, k) else PathLength(m - k, n - k)
  }

  /** The tree hash in terms of the hash alone: nothing for no record, a zero byte before a single
      record, and otherwise a one byte before the roots of the records up to and from the largest
      power of two below their number. */
  lemma RootMeans(h: Hash, leaves: seq<Bytes>)
    ensures Root(h, []) == h([])
    ensures |leaves| == 1 ==> Root(h, leaves) == h([0] + leaves[0])
    ensures |leaves| > 1 ==>
              exists e: nat :: Pow2(e) < |leaves| <= 2 * Pow2(e)
                && Root(h, leaves) == h([1] + Root(h, leaves[..Pow2(e)]) + Root(h, leaves[Pow2(e)..]))
  {
    if |leaves| > 1 {
      var e := SplitExponent(|leaves|);
      assert Pow2(e) < |leaves| <= 2 * Pow2(e);
    }
  }

  /** PATH of RFC 6962: the siblings of leaf `m`, leaf end first. */
  function AuditPath(h: Hash, m: nat, leaves: seq<Bytes>): (path: seq<Digest>)
    requires m < |leaves|
    ensures |path| == PathLength(m, |leaves|)
    decreases |leaves|
  {
    if |leaves| == 1 then []
    else
      var k := SplitPoint(|leaves|);
      if m < k then AuditPath(h, m, leaves[..k]) + [Root(h, leaves[k..])]
      else AuditPath(h, m - k, leaves[k..]) + [Root(h, leaves[..k])]
  }

  /** The root a path of the right length leads to, following the tree from the top. */
  function RootFromPath(h: Hash, r: Digest, m: nat, n: nat, path: seq<Digest>): Digest
    requires m < n && |path| == PathLength(m, n)
    decreases n
  {
    if n == 1 then r
    else
      var k := SplitPoint(n);
      var sibling, below := path[|path| - 1], path[..|path| - 1];
      if m < k then NodeHash(h, RootFromPath(h, r, m, k, below), sibling)
      else NodeHash(h, sibling, RootFromPath(h, r, m - k, n - k, below))
  }

  lemma SplitAtMostHalf(n: nat, c: nat)
    requires 2 <= n <= Pow2(c)
    ensures c >= 1 && SplitPoint(n) <= Pow2(c - 1)
  {
    var e := SplitExponent(n);
    if e >= c { Pow2Monotonic(c, e); }
    Pow2Monotonic(e, c - 1);
  }

  /** No path is longer than the logarithm of the tree size, rounded up. */
  lemma {:induction false} PathLengthBound(m: nat, n: nat, c: nat)
    requires m < n <= Pow2(c)
    ensures PathLength(m, n) <= c
    decreases n
  {
    if n <= 1 {
    } else {
      var k := SplitPoint(n);
      SplitAtMostHalf(n, c);
      if m < k { PathLengthBound(m, k, c - 1); } else { PathLengthBound(m - k, n - k, c - 1); }
    }
  }

  /** The split point is the only power of two in its range. */
  lemma SplitPointUnique(n: nat, e: nat)
    requires n >= 2 && Pow2(e) < n <= 2 * Pow2(e)
    ensures SplitPoint(n) == Pow2(e)
  {
    var f := SplitExponent(n);
    if e < f { Pow2Monotonic(e + 1, f); }
    if f < e { Pow2Monotonic(f + 1, e); }
  }

  // ---------------------------------------------------------------------------------------
  // The proof generator of merkle.rs
  // ---------------------------------------------------------------------------------------

  /** `split`: doubling until the next double reaches `n`. */
  method Split(n: nat) returns (k: nat)
    requires n >= 2
    ensures k == SplitPoint(n)
  {
    k := 1;
    ghost var e := 0;
    while 2 * k < n
      invariant k == Pow2(e) && k < n
      decreases n - k
    {
      k := 2 * k;
      e := e + 1;
    }
    SplitPointUnique(n, e);
  }

  method ReversePrefix(a: array<Digest>, n: nat)
    requires n <= a.Length
    modifies a
    ensures a[..n] == Reversed(old(a[..n])) && a[n..] == old(a[n..])
  {
    hide Reversed;
    var i := 0;
    while i < n / 2
      invariant 0 <= i <= n / 2
      invariant forall j :: 0 <= j < i ==> a[j] == old(a[n - 1 - j]) && a[n - 1 - j] == old(a[j])
      invariant forall j :: i <= j < n - i ==> a[j] == old(a[j])
      invariant forall j :: n <= j < a.Length ==> a[j] == old(a[j])
    {
      a[i], a[n - 1 - i] := a[n - 1 - i], a[i];
      i := i + 1;
    }
    forall j | 0 <= j < n ensures a[j] == old(a[n - 1 - j]) {
      assert j < n / 2 || n - n / 2 <= j || 2 * j == n - 1;
    }
  }

  lemma PathOfOne(h: Hash, m: nat, leaves: seq<Bytes>)
    requires m < |leaves| == 1
    ensures AuditPath(h, m, leaves) == []
  {
  }

  lemma ReversedOfPush<T>(s: seq<T>, x: T)
    ensures Reversed(s + [x]) == [x] + Reversed(s)
  {
  }

  /** One turn of the walk, on a block of leaves. */
  lemma PathDescends(h: Hash, leaves: seq<Bytes>, lo: nat, size: nat, m: nat)
    requires size >= 2 && lo + size <= |leaves| && m < size
    ensures var k := SplitPoint(size);
            AuditPath(h, m, leaves[lo..lo + size])
            == if m < k then AuditPath(h, m, leaves[lo..lo + k]) + [Root(h, leaves[lo + k..lo + size])]
               else AuditPath(h, m - k, leaves[lo + k..lo + size]) + [Root(h, leaves[lo..lo + k])]
  {
    hide SplitPoint, Root;
    var k := SplitPoint(size);
    var block := leaves[lo..lo + size];
    assert block[..k] == leaves[lo..lo + k] && block[k..] == leaves[lo + k..lo + size];
  }

  /** `inclusion_proof_with`: siblings are collected from the top, then reversed in place. */
  method InclusionProof(h: Hash, leaves: seq<Bytes>, index: nat, out: array<Digest>)
    returns (length: Option<nat>)
    modifies out
    ensures length.None? <==>
              index >= |leaves| || PathLength(index, |leaves|) > out.Length
    ensures length.Some? ==>
              length.value <= out.Length && out[..length.value] == AuditPath(h, index, leaves)
  {
    hide SplitPoint, Root, AuditPath, Reversed, PathLength, LeafHash, NodeHash;
    if index >= |leaves| {
      return None;
    }
    var lo: nat, size: nat, m: nat, len: nat := 0, |leaves|, index, 0;
    assert leaves[0..|leaves|] == leaves;
    while size > 1
      invariant 1 <= size && lo + size <= |leaves| && m < size && len <= out.Length
      invariant AuditPath(h, index, leaves) == AuditPath(h, m, leaves[lo..lo + size]) + Reversed(out[..len])
      decreases size
    {
      var k := Split(size);
      PathDescends(h, leaves, lo, size, m);
      if len >= out.Length {
        return None;
      }
      ghost var collected := out[..len];
      if m < k {
        out[len] := Root(h, leaves[lo + k..lo + size]);
        size := k;
      } else {
        out[len] := Root(h, leaves[lo..lo + k]);
        lo, m, size := lo + k, m - k, size - k;
      }
      assert out[..len + 1] == collected + [out[len]];
      ReversedOfPush(collected, out[len]);
      len := len + 1;
    }
    PathOfOne(h, m, leaves[lo..lo + size]);
    assert AuditPath(h, index, leaves) == Reversed(out[..len]);
    ReversePrefix(out, len);
    length := Some(len);
  }

  // ---------------------------------------------------------------------------------------
  // The verifier of merkle.rs: its loop walks exactly the path of the recursive definition
  // ---------------------------------------------------------------------------------------

  /** The inner loop: a node on the right edge climbs until it is a right child or the root. */
  function SkipRightEdge(f: nat, s: nat): (p: (nat, nat))
    requires f <= s
    ensures p.0 <= p.1 <= s
  {
    if f % 2 == 0 && f != 0 then SkipRightEdge(f / 2, s / 2) else (f, s)
  }

  /** One climb step for sibling `p`: the new position, the new last position, the new hash. */
  function ClimbStep(h: Hash, f: nat, s: nat, r: Digest, p: Digest): (nat, nat, Digest)
    requires f <= s
  {
    if f % 2 == 1 || f == s then
      var (f', s') := if f % 2 == 0 then SkipRightEdge(f, s) else (f, s);
      (f' / 2, s' / 2, NodeHash(h, p, r))
    else
      (f / 2, s / 2, NodeHash(h, r, p))
  }

  /** The whole loop: the hash reached, unless siblings are left over or missing. */
  function Climb(h: Hash, f: nat, s: nat, r: Digest, proof: seq<Digest>): Option<Digest>
    requires f <= s
    decreases |proof|
  {
    if proof == [] then (if s == 0 then Some(r) else None)
    else if s == 0 then None
    else
      var (f', s', r') := ClimbStep(h, f, s, r, proof[0]);
      Climb(h, f', s', r', proof[1..])
  }

  /** What acceptance means, in the terms of section 2.1.1 of RFC 6962 and no loop. */
  predicate Accepts(h: Hash, record: Bytes, index: nat, treeSize: nat, proof: seq<Digest>, root: Digest) {
    && index < treeSize
    && |proof| == PathLength(index, treeSize)
    && RootFromPath(h, LeafHash(h, record), index, treeSize, proof) == root
  }

  /** The hash after the last sibling, given the subtree's result. */
  function Topped(h: Hash, below: Option<Digest>, last: Digest, fromLeft: bool): Option<Digest> {
    if below.None? then None
    else Some(if fromLeft then NodeHash(h, below.value, last) else NodeHash(h, last, below.value))
  }

  lemma LeftTooShort(h: Hash, f: nat, s: nat, f': nat, s': nat, size: nat, r: Digest, r': Digest, proof: seq<Digest>)
    requires |proof| == 1 && f <= s && f <= size && f' <= s' && size > 0 && s' > 0
    requires Climb(h, f, s, r, proof) == Climb(h, f', s', r', proof[1..])
    ensures Climb(h, f, s, r, proof) == Topped(h, Climb(h, f, size, r, proof[..0]), proof[0], true)
  {
    assert proof[1..] == [] == proof[..0];
    hide ClimbStep, NodeHash;
  }

  /** Dropping the first and the last element, in either order. */
  lemma Ends<T>(s: seq<T>)
    requires |s| > 1
    ensures s[1..][..|s| - 2] == s[..|s| - 1][1..] && s[..|s| - 1][0] == s[0] && s[1..][|s| - 2] == s[|s| - 1]
  {
  }

  /** Two leaves: the left one has the other as its only sibling. */
  lemma ClimbPair(h: Hash, r: Digest, proof: seq<Digest>)
    requires proof != []
    ensures Climb(h, 0, 1, r, proof)
         == Topped(h, Climb(h, 0, 0, r, proof[..|proof| - 1]), proof[|proof| - 1], true)
  {
    assert ClimbStep(h, 0, 1, r, proof[0]) == (0, 0, NodeHash(h, r, proof[0]));
    hide NodeHash, ClimbStep;
  }

  /** One step in the left subtree is the same step in the whole tree. */
  lemma LeftStep(h: Hash, f: nat, s: nat, a: nat, r: Digest, p: Digest) returns (r': Digest)
    requires a > 0 && f < Pow2(a) <= s < 2 * Pow2(a)
    ensures f / 2 < Pow2(a - 1) <= s / 2 < 2 * Pow2(a - 1)
    ensures ClimbStep(h, f, s, r, p) == (f / 2, s / 2, r')
    ensures ClimbStep(h, f, Pow2(a) - 1, r, p) == (f / 2, Pow2(a - 1) - 1, r')
  {
    hide NodeHash;
    r' := if f % 2 == 1 then NodeHash(h, p, r) else NodeHash(h, r, p);
    assert Pow2(a) == 2 * Pow2(a - 1);
    assert f == Pow2(a) - 1 ==> f % 2 == 1;
  }

  lemma ClimbUnfold(h: Hash, f: nat, s: nat, r: Digest, proof: seq<Digest>)
    requires f <= s && s > 0 && proof != []
    ensures var (f', s', r') := ClimbStep(h, f, s, r, proof[0]);
            Climb(h, f, s, r, proof) == Climb(h, f', s', r', proof[1..])
  {
    hide ClimbStep;
  }

  /** In the left, perfect subtree the climb does the same steps, then meets the last sibling. */
  lemma {:induction false} ClimbLeft(h: Hash, f: nat, s: nat, a: nat, r: Digest, proof: seq<Digest>)
    requires f < Pow2(a) <= s < 2 * Pow2(a) && proof != []
    ensures Climb(h, f, s, r, proof)
         == Topped(h, Climb(h, f, Pow2(a) - 1, r, proof[..|proof| - 1]), proof[|proof| - 1], true)
    decreases a
  {
    if a == 0 {
      assert f == 0 && s == 1 && Pow2(a) == 1;
      hide *;
      ClimbPair(h, r, proof);
    } else {
      var r' := LeftStep(h, f, s, a, r, proof[0]);
      var below, size, half := proof[..|proof| - 1], Pow2(a) - 1, Pow2(a - 1);
      assert s > 0 && size > 0;
      if |proof| > 1 {
        ClimbLeft(h, f / 2, s / 2, a - 1, r', proof[1..]);
        Ends(proof);
      }
      hide Pow2, ClimbStep, NodeHash, Climb, Topped;
      ClimbUnfold(h, f, s, r, proof);
      if |proof| == 1 {
        LeftTooShort(h, f, s, f / 2, s / 2, size, r, r', proof);
      } else {
        ClimbUnfold(h, f, size, r, below);
      }
    }
  }

  /** Dropping the lowest bits of a position on the right edge is the same in the whole tree
      (top bit set) as in its right subtree. */
  lemma {:induction false} SkipInRightSubtree(f: nat, a: nat) returns (b: nat)
    requires 0 < f < Pow2(a)
    ensures b <= a
    ensures var (g, _) := SkipRightEdge(f, f);
            && g % 2 == 1 && g < Pow2(b) && b >= 1
            && SkipRightEdge(f, f) == (g, g)
            && SkipRightEdge(Pow2(a) + f, Pow2(a) + f) == (Pow2(b) + g, Pow2(b) + g)
    decreases f
  {
    assert a >= 1;
    if f % 2 == 1 {
      b := a;
    } else {
      assert (Pow2(a) + f) / 2 == Pow2(a - 1) + f / 2;
      b := SkipInRightSubtree(f / 2, a - 1);
    }
  }

  lemma HalfOfSum(p: nat, x: nat)
    ensures (2 * p + x) / 2 == p + x / 2 && (2 * p + x) % 2 == x % 2
  {
  }

  lemma PlainRightStep(h: Hash, f: nat, s: nat, x: nat, r: Digest, p: Digest)
    requires f <= s < 2 * x && !(f == s && f % 2 == 0)
    ensures var (f', s', r') := ClimbStep(h, f, s, r, p);
            f' <= s' < x && ClimbStep(h, 2 * x + f, 2 * x + s, r, p) == (x + f', x + s', r')
  {
    hide NodeHash, SkipRightEdge;
    HalfOfSum(x, f);
    HalfOfSum(x, s);
  }

  lemma LoneRightStep(h: Hash, f: nat, x: nat, y: nat, r: Digest, p: Digest)
    requires f > 0 && f % 2 == 0
    requires var g := SkipRightEdge(f, f).0;
             && SkipRightEdge(f, f) == (g, g) && g < 2 * y
             && SkipRightEdge(2 * x + f, 2 * x + f) == (2 * y + g, 2 * y + g)
    ensures var (f', s', r') := ClimbStep(h, f, f, r, p);
            f' == s' < y && ClimbStep(h, 2 * x + f, 2 * x + f, r, p) == (y + f', y + s', r')
  {
    hide NodeHash, SkipRightEdge;
    HalfOfSum(x, f);
    HalfOfSum(y, SkipRightEdge(f, f).0);
  }

  /** One step in the right subtree is the same step in the whole tree, the top bit aside. */
  lemma RightStep(h: Hash, f: nat, s: nat, a: nat, r: Digest, p: Digest) returns (b: nat)
    requires f <= s < Pow2(a) && s > 0
    ensures var (f', s', r') := ClimbStep(h, f, s, r, p);
            && f' <= s' < Pow2(b)
            && ClimbStep(h, Pow2(a) + f, Pow2(a) + s, r, p) == (Pow2(b) + f', Pow2(b) + s', r')
  {
    if f == s && f % 2 == 0 {
      var c := SkipInRightSubtree(f, a);
      b := c - 1;
      assert Pow2(a) == 2 * Pow2(a - 1) && Pow2(c) == 2 * Pow2(b);
      hide Pow2, ClimbStep, SkipRightEdge;
      LoneRightStep(h, f, Pow2(a - 1), Pow2(b), r, p);
    } else {
      b := a - 1;
      assert Pow2(a) == 2 * Pow2(b);
      hide Pow2, ClimbStep;
      PlainRightStep(h, f, s, Pow2(b), r, p);
    }
  }

  /** The root's own last step: a lone right-edge node is lifted straight to the top. */
  lemma {:induction false} SkipAlone(a: nat)
    ensures SkipRightEdge(Pow2(a), Pow2(a)) == (1, 1)
  {
    if a == 0 {
    } else {
      SkipAlone(a - 1);
    }
  }

  /** A subtree that is a single node: only the one sibling above it may follow. */
  lemma ClimbFromLastLeaf(h: Hash, a: nat, r: Digest, proof: seq<Digest>)
    requires proof != []
    ensures Climb(h, Pow2(a), Pow2(a), r, proof)
         == if |proof| == 1 then Some(NodeHash(h, proof[0], r)) else None
  {
    SkipAlone(a);
    hide Pow2;
    assert ClimbStep(h, Pow2(a), Pow2(a), r, proof[0]) == (0, 0, NodeHash(h, proof[0], r));
    hide ClimbStep;
  }

  /** In the right subtree positions only lack the top bit, so the climb is the same until the
      subtree's root meets the last sibling from the right. */
  lemma {:induction false} ClimbRight(h: Hash, f: nat, s: nat, a: nat, r: Digest, proof: seq<Digest>)
    requires f <= s < Pow2(a) && proof != []
    ensures Climb(h, Pow2(a) + f, Pow2(a) + s, r, proof)
         == Topped(h, Climb(h, f, s, r, proof[..|proof| - 1]), proof[|proof| - 1], false)
    decreases |proof|
  {
    hide Pow2, ClimbStep, NodeHash;
    if s == 0 {
      ClimbFromLastLeaf(h, a, r, proof);
    } else {
      var below := proof[..|proof| - 1];
      var (f', s', r') := ClimbStep(h, f, s, r, proof[0]);
      var b := RightStep(h, f, s, a, r, proof[0]);
      ClimbUnfold(h, Pow2(a) + f, Pow2(a) + s, r, proof);
      if |proof| > 1 {
        ClimbUnfold(h, f, s, r, below);
        hide Climb;
        Ends(proof);
        ClimbRight(h, f', s', b, r', proof[1..]);
      }
    }
  }

  lemma ClimbBase(h: Hash, m: nat, n: nat, r: Digest, proof: seq<Digest>)
    requires m < n && (n == 1 || proof == [])
    ensures Climb(h, m, n - 1, r, proof)
         == if |proof| == PathLength(m, n) then Some(RootFromPath(h, r, m, n, proof)) else None
  {
  }

  /** The climb succeeds exactly on paths of the right length, and computes their root. */
  lemma {:induction false} ClimbIsExact(h: Hash, m: nat, n: nat, r: Digest, proof: seq<Digest>)
    requires m < n
    ensures Climb(h, m, n - 1, r, proof)
         == if |proof| == PathLength(m, n) then Some(RootFromPath(h, r, m, n, proof)) else None
    decreases n
  {
    hide Pow2, SplitExponent, Climb, NodeHash;
    if n == 1 || proof == [] {
      ClimbBase(h, m, n, r, proof);
    } else {
      var e := SplitExponent(n);
      var k := Pow2(e);
      var below := proof[..|proof| - 1];
      if m < k {
        ClimbLeft(h, m, n - 1, e, r, proof);
        ClimbIsExact(h, m, k, r, below);
      } else {
        ClimbRight(h, m - k, n - 1 - k, e, r, proof);
        ClimbIsExact(h, m - k, n - k, r, below);
      }
    }
  }

  /** `verify_inclusion`: the shifting loop decides exactly `Accepts`. */
  method VerifyInclusion(h: Hash, record: Bytes, index: nat, treeSize: nat, proof: seq<Digest>, root: Digest)
    returns (ok: bool)
    ensures ok <==> Accepts(h, record, index, treeSize, proof, root)
  {
    if index >= treeSize {
      return false;
    }
    var f: nat, s: nat := index, treeSize - 1;
    var r := LeafHash(h, record);
    for i := 0 to |proof|
      invariant f <= s
      invariant Climb(h, index, treeSize - 1, LeafHash(h, record), proof) == Climb(h, f, s, r, proof[i..])
    {
      if s == 0 {
        ClimbIsExact(h, index, treeSize, LeafHash(h, record), proof);
        return false;
      }
      ghost var f0, s0, r0 := f, s, r;
      if f % 2 == 1 || f == s {
        r := NodeHash(h, proof[i], r);
        if f % 2 == 0 {
          while f % 2 == 0 && f != 0
            invariant f <= s && SkipRightEdge(f0, s0) == SkipRightEdge(f, s)
          {
            f, s := f / 2, s / 2;
          }
        }
      } else {
        r := NodeHash(h, r, proof[i]);
      }
      f, s := f / 2, s / 2;
      assert (f, s, r) == ClimbStep(h, f0, s0, r0, proof[i]);
      assert proof[i..][1..] == proof[i + 1..];
    }
    ClimbIsExact(h, index, treeSize, LeafHash(h, record), proof);
    ok := s == 0 && r == root;
  }

  // ---------------------------------------------------------------------------------------
  // Completeness and soundness
  // ---------------------------------------------------------------------------------------

  lemma LoneLeaf(h: Hash, leaves: seq<Bytes>)
    requires |leaves| == 1
    ensures RootFromPath(h, LeafHash(h, leaves[0]), 0, 1, AuditPath(h, 0, leaves)) == Root(h, leaves)
  {
  }

  lemma RootUnfolds(h: Hash, leaves: seq<Bytes>)
    requires |leaves| > 1
    ensures var k := SplitPoint(|leaves|); Root(h, leaves) == NodeHash(h, Root(h, leaves[..k]), Root(h, leaves[k..]))
  {
    hide SplitPoint, NodeHash;
  }

  lemma RootFromPathUnfolds(h: Hash, r: Digest, m: nat, n: nat, below: seq<Digest>, sibling: Digest)
    requires m < n && n > 1
    requires var k := SplitPoint(n); |below| == if m < k then PathLength(m, k) else PathLength(m - k, n - k)
    ensures |below + [sibling]| == PathLength(m, n)
    ensures var k := SplitPoint(n);
            RootFromPath(h, r, m, n, below + [sibling])
            == if m < k then NodeHash(h, RootFromPath(h, r, m, k, below), sibling)
               else NodeHash(h, sibling, RootFromPath(h, r, m - k, n - k, below))
  {
    hide SplitPoint, NodeHash;
    assert (below + [sibling])[..|below|] == below;
  }

  lemma PathUnfolds(h: Hash, m: nat, leaves: seq<Bytes>)
    requires m < |leaves| && |leaves| > 1
    ensures var k := SplitPoint(|leaves|);
            AuditPath(h, m, leaves) == if m < k then AuditPath(h, m, leaves[..k]) + [Root(h, leaves[k..])]
                                       else AuditPath(h, m - k, leaves[k..]) + [Root(h, leaves[..k])]
  {
    hide SplitPoint, Root;
  }

  /** The genuine audit path leads from the genuine record to the genuine root. */
  lemma {:induction false} PathLeadsToRoot(h: Hash, m: nat, leaves: seq<Bytes>)
    requires m < |leaves|
    ensures RootFromPath(h, LeafHash(h, leaves[m]), m, |leaves|, AuditPath(h, m, leaves)) == Root(h, leaves)
    decreases |leaves|
  {
    hide Root, AuditPath, RootFromPath, PathLength, SplitPoint, NodeHash, LeafHash;
    if |leaves| == 1 {
      LoneLeaf(h, leaves);
    } else {
      var k := SplitPoint(|leaves|);
      PathUnfolds(h, m, leaves);
      RootUnfolds(h, leaves);
      if m < k {
        PathLeadsToRoot(h, m, leaves[..k]);
        RootFromPathUnfolds(h, LeafHash(h, leaves[m]), m, |leaves|, AuditPath(h, m, leaves[..k]), Root(h, leaves[k..]));
      } else {
        PathLeadsToRoot(h, m - k, leaves[k..]);
        RootFromPathUnfolds(h, LeafHash(h, leaves[m]), m, |leaves|, AuditPath(h, m - k, leaves[k..]),
          Root(h, leaves[..k]));
      }
    }
  }

  /** `h` tells apart the byte strings of a set. */
  ghost predicate InjectiveOn(h: Hash, inputs: set<Bytes>) {
    forall x, y :: x in inputs && y in inputs && h(x) == h(y) ==> x == y
  }

  /** Every byte string hashed on the way to the root of these leaves. */
  function TreeInputs(h: Hash, leaves: seq<Bytes>): set<Bytes>
    decreases |leaves|
  {
    if |leaves| == 0 then {[]}
    else if |leaves| == 1 then {[0] + leaves[0]}
    else
      var k := SplitPoint(|leaves|);
      {[1] + Root(h, leaves[..k]) + Root(h, leaves[k..])} + TreeInputs(h, leaves[..k]) + TreeInputs(h, leaves[k..])
  }

  /** Every byte string hashed while a proof of the right length is checked. What is hashed before a
      proof of another length is refused does not matter: no result depends on it. */
  function ProofInputs(h: Hash, record: Bytes, m: nat, n: nat, path: seq<Digest>): set<Bytes>
    decreases n
  {
    if m >= n || |path| != PathLength(m, n) then {}
    else if n == 1 then {[0] + record}
    else
      var k := SplitPoint(n);
      var sibling, below := path[|path| - 1], path[..|path| - 1];
      var r := LeafHash(h, record);
      if m < k then {[1] + RootFromPath(h, r, m, k, below) + sibling} + ProofInputs(h, record, m, k, below)
      else {[1] + sibling + RootFromPath(h, r, m - k, n - k, below)} + ProofInputs(h, record, m - k, n - k, below)
  }

  lemma InjectiveOnLess(h: Hash, inputs: set<Bytes>, fewer: set<Bytes>)
    requires InjectiveOn(h, inputs) && fewer <= inputs
    ensures InjectiveOn(h, fewer)
  {
  }

  /** Where node hashing collides on neither input, equal nodes have equal children. */
  lemma NodeHashInjective(h: Hash, inputs: set<Bytes>, a: Digest, b: Digest, c: Digest, d: Digest)
    requires InjectiveOn(h, inputs) && [1] + a + b in inputs && [1] + c + d in inputs
    requires NodeHash(h, a, b) == NodeHash(h, c, d)
    ensures a == c && b == d
  {
    var x, y := [1] + a + b, [1] + c + d;
    assert a == x[1..33] && c == y[1..33];
    assert b == x[33..] && d == y[33..];
  }

  lemma LeafHashInjective(h: Hash, inputs: set<Bytes>, record: Bytes, other: Bytes)
    requires InjectiveOn(h, inputs) && [0] + record in inputs && [0] + other in inputs
    requires LeafHash(h, record) == LeafHash(h, other)
    ensures record == other
  {
    assert record == ([0] + record)[1..] && other == ([0] + other)[1..];
  }

  lemma SinglePathIsGenuine(h: Hash, record: Bytes, leaves: seq<Bytes>, path: seq<Digest>)
    requires |leaves| == 1 && |path| == PathLength(0, 1)
    requires RootFromPath(h, LeafHash(h, record), 0, 1, path) == Root(h, leaves)
    requires InjectiveOn(h, TreeInputs(h, leaves) + ProofInputs(h, record, 0, 1, path))
    ensures record == leaves[0] && path == AuditPath(h, 0, leaves)
  {
    hide LeafHash, InjectiveOn;
    var inputs := TreeInputs(h, leaves) + ProofInputs(h, record, 0, 1, path);
    assert [0] + record in inputs && [0] + leaves[0] in inputs;
    LeafHashInjective(h, inputs, record, leaves[0]);
  }

  /** Where a path leads to the root of two and more leaves, its last hash is the root of one half,
      and the rest leads to the root of the other. */
  lemma TopStep(h: Hash, record: Bytes, m: nat, leaves: seq<Bytes>, path: seq<Digest>)
    requires m < |leaves| && |leaves| > 1 && |path| == PathLength(m, |leaves|)
    requires RootFromPath(h, LeafHash(h, record), m, |leaves|, path) == Root(h, leaves)
    requires InjectiveOn(h, TreeInputs(h, leaves) + ProofInputs(h, record, m, |leaves|, path))
    ensures |path| > 0
    ensures var k, r, below := SplitPoint(|leaves|), LeafHash(h, record), path[..|path| - 1];
            if m < k then
              && |below| == PathLength(m, k) && path[|path| - 1] == Root(h, leaves[k..])
              && RootFromPath(h, r, m, k, below) == Root(h, leaves[..k])
              && InjectiveOn(h, TreeInputs(h, leaves[..k]) + ProofInputs(h, record, m, k, below))
            else
              && |below| == PathLength(m - k, |leaves| - k) && path[|path| - 1] == Root(h, leaves[..k])
              && RootFromPath(h, r, m - k, |leaves| - k, below) == Root(h, leaves[k..])
              && InjectiveOn(h, TreeInputs(h, leaves[k..]) + ProofInputs(h, record, m - k, |leaves| - k, below))
  {
    hide SplitPoint, LeafHash, InjectiveOn;
    var inputs := TreeInputs(h, leaves) + ProofInputs(h, record, m, |leaves|, path);
    var k := SplitPoint(|leaves|);
    var sibling, below, r := path[|path| - 1], path[..|path| - 1], LeafHash(h, record);
    var left, right := Root(h, leaves[..k]), Root(h, leaves[k..]);
    assert [1] + left + right in inputs && NodeHash(h, left, right) == Root(h, leaves);
    hide Root;
    if m < k {
      var a := RootFromPath(h, r, m, k, below);
      assert [1] + a + sibling in inputs && NodeHash(h, a, sibling) == NodeHash(h, left, right);
      NodeHashInjective(h, inputs, a, sibling, left, right);
      InjectiveOnLess(h, inputs, TreeInputs(h, leaves[..k]) + ProofInputs(h, record, m, k, below));
    } else {
      var b := RootFromPath(h, r, m - k, |leaves| - k, below);
      assert [1] + sibling + b in inputs && NodeHash(h, sibling, b) == NodeHash(h, left, right);
      NodeHashInjective(h, inputs, sibling, b, left, right);
      InjectiveOnLess(h, inputs, TreeInputs(h, leaves[k..]) + ProofInputs(h, record, m - k, |leaves| - k, below));
    }
  }

  /** Soundness for the genuine tree size: unless the hash collides among the inputs of this very
      tree and this very check, following a path to the root takes the genuine record and path. */
  lemma {:induction false} PathToRootIsGenuine(h: Hash, record: Bytes, m: nat, leaves: seq<Bytes>, path: seq<Digest>)
    requires m < |leaves| && |path| == PathLength(m, |leaves|)
    requires RootFromPath(h, LeafHash(h, record), m, |leaves|, path) == Root(h, leaves)
    requires InjectiveOn(h, TreeInputs(h, leaves) + ProofInputs(h, record, m, |leaves|, path))
    ensures record == leaves[m] && path == AuditPath(h, m, leaves)
    decreases |leaves|
  {
    hide Root, AuditPath, RootFromPath, TreeInputs, ProofInputs;
    hide PathLength, SplitPoint, NodeHash, LeafHash, InjectiveOn;
    if |leaves| == 1 {
      SinglePathIsGenuine(h, record, leaves, path);
    } else {
      var k := SplitPoint(|leaves|);
      TopStep(h, record, m, leaves, path);
      var below := path[..|path| - 1];
      PathUnfolds(h, m, leaves);
      assert path == below + [path[|path| - 1]];
      if m < k {
        PathToRootIsGenuine(h, record, m, leaves[..k], below);
      } else {
        PathToRootIsGenuine(h, record, m - k, leaves[k..], below);
      }
    }
  }

  /** Against a genuine root and size a proof is accepted exactly if it is the genuine proof of the
      record at that index, unless the hash collides among the inputs of this tree and this check. */
  lemma SoundAndComplete(h: Hash, record: Bytes, m: nat, leaves: seq<Bytes>, path: seq<Digest>)
    requires InjectiveOn(h, TreeInputs(h, leaves) + ProofInputs(h, record, m, |leaves|, path))
    ensures Accepts(h, record, m, |leaves|, path, Root(h, leaves)) <==>
              m < |leaves| && record == leaves[m] && path == AuditPath(h, m, leaves)
  {
    hide SplitPoint, NodeHash, LeafHash, InjectiveOn, Root, AuditPath, RootFromPath, TreeInputs, ProofInputs;
    if Accepts(h, record, m, |leaves|, path, Root(h, leaves)) {
      PathToRootIsGenuine(h, record, m, leaves, path);
    } else if m < |leaves| && record == leaves[m] {
      PathLeadsToRoot(h, m, leaves);
    }
  }

  /** A leaf hash is not the root of no leaves, or of two and more. */
  lemma TopIsNoLeaf(h: Hash, inputs: set<Bytes>, record: Bytes, leaves: seq<Bytes>)
    requires InjectiveOn(h, inputs) && TreeInputs(h, leaves) <= inputs && [0] + record in inputs && |leaves| != 1
    ensures LeafHash(h, record) != Root(h, leaves)
  {
    hide SplitPoint;
    var top := if |leaves| == 0 then [] else
      var k := SplitPoint(|leaves|);
      [1] + Root(h, leaves[..k]) + Root(h, leaves[k..]);
    assert top in inputs && h(top) == Root(h, leaves);
    assert ([0] + record)[0] == 0;
  }

  /** A leaf hash that is the root is that of the only leaf. */
  lemma LeafIsMember(h: Hash, inputs: set<Bytes>, record: Bytes, leaves: seq<Bytes>)
    requires InjectiveOn(h, inputs) && TreeInputs(h, leaves) <= inputs && [0] + record in inputs
    requires LeafHash(h, record) == Root(h, leaves)
    ensures record in leaves
  {
    hide InjectiveOn, SplitPoint;
    if |leaves| == 1 {
      assert [0] + leaves[0] in inputs;
      LeafHashInjective(h, inputs, record, leaves[0]);
    } else {
      TopIsNoLeaf(h, inputs, record, leaves);
    }
  }

  /** A node hash is not the root of one leaf or none. */
  lemma BottomIsNoNode(h: Hash, inputs: set<Bytes>, a: Digest, b: Digest, leaves: seq<Bytes>)
    requires InjectiveOn(h, inputs) && TreeInputs(h, leaves) <= inputs && [1] + a + b in inputs && |leaves| <= 1
    ensures NodeHash(h, a, b) != Root(h, leaves)
  {
    var bottom := if |leaves| == 0 then [] else [0] + leaves[0];
    assert bottom in inputs && h(bottom) == Root(h, leaves);
    assert ([1] + a + b)[0] == 1;
  }

  /** Whatever index and tree size a proof claims, acceptance against the genuine root means the
      record is one of the leaves, under the same condition on the hash. Here leaf and node hashing
      must be domain separated: a node can never pass for a leaf. */
  lemma {:induction false} MembershipSoundness(h: Hash, record: Bytes, m: nat, n: nat, leaves: seq<Bytes>,
      path: seq<Digest>)
    requires Accepts(h, record, m, n, path, Root(h, leaves))
    requires InjectiveOn(h, TreeInputs(h, leaves) + ProofInputs(h, record, m, n, path))
    ensures record in leaves
    decreases n
  {
    hide SplitPoint, InjectiveOn;
    var inputs := TreeInputs(h, leaves) + ProofInputs(h, record, m, n, path);
    if n == 1 {
      assert [0] + record in inputs;
      LeafIsMember(h, inputs, record, leaves);
    } else {
      var k := SplitPoint(n);
      var sibling, below := path[|path| - 1], path[..|path| - 1];
      var r := LeafHash(h, record);
      var a := if m < k then RootFromPath(h, r, m, k, below) else sibling;
      var b := if m < k then sibling else RootFromPath(h, r, m - k, n - k, below);
      assert [1] + a + b in inputs && NodeHash(h, a, b) == Root(h, leaves);
      if |leaves| <= 1 {
        BottomIsNoNode(h, inputs, a, b, leaves);
      } else {
        var j := SplitPoint(|leaves|);
        var left, right := Root(h, leaves[..j]), Root(h, leaves[j..]);
        assert [1] + left + right in inputs;
        NodeHashInjective(h, inputs, a, b, left, right);
        hide Root, NodeHash, LeafHash;
        if m < k {
          InjectiveOnLess(h, inputs, TreeInputs(h, leaves[..j]) + ProofInputs(h, record, m, k, below));
          MembershipSoundness(h, record, m, k, leaves[..j], below);
        } else {
          InjectiveOnLess(h, inputs, TreeInputs(h, leaves[j..]) + ProofInputs(h, record, m - k, n - k, below));
          MembershipSoundness(h, record, m - k, n - k, leaves[j..], below);
        }
      }
    }
  }
}
