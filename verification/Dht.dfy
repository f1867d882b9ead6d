/** The Kademlia-style peer table (bs-mesh-support.h). */
module Dht {
  import opened Bytes

  type NodeId = s: seq<bv8> | |s| == 32 witness seq(32, _ => 0)

  datatype Peer = Peer(name: string, addr: string, nodeId: NodeId, lastSeen: nat)

  /** kBucketSize, kNumBuckets. */
  const BUCKET_SIZE: nat := 20
  const BUCKETS: nat := 256

  // ── Distance ──────────────────────────────────────────────────────────────────

  /** The number that bytes spell, the most significant first. */
  function BigEndian(s: seq<bv8>): nat
    decreases |s|
  {
    if s == [] then 0 else 0x100 * BigEndian(s[..|s| - 1]) + s[|s| - 1] as int
  }

  /** The operators of the code on bytes, by name. */
  function Xor(x: bv8, y: bv8): bv8 { x ^ y }

  predicate BitOf(x: bv8, j: nat)
    requires j < 8
  {
    (x >> j) & 1 == 1
  }

  function XorBytes(a: seq<bv8>, b: seq<bv8>): (r: seq<bv8>)
    requires |a| == |b|
    ensures |r| == |a| && forall i :: 0 <= i < |a| ==> r[i] == Xor(a[i], b[i])
  {
    seq(|a|, i requires 0 <= i < |a| => Xor(a[i], b[i]))
  }

  /** The XOR metric, as a 256-bit number. */
  function Distance(a: NodeId, b: NodeId): nat {
    BigEndian(XorBytes(a, b))
  }

  lemma {:induction false} BigEndianBounded(s: seq<bv8>)
    ensures BigEndian(s) < Power256(|s|)
    decreases |s|
  {
    if s != [] { BigEndianBounded(s[..|s| - 1]); }
  }

  /** The first differing byte decides. */
  ghost predicate FirstByteLess(s: seq<bv8>, t: seq<bv8>, i: nat) {
    |s| == |t| && i < |s| && s[..i] == t[..i] && s[i] < t[i]
  }

  lemma {:induction false} FirstByteDecides(s: seq<bv8>, t: seq<bv8>, i: nat)
    requires FirstByteLess(s, t, i)
    ensures BigEndian(s) < BigEndian(t)
    decreases |s|
  {
    var n := |s| - 1;
    if i < n {
      assert s[..n][..i] == s[..i] && t[..n][..i] == t[..i];
      FirstByteDecides(s[..n], t[..n], i);
    } else {
      assert s[..n] == t[..n];
    }
    LastByte(s, t);
  }

  lemma LastByte(s: seq<bv8>, t: seq<bv8>)
    requires |s| == |t| > 0
    ensures var n := |s| - 1;
            && (BigEndian(s[..n]) < BigEndian(t[..n]) ==> BigEndian(s) < BigEndian(t))
            && (BigEndian(s[..n]) == BigEndian(t[..n]) && s[n] < t[n] ==> BigEndian(s) < BigEndian(t))
  {
    ByteOrder(s[|s| - 1], t[|t| - 1]);
  }

  lemma ByteOrder(x: bv8, y: bv8)
    ensures x < y <==> x as int < y as int
    ensures 0 <= x as int < 0x100 && 0 <= y as int < 0x100
  {
  }

  lemma {:induction false} FirstDifference(s: seq<bv8>, t: seq<bv8>) returns (i: nat)
    requires |s| == |t| && s != t
    ensures i < |s| && s[..i] == t[..i] && s[i] != t[i]
    decreases |s|
  {
    var n := |s| - 1;
    if s[..n] == t[..n] {
      i := n;
      assert s == s[..n] + [s[n]] && t == t[..n] + [t[n]];
    } else {
      i := FirstDifference(s[..n], t[..n]);
      assert s[..n][..i] == s[..i] && t[..n][..i] == t[..i];
    }
  }

  lemma NearerAt(a: NodeId, b: NodeId, target: NodeId, i: nat)
    requires i < 32 && XorBytes(a, target)[..i] == XorBytes(b, target)[..i]
    ensures Xor(a[i], target[i]) < Xor(b[i], target[i]) ==> Distance(a, target) < Distance(b, target)
  {
    hide BigEndian;
    var x, y := XorBytes(a, target), XorBytes(b, target);
    if Xor(a[i], target[i]) < Xor(b[i], target[i]) {
      assert FirstByteLess(x, y, i);
      FirstByteDecides(x, y, i);
    }
  }

  lemma PrefixGrows(a: NodeId, b: NodeId, target: NodeId, i: nat)
    requires i < 32 && XorBytes(a, target)[..i] == XorBytes(b, target)[..i]
    requires Xor(a[i], target[i]) == Xor(b[i], target[i])
    ensures XorBytes(a, target)[..i + 1] == XorBytes(b, target)[..i + 1]
  {
  }

  lemma XorTotal(x: bv8, y: bv8)
    ensures x != y ==> (x < y <==> !(y < x))
  {
  }

  /** The comparator of find_closest: byte 0 first. */
  method Nearer(a: NodeId, b: NodeId, target: NodeId) returns (less: bool)
    ensures less <==> Distance(a, target) < Distance(b, target)
  {
    hide XorBytes, Distance, Xor;
    var i := 0;
    while i < 32
      invariant 0 <= i <= 32
      invariant XorBytes(a, target)[..i] == XorBytes(b, target)[..i]
    {
      var da := Xor(a[i], target[i]);
      var db := Xor(b[i], target[i]);
      if da != db {
        NearerAt(a, b, target, i);
        NearerAt(b, a, target, i);
        XorTotal(da, db);
        return da < db;
      }
      PrefixGrows(a, b, target, i);
      i := i + 1;
    }
    SamePrefix(a, b, target);
    return false;
  }

  lemma SamePrefix(a: NodeId, b: NodeId, target: NodeId)
    requires XorBytes(a, target)[..32] == XorBytes(b, target)[..32]
    ensures Distance(a, target) == Distance(b, target)
  {
    hide BigEndian;
    assert XorBytes(a, target) == XorBytes(a, target)[..32];
    assert XorBytes(b, target) == XorBytes(b, target)[..32];
  }

  lemma XorCancels(x: bv8, y: bv8, z: bv8)
    requires Xor(x, z) == Xor(y, z)
    ensures x == y
  {
  }

  lemma SameXor(a: NodeId, b: NodeId, target: NodeId)
    requires XorBytes(a, target) == XorBytes(b, target)
    ensures a == b
  {
    hide XorBytes;
    forall i: nat | i < 32 ensures a[i] == b[i] { SameByte(a, b, target, i); }
  }

  lemma SameByte(a: NodeId, b: NodeId, target: NodeId, i: nat)
    requires i < 32 && XorBytes(a, target) == XorBytes(b, target)
    ensures a[i] == b[i]
  {
    hide Xor;
    assert XorBytes(a, target)[i] == XorBytes(b, target)[i];
    XorCancels(a[i], b[i], target[i]);
  }

  lemma DifferentXor(a: NodeId, b: NodeId, target: NodeId, i: nat)
    requires i < 32 && XorBytes(a, target)[..i] == XorBytes(b, target)[..i] && Xor(a[i], target[i]) != Xor(b[i], target[i])
    ensures Distance(a, target) != Distance(b, target)
  {
    hide Distance, XorBytes;
    NearerAt(a, b, target, i);
    NearerAt(b, a, target, i);
    XorTotal(Xor(a[i], target[i]), Xor(b[i], target[i]));
  }

  /** Different ids are at different distances from everywhere. */
  lemma DistanceIsInjective(a: NodeId, b: NodeId, target: NodeId)
    requires Distance(a, target) == Distance(b, target)
    ensures a == b
  {
    hide Distance;
    var x, y := XorBytes(a, target), XorBytes(b, target);
    if x == y {
      SameXor(a, b, target);
    } else {
      var i := FirstDifference(x, y);
      assert x[i] == Xor(a[i], target[i]) && y[i] == Xor(b[i], target[i]);
      hide XorBytes;
      DifferentXor(a, b, target, i);
    }
  }

  // ── Common prefixes ───────────────────────────────────────────────────────────

  /** Bit i of an id, the most significant of byte 0 first. */
  predicate Bit(a: NodeId, i: nat)
    requires i < 256
  {
    BitOf(a[i / 8], 7 - i % 8)
  }

  predicate Agree(a: NodeId, b: NodeId, n: nat)
    requires n <= 256
  {
    forall i :: 0 <= i < n ==> Bit(a, i) == Bit(b, i)
  }

  /** n is the length of the common prefix, in bits. */
  predicate CommonPrefix(a: NodeId, b: NodeId, n: nat) {
    n <= 256 && Agree(a, b, n) && (n < 256 ==> Bit(a, n) != Bit(b, n))
  }

  lemma PrefixIsUnique(a: NodeId, b: NodeId, n: nat, m: nat)
    requires CommonPrefix(a, b, n) && CommonPrefix(a, b, m)
    ensures n == m
  {
  }

  /** Leading zeros of a byte; 8 for zero. */
  function ByteZeros(d: bv8): nat {
    if d >= 128 then 0 else if d >= 64 then 1 else if d >= 32 then 2 else if d >= 16 then 3
    else if d >= 8 then 4 else if d >= 4 then 5 else if d >= 2 then 6 else if d >= 1 then 7 else 8
  }

  lemma ByteZerosEqual(x: bv8, y: bv8, j: nat)
    requires j < 8 && j < ByteZeros(Xor(x, y))
    ensures BitOf(x, 7 - j) == BitOf(y, 7 - j)
  {
    LeadingBitClear(Xor(x, y), j);
    hide ByteZeros;
  }

  lemma LeadingBitClear(d: bv8, j: nat)
    requires j < 8 && j < ByteZeros(d)
    ensures !BitOf(d, 7 - j)
  {
  }

  lemma ByteZerosDiffer(x: bv8, y: bv8, j: nat)
    requires j < 8 && j == ByteZeros(Xor(x, y))
    ensures BitOf(x, 7 - j) != BitOf(y, 7 - j)
  {
  }

  lemma ByteZerosShift(d: bv8, j: nat)
    requires j < 8 && d >> (j + 1) == 0
    ensures BitOf(d, j) ==> ByteZeros(d) == 7 - j
    ensures !BitOf(d, j) ==> d >> j == 0
  {
  }

  /** xor_leading_zeros. */
  function LeadingZeros(a: NodeId, b: NodeId, i: nat): nat
    requires i <= 32
    decreases 32 - i
  {
    if i == 32 then 0
    else if Xor(a[i], b[i]) == 0 then 8 + LeadingZeros(a, b, i + 1)
    else ByteZeros(Xor(a[i], b[i]))
  }

  lemma {:induction false} LeadingZerosPrefix(a: NodeId, b: NodeId, i: nat)
    requires i <= 32 && Agree(a, b, 8 * i)
    ensures CommonPrefix(a, b, 8 * i + LeadingZeros(a, b, i))
    decreases 32 - i
  {
    hide ByteZeros, Xor, Bit;
    if i < 32 {
      var d := Xor(a[i], b[i]);
      ByteAgrees(a, b, i);
      if d == 0 { LeadingZerosPrefix(a, b, i + 1); }
    }
  }

  /** Byte i, when the bytes before it are equal. */
  lemma ByteAgrees(a: NodeId, b: NodeId, i: nat)
    requires i < 32 && Agree(a, b, 8 * i)
    ensures Xor(a[i], b[i]) == 0 ==> Agree(a, b, 8 * (i + 1))
    ensures Xor(a[i], b[i]) != 0 ==> CommonPrefix(a, b, 8 * i + ByteZeros(Xor(a[i], b[i])))
  {
    hide Bit, Xor, ByteZeros;
    var z := ByteZeros(Xor(a[i], b[i]));
    ZeroIsEight(Xor(a[i], b[i]));
    forall k | 8 * i <= k < 8 * i + 8
      ensures k < 8 * i + z ==> Bit(a, k) == Bit(b, k)
      ensures k == 8 * i + z ==> Bit(a, k) != Bit(b, k)
    {
      BitOfByte(a, b, i, k - 8 * i);
    }
  }

  lemma ZeroIsEight(d: bv8)
    ensures d == 0 <==> ByteZeros(d) == 8
    ensures ByteZeros(d) <= 8
  {
  }

  lemma BitOfByte(a: NodeId, b: NodeId, i: nat, j: nat)
    requires i < 32 && j < 8
    ensures j < ByteZeros(Xor(a[i], b[i])) ==> Bit(a, 8 * i + j) == Bit(b, 8 * i + j)
    ensures j == ByteZeros(Xor(a[i], b[i])) ==> Bit(a, 8 * i + j) != Bit(b, 8 * i + j)
  {
    hide ByteZeros, Xor, BitOf;
    assert (8 * i + j) / 8 == i && (8 * i + j) % 8 == j;
    if j < ByteZeros(Xor(a[i], b[i])) { ByteZerosEqual(a[i], b[i], j); }
    if j == ByteZeros(Xor(a[i], b[i])) { ByteZerosDiffer(a[i], b[i], j); }
  }

  /** xor_leading_zeros counts the bits of the common prefix. */
  method XorLeadingZeros(a: NodeId, b: NodeId) returns (leading: nat)
    ensures CommonPrefix(a, b, leading)
  {
    hide ByteZeros, CommonPrefix, Xor, BitOf;
    leading := 0;
    var i := 0;
    while i < 32
      invariant 0 <= i <= 32
      invariant leading + LeadingZeros(a, b, i) == LeadingZeros(a, b, 0)
    {
      var diff := Xor(a[i], b[i]);
      if diff == 0 {
        leading := leading + 8;
        i := i + 1;
        continue;
      }
      ghost var start := leading;
      var j := 7;
      ShiftAll(diff);
      while j >= 0
        invariant -1 <= j <= 7
        invariant diff >> (j + 1) == 0
        invariant leading == start + 7 - j
      {
        ByteZerosShift(diff, j);
        if BitOf(diff, j) { break; }
        leading := leading + 1;
        j := j - 1;
      }
      assert diff >> 0 == diff;
      LeadingZerosPrefix(a, b, 0);
      return;
    }
    LeadingZerosPrefix(a, b, 0);
  }

  lemma ShiftAll(d: bv8)
    ensures d >> 8 == 0
  {
  }

  /** A longer common prefix with the target is always nearer. */
  lemma LongerPrefixIsNearer(a: NodeId, b: NodeId, target: NodeId, n: nat, m: nat)
    requires CommonPrefix(a, target, n) && CommonPrefix(b, target, m) && n > m
    ensures Distance(a, target) < Distance(b, target)
  {
    hide Bit, Xor, Distance, ByteZeros, XorBytes;
    var i := m / 8;
    assert Agree(a, target, m) && Agree(b, target, m);
    forall k: nat | k < i ensures Xor(a[k], target[k]) == 0 && Xor(b[k], target[k]) == 0 {
      AgreeingByte(a, target, k, n);
      AgreeingByte(b, target, k, m);
    }
    SamePrefixBytes(a, b, target, i);
    ByteOfPrefix(a, target, i, n);
    ByteOfPrefix(b, target, i, m);
    FewerZeros(Xor(a[i], target[i]), Xor(b[i], target[i]));
    NearerAt(a, b, target, i);
  }

  lemma SamePrefixBytes(a: NodeId, b: NodeId, target: NodeId, i: nat)
    requires i <= 32 && forall k: nat :: k < i ==> Xor(a[k], target[k]) == 0 && Xor(b[k], target[k]) == 0
    ensures XorBytes(a, target)[..i] == XorBytes(b, target)[..i]
  {
    hide Xor;
  }

  lemma FewerZeros(x: bv8, y: bv8)
    requires ByteZeros(x) > ByteZeros(y)
    ensures x < y
  {
  }

  /** A byte inside the common prefix. */
  lemma AgreeingByte(a: NodeId, b: NodeId, k: nat, n: nat)
    requires k < 32 && 8 * k + 8 <= n <= 256 && Agree(a, b, n)
    ensures Xor(a[k], b[k]) == 0
  {
    var z := ByteZeros(Xor(a[k], b[k]));
    ZeroIsEight(Xor(a[k], b[k]));
    hide Bit, Xor, ByteZeros;
    if z < 8 {
      assert Bit(a, 8 * k + z) == Bit(b, 8 * k + z);
      BitOfByte(a, b, k, z);
    }
  }

  /** The byte in which the common prefix of n bits ends, or a byte before that. */
  lemma ByteOfPrefix(a: NodeId, b: NodeId, i: nat, n: nat)
    requires i < 32 && CommonPrefix(a, b, n) && 8 * i <= n
    ensures n < 8 * i + 8 ==> ByteZeros(Xor(a[i], b[i])) == n - 8 * i
    ensures n >= 8 * i + 8 ==> ByteZeros(Xor(a[i], b[i])) == 8
  {
    var z := ByteZeros(Xor(a[i], b[i]));
    ZeroIsEight(Xor(a[i], b[i]));
    hide Bit, Xor, ByteZeros;
    if n >= 8 * i + 8 {
      AgreeingByte(a, b, i, n);
    } else {
      BitOfByte(a, b, i, n - 8 * i);
      if z < n - 8 * i {
        assert Bit(a, 8 * i + z) == Bit(b, 8 * i + z);
        BitOfByte(a, b, i, z);
      }
    }
  }

  // ── The table ─────────────────────────────────────────────────────────────────

  ghost predicate IsBucket(ours: NodeId, id: NodeId, k: nat) {
    exists n: nat :: CommonPrefix(ours, id, n) && k == if n < 256 then n else 255
  }

  ghost predicate DistinctIds(ps: seq<Peer>) {
    forall i, j :: 0 <= i < j < |ps| ==> ps[i].nodeId != ps[j].nodeId
  }

  predicate Knows(ps: seq<Peer>, id: NodeId) {
    exists i :: 0 <= i < |ps| && ps[i].nodeId == id
  }

  /** A new id goes to the end, and a full bucket loses its first. */
  function Pushed(bucket: seq<Peer>, peer: Peer): seq<Peer> {
    (if |bucket| >= 20 then bucket[1..] else bucket) + [peer]
  }

  /** What bootstrap does to a bucket. */
  function Seeded(bucket: seq<Peer>, peer: Peer): seq<Peer> {
    if Knows(bucket, peer.nodeId) then bucket else Pushed(bucket, peer)
  }

  function Renewed(bucket: seq<Peer>, peer: Peer): (r: seq<Peer>)
    ensures |r| == |bucket|
  {
    seq(|bucket|, i requires 0 <= i < |bucket| =>
      if bucket[i].nodeId == peer.nodeId then bucket[i].(lastSeen := peer.lastSeen, addr := peer.addr) else bucket[i])
  }

  /** What add_peer does to a bucket: a known peer keeps its place and its name. */
  function Added(bucket: seq<Peer>, peer: Peer): seq<Peer> {
    if Knows(bucket, peer.nodeId) then Renewed(bucket, peer) else Pushed(bucket, peer)
  }

  ghost predicate GoodBucket(ours: NodeId, bucket: seq<Peer>, k: nat) {
    && |bucket| <= 20 && DistinctIds(bucket)
    && forall i :: 0 <= i < |bucket| ==> IsBucket(ours, bucket[i].nodeId, k)
  }

  lemma ShorterIsGood(ours: NodeId, bucket: seq<Peer>, k: nat)
    requires GoodBucket(ours, bucket, k) && bucket != []
    ensures GoodBucket(ours, bucket[1..], k)
    ensures forall id :: Knows(bucket[1..], id) ==> Knows(bucket, id)
  {
    hide IsBucket;
    var t := bucket[1..];
    forall i, j | 0 <= i < j < |t| ensures t[i].nodeId != t[j].nodeId {
      assert t[i] == bucket[i + 1] && t[j] == bucket[j + 1];
    }
    forall id | Knows(t, id) ensures Knows(bucket, id) {
      var i :| 0 <= i < |t| && t[i].nodeId == id;
      assert bucket[i + 1].nodeId == id;
    }
  }

  lemma LongerIsGood(ours: NodeId, bucket: seq<Peer>, k: nat, peer: Peer)
    requires GoodBucket(ours, bucket, k) && |bucket| < 20 && IsBucket(ours, peer.nodeId, k)
    requires !Knows(bucket, peer.nodeId)
    ensures GoodBucket(ours, bucket + [peer], k)
  {
    hide IsBucket;
    var r := bucket + [peer];
    forall i, j | 0 <= i < j < |r| ensures r[i].nodeId != r[j].nodeId {
      assert r[i] == bucket[i];
      if j < |bucket| { assert r[j] == bucket[j]; }
    }
  }

  lemma PushedIsGood(ours: NodeId, bucket: seq<Peer>, k: nat, peer: Peer)
    requires GoodBucket(ours, bucket, k) && IsBucket(ours, peer.nodeId, k) && !Knows(bucket, peer.nodeId)
    ensures GoodBucket(ours, Pushed(bucket, peer), k)
  {
    assert |bucket| <= 20;
    hide IsBucket, GoodBucket, Knows;
    if |bucket| >= 20 {
      ShorterIsGood(ours, bucket, k);
      LongerIsGood(ours, bucket[1..], k, peer);
    } else {
      LongerIsGood(ours, bucket, k, peer);
    }
  }

  lemma RenewedIsGood(ours: NodeId, bucket: seq<Peer>, k: nat, peer: Peer)
    requires GoodBucket(ours, bucket, k)
    ensures GoodBucket(ours, Renewed(bucket, peer), k)
  {
    hide IsBucket;
    var r := Renewed(bucket, peer);
    assert forall i :: 0 <= i < |r| ==> r[i].nodeId == bucket[i].nodeId;
  }

  /** bucket_index. */
  function BucketOf(ours: NodeId, id: NodeId): (k: nat)
    ensures k < 256
  {
    if LeadingZeros(ours, id, 0) < 255 then LeadingZeros(ours, id, 0) else 255
  }

  lemma BucketIsPrefix(ours: NodeId, id: NodeId, k: nat)
    ensures IsBucket(ours, id, k) <==> k == BucketOf(ours, id)
  {
    hide CommonPrefix, LeadingZeros;
    LeadingZerosPrefix(ours, id, 0);
    var z := LeadingZeros(ours, id, 0);
    assert CommonPrefix(ours, id, z);
    PrefixLimit(ours, id, z);
    if IsBucket(ours, id, k) {
      var n: nat :| CommonPrefix(ours, id, n) && k == if n < 256 then n else 255;
      PrefixIsUnique(ours, id, n, z);
    }
  }

  lemma PrefixLimit(a: NodeId, b: NodeId, n: nat)
    requires CommonPrefix(a, b, n)
    ensures n <= 256
  {
  }

  type Table = seq<seq<Peer>>

  ghost predicate GoodTable(ours: NodeId, t: Table) {
    |t| == 256 && forall k :: 0 <= k < 256 ==> GoodBucket(ours, t[k], k)
  }

  function TableAdd(ours: NodeId, t: Table, peer: Peer): Table
    requires |t| == 256
  {
    t[BucketOf(ours, peer.nodeId) := Added(t[BucketOf(ours, peer.nodeId)], peer)]
  }

  function TableSeed(ours: NodeId, t: Table, peer: Peer): Table
    requires |t| == 256
  {
    t[BucketOf(ours, peer.nodeId) := Seeded(t[BucketOf(ours, peer.nodeId)], peer)]
  }

  function TableSeedAll(ours: NodeId, t: Table, seeds: seq<Peer>): (r: Table)
    requires |t| == 256
    ensures |r| == 256
    decreases |seeds|
  {
    if seeds == [] then t
    else TableSeed(ours, TableSeedAll(ours, t, seeds[..|seeds| - 1]), seeds[|seeds| - 1])
  }

  class DhtNode {
    const ourId: NodeId
    var buckets: seq<seq<Peer>>

    /** Every id in the bucket of its common prefix with ours, none twice, no bucket too long. */
    ghost predicate Valid()
      reads this
    {
      GoodTable(ourId, buckets)
    }

    constructor (id: NodeId)
      ensures Valid() && ourId == id && buckets == seq(256, _ => [])
    {
      ourId := id;
      buckets := seq(BUCKETS, _ => []);
    }

    method BucketIndex(id: NodeId) returns (k: nat)
      ensures k == BucketOf(ourId, id) && IsBucket(ourId, id, k)
    {
      hide CommonPrefix;
      var z := XorLeadingZeros(ourId, id);
      k := if z < BUCKETS - 1 then z else BUCKETS - 1;
      PrefixLimit(ourId, id, z);
      assert IsBucket(ourId, id, k);
      BucketIsPrefix(ourId, id, k);
    }

    method AddPeer(peer: Peer)
      requires Valid()
      modifies this`buckets
      ensures Valid()
      ensures buckets == TableAdd(ourId, old(buckets), peer)
    {
      hide GoodBucket, IsBucket, Added, Pushed, BucketOf;
      var idx := BucketIndex(peer.nodeId);
      var bucket := buckets[idx];
      var i := 0;
      while i < |bucket|
        invariant 0 <= i <= |bucket|
        invariant forall j :: 0 <= j < i ==> bucket[j].nodeId != peer.nodeId
      {
        if bucket[i].nodeId == peer.nodeId {
          RenewedAt(ourId, bucket, idx, peer, i);
          buckets := buckets[idx := bucket[i := bucket[i].(lastSeen := peer.lastSeen, addr := peer.addr)]];
          return;
        }
        i := i + 1;
      }
      PushedNew(ourId, bucket, idx, peer);
      if |bucket| >= BUCKET_SIZE { bucket := bucket[1..]; }
      bucket := bucket + [peer];
      buckets := buckets[idx := bucket];
    }

    /** One turn of the loop over the seeds. */
    method SeedOne(peer: Peer)
      requires Valid()
      modifies this`buckets
      ensures Valid()
      ensures buckets == TableSeed(ourId, old(buckets), peer)
    {
      hide GoodBucket, IsBucket, Pushed, BucketOf;
      var idx := BucketIndex(peer.nodeId);
      var bucket := buckets[idx];
      var found := false;
      var i := 0;
      while i < |bucket| && !found
        invariant 0 <= i <= |bucket|
        invariant found ==> Knows(bucket, peer.nodeId)
        invariant !found ==> forall j :: 0 <= j < i ==> bucket[j].nodeId != peer.nodeId
      {
        if bucket[i].nodeId == peer.nodeId { found := true; }
        i := i + 1;
      }
      if !found {
        PushedNew(ourId, bucket, idx, peer);
        if |bucket| >= BUCKET_SIZE { bucket := bucket[1..]; }
        bucket := bucket + [peer];
        buckets := buckets[idx := bucket];
      } else {
        assert buckets == buckets[idx := bucket];
      }
    }

    method Bootstrap(seeds: seq<Peer>)
      requires Valid()
      modifies this`buckets
      ensures Valid()
      ensures buckets == TableSeedAll(ourId, old(buckets), seeds)
    {
      hide GoodBucket, TableSeed;
      var i := 0;
      while i < |seeds|
        invariant 0 <= i <= |seeds|
        invariant Valid() && |old(buckets)| == 256
        invariant buckets == TableSeedAll(ourId, old(buckets), seeds[..i])
      {
        SeedOne(seeds[i]);
        assert seeds[..i + 1][..i] == seeds[..i];
        i := i + 1;
      }
      assert seeds[..i] == seeds;
    }

    /** The k nearest peers of the table, nearest first; all of them for a negative k, which the code
        turns into a very large one. */
    method FindClosest(target: NodeId, k: int) returns (r: seq<Peer>)
      requires Valid()
      ensures var all := Flat(buckets);
              && |r| == (if 0 <= k < |all| then k else |all|)
              && Ascending(r, target)
              && (forall p :: p in r ==> p in all)
              && (forall p, q :: p in r && q in all && q !in r ==> Distance(p.nodeId, target) < Distance(q.nodeId, target))
    {
      hide GoodTable, Distance, Ascending;
      var all := [];
      var i := 0;
      assert buckets[..0] == [];
      while i < |buckets|
        invariant 0 <= i <= |buckets|
        invariant all == Flat(buckets[..i])
      {
        all := all + buckets[i];
        FlatAppend(buckets[..i], buckets[i]);
        assert buckets[..i + 1] == buckets[..i] + [buckets[i]];
        i := i + 1;
      }
      assert buckets[..i] == buckets;
      FlatIsDistinct(ourId, buckets);
      r := Sort(all, target);
      ghost var sorted := r;
      if 0 <= k < |r| { r := r[..k]; }
      NearestFirst(all, sorted, target, |r|);
    }
  }

  function Flat(t: Table): seq<Peer> {
    if t == [] then [] else t[0] + Flat(t[1..])
  }

  lemma {:induction false} FlatAppend(t: Table, b: seq<Peer>)
    ensures Flat(t + [b]) == Flat(t) + b
  {
    if t == [] {
      assert t + [b] == [b];
      assert Flat([b]) == b + [];
    } else {
      assert (t + [b])[1..] == t[1..] + [b];
      FlatAppend(t[1..], b);
    }
  }

  lemma {:induction false} FlatHas(t: Table, x: nat) returns (k: nat, i: nat)
    requires x < |Flat(t)|
    ensures k < |t| && i < |t[k]| && t[k][i] == Flat(t)[x]
  {
    if x < |t[0]| {
      k, i := 0, x;
    } else {
      k, i := FlatHas(t[1..], x - |t[0]|);
      k := k + 1;
    }
  }

  lemma {:induction false} FlatIsDistinctFrom(ours: NodeId, t: Table, k: nat)
    requires GoodTable(ours, t) && k <= 256
    ensures DistinctIds(Flat(t[k..]))
    decreases 256 - k
  {
    if k < 256 {
      FlatIsDistinctFrom(ours, t, k + 1);
      var b, rest := t[k], Flat(t[k + 1..]);
      assert t[k..][1..] == t[k + 1..];
      assert GoodBucket(ours, t[k], k);
      hide IsBucket, DistinctIds, Flat;
      forall i, x | 0 <= i < |b| && 0 <= x < |rest| ensures b[i].nodeId != rest[x].nodeId {
        var m, j := FlatHas(t[k + 1..], x);
        assert t[k + 1..][m] == t[k + 1 + m] && GoodBucket(ours, t[k + 1 + m], k + 1 + m);
        BucketIsPrefix(ours, b[i].nodeId, k);
        BucketIsPrefix(ours, rest[x].nodeId, k + 1 + m);
      }
      DistinctSum(b, rest);
    }
  }

  lemma DistinctSum(a: seq<Peer>, b: seq<Peer>)
    requires DistinctIds(a) && DistinctIds(b)
    requires forall i, x :: 0 <= i < |a| && 0 <= x < |b| ==> a[i].nodeId != b[x].nodeId
    ensures DistinctIds(a + b)
  {
    var r := a + b;
    forall i, j | 0 <= i < j < |r| ensures r[i].nodeId != r[j].nodeId {
      assert r[i] == if i < |a| then a[i] else b[i - |a|];
      assert r[j] == if j < |a| then a[j] else b[j - |a|];
    }
  }

  /** No id is stored twice, in one bucket or in two. */
  lemma FlatIsDistinct(ours: NodeId, t: Table)
    requires GoodTable(ours, t)
    ensures DistinctIds(Flat(t))
  {
    FlatIsDistinctFrom(ours, t, 0);
    assert t[0..] == t;
  }

  // ── Sorting by distance ───────────────────────────────────────────────────────

  predicate Ascending(ps: seq<Peer>, target: NodeId) {
    forall i, j :: 0 <= i < j < |ps| ==> Distance(ps[i].nodeId, target) < Distance(ps[j].nodeId, target)
  }

  /** What std::sort promises of its result; peers have distinct ids, so the order is strict. */
  method Sort(all: seq<Peer>, target: NodeId) returns (r: seq<Peer>)
    requires DistinctIds(all)
    ensures multiset(r) == multiset(all) && Ascending(r, target)
  {
    hide Distance, Ascending;
    r := [];
    NothingAscends(target);
    var i := 0;
    while i < |all|
      invariant 0 <= i <= |all|
      invariant multiset(r) == multiset(all[..i]) && Ascending(r, target)
    {
      NewInSorted(all, i, r);
      r := Insert(r, all[i], target);
      assert all[..i + 1] == all[..i] + [all[i]];
      i := i + 1;
    }
    assert all[..i] == all;
  }

  lemma NothingAscends(target: NodeId)
    ensures Ascending([], target)
  {
  }

  lemma NewInSorted(all: seq<Peer>, i: nat, r: seq<Peer>)
    requires i < |all| && DistinctIds(all) && multiset(r) == multiset(all[..i])
    ensures forall j :: 0 <= j < |r| ==> r[j].nodeId != all[i].nodeId
  {
    forall j | 0 <= j < |r| ensures r[j].nodeId != all[i].nodeId {
      assert r[j] in multiset(all[..i]);
      var m :| 0 <= m < i && all[..i][m] == r[j];
      assert all[m].nodeId != all[i].nodeId;
    }
  }

  method Insert(sorted: seq<Peer>, p: Peer, target: NodeId) returns (r: seq<Peer>)
    requires Ascending(sorted, target) && forall j :: 0 <= j < |sorted| ==> sorted[j].nodeId != p.nodeId
    ensures multiset(r) == multiset(sorted) + multiset{p} && Ascending(r, target)
  {
    hide Distance, Ascending;
    var i := 0;
    while i < |sorted|
      invariant 0 <= i <= |sorted|
      invariant forall j :: 0 <= j < i ==> Distance(sorted[j].nodeId, target) < Distance(p.nodeId, target)
    {
      var before := Nearer(sorted[i].nodeId, p.nodeId, target);
      if !before {
        NotBefore(sorted[i].nodeId, p.nodeId, target);
        break;
      }
      i := i + 1;
    }
    r := sorted[..i] + [p] + sorted[i..];
    InsertAdds(sorted, p, i);
    InsertAscends(sorted, p, target, i);
  }

  lemma InsertAdds(sorted: seq<Peer>, p: Peer, i: nat)
    requires i <= |sorted|
    ensures multiset(sorted[..i] + [p] + sorted[i..]) == multiset(sorted) + multiset{p}
  {
    assert sorted == sorted[..i] + sorted[i..];
  }

  lemma NotBefore(a: NodeId, b: NodeId, target: NodeId)
    requires a != b && !(Distance(a, target) < Distance(b, target))
    ensures Distance(b, target) < Distance(a, target)
  {
    hide Distance;
    if Distance(a, target) == Distance(b, target) { DistanceIsInjective(a, b, target); }
  }

  lemma InsertAscends(sorted: seq<Peer>, p: Peer, target: NodeId, i: nat)
    requires Ascending(sorted, target) && i <= |sorted|
    requires forall j :: 0 <= j < i ==> Distance(sorted[j].nodeId, target) < Distance(p.nodeId, target)
    requires i < |sorted| ==> Distance(p.nodeId, target) < Distance(sorted[i].nodeId, target)
    ensures Ascending(sorted[..i] + [p] + sorted[i..], target)
  {
    hide Distance;
    var r := sorted[..i] + [p] + sorted[i..];
    forall x, y | 0 <= x < y < |r| ensures Distance(r[x].nodeId, target) < Distance(r[y].nodeId, target) {
      assert r[x] == if x < i then sorted[x] else if x == i then p else sorted[x - 1];
      assert r[y] == if y < i then sorted[y] else if y == i then p else sorted[y - 1];
      assert x < i ==> Distance(sorted[x].nodeId, target) < Distance(p.nodeId, target);
    }
  }

  /** The first n of the sorted peers are the n nearest. */
  lemma NearestFirst(all: seq<Peer>, sorted: seq<Peer>, target: NodeId, n: nat)
    requires multiset(sorted) == multiset(all) && Ascending(sorted, target) && n <= |sorted|
    ensures |sorted| == |all|
    ensures var r := sorted[..n];
            && Ascending(r, target) && (forall p :: p in r ==> p in all)
            && (forall p, q :: p in r && q in all && q !in r ==> Distance(p.nodeId, target) < Distance(q.nodeId, target))
  {
    hide Distance;
    assert |multiset(sorted)| == |sorted| && |multiset(all)| == |all|;
    var r := sorted[..n];
    forall p | p in r ensures p in all { assert p in multiset(sorted); }
    assert forall j :: 0 <= j < n ==> r[j] == sorted[j] && sorted[j] in r;
    forall p, q | p in r && q in all && q !in r ensures Distance(p.nodeId, target) < Distance(q.nodeId, target) {
      assert q in multiset(sorted);
      var i :| 0 <= i < n && sorted[..n][i] == p;
      var j :| 0 <= j < |sorted| && sorted[j] == q;
      assert n <= j;
    }
  }

  lemma SameHead(p: seq<Peer>, q: seq<Peer>, target: NodeId)
    requires multiset(p) == multiset(q) && Ascending(p, target) && Ascending(q, target) && p != []
    ensures q != [] && p[0] == q[0]
  {
    hide Distance;
    assert p[0] in multiset(q);
    assert q[0] in multiset(p);
    var i :| 0 <= i < |q| && q[i] == p[0];
    var j :| 0 <= j < |p| && p[j] == q[0];
    assert i == 0;
  }

  lemma TailBag(p: seq<Peer>)
    requires p != []
    ensures multiset(p[1..]) == multiset(p) - multiset{p[0]}
  {
    assert p == [p[0]] + p[1..];
  }

  lemma TailAscends(p: seq<Peer>, target: NodeId)
    requires Ascending(p, target) && p != []
    ensures Ascending(p[1..], target)
  {
    hide Distance;
  }

  /** Any way of sorting gives the same list. */
  lemma {:induction false} SortingIsUnique(p: seq<Peer>, q: seq<Peer>, target: NodeId)
    requires multiset(p) == multiset(q) && Ascending(p, target) && Ascending(q, target)
    ensures p == q
    decreases |p|
  {
    hide Ascending;
    if p == [] {
      assert |multiset(q)| == |q|;
    } else {
      SameHead(p, q, target);
      TailBag(p);
      TailBag(q);
      TailAscends(p, target);
      TailAscends(q, target);
      SortingIsUnique(p[1..], q[1..], target);
      assert p == [p[0]] + p[1..] && q == [q[0]] + q[1..];
    }
  }

  /** What the buckets are for: a peer in a higher bucket is nearer to us than one in a lower. */
  lemma HigherBucketIsNearer(ours: NodeId, a: NodeId, b: NodeId, k: nat, m: nat)
    requires IsBucket(ours, a, k) && IsBucket(ours, b, m) && m < k
    ensures Distance(a, ours) < Distance(b, ours)
  {
    hide Distance, Bit;
    var x: nat :| CommonPrefix(ours, a, x) && k == if x < 256 then x else 255;
    var y: nat :| CommonPrefix(ours, b, y) && m == if y < 256 then y else 255;
    LongerPrefixIsNearer(a, b, ours, x, y);
  }

  lemma RenewedAt(ours: NodeId, bucket: seq<Peer>, k: nat, peer: Peer, i: nat)
    requires GoodBucket(ours, bucket, k) && i < |bucket| && bucket[i].nodeId == peer.nodeId
    ensures var r := bucket[i := bucket[i].(lastSeen := peer.lastSeen, addr := peer.addr)];
            Added(bucket, peer) == r && GoodBucket(ours, r, k)
  {
    RenewedIsGood(ours, bucket, k, peer);
    hide IsBucket;
    assert Knows(bucket, peer.nodeId);
    var r := bucket[i := bucket[i].(lastSeen := peer.lastSeen, addr := peer.addr)];
    forall j | 0 <= j < |bucket| ensures r[j] == Renewed(bucket, peer)[j] {
      if j < i { assert bucket[j].nodeId != bucket[i].nodeId; }
      if i < j { assert bucket[i].nodeId != bucket[j].nodeId; }
    }
    assert r == Renewed(bucket, peer);
  }

  lemma PushedNew(ours: NodeId, bucket: seq<Peer>, k: nat, peer: Peer)
    requires GoodBucket(ours, bucket, k) && IsBucket(ours, peer.nodeId, k)
    requires forall j :: 0 <= j < |bucket| ==> bucket[j].nodeId != peer.nodeId
    ensures var r := (if |bucket| >= 20 then bucket[1..] else bucket) + [peer];
            Added(bucket, peer) == r && Seeded(bucket, peer) == r && GoodBucket(ours, r, k)
  {
    hide IsBucket;
    PushedIsGood(ours, bucket, k, peer);
  }

  // ── What an operation does to the other peers ─────────────────────────────────

  /** The peer is in the table afterwards; nobody else appears; and who disappears was the first of a
      full bucket, the one that the peer belongs to. */
  lemma AddPeerIsLocal(ours: NodeId, t: Table, peer: Peer, k: nat, id: NodeId)
    requires GoodTable(ours, t) && k < 256
    ensures var (r, b) := (TableAdd(ours, t, peer), BucketOf(ours, peer.nodeId));
            && Knows(r[b], peer.nodeId)
            && (k != b ==> r[k] == t[k])
            && (Knows(r[k], id) ==> Knows(t[k], id) || id == peer.nodeId)
            && (Knows(t[k], id) && !Knows(r[k], id) ==>
                  k == b && |t[b]| == 20 && !Knows(t[b], peer.nodeId) && id == t[b][0].nodeId)
  {
    hide BucketOf, IsBucket;
    var b := BucketOf(ours, peer.nodeId);
    assert GoodBucket(ours, t[b], b);
    AddedKnows(ours, t[b], b, peer, id);
  }

  lemma AddedKnows(ours: NodeId, bucket: seq<Peer>, b: nat, peer: Peer, id: NodeId)
    requires GoodBucket(ours, bucket, b)
    ensures Knows(Added(bucket, peer), peer.nodeId)
    ensures Knows(Added(bucket, peer), id) ==> Knows(bucket, id) || id == peer.nodeId
    ensures Knows(bucket, id) && !Knows(Added(bucket, peer), id) ==>
              |bucket| == 20 && !Knows(bucket, peer.nodeId) && id == bucket[0].nodeId
  {
    hide IsBucket, Knows, Renewed;
    if Knows(bucket, peer.nodeId) {
      RenewedKnows(bucket, peer, id);
      RenewedKnows(bucket, peer, peer.nodeId);
    } else {
      PushedKnows(bucket, peer, id);
      PushedKnows(bucket, peer, peer.nodeId);
    }
  }

  lemma RenewedKnows(bucket: seq<Peer>, peer: Peer, id: NodeId)
    ensures Knows(Renewed(bucket, peer), id) <==> Knows(bucket, id)
  {
    var r := Renewed(bucket, peer);
    assert forall i :: 0 <= i < |r| ==> r[i].nodeId == bucket[i].nodeId;
    if Knows(bucket, id) {
      var i :| 0 <= i < |bucket| && bucket[i].nodeId == id;
      assert r[i].nodeId == id;
    }
  }

  lemma PushedKnows(bucket: seq<Peer>, peer: Peer, id: NodeId)
    ensures var r := Pushed(bucket, peer);
            && (id == peer.nodeId ==> Knows(r, id))
            && (Knows(r, id) ==> Knows(bucket, id) || id == peer.nodeId)
            && (Knows(bucket, id) && !Knows(r, id) ==> |bucket| >= 20 && id == bucket[0].nodeId)
  {
    var r := Pushed(bucket, peer);
    var d := if |bucket| >= 20 then 1 else 0;
    assert r[|r| - 1] == peer;
    assert forall i :: 0 <= i < |bucket| - d ==> r[i] == bucket[i + d];
    if Knows(r, id) {
      var i :| 0 <= i < |r| && r[i].nodeId == id;
      if i < |r| - 1 { assert bucket[i + d].nodeId == id; }
    }
    if Knows(bucket, id) {
      var i :| 0 <= i < |bucket| && bucket[i].nodeId == id;
      if i >= d { assert r[i - d].nodeId == id; }
    }
  }
}
