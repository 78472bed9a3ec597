/**
 Node state inspection and forwarding predicates of the Gnutella node
 engine: the hop-index clamp of the ping/pong cache, the pong bookkeeping
 invariant, status classification, the flag-mask predicates, the query
 forwarding rule, the swift-mode timings and the egress queue accessors.
 */
module Nodes {
  import opened Options
  import opened Bytes

  /** Largest hop count the ping/pong caching scheme distinguishes. */
  const MaxCacheHops: nat := 6

  /** Message function byte of a Gnutella query. */
  const MsgSearch: nat := 0x80

  /** CACHE_HOP_IDX: hop counts above MaxCacheHops share the last bucket. */
  function CacheHopIdx(h: nat): (i: nat)
    ensures i <= MaxCacheHops
    ensures i <= h
    ensures h <= MaxCacheHops ==> i == h
  {
    if h > MaxCacheHops then MaxCacheHops else h
  }

  /** The clamp is the minimum of h and MaxCacheHops: monotone and idempotent. */
  lemma CacheHopIdxIsMin(h: nat, g: nat)
    ensures CacheHopIdx(h) == (if h < MaxCacheHops then h else MaxCacheHops)
    ensures h <= g ==> CacheHopIdx(h) <= CacheHopIdx(g)
    ensures CacheHopIdx(CacheHopIdx(h)) == CacheHopIdx(h)
  {
  }

  function Sum(s: seq<nat>): (t: nat)
    decreases |s|
  {
    if |s| == 0 then 0 else s[0] + Sum(s[1..])
  }

  /**
   The pong bookkeeping of a connection: the pongs still needed for each
   hop bucket 0..MaxCacheHops, and their total, all `guchar` fields.
   */
  datatype PongState = PongState(needed: seq<byte>, missing: byte)

  /**
   pong_missing is the sum of pong_needed over all buckets; as pong_missing
   is a byte, the invariant holds only while that sum stays below 256.
   */
  predicate PongInvariant(p: PongState) {
    |p.needed| == MaxCacheHops + 1 && p.missing == Sum(p.needed)
  }

  /** A connection starts with no pongs needed. */
  const NoPongs: PongState := PongState(seq(MaxCacheHops + 1, _ => 0), 0)

  lemma {:induction false} SumOfZeros(n: nat)
    ensures Sum(seq(n, _ => 0)) == 0
  {
    if n > 0 {
      assert seq(n, _ => 0)[1..] == seq(n - 1, _ => 0);
      SumOfZeros(n - 1);
    }
  }

  lemma NoPongsInvariant()
    ensures PongInvariant(NoPongs)
  {
    SumOfZeros(MaxCacheHops + 1);
  }

  /** Changing one bucket changes the sum by exactly the same amount. */
  lemma {:induction false} SumUpdate(s: seq<nat>, i: nat, v: nat)
    requires i < |s|
    ensures Sum(s[i := v]) + s[i] == Sum(s) + v
    decreases |s|
  {
    if i > 0 {
      assert s[i := v][1..] == s[1..][i - 1 := v];
      SumUpdate(s[1..], i - 1, v);
    } else {
      assert s[i := v][1..] == s[1..];
    }
  }

  /** A bucket never exceeds the sum of all buckets. */
  lemma {:induction false} SumBoundsElement(s: seq<nat>, i: nat)
    requires i < |s|
    ensures s[i] <= Sum(s)
    decreases |s|
  {
    if i > 0 {
      SumBoundsElement(s[1..], i - 1);
    }
  }

  /**
   Under the invariant no bucket needs more pongs than pong_missing counts,
   which is below 256: the byte-wide total never wraps.
   */
  lemma PongInvariantBounds(p: PongState, i: nat)
    requires PongInvariant(p) && i < |p.needed|
    ensures p.needed[i] <= p.missing < 256
  {
    SumBoundsElement(p.needed, i);
  }

  /**
   A change of the pongs needed at hop h keeps the invariant exactly when
   pong_missing moves by the same amount.
   */
  lemma BucketUpdateKeepsInvariant(p: PongState, h: nat, v: byte, missing: byte)
    requires PongInvariant(p)
    ensures var q := PongState(p.needed[CacheHopIdx(h) := v], missing);
      PongInvariant(q) <==> missing + p.needed[CacheHopIdx(h)] == p.missing + v
  {
    SumUpdate(p.needed, CacheHopIdx(h), v);
  }

  /** Connection status of a node. */
  datatype NodeStatus =
    | Connecting
    | HelloSent
    | WelcomeSent
    | ReceivingHello
    | Connected
    | Shutdown
    | Removing

  /** NODE_IS_CONNECTING */
  predicate IsConnecting(s: NodeStatus) {
    s == Connecting || s == HelloSent || s == WelcomeSent || s == ReceivingHello
  }

  /** NODE_IS_CONNECTED: a node shutting down still counts as connected. */
  predicate IsConnected(s: NodeStatus) {
    s == Connected || s == Shutdown
  }

  /** NODE_IS_REMOVING */
  predicate IsRemoving(s: NodeStatus) {
    s == Removing
  }

  /** Every status is exactly one of connecting, connected and removing. */
  lemma StatusPartition(s: NodeStatus)
    ensures !(IsConnecting(s) && IsConnected(s))
    ensures IsRemoving(s) ==> !IsConnecting(s) && !IsConnected(s)
    ensures IsConnecting(s) || IsConnected(s) || IsRemoving(s)
    ensures IsConnected(Shutdown)
  {
  }

  /** The NODE_F_* flags; each owns one bit of the 32-bit flags word. */
  datatype NodeFlag =
    | HdskPing | StaleQrp | Incoming | Established | Valid | AlienIp
    | Writable | Readable | ByeSent | NoDelay | NoRead | EofWait
    | Closing | Ultra | Leaf | Crawler | FakeName | Proxy | QrpSent | Tls

  /** The bit position of each flag. */
  function BitIndex(f: NodeFlag): (k: nat)
    ensures k < 20
  {
    match f
    case HdskPing => 0    case StaleQrp => 1    case Incoming => 2
    case Established => 3 case Valid => 4       case AlienIp => 5
    case Writable => 6    case Readable => 7    case ByeSent => 8
    case NoDelay => 9     case NoRead => 10     case EofWait => 11
    case Closing => 12    case Ultra => 13      case Leaf => 14
    case Crawler => 15    case FakeName => 16   case Proxy => 17
    case QrpSent => 18    case Tls => 19
  }

  /** The mask constant of each flag. */
  function Bit(f: NodeFlag): bv32 {
    match f
    case HdskPing => 0x0000_0001    case StaleQrp => 0x0000_0002
    case Incoming => 0x0000_0004    case Established => 0x0000_0008
    case Valid => 0x0000_0010       case AlienIp => 0x0000_0020
    case Writable => 0x0000_0040    case Readable => 0x0000_0080
    case ByeSent => 0x0000_0100     case NoDelay => 0x0000_0200
    case NoRead => 0x0000_0400      case EofWait => 0x0000_0800
    case Closing => 0x0000_1000     case Ultra => 0x0000_2000
    case Leaf => 0x0000_4000        case Crawler => 0x0000_8000
    case FakeName => 0x0001_0000    case Proxy => 0x0002_0000
    case QrpSent => 0x0004_0000     case Tls => 0x0008_0000
  }

  /** Each mask is the single bit at the flag's own position. */
  lemma BitIsSingle(f: NodeFlag)
    ensures Bit(f) == (1 as bv32) << BitIndex(f)
  {
  }

  /** Distinct flags have distinct positions. */
  lemma BitIndexInjective(f: NodeFlag, g: NodeFlag)
    ensures BitIndex(f) == BitIndex(g) ==> f == g
  {
  }

  /** Two different flags never share a bit. */
  lemma BitsDisjoint(f: NodeFlag, g: NodeFlag)
    requires f != g
    ensures Bit(f) & Bit(g) == 0
  {
    BitIsSingle(f);
    BitIsSingle(g);
    BitIndexInjective(f, g);
    SingleBitsDisjoint(BitIndex(f), BitIndex(g));
  }

  lemma SingleBitsDisjoint(i: nat, j: nat)
    requires i < 32 && j < 32 && i != j
    ensures ((1 as bv32) << i) & ((1 as bv32) << j) == 0
  {
  }

  /** The flag is set in the flags word. */
  predicate HasFlag(flags: bv32, f: NodeFlag) {
    flags & Bit(f) != 0
  }

  /** The flags word with exactly the listed flags set. */
  function MaskOf(fs: seq<NodeFlag>): bv32
    decreases |fs|
  {
    if |fs| == 0 then 0 else Bit(fs[0]) | MaskOf(fs[1..])
  }

  /** A bit is set in an OR exactly when it is set in either operand. */
  lemma AndOfOr(a: bv32, b: bv32, c: bv32)
    ensures ((a | b) & c != 0) <==> (a & c != 0 || b & c != 0)
  {
    assert (a | b) & c == (a & c) | (b & c);
  }

  /**
   The flags are independent named booleans: a flag is set in the mask of
   a list exactly when it is in the list.
   */
  lemma {:induction false} MaskOfHas(fs: seq<NodeFlag>, g: NodeFlag)
    ensures HasFlag(MaskOf(fs), g) <==> g in fs
    decreases |fs|
  {
    if |fs| > 0 {
      MaskOfHas(fs[1..], g);
      AndOfOr(Bit(fs[0]), MaskOf(fs[1..]), Bit(g));
      BitHas(fs[0], g);
      InCons(fs, g);
    }
  }

  lemma InCons<T>(s: seq<T>, x: T)
    requires |s| > 0
    ensures x in s <==> x == s[0] || x in s[1..]
  {
    assert s == [s[0]] + s[1..];
  }

  /** A flag's own mask has that flag set and no other. */
  lemma BitHas(f: NodeFlag, g: NodeFlag)
    ensures HasFlag(Bit(f), g) <==> f == g
  {
    if f == g {
      assert Bit(f) & Bit(f) == Bit(f);
    } else {
      BitsDisjoint(f, g);
    }
  }

  /** NODE_IS_READABLE: READABLE set and NOREAD clear. */
  predicate IsReadable(flags: bv32) {
    flags & (Bit(Readable) | Bit(NoRead)) == Bit(Readable)
  }

  /** NODE_IS_ESTABLISHED: both WRITABLE and ESTABLISHED set. */
  predicate IsEstablished(flags: bv32) {
    flags & (Bit(Writable) | Bit(Established)) == Bit(Writable) | Bit(Established)
  }

  lemma ReadableMeaning(flags: bv32)
    ensures IsReadable(flags) <==> HasFlag(flags, Readable) && !HasFlag(flags, NoRead)
  {
    assert Bit(Readable) == 0x80 && Bit(NoRead) == 0x400;
    ReadableBits(flags);
  }

  lemma ReadableBits(flags: bv32)
    ensures flags & (0x80 | 0x400) == 0x80 <==> flags & 0x80 != 0 && flags & 0x400 == 0
  {
  }

  lemma EstablishedMeaning(flags: bv32)
    ensures IsEstablished(flags) <==> HasFlag(flags, Writable) && HasFlag(flags, Established)
  {
    assert Bit(Writable) == 0x40 && Bit(Established) == 0x8;
    EstablishedBits(flags);
  }

  lemma EstablishedBits(flags: bv32)
    ensures flags & (0x40 | 0x8) == 0x40 | 0x8 <==> flags & 0x40 != 0 && flags & 0x8 != 0
  {
  }

  /** Operating mode of a peer. */
  datatype PeerMode = Normal | Leaf | Ultra | Auto | Crawler | Udp | UnknownMode

  /** node_flowc_swift_grace, in seconds. */
  function SwiftGrace(mode: PeerMode): (s: nat)
    ensures s > 0
  {
    if mode == PeerMode.Leaf then 210 else 30
  }

  /** node_flowc_swift_period, in seconds. */
  function SwiftPeriod(mode: PeerMode): (s: nat)
    ensures s > 0
  {
    if mode == PeerMode.Leaf then 140 else 20
  }

  /**
   Every mode waits longer before entering swift mode than between swift
   checks, and a leaf gets more of both than any other peer, which all get
   the same.
   */
  lemma SwiftTimings(mode: PeerMode, other: PeerMode)
    ensures SwiftGrace(mode) > SwiftPeriod(mode)
    ensures mode != PeerMode.Leaf ==> SwiftGrace(PeerMode.Leaf) > SwiftGrace(mode)
    ensures mode != PeerMode.Leaf ==> SwiftPeriod(PeerMode.Leaf) > SwiftPeriod(mode)
    ensures mode != PeerMode.Leaf && other != PeerMode.Leaf ==>
      SwiftGrace(mode) == SwiftGrace(other) && SwiftPeriod(mode) == SwiftPeriod(other)
  {
  }

  /** The egress message queue as the inspection macros see it. */
  datatype MQueue = MQueue(size: nat, maxsize: nat, count: nat, pending: nat, lowat: nat)

  /** The part of a node the macros read. */
  datatype Node = Node(
    status: NodeStatus,
    flags: bv32,
    peermode: PeerMode,
    hopsFlow: nat,
    outq: Option<MQueue>,
    pongs: PongState)

  /** NODE_MQUEUE_PERCENT_USED: the queue fill in whole percent, 0 without a queue. */
  function PercentUsed(n: Node): (p: nat)
    requires n.outq.Some? ==> n.outq.value.maxsize > 0
    ensures n.outq.None? ==> p == 0
    ensures n.outq.Some? ==> p * n.outq.value.maxsize <= n.outq.value.size * 100 < (p + 1) * n.outq.value.maxsize
    ensures n.outq.Some? && n.outq.value.size <= n.outq.value.maxsize ==> p <= 100
  {
    match n.outq
    case None => 0
    case Some(q) => q.size * 100 / q.maxsize
  }

  /** NODE_MQUEUE_COUNT */
  function QueueCount(n: Node): (c: nat)
    ensures n.outq.None? ==> c == 0
    ensures n.outq.Some? ==> c == n.outq.value.count
  {
    match n.outq
    case None => 0
    case Some(q) => q.count
  }

  /** NODE_MQUEUE_PENDING */
  function QueuePending(n: Node): (c: nat)
    ensures n.outq.None? ==> c == 0
    ensures n.outq.Some? ==> c == n.outq.value.pending
  {
    match n.outq
    case None => 0
    case Some(q) => q.pending
  }

  /** NODE_MQUEUE_ABOVE_LOWAT: false without a queue. */
  predicate AboveLowat(n: Node) {
    match n.outq
    case None => false
    case Some(q) => q.size > q.lowat
  }

  lemma AboveLowatNeedsQueue(n: Node)
    ensures AboveLowat(n) <==> n.outq.Some? && n.outq.value.size > n.outq.value.lowat
  {
  }

  /** node_query_hops_ok */
  predicate QueryHopsOk(n: Node, h: nat) {
    h < n.hopsFlow
  }

  /**
   node_can_send for a message of function `t` at hop count `h`;
   `routeExists` is what route_exists_for_reply answers for its MUID, which
   is consulted only for a relayed query.
   */
  predicate CanSend(n: Node, t: nat, h: nat, routeExists: bool) {
    t != MsgSearch || (QueryHopsOk(n, h) && (h == 0 || routeExists))
  }

  /**
   Anything but a query always goes out; a query goes out exactly when its
   hop count is under the hops-flow value and it is ours or has a route back;
   a hops-flow of 0 blocks every query, ours included.
   */
  lemma CanSendRule(n: Node, t: nat, h: nat, routeExists: bool)
    ensures t != MsgSearch ==> CanSend(n, t, h, routeExists)
    ensures CanSend(n, MsgSearch, h, routeExists) <==> h < n.hopsFlow && (h == 0 || routeExists)
    ensures n.hopsFlow == 0 ==> !CanSend(n, MsgSearch, h, routeExists)
    ensures CanSend(n, MsgSearch, 0, routeExists) <==> n.hopsFlow > 0
  {
  }
}
