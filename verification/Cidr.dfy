/**
 * The three readings of an IPv4 CIDR block: the scan range
 * (crates/glpi-discovery/src/ip_range.rs), the trust test
 * (crates/glpi-http/src/trust.rs) and the peer list
 * (crates/glpi-deploy/src/p2p.rs). Textual parsing of addresses and numbers is
 * not part of this model: a prefix that is not a number is `None`.
 */
module Cidr {
  import opened Common
  import opened Bits

  datatype Error = BadPrefix | TooWide | Reversed

  /** An inclusive range, `start <= end`. */
  datatype Range = Range(start: nat, end: nat)

  /** `u32::MAX << (32 - prefix)`, with the shift by 32 special-cased. */
  function Mask(prefix: nat): (mask: nat)
    requires prefix <= 32
    ensures mask <= U32_MAX
  {
    if prefix == 0 then 0 else Shl(U32_MAX, 32 - prefix) % TWO_TO_THE_32
  }

  /** `!` on 32 bits. */
  function Complement(mask: nat): nat
    requires mask <= U32_MAX
  {
    U32_MAX - mask
  }

  /** `Ipv4Range::parse_cidr`. */
  function ParseCidr(addr: u32, prefix: Option<nat>): Result<Range, Error> {
    if prefix.None? || prefix.value > 32 then Err(BadPrefix)
    else
      var mask := Mask(prefix.value);
      var base := And(addr, mask);
      Ok(Range(base, Or(base, Complement(mask))))
  }

  predicate Contains(range: Range, addr: u32) {
    range.start <= addr <= range.end
  }

  datatype TrustEntry = Single(addr: IpAddr) | V4Cidr(network: nat, mask: nat)

  predicate IsLoopback(a: IpAddr) {
    match a case V4(n) => n / 0x100_0000 == 127 case V6(n) => n == 1
  }

  /** The CIDR branch of `parse_entry`. */
  function ParseTrustCidr(addr: u32, prefix: Option<nat>): Result<TrustEntry, Error> {
    if prefix.None? || prefix.value > 32 then Err(BadPrefix)
    else Ok(V4Cidr(And(addr, Mask(prefix.value)), Mask(prefix.value)))
  }

  predicate EntryAllows(entry: TrustEntry, client: IpAddr) {
    match entry
    case Single(addr) => addr == client
    case V4Cidr(network, mask) => client.V4? && And(client.v4, mask) == network
  }

  /** `TrustList::allows`. */
  predicate Allows(entries: seq<TrustEntry>, client: IpAddr) {
    IsLoopback(client) || exists e | e in entries :: EntryAllows(e, client)
  }

  const MIN_PREFIX_LEN := 20

  /** `peer_candidates`, up to the port. */
  function PeerCandidates(addr: u32, prefix: Option<nat>): Result<seq<nat>, Error> {
    if prefix.None? || prefix.value > 32 then Err(BadPrefix)
    else if prefix.value < MIN_PREFIX_LEN then Err(TooWide)
    else
      var mask := Mask(prefix.value);
      var network := And(addr, mask);
      var broadcast := Or(network, Complement(mask));
      if broadcast < network + 2 then Ok([])
      else Ok(seq(broadcast - network - 1, i requires 0 <= i => network + 1 + i))
  }

  // ---- Masks as arithmetic (`w` is the width, kept symbolic for the verifier) -------

  lemma Width(w: nat)
    requires w == 32
    ensures Pow2(w) == TWO_TO_THE_32
  {
    assert Pow2(8) == 256;
    assert Pow2(16) == 0x1_0000;
    assert Pow2(24) == 0x100_0000;
    assert Pow2(32) == TWO_TO_THE_32;
  }

  lemma {:induction false} ShlOfPow2(n: nat, k: nat)
    ensures Shl(Pow2(n), k) == Pow2(n + k)
  {
    if k > 0 { ShlOfPow2(n, k - 1); }
  }

  lemma ShlOfOnes(n: nat, k: nat)
    ensures Shl(Pow2(n) - 1, k) == Pow2(n + k) - Pow2(k)
  {
    ShlOfPow2(n, k);
    ShlOfOne(k);
    ShlAdds(Pow2(n) - 1, 1, k);
  }

  lemma {:induction false} ShlOfU32(q: nat, w: nat)
    requires w == 32
    ensures Shl(q, w) == q * TWO_TO_THE_32
  {
    ShlTimes(q, w);
    Width(w);
  }

  /** 32 ones shifted left by `k`, before the wrap: full words of 32 bits, then ones above `k` zeros. */
  lemma ShiftedOnes(k: nat, w: nat)
    requires k <= w == 32
    ensures Pow2(k) <= Pow2(w) == TWO_TO_THE_32
    ensures Shl(U32_MAX, k) == (Pow2(k) - 1) * TWO_TO_THE_32 + (TWO_TO_THE_32 - Pow2(k))
  {
    Width(w);
    PowersGrow(k, w);
    ShlOfOnes(w, k);
    WideOnes(k, w);
  }

  lemma WideOnes(k: nat, w: nat)
    requires w == 32
    ensures Pow2(w + k) == Pow2(k) * TWO_TO_THE_32
  {
    ShlOfPow2(k, w);
    ShlOfU32(Pow2(k), w);
    assert k + w == w + k;
  }

  /** Wrapped to 32 bits, only the ones above `k` zeros are left. */
  lemma WrappedOnes(k: nat, w: nat)
    requires k <= w == 32
    ensures 1 <= Pow2(k) <= Pow2(w) == TWO_TO_THE_32
    ensures Shl(U32_MAX, k) % TWO_TO_THE_32 == TWO_TO_THE_32 - Pow2(k)
  {
    ShiftedOnes(k, w);
    WrapsTo(Pow2(k) - 1, TWO_TO_THE_32 - Pow2(k));
  }

  lemma MaskIs(prefix: nat, k: nat, w: nat)
    requires prefix <= 32 && k == 32 - prefix && w == 32
    ensures Pow2(k) <= Pow2(w) == TWO_TO_THE_32 && Mask(prefix) == TWO_TO_THE_32 - Pow2(k)
  {
    WrappedOnes(k, w);
    if prefix == 0 { assert k == w; }
  }

  lemma WrapsTo(q: nat, r: nat)
    requires r < TWO_TO_THE_32
    ensures (q * TWO_TO_THE_32 + r) % TWO_TO_THE_32 == r
  {
  }

  /** The block of `addr`: its leading bits, followed by all zeros up to all ones. */
  lemma BlockIs(addr: u32, prefix: nat, k: nat, w: nat)
    requires prefix <= 32 && k == 32 - prefix && w == 32
    ensures var network := Shl(Shr(addr, k), k);
      && And(addr, Mask(prefix)) == network
      && Or(network, Complement(Mask(prefix))) == network + Pow2(k) - 1
  {
    MaskIs(prefix, k, w);
    BlockOfMask(addr, Mask(prefix), k, w);
  }

  lemma BlockOfMask(addr: u32, mask: nat, k: nat, w: nat)
    requires k <= w == 32 && Pow2(k) <= TWO_TO_THE_32 && mask == TWO_TO_THE_32 - Pow2(k)
    ensures mask <= U32_MAX
    ensures var network := Shl(Shr(addr, k), k);
      And(addr, mask) == network && Or(network, Complement(mask)) == network + Pow2(k) - 1
  {
    NetworkIs(addr, mask, k, w);
    HostsFill(Shr(addr, k), mask, k);
  }

  lemma HostsFill(h: nat, mask: nat, k: nat)
    requires Pow2(k) <= TWO_TO_THE_32 && mask == TWO_TO_THE_32 - Pow2(k)
    ensures mask <= U32_MAX && Or(Shl(h, k), Complement(mask)) == Shl(h, k) + Pow2(k) - 1
  {
    OrFills(h, Pow2(k) - 1, k);
  }

  lemma NetworkIs(addr: u32, mask: nat, k: nat, w: nat)
    requires k <= w == 32 && mask == TWO_TO_THE_32 - Pow2(k)
    ensures And(addr, mask) == Shl(Shr(addr, k), k)
  {
    Width(w);
    AndHighMask(addr, k, w);
  }

  // ---- Agreement ------------------------------------------------------------------

  /**
   * Membership in the scan range, the trust test and equality of the leading
   * prefix bits are the same thing.
   */
  lemma ThreeTestsAgree(addr: u32, prefix: nat, client: u32)
    requires prefix <= 32
    ensures var range := ParseCidr(addr, Some(prefix)).value;
      var entry := ParseTrustCidr(addr, Some(prefix)).value;
      && (Contains(range, client) <==> EntryAllows(entry, V4(client)))
      && (Contains(range, client) <==> Shr(client, 32 - prefix) == Shr(addr, 32 - prefix))
  {
    var k := 32 - prefix;
    BlockIs(addr, prefix, k, 32);
    BlockIs(client, prefix, k, 32);
    BlockMembers(addr, client, k);
  }

  lemma BlockMembers(addr: nat, client: nat, k: nat)
    ensures var a, c := Shr(addr, k), Shr(client, k);
      && (Shl(a, k) <= client < Shl(a, k) + Pow2(k) <==> c == a)
      && (Shl(c, k) == Shl(a, k) <==> c == a)
  {
    var a, c := Shr(addr, k), Shr(client, k);
    Split(client, k);
    if a < c { ShlOrders(a, c, k); }
    if c < a { ShlOrders(c, a, k); }
  }

  /** A block has 2^(32 - prefix) addresses and ends within 32 bits. */
  lemma BlockLength(addr: u32, prefix: nat)
    requires prefix <= 32
    ensures var range := ParseCidr(addr, Some(prefix)).value;
      && range.end - range.start + 1 == Pow2(32 - prefix)
      && Contains(range, addr) && range.end <= U32_MAX
  {
    BlockIs(addr, prefix, 32 - prefix, 32);
    BlockMembers(addr, addr, 32 - prefix);
    EndsInWidth(addr, 32 - prefix, 32);
  }

  lemma EndsInWidth(a: u32, k: nat, w: nat)
    requires k <= w == 32
    ensures Shl(Shr(a, k), k) + Pow2(k) <= TWO_TO_THE_32
  {
    Width(w);
    LastBlock(a, k, w);
  }

  lemma {:induction false} LastBlock(a: nat, k: nat, w: nat)
    requires a < Pow2(w) && k <= w
    ensures Shl(Shr(a, k), k) + Pow2(k) <= Pow2(w)
    decreases k
  {
    if k > 0 { LastBlock(a / 2, k - 1, w - 1); }
  }

  /**
   * For the prefixes a peer scan accepts, the candidates are the block in order
   * without its first and last address; wider blocks are refused.
   */
  lemma PeersAreInnerBlock(addr: u32, prefix: nat)
    requires prefix <= 32
    ensures var peers, range := PeerCandidates(addr, Some(prefix)), ParseCidr(addr, Some(prefix)).value;
      && (prefix < 20 <==> peers == Err(TooWide))
      && (20 <= prefix <= 30 ==>
            && peers.Ok? && |peers.value| == Pow2(32 - prefix) - 2
            && forall i | 0 <= i < |peers.value| :: peers.value[i] == range.start + 1 + i < range.end)
      && (30 < prefix ==> peers == Ok([]))
  {
    var k := 32 - prefix;
    BlockIs(addr, prefix, k, 32);
    if k >= 2 { PowersGrow(2, k); }
    if k == 1 { assert Pow2(k) == 2; }
  }

  // ---- Trust lists -------------------------------------------------------------------

  /** A configured entry after its text is taken apart: empty, one address, or a block. */
  datatype TrustSpec = Blank | Address(addr: IpAddr) | Block(network: u32, prefix: Option<nat>)

  predicate Acceptable(spec: TrustSpec) {
    spec.Block? ==> spec.prefix.Some? && spec.prefix.value <= 32
  }

  function EntryOf(spec: TrustSpec): seq<TrustEntry>
    requires Acceptable(spec)
  {
    match spec
    case Blank => []
    case Address(addr) => [Single(addr)]
    case Block(network, prefix) => [ParseTrustCidr(network, prefix).value]
  }

  function EntriesOf(specs: seq<TrustSpec>): seq<TrustEntry>
    requires forall s | s in specs :: Acceptable(s)
  {
    if specs == [] then [] else EntriesOf(specs[..|specs| - 1]) + LastEntry(specs)
  }

  function LastEntry(specs: seq<TrustSpec>): seq<TrustEntry>
    requires specs != [] && forall s | s in specs :: Acceptable(s)
  {
    assert specs[|specs| - 1] in specs;
    EntryOf(specs[|specs| - 1])
  }

  /** `TrustList::parse`: empty entries are skipped, one bad prefix refuses the list. */
  method ParseTrustList(specs: seq<TrustSpec>) returns (entries: Result<seq<TrustEntry>, Error>)
    ensures entries.Ok? <==> forall s | s in specs && s.Block? :: s.prefix.Some? && s.prefix.value <= 32
    ensures entries.Ok? ==> entries.value == EntriesOf(specs)
  {
    var parsed: seq<TrustEntry> := [];
    for i := 0 to |specs|
      invariant (forall s | s in specs[..i] :: Acceptable(s)) && parsed == EntriesOf(specs[..i])
    {
      assert specs[i] in specs;
      assert specs[..i + 1] == specs[..i] + [specs[i]] && specs[..i + 1][..i] == specs[..i];
      match specs[i] {
        case Blank =>
        case Address(addr) => parsed := parsed + [Single(addr)];
        case Block(network, prefix) =>
          var entry := ParseTrustCidr(network, prefix);
          if entry.Err? {
            return Err(entry.error);
          }
          parsed := parsed + [entry.value];
      }
    }
    assert specs[..|specs|] == specs;
    return Ok(parsed);
  }

  /** Which clients an entry is meant to admit: its address, or those in the range of its block. */
  predicate Admits(spec: TrustSpec, client: IpAddr) {
    match spec
    case Blank => false
    case Address(addr) => addr == client
    case Block(network, prefix) =>
      client.V4? && ParseCidr(network, prefix).Ok? && Contains(ParseCidr(network, prefix).value, client.v4)
  }

  /** A trust list lets a client in exactly if it is loopback or an entry of the configuration admits it. */
  lemma {:induction false} AllowsIff(specs: seq<TrustSpec>, client: IpAddr)
    requires forall s | s in specs :: Acceptable(s)
    ensures Allows(EntriesOf(specs), client) <==> IsLoopback(client) || exists s | s in specs :: Admits(s, client)
  {
    if specs != [] {
      var before, last := specs[..|specs| - 1], specs[|specs| - 1];
      assert specs == before + [last] && last in specs;
      AllowsIff(before, client);
      EntryAllowsIff(last, client);
      assert EntriesOf(specs) == EntriesOf(before) + EntryOf(last);
    }
  }

  lemma EntryAllowsIff(spec: TrustSpec, client: IpAddr)
    requires Acceptable(spec)
    ensures (exists e | e in EntryOf(spec) :: EntryAllows(e, client)) <==> Admits(spec, client)
  {
    match spec {
      case Blank =>
      case Address(addr) => assert Single(addr) in EntryOf(spec);
      case Block(network, Some(prefix)) =>
        if client.V4? { ThreeTestsAgree(network, prefix, client.v4); }
        assert ParseTrustCidr(network, Some(prefix)).value in EntryOf(spec);
    }
  }

  /** Loopback is 127.0.0.0 to 127.255.255.255, and the address one. */
  lemma LoopbackIff(client: IpAddr)
    ensures IsLoopback(client) <==>
      (client.V4? && 2130706432 <= client.v4 <= 2147483647) || (client.V6? && client.v6 == 1)
  {
  }
}
