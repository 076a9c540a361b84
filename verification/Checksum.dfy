/**
 * ICMP echo requests and the Internet checksum
 * (crates/glpi-discovery/src/methods/ping.rs, section 2 of RFC 1071).
 *
 * The sum is a `u32` that wraps, as in a release build; a build with overflow
 * checks panics instead where `NoOverflowIff` says the sum can exceed it.
 */
module Checksum {
  import opened Common
  import opened Bits

  function Word(hi: byte, lo: byte): nat {
    hi as int * 256 + lo as int
  }

  /** The sum of the big-endian words, an odd last byte being padded with zero. */
  function WordSum(data: seq<byte>): nat {
    if |data| == 0 then 0
    else if |data| == 1 then Word(data[0], 0)
    else Word(data[0], data[1]) + WordSum(data[2..])
  }

  /** The end-around carry: low half plus high half until 16 bits are left. */
  function Fold(sum: nat): (f: nat)
    ensures f < TWO_TO_THE_16
    decreases sum
  {
    if sum / TWO_TO_THE_16 == 0 then sum else Fold(sum % TWO_TO_THE_16 + sum / TWO_TO_THE_16)
  }

  /** The checksum of RFC 1071: unbounded sum, folded, complemented. */
  function Rfc1071(data: seq<byte>): nat {
    TWO_TO_THE_16 - 1 - Fold(WordSum(data))
  }

  /** What the code makes of a sum that has wrapped at 32 bits. */
  function Complement(sum: nat): (c: nat)
    ensures c < TWO_TO_THE_16
  {
    TWO_TO_THE_16 - 1 - Fold(sum % TWO_TO_THE_32)
  }

  function Checksum(data: seq<byte>): nat {
    Complement(WordSum(data))
  }

  /** The fold loop. */
  method FoldCarries(initial: nat) returns (sum: nat)
    ensures sum == Fold(initial)
  {
    sum := initial;
    while Shr(sum, 16) != 0
      invariant Fold(sum) == Fold(initial)
      decreases sum
    {
      HalfWords(sum, 16);
      sum := And(sum, 0xffff) + Shr(sum, 16);
    }
    HalfWords(sum, 16);
  }

  /** A sum that has wrapped `q` times and has this much still to add comes to `total`. */
  ghost predicate Reaches(sum: nat, rest: nat, total: nat, q: nat) {
    sum <= U32_MAX && sum + rest + q * TWO_TO_THE_32 == total
  }

  /** A wrapping addition. */
  function Plus(sum: nat, word: nat): nat {
    (sum + word) % TWO_TO_THE_32
  }

  /** Adding a word wraps at most once. */
  lemma PlusIs(sum: nat, word: nat)
    requires sum <= U32_MAX && word < TWO_TO_THE_16
    ensures Plus(sum, word) == if sum + word <= U32_MAX then sum + word else sum + word - TWO_TO_THE_32
  {
  }

  /** The chunk loop and the remainder. */
  method AddWords(data: seq<byte>) returns (sum: nat)
    ensures sum == WordSum(data) % TWO_TO_THE_32
  {
    sum := 0;
    var i := 0;
    ghost var q := 0;
    assert data[0..] == data;
    while i + 1 < |data|
      invariant 0 <= i <= |data|
      invariant Reaches(sum, WordSum(data[i..]), WordSum(data), q)
    {
      WordsFrom(data, i);
      PlusIs(sum, Word(data[i], data[i + 1]));
      q := if sum + Word(data[i], data[i + 1]) <= U32_MAX then q else q + 1;
      sum := Plus(sum, Word(data[i], data[i + 1]));
      i := i + 2;
    }
    WordsFrom(data, i);
    if i < |data| {
      PlusIs(sum, Word(data[i], 0));
      q := if sum + Word(data[i], 0) <= U32_MAX then q else q + 1;
      sum := Plus(sum, Word(data[i], 0));
    }
    ReachesAll(sum, WordSum(data), q);
  }

  /** `internet_checksum`: the words are added up, the carries folded, the bits inverted. */
  method InternetChecksum(data: seq<byte>) returns (c: nat)
    ensures c == Checksum(data)
  {
    var sum := AddWords(data);
    var folded := FoldCarries(sum);
    c := Inverted(folded);
  }

  /** `!` on 16 bits. */
  method Inverted(n: nat) returns (c: nat)
    requires n < TWO_TO_THE_16
    ensures c == TWO_TO_THE_16 - 1 - n
  {
    HalfWords(0, 16);
    c := Not(n, 16);
  }

  lemma ReachesAll(sum: nat, total: nat, q: nat)
    requires Reaches(sum, 0, total, q)
    ensures sum == total % TWO_TO_THE_32
  {
  }

  lemma WordsFrom(data: seq<byte>, i: nat)
    requires i <= |data|
    ensures WordSum(data[i..]) ==
      if i == |data| then 0 else if i + 1 == |data| then Word(data[i], 0)
      else Word(data[i], data[i + 1]) + WordSum(data[i + 2..])
  {
    if i + 1 < |data| { assert data[i..][2..] == data[i + 2..]; }
  }

  lemma WrapAdd(a: nat, b: nat)
    ensures (a % TWO_TO_THE_32 + b) % TWO_TO_THE_32 == (a + b) % TWO_TO_THE_32
  {
  }

  /** The masks and shifts of the loop, as arithmetic. (`k` keeps the shift count symbolic.) */
  lemma HalfWords(sum: nat, k: nat)
    requires k == 16
    ensures And(sum, 0xffff) == sum % TWO_TO_THE_16 && Shr(sum, k) == sum / TWO_TO_THE_16
    ensures Pow2(k) == TWO_TO_THE_16
  {
    LowHalf(sum, 8, k);
    AndLowMask(sum, k);
    Pow2Of16();
  }

  lemma LowHalf(sum: nat, j: nat, k: nat)
    requires j == 8 && k == 16
    ensures Low(sum, k) == sum % TWO_TO_THE_16 && Shr(sum, k) == sum / TWO_TO_THE_16
  {
    Bytes(sum, j);
    Bytes(sum / 256, j);
    LowParts(sum, j, j);
    var h := sum / 256;
    assert k == j + j && Low(sum, k) == Shl(h % 256, j) + sum % 256;
    Times256(h % 256, j);
    TwoBytes(sum);
  }

  lemma TwoBytes(n: nat)
    ensures n % TWO_TO_THE_16 == 256 * (n / 256 % 256) + n % 256 && n / TWO_TO_THE_16 == n / 256 / 256
  {
  }

  lemma Pow2Of16()
    ensures Pow2(16) == TWO_TO_THE_16
  {
    assert Pow2(4) == 16;
    assert Pow2(8) == 256;
    assert Pow2(12) == 4096;
  }

  lemma Bytes(a: nat, j: nat)
    requires j == 8
    ensures Shr(a, j) == a / 256 && Low(a, j) == a % 256
  {
  }

  lemma Times16(a: nat)
    ensures Shl(a, 4) == 16 * a
  {
    assert Shl(a, 1) == 2 * a;
    assert Shl(a, 2) == 4 * a;
    assert Shl(a, 3) == 8 * a;
  }

  lemma Times256(a: nat, j: nat)
    requires j == 8
    ensures Shl(a, j) == 256 * a
  {
    Times16(a);
    assert Shl(a, 5) == 32 * a;
    assert Shl(a, 6) == 64 * a;
    assert Shl(a, 7) == 128 * a;
  }

  /** The low bits in two pieces. */
  lemma {:induction false} LowParts(a: nat, j: nat, k: nat)
    ensures Shr(a, j + k) == Shr(Shr(a, j), k)
    ensures Low(a, j + k) == Shl(Low(Shr(a, j), k), j) + Low(a, j)
    decreases j
  {
    if j > 0 { LowParts(a / 2, j - 1, k); }
  }

  lemma ResidueStep(x: nat, k: nat)
    ensures (x + 65535 * k) % 65535 == x % 65535
  {
  }

  /** Folding keeps the sum modulo 65535, and keeps a positive sum positive. */
  lemma {:induction false} FoldIsResidue(sum: nat)
    ensures Fold(sum) == if sum == 0 then 0 else (sum - 1) % 65535 + 1
    decreases sum
  {
    if sum / TWO_TO_THE_16 != 0 {
      var next := sum % TWO_TO_THE_16 + sum / TWO_TO_THE_16;
      FoldIsResidue(next);
      assert sum - 1 == (next - 1) + 65535 * (sum / TWO_TO_THE_16);
      ResidueStep(next - 1, sum / TWO_TO_THE_16);
    }
  }

  // ---- The echo request -----------------------------------------------------------

  datatype EchoRequest = EchoRequest(identifier: nat, sequence: nat, payload: seq<byte>)

  predicate ValidRequest(r: EchoRequest) {
    r.identifier < TWO_TO_THE_16 && r.sequence < TWO_TO_THE_16
  }

  function BigEndian(n: nat): (s: seq<byte>)
    requires n < TWO_TO_THE_16
    ensures |s| == 2 && Word(s[0], s[1]) == n
  {
    [n / 256, n % 256]
  }

  /** A message: type 8, code 0, the checksum field, the rest. */
  function Packet(field: seq<byte>, rest: seq<byte>): (pkt: seq<byte>)
    requires |field| == 2
    ensures |pkt| == 4 + |rest|
  {
    [8, 0] + field + rest
  }

  /** What follows the checksum field. */
  function Body(r: EchoRequest): seq<byte>
    requires ValidRequest(r)
  {
    BigEndian(r.identifier) + BigEndian(r.sequence) + r.payload
  }

  function Message(r: EchoRequest, checksum: nat): seq<byte>
    requires ValidRequest(r) && checksum < TWO_TO_THE_16
  {
    Packet(BigEndian(checksum), Body(r))
  }

  /** `encode`: the message is built with a zero checksum, which is then patched in place. */
  method Encode(r: EchoRequest) returns (pkt: seq<byte>)
    requires ValidRequest(r)
    ensures pkt == Message(r, Checksum(Message(r, 0)))
    ensures Checksum(pkt) == 0
  {
    pkt := Build(BigEndian(0), BigEndian(r.identifier), BigEndian(r.sequence), r.payload);
    var checksum := InternetChecksum(pkt);
    SelfConsistent(r);
    pkt := Patch(BigEndian(0), BigEndian(checksum), Body(r), pkt);
  }

  method Build(field: seq<byte>, identifier: seq<byte>, sequence: seq<byte>, payload: seq<byte>)
    returns (pkt: seq<byte>)
    requires |field| == 2
    ensures pkt == Packet(field, identifier + sequence + payload)
  {
    pkt := [8];
    pkt := pkt + [0];
    pkt := pkt + field;
    pkt := pkt + identifier;
    pkt := pkt + sequence;
    pkt := pkt + payload;
    assert [8] + [0] == [8, 0];
    Grouped([8], [0], field, identifier, sequence, payload);
  }

  method Patch(ghost zero: seq<byte>, field: seq<byte>, ghost rest: seq<byte>, unsigned: seq<byte>)
    returns (pkt: seq<byte>)
    requires |zero| == |field| == 2 && unsigned == Packet(zero, rest)
    ensures pkt == Packet(field, rest)
  {
    pkt := unsigned[2 := field[0]][3 := field[1]];
    PatchField([8, 0], zero, field, rest);
  }

  lemma Grouped<T>(a: seq<T>, b: seq<T>, z: seq<T>, c: seq<T>, d: seq<T>, e: seq<T>)
    ensures a + b + z + c + d + e == a + b + z + (c + d + e)
  {
  }

  lemma PatchField<T>(head: seq<T>, zero: seq<T>, field: seq<T>, body: seq<T>)
    requires |head| == |zero| == |field| == 2
    ensures (head + zero + body)[2 := field[0]][3 := field[1]] == head + field + body
  {
  }

  lemma PacketFirst(field: seq<byte>, rest: seq<byte>)
    requires |field| == 2
    ensures Packet(field, rest) == [8, 0] + (field + rest)
  {
  }

  lemma WordFirst(word: seq<byte>, rest: seq<byte>)
    requires |word| == 2
    ensures WordSum(word + rest) == Word(word[0], word[1]) + WordSum(rest)
  {
    assert (word + rest)[2..] == rest;
  }

  lemma MessageSum(r: EchoRequest, checksum: nat)
    requires ValidRequest(r) && checksum < TWO_TO_THE_16
    ensures WordSum(Message(r, checksum)) == 2048 + checksum + r.identifier + r.sequence + WordSum(r.payload)
  {
    var last := BigEndian(r.sequence) + r.payload;
    assert Body(r) == BigEndian(r.identifier) + last;
    PacketFirst(BigEndian(checksum), Body(r));
    WordFirst([8, 0], BigEndian(checksum) + Body(r));
    WordFirst(BigEndian(checksum), Body(r));
    WordFirst(BigEndian(r.identifier), last);
    WordFirst(BigEndian(r.sequence), r.payload);
  }

  /** Adding the checksum of a wrapped sum never wraps again: it stops at a multiple of 65535. */
  lemma ComplementFits(sum: nat)
    requires sum <= U32_MAX
    ensures var c := TWO_TO_THE_16 - 1 - Fold(sum);
      0 < sum + c <= U32_MAX && (sum + c) % 65535 == 0
  {
    FoldIsResidue(sum);
    if sum > 0 {
      var q, f := (sum - 1) / 65535, (sum - 1) % 65535;
      assert sum - 1 == 65535 * q + f;
      assert q <= 65536;
      assert sum + (65534 - f) == 65535 * (q + 1);
    }
  }

  /** A message of any length carries the checksum that makes its own checksum zero. */
  lemma SelfConsistent(r: EchoRequest)
    requires ValidRequest(r)
    ensures Checksum(Message(r, Checksum(Message(r, 0)))) == 0
  {
    var c := Checksum(Message(r, 0));
    FieldAdds(r, c);
    SumsToZero(Message(r, 0), Message(r, c), c);
  }

  lemma FieldAdds(r: EchoRequest, checksum: nat)
    requires ValidRequest(r) && checksum < TWO_TO_THE_16
    ensures WordSum(Message(r, checksum)) == WordSum(Message(r, 0)) + checksum
  {
    MessageSum(r, 0);
    MessageSum(r, checksum);
  }

  lemma SumsToZero(unsigned: seq<byte>, signed: seq<byte>, c: nat)
    requires c == Checksum(unsigned) && WordSum(signed) == WordSum(unsigned) + c
    ensures Checksum(signed) == 0
  {
    ComplementFolds(WordSum(unsigned));
  }

  lemma ComplementFolds(sum: nat)
    ensures Complement(sum + Complement(sum)) == 0
  {
    var low, c := sum % TWO_TO_THE_32, Complement(sum);
    ComplementFits(low);
    WrapAdd(sum, c);
    assert (low + c) % TWO_TO_THE_32 == low + c;
    FullFold(low + c);
  }

  lemma FullFold(total: nat)
    requires 0 < total && total % 65535 == 0
    ensures Fold(total) == 65535
  {
    FoldIsResidue(total);
    var k := total / 65535;
    assert total - 1 == 65535 * (k - 1) + 65534;
  }

  // ---- The bound of the sum ---------------------------------------------------------

  /** The largest sum that `n` bytes can have. */
  function LargestSum(n: nat): nat {
    65535 * (n / 2) + 65280 * (n % 2)
  }

  lemma {:induction false} SumIsBounded(data: seq<byte>)
    ensures WordSum(data) <= LargestSum(|data|)
    decreases |data|
  {
    if |data| >= 2 {
      SumIsBounded(data[2..]);
      assert |data| / 2 == |data[2..]| / 2 + 1 && |data| % 2 == |data[2..]| % 2;
    }
  }

  lemma {:induction false} AllOnesReachBound(data: seq<byte>)
    requires forall i | 0 <= i < |data| :: data[i] == 255
    ensures WordSum(data) == LargestSum(|data|)
    decreases |data|
  {
    if |data| >= 2 {
      AllOnesReachBound(data[2..]);
      assert |data| / 2 == |data[2..]| / 2 + 1 && |data| % 2 == |data[2..]| % 2;
    }
  }

  /** No data of this length overflows the `u32` sum exactly up to 131074 bytes. */
  lemma NoOverflowIff(n: nat)
    ensures (forall data: seq<byte> | |data| == n :: WordSum(data) <= U32_MAX) <==> n <= 131074
  {
    if n <= 131074 {
      forall data: seq<byte> | |data| == n ensures WordSum(data) <= U32_MAX {
        SumIsBounded(data);
      }
    } else {
      var ones: seq<byte> := seq(n, _ => 255);
      AllOnesReachBound(ones);
      assert |ones| == n && WordSum(ones) > U32_MAX;
    }
  }

  /** With `q` wraps the value is the one of RFC 1071 only if the lost carries vanish modulo 65535. */
  lemma IsRfc1071Iff(data: seq<byte>)
    ensures var q, low := WordSum(data) / TWO_TO_THE_32, WordSum(data) % TWO_TO_THE_32;
      Checksum(data) == Rfc1071(data) <==> q == 0 || (q % 65535 == 0 && low > 0)
  {
    var sum := WordSum(data);
    var q, low := sum / TWO_TO_THE_32, sum % TWO_TO_THE_32;
    FoldIsResidue(sum);
    FoldIsResidue(low);
    assert sum == TWO_TO_THE_32 * q + low;
    if q > 0 && low > 0 {
      SameResidueIff(low - 1, q);
    }
  }

  lemma SameResidueIff(x: nat, q: nat)
    ensures (TWO_TO_THE_32 * q + x) % 65535 == x % 65535 <==> q % 65535 == 0
  {
    assert TWO_TO_THE_32 * q + x == (x + q) + 65535 * (65537 * q);
    ResidueStep(x + q, 65537 * q);
    var xr, qr := x % 65535, q % 65535;
    assert x + q == (xr + qr) + 65535 * (x / 65535 + q / 65535);
    ResidueStep(xr + qr, x / 65535 + q / 65535);
    if xr + qr >= 65535 { ResidueStep(xr + qr - 65535, 1); }
  }

  // ---- The sum and the message, byte by byte ----------------------------------------

  /** Words are in network order, and a single byte is the high half of its word. */
  lemma WordSumLaws(hi: byte, lo: byte, a: seq<byte>, b: seq<byte>)
    ensures WordSum([]) == 0 && WordSum([hi]) == 256 * hi as int && WordSum([hi, lo]) == 256 * hi as int + lo as int
    ensures |a| % 2 == 0 ==> WordSum(a + b) == WordSum(a) + WordSum(b)
  {
    assert [hi, lo][2..] == [];
    if |a| % 2 == 0 { WordSumAppend(a, b); }
  }

  lemma {:induction false} WordSumAppend(a: seq<byte>, b: seq<byte>)
    requires |a| % 2 == 0
    ensures WordSum(a + b) == WordSum(a) + WordSum(b)
    decreases |a|
  {
    if a == [] {
      assert a + b == b;
    } else {
      assert (a + b)[2..] == a[2..] + b;
      WordSumAppend(a[2..], b);
    }
  }

  /** An encoded request: type 8, code 0, then checksum, identifier and sequence in network order, and the payload. */
  lemma EncodedLayout(r: EchoRequest, checksum: nat)
    requires ValidRequest(r) && checksum < TWO_TO_THE_16
    ensures var pkt := Message(r, checksum);
      && |pkt| == 8 + |r.payload| && pkt[0] == 8 && pkt[1] == 0
      && pkt[2] as int * 256 + pkt[3] as int == checksum
      && pkt[4] as int * 256 + pkt[5] as int == r.identifier
      && pkt[6] as int * 256 + pkt[7] as int == r.sequence
      && pkt[8..] == r.payload
  {
    FieldsStand(BigEndian(checksum), BigEndian(r.identifier), BigEndian(r.sequence), r.payload);
  }

  lemma FieldsStand(c: seq<byte>, i: seq<byte>, s: seq<byte>, payload: seq<byte>)
    requires |c| == |i| == |s| == 2
    ensures var pkt := Packet(c, i + s + payload);
      && |pkt| == 8 + |payload| && pkt[0] == 8 && pkt[1] == 0 && pkt[2] == c[0] && pkt[3] == c[1]
      && pkt[4] == i[0] && pkt[5] == i[1] && pkt[6] == s[0] && pkt[7] == s[1] && pkt[8..] == payload
  {
  }
}
