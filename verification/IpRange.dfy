/**
 * Enumerating address ranges (crates/glpi-discovery/src/ip_range.rs) and the
 * targets of a scan (crates/glpi-discovery/src/tasks/net_discovery.rs).
 */
module IpRange {
  import opened Common
  import opened Bits
  import opened Cidr

  const USIZE_MAX := TWO_TO_THE_64 - 1

  predicate ValidRange(r: Range) {
    r.start <= r.end <= U32_MAX
  }

  /** `Ipv4Range::new`. */
  function New(start: u32, end: u32): (r: Result<Range, Error>)
    ensures r.Ok? ==> ValidRange(r.value)
  {
    if start > end then Err(Reversed) else Ok(Range(start, end))
  }

  function Len(r: Range): nat
    requires ValidRange(r)
  {
    r.end - r.start + 1
  }

  /** The addresses from `first` to `last`, in ascending order. */
  function Addresses(first: nat, last: nat): (s: seq<nat>)
    requires first <= last + 1
    ensures |s| == last + 1 - first && forall i | 0 <= i < |s| :: s[i] == first + i
  {
    seq(last + 1 - first, i requires 0 <= i => first + i)
  }

  /** The bounds of `size_hint`: exact when the count fits the target's `usize`. */
  function SizeBounds(n: nat): (nat, Option<nat>) {
    if n <= USIZE_MAX then (n, Some(n)) else (USIZE_MAX, None)
  }

  lemma AddressesMembers(first: nat, last: nat)
    requires first <= last + 1
    ensures forall a :: a in Addresses(first, last) <==> first <= a <= last
  {
    forall a | first <= a <= last ensures a in Addresses(first, last) {
      assert Addresses(first, last)[a - first] == a;
    }
  }

  /** The iterator: `end` stays, `next` is the address to yield unless `done`. */
  class Ipv4RangeIter {
    var next: u32
    const end: u32
    var done: bool

    ghost predicate Valid()
      reads this
    {
      next <= end
    }

    /** What is still to be yielded. */
    ghost function Remaining(): seq<nat>
      reads this
      requires Valid()
    {
      if done then [] else Addresses(next, end)
    }

    constructor (range: Range)
      requires ValidRange(range)
      ensures Valid() && Remaining() == Addresses(range.start, range.end) && end == range.end
    {
      next, end, done := range.start, range.end, false;
    }

    /** `next`: the increment is not taken at the end of the range, so it cannot overflow. */
    method Next() returns (r: Option<nat>)
      requires Valid()
      modifies this
      ensures Valid()
      ensures old(Remaining()) == [] ==> r == None && Remaining() == []
      ensures old(Remaining()) != [] ==> r == Some(old(Remaining())[0]) && Remaining() == old(Remaining())[1..]
    {
      if done {
        return None;
      }
      var current := next;
      if current == end {
        done := true;
      } else {
        next := current + 1;
      }
      return Some(current);
    }

    /** `size_hint` on a 64-bit target: the bounds are exact and never saturate. */
    method SizeHint() returns (lower: nat, upper: Option<nat>)
      requires Valid()
      ensures lower == |Remaining()| <= USIZE_MAX && upper == Some(lower)
    {
      if done {
        return 0, Some(0);
      }
      var remaining := end - next + 1;
      var bounds := SizeBounds(remaining);
      return bounds.0, bounds.1;
    }
  }

  /** Calling `next` until it answers `None` yields every address once, ascending. */
  method Exhaust(range: Range) returns (yielded: seq<nat>)
    requires ValidRange(range)
    ensures yielded == Addresses(range.start, range.end) && |yielded| == Len(range)
    ensures forall a :: a in yielded <==> range.start <= a <= range.end
  {
    var iter := new Ipv4RangeIter(range);
    yielded := [];
    ghost var all := Addresses(range.start, range.end);
    while true
      invariant iter.Valid() && fresh(iter)
      invariant |yielded| <= |all| && yielded == all[..|yielded|] && iter.Remaining() == all[|yielded|..]
      decreases |all| - |yielded|
    {
      var item := iter.Next();
      if item.None? {
        break;
      }
      assert all[|yielded|..][0] == all[|yielded|] && all[|yielded|..][1..] == all[|yielded| + 1..];
      assert all[..|yielded| + 1] == all[..|yielded|] + [all[|yielded|]];
      yielded := yielded + [item.value];
    }
    AddressesMembers(range.start, range.end);
  }

  function TargetCount(ranges: seq<Range>): nat
    requires forall r | r in ranges :: ValidRange(r)
  {
    if ranges == [] then 0 else Len(ranges[|ranges| - 1]) + TargetCount(ranges[..|ranges| - 1])
  }

  /** All addresses of the ranges, range after range. */
  function Flattened(ranges: seq<Range>): seq<nat>
    requires forall r | r in ranges :: ValidRange(r)
  {
    if ranges == [] then []
    else
      var last := ranges[|ranges| - 1];
      assert last in ranges && ValidRange(last);
      Flattened(ranges[..|ranges| - 1]) + Addresses(last.start, last.end)
  }

  /** `targets`: the ranges in order, as many as `target_count` says, and the union of the ranges. */
  method Targets(ranges: seq<Range>) returns (targets: seq<nat>)
    requires forall r | r in ranges :: ValidRange(r)
    ensures targets == Flattened(ranges) && |targets| == TargetCount(ranges)
    ensures forall a :: a in targets <==> exists r | r in ranges :: r.start <= a <= r.end
  {
    targets := [];
    for i := 0 to |ranges|
      invariant targets == Flattened(ranges[..i]) && |targets| == TargetCount(ranges[..i])
      invariant forall a :: a in targets <==> exists r | r in ranges[..i] :: r.start <= a <= r.end
    {
      assert ranges[..i + 1] == ranges[..i] + [ranges[i]];
      var more := Exhaust(ranges[i]);
      targets := targets + more;
      assert ranges[..i + 1][..i] == ranges[..i];
    }
    assert ranges[..|ranges|] == ranges;
  }

  /** One range is its addresses, and lists of ranges are flattened one after the other. */
  lemma {:induction false} FlattenedInOrder(a: seq<Range>, b: seq<Range>, r: Range)
    requires (forall x | x in a + b :: ValidRange(x)) && ValidRange(r)
    requires (forall x | x in a :: ValidRange(x)) && forall x | x in b :: ValidRange(x)
    ensures Flattened([r]) == Addresses(r.start, r.end)
    ensures Flattened(a + b) == Flattened(a) + Flattened(b)
    decreases |b|
  {
    assert [r][..0] == [] && [] + Addresses(r.start, r.end) == Addresses(r.start, r.end);
    if b == [] {
      assert a + b == a;
    } else {
      var front, last := b[..|b| - 1], b[|b| - 1];
      assert (a + b)[..|a + b| - 1] == a + front && (a + b)[|a + b| - 1] == last;
      assert last in b && ValidRange(last);
      FlattenedInOrder(a, front, r);
      Assoc(Flattened(a), Flattened(front), Addresses(last.start, last.end));
    }
  }

  // ---- Address specifications -----------------------------------------------------------

  /** A specification after its text is taken apart; an end without dots is an octet. */
  datatype Spec =
    | Block(addr: u32, prefix: Option<nat>)
    | Between(start: u32, end: u32)
    | UpToOctet(start: u32, octet: byte)
    | One(addr: u32)

  /** `Ipv4Range::parse`. */
  function Parse(spec: Spec): Result<Range, Error> {
    match spec
    case Block(addr, prefix) => ParseCidr(addr, prefix)
    case Between(start, end) => New(start, end)
    case UpToOctet(start, octet) => New(start, start / 256 * 256 + octet)
    case One(addr) => New(addr, addr)
  }

  /** The addresses a specification stands for: those of a block share its leading bits. */
  predicate Covers(spec: Spec, a: u32) {
    match spec
    case Block(addr, prefix) =>
      prefix.Some? && prefix.value <= 32 && Shr(a, 32 - prefix.value) == Shr(addr, 32 - prefix.value)
    case Between(start, end) => start <= a <= end
    case UpToOctet(start, octet) => start <= a && a / 256 == start / 256 && a % 256 <= octet
    case One(addr) => a == addr
  }

  /** A specification is accepted exactly if it stands for some address, and then for its range. */
  lemma ParseIff(spec: Spec)
    ensures Parse(spec).Ok? <==> exists a: u32 :: Covers(spec, a)
    ensures Parse(spec).Ok? ==>
      ValidRange(Parse(spec).value) && forall a: u32 :: Covers(spec, a) <==> Contains(Parse(spec).value, a)
  {
    match spec {
      case Block(addr, Some(prefix)) =>
        if prefix <= 32 {
          BlockIsValid(addr, prefix);
          assert Covers(spec, addr);
          forall a: u32 ensures Covers(spec, a) <==> Contains(Parse(spec).value, a) {
            ThreeTestsAgree(addr, prefix, a);
          }
        }
      case Block(_, None) =>
      case One(addr) => assert Covers(spec, addr);
      case Between(start, end) => assert start <= end ==> Covers(spec, start);
      case UpToOctet(start, octet) => assert start <= start / 256 * 256 + octet ==> Covers(spec, start);
    }
  }

  /** The specifications of a scan, up to its targets: refused as a whole if one of them is. */
  method TargetsOf(specs: seq<Spec>) returns (targets: Result<seq<nat>, Error>)
    ensures targets.Ok? <==> forall i | 0 <= i < |specs| :: Parse(specs[i]).Ok?
    ensures targets.Ok? ==>
      forall a: u32 :: a in targets.value <==> exists i | 0 <= i < |specs| :: Covers(specs[i], a)
  {
    var ranges := [];
    for i := 0 to |specs|
      invariant |ranges| == i && (forall j | 0 <= j < i :: Parse(specs[j]) == Ok(ranges[j]))
      invariant forall r | r in ranges :: ValidRange(r)
    {
      var range := Parse(specs[i]);
      if range.Err? {
        return Err(range.error);
      }
      ParseIff(specs[i]);
      ranges := ranges + [range.value];
    }
    var all := Targets(ranges);
    forall a: u32 ensures a in all <==> exists i | 0 <= i < |specs| :: Covers(specs[i], a) {
      CoveredIff(specs, ranges, a);
    }
    return Ok(all);
  }

  lemma CoveredIff(specs: seq<Spec>, ranges: seq<Range>, a: u32)
    requires |ranges| == |specs| && forall i | 0 <= i < |specs| :: Parse(specs[i]) == Ok(ranges[i])
    ensures (exists r | r in ranges :: r.start <= a <= r.end) <==> exists i | 0 <= i < |specs| :: Covers(specs[i], a)
  {
    forall i | 0 <= i < |specs| ensures Covers(specs[i], a) <==> Contains(ranges[i], a) { ParseIff(specs[i]); }
    if i :| 0 <= i < |specs| && Covers(specs[i], a) { assert ranges[i] in ranges; }
  }

  /** A CIDR block is a valid range. */
  lemma BlockIsValid(addr: u32, prefix: nat)
    requires prefix <= 32
    ensures ValidRange(ParseCidr(addr, Some(prefix)).value)
  {
    BlockLength(addr, prefix);
  }
}
