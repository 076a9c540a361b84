/**
 * NetBIOS node status messages (crates/glpi-discovery/src/methods/netbios.rs,
 * sections 4.2.17 and 4.2.18 of RFC 1002).
 *
 * The lossy UTF-8 decoding of a name is a parameter; all that is used of it is
 * that ASCII bytes decode to themselves.
 */
module NetBios {
  import opened Common
  import opened Bits

  type Decoder = Bytes -> string

  const NAME_ENTRY_LEN := 18
  const GROUP_FLAG := 0x8000

  datatype Name = Name(name: string, suffix: byte, group: bool)

  /** `trim_end_matches([' ', '\0'])`. */
  function TrimEnd(s: string): string {
    if s != [] && (s[|s| - 1] == ' ' || s[|s| - 1] == '\0') then TrimEnd(s[..|s| - 1]) else s
  }

  /** `skip_name`: length-prefixed labels up to a root label or a two-byte pointer. */
  function SkipName(data: Bytes, offset: nat): (after: Option<nat>)
    ensures after.Some? ==> offset < after.value <= |data|
    decreases |data| - offset
  {
    if offset >= |data| then None
    else
      var len := data[offset] as int;
      if len == 0 then Some(offset + 1)
      else if And(len, 0xc0) == 0xc0 then if offset + 2 <= |data| then Some(offset + 2) else None
      else SkipName(data, offset + 1 + len)
  }

  method SkipNameLoop(data: Bytes, start: nat) returns (after: Option<nat>)
    ensures after == SkipName(data, start)
  {
    var offset := start;
    while true
      invariant SkipName(data, start) == SkipName(data, offset)
      decreases |data| - offset
    {
      if offset >= |data| {
        return None;
      }
      var len := data[offset] as int;
      if len == 0 {
        return Some(offset + 1);
      }
      if And(len, 0xc0) == 0xc0 {
        return if offset + 2 <= |data| then Some(offset + 2) else None;
      }
      offset := offset + 1 + len;
    }
  }

  /** Where the name entries start and how many are announced. */
  function Layout(data: Bytes): (l: Option<(nat, nat)>)
    ensures l.Some? ==> l.value.0 <= |data|
  {
    if |data| < 12 then None
    else
      match SkipName(data, 12)
      case None => None
      case Some(off) => if off + 10 < |data| then Some((off + 11, data[off + 10])) else None
  }

  function Flags(hi: byte, lo: byte): nat {
    hi as int * 256 + lo as int
  }

  /** The name in an 18-byte entry: 15 bytes, the suffix, two bytes of flags. */
  function EntryOf(decode: Decoder, entry: Bytes): Name
    requires |entry| == NAME_ENTRY_LEN
  {
    Name(TrimEnd(decode(entry[..15])), entry[15], And(Flags(entry[16], entry[17]), GROUP_FLAG) != 0)
  }

  function EntryAt(decode: Decoder, data: Bytes, off: nat): Name
    requires off + NAME_ENTRY_LEN <= |data|
  {
    EntryOf(decode, data[off..off + NAME_ENTRY_LEN])
  }

  /** A response is well formed if all announced entries are there. */
  predicate WellFormed(data: Bytes) {
    var l := Layout(data);
    l.Some? && l.value.0 + l.value.1 * NAME_ENTRY_LEN <= |data|
  }

  /** `parse_node_status_response`: every read is within the data. */
  method ParseNodeStatusResponse(decode: Decoder, data: Bytes) returns (r: Result<seq<Name>, ()>)
    ensures r.Ok? <==> WellFormed(data)
    ensures r.Ok? ==> |r.value| == Layout(data).value.1
    ensures r.Ok? ==> forall i | 0 <= i < |r.value| ::
      r.value[i] == EntryAt(decode, data, Layout(data).value.0 + i * NAME_ENTRY_LEN)
  {
    if |data| < 12 {
      return Err(());
    }
    var after := SkipNameLoop(data, 12);
    if after.None? || |data| <= after.value + 10 {
      return Err(());
    }
    var off := after.value + 10;
    var numNames := data[off] as int;
    off := off + 1;
    ghost var base := off;
    var names: seq<Name> := [];
    for n := 0 to numNames
      invariant off == base + n * NAME_ENTRY_LEN <= |data| && |names| == n
      invariant forall i | 0 <= i < n :: names[i] == EntryAt(decode, data, base + i * NAME_ENTRY_LEN)
    {
      if off + NAME_ENTRY_LEN > |data| {
        return Err(());
      }
      names := names + [EntryAt(decode, data, off)];
      off := off + NAME_ENTRY_LEN;
    }
    return Ok(names);
  }

  // ---- Rendering a response --------------------------------------------------------

  /** An entry to render; the group bit is one of the flags. */
  datatype Entry = Entry(name: string, suffix: byte, hi: byte, lo: byte)

  predicate Renderable(e: Entry) {
    && |e.name| <= 15 && (forall c | c in e.name :: c as int < 128)
    && (e.name != [] ==> e.name[|e.name| - 1] != ' ' && e.name[|e.name| - 1] != '\0')
  }

  function AsciiByte(c: char): byte {
    if c as int < 128 then c as int else 0
  }

  /** The name in ASCII, padded with spaces to 15 bytes. */
  function Padded(name: string): (b: Bytes)
    requires |name| <= 15
    ensures |b| == 15
  {
    seq(|name|, i requires 0 <= i < |name| => AsciiByte(name[i])) + seq(15 - |name|, _ => 0x20)
  }

  function RenderEntry(e: Entry): (b: Bytes)
    requires Renderable(e)
    ensures |b| == NAME_ENTRY_LEN
  {
    Padded(e.name) + [e.suffix, e.hi, e.lo]
  }

  function RenderEntries(es: seq<Entry>): (b: Bytes)
    requires forall i | 0 <= i < |es| :: Renderable(es[i])
    ensures |b| == |es| * NAME_ENTRY_LEN
  {
    if es == [] then [] else RenderEntry(es[0]) + RenderEntries(es[1..])
  }

  /**
   * A response: header, the 34 bytes of an encoded name, ten bytes of type, class,
   * time to live and length, the count, the entries, and whatever follows.
   */
  function Render(header: Bytes, encoded: Bytes, fixed: Bytes, es: seq<Entry>, tail: Bytes): Bytes
    requires |header| == 12 && |encoded| == 32 && |fixed| == 10 && |es| <= 255
    requires forall i | 0 <= i < |es| :: Renderable(es[i])
  {
    Head(header, encoded, fixed, |es|) + RenderEntries(es) + tail
  }

  function Head(header: Bytes, encoded: Bytes, fixed: Bytes, count: byte): (b: Bytes)
    requires |header| == 12 && |encoded| == 32 && |fixed| == 10
    ensures |b| == 57
  {
    header + [0x20] + encoded + [0] + fixed + [count]
  }

  /** ASCII bytes decode to themselves. */
  ghost predicate DecodesAscii(decode: Decoder) {
    forall b: Bytes | forall i | 0 <= i < |b| :: b[i] < 128 ::
      decode(b) == seq(|b|, i requires 0 <= i < |b| => b[i] as char)
  }

  /** The group bit is the highest of the two flag bytes in network order. */
  lemma GroupIff(hi: byte, lo: byte, k: nat, n: nat)
    requires k == 15 && n == 16
    ensures And(Flags(hi, lo), GROUP_FLAG) != 0 <==> hi >= 128
  {
    assert Pow2(4) == 16 && Pow2(8) == 256 && Pow2(12) == 4096;
    assert Pow2(k) == 32768 && Pow2(n) == 65536;
    HighBitsIff(Flags(hi, lo), k, n);
  }

  /** What the parser is to make of an entry. */
  function NameOf(e: Entry): Name {
    Name(e.name, e.suffix, e.hi >= 128)
  }

  lemma {:induction false} TrimDropsPadding(name: string, n: nat)
    requires name != [] ==> name[|name| - 1] != ' ' && name[|name| - 1] != '\0'
    ensures TrimEnd(name + seq(n, _ => ' ')) == name
    decreases n
  {
    var s := name + seq(n, _ => ' ');
    if n == 0 {
      assert s == name;
    } else {
      assert s[..|s| - 1] == name + seq(n - 1, _ => ' ');
      TrimDropsPadding(name, n - 1);
    }
  }

  lemma PaddedIsAscii(e: Entry, text: string)
    requires Renderable(e) && text == e.name + seq(15 - |e.name|, _ => ' ')
    ensures |text| == 15
    ensures forall i | 0 <= i < 15 :: Padded(e.name)[i] < 128 && Padded(e.name)[i] as char == text[i]
  {
    forall i | 0 <= i < 15 ensures Padded(e.name)[i] < 128 && Padded(e.name)[i] as char == text[i] {
      if i < |e.name| { assert e.name[i] in e.name; }
    }
  }

  lemma PaddedReads(decode: Decoder, e: Entry, text: string)
    requires DecodesAscii(decode) && Renderable(e) && text == e.name + seq(15 - |e.name|, _ => ' ')
    ensures decode(Padded(e.name)) == text
  {
    PaddedIsAscii(e, text);
    AsciiDecodes(decode, Padded(e.name), text);
  }

  lemma PaddedDecodes(decode: Decoder, e: Entry)
    requires DecodesAscii(decode) && Renderable(e)
    ensures TrimEnd(decode(Padded(e.name))) == e.name
  {
    PaddedReads(decode, e, e.name + seq(15 - |e.name|, _ => ' '));
    TrimDropsPadding(e.name, 15 - |e.name|);
  }

  lemma AsciiDecodes(decode: Decoder, b: Bytes, text: string)
    requires DecodesAscii(decode) && |text| == |b|
    requires forall i | 0 <= i < |b| :: b[i] < 128 && b[i] as char == text[i]
    ensures decode(b) == text
  {
  }

  lemma EntryReads(decode: Decoder, e: Entry)
    requires DecodesAscii(decode) && Renderable(e)
    ensures EntryOf(decode, RenderEntry(e)) == NameOf(e)
  {
    assert RenderEntry(e)[..15] == Padded(e.name);
    GroupIff(e.hi, e.lo, 15, 16);
    PaddedDecodes(decode, e);
  }

  lemma {:induction false} EntriesAppend(a: seq<Entry>, b: seq<Entry>)
    requires forall j | 0 <= j < |a + b| :: Renderable((a + b)[j])
    requires (forall j | 0 <= j < |a| :: Renderable(a[j])) && forall j | 0 <= j < |b| :: Renderable(b[j])
    ensures RenderEntries(a + b) == RenderEntries(a) + RenderEntries(b)
  {
    if a == [] {
      assert a + b == b;
    } else {
      assert (a + b)[0] == a[0] && (a + b)[1..] == a[1..] + b;
      EntriesAppend(a[1..], b);
    }
  }

  lemma EntriesFirst(e: Entry, b: seq<Entry>)
    requires Renderable(e) && forall j | 0 <= j < |b| :: Renderable(b[j])
    ensures forall j | 0 <= j < |[e] + b| :: Renderable(([e] + b)[j])
    ensures RenderEntries([e] + b) == RenderEntry(e) + RenderEntries(b)
  {
    assert ([e] + b)[0] == e && ([e] + b)[1..] == b;
  }

  lemma EntriesParts(a: seq<Entry>, e: Entry, b: seq<Entry>)
    requires Renderable(e) && forall j | 0 <= j < |b| :: Renderable(b[j])
    requires forall j | 0 <= j < |a| :: Renderable(a[j])
    requires forall j | 0 <= j < |a + ([e] + b)| :: Renderable((a + ([e] + b))[j])
    ensures RenderEntries(a + ([e] + b)) == RenderEntries(a) + RenderEntry(e) + RenderEntries(b)
  {
    EntriesFirst(e, b);
    EntriesAppend(a, [e] + b);
    Assoc(RenderEntries(a), RenderEntry(e), RenderEntries(b));
  }

  lemma EntriesSplit(es: seq<Entry>, i: nat)
    requires i < |es| && forall j | 0 <= j < |es| :: Renderable(es[j])
    ensures RenderEntries(es) == RenderEntries(es[..i]) + RenderEntry(es[i]) + RenderEntries(es[i + 1..])
  {
    AroundEntry(es, i);
    EntriesParts(es[..i], es[i], es[i + 1..]);
  }

  lemma AroundEntry(es: seq<Entry>, i: nat)
    requires i < |es|
    ensures es == es[..i] + ([es[i]] + es[i + 1..])
  {
  }

  /** The rendered name is skipped and the count and entries are found behind it. */
  lemma RenderedLayout(header: Bytes, encoded: Bytes, fixed: Bytes, es: seq<Entry>, tail: Bytes)
    requires |header| == 12 && |encoded| == 32 && |fixed| == 10 && |es| <= 255
    requires forall i | 0 <= i < |es| :: Renderable(es[i])
    ensures Layout(Render(header, encoded, fixed, es, tail)) == Some((57, |es|))
  {
    var data := Render(header, encoded, fixed, es, tail);
    assert data[12] == 0x20 && data[45] == 0 && data[56] == |es|;
    assert And(0x20, 0xc0) == 0;
    assert SkipName(data, 45) == Some(46);
    assert SkipName(data, 12) == SkipName(data, 45);
  }

  /** Round trip: parsing a rendered response gives its entries back, in order. */
  lemma RoundTrip(decode: Decoder, header: Bytes, encoded: Bytes, fixed: Bytes, es: seq<Entry>, tail: Bytes)
    requires |header| == 12 && |encoded| == 32 && |fixed| == 10 && |es| <= 255
    requires (forall i | 0 <= i < |es| :: Renderable(es[i])) && DecodesAscii(decode)
    ensures var data := Render(header, encoded, fixed, es, tail);
      && WellFormed(data) && Layout(data).value.1 == |es|
      && forall i | 0 <= i < |es| ::
           EntryAt(decode, data, Layout(data).value.0 + i * NAME_ENTRY_LEN) == NameOf(es[i])
  {
    RenderedLayout(header, encoded, fixed, es, tail);
    forall i | 0 <= i < |es|
      ensures EntryAt(decode, Render(header, encoded, fixed, es, tail), 57 + i * NAME_ENTRY_LEN) == NameOf(es[i])
    {
      EntryParsed(decode, Head(header, encoded, fixed, |es|), es, tail, i);
    }
  }

  lemma EntryParsed(decode: Decoder, head: Bytes, es: seq<Entry>, tail: Bytes, i: nat)
    requires |head| == 57 && i < |es| && (forall j | 0 <= j < |es| :: Renderable(es[j])) && DecodesAscii(decode)
    ensures 57 + (i + 1) * NAME_ENTRY_LEN <= |head + RenderEntries(es) + tail|
    ensures EntryAt(decode, head + RenderEntries(es) + tail, 57 + i * NAME_ENTRY_LEN) == NameOf(es[i])
  {
    EntryStands(head, es, tail, i);
    EntryReads(decode, es[i]);
  }

  lemma EntryStands(head: Bytes, es: seq<Entry>, tail: Bytes, i: nat)
    requires |head| == 57 && i < |es| && forall j | 0 <= j < |es| :: Renderable(es[j])
    ensures var off := 57 + i * NAME_ENTRY_LEN;
      off + NAME_ENTRY_LEN <= |head + RenderEntries(es) + tail|
      && (head + RenderEntries(es) + tail)[off..off + NAME_ENTRY_LEN] == RenderEntry(es[i])
  {
    EntriesSplit(es, i);
    var before, after := RenderEntries(es[..i]), RenderEntries(es[i + 1..]);
    var entry := RenderEntry(es[i]);
    Assoc(head, before + entry, after);
    Assoc(head, before, entry);
    Assoc(head + before + entry, after, tail);
    Middle(head + before, entry, after + tail);
  }

  lemma Middle(a: Bytes, b: Bytes, c: Bytes)
    ensures (a + b + c)[|a|..|a| + |b|] == b
  {
  }

  // ---- The request -------------------------------------------------------------------

  /** Half-ASCII: each octet as two letters `A` to `P`. */
  method EncodeNetbiosName(first: byte) returns (encoded: Bytes)
    ensures |encoded| == 32 && forall i | 0 <= i < 32 :: 0x41 <= encoded[i] <= 0x50
    ensures DecodeNibbles(encoded) == [first] + seq(15, _ => 0)
  {
    var raw: Bytes := [first] + seq(15, _ => 0);
    encoded := [];
    for i := 0 to 16
      invariant |encoded| == 2 * i && forall j | 0 <= j < 2 * i :: 0x41 <= encoded[j] <= 0x50
      invariant forall j | 0 <= j < i ::
        (encoded[2 * j] as int - 0x41) * 16 + (encoded[2 * j + 1] as int - 0x41) == raw[j] as int
    {
      encoded := encoded + [0x41 + raw[i] / 16, 0x41 + raw[i] % 16];
    }
  }

  /** The octets of a half-ASCII name. */
  ghost function DecodeNibbles(encoded: Bytes): seq<int> {
    seq(|encoded| / 2, i requires 0 <= i < |encoded| / 2 =>
      (encoded[2 * i] as int - 0x41) * 16 + (encoded[2 * i + 1] as int - 0x41))
  }

  // ---- Names on the wire -----------------------------------------------------------

  /** Labels, each behind its length. */
  function RenderLabels(labels: seq<Bytes>): Bytes
    requires forall i | 0 <= i < |labels| :: IsLabel(labels[i])
  {
    if labels == [] then [] else Labelled(labels[0]) + RenderLabels(labels[1..])
  }

  function Labelled(text: Bytes): (b: Bytes)
    requires IsLabel(text)
    ensures |b| == 1 + |text|
  {
    var length: byte := |text|;
    [length] + text
  }

  /** A length that is neither the end of a name nor a pointer. */
  predicate IsLabel(text: Bytes) {
    1 <= |text| < 192
  }

  /** A name ends in a zero byte, or in two bytes of which the first is at least 192. */
  predicate IsNameEnd(end: Bytes) {
    end == [0] || (|end| == 2 && end[0] >= 192)
  }

  lemma PointerIff(len: byte, k: nat, n: nat)
    requires k == 6 && n == 8
    ensures And(len, 0xc0) == 0xc0 <==> len >= 192
  {
    assert Pow2(k) == 64 && Pow2(n) == 256;
    AndHighMask(len, k, n);
    Split(len, k);
    ShlTimes(Shr(len, k), k);
  }

  lemma StepOverLabel(data: Bytes, at: nat, text: Bytes)
    requires IsLabel(text) && at < |data| && data[at] == |text|
    ensures SkipName(data, at) == SkipName(data, at + 1 + |text|)
  {
    PointerIff(data[at], 6, 8);
  }

  /** A name is skipped up to and including its end. */
  lemma {:induction false} NameIsSkipped(before: Bytes, labels: seq<Bytes>, end: Bytes, after: Bytes)
    requires (forall i | 0 <= i < |labels| :: IsLabel(labels[i])) && IsNameEnd(end)
    ensures SkipName(before + RenderLabels(labels) + end + after, |before|) ==
      Some(|before| + |RenderLabels(labels)| + |end|)
    decreases |labels|
  {
    var data := before + RenderLabels(labels) + end + after;
    if labels == [] {
      assert data[|before|] == end[0];
      PointerIff(end[0], 6, 8);
    } else {
      var first := Labelled(labels[0]);
      assert data == (before + first) + RenderLabels(labels[1..]) + end + after;
      assert data[|before|] == |labels[0]|;
      StepOverLabel(data, |before|, labels[0]);
      NameIsSkipped(before + first, labels[1..], end, after);
    }
  }

  /** A name without an end is not skipped. */
  lemma {:induction false} EndlessNameFails(before: Bytes, labels: seq<Bytes>)
    requires forall i | 0 <= i < |labels| :: IsLabel(labels[i])
    ensures SkipName(before + RenderLabels(labels), |before|) == None
    decreases |labels|
  {
    var data := before + RenderLabels(labels);
    if labels != [] {
      var first := Labelled(labels[0]);
      assert data == (before + first) + RenderLabels(labels[1..]);
      assert data[|before|] == |labels[0]|;
      StepOverLabel(data, |before|, labels[0]);
      EndlessNameFails(before + first, labels[1..]);
    }
  }

  /** Behind a header of 12 bytes and any name: ten bytes, the count, the entries. */
  lemma LayoutBehindName(header: Bytes, labels: seq<Bytes>, end: Bytes, fixed: Bytes, count: byte, rest: Bytes)
    requires |header| == 12 && (forall i | 0 <= i < |labels| :: IsLabel(labels[i])) && IsNameEnd(end) && |fixed| == 10
    ensures var name := RenderLabels(labels) + end;
      Layout(header + RenderLabels(labels) + end + (fixed + [count] + rest)) == Some((12 + |name| + 11, count))
  {
    var tail := fixed + [count] + rest;
    var data := header + RenderLabels(labels) + end + tail;
    NameIsSkipped(header, labels, end, tail);
    var off := 12 + |RenderLabels(labels)| + |end|;
    assert data[off + 10] == tail[10] == count;
  }

  /** Trimming cuts blanks and zero characters off the end and nothing else. */
  lemma {:induction false} TrimEndIs(s: string) returns (n: nat)
    ensures n <= |s| && TrimEnd(s) == s[..n]
    ensures forall i | n <= i < |s| :: s[i] as int == 32 || s[i] as int == 0
    ensures n > 0 ==> s[n - 1] as int != 32 && s[n - 1] as int != 0
  {
    if s != [] && (s[|s| - 1] == ' ' || s[|s| - 1] == '\0') {
      n := TrimEndIs(s[..|s| - 1]);
      assert s[..|s| - 1][..n] == s[..n];
      forall i | n <= i < |s| ensures s[i] as int == 32 || s[i] as int == 0 {
        if i < |s| - 1 { assert s[i] == s[..|s| - 1][i]; }
      }
    } else {
      n := |s|;
      assert s[..n] == s;
    }
  }
}
