/**
 * Classifying a device by its sysObjectID
 * (crates/glpi-discovery/src/snmp/sysobject.rs): the shrinking-prefix lookup is a
 * longest-prefix match on dotted arcs.
 */
module SysObject {
  import opened Common
  import opened Numerals

  /** The text before and after one dot. */
  datatype Cut = NoDot | Cut(head: string, tail: string)

  /** `split_once('.')`. */
  function SplitOnce(s: string): (c: Cut)
    ensures c.Cut? ==> '.' !in c.head && s == c.head + "." + c.tail
    ensures c.NoDot? ==> '.' !in s
  {
    if s == [] then NoDot
    else if s[0] == '.' then Cut([], s[1..])
    else match SplitOnce(s[1..]) case NoDot => NoDot case Cut(head, tail) => Cut([s[0]] + head, tail)
  }

  /** `rsplit_once('.')`. */
  function RSplitOnce(s: string): (c: Cut)
    ensures c.Cut? ==> '.' !in c.tail && s == c.head + "." + c.tail
    ensures c.NoDot? ==> '.' !in s
  {
    if s == [] then NoDot
    else
      var last := |s| - 1;
      if s[last] == '.' then Cut(s[..last], [])
      else match RSplitOnce(s[..last]) case NoDot => NoDot case Cut(head, tail) => Cut(head, tail + [s[last]])
  }

  /** `split('.')`. */
  function Split(s: string): (arcs: seq<string>)
    ensures arcs != []
    decreases |s|
  {
    match SplitOnce(s) case NoDot => [s] case Cut(head, tail) => [head] + Split(tail)
  }

  function Join(arcs: seq<string>): string {
    if arcs == [] then [] else if |arcs| == 1 then arcs[0] else arcs[0] + "." + Join(arcs[1..])
  }

  predicate IsNumericArc(s: string) {
    s != [] && forall i | 0 <= i < |s| :: '0' <= s[i] <= '9'
  }

  predicate IsNumericOid(s: string) {
    s != [] && forall i | 0 <= i < |Split(s)| :: IsNumericArc(Split(s)[i])
  }

  const ENTERPRISE_PREFIXES: seq<string> :=
    ["SNMPv2-SMI::enterprises.", "iso.3.6.1.4.1.", ".1.3.6.1.4.1.", "1.3.6.1.4.1."]

  /** The identifier after the first recognised prefix. */
  function EnterpriseRelative(oid: string, from: nat := 0): Option<string>
    requires from <= |ENTERPRISE_PREFIXES|
    decreases |ENTERPRISE_PREFIXES| - from
  {
    if from == |ENTERPRISE_PREFIXES| then None
    else if ENTERPRISE_PREFIXES[from] <= oid then Some(oid[|ENTERPRISE_PREFIXES[from]|..])
    else EnterpriseRelative(oid, from + 1)
  }

  type Database<E> = map<string, E>

  /** No prefix of more than `m` arcs is a key. */
  ghost predicate NoKeyBeyond<E>(db: Database<E>, arcs: seq<string>, m: nat) {
    forall k | m < k <= |arcs| :: Join(arcs[..k]) !in db
  }

  ghost predicate LongestKeyAt<E>(db: Database<E>, arcs: seq<string>, k: nat, e: E) {
    k <= |arcs| && Join(arcs[..k]) in db && db[Join(arcs[..k])] == e && NoKeyBeyond(db, arcs, k)
  }

  /** The entry of the longest prefix of at least `least` arcs that is a key, if one is. */
  ghost predicate IsLongestMatch<E>(db: Database<E>, arcs: seq<string>, least: nat, r: Option<E>)
    requires least > 0
  {
    match r
    case None => NoKeyBeyond(db, arcs, least - 1)
    case Some(e) => exists k :: k >= least && LongestKeyAt(db, arcs, k, e)
  }

  /** The result for the identifier after the enterprise prefix. */
  ghost predicate IsClassified<E>(db: Database<E>, relative: string, r: Option<E>) {
    var arcs := Split(relative);
    if !IsNumericArc(arcs[0]) then r == None
    else if forall i | 0 <= i < |arcs| :: IsNumericArc(arcs[i]) then IsLongestMatch(db, arcs, 1, r)
    else r == if arcs[0] in db then Some(db[arcs[0]]) else None
  }

  /** The full key, then shorter and shorter prefixes, down to two arcs. */
  method LongestDevice<E>(db: Database<E>, manufacturer: string, device: string) returns (r: Option<E>)
    ensures IsLongestMatch(db, [manufacturer] + Split(device), 2, r)
  {
    ghost var arcs := Split(device);
    ghost var m := |arcs|;
    SplitIsJoined(device);
    assert arcs[..m] == arcs;
    TryKey(db, manufacturer, arcs, m);
    if manufacturer + "." + device in db {
      return Some(db[manufacturer + "." + device]);
    }
    var partial := device;
    var cut := RSplitOnce(partial);
    while cut.Cut?
      invariant 1 <= m <= |arcs| && cut == RSplitOnce(Join(arcs[..m]))
      invariant NoKeyBeyond(db, [manufacturer] + arcs, m)
      decreases m
    {
      LastArc(device, m);
      m := m - 1;
      TryKey(db, manufacturer, arcs, m);
      if manufacturer + "." + cut.head in db {
        return Some(db[manufacturer + "." + cut.head]);
      }
      partial := cut.head;
      cut := RSplitOnce(partial);
    }
    LastArc(device, m);
    return None;
  }

  /** `lookup`. */
  method Lookup<E>(db: Database<E>, sysobjectid: string) returns (r: Option<E>)
    ensures match EnterpriseRelative(sysobjectid)
      case None => r == None
      case Some(relative) => IsClassified(db, relative, r)
  {
    var stripped := EnterpriseRelative(sysobjectid);
    if stripped.None? {
      return None;
    }
    var relative := stripped.value;
    var cut := SplitOnce(relative);
    var manufacturer := if cut.Cut? then cut.head else relative;
    if manufacturer == [] || !IsNumericArc(manufacturer) {
      return None;
    }
    ghost var arcs := Split(relative);
    assert arcs[..1] == [manufacturer] && Join(arcs[..1]) == manufacturer;
    if cut.Cut? && IsNumericOid(cut.tail) {
      assert arcs == [manufacturer] + Split(cut.tail);
      var found := LongestDevice(db, manufacturer, cut.tail);
      if found.Some? {
        return found;
      }
    } else if cut.Cut? {
      NotAllNumeric(cut.head, cut.tail);
    }
    r := if manufacturer in db then Some(db[manufacturer]) else None;
    assert r.Some? && NoKeyBeyond(db, arcs, 1) ==> LongestKeyAt(db, arcs, 1, r.value);
  }

  // ---- Splitting and joining ----------------------------------------------------------

  lemma {:induction false} SplitIsJoined(s: string)
    ensures Join(Split(s)) == s && forall i | 0 <= i < |Split(s)| :: '.' !in Split(s)[i]
    decreases |s|
  {
    match SplitOnce(s)
    case NoDot =>
    case Cut(head, tail) =>
      SplitIsJoined(tail);
      assert Split(s)[1..] == Split(tail);
  }

  lemma {:induction false} JoinLast(arcs: seq<string>, last: string)
    requires arcs != []
    ensures Join(arcs + [last]) == Join(arcs) + "." + last
  {
    assert (arcs + [last])[1..] == arcs[1..] + [last];
    if |arcs| == 1 {
      assert arcs[1..] + [last] == [last];
    } else {
      JoinLast(arcs[1..], last);
    }
  }

  lemma {:induction false} RSplitOfDotFree(head: string, tail: string)
    requires '.' !in tail
    ensures RSplitOnce(head + "." + tail) == Cut(head, tail)
    decreases |tail|
  {
    var s := head + "." + tail;
    if tail == [] {
      assert s[..|s| - 1] == head;
    } else {
      var rest := tail[..|tail| - 1];
      assert s[..|s| - 1] == head + "." + rest && s[|s| - 1] == tail[|tail| - 1];
      RSplitOfDotFree(head, rest);
      assert tail == rest + [tail[|tail| - 1]];
    }
  }

  /** Cutting at the last dot drops the last arc; with one arc there is no dot. */
  lemma LastArc(device: string, m: nat)
    requires 1 <= m <= |Split(device)|
    ensures var arcs := Split(device);
      RSplitOnce(Join(arcs[..m])) == if m == 1 then NoDot else Cut(Join(arcs[..m - 1]), arcs[m - 1])
  {
    var arcs := Split(device);
    SplitIsJoined(device);
    if m == 1 {
      assert Join(arcs[..1]) == arcs[0];
    } else {
      assert arcs[..m] == arcs[..m - 1] + [arcs[m - 1]];
      JoinLast(arcs[..m - 1], arcs[m - 1]);
      RSplitOfDotFree(Join(arcs[..m - 1]), arcs[m - 1]);
    }
  }

  /** The key tried for a device prefix is the joined arc prefix. */
  lemma KeyOf(manufacturer: string, arcs: seq<string>, m: nat)
    requires 1 <= m <= |arcs|
    ensures Join(([manufacturer] + arcs)[..m + 1]) == manufacturer + "." + Join(arcs[..m])
  {
    assert ([manufacturer] + arcs)[..m + 1] == [manufacturer] + arcs[..m];
    assert ([manufacturer] + arcs[..m])[1..] == arcs[..m];
  }

  /** One lookup: the key of `m` device arcs is the longest match, or it can be ruled out. */
  lemma TryKey<E>(db: Database<E>, manufacturer: string, arcs: seq<string>, m: nat)
    requires 1 <= m <= |arcs| && NoKeyBeyond(db, [manufacturer] + arcs, m + 1)
    ensures var key, all := manufacturer + "." + Join(arcs[..m]), [manufacturer] + arcs;
      if key in db then LongestKeyAt(db, all, m + 1, db[key]) && IsLongestMatch(db, all, 2, Some(db[key]))
      else NoKeyBeyond(db, all, m)
  {
    KeyOf(manufacturer, arcs, m);
  }

  /** A device part that is not a dotted sequence of numbers has an arc that is none. */
  lemma NotAllNumeric(head: string, tail: string)
    requires !IsNumericOid(tail)
    ensures exists i | 1 <= i < |[head] + Split(tail)| :: !IsNumericArc(([head] + Split(tail))[i])
  {
    if tail == [] {
      assert ([head] + Split(tail))[1] == [];
    } else {
      var i :| 0 <= i < |Split(tail)| && !IsNumericArc(Split(tail)[i]);
      assert ([head] + Split(tail))[i + 1] == Split(tail)[i];
    }
  }

  // ---- Prefixes and arcs --------------------------------------------------------------

  /** What follows the enterprises arc, in any of its four spellings; nothing for any other identifier. */
  lemma EnterpriseIff(oid: string, relative: string)
    ensures EnterpriseRelative(oid) == Some(relative) <==>
      || oid == "1.3.6.1.4.1." + relative
      || oid == ".1.3.6.1.4.1." + relative
      || oid == "iso.3.6.1.4.1." + relative
      || oid == "SNMPv2-SMI::enterprises." + relative
  {
    assert ENTERPRISE_PREFIXES[0][0] == 'S' && ENTERPRISE_PREFIXES[1][0] == 'i';
    assert ENTERPRISE_PREFIXES[2][0] == '.' && ENTERPRISE_PREFIXES[3][0] == '1';
    forall k | 0 <= k < 4
      ensures ENTERPRISE_PREFIXES[k] <= oid && oid[|ENTERPRISE_PREFIXES[k]|..] == relative <==>
              oid == ENTERPRISE_PREFIXES[k] + relative
    {
    }
    assert EnterpriseRelative(oid, 4) == None;
  }

  /** A numeric arc is the decimal text of a number, perhaps behind some zeros. */
  lemma NumericArcIff(s: string)
    ensures IsNumericArc(s) <==> exists zeros: nat, n: nat :: s == Zeros(zeros) + Decimal(n)
  {
    if IsNumericArc(s) {
      AllDigitsRead(s, 0);
      var zeros := DigitsAreDecimal(s, Digits(s, 0).value);
    }
    if zeros: nat, n: nat :| s == Zeros(zeros) + Decimal(n) {
      DecimalReads(zeros, n);
      ReadIsAllDigits(s, 0);
    }
  }

  lemma {:induction false} AllDigitsRead(s: string, value: nat)
    requires forall i | 0 <= i < |s| :: '0' <= s[i] <= '9'
    ensures Digits(s, value).Some?
    decreases |s|
  {
    if s != [] { AllDigitsRead(s[1..], 10 * value + (s[0] as nat - '0' as nat)); }
  }

  lemma {:induction false} ReadIsAllDigits(s: string, value: nat)
    requires Digits(s, value).Some?
    ensures forall i | 0 <= i < |s| :: '0' <= s[i] <= '9'
    decreases |s|
  {
    if s != [] {
      ReadIsAllDigits(s[1..], 10 * value + (s[0] as nat - '0' as nat));
      forall i | 0 < i < |s| ensures '0' <= s[i] <= '9' { assert s[i] == s[1..][i - 1]; }
    }
  }
}
