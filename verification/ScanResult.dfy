/**
 * What a scan returns: the merged probes of each address
 * (crates/glpi-discovery/src/traits.rs) and the sorted host list
 * (crates/glpi-discovery/src/scanner.rs), for every interleaving of the probes.
 */
module ScanResult {
  import opened Common
  import opened Scanner

  datatype Probe = Probe(mac: Option<string>, hostname: Option<string>)

  datatype Host = Host(address: IpAddr, mac: Option<string>, hostname: Option<string>, foundBy: seq<string>)

  // ---- One address --------------------------------------------------------------------

  /** What one method made of an address: no response also stands for an error or a timeout. */
  datatype Tried = Tried(name: string, probe: Option<Probe>)

  function Responses(tried: seq<Tried>): seq<Tried> {
    if tried == [] then [] else IfResponded(tried[0]) + Responses(tried[1..])
  }

  function IfResponded(t: Tried): seq<Tried> {
    if t.probe.Some? then [t] else []
  }

  lemma {:induction false} ResponsesAppend(a: seq<Tried>, t: Tried)
    ensures Responses(a + [t]) == Responses(a) + IfResponded(t)
  {
    var all := a + [t];
    if a == [] {
      assert all[0] == t && all[1..] == [];
    } else {
      assert all[0] == a[0] && all[1..] == a[1..] + [t];
      ResponsesAppend(a[1..], t);
      assert IfResponded(a[0]) + (Responses(a[1..]) + IfResponded(t))
          == IfResponded(a[0]) + Responses(a[1..]) + IfResponded(t);
    }
  }

  /** The responses are the methods that answered, in order: all of them and no others. */
  lemma {:induction false} ResponsesAre(a: seq<Tried>, b: seq<Tried>, t: Tried)
    ensures Responses([t]) == if t.probe.Some? then [t] else []
    ensures Responses(a + b) == Responses(a) + Responses(b)
    decreases |a|
  {
    assert [t][1..] == [];
    if a == [] {
      assert a + b == b;
    } else {
      assert (a + b)[0] == a[0] && (a + b)[1..] == a[1..] + b;
      ResponsesAre(a[1..], b, t);
    }
  }

  /** The value of the first response that has one. */
  ghost predicate FirstOf(responses: seq<Tried>, get: Probe -> Option<string>, value: Option<string>)
    requires forall r | r in responses :: r.probe.Some?
  {
    if value.None? then forall r | r in responses :: get(r.probe.value).None?
    else exists i | 0 <= i < |responses| ::
      get(responses[i].probe.value) == value && forall j | 0 <= j < i :: get(responses[j].probe.value).None?
  }

  function Names(responses: seq<Tried>): seq<string> {
    seq(|responses|, i requires 0 <= i < |responses| => responses[i].name)
  }

  lemma {:induction false} ResponsesRespond(tried: seq<Tried>)
    ensures forall r | r in Responses(tried) :: r.probe.Some?
  {
    if tried != [] { ResponsesRespond(tried[1..]); }
  }

  /** A host record that probes are folded into. */
  class HostRecord {
    const address: IpAddr
    var mac: Option<string>
    var hostname: Option<string>
    var foundBy: seq<string>

    constructor (address: IpAddr)
      ensures this.address == address && mac == None && hostname == None && foundBy == []
    {
      this.address := address;
      mac, hostname, foundBy := None, None, [];
    }

    /** `merge`: the first value of each attribute is kept. */
    method Merge(name: string, probe: Probe)
      modifies this
      ensures foundBy == old(foundBy) + [name]
      ensures mac == (if old(mac).None? then probe.mac else old(mac))
      ensures hostname == (if old(hostname).None? then probe.hostname else old(hostname))
    {
      foundBy := foundBy + [name];
      if mac.None? {
        mac := probe.mac;
      }
      if hostname.None? {
        hostname := probe.hostname;
      }
    }

    function Value(): Host
      reads this
    {
      Host(address, mac, hostname, foundBy)
    }
  }

  /** `probe_address`: the methods in order; the host is reported if one of them responded. */
  method ProbeAddress(target: IpAddr, tried: seq<Tried>) returns (found: Option<Host>)
    ensures found.Some? <==> Responses(tried) != []
    ensures forall r | r in Responses(tried) :: r.probe.Some?
    ensures found.Some? ==>
      && found.value.address == target && found.value.foundBy == Names(Responses(tried))
      && FirstOf(Responses(tried), (p: Probe) => p.mac, found.value.mac)
      && FirstOf(Responses(tried), (p: Probe) => p.hostname, found.value.hostname)
  {
    var host := new HostRecord(target);
    ResponsesRespond(tried);
    for i := 0 to |tried|
      invariant host.address == target
      invariant forall r | r in Responses(tried[..i]) :: r.probe.Some?
      invariant host.foundBy == Names(Responses(tried[..i]))
      invariant FirstOf(Responses(tried[..i]), (p: Probe) => p.mac, host.mac)
      invariant FirstOf(Responses(tried[..i]), (p: Probe) => p.hostname, host.hostname)
    {
      ghost var before := Responses(tried[..i]);
      ghost var mac, hostname := host.mac, host.hostname;
      assert tried[..i + 1] == tried[..i] + [tried[i]];
      ResponsesAppend(tried[..i], tried[i]);
      if tried[i].probe.Some? {
        host.Merge(tried[i].name, tried[i].probe.value);
        FirstOfGrows(before, tried[i], (p: Probe) => p.mac, mac);
        FirstOfGrows(before, tried[i], (p: Probe) => p.hostname, hostname);
      } else {
        assert before + [] == before;
      }
    }
    assert tried[..|tried|] == tried;
    found := if host.foundBy != [] then Some(host.Value()) else None;
  }

  lemma FirstOfGrows(responses: seq<Tried>, r: Tried, get: Probe -> Option<string>, value: Option<string>)
    requires r.probe.Some? && forall x | x in responses :: x.probe.Some?
    requires FirstOf(responses, get, value)
    ensures forall x | x in responses + [r] :: x.probe.Some?
    ensures FirstOf(responses + [r], get, if value.None? then get(r.probe.value) else value)
  {
    var all := responses + [r];
    if value.Some? {
      var i :| 0 <= i < |responses| && get(responses[i].probe.value) == value
        && forall j | 0 <= j < i :: get(responses[j].probe.value).None?;
      assert all[i] == responses[i] && forall j | 0 <= j < i :: all[j] == responses[j];
    } else if get(r.probe.value).Some? {
      assert all[|responses|] == r;
      assert forall j | 0 <= j < |responses| :: all[j] == responses[j] && responses[j] in responses;
    }
  }

  // ---- The sorted list ----------------------------------------------------------------

  /** The sort key: family first, then the address as a number. */
  function Key(a: IpAddr): (int, int) {
    match a case V4(n) => (0, n) case V6(n) => (1, n)
  }

  predicate KeyLess(a: IpAddr, b: IpAddr) {
    Key(a).0 < Key(b).0 || (Key(a).0 == Key(b).0 && Key(a).1 < Key(b).1)
  }

  ghost predicate Sorted(hosts: seq<Host>) {
    forall i, j | 0 <= i < j < |hosts| :: !KeyLess(hosts[j].address, hosts[i].address)
  }

  function Insert(h: Host, hosts: seq<Host>): seq<Host> {
    if hosts == [] || KeyLess(h.address, hosts[0].address) then [h] + hosts
    else [hosts[0]] + Insert(h, hosts[1..])
  }

  /** A stable sort by address. */
  function SortByAddress(hosts: seq<Host>): seq<Host> {
    if hosts == [] then []
    else Insert(hosts[|hosts| - 1], SortByAddress(hosts[..|hosts| - 1]))
  }

  lemma {:induction false} InsertKeeps(h: Host, hosts: seq<Host>)
    ensures multiset(Insert(h, hosts)) == multiset(hosts) + multiset{h}
  {
    if hosts != [] && !KeyLess(h.address, hosts[0].address) {
      InsertKeeps(h, hosts[1..]);
      assert hosts == [hosts[0]] + hosts[1..];
    }
  }

  lemma {:induction false} InsertSorts(h: Host, hosts: seq<Host>)
    requires Sorted(hosts)
    ensures Sorted(Insert(h, hosts))
  {
    if hosts != [] && !KeyLess(h.address, hosts[0].address) {
      InsertSorts(h, hosts[1..]);
      InsertKeeps(h, hosts[1..]);
      forall x | x in Insert(h, hosts[1..]) ensures !KeyLess(x.address, hosts[0].address) {
        assert x in multiset(Insert(h, hosts[1..]));
      }
    }
  }

  lemma {:induction false} SortSorts(hosts: seq<Host>)
    ensures Sorted(SortByAddress(hosts)) && multiset(SortByAddress(hosts)) == multiset(hosts)
  {
    if hosts != [] {
      var before, last := hosts[..|hosts| - 1], hosts[|hosts| - 1];
      SortSorts(before);
      InsertSorts(last, SortByAddress(before));
      InsertKeeps(last, SortByAddress(before));
      assert hosts == before + [last];
    }
  }

  /** Hosts of the same address are the same: each probe is deterministic. */
  ghost predicate Functional(hosts: seq<Host>) {
    forall g, h | g in hosts && h in hosts && g.address == h.address :: g == h
  }

  lemma SameElements<T>(a: seq<T>, b: seq<T>, x: T)
    requires multiset(a) == multiset(b) && x in a
    ensures x in b && |a| == |b|
  {
    assert x in multiset(b);
    assert |a| == |multiset(a)| == |b|;
  }

  lemma HeadsAgree(a: seq<Host>, b: seq<Host>)
    requires Sorted(a) && Sorted(b) && multiset(a) == multiset(b) && Functional(a) && a != []
    ensures b != [] && a[0] == b[0] && multiset(a[1..]) == multiset(b[1..])
  {
    SameElements(a, b, a[0]);
    SameElements(b, a, b[0]);
    HeadIsLeast(a, b[0]);
    HeadIsLeast(b, a[0]);
    assert a[0].address == b[0].address;
    assert multiset(a[1..]) == multiset(a) - multiset{a[0]} by { assert a == [a[0]] + a[1..]; }
    assert multiset(b[1..]) == multiset(b) - multiset{b[0]} by { assert b == [b[0]] + b[1..]; }
  }

  /** Then sorting leaves only one possible order. */
  lemma {:induction false} SortedIsUnique(a: seq<Host>, b: seq<Host>)
    requires Sorted(a) && Sorted(b) && multiset(a) == multiset(b) && Functional(a)
    ensures a == b
  {
    if a == [] {
      assert |b| == |multiset(b)| == |a|;
    } else {
      HeadsAgree(a, b);
      SortedIsUnique(a[1..], b[1..]);
      assert a == [a[0]] + a[1..] && b == [b[0]] + b[1..];
    }
  }

  lemma HeadIsLeast(hosts: seq<Host>, x: Host)
    requires Sorted(hosts) && x in hosts
    ensures !KeyLess(x.address, hosts[0].address)
  {
  }

  // ---- All interleavings give the same list --------------------------------------------

  type Answer = Option<Host>

  /** The hosts among the joined outcomes, in join order. */
  function Hosts(joined: seq<(nat, Outcome<Answer>)>): seq<Host> {
    if joined == [] then [] else HostIn(joined[0].1) + Hosts(joined[1..])
  }

  function HostIn(outcome: Outcome<Answer>): seq<Host> {
    match outcome case Finished(Some(h)) => [h] case _ => []
  }

  lemma {:induction false} HostsAppend(a: seq<(nat, Outcome<Answer>)>, o: (nat, Outcome<Answer>))
    ensures Hosts(a + [o]) == Hosts(a) + HostIn(o.1)
  {
    var all := a + [o];
    if a == [] {
      assert all[0] == o && all[1..] == [];
    } else {
      assert all[0] == a[0] && all[1..] == a[1..] + [o];
      HostsAppend(a[1..], o);
      assert HostIn(a[0].1) + (Hosts(a[1..]) + HostIn(o.1)) == HostIn(a[0].1) + Hosts(a[1..]) + HostIn(o.1);
    }
  }

  /** Progress from one up to `completed`, out of `total`. */
  function Reports(completed: nat, total: nat): seq<(nat, nat)> {
    seq(completed, k => (k + 1, total))
  }

  lemma NextReport(completed: nat, total: nat)
    ensures Reports(completed + 1, total) == Reports(completed, total) + [(completed + 1, total)]
  {
  }

  /** The join loop: one progress report per joined task, the hosts sorted at the end. */
  method CollectJoined(joined: seq<(nat, Outcome<Answer>)>, total: nat)
    returns (hosts: seq<Host>, progress: seq<(nat, nat)>)
    ensures hosts == SortByAddress(Hosts(joined))
    ensures progress == Reports(|joined|, total)
  {
    hosts, progress := [], [];
    var completed := 0;
    while completed < |joined|
      invariant 0 <= completed <= |joined|
      invariant hosts == Hosts(joined[..completed])
      invariant progress == Reports(completed, total)
    {
      var outcome := joined[completed];
      assert joined[..completed + 1] == joined[..completed] + [outcome];
      HostsAppend(joined[..completed], outcome);
      NextReport(completed, total);
      completed := completed + 1;
      progress := progress + [(completed, total)];
      match outcome.1 {
        case Finished(Some(host)) => hosts := hosts + [host];
        case Finished(None) =>
        case Panicked =>
      }
    }
    assert joined[..|joined|] == joined;
    hosts := SortByAddress(hosts);
  }

  /** The hosts found at the listed targets. */
  function HostsAt(c: Config<IpAddr>, probe: IpAddr -> Answer, ids: seq<nat>): seq<Host>
  {
    if ids == [] then []
    else
      (if ids[0] < |c.targets| && probe(c.targets[ids[0]]).Some? then [probe(c.targets[ids[0]]).value] else [])
      + HostsAt(c, probe, ids[1..])
  }

  /** Each probe answers by its address alone, for that address, and none panics. */
  ghost predicate Deterministic(c: Config<IpAddr>, probe: IpAddr -> Answer, steps: seq<Step<Answer>>) {
    && (forall a :: probe(a).Some? ==> probe(a).value.address == a)
    && (forall n | 0 <= n < |steps| && steps[n].End? ::
          steps[n].task < |c.targets| && steps[n].outcome == Finished(probe(c.targets[steps[n].task])))
  }

  /** A task that has ended carries what the probe of its target made of it. */
  ghost predicate OutcomesAreProbed(c: Config<IpAddr>, probe: IpAddr -> Answer, s: State<Answer>) {
    && |s.tasks| == |c.targets|
    && forall i | 0 <= i < |s.tasks| && (s.tasks[i].Ended? || s.tasks[i].Joined?) ::
         s.tasks[i].outcome == Finished(probe(c.targets[i]))
  }

  /** In every interleaving a join hands over what the probe of that very target produced. */
  lemma {:induction false} OutcomesStayProbed(
    c: Config<IpAddr>, probe: IpAddr -> Answer, s: State<Answer>, steps: seq<Step<Answer>>, s': State<Answer>)
    requires OutcomesAreProbed(c, probe, s) && Reaches(s, steps, s') && Deterministic(c, probe, steps)
    ensures OutcomesAreProbed(c, probe, s')
    decreases |steps|
  {
    if steps != [] {
      assert steps[0].End? ==> steps[0].outcome == Finished(probe(c.targets[steps[0].task]));
      OutcomesStayProbed(c, probe, Apply(s, steps[0]), steps[1..], s');
    }
  }

  lemma {:induction false} HostsByIndex(
    c: Config<IpAddr>, probe: IpAddr -> Answer, joined: seq<(nat, Outcome<Answer>)>)
    requires forall k | 0 <= k < |joined| ::
      joined[k].0 < |c.targets| && joined[k].1 == Finished(probe(c.targets[joined[k].0]))
    ensures Hosts(joined) == HostsAt(c, probe, Indices(joined))
  {
    if joined != [] {
      HostsByIndex(c, probe, joined[1..]);
      assert Indices(joined)[1..] == Indices(joined[1..]);
    }
  }

  lemma {:induction false} HostsAtAppend(c: Config<IpAddr>, probe: IpAddr -> Answer, a: seq<nat>, b: seq<nat>)
    ensures HostsAt(c, probe, a + b) == HostsAt(c, probe, a) + HostsAt(c, probe, b)
  {
    if a == [] {
      assert a + b == b;
    } else {
      assert (a + b)[1..] == a[1..] + b;
      HostsAtAppend(c, probe, a[1..], b);
    }
  }

  /** Moving one index to the front keeps the hosts. */
  lemma HostsAtWithout(c: Config<IpAddr>, probe: IpAddr -> Answer, b: seq<nat>, k: nat)
    requires k < |b|
    ensures multiset(HostsAt(c, probe, b)) ==
      multiset(HostsAt(c, probe, [b[k]])) + multiset(HostsAt(c, probe, b[..k] + b[k + 1..]))
  {
    assert b == b[..k] + ([b[k]] + b[k + 1..]);
    HostsAtAppend(c, probe, b[..k], [b[k]] + b[k + 1..]);
    HostsAtAppend(c, probe, [b[k]], b[k + 1..]);
    HostsAtAppend(c, probe, b[..k], b[k + 1..]);
  }

  lemma MultisetWithout(b: seq<nat>, k: nat)
    requires k < |b|
    ensures multiset(b[..k] + b[k + 1..]) == multiset(b) - multiset{b[k]}
  {
    assert b == b[..k] + [b[k]] + b[k + 1..];
  }

  /** The first index of `a` can be taken out of `b` as well. */
  lemma DropFirst(a: seq<nat>, b: seq<nat>) returns (k: nat)
    requires multiset(a) == multiset(b) && a != []
    ensures k < |b| && b[k] == a[0] && multiset(a[1..]) == multiset(b[..k] + b[k + 1..])
  {
    SameElements(a, b, a[0]);
    k :| 0 <= k < |b| && b[k] == a[0];
    MultisetWithout(b, k);
    assert a == [a[0]] + a[1..];
    assert multiset(a[1..]) == multiset(a) - multiset{a[0]};
  }

  lemma {:induction false} SameIndicesSameHosts(c: Config<IpAddr>, probe: IpAddr -> Answer, a: seq<nat>, b: seq<nat>)
    requires multiset(a) == multiset(b)
    ensures multiset(HostsAt(c, probe, a)) == multiset(HostsAt(c, probe, b))
  {
    if a == [] {
      assert |b| == |multiset(b)| == |a|;
    } else {
      var k := DropFirst(a, b);
      HostsAtWithout(c, probe, a, 0);
      HostsAtWithout(c, probe, b, k);
      assert a[..0] + a[1..] == a[1..];
      SameIndicesSameHosts(c, probe, a[1..], b[..k] + b[k + 1..]);
    }
  }

  lemma {:induction false} HostsAtFunctional(c: Config<IpAddr>, probe: IpAddr -> Answer, ids: seq<nat>)
    requires forall a :: probe(a).Some? ==> probe(a).value.address == a
    ensures forall h | h in HostsAt(c, probe, ids) :: probe(h.address) == Some(h)
  {
    if ids != [] { HostsAtFunctional(c, probe, ids[1..]); }
  }

  /**
   * Whatever the schedule, a complete scan with deterministic probes returns the
   * responding hosts of the targets, sorted: the same list every time.
   */
  lemma ScheduleDoesNotMatter(
    c: Config<IpAddr>, probe: IpAddr -> Answer, steps: seq<Step<Answer>>, s: State<Answer>)
    requires Reaches(Start<IpAddr, Answer>(c), steps, s) && Complete(s) && Deterministic(c, probe, steps)
    ensures var all := seq(|c.targets|, i => i);
      && SortByAddress(Hosts(s.joined)) == SortByAddress(HostsAt(c, probe, all))
      && |s.joined| == |c.targets|
  {
    var ids, all := Indices(s.joined), seq(|c.targets|, i => i);
    StartInv<IpAddr, Answer>(c);
    ReachableInv(c, Start<IpAddr, Answer>(c), steps, s);
    OutcomesStayProbed(c, probe, Start<IpAddr, Answer>(c), steps, s);
    JoinOrderIsPermutation(c, s);
    HostsByIndex(c, probe, s.joined);
    AllAreJoined(c, s);
    SameIndicesSameHosts(c, probe, ids, all);
    HostsAtFunctional(c, probe, ids);
    var a, b := HostsAt(c, probe, ids), HostsAt(c, probe, all);
    SortSorts(a);
    SortSorts(b);
    forall h | h in SortByAddress(a) ensures h in a { assert h in multiset(SortByAddress(a)); }
    SortedIsUnique(SortByAddress(a), SortByAddress(b));
  }

  /**
   * A scan that has joined all its tasks, whatever the schedule: progress was reported
   * from one up to the number of targets, and with deterministic probes the result is
   * the responding hosts of the targets, sorted.
   */
  method Scan(
    c: Config<IpAddr>, ghost probe: IpAddr -> Answer, ghost steps: seq<Step<Answer>>, s: State<Answer>)
    returns (hosts: seq<Host>, progress: seq<(nat, nat)>)
    requires Reaches(Start<IpAddr, Answer>(c), steps, s) && Complete(s)
    ensures progress == Reports(|c.targets|, |c.targets|)
    ensures Deterministic(c, probe, steps) ==>
      && hosts == SortByAddress(HostsAt(c, probe, seq(|c.targets|, i => i)))
      && forall h :: h in hosts <==> exists i | 0 <= i < |c.targets| :: probe(c.targets[i]) == Some(h)
    ensures forall i, j | 0 <= i < j < |hosts| :: NotAfter(hosts[i].address, hosts[j].address)
  {
    StartInv<IpAddr, Answer>(c);
    ReachableInv(c, Start<IpAddr, Answer>(c), steps, s);
    AllAreJoined(c, s);
    hosts, progress := CollectJoined(s.joined, |c.targets|);
    SortSorts(Hosts(s.joined));
    SortedMeans(hosts);
    if Deterministic(c, probe, steps) {
      ScheduleDoesNotMatter(c, probe, steps, s);
      forall h ensures h in hosts <==> exists i | 0 <= i < |c.targets| :: probe(c.targets[i]) == Some(h) {
        SortedHostsAre(c, probe, h);
      }
    }
  }

  /** All IPv4 addresses come before all IPv6 addresses; within a family the numbers rise. */
  predicate NotAfter(a: IpAddr, b: IpAddr) {
    match (a, b)
    case (V4(m), V4(n)) => m <= n
    case (V6(m), V6(n)) => m <= n
    case (V4(_), V6(_)) => true
    case (V6(_), V4(_)) => false
  }

  lemma SortedMeans(hosts: seq<Host>)
    requires Sorted(hosts)
    ensures forall i, j | 0 <= i < j < |hosts| :: NotAfter(hosts[i].address, hosts[j].address)
  {
  }

  /** The hosts at some targets are what the probes of these targets found. */
  lemma {:induction false} HostsAtAre(c: Config<IpAddr>, probe: IpAddr -> Answer, ids: seq<nat>, h: Host)
    ensures h in HostsAt(c, probe, ids) <==>
      exists i | 0 <= i < |ids| :: ids[i] < |c.targets| && probe(c.targets[ids[i]]) == Some(h)
  {
    if ids != [] {
      HostsAtAre(c, probe, ids[1..], h);
      if j :| 0 <= j < |ids[1..]| && ids[1..][j] < |c.targets| && probe(c.targets[ids[1..][j]]) == Some(h) {
        assert ids[j + 1] == ids[1..][j];
      }
      forall j | 0 < j < |ids| ensures ids[j] == ids[1..][j - 1] {}
    }
  }

  lemma SortedHostsAre(c: Config<IpAddr>, probe: IpAddr -> Answer, h: Host)
    ensures h in SortByAddress(HostsAt(c, probe, seq(|c.targets|, i => i))) <==>
      exists i | 0 <= i < |c.targets| :: probe(c.targets[i]) == Some(h)
  {
    var ids := seq(|c.targets|, i => i);
    var found := HostsAt(c, probe, ids);
    HostsAtAre(c, probe, ids, h);
    SortSorts(found);
    assert h in SortByAddress(found) <==> h in multiset(SortByAddress(found));
    assert h in found <==> h in multiset(found);
    if i :| 0 <= i < |c.targets| && probe(c.targets[i]) == Some(h) { assert ids[i] == i; }
  }

  lemma AllAreJoined(c: Config<IpAddr>, s: State<Answer>)
    requires Inv(c, s) && Complete(s)
    ensures |s.joined| == |c.targets|
  {
    var ids, all := Indices(s.joined), seq(|c.targets|, i => i);
    JoinOrderIsPermutation(c, s);
    assert |ids| == |multiset(ids)| == |multiset(all)| == |all|;
  }
}
