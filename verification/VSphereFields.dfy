/**
 * What the fields of hosts and machines stand for (crates/glpi-vsphere/src/parse.rs),
 * in terms of the properties a server prints for them.
 */
module VSphereFields {
  import opened Common
  import opened Numerals
  import opened VSphere
  import opened VSphereHosts

  /** The object has a property of this name with this text. */
  ghost predicate Has(o: Managed, property: string, text: string) {
    Scalar(property, text) in o.props
  }

  /** The value is the text of that property, or nothing without the property. */
  ghost predicate Holds(o: Managed, property: string, value: Option<string>) {
    match value
    case Some(text) => Has(o, property, text)
    case None => forall text :: !Has(o, property, text)
  }

  /** The value is the text of the first of these properties that the object has. */
  ghost predicate HoldsFirst(o: Managed, properties: seq<string>, value: Option<string>) {
    if properties == [] then value == None
    else if exists text :: Has(o, properties[0], text) then Holds(o, properties[0], value)
    else HoldsFirst(o, properties[1..], value)
  }

  /** The value is the number that property's text denotes, if it denotes one up to `max`. */
  ghost predicate HoldsNumber(o: Managed, property: string, max: nat, value: Option<int>) {
    match value
    case Some(n) => 0 <= n <= max && exists text :: Has(o, property, text) && Denotes(text, n)
    case None => forall text, n: nat | Has(o, property, text) && Denotes(text, n) :: n > max
  }

  /** The machine as described by the object's properties. */
  ghost predicate DescribesVm(o: Managed, vm: VmInfo) {
    && Holds(o, "summary.config.name", vm.name)
    && Holds(o, "summary.config.uuid", vm.uuid)
    && HoldsNumber(o, "summary.config.numCpu", 4294967295, vm.vcpu)
    && HoldsNumber(o, "summary.config.memorySizeMB", 18446744073709551615, vm.memoryMb)
    && Holds(o, "summary.runtime.powerState", vm.powerState)
    && HoldsFirst(o, ["summary.config.guestFullName", "summary.guest.guestFullName"], vm.guestFullName)
    && Holds(o, "summary.config.annotation", vm.comment)
    && vm.macAddresses == MacsOf(Harvest(o.props))
    && (forall ip | Has(o, "summary.guest.ipAddress", ip) && ip != "" ::
          vm.ipAddresses == AddMissing([ip], IpsOf(Harvest(o.props))))
    && ((forall ip | Has(o, "summary.guest.ipAddress", ip) :: ip == "") ==>
          vm.ipAddresses == AddMissing([], IpsOf(Harvest(o.props))))
  }

  /** The host as described by the object's properties, its machines apart. */
  ghost predicate DescribesHost(o: Managed, host: HostInfo) {
    && HoldsFirst(o, ["config.network.dnsConfig.hostName", "summary.config.name", "name"], host.name)
    && Holds(o, "config.product.fullName", host.productFullName)
    && Holds(o, "config.product.version", host.productVersion)
    && Holds(o, "hardware.systemInfo.uuid", host.uuid)
    && Holds(o, "hardware.systemInfo.vendor", host.vendor)
    && Holds(o, "hardware.systemInfo.model", host.model)
    && Holds(o, "hardware.systemInfo.serialNumber", host.serial)
    && Holds(o, "hardware.biosInfo.biosVersion", host.biosVersion)
    && Holds(o, "hardware.biosInfo.releaseDate", host.biosDate)
    && Holds(o, "summary.hardware.cpuModel", host.cpuModel)
    && HoldsNumber(o, "summary.hardware.cpuMhz", 18446744073709551615, host.cpuMhz)
    && HoldsNumber(o, "summary.hardware.numCpuPkgs", 4294967295, host.cpuPackages)
    && HoldsNumber(o, "summary.hardware.numCpuCores", 4294967295, host.cpuCores)
    && HoldsNumber(o, "summary.hardware.numCpuThreads", 4294967295, host.cpuThreads)
    && HoldsNumber(o, "hardware.memorySize", 18446744073709551615, host.memoryBytes)
  }

  // ---- The fields read back ---------------------------------------------------------

  /** With distinct names, a property is read as its text, and one that is not there as nothing. */
  lemma GetHolds(o: Managed, property: string)
    requires DistinctNames(o.props)
    ensures Holds(o, property, Get(RawOf(o), property))
    ensures forall text | Has(o, property, text) :: Get(RawOf(o), property) == Some(text)
  {
    if text :| Has(o, property, text) {
      var k :| 0 <= k < |o.props| && o.props[k] == Scalar(property, text);
      PropFound(Fresh(o), o.props, k);
      forall other | Has(o, property, other) ensures other == text {
        var j :| 0 <= j < |o.props| && o.props[j] == Scalar(property, other);
      }
    } else {
      forall text ensures Scalar(property, text) !in o.props { assert !Has(o, property, text); }
      NoScalar(Fresh(o), o.props, property);
    }
  }

  lemma {:induction false} NoScalar(obj: RawObject, props: seq<Prop>, name: string)
    requires forall text :: Scalar(name, text) !in props
    ensures name in AddProps(obj, props).scalars <==> name in obj.scalars
    decreases |props|
  {
    if props != [] {
      assert props[0] in props;
      if props[0].Nested? {
        LeavesAdd(obj, props[0].name, Leaves(props[0].nodes));
      } else {
        assert props[0] == Scalar(props[0].name, props[0].text);
      }
      NoScalar(AddProp(obj, props[0]), props[1..], name);
    }
  }

  lemma FirstHolds(o: Managed, a: string, b: string)
    requires DistinctNames(o.props)
    ensures HoldsFirst(o, [a, b], OrElse(Get(RawOf(o), a), Get(RawOf(o), b)))
  {
    GetHolds(o, a);
    GetHolds(o, b);
    assert [a, b][1..] == [b] && [b][1..] == [];
  }

  lemma FirstOfThreeHolds(o: Managed, a: string, b: string, c: string)
    requires DistinctNames(o.props)
    ensures HoldsFirst(o, [a, b, c], OrElse(Get(RawOf(o), a), OrElse(Get(RawOf(o), b), Get(RawOf(o), c))))
  {
    GetHolds(o, a);
    FirstHolds(o, b, c);
    assert [a, b, c][1..] == [b, c];
  }

  lemma NumberHolds(o: Managed, property: string)
    requires DistinctNames(o.props)
    ensures HoldsNumber(o, property, U32_MAX, Number32(RawOf(o), property))
    ensures HoldsNumber(o, property, U64_MAX, Number64(RawOf(o), property))
  {
    GetHolds(o, property);
    forall text, n: nat | Has(o, property, text)
      ensures Unsigned(text, U32_MAX) == Some(n) <==> n <= U32_MAX && Denotes(text, n)
      ensures Unsigned(text, U64_MAX) == Some(n) <==> n <= U64_MAX && Denotes(text, n)
    {
      UnsignedIff(text, U32_MAX, n);
      UnsignedIff(text, U64_MAX, n);
    }
  }

  /** Every field of a printed machine is that of the property it is meant for. */
  lemma VmIsDescribed(o: Managed)
    requires DistinctNames(o.props)
    ensures DescribesVm(o, VmOf(RawOf(o)))
  {
    GetHolds(o, "summary.config.name");
    GetHolds(o, "summary.config.uuid");
    NumberHolds(o, "summary.config.numCpu");
    NumberHolds(o, "summary.config.memorySizeMB");
    GetHolds(o, "summary.runtime.powerState");
    FirstHolds(o, "summary.config.guestFullName", "summary.guest.guestFullName");
    GetHolds(o, "summary.config.annotation");
    GetHolds(o, "summary.guest.ipAddress");
    MacsAndIpsFound(Fresh(o), o.props);
    var macs, ips := MacsOf(Harvest(o.props)), IpsOf(Harvest(o.props));
    assert [] + macs == macs && [] + ips == ips;
  }

  /** So is every field of a printed host. */
  lemma HostIsDescribed(o: Managed, vms: map<string, VmInfo>)
    requires DistinctNames(o.props)
    ensures DescribesHost(o, HostOf(RawOf(o), vms))
  {
    FirstOfThreeHolds(o, "config.network.dnsConfig.hostName", "summary.config.name", "name");
    GetHolds(o, "config.product.fullName");
    GetHolds(o, "config.product.version");
    GetHolds(o, "hardware.systemInfo.uuid");
    GetHolds(o, "hardware.systemInfo.vendor");
    GetHolds(o, "hardware.systemInfo.model");
    GetHolds(o, "hardware.systemInfo.serialNumber");
    GetHolds(o, "hardware.biosInfo.biosVersion");
    GetHolds(o, "hardware.biosInfo.releaseDate");
    GetHolds(o, "summary.hardware.cpuModel");
    NumberHolds(o, "summary.hardware.cpuMhz");
    NumberHolds(o, "summary.hardware.numCpuPkgs");
    NumberHolds(o, "summary.hardware.numCpuCores");
    NumberHolds(o, "summary.hardware.numCpuThreads");
    NumberHolds(o, "hardware.memorySize");
  }

  // ---- A whole response ---------------------------------------------------------------

  lemma {:induction false} HostsOfAppend(a: seq<Managed>, b: seq<Managed>)
    ensures HostsOf(a + b) == HostsOf(a) + HostsOf(b)
  {
    if a == [] {
      assert a + b == b;
    } else {
      assert (a + b)[0] == a[0] && (a + b)[1..] == a[1..] + b;
      HostsOfAppend(a[1..], b);
      Assoc(if a[0].kind == HOST_TYPE then [a[0]] else [], HostsOf(a[1..]), HostsOf(b));
    }
  }

  /** A host keeps its place among the hosts. */
  lemma HostStands(os: seq<Managed>, j: nat)
    requires j < |os| && os[j].kind == "HostSystem"
    ensures var p := |HostsOf(os[..j])|; p < |HostsOf(os)| && HostsOf(os)[p] == os[j]
  {
    assert os == os[..j] + ([os[j]] + os[j + 1..]);
    HostsOfAppend(os[..j], [os[j]] + os[j + 1..]);
    assert ([os[j]] + os[j + 1..])[1..] == os[j + 1..];
  }

  lemma {:induction false} PickAll(refs: seq<string>, vms: map<string, VmInfo>)
    requires forall i | 0 <= i < |refs| :: refs[i] in vms
    ensures |Pick(refs, vms)| == |refs| && forall i | 0 <= i < |refs| :: Pick(refs, vms)[i] == vms[refs[i]]
  {
    if refs != [] { PickAll(refs[1..], vms); }
  }

  /** The ids of these objects, as references. */
  function RefsTo(os: seq<Managed>, at: seq<nat>): seq<Node>
    requires forall i | 0 <= i < |at| :: at[i] < |os|
  {
    seq(|at|, i requires 0 <= i < |at| => Harvested(Ref(os[at[i]].id)))
  }

  lemma {:induction false} VmRefsOf(props: seq<Prop>, nodes: seq<Node>)
    requires DistinctNames(props) && Nested("vm", nodes) in props
    ensures VmRefs(props) == RefsOf(Leaves(nodes))
  {
    if props[0] != Nested("vm", nodes) {
      assert Nested("vm", nodes) in props[1..];
      VmRefsOf(props[1..], nodes);
    }
  }

  /**
   * A printed response is read field by field: each `HostSystem` object becomes, in its
   * place among the hosts, a host with the values of its own properties, and its
   * machines are those its `vm` property refers to, each with the values of its own.
   */
  lemma ResponseIsRead(os: seq<Managed>, j: nat, at: seq<nat>)
    requires (forall o | o in os :: CleanObject(o) && DistinctNames(o.props)) && UniqueVmIds(os)
    requires forall o | o in os :: forall p | p in o.props :: FaultFree(p)
    requires j < |os| && os[j].kind == "HostSystem"
    requires forall i | 0 <= i < |at| :: at[i] < |os| && os[at[i]].kind == "VirtualMachine"
    requires Nested("vm", RefsTo(os, at)) in os[j].props
    ensures var infos, p := HostInfos(Print(os)), |HostsOf(os[..j])|;
      && infos.Ok? && |infos.value| == |HostsOf(os)| && p < |infos.value|
      && DescribesHost(os[j], infos.value[p])
      && |infos.value[p].virtualMachines| == |at|
      && forall i | 0 <= i < |at| :: DescribesVm(os[at[i]], infos.value[p].virtualMachines[i])
  {
    var host, p := os[j], |HostsOf(os[..j])|;
    assert host in os;
    HostStands(os, j);
    HostsAreJoined(os, p);
    HostIsDescribed(host, Index(Raws(os)));
    MachinesAreRead(os, host, at);
  }

  /** The machines picked for a host that refers to them. */
  lemma MachinesAreRead(os: seq<Managed>, host: Managed, at: seq<nat>)
    requires (forall o | o in os :: DistinctNames(o.props)) && DistinctNames(host.props) && UniqueVmIds(os)
    requires forall i | 0 <= i < |at| :: at[i] < |os| && os[at[i]].kind == "VirtualMachine"
    requires Nested("vm", RefsTo(os, at)) in host.props
    ensures var picked := Pick(RefsAt(RawOf(host), "vm"), Index(Raws(os)));
      |picked| == |at| && forall i | 0 <= i < |at| :: DescribesVm(os[at[i]], picked[i])
  {
    var ids, vms := seq(|at|, i requires 0 <= i < |at| => os[at[i]].id), Index(Raws(os));
    RefsAreIds(os, host, at, ids);
    forall i | 0 <= i < |at| ensures ids[i] in vms && DescribesVm(os[at[i]], vms[ids[i]]) {
      MachineIsRead(os, os[at[i]]);
    }
    PickAll(ids, vms);
  }

  lemma MachineIsRead(os: seq<Managed>, o: Managed)
    requires o in os && o.kind == "VirtualMachine" && DistinctNames(o.props) && UniqueVmIds(os)
    ensures o.id in Index(Raws(os)) && DescribesVm(o, Index(Raws(os))[o.id])
  {
    IndexOfPrinted(os, o.id);
    assert Lists(os, o.id, o);
    VmIsDescribed(o);
  }

  lemma RefsAreIds(os: seq<Managed>, host: Managed, at: seq<nat>, ids: seq<string>)
    requires DistinctNames(host.props) && forall i | 0 <= i < |at| :: at[i] < |os|
    requires Nested("vm", RefsTo(os, at)) in host.props
    requires |ids| == |at| && forall i | 0 <= i < |at| :: ids[i] == os[at[i]].id
    ensures RefsAt(RawOf(host), "vm") == ids
  {
    VmRefsOf(host.props, RefsTo(os, at));
    RefsInOrder(ids);
    assert RefsTo(os, at) == seq(|ids|, i requires 0 <= i < |ids| => Harvested(Ref(ids[i])));
    VmRefsFound(Fresh(host), host.props);
  }

  /** The host at place `p` of a printed response. */
  lemma HostsAreJoined(os: seq<Managed>, p: nat)
    requires (forall o | o in os :: CleanObject(o)) && p < |HostsOf(os)|
    requires forall o | o in os :: forall q | q in o.props :: FaultFree(q)
    ensures var infos := HostInfos(Print(os));
      infos.Ok? && |infos.value| == |HostsOf(os)| && infos.value[p] == HostOf(RawOf(HostsOf(os)[p]), Index(Raws(os)))
  {
    PrintLacksFault(os);
    NoTextWhereLacking(FAULT, Print(os), []);
    RoundTrip(os);
    assert Run(INITIAL, Print(os)).Committed() == Raws(os);
    HostsOfPrinted(os);
  }
}
