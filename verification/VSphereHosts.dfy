/**
 * Joining hosts with their virtual machines (crates/glpi-vsphere/src/parse.rs):
 * the machines are indexed by id, each host picks those its `vm` references name.
 */
module VSphereHosts {
  import opened Common
  import opened Numerals
  import opened VSphere

  datatype VmInfo = VmInfo(
    name: Option<string>, uuid: Option<string>, vcpu: Option<u32>, memoryMb: Option<u64>,
    powerState: Option<string>, guestFullName: Option<string>, comment: Option<string>,
    macAddresses: seq<string>, ipAddresses: seq<string>)

  /** A host; the list of its interfaces, which the parser leaves empty, is not carried. */
  datatype HostInfo = HostInfo(
    name: Option<string>, productFullName: Option<string>, productVersion: Option<string>, uuid: Option<string>,
    vendor: Option<string>, model: Option<string>, serial: Option<string>,
    biosVersion: Option<string>, biosDate: Option<string>, cpuModel: Option<string>, cpuMhz: Option<u64>,
    cpuPackages: Option<u32>, cpuCores: Option<u32>, cpuThreads: Option<u32>, memoryBytes: Option<u64>,
    virtualMachines: seq<VmInfo>)

  const VM_TYPE := "VirtualMachine"
  const HOST_TYPE := "HostSystem"
  const FAULT := "faultstring"

  // ---- Faults -----------------------------------------------------------------------

  /** The first text inside an element, once it is open; an end event closes the innermost element. */
  function TextIn(local: string, events: seq<Event>, stack: seq<string>, capture: bool): Option<string>
    decreases |events|
  {
    if events == [] then None
    else
      match events[0]
      case Start(name, _) => TextIn(local, events[1..], stack + [name], capture || name == local)
      case Text(text) => if capture then Some(Trim(text)) else TextIn(local, events[1..], stack, capture)
      case End =>
        if stack == [] then TextIn(local, events[1..], stack, capture)
        else TextIn(local, events[1..], stack[..|stack| - 1], capture && stack[|stack| - 1] != local)
      case _ => TextIn(local, events[1..], stack, capture)
  }

  /** `element_text`, on events that are well nested. */
  method ElementText(events: seq<Event>, local: string) returns (text: Option<string>)
    ensures text == TextIn(local, events, [], false)
  {
    var stack: seq<string>, capture := [], false;
    assert events[0..] == events;
    for i := 0 to |events|
      invariant TextIn(local, events, [], false) == TextIn(local, events[i..], stack, capture)
    {
      assert events[i..][0] == events[i] && events[i..][1..] == events[i + 1..];
      match events[i] {
        case Start(name, _) =>
          stack := stack + [name];
          if name == local {
            capture := true;
          }
        case Text(t) =>
          if capture {
            return Some(Trim(t));
          }
        case End =>
          if stack != [] {
            if stack[|stack| - 1] == local {
              capture := false;
            }
            stack := stack[..|stack| - 1];
          }
        case _ =>
      }
    }
    return None;
  }

  /** No element of this name starts. */
  ghost predicate Lacks(local: string, events: seq<Event>) {
    forall e | e in events :: !(e.Start? && e.local == local)
  }

  lemma {:induction false} NoTextWhereLacking(local: string, events: seq<Event>, stack: seq<string>)
    requires Lacks(local, events)
    ensures TextIn(local, events, stack, false) == None
    decreases |events|
  {
    if events != [] {
      assert events[0] in events;
      var next := match events[0]
        case Start(name, _) => stack + [name]
        case End => if stack == [] then stack else stack[..|stack| - 1]
        case _ => stack;
      NoTextWhereLacking(local, events[1..], next);
    }
  }

  /** In the first element of this name its text is found, whatever stands around it. */
  lemma {:induction false} TextIsFound(
    local: string, before: seq<Event>, text: string, after: seq<Event>, stack: seq<string>)
    requires Lacks(local, before)
    ensures TextIn(local, before + Element(local, text) + after, stack, false) == Some(Trim(text))
    decreases |before|
  {
    var events := before + Element(local, text) + after;
    if before == [] {
      assert events == Element(local, text) + after;
      assert events[0] == Start(local, None) && events[1..][0] == Text(text);
    } else {
      assert before[0] in before && events[0] == before[0];
      assert events[1..] == before[1..] + Element(local, text) + after;
      var next := match before[0]
        case Start(name, _) => stack + [name]
        case End => if stack == [] then stack else stack[..|stack| - 1]
        case _ => stack;
      TextIsFound(local, before[1..], text, after, next);
    }
  }

  /** An element without a text is over when it is closed: a later text is not its own. */
  lemma {:induction false} EmptyElementIsPassed(
    local: string, before: seq<Event>, after: seq<Event>, stack: seq<string>)
    requires Lacks(local, before) && Lacks(local, after)
    ensures TextIn(local, before + [Start(local, None), End] + after, stack, false) == None
    decreases |before|
  {
    var events := before + [Start(local, None), End] + after;
    if before == [] {
      assert events[0] == Start(local, None) && events[1..][0] == End && events[1..][1..] == after;
      assert (stack + [local])[..|stack|] == stack;
      NoTextWhereLacking(local, after, stack);
    } else {
      assert before[0] in before && events[0] == before[0];
      assert events[1..] == before[1..] + [Start(local, None), End] + after;
      var next := match before[0]
        case Start(name, _) => stack + [name]
        case End => if stack == [] then stack else stack[..|stack| - 1]
        case _ => stack;
      EmptyElementIsPassed(local, before[1..], after, next);
    }
  }

  /** No element of a structured value is called like this. */
  predicate TagFree(local: string, nodes: seq<Node>) {
    nodes == [] ||
    (&& (match nodes[0]
         case Harvested(leaf) => LeafTag(leaf) != local
         case Closed(_) => true
         case Note(tag, _) => tag != local
         case Wrap(tag, inner) => tag != local && TagFree(local, inner))
     && TagFree(local, nodes[1..]))
  }

  predicate FaultFree(prop: Prop) {
    prop.Nested? ==> TagFree(FAULT, prop.nodes)
  }

  lemma {:induction false} NodesLack(local: string, nodes: seq<Node>)
    requires TagFree(local, nodes)
    ensures Lacks(local, PrintNodes(nodes))
    decreases nodes
  {
    if nodes != [] {
      NodesLack(local, nodes[1..]);
      if nodes[0].Wrap? { NodesLack(local, nodes[0].nodes); }
    }
  }

  lemma {:induction false} PropsLackFault(props: seq<Prop>)
    requires forall p | p in props :: FaultFree(p)
    ensures Lacks(FAULT, PrintProps(props))
  {
    if props != [] {
      assert props[0] in props;
      PropsLackFault(props[1..]);
      if props[0].Nested? { NodesLack(FAULT, props[0].nodes); }
      assert Lacks(FAULT, PrintValue(props[0]));
    }
  }

  /** A printed response without a fault element is not a fault. */
  lemma {:induction false} PrintLacksFault(os: seq<Managed>)
    requires forall o | o in os :: forall p | p in o.props :: FaultFree(p)
    ensures Lacks(FAULT, Print(os))
  {
    if os != [] {
      assert os[0] in os;
      PrintLacksFault(os[1..]);
      PropsLackFault(os[0].props);
    }
  }

  // ---- The fields -------------------------------------------------------------------

  function Number32(obj: RawObject, name: string): Option<u32> {
    if name in obj.scalars then
      match Unsigned(obj.scalars[name], U32_MAX) case Some(n) => Some(n) case None => None
    else None
  }

  function Number64(obj: RawObject, name: string): Option<u64> {
    if name in obj.scalars then
      match Unsigned(obj.scalars[name], U64_MAX) case Some(n) => Some(n) case None => None
    else None
  }

  function Get(obj: RawObject, name: string): Option<string> {
    if name in obj.scalars then Some(obj.scalars[name]) else None
  }

  function OrElse(a: Option<string>, b: Option<string>): Option<string> {
    if a.Some? then a else b
  }

  /** The addresses of `more` that are not yet there, each once, in order of first appearance. */
  function AddMissing(ips: seq<string>, more: seq<string>): seq<string>
    decreases |more|
  {
    if more == [] then ips
    else AddMissing(if more[0] in ips then ips else ips + [more[0]], more[1..])
  }

  function GuestFirst(guest: Option<string>): seq<string> {
    if guest.Some? && guest.value != "" then [guest.value] else []
  }

  /** The address list of a machine: what the guest reports, then what was harvested. */
  method VmAddresses(guest: Option<string>, harvested: seq<string>) returns (ips: seq<string>)
    ensures ips == AddMissing(GuestFirst(guest), harvested)
  {
    ips := [];
    if guest.Some? && guest.value != "" {
      ips := ips + [guest.value];
    }
    assert ips == GuestFirst(guest);
    ghost var whole := AddMissing(ips, harvested);
    assert harvested[0..] == harvested;
    for i := 0 to |harvested|
      invariant whole == AddMissing(ips, harvested[i..])
    {
      assert harvested[i..][0] == harvested[i] && harvested[i..][1..] == harvested[i + 1..];
      if harvested[i] !in ips {
        ips := ips + [harvested[i]];
      }
    }
    assert harvested[|harvested|..] == [];
  }

  ghost predicate NoDuplicates(s: seq<string>) {
    forall i, j | 0 <= i < j < |s| :: s[i] != s[j]
  }

  lemma {:induction false} AddMissingIsUnion(ips: seq<string>, more: seq<string>)
    requires NoDuplicates(ips)
    ensures var all := AddMissing(ips, more);
      NoDuplicates(all) && ips <= all && forall x :: x in all <==> x in ips || x in more
    decreases |more|
  {
    if more != [] {
      AddMissingIsUnion(if more[0] in ips then ips else ips + [more[0]], more[1..]);
      assert forall x :: x in more <==> x == more[0] || x in more[1..];
    }
  }

  /** One address is added at the end unless it is there, and lists are added one address after the other. */
  lemma {:induction false} AddMissingOneByOne(ips: seq<string>, a: seq<string>, b: seq<string>, x: string)
    ensures AddMissing(ips, [x]) == if x in ips then ips else ips + [x]
    ensures AddMissing(ips, a + b) == AddMissing(AddMissing(ips, a), b)
    decreases |a|
  {
    assert [x][1..] == [];
    if a == [] {
      assert a + b == b;
    } else {
      assert (a + b)[0] == a[0] && (a + b)[1..] == a[1..] + b;
      AddMissingOneByOne(if a[0] in ips then ips else ips + [a[0]], a[1..], b, x);
    }
  }

  function VmOf(vm: RawObject): VmInfo {
    VmInfo(
      Get(vm, "summary.config.name"),
      Get(vm, "summary.config.uuid"),
      Number32(vm, "summary.config.numCpu"),
      Number64(vm, "summary.config.memorySizeMB"),
      Get(vm, "summary.runtime.powerState"),
      OrElse(Get(vm, "summary.config.guestFullName"), Get(vm, "summary.guest.guestFullName")),
      Get(vm, "summary.config.annotation"),
      vm.macs,
      AddMissing(GuestFirst(Get(vm, "summary.guest.ipAddress")), vm.ips))
  }

  /** The machines of the references that are in the index, in reference order. */
  function Pick(refs: seq<string>, vms: map<string, VmInfo>): seq<VmInfo> {
    if refs == [] then []
    else (if refs[0] in vms then [vms[refs[0]]] else []) + Pick(refs[1..], vms)
  }

  function HostOf(host: RawObject, vms: map<string, VmInfo>): HostInfo {
    HostInfo(
      OrElse(Get(host, "config.network.dnsConfig.hostName"),
             OrElse(Get(host, "summary.config.name"), Get(host, "name"))),
      Get(host, "config.product.fullName"),
      Get(host, "config.product.version"),
      Get(host, "hardware.systemInfo.uuid"),
      Get(host, "hardware.systemInfo.vendor"),
      Get(host, "hardware.systemInfo.model"),
      Get(host, "hardware.systemInfo.serialNumber"),
      Get(host, "hardware.biosInfo.biosVersion"),
      Get(host, "hardware.biosInfo.releaseDate"),
      Get(host, "summary.hardware.cpuModel"),
      Number64(host, "summary.hardware.cpuMhz"),
      Number32(host, "summary.hardware.numCpuPkgs"),
      Number32(host, "summary.hardware.numCpuCores"),
      Number32(host, "summary.hardware.numCpuThreads"),
      Number64(host, "hardware.memorySize"),
      Pick(RefsAt(host, "vm"), vms))
  }

  function Hosts(objects: seq<RawObject>): seq<RawObject> {
    if objects == [] then [] else IfHost(objects[0]) + Hosts(objects[1..])
  }

  function IfHost(obj: RawObject): seq<RawObject> {
    if obj.objType == HOST_TYPE then [obj] else []
  }

  /** The index of the machines: a later machine replaces an earlier one of the same id. */
  function Index(objects: seq<RawObject>): map<string, VmInfo> {
    if objects == [] then map[]
    else
      var last := objects[|objects| - 1];
      var before := Index(objects[..|objects| - 1]);
      if last.objType == VM_TYPE then before[last.objId := VmOf(last)] else before
  }

  function Join(hosts: seq<RawObject>, vms: map<string, VmInfo>): (infos: seq<HostInfo>)
    ensures |infos| == |hosts| && forall i | 0 <= i < |hosts| :: infos[i] == HostOf(hosts[i], vms)
  {
    seq(|hosts|, i requires 0 <= i < |hosts| => HostOf(hosts[i], vms))
  }

  lemma {:induction false} HostsAppend(a: seq<RawObject>, o: RawObject)
    ensures Hosts(a + [o]) == Hosts(a) + IfHost(o)
  {
    var all := a + [o];
    if a == [] {
      assert all[0] == o && all[1..] == [];
    } else {
      assert all[0] == a[0] && all[1..] == a[1..] + [o];
      HostsAppend(a[1..], o);
      assert IfHost(a[0]) + (Hosts(a[1..]) + IfHost(o)) == IfHost(a[0]) + Hosts(a[1..]) + IfHost(o);
    }
  }

  /** What `parse_hosts` makes of a response: the message of a fault, or the joined hosts. */
  function HostInfos(events: seq<Event>): Result<seq<HostInfo>, string> {
    var fault := TextIn(FAULT, events, [], false);
    if fault.Some? then Err("vSphere fault: " + fault.value)
    else
      var objects := Run(INITIAL, events).Committed();
      Ok(Join(Hosts(objects), Index(objects)))
  }

  /** `parse_hosts`. */
  method ParseHosts(events: seq<Event>) returns (infos: Result<seq<HostInfo>, string>)
    ensures infos == HostInfos(events)
  {
    var fault := ElementText(events, FAULT);
    if fault.Some? {
      return Err("vSphere fault: " + fault.value);
    }
    var objects := ParseObjects(events);
    var hosts := JoinObjects(objects);
    return Ok(hosts);
  }

  /** The loop that indexes the machines and keeps the hosts, and their join. */
  method JoinObjects(objects: seq<RawObject>) returns (infos: seq<HostInfo>)
    ensures infos == Join(Hosts(objects), Index(objects))
  {
    var vms: map<string, VmInfo>, hosts: seq<RawObject> := map[], [];
    for i := 0 to |objects|
      invariant vms == Index(objects[..i]) && hosts == Hosts(objects[..i])
    {
      var obj := objects[i];
      assert objects[..i + 1] == objects[..i] + [obj] && objects[..i + 1][..i] == objects[..i];
      HostsAppend(objects[..i], obj);
      if obj.objType == VM_TYPE {
        var vm := ReadVm(obj);
        vms := vms[obj.objId := vm];
      } else if obj.objType == HOST_TYPE {
        hosts := hosts + [obj];
      }
    }
    assert objects[..|objects|] == objects;
    infos := Join(hosts, vms);
  }

  /** `vm_from_object`. */
  method ReadVm(obj: RawObject) returns (vm: VmInfo)
    ensures vm == VmOf(obj)
  {
    var ips := VmAddresses(Get(obj, "summary.guest.ipAddress"), obj.ips);
    vm := VmOf(obj).(ipAddresses := ips);
  }

  // ---- Which machines a host gets ---------------------------------------------------

  ghost predicate UniqueVms(objects: seq<RawObject>) {
    forall i, j | 0 <= i < j < |objects| && objects[i].objType == VM_TYPE && objects[j].objType == VM_TYPE ::
      objects[i].objId != objects[j].objId
  }

  lemma {:induction false} IndexHolds(objects: seq<RawObject>, id: string)
    requires UniqueVms(objects)
    ensures id in Index(objects) <==> exists o | o in objects :: o.objType == VM_TYPE && o.objId == id
    ensures forall o | o in objects && o.objType == VM_TYPE && o.objId == id :: Index(objects)[id] == VmOf(o)
  {
    if objects != [] {
      var before, last := objects[..|objects| - 1], objects[|objects| - 1];
      IndexHolds(before, id);
      assert objects == before + [last];
      if last.objType == VM_TYPE && last.objId == id {
        forall o | o in objects && o.objType == VM_TYPE && o.objId == id ensures o == last {
          var i :| 0 <= i < |objects| && objects[i] == o;
        }
      } else {
        forall o | o in objects && o.objType == VM_TYPE && o.objId == id ensures o in before {}
      }
    }
  }

  /** Of several machines with one id the last one counts. */
  lemma {:induction false} LastMachineCounts(objects: seq<RawObject>, i: nat)
    requires i < |objects| && objects[i].objType == "VirtualMachine"
    requires forall j | i < j < |objects| && objects[j].objType == "VirtualMachine" ::
      objects[j].objId != objects[i].objId
    ensures objects[i].objId in Index(objects) && Index(objects)[objects[i].objId] == VmOf(objects[i])
    decreases |objects|
  {
    if i < |objects| - 1 { LastMachineCounts(objects[..|objects| - 1], i); }
  }

  /** The position of the machines in the response does not matter. */
  lemma IndexIgnoresPosition(a: seq<RawObject>, b: seq<RawObject>)
    requires UniqueVms(a) && UniqueVms(b)
    requires forall o: RawObject :: o.objType == VM_TYPE ==> (o in a <==> o in b)
    ensures Index(a) == Index(b)
  {
    forall id ensures id in Index(a) <==> id in Index(b)
      ensures id in Index(a) && id in Index(b) ==> Index(a)[id] == Index(b)[id]
    {
      IndexHolds(a, id);
      IndexHolds(b, id);
    }
  }

  /** The managed machine of this id, if the server lists one. */
  ghost predicate Lists(os: seq<Managed>, id: string, o: Managed) {
    o in os && o.kind == VM_TYPE && o.id == id
  }

  /** The machines that `refs` name, in order, wherever they stand in `os`. */
  ghost predicate Named(refs: seq<string>, os: seq<Managed>, infos: seq<VmInfo>)
    decreases |refs|
  {
    if refs == [] then infos == []
    else if exists o :: Lists(os, refs[0], o) then
      && infos != []
      && (forall o | Lists(os, refs[0], o) :: infos[0] == VmOf(RawOf(o)))
      && Named(refs[1..], os, infos[1..])
    else Named(refs[1..], os, infos)
  }

  ghost predicate UniqueVmIds(os: seq<Managed>) {
    forall i, j | 0 <= i < j < |os| && os[i].kind == VM_TYPE && os[j].kind == VM_TYPE :: os[i].id != os[j].id
  }

  function Raws(os: seq<Managed>): (raws: seq<RawObject>)
    ensures |raws| == |os| && forall i | 0 <= i < |os| :: raws[i] == RawOf(os[i])
  {
    seq(|os|, i requires 0 <= i < |os| => RawOf(os[i]))
  }

  lemma RawsKeepIds(os: seq<Managed>)
    ensures forall i | 0 <= i < |os| :: Raws(os)[i].objType == os[i].kind && Raws(os)[i].objId == os[i].id
  {
    forall i | 0 <= i < |os| ensures Raws(os)[i].objType == os[i].kind && Raws(os)[i].objId == os[i].id {
      KindAndId(Fresh(os[i]), os[i].props);
    }
  }

  lemma IndexOfPrinted(os: seq<Managed>, id: string)
    requires UniqueVmIds(os)
    ensures id in Index(Raws(os)) <==> exists o :: Lists(os, id, o)
    ensures forall o | Lists(os, id, o) :: id in Index(Raws(os)) && Index(Raws(os))[id] == VmOf(RawOf(o))
  {
    var raws := Raws(os);
    RawsKeepIds(os);
    IndexHolds(raws, id);
    forall o | Lists(os, id, o) ensures RawOf(o) in raws && RawOf(o).objType == VM_TYPE && RawOf(o).objId == id {
      var i :| 0 <= i < |os| && os[i] == o;
      assert raws[i] == RawOf(o);
    }
    if id in Index(raws) {
      var r :| r in raws && r.objType == VM_TYPE && r.objId == id;
      var i :| 0 <= i < |raws| && raws[i] == r;
      assert Lists(os, id, os[i]);
    }
  }

  lemma {:induction false} PickNames(refs: seq<string>, os: seq<Managed>)
    requires UniqueVmIds(os)
    ensures Named(refs, os, Pick(refs, Index(Raws(os))))
  {
    if refs != [] {
      IndexOfPrinted(os, refs[0]);
      PickNames(refs[1..], os);
      var vms := Index(Raws(os));
      var rest := Pick(refs[1..], vms);
      assert if refs[0] in vms then Pick(refs, vms)[1..] == rest else Pick(refs, vms) == rest;
    }
  }

  function HostsOf(os: seq<Managed>): seq<Managed> {
    if os == [] then [] else (if os[0].kind == HOST_TYPE then [os[0]] else []) + HostsOf(os[1..])
  }

  lemma {:induction false} HostsOfPrinted(os: seq<Managed>)
    ensures Hosts(Raws(os)) == Raws(HostsOf(os))
  {
    if os != [] {
      RawsKeepIds(os);
      assert Raws(os)[1..] == Raws(os[1..]);
      HostsOfPrinted(os[1..]);
      assert Raws([os[0]] + HostsOf(os[1..])) == [RawOf(os[0])] + Raws(HostsOf(os[1..]));
    }
  }

  /** A response with a fault is an error with the fault's text, whatever else it holds. */
  lemma FaultIsReported(before: seq<Event>, text: string, after: seq<Event>)
    requires Lacks("faultstring", before)
    ensures HostInfos(before + Element("faultstring", text) + after) == Err("vSphere fault: " + Trim(text))
  {
    TextIsFound(FAULT, before, text, after, []);
  }

  /** The references of the `vm` property, if there is one. */
  function VmRefs(props: seq<Prop>): seq<string> {
    if props == [] then []
    else if props[0].name == "vm" then (if props[0].Nested? then RefsOf(Leaves(props[0].nodes)) else [])
    else VmRefs(props[1..])
  }

  lemma {:induction false} VmRefsFound(obj: RawObject, props: seq<Prop>)
    requires DistinctNames(props) && RefsAt(obj, "vm") == []
    ensures RefsAt(AddProps(obj, props), "vm") == VmRefs(props)
    decreases |props|
  {
    if props != [] {
      var first, next := props[0], AddProp(obj, props[0]);
      if first.Nested? { LeavesAdd(obj, first.name, Leaves(first.nodes)); }
      if first.name == "vm" {
        OtherProps(next, props[1..], "vm");
      } else {
        VmRefsFound(next, props[1..]);
      }
    }
  }

  /**
   * A printed response is parsed without error, and every host of it gets exactly the
   * machines its `vm` property names, in reference order, wherever the machines stand
   * in the stream; without that property it gets none.
   */
  lemma EachHostGetsItsVms(os: seq<Managed>, h: nat)
    requires (forall o | o in os :: CleanObject(o)) && UniqueVmIds(os)
    requires forall o | o in os :: forall p | p in o.props :: FaultFree(p)
    requires h < |HostsOf(os)| && DistinctNames(HostsOf(os)[h].props)
    ensures var infos := HostInfos(Print(os));
      && infos.Ok? && |infos.value| == |HostsOf(os)|
      && Named(VmRefs(HostsOf(os)[h].props), os, infos.value[h].virtualMachines)
  {
    PrintLacksFault(os);
    NoTextWhereLacking(FAULT, Print(os), []);
    RoundTrip(os);
    assert Run(INITIAL, Print(os)).Committed() == Raws(os);
    HostsOfPrinted(os);
    var host := HostsOf(os)[h];
    VmRefsFound(Fresh(host), host.props);
    PickNames(VmRefs(host.props), os);
  }
}
