/**
 * The `RetrieveProperties` response parser (crates/glpi-vsphere/src/parse.rs): a
 * stack machine over XML events and the join of hosts with their virtual machines.
 *
 * Events carry local names; texts are already unescaped.
 */
module VSphere {
  import opened Common

  datatype Event =
    | Start(local: string, typeAttr: Option<string>)
    | Empty(local: string, valueAttr: Option<string>)
    | Text(text: string)
    | End
    | Other

  datatype RawObject = RawObject(
    objType: string, objId: string,
    scalars: map<string, string>, refs: map<string, seq<string>>,
    macs: seq<string>, ips: seq<string>)

  /** The state of the parse loop. */
  datatype Machine = Machine(
    objects: seq<RawObject>, current: Option<RawObject>, stack: seq<string>, propName: Option<string>)
  {
    /** The objects so far, the one being read included. */
    function Committed(): seq<RawObject> {
      objects + if current.Some? then [current.value] else []
    }
  }

  const INITIAL := Machine([], None, [], None)

  predicate IsWhite(c: char) {
    var n := c as int;
    || 0x9 <= n <= 0xD || n == 0x20 || n == 0x85 || n == 0xA0 || n == 0x1680
    || 0x2000 <= n <= 0x200A || n == 0x2028 || n == 0x2029 || n == 0x202F || n == 0x205F || n == 0x3000
  }

  /** White space by code point: five controls, the space, and the other Unicode spaces and line ends. */
  lemma WhiteIff(c: char)
    ensures IsWhite(c) <==> c as int in {9, 10, 11, 12, 13, 32, 133, 160, 5760, 8192, 8193, 8194, 8195, 8196,
      8197, 8198, 8199, 8200, 8201, 8202, 8232, 8233, 8239, 8287, 12288}
  {
  }

  function Trim(s: string): string {
    if s == [] then []
    else if IsWhite(s[0]) then Trim(s[1..])
    else if IsWhite(s[|s| - 1]) then Trim(s[..|s| - 1])
    else s
  }

  /** Trimming cuts white space off both ends and nothing else. */
  lemma {:induction false} TrimIs(s: string) returns (i: nat, j: nat)
    ensures i <= j <= |s| && Trim(s) == s[i..j]
    ensures forall k | 0 <= k < i :: IsWhite(s[k])
    ensures forall k | j <= k < |s| :: IsWhite(s[k])
    ensures i < j ==> !IsWhite(s[i]) && !IsWhite(s[j - 1])
  {
    i, j := 0, |s|;
    if s != [] {
      if IsWhite(s[0]) {
        var i', j' := TrimIs(s[1..]);
        i, j := i' + 1, j' + 1;
        assert s[1..][i'..j'] == s[i..j];
        forall k | 0 <= k < i ensures IsWhite(s[k]) { if k > 0 { assert s[k] == s[1..][k - 1]; } }
        forall k | j <= k < |s| ensures IsWhite(s[k]) { assert s[k] == s[1..][k - 1]; }
      } else if IsWhite(s[|s| - 1]) {
        var front := s[..|s| - 1];
        i, j := TrimIs(front);
        assert front[i..j] == s[i..j];
        forall k | j <= k < |s| ensures IsWhite(s[k]) { if k < |front| { assert s[k] == front[k]; } }
      } else {
        assert s[0..|s|] == s;
      }
    }
  }

  function AddRef(obj: RawObject, name: string, id: string): RawObject {
    obj.(refs := obj.refs[name := (if name in obj.refs then obj.refs[name] else []) + [id]])
  }

  function AddScalar(obj: RawObject, name: string, text: string): RawObject {
    obj.(scalars := obj.scalars[name := if name in obj.scalars then obj.scalars[name] + " " + text else text])
  }

  /** `route_text`: a text goes where the innermost element says. */
  function RouteText(m: Machine, text: string): Machine {
    if m.stack == [] || m.current.None? then m
    else
      var top, obj := m.stack[|m.stack| - 1], m.current.value;
      if top == "obj" then m.(current := Some(obj.(objId := obj.objId + text)))
      else if top == "name" && |m.stack| > 1 && m.stack[|m.stack| - 2] == "propSet" then m.(propName := Some(text))
      else if top == "ManagedObjectReference" then
        if m.propName.Some? then m.(current := Some(AddRef(obj, m.propName.value, text))) else m
      else if top == "macAddress" then m.(current := Some(obj.(macs := obj.macs + [text])))
      else if top == "ipAddress" then m.(current := Some(obj.(ips := obj.ips + [text])))
      else if top == "val" then
        if m.propName.Some? then m.(current := Some(AddScalar(obj, m.propName.value, text))) else m
      else m
  }

  function Step(m: Machine, event: Event): Machine {
    match event
    case Start(local, typeAttr) =>
      if local == "obj" then
        var kind := if typeAttr.Some? then typeAttr.value else "";
        Machine(m.Committed(), Some(RawObject(kind, "", map[], map[], [], [])), m.stack + [local], None)
      else m.(stack := m.stack + [local])
    case Empty(local, value) =>
      if local == "ManagedObjectReference" && m.current.Some? && m.propName.Some? && value.Some?
      then m.(current := Some(AddRef(m.current.value, m.propName.value, value.value)))
      else m
    case Text(text) => if Trim(text) == [] then m else RouteText(m, Trim(text))
    case End => if m.stack == [] then m else m.(stack := m.stack[..|m.stack| - 1])
    case Other => m
  }

  function Run(m: Machine, events: seq<Event>): Machine
    decreases |events|
  {
    if events == [] then m else Run(Step(m, events[0]), events[1..])
  }

  /** The parse loop over its mutable locals. */
  method ParseObjects(events: seq<Event>) returns (objects: seq<RawObject>)
    ensures objects == Run(INITIAL, events).Committed()
  {
    objects := [];
    var current: Option<RawObject>, stack: seq<string>, propName: Option<string> := None, [], None;
    assert events[0..] == events;
    for i := 0 to |events|
      invariant Run(INITIAL, events) == Run(Machine(objects, current, stack, propName), events[i..])
    {
      ghost var before := Machine(objects, current, stack, propName);
      assert events[i..][0] == events[i] && events[i..][1..] == events[i + 1..];
      match events[i] {
        case Start(local, typeAttr) =>
          if local == "obj" {
            if current.Some? {
              objects := objects + [current.value];
            }
            current := Some(RawObject(if typeAttr.Some? then typeAttr.value else "", "", map[], map[], [], []));
            propName := None;
          }
          stack := stack + [local];
        case Empty(local, value) =>
          if local == "ManagedObjectReference" && current.Some? && propName.Some? && value.Some? {
            current := Some(AddRef(current.value, propName.value, value.value));
          }
        case Text(text) =>
          var trimmed := Trim(text);
          if trimmed != [] {
            var routed := RouteText(Machine(objects, current, stack, propName), trimmed);
            current, propName := routed.current, routed.propName;
          }
        case End =>
          if stack != [] {
            stack := stack[..|stack| - 1];
          }
        case Other =>
      }
      assert Machine(objects, current, stack, propName) == Step(before, events[i]);
    }
    if current.Some? {
      objects := objects + [current.value];
    }
  }

  // ---- Printing objects as events -------------------------------------------------

  /** A value harvested from inside a property. */
  datatype Leaf = Ref(id: string) | Mac(mac: string) | Ip(ip: string)

  /**
   * What stands inside a structured value: a harvested element, a reference written as
   * an empty element, an element whose text is of no interest, or a wrapper of more.
   */
  datatype Node =
    | Harvested(leaf: Leaf)
    | Closed(id: string)
    | Note(tag: string, text: string)
    | Wrap(tag: string, nodes: seq<Node>)

  datatype Prop = Scalar(name: string, text: string) | Nested(name: string, nodes: seq<Node>)

  /** A managed object as the server describes it. */
  datatype Managed = Managed(kind: string, id: string, props: seq<Prop>)

  function LeafTag(leaf: Leaf): string {
    match leaf case Ref(_) => "ManagedObjectReference" case Mac(_) => "macAddress" case Ip(_) => "ipAddress"
  }

  function LeafText(leaf: Leaf): string {
    match leaf case Ref(id) => id case Mac(mac) => mac case Ip(ip) => ip
  }

  function Element(tag: string, text: string): seq<Event> {
    [Start(tag, None), Text(text), End]
  }

  function PrintNodes(nodes: seq<Node>): seq<Event> {
    if nodes == [] then []
    else
      (match nodes[0]
       case Harvested(leaf) => Element(LeafTag(leaf), LeafText(leaf))
       case Closed(id) => [Empty("ManagedObjectReference", Some(id))]
       case Note(tag, text) => Element(tag, text)
       case Wrap(tag, inner) => [Start(tag, None)] + PrintNodes(inner) + [End])
      + PrintNodes(nodes[1..])
  }

  function PrintValue(prop: Prop): seq<Event> {
    match prop case Scalar(_, text) => [Text(text)] case Nested(_, nodes) => PrintNodes(nodes)
  }

  function PrintProp(prop: Prop): seq<Event> {
    [Start("propSet", None)] + Element("name", prop.name)
    + [Start("val", None)] + PrintValue(prop) + [End] + [End]
  }

  function PrintProps(props: seq<Prop>): seq<Event> {
    if props == [] then [] else PrintProp(props[0]) + PrintProps(props[1..])
  }

  function PrintObject(o: Managed): seq<Event> {
    [Start("returnval", None)] + [Start("obj", Some(o.kind)), Text(o.id), End] + PrintProps(o.props) + [End]
  }

  function Print(os: seq<Managed>): seq<Event> {
    if os == [] then [] else PrintObject(os[0]) + Print(os[1..])
  }

  /** A text that survives trimming. */
  predicate Clean(text: string) {
    text != [] && Trim(text) == text
  }

  /** An element that the parser gives no meaning, directly under `parent`. */
  predicate Unrouted(tag: string, parent: string) {
    && tag !in ["obj", "ManagedObjectReference", "macAddress", "ipAddress", "val"]
    && !(tag == "name" && parent == "propSet")
  }

  predicate CleanNodes(nodes: seq<Node>, parent: string) {
    nodes == [] ||
    (&& (match nodes[0]
         case Harvested(leaf) => Clean(LeafText(leaf))
         case Closed(_) => true
         case Note(tag, _) => Unrouted(tag, parent)
         case Wrap(tag, inner) => tag != "obj" && CleanNodes(inner, tag))
     && CleanNodes(nodes[1..], parent))
  }

  predicate CleanProp(prop: Prop) {
    && Clean(prop.name)
    && match prop
       case Scalar(_, text) => Clean(text)
       case Nested(_, nodes) => CleanNodes(nodes, "val")
  }

  ghost predicate CleanObject(o: Managed) {
    Trim(o.id) == o.id && forall p | p in o.props :: CleanProp(p)
  }

  // ---- What the parser is to make of it -------------------------------------------

  function AddLeaf(obj: RawObject, name: string, leaf: Leaf): RawObject {
    match leaf
    case Ref(id) => AddRef(obj, name, id)
    case Mac(mac) => obj.(macs := obj.macs + [mac])
    case Ip(ip) => obj.(ips := obj.ips + [ip])
  }

  /** The harvested leaves of a value at any depth, in document order. */
  function Leaves(nodes: seq<Node>): seq<Leaf> {
    if nodes == [] then []
    else
      (match nodes[0]
       case Harvested(leaf) => [leaf]
       case Closed(id) => [Ref(id)]
       case Note(_, _) => []
       case Wrap(_, inner) => Leaves(inner))
      + Leaves(nodes[1..])
  }

  function AddLeaves(obj: RawObject, name: string, leaves: seq<Leaf>): RawObject
    decreases |leaves|
  {
    if leaves == [] then obj else AddLeaves(AddLeaf(obj, name, leaves[0]), name, leaves[1..])
  }

  function AddProp(obj: RawObject, prop: Prop): RawObject {
    match prop
    case Scalar(name, text) => AddScalar(obj, name, text)
    case Nested(name, nodes) => AddLeaves(obj, name, Leaves(nodes))
  }

  function AddProps(obj: RawObject, props: seq<Prop>): RawObject
    decreases |props|
  {
    if props == [] then obj else AddProps(AddProp(obj, props[0]), props[1..])
  }

  function Fresh(o: Managed): RawObject {
    RawObject(o.kind, o.id, map[], map[], [], [])
  }

  function RawOf(o: Managed): RawObject {
    AddProps(Fresh(o), o.props)
  }

  lemma {:induction false} RunAppend(m: Machine, a: seq<Event>, b: seq<Event>)
    ensures Run(m, a + b) == Run(Run(m, a), b)
    decreases |a|
  {
    if a == [] {
      assert a + b == b;
    } else {
      assert (a + b)[1..] == a[1..] + b;
      RunAppend(Step(m, a[0]), a[1..], b);
    }
  }

  lemma RunOne(m: Machine, e: Event)
    ensures Run(m, [e]) == Step(m, e)
  {
    assert [e][1..] == [];
  }

  lemma TextStep(m: Machine, text: string)
    requires Clean(text)
    ensures Step(m, Text(text)) == RouteText(m, text) && RouteText(m, text).stack == m.stack
  {
  }

  /** An element with a text runs as that text under that element. */
  lemma ElementRun(m: Machine, tag: string, text: string)
    requires Clean(text) && tag != "obj"
    ensures Run(m, Element(tag, text)) == RouteText(m.(stack := m.stack + [tag]), text).(stack := m.stack)
  {
    var m1 := m.(stack := m.stack + [tag]);
    var m2 := RouteText(m1, text);
    RunOne(m, Start(tag, None));
    TextStep(m1, text);
    RunOne(m1, Text(text));
    RunOne(m2, End);
    assert Step(m2, End).stack == m.stack;
    RunAppend(m, [Start(tag, None)], [Text(text)]);
    RunAppend(m, [Start(tag, None)] + [Text(text)], [End]);
    assert Element(tag, text) == [Start(tag, None)] + [Text(text)] + [End];
  }

  lemma {:induction false} AddLeavesAppend(obj: RawObject, name: string, a: seq<Leaf>, b: seq<Leaf>)
    ensures AddLeaves(obj, name, a + b) == AddLeaves(AddLeaves(obj, name, a), name, b)
    decreases |a|
  {
    if a == [] {
      assert a + b == b;
    } else {
      assert (a + b)[0] == a[0] && (a + b)[1..] == a[1..] + b;
      AddLeavesAppend(AddLeaf(obj, name, a[0]), name, a[1..], b);
    }
  }

  /** The machine after these leaves were harvested for the property being read. */
  function Harvesting(m: Machine, name: string, leaves: seq<Leaf>): Machine
    requires m.current.Some?
  {
    m.(current := Some(AddLeaves(m.current.value, name, leaves)))
  }

  /** The machine is inside the value of property `name`, directly under `parent`. */
  predicate Inside(m: Machine, name: string, parent: string) {
    m.current.Some? && m.propName == Some(name) && m.stack != [] && m.stack[|m.stack| - 1] == parent
  }

  lemma LeafRun(m: Machine, name: string, parent: string, leaf: Leaf)
    requires Inside(m, name, parent) && Clean(LeafText(leaf))
    ensures Run(m, Element(LeafTag(leaf), LeafText(leaf))) == Harvesting(m, name, [leaf])
  {
    ElementRun(m, LeafTag(leaf), LeafText(leaf));
    assert (m.stack + [LeafTag(leaf)])[|m.stack|] == LeafTag(leaf);
    assert AddLeaves(m.current.value, name, [leaf]) == AddLeaf(m.current.value, name, leaf);
  }

  lemma NoteRun(m: Machine, name: string, parent: string, tag: string, text: string)
    requires Inside(m, name, parent) && Unrouted(tag, parent)
    ensures Run(m, Element(tag, text)) == m
  {
    var m1 := m.(stack := m.stack + [tag]);
    assert m1.stack[|m1.stack| - 1] == tag && m1.stack[|m1.stack| - 2] == parent;
    RunOne(m, Start(tag, None));
    assert Step(m1, Text(text)) == m1;
    RunOne(m1, Text(text));
    RunOne(m1, End);
    assert Step(m1, End).stack == m.stack;
    RunAppend(m, [Start(tag, None)], [Text(text)]);
    RunAppend(m, [Start(tag, None)] + [Text(text)], [End]);
    assert Element(tag, text) == [Start(tag, None)] + [Text(text)] + [End];
  }

  /** A wrapper runs as what it wraps. */
  lemma WrapRun(m: Machine, name: string, parent: string, tag: string, events: seq<Event>, leaves: seq<Leaf>)
    requires Inside(m, name, parent) && tag != "obj"
    requires var m1 := m.(stack := m.stack + [tag]); Run(m1, events) == Harvesting(m1, name, leaves)
    ensures Run(m, [Start(tag, None)] + events + [End]) == Harvesting(m, name, leaves)
  {
    var m1 := m.(stack := m.stack + [tag]);
    var m2 := Harvesting(m1, name, leaves);
    RunOne(m, Start(tag, None));
    RunOne(m2, End);
    assert Step(m2, End).stack == m.stack;
    RunAppend(m, [Start(tag, None)], events);
    RunAppend(m, [Start(tag, None)] + events, [End]);
  }

  /** A structured value, whatever wraps its parts, adds exactly its leaves in document order. */
  lemma {:induction false} NodesRun(m: Machine, name: string, parent: string, nodes: seq<Node>)
    requires Inside(m, name, parent) && CleanNodes(nodes, parent)
    ensures Run(m, PrintNodes(nodes)) == Harvesting(m, name, Leaves(nodes))
    decreases nodes
  {
    if nodes != [] {
      var first: seq<Leaf>, events: seq<Event>;
      match nodes[0] {
        case Harvested(leaf) =>
          first, events := [leaf], Element(LeafTag(leaf), LeafText(leaf));
          LeafRun(m, name, parent, leaf);
        case Closed(id) =>
          first, events := [Ref(id)], [Empty("ManagedObjectReference", Some(id))];
          RunOne(m, events[0]);
          assert AddLeaves(m.current.value, name, first) == AddLeaf(m.current.value, name, Ref(id));
        case Note(tag, text) =>
          first, events := [], Element(tag, text);
          NoteRun(m, name, parent, tag, text);
        case Wrap(tag, inner) =>
          first, events := Leaves(inner), [Start(tag, None)] + PrintNodes(inner) + [End];
          NodesRun(m.(stack := m.stack + [tag]), name, tag, inner);
          WrapRun(m, name, parent, tag, PrintNodes(inner), Leaves(inner));
      }
      var rest := nodes[1..];
      RunAppend(m, events, PrintNodes(rest));
      NodesRun(Harvesting(m, name, first), name, parent, rest);
      AddLeavesAppend(m.current.value, name, first, Leaves(rest));
    }
  }

  lemma ValueRun(m: Machine, prop: Prop)
    requires m.current.Some? && m.propName == Some(prop.name) && CleanProp(prop)
    requires m.stack != [] && m.stack[|m.stack| - 1] == "val"
    ensures Run(m, PrintValue(prop)) == m.(current := Some(AddProp(m.current.value, prop)))
  {
    match prop
    case Scalar(_, text) => RunOne(m, Text(text));
    case Nested(name, nodes) => NodesRun(m, name, "val", nodes);
  }

  lemma PropRun(m: Machine, prop: Prop)
    requires m.current.Some? && CleanProp(prop)
    ensures Run(m, PrintProp(prop)) ==
      m.(current := Some(AddProp(m.current.value, prop)), propName := Some(prop.name))
  {
    var value := PrintValue(prop);
    var m1 := m.(stack := m.stack + ["propSet"]);
    var m2 := m1.(propName := Some(prop.name));
    var m3 := m2.(stack := m1.stack + ["val"]);
    var m4 := m3.(current := Some(AddProp(m.current.value, prop)));
    RunOne(m, Start("propSet", None));
    ElementRun(m1, "name", prop.name);
    RunOne(m2, Start("val", None));
    ValueRun(m3, prop);
    RunOne(m4, End);
    RunOne(m4.(stack := m1.stack), End);
    RunAppend(m, [Start("propSet", None)], Element("name", prop.name));
    RunAppend(m, [Start("propSet", None)] + Element("name", prop.name), [Start("val", None)]);
    RunAppend(m, [Start("propSet", None)] + Element("name", prop.name) + [Start("val", None)], value);
    RunAppend(m, [Start("propSet", None)] + Element("name", prop.name) + [Start("val", None)] + value, [End]);
    RunAppend(m, [Start("propSet", None)] + Element("name", prop.name) + [Start("val", None)] + value + [End], [End]);
  }

  lemma {:induction false} PropsRun(m: Machine, props: seq<Prop>)
    requires m.current.Some? && forall p | p in props :: CleanProp(p)
    ensures var after := Run(m, PrintProps(props));
      && after.objects == m.objects && after.stack == m.stack
      && after.current == Some(AddProps(m.current.value, props))
    decreases |props|
  {
    if props != [] {
      var prop := props[0];
      assert prop in props;
      PropRun(m, prop);
      RunAppend(m, PrintProp(prop), PrintProps(props[1..]));
      PropsRun(m.(current := Some(AddProp(m.current.value, prop)), propName := Some(prop.name)), props[1..]);
    }
  }

  /** The `obj` element commits the object before it and starts a new one. */
  lemma HeaderRun(m: Machine, o: Managed)
    requires Trim(o.id) == o.id
    ensures Run(m, [Start("obj", Some(o.kind)), Text(o.id), End]) ==
      Machine(m.Committed(), Some(Fresh(o)), m.stack, None)
  {
    var m1 := Step(m, Start("obj", Some(o.kind)));
    var m2 := m1.(current := Some(Fresh(o)));
    RunOne(m, Start("obj", Some(o.kind)));
    assert m1.stack[|m1.stack| - 1] == "obj" && "" + o.id == o.id;
    assert Step(m1, Text(o.id)) == m2;
    RunOne(m1, Text(o.id));
    RunOne(m2, End);
    assert Step(m2, End).stack == m.stack;
    RunAppend(m, [Start("obj", Some(o.kind))], [Text(o.id)]);
    RunAppend(m, [Start("obj", Some(o.kind))] + [Text(o.id)], [End]);
    assert [Start("obj", Some(o.kind)), Text(o.id), End] == [Start("obj", Some(o.kind))] + [Text(o.id)] + [End];
  }

  lemma ObjectRun(m: Machine, o: Managed)
    requires CleanObject(o)
    ensures var after := Run(m, PrintObject(o));
      after.Committed() == m.Committed() + [RawOf(o)] && after.stack == m.stack
  {
    var header := [Start("obj", Some(o.kind)), Text(o.id), End];
    var m1 := m.(stack := m.stack + ["returnval"]);
    var m2 := Machine(m.Committed(), Some(Fresh(o)), m1.stack, None);
    RunOne(m, Start("returnval", None));
    HeaderRun(m1, o);
    PropsRun(m2, o.props);
    var m3 := Run(m2, PrintProps(o.props));
    RunOne(m3, End);
    assert Step(m3, End).stack == m.stack;
    RunAppend(m, [Start("returnval", None)], header);
    RunAppend(m, [Start("returnval", None)] + header, PrintProps(o.props));
    RunAppend(m, [Start("returnval", None)] + header + PrintProps(o.props), [End]);
  }

  lemma {:induction false} PrintRun(m: Machine, os: seq<Managed>)
    requires forall o | o in os :: CleanObject(o)
    ensures Run(m, Print(os)).Committed() == m.Committed() + seq(|os|, i requires 0 <= i < |os| => RawOf(os[i]))
    decreases |os|
  {
    if os != [] {
      var o := os[0];
      assert o in os;
      ObjectRun(m, o);
      RunAppend(m, PrintObject(o), Print(os[1..]));
      PrintRun(Run(m, PrintObject(o)), os[1..]);
    }
  }

  /** Round trip: the printed objects are read back, in order and complete. */
  lemma RoundTrip(os: seq<Managed>)
    requires forall o | o in os :: CleanObject(o)
    ensures Run(INITIAL, Print(os)).Committed() == seq(|os|, i requires 0 <= i < |os| => RawOf(os[i]))
  {
    var read := seq(|os|, i requires 0 <= i < |os| => RawOf(os[i]));
    PrintRun(INITIAL, os);
    assert INITIAL.Committed() + read == read;
  }

  // ---- Reading one object's properties back ---------------------------------------

  ghost predicate DistinctNames(props: seq<Prop>) {
    forall i, j | 0 <= i < j < |props| :: props[i].name != props[j].name
  }

  function RefsOf(leaves: seq<Leaf>): seq<string> {
    if leaves == [] then [] else (if leaves[0].Ref? then [leaves[0].id] else []) + RefsOf(leaves[1..])
  }

  function MacsOf(leaves: seq<Leaf>): seq<string> {
    if leaves == [] then [] else (if leaves[0].Mac? then [leaves[0].mac] else []) + MacsOf(leaves[1..])
  }

  function IpsOf(leaves: seq<Leaf>): seq<string> {
    if leaves == [] then [] else (if leaves[0].Ip? then [leaves[0].ip] else []) + IpsOf(leaves[1..])
  }

  /** All harvested leaves of an object, property after property. */
  function Harvest(props: seq<Prop>): seq<Leaf> {
    if props == [] then [] else (if props[0].Nested? then Leaves(props[0].nodes) else []) + Harvest(props[1..])
  }

  function RefsAt(obj: RawObject, name: string): seq<string> {
    if name in obj.refs then obj.refs[name] else []
  }

  lemma {:induction false} LeavesAdd(obj: RawObject, name: string, leaves: seq<Leaf>)
    ensures var after := AddLeaves(obj, name, leaves);
      && after.scalars == obj.scalars && after.objType == obj.objType && after.objId == obj.objId
      && RefsAt(after, name) == RefsAt(obj, name) + RefsOf(leaves)
      && forall n | n != name :: RefsAt(after, n) == RefsAt(obj, n)
    decreases |leaves|
  {
    if leaves != [] { LeavesAdd(AddLeaf(obj, name, leaves[0]), name, leaves[1..]); }
  }

  /** Properties under other names leave a name alone. */
  lemma {:induction false} OtherProps(obj: RawObject, props: seq<Prop>, name: string)
    requires forall p | p in props :: p.name != name
    ensures var after := AddProps(obj, props);
      && RefsAt(after, name) == RefsAt(obj, name)
      && (name in after.scalars <==> name in obj.scalars)
      && (name in obj.scalars ==> after.scalars[name] == obj.scalars[name])
    decreases |props|
  {
    if props != [] {
      assert props[0] in props;
      if props[0].Nested? { LeavesAdd(obj, props[0].name, Leaves(props[0].nodes)); }
      OtherProps(AddProp(obj, props[0]), props[1..], name);
    }
  }

  /** With distinct names each property is found under its name, with its text or its references in order. */
  lemma {:induction false} PropFound(obj: RawObject, props: seq<Prop>, k: nat)
    requires DistinctNames(props) && k < |props|
    requires props[k].name !in obj.scalars && RefsAt(obj, props[k].name) == []
    ensures var after, prop := AddProps(obj, props), props[k];
      match prop
      case Scalar(name, text) => name in after.scalars && after.scalars[name] == text
      case Nested(name, nodes) => name !in after.scalars && RefsAt(after, name) == RefsOf(Leaves(nodes))
    decreases |props|
  {
    var first, next := props[0], AddProp(obj, props[0]);
    if first.Nested? { LeavesAdd(obj, first.name, Leaves(first.nodes)); }
    if k == 0 {
      OtherProps(next, props[1..], first.name);
    } else {
      PropFound(next, props[1..], k - 1);
    }
  }

  lemma {:induction false} KindAndId(obj: RawObject, props: seq<Prop>)
    ensures AddProps(obj, props).objType == obj.objType && AddProps(obj, props).objId == obj.objId
    decreases |props|
  {
    if props != [] {
      if props[0].Nested? { LeavesAdd(obj, props[0].name, Leaves(props[0].nodes)); }
      KindAndId(AddProp(obj, props[0]), props[1..]);
    }
  }

  lemma {:induction false} LeavesHarvested(obj: RawObject, name: string, leaves: seq<Leaf>)
    ensures AddLeaves(obj, name, leaves).macs == obj.macs + MacsOf(leaves)
    ensures AddLeaves(obj, name, leaves).ips == obj.ips + IpsOf(leaves)
    decreases |leaves|
  {
    if leaves != [] { LeavesHarvested(AddLeaf(obj, name, leaves[0]), name, leaves[1..]); }
  }

  lemma {:induction false} MacsAppend(a: seq<Leaf>, b: seq<Leaf>)
    ensures MacsOf(a + b) == MacsOf(a) + MacsOf(b)
  {
    if a == [] {
      assert a + b == b;
    } else {
      assert (a + b)[0] == a[0] && (a + b)[1..] == a[1..] + b;
      MacsAppend(a[1..], b);
    }
  }

  lemma {:induction false} IpsAppend(a: seq<Leaf>, b: seq<Leaf>)
    ensures IpsOf(a + b) == IpsOf(a) + IpsOf(b)
  {
    if a == [] {
      assert a + b == b;
    } else {
      assert (a + b)[0] == a[0] && (a + b)[1..] == a[1..] + b;
      IpsAppend(a[1..], b);
    }
  }

  /** The MAC and IP lists of an object are its leaves of that kind, in stream order. */
  lemma {:induction false} MacsAndIpsFound(obj: RawObject, props: seq<Prop>)
    ensures AddProps(obj, props).macs == obj.macs + MacsOf(Harvest(props))
    ensures AddProps(obj, props).ips == obj.ips + IpsOf(Harvest(props))
    decreases |props|
  {
    if props != [] {
      var rest := Harvest(props[1..]);
      MacsAndIpsFound(AddProp(obj, props[0]), props[1..]);
      match props[0] {
        case Scalar(_, _) => assert Harvest(props) == rest;
        case Nested(name, nodes) =>
          var leaves := Leaves(nodes);
          LeavesHarvested(obj, name, leaves);
          MacsAppend(leaves, rest);
          IpsAppend(leaves, rest);
      }
    }
  }

  // ---- What harvesting means --------------------------------------------------------

  lemma {:induction false} LeavesAppend(a: seq<Node>, b: seq<Node>)
    ensures Leaves(a + b) == Leaves(a) + Leaves(b)
    decreases |a|
  {
    if a == [] {
      assert a + b == b;
    } else {
      assert (a + b)[0] == a[0] && (a + b)[1..] == a[1..] + b;
      LeavesAppend(a[1..], b);
    }
  }

  /** The leaves of one node; with `LeavesAppend` this is all of `Leaves`. */
  lemma LeavesOfOne(leaf: Leaf, id: string, tag: string, text: string, inner: seq<Node>)
    ensures Leaves([Harvested(leaf)]) == [leaf] && Leaves([Closed(id)]) == [Ref(id)]
    ensures Leaves([Note(tag, text)]) == [] && Leaves([Wrap(tag, inner)]) == Leaves(inner)
  {
    assert [Harvested(leaf)][1..] == [] && [Closed(id)][1..] == [] && [Note(tag, text)][1..] == [];
    assert [Wrap(tag, inner)][1..] == [] && Leaves(inner) + [] == Leaves(inner);
  }

  lemma {:induction false} RefsAppend(a: seq<Leaf>, b: seq<Leaf>)
    ensures RefsOf(a + b) == RefsOf(a) + RefsOf(b)
  {
    if a == [] {
      assert a + b == b;
    } else {
      assert (a + b)[0] == a[0] && (a + b)[1..] == a[1..] + b;
      RefsAppend(a[1..], b);
    }
  }

  /** Each kind of leaf goes to the list of its kind only; with the three append laws this is all of them. */
  lemma LeafGoesTo(text: string)
    ensures RefsOf([Ref(text)]) == [text] && MacsOf([Ref(text)]) == [] && IpsOf([Ref(text)]) == []
    ensures RefsOf([Mac(text)]) == [] && MacsOf([Mac(text)]) == [text] && IpsOf([Mac(text)]) == []
    ensures RefsOf([Ip(text)]) == [] && MacsOf([Ip(text)]) == [] && IpsOf([Ip(text)]) == [text]
  {
    assert [Ref(text)][1..] == [] && [Mac(text)][1..] == [] && [Ip(text)][1..] == [];
  }

  /** References one after the other are found in that order. */
  lemma {:induction false} RefsInOrder(ids: seq<string>)
    ensures RefsOf(Leaves(seq(|ids|, i requires 0 <= i < |ids| => Harvested(Ref(ids[i]))))) == ids
  {
    var nodes := seq(|ids|, i requires 0 <= i < |ids| => Harvested(Ref(ids[i])));
    if ids != [] {
      RefsInOrder(ids[1..]);
      assert nodes[1..] == seq(|ids[1..]|, i requires 0 <= i < |ids[1..]| => Harvested(Ref(ids[1..][i])));
      assert Leaves(nodes) == [Ref(ids[0])] + Leaves(nodes[1..]);
      assert ([Ref(ids[0])] + Leaves(nodes[1..]))[1..] == Leaves(nodes[1..]);
    }
  }

  /** Several texts in one value are joined by blanks, several in the `obj` element by nothing. */
  lemma TextsJoin(m: Machine, a: string, b: string)
    requires m.current.Some? && m.stack != [] && Clean(a) && Clean(b)
    ensures Run(m, [Text(a), Text(b)]).current.Some?
    ensures var top, after := m.stack[|m.stack| - 1], Run(m, [Text(a), Text(b)]).current.value;
      && (top == "val" && m.propName.Some? && m.propName.value !in m.current.value.scalars ==>
            m.propName.value in after.scalars && after.scalars[m.propName.value] == a + " " + b)
      && (top == "obj" && m.current.value.objId == "" ==> after.objId == a + b)
  {
    RunOne(m, Text(a));
    RunOne(Step(m, Text(a)), Text(b));
    RunAppend(m, [Text(a)], [Text(b)]);
    assert [Text(a), Text(b)] == [Text(a)] + [Text(b)];
    assert "" + a + b == a + b;
  }
}
