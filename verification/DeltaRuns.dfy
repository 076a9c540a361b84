/**
 * Whole runs of delta submissions (`submit_inventory` in crates/glpi-cli/src/main.rs):
 * the saved state files, the servers' merged views and what every run keeps.
 */
module DeltaRuns {
  import opened Common
  import opened Delta

  /** Per server, the merged view of each device. */
  type View = map<string, Content>

  /** The state directory (by sanitized device id) and the servers, in list order. */
  datatype World = World(store: map<string, State>, views: seq<View>)

  /** How far one run gets: the servers that accept before one fails, and whether the save succeeds. */
  datatype Delivery = Delivery(accepted: nat, saved: bool)

  datatype Event =
    | Submission(deviceid: string, content: Content, postpone: nat, delivery: Delivery)
    | StateLost(deviceid: string)  // pruned, or removed by hand

  function StateOf(w: World, deviceid: string): Option<State> {
    var stem := Sanitize(deviceid);
    if stem in w.store then Some(w.store[stem]) else None
  }

  function ViewOf(view: View, deviceid: string): Content {
    if deviceid in view then view[deviceid] else map[]
  }

  function Receive(view: View, deviceid: string, request: Content): View {
    view[deviceid := Merge(ViewOf(view, deviceid), request)]
  }

  predicate ValidEvent(e: Event, servers: nat) {
    e.Submission? ==> e.postpone <= U32_MAX && PARTIAL_FLAG !in e.content && e.delivery.accepted <= servers
  }

  function PlanOf(hash: Hash, w: World, e: Event): Plan
    requires e.Submission? && ValidEvent(e, |w.views|)
  {
    PlanFor(hash, e.content, StateOf(w, e.deviceid), e.postpone)
  }

  /** One run: servers in order until one fails; the state is saved after the last one. */
  function Next(hash: Hash, w: World, e: Event): (w': World)
    requires ValidEvent(e, |w.views|)
    ensures |w'.views| == |w.views|
  {
    match e
    case StateLost(d) => World(w.store - {Sanitize(d)}, w.views)
    case Submission(d, _, _, delivery) =>
      var plan := PlanOf(hash, w, e);
      World(
        if delivery.accepted == |w.views| && delivery.saved then w.store[Sanitize(d) := plan.state] else w.store,
        seq(|w.views|, s requires 0 <= s < |w.views| =>
          if s < delivery.accepted then Receive(w.views[s], d, plan.content) else w.views[s]))
  }

  /** The agent and its servers as mutable state. */
  class Agent {
    var store: map<string, State>
    var views: seq<View>

    ghost function Contents(): World
      reads this
    {
      World(store, views)
    }

    constructor (servers: nat)
      ensures Contents() == World(map[], seq(servers, _ => map[]))
    {
      store := map[];
      views := seq(servers, _ => map[]);
    }

    /**
     * The submission loop with a state directory; `loads` says whether the state file can be
     * read or is missing, `delivery` how the network and the disk behave.
     */
    method SubmitInventory(
      hash: Hash, deviceid: string, content: Content, postpone: nat, loads: bool, delivery: Delivery)
      returns (ok: bool)
      requires ValidEvent(Submission(deviceid, content, postpone, delivery), |views|)
      modifies this
      ensures Contents() ==
        if loads then Next(hash, old(Contents()), Submission(deviceid, content, postpone, delivery))
        else old(Contents())
      ensures ok <==> loads && delivery.accepted == |views| && delivery.saved
    {
      if !loads {
        return false;
      }
      var plan := PlanFor(hash, content, StateOf(World(store, views), deviceid), postpone);
      var i := 0;
      while i < |views|
        invariant 0 <= i <= delivery.accepted && i <= |views| == |old(views)|
        invariant store == old(store)
        invariant forall s | 0 <= s < |views| ::
          views[s] == if s < i then Receive(old(views)[s], deviceid, plan.content) else old(views)[s]
      {
        if i >= delivery.accepted {
          return false;
        }
        views := views[i := Receive(views[i], deviceid, plan.content)];
        i := i + 1;
      }
      if !delivery.saved {
        return false;
      }
      store := store[Sanitize(deviceid) := plan.state];
      return true;
    }
  }

  /** All or none: either no server got the request, or all did and the state was saved. */
  predicate Clean(e: Event, servers: nat) {
    e.Submission? ==> e.delivery.accepted == 0 < servers || (e.delivery.accepted == servers && e.delivery.saved)
  }

  predicate Accepted(e: Event, servers: nat) {
    e.Submission? && e.delivery.accepted == servers && e.delivery.saved
  }

  function Execute(hash: Hash, w: World, events: seq<Event>): (w': World)
    requires forall e | e in events :: ValidEvent(e, |w.views|)
    ensures |w'.views| == |w.views|
  {
    if events == [] then w
    else Next(hash, Execute(hash, w, events[..|events| - 1]), events[|events| - 1])
  }

  /** The last accepted content of each device, and how many partials it has had since a full one. */
  datatype Track = Track(content: Content, partials: nat)

  ghost function NextTracks(hash: Hash, w: World, tracks: map<string, Track>, e: Event): map<string, Track>
    requires ValidEvent(e, |w.views|)
  {
    if !Accepted(e, |w.views|) then tracks
    else
      var partials := if e.deviceid in tracks then tracks[e.deviceid].partials else 0;
      tracks[e.deviceid := Track(e.content, if PlanOf(hash, w, e).mode.Full? then 0 else partials + 1)]
  }

  ghost function Tracks(hash: Hash, w: World, events: seq<Event>): map<string, Track>
    requires forall e | e in events :: ValidEvent(e, |w.views|)
  {
    if events == [] then map[]
    else
      var before := events[..|events| - 1];
      NextTracks(hash, Execute(hash, w, before), Tracks(hash, w, before), events[|events| - 1])
  }

  /** The devices and documents of a run: no shared state file, no checksum collision. */
  ghost predicate FaithfulRun(hash: Hash, events: seq<Event>) {
    && (forall e, f | e in events && f in events && Sanitize(e.deviceid) == Sanitize(f.deviceid) ::
          e.deviceid == f.deviceid)
    && InjectiveOn(hash, iset e, k | e in events && e.Submission? && k in e.content :: e.content[k])
  }

  /** A run from the start: no state files and empty views on `servers` servers. */
  ghost predicate CleanRun(hash: Hash, servers: nat, events: seq<Event>) {
    && (forall e | e in events :: ValidEvent(e, servers) && Clean(e, servers))
    && FaithfulRun(hash, events)
  }

  function Start(servers: nat): (w: World)
    ensures |w.views| == servers
  {
    World(map[], seq(servers, _ => map[]))
  }

  /** What holds of device `d` after a run. */
  ghost predicate InStep(hash: Hash, w: World, tracks: map<string, Track>, d: string) {
    && (d in tracks ==> forall s | 0 <= s < |w.views| :: Agrees(ViewOf(w.views[s], d), tracks[d].content))
    && (Sanitize(d) in w.store ==>
          d in tracks && w.store[Sanitize(d)] == State(Checksums(hash, tracks[d].content), tracks[d].partials))
  }

  lemma {:induction false} TracksComeFromRun(hash: Hash, w: World, events: seq<Event>, d: string)
    requires forall e | e in events :: ValidEvent(e, |w.views|)
    requires d in Tracks(hash, w, events)
    ensures exists e | e in events ::
      e.Submission? && e.deviceid == d && e.content == Tracks(hash, w, events)[d].content
  {
    var before, e := events[..|events| - 1], events[|events| - 1];
    if !(Accepted(e, |w.views|) && e.deviceid == d) {
      TracksComeFromRun(hash, w, before, d);
      var f :| f in before && f.Submission? && f.deviceid == d && f.content == Tracks(hash, w, before)[d].content;
      assert f in events;
    }
  }

  /** One accepted submission: every view agrees with the new content. */
  lemma AcceptedStep(hash: Hash, w: World, e: Event, tracks: map<string, Track>, s: nat)
    requires s < |w.views| && ValidEvent(e, |w.views|) && Accepted(e, |w.views|)
    requires InStep(hash, w, tracks, e.deviceid)
    requires e.deviceid in tracks ==> InjectiveOn(hash, Docs(tracks[e.deviceid].content) + Docs(e.content))
    ensures var view := ViewOf(Next(hash, w, e).views[s], e.deviceid);
      && Agrees(view, e.content)
      && (PlanOf(hash, w, e).mode.Full? ==> view == e.content)
  {
    var d := e.deviceid;
    var view := ViewOf(w.views[s], d);
    var plan := PlanOf(hash, w, e);
    assert ViewOf(Next(hash, w, e).views[s], d) == Merge(view, plan.content);
    if plan.mode.Partial? {
      var was := tracks[d].content;
      StepAgreesIff(hash, was, e.content, view, tracks[d].partials, e.postpone);
      forall k | k in was && k in e.content ensures was[k] in Docs(was) && e.content[k] in Docs(e.content) {}
    }
  }

  lemma DocsAreInjective(hash: Hash, servers: nat, events: seq<Event>, n: nat, d: string)
    requires CleanRun(hash, servers, events) && n < |events| && events[n].Submission?
    requires forall e | e in events[..n] :: e in events
    requires d in Tracks(hash, Start(servers), events[..n])
    ensures InjectiveOn(hash, Docs(Tracks(hash, Start(servers), events[..n])[d].content) + Docs(events[n].content))
  {
    TracksComeFromRun(hash, Start(servers), events[..n], d);
    var f :| f in events[..n] && f.Submission? && f.deviceid == d
      && f.content == Tracks(hash, Start(servers), events[..n])[d].content;
    var all := iset e, k | e in events && e.Submission? && k in e.content :: e.content[k];
    forall x | x in Docs(f.content) + Docs(events[n].content) ensures x in all {
      if x in Docs(f.content) {
        var k :| k in f.content && f.content[k] == x;
      } else {
        var k :| k in events[n].content && events[n].content[k] == x;
      }
    }
  }

  /** A step of another device, or one that reaches no server, changes nothing for `d`. */
  lemma OtherStep(hash: Hash, w: World, tracks: map<string, Track>, e: Event, d: string)
    requires ValidEvent(e, |w.views|) && Clean(e, |w.views|) && !(Accepted(e, |w.views|) && e.deviceid == d)
    requires Sanitize(e.deviceid) == Sanitize(d) ==> e.deviceid == d
    requires InStep(hash, w, tracks, d)
    ensures InStep(hash, Next(hash, w, e), NextTracks(hash, w, tracks, e), d)
  {
    forall s | 0 <= s < |w.views| ensures ViewOf(Next(hash, w, e).views[s], d) == ViewOf(w.views[s], d) {}
  }

  lemma OwnStep(hash: Hash, w: World, tracks: map<string, Track>, e: Event)
    requires ValidEvent(e, |w.views|) && Accepted(e, |w.views|)
    requires InStep(hash, w, tracks, e.deviceid)
    requires e.deviceid in tracks ==> InjectiveOn(hash, Docs(tracks[e.deviceid].content) + Docs(e.content))
    ensures InStep(hash, Next(hash, w, e), NextTracks(hash, w, tracks, e), e.deviceid)
  {
    forall s: nat | s < |w.views| ensures Agrees(ViewOf(Next(hash, w, e).views[s], e.deviceid), e.content) {
      AcceptedStep(hash, w, e, tracks, s);
    }
  }

  /** Every clean run keeps the servers, the saved state and the accepted contents in step. */
  lemma {:induction false} RunStaysInStep(hash: Hash, servers: nat, events: seq<Event>, n: nat, d: string)
    requires CleanRun(hash, servers, events) && n <= |events|
    requires exists f | f in events :: f.deviceid == d
    ensures InStep(hash, Execute(hash, Start(servers), events[..n]), Tracks(hash, Start(servers), events[..n]), d)
    decreases n
  {
    if n > 0 {
      var before, e := events[..n - 1], events[n - 1];
      assert events[..n][..n - 1] == before && events[..n][n - 1] == e && e in events;
      RunStaysInStep(hash, servers, events, n - 1, d);
      var w := Execute(hash, Start(servers), before);
      var tracks := Tracks(hash, Start(servers), before);
      var f :| f in events && f.deviceid == d;
      if Accepted(e, servers) && e.deviceid == d {
        if d in tracks { DocsAreInjective(hash, servers, events, n - 1, d); }
        OwnStep(hash, w, tracks, e);
      } else {
        OtherStep(hash, w, tracks, e, d);
      }
    }
  }

  /**
   * Delta agreement: right after an accepted submission every server agrees with
   * the content on each of its sections, holds exactly the content if it was full,
   * and the saved checksums are those of the content.
   */
  lemma AgreementAfterSubmission(hash: Hash, servers: nat, events: seq<Event>, n: nat)
    requires CleanRun(hash, servers, events) && n < |events| && Accepted(events[n], servers)
    ensures var e, w := events[n], Execute(hash, Start(servers), events[..n + 1]);
      && (forall s | 0 <= s < servers ::
            && Agrees(ViewOf(w.views[s], e.deviceid), e.content)
            && (PlanOf(hash, Execute(hash, Start(servers), events[..n]), e).mode.Full? ==>
                  ViewOf(w.views[s], e.deviceid) == e.content))
      && Sanitize(e.deviceid) in w.store
      && w.store[Sanitize(e.deviceid)].checksums == Checksums(hash, e.content)
  {
    var e := events[n];
    assert events[..n + 1][..n] == events[..n] && events[..n + 1][n] == e && e in events;
    RunStaysInStep(hash, servers, events, n, e.deviceid);
    var w := Execute(hash, Start(servers), events[..n]);
    var tracks := Tracks(hash, Start(servers), events[..n]);
    if e.deviceid in tracks {
      DocsAreInjective(hash, servers, events, n, e.deviceid);
    }
    forall s: nat | s < servers
      ensures Agrees(ViewOf(Next(hash, w, e).views[s], e.deviceid), e.content)
      ensures PlanOf(hash, w, e).mode.Full? ==> ViewOf(Next(hash, w, e).views[s], e.deviceid) == e.content
    {
      AcceptedStep(hash, w, e, tracks, s);
    }
  }

  /**
   * When the agreement is exact: a server holds just the sections of an accepted
   * content if the submission was full or none of its sections has vanished.
   */
  lemma ExactAfterSubmission(hash: Hash, servers: nat, events: seq<Event>, n: nat, s: nat)
    requires CleanRun(hash, servers, events) && n < |events| && Accepted(events[n], servers) && s < servers
    ensures var e, w := events[n], Execute(hash, Start(servers), events[..n]);
      ViewOf(Execute(hash, Start(servers), events[..n + 1]).views[s], e.deviceid) == e.content <==>
        PlanOf(hash, w, e).mode.Full? || ViewOf(w.views[s], e.deviceid).Keys <= e.content.Keys
  {
    var e, before := events[n], events[..n];
    assert events[..n + 1][..n] == before && events[..n + 1][n] == e && e in events;
    var w := Execute(hash, Start(servers), before);
    AgreementAfterSubmission(hash, servers, events, n);
    ExactlyIff(hash, StateOf(w, e.deviceid), ViewOf(w.views[s], e.deviceid), e.content, e.postpone);
  }

  // ---- Any run: torn deliveries, collisions, shared state files ---------------------

  ghost predicate ValidRun(servers: nat, events: seq<Event>) {
    forall e | e in events :: ValidEvent(e, servers)
  }

  /** The content whose checksums stand in the state file `stem`, if there is such a file. */
  function LastSaved(servers: nat, events: seq<Event>, stem: string): Option<Content> {
    if events == [] then None
    else
      var e, before := events[|events| - 1], events[..|events| - 1];
      if Sanitize(e.deviceid) != stem then LastSaved(servers, before, stem)
      else if e.StateLost? then None
      else if Accepted(e, servers) then Some(e.content)
      else LastSaved(servers, before, stem)
  }

  /** The value of section `k` in the newest request of `d` that reached server `s` and was full or carried `k`. */
  ghost function LastSent(hash: Hash, servers: nat, events: seq<Event>, s: nat, d: string, k: string): Option<Doc>
    requires ValidRun(servers, events)
  {
    if events == [] then None
    else
      var e, before := events[|events| - 1], events[..|events| - 1];
      if !e.Submission? || e.deviceid != d || e.delivery.accepted <= s then LastSent(hash, servers, before, s, d, k)
      else
        var plan := PlanOf(hash, Execute(hash, Start(servers), before), e);
        if plan.mode.Partial? && k !in plan.changed then LastSent(hash, servers, before, s, d, k)
        else if k in e.content then Some(e.content[k])
        else None
  }

  lemma {:induction false} SavedIsLast(hash: Hash, servers: nat, events: seq<Event>, d: string)
    requires ValidRun(servers, events)
    ensures var state := StateOf(Execute(hash, Start(servers), events), d);
      var saved := LastSaved(servers, events, Sanitize(d));
      if saved.None? then state.None? else state.Some? && state.value.checksums == Checksums(hash, saved.value)
  {
    if events != [] { SavedIsLast(hash, servers, events[..|events| - 1], d); }
  }

  lemma {:induction false} ViewIsLastSent(
    hash: Hash, servers: nat, events: seq<Event>, s: nat, d: string, k: string)
    requires ValidRun(servers, events) && s < servers && Tracked(k)
    ensures var view := ViewOf(Execute(hash, Start(servers), events).views[s], d);
      LastSent(hash, servers, events, s, d, k) == if k in view then Some(view[k]) else None
  {
    if events != [] {
      var e, before := events[|events| - 1], events[..|events| - 1];
      ViewIsLastSent(hash, servers, before, s, d, k);
      if e.Submission? && e.deviceid == d && s < e.delivery.accepted {
        var w := Execute(hash, Start(servers), before);
        var plan := PlanOf(hash, w, e);
        if plan.mode.Partial? { assert k in plan.content <==> k in plan.changed; }
      }
    }
  }

  /**
   * Delta agreement in any run: a server that gets a request agrees with the content
   * exactly if the request was full, or each section whose checksum is still that of
   * the content last saved under this file was last sent to this server, for this
   * device, with the value it has now.
   */
  lemma AgreementIff(hash: Hash, servers: nat, events: seq<Event>, n: nat, s: nat)
    requires ValidRun(servers, events) && n < |events|
    requires events[n].Submission? && s < events[n].delivery.accepted
    ensures ValidRun(servers, events[..n]) && s < servers
    ensures var e, before := events[n], events[..n];
      var saved := LastSaved(servers, before, Sanitize(e.deviceid));
      Agrees(ViewOf(Execute(hash, Start(servers), events[..n + 1]).views[s], e.deviceid), e.content) <==>
        || PlanOf(hash, Execute(hash, Start(servers), before), e).mode.Full?
        || (saved.Some? && forall k | Resembles(hash, saved.value, e.content, k) ::
              LastSent(hash, servers, before, s, e.deviceid, k) == Some(e.content[k]))
  {
    var e, before := events[n], events[..n];
    assert events[..n + 1] == before + [e] && e in events;
    LastEvent(hash, servers, before, e);
    AgreementStep(hash, servers, before, e, s);
  }

  lemma AgreementStep(hash: Hash, servers: nat, before: seq<Event>, e: Event, s: nat)
    requires ValidRun(servers, before) && ValidEvent(e, servers) && e.Submission? && s < e.delivery.accepted
    ensures var saved := LastSaved(servers, before, Sanitize(e.deviceid));
      var w := Execute(hash, Start(servers), before);
      Agrees(ViewOf(Next(hash, w, e).views[s], e.deviceid), e.content) <==>
        || PlanOf(hash, w, e).mode.Full?
        || (saved.Some? && forall k | Resembles(hash, saved.value, e.content, k) ::
              LastSent(hash, servers, before, s, e.deviceid, k) == Some(e.content[k]))
  {
    var d, w := e.deviceid, Execute(hash, Start(servers), before);
    var saved, view, plan := LastSaved(servers, before, Sanitize(d)), ViewOf(w.views[s], d), PlanOf(hash, w, e);
    SavedIsLast(hash, servers, before, d);
    AcceptedAgreesIff(hash, StateOf(w, d), view, e.content, e.postpone);
    assert ViewOf(Next(hash, w, e).views[s], d) == Merge(view, plan.content);
    if plan.mode.Partial? {
      var state := StateOf(w, d).value;
      forall k ensures Unsent(hash, state, e.content, k) <==> Resembles(hash, saved.value, e.content, k) {}
      forall k | Resembles(hash, saved.value, e.content, k)
        ensures (k in view && view[k] == e.content[k]) <==>
                LastSent(hash, servers, before, s, d, k) == Some(e.content[k])
      {
        ViewIsLastSent(hash, servers, before, s, d, k);
      }
    }
  }

  /** A section that looks the same as the saved one. */
  ghost predicate Resembles(hash: Hash, saved: Content, now: Content, k: string) {
    Tracked(k) && k in saved && k in now && hash(saved[k]) == hash(now[k])
  }

  /** In any run a server that gets a request has the version of its content. */
  lemma VersionArrives(hash: Hash, servers: nat, events: seq<Event>, n: nat, s: nat)
    requires ValidRun(servers, events) && n < |events|
    requires events[n].Submission? && s < events[n].delivery.accepted && "versionclient" in events[n].content
    ensures s < servers
    ensures var view := ViewOf(Execute(hash, Start(servers), events[..n + 1]).views[s], events[n].deviceid);
      "versionclient" in view && view["versionclient"] == events[n].content["versionclient"]
  {
    var e, before := events[n], events[..n];
    assert events[..n + 1] == before + [e] && e in events;
    LastEvent(hash, servers, before, e);
    var w := Execute(hash, Start(servers), before);
    var plan := PlanOf(hash, w, e);
    assert ViewOf(Next(hash, w, e).views[s], e.deviceid) == Merge(ViewOf(w.views[s], e.deviceid), plan.content);
    if plan.mode.Partial? { PartialCarries(hash, StateOf(w, e.deviceid).value, e.content, e.postpone); }
  }

  // ---- Cadence --------------------------------------------------------------------

  /** In any run, the counter saved for a device with a file of its own is its number of partials since a full. */
  lemma {:induction false} PartialsAreCounted(hash: Hash, servers: nat, events: seq<Event>, d: string)
    requires ValidRun(servers, events)
    requires forall e | e in events && Sanitize(e.deviceid) == Sanitize(d) :: e.deviceid == d
    ensures var w, tracks := Execute(hash, Start(servers), events), Tracks(hash, Start(servers), events);
      Sanitize(d) in w.store ==> d in tracks && w.store[Sanitize(d)].sinceFull == tracks[d].partials
  {
    if events != [] { PartialsAreCounted(hash, servers, events[..|events| - 1], d); }
  }

  /**
   * Cadence: in any run, whatever fails or collides, a device with a state file of its
   * own never has more partials in a row than the largest bound it was run with.
   */
  lemma {:induction false} PartialsStayBounded(
    hash: Hash, servers: nat, events: seq<Event>, d: string, bound: nat)
    requires ValidRun(servers, events)
    requires forall e | e in events && Sanitize(e.deviceid) == Sanitize(d) :: e.deviceid == d
    requires forall e | e in events && e.Submission? && e.deviceid == d :: e.postpone <= bound
    ensures var tracks := Tracks(hash, Start(servers), events);
      d in tracks ==> tracks[d].partials <= bound
  {
    if events != [] {
      var before, e := events[..|events| - 1], events[|events| - 1];
      PartialsStayBounded(hash, servers, before, d, bound);
      PartialsAreCounted(hash, servers, before, d);
      assert e in events;
    }
  }

  /** Two devices taking turns with bound 1, every submission accepted. */
  function Alternation(servers: nat, first: string, second: string, rounds: seq<(Content, Content)>): seq<Event> {
    if rounds == [] then []
    else
      var last := rounds[|rounds| - 1];
      Alternation(servers, first, second, rounds[..|rounds| - 1])
      + [Submission(first, last.0, 1, Delivery(servers, true))]
      + [Submission(second, last.1, 1, Delivery(servers, true))]
  }

  /** A shared state file breaks the cadence: the second device never sends a full inventory. */
  lemma {:induction false} SharedFileStarvesFull(
    hash: Hash, servers: nat, first: string, second: string, rounds: seq<(Content, Content)>)
    requires first != second && Sanitize(first) == Sanitize(second)
    requires forall r | r in rounds :: PARTIAL_FLAG !in r.0 && PARTIAL_FLAG !in r.1
    ensures var events := Alternation(servers, first, second, rounds);
      && ValidRun(servers, events)
      && (rounds != [] ==>
            var w, tracks := Execute(hash, Start(servers), events), Tracks(hash, Start(servers), events);
            && StateOf(w, first).Some? && StateOf(w, first).value.sinceFull == 1
            && first in tracks && tracks[first].partials == 0
            && second in tracks && tracks[second].partials == |rounds|)
  {
    if rounds != [] {
      var before := rounds[..|rounds| - 1];
      var last := rounds[|rounds| - 1];
      assert last in rounds;
      SharedFileStarvesFull(hash, servers, first, second, before);
      var a := Submission(first, last.0, 1, Delivery(servers, true));
      var b := Submission(second, last.1, 1, Delivery(servers, true));
      var earlier := Alternation(servers, first, second, before);
      LastEvent(hash, servers, earlier, a);
      LastEvent(hash, servers, earlier + [a], b);
      SharedRound(hash, Execute(hash, Start(servers), earlier), first, second, last.0, last.1);
    }
  }

  lemma LastEvent(hash: Hash, servers: nat, events: seq<Event>, e: Event)
    requires ValidRun(servers, events) && ValidEvent(e, servers)
    ensures ValidRun(servers, events + [e])
    ensures var w, tracks := Execute(hash, Start(servers), events), Tracks(hash, Start(servers), events);
      && Execute(hash, Start(servers), events + [e]) == Next(hash, w, e)
      && Tracks(hash, Start(servers), events + [e]) == NextTracks(hash, w, tracks, e)
  {
    var all := events + [e];
    assert all[..|all| - 1] == events && all[|all| - 1] == e;
  }

  lemma SharedRound(hash: Hash, w: World, first: string, second: string, x: Content, y: Content)
    requires first != second && Sanitize(first) == Sanitize(second) && PARTIAL_FLAG !in x && PARTIAL_FLAG !in y
    requires StateOf(w, first).Some? ==> StateOf(w, first).value.sinceFull == 1
    ensures var a := Submission(first, x, 1, Delivery(|w.views|, true));
      var b := Submission(second, y, 1, Delivery(|w.views|, true));
      && PlanOf(hash, w, a).mode.Full? && PlanOf(hash, Next(hash, w, a), b).mode.Partial?
      && StateOf(Next(hash, Next(hash, w, a), b), first).Some?
      && StateOf(Next(hash, Next(hash, w, a), b), first).value.sinceFull == 1
  {
  }

  /** A run of some devices, each submission with a bound of at most `bound`. */
  ghost predicate RunOf(devices: set<string>, bound: nat, servers: nat, events: seq<Event>) {
    && ValidRun(servers, events)
    && forall e | e in events :: e.deviceid in devices && (e.Submission? ==> e.postpone <= bound)
  }

  ghost predicate PartialsWithin(hash: Hash, servers: nat, events: seq<Event>, bound: nat)
    requires ValidRun(servers, events)
  {
    var tracks := Tracks(hash, Start(servers), events);
    forall d | d in tracks :: tracks[d].partials <= bound
  }

  ghost predicate OwnFiles(devices: set<string>) {
    forall a, b | a in devices && b in devices && Sanitize(a) == Sanitize(b) :: a == b
  }

  /** The bound on partials in a row holds in all runs of some devices exactly if none of them share a state file. */
  lemma CadenceIff(hash: Hash, servers: nat, devices: set<string>, bound: nat)
    requires 1 <= bound <= U32_MAX
    ensures (forall events | RunOf(devices, bound, servers, events) :: PartialsWithin(hash, servers, events, bound))
       <==> OwnFiles(devices)
  {
    if OwnFiles(devices) {
      forall events | RunOf(devices, bound, servers, events) ensures PartialsWithin(hash, servers, events, bound) {
        forall d | d in Tracks(hash, Start(servers), events)
          ensures Tracks(hash, Start(servers), events)[d].partials <= bound
        {
          TracksComeFromRun(hash, Start(servers), events, d);
          PartialsStayBounded(hash, servers, events, d, bound);
        }
      }
    } else {
      var a, b :| a in devices && b in devices && Sanitize(a) == Sanitize(b) && a != b;
      var rounds := seq(bound + 1, _ => (map[], map[]));
      var events := Alternation(servers, a, b, rounds);
      SharedFileStarvesFull(hash, servers, a, b, rounds);
      AlternationIsRunOf(servers, a, b, rounds, devices, bound);
      assert !PartialsWithin(hash, servers, events, bound);
    }
  }

  lemma {:induction false} AlternationIsRunOf(
    servers: nat, first: string, second: string, rounds: seq<(Content, Content)>, devices: set<string>, bound: nat)
    requires first in devices && second in devices && 1 <= bound
    requires forall r | r in rounds :: PARTIAL_FLAG !in r.0 && PARTIAL_FLAG !in r.1
    ensures RunOf(devices, bound, servers, Alternation(servers, first, second, rounds))
  {
    if rounds != [] {
      var last := rounds[|rounds| - 1];
      assert last in rounds;
      AlternationIsRunOf(servers, first, second, rounds[..|rounds| - 1], devices, bound);
    }
  }

  // ---- Witnesses ------------------------------------------------------------------

  /** A shared state file breaks agreement: the second device's section is taken for known and never arrives. */
  lemma SharedFileBreaksAgreement(
    hash: Hash, servers: nat, s: nat, first: string, second: string, k: string, x: Doc, bound: nat)
    requires first != second && Sanitize(first) == Sanitize(second)
    requires Tracked(k) && s < servers && 1 <= bound <= U32_MAX
    ensures var w := Next(hash, Start(servers), Submission(first, map[k := x], bound, Delivery(servers, true)));
      var e := Submission(second, map[k := x], bound, Delivery(servers, true));
      && PlanOf(hash, w, e).mode.Partial?
      && k !in ViewOf(Next(hash, w, e).views[s], second)
      && !Agrees(ViewOf(Next(hash, w, e).views[s], second), e.content)
  {
    var w := Next(hash, Start(servers), Submission(first, map[k := x], bound, Delivery(servers, true)));
    var plan := PlanOf(hash, w, Submission(second, map[k := x], bound, Delivery(servers, true)));
    ChecksumOf(hash, k, x);
    assert k !in plan.changed && k !in plan.content;
  }

  lemma ChecksumOf(hash: Hash, k: string, x: Doc)
    requires Tracked(k)
    ensures Checksums(hash, map[k := x]) == map[k := hash(x)]
  {
    var sums := Checksums(hash, map[k := x]);
    assert forall key :: key in sums <==> key in map[k := x] && Tracked(key);
    assert sums.Keys == {k};
  }

  lemma FirstSection(hash: Hash, k: string, x: Doc)
    requires Tracked(k)
    ensures var plan := PlanFor(hash, map[k := x], None, 9);
      Merge(map[], plan.content) == map[k := x] && plan.state == State(Checksums(hash, map[k := x]), 0)
  {
  }

  lemma NextSection(hash: Hash, k: string, x: Doc, y: Doc, held: Doc, since: nat)
    requires Tracked(k) && since < 9
    ensures var plan := PlanFor(hash, map[k := x], Some(State(Checksums(hash, map[k := y]), since)), 9);
      && Merge(map[k := held], plan.content) == map[k := if hash(x) == hash(y) then held else x]
      && plan.state == State(Checksums(hash, map[k := x]), since + 1)
  {
    var plan := PlanFor(hash, map[k := x], Some(State(Checksums(hash, map[k := y]), since)), 9);
    ChecksumOf(hash, k, x);
    ChecksumOf(hash, k, y);
    if hash(x) == hash(y) {
      assert k !in plan.changed;
      assert plan.content - {PARTIAL_FLAG} == map[];
    } else {
      assert k in plan.changed;
      assert plan.content - {PARTIAL_FLAG} == map[k := x];
    }
  }

  /**
   * Without all-or-none delivery agreement is lost: the next accepted submission does
   * not send a section that reverted, and saves its checksum as known.
   */
  lemma PartialDeliveryBreaksAgreement(hash: Hash, d: string, k: string, a: Doc, b: Doc)
    requires Tracked(k) && hash(a) != hash(b)
    ensures var first := Submission(d, map[k := a], 9, Delivery(2, true));
      var torn := Submission(d, map[k := b], 9, Delivery(1, false));
      var w := Next(hash, Next(hash, Next(hash, Start(2), first), torn), first);
      && ViewOf(w.views[0], d) == map[k := b]
      && ViewOf(w.views[1], d) == map[k := a]
      && StateOf(w, d) == Some(State(Checksums(hash, map[k := a]), 1))
  {
    FirstSection(hash, k, a);
    NextSection(hash, k, a, a, b, 0);
    NextSection(hash, k, a, a, a, 0);
    NextSection(hash, k, b, a, a, 0);
  }
}
