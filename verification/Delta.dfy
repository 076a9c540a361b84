/**
 * Planning of a delta inventory (crates/glpi-core/src/protocol/delta.rs): which
 * sections a submission carries, and the state saved after it.
 *
 * A section is its serialized JSON text; the checksum is a parameter.
 */
module Delta {
  import opened Common

  type Doc = string
  type Content = map<string, Doc>
  type Hash = Doc -> nat

  const VERSION_CLIENT := "versionclient"
  const PARTIAL_FLAG := "partial"
  const TRUE_DOC: Doc := "true"

  datatype State = State(checksums: map<string, nat>, sinceFull: nat)

  datatype Mode = Full | Partial

  datatype Plan = Plan(mode: Mode, content: Content, changed: set<string>, state: State)

  predicate Tracked(key: string) {
    key != VERSION_CLIENT && key != PARTIAL_FLAG
  }

  function Checksums(hash: Hash, content: Content): map<string, nat> {
    map k | k in content && Tracked(k) :: hash(content[k])
  }

  /** The loop of `section_checksums`, over the keys in any order. */
  method SectionChecksums(hash: Hash, content: Content) returns (checksums: map<string, nat>)
    ensures checksums == Checksums(hash, content)
  {
    checksums := map[];
    var keys := content.Keys;
    while keys != {}
      invariant keys <= content.Keys
      invariant checksums == map k | k in content && k !in keys && Tracked(k) :: hash(content[k])
      decreases keys
    {
      var key :| key in keys;
      keys := keys - {key};
      if key == VERSION_CLIENT || key == PARTIAL_FLAG {
        continue;
      }
      checksums := checksums[key := hash(content[key])];
    }
  }

  function PartialContent(full: Content, changed: set<string>): Content {
    (map k | k in full && (k in changed || k == VERSION_CLIENT) :: full[k])[PARTIAL_FLAG := TRUE_DOC]
  }

  /** The loop of `partial_content`, over the changed keys in list order. */
  method BuildPartial(full: Content, changed: seq<string>) returns (request: Content)
    ensures request == PartialContent(full, set k | k in changed)
    ensures forall k :: k in request <==> k == "partial" || (k in full && (k in changed || k == "versionclient"))
    ensures forall k | k in request :: request[k] == if k == "partial" then "true" else full[k]
  {
    request := map[];
    if VERSION_CLIENT in full {
      request := request[VERSION_CLIENT := full[VERSION_CLIENT]];
    }
    for i := 0 to |changed|
      invariant request == map k | k in full && (k in changed[..i] || k == VERSION_CLIENT) :: full[k]
    {
      var key := changed[i];
      assert changed[..i + 1] == changed[..i] + [key];
      if key in full {
        request := request[key := full[key]];
      }
    }
    assert changed[..|changed|] == changed;
    request := request[PARTIAL_FLAG := TRUE_DOC];
  }

  predicate ForceFull(previous: Option<State>, maxPostpone: nat) {
    maxPostpone == 0 || previous.None? || previous.value.sinceFull >= maxPostpone
  }

  /** `plan`: the counter increment stays within `u32` because it is below the bound. */
  function PlanFor(hash: Hash, content: Content, previous: Option<State>, maxPostpone: nat): (plan: Plan)
    requires maxPostpone <= U32_MAX
    ensures plan.mode.Full? ==> plan.state.sinceFull == 0 && plan.content == content
    ensures plan.mode.Partial? ==> previous.Some? && plan.state.sinceFull == previous.value.sinceFull + 1
    ensures plan.state.sinceFull <= maxPostpone <= U32_MAX
    ensures plan.state.checksums == Checksums(hash, content)
  {
    var current := Checksums(hash, content);
    if ForceFull(previous, maxPostpone) then
      Plan(Full, content, current.Keys, State(current, 0))
    else
      var before := previous.value.checksums;
      var changed := set k | k in current && (k !in before || before[k] != current[k]);
      Plan(Partial, PartialContent(content, changed), changed, State(current, previous.value.sinceFull + 1))
  }

  /** What a server holds after a request: a partial overlays the old view, a full one replaces it. */
  function Merge(view: Content, request: Content): Content {
    if PARTIAL_FLAG in request && request[PARTIAL_FLAG] == TRUE_DOC
    then view + (request - {PARTIAL_FLAG})
    else request
  }

  /** The view holds every section of `content`, and its version, with its value. */
  ghost predicate Agrees(view: Content, content: Content) {
    forall k | k in content :: k in view && view[k] == content[k]
  }

  ghost predicate InjectiveOn(hash: Hash, docs: iset<Doc>) {
    forall a, b | a in docs && b in docs && hash(a) == hash(b) :: a == b
  }

  ghost function Docs(content: Content): iset<Doc> {
    iset k | k in content :: content[k]
  }

  /** A section whose value changed from `was` to `now` under an equal checksum. */
  ghost predicate HiddenChange(hash: Hash, was: Content, now: Content, k: string) {
    k in was && k in now && Tracked(k) && was[k] != now[k] && hash(was[k]) == hash(now[k])
  }

  /**
   * One accepted and saved step: a view that agreed with the last content agrees
   * with the new one, exactly unless a checksum collision hides a change.
   */
  lemma StepAgreesIff(hash: Hash, was: Content, now: Content, view: Content, since: nat, maxPostpone: nat)
    requires maxPostpone <= U32_MAX && PARTIAL_FLAG !in now
    requires Agrees(view, was)
    ensures var plan := PlanFor(hash, now, Some(State(Checksums(hash, was), since)), maxPostpone);
      && (plan.mode.Full? ==> Merge(view, plan.content) == now)
      && (plan.mode.Partial? ==>
            (Agrees(Merge(view, plan.content), now) <==> !exists k :: HiddenChange(hash, was, now, k)))
  {
    var plan := PlanFor(hash, now, Some(State(Checksums(hash, was), since)), maxPostpone);
    if plan.mode.Partial? {
      var after := Merge(view, plan.content);
      forall k | k in now && Tracked(k)
        ensures (k in after && after[k] == now[k]) <==> !HiddenChange(hash, was, now, k)
      {
        assert k in plan.content <==> k in plan.changed;
      }
    }
  }

  /** A tracked section that a partial leaves out: its checksum is the saved one. */
  predicate Unsent(hash: Hash, saved: State, now: Content, k: string) {
    k in now && Tracked(k) && k in saved.checksums && saved.checksums[k] == hash(now[k])
  }

  /**
   * Whatever was saved and whatever a server holds: after a request it agrees with
   * the content exactly if the request was full or the server already held every
   * section that was left out.
   */
  lemma AcceptedAgreesIff(hash: Hash, previous: Option<State>, view: Content, now: Content, maxPostpone: nat)
    requires maxPostpone <= U32_MAX && PARTIAL_FLAG !in now
    ensures var plan := PlanFor(hash, now, previous, maxPostpone);
      Agrees(Merge(view, plan.content), now) <==>
        plan.mode.Full? || forall k | Unsent(hash, previous.value, now, k) :: k in view && view[k] == now[k]
  {
    var plan := PlanFor(hash, now, previous, maxPostpone);
    if plan.mode.Partial? {
      var after := Merge(view, plan.content);
      forall k | k in now && Tracked(k)
        ensures (k in after && after[k] == now[k]) <==>
                (Unsent(hash, previous.value, now, k) ==> k in view && view[k] == now[k])
      {
        assert k in plan.content <==> k in plan.changed;
      }
    }
  }

  /**
   * A partial never removes a section: after a request the server holds exactly the
   * content if it agrees with it and, unless the request was full, nothing it held
   * before has vanished.
   */
  lemma ExactlyIff(hash: Hash, previous: Option<State>, view: Content, now: Content, maxPostpone: nat)
    requires maxPostpone <= U32_MAX && PARTIAL_FLAG !in now
    ensures var plan := PlanFor(hash, now, previous, maxPostpone);
      var after := Merge(view, plan.content);
      after == now <==> Agrees(after, now) && (plan.mode.Full? || view.Keys <= now.Keys)
  {
    var plan := PlanFor(hash, now, previous, maxPostpone);
    var after := Merge(view, plan.content);
    if plan.mode.Partial? {
      assert after.Keys == view.Keys + (plan.content.Keys - {PARTIAL_FLAG});
      assert plan.content.Keys - {PARTIAL_FLAG} <= now.Keys;
      if Agrees(after, now) && view.Keys <= now.Keys { assert after.Keys == now.Keys; }
    }
  }

  /**
   * What a partial carries: the flag, which is true, the version of the client if the
   * content has one, and each section that is new or whose checksum differs from the
   * saved one; all but the flag with the values of the content.
   */
  lemma PartialCarries(hash: Hash, saved: State, now: Content, maxPostpone: nat)
    requires maxPostpone <= U32_MAX && PARTIAL_FLAG !in now && saved.sinceFull < maxPostpone
    ensures var plan := PlanFor(hash, now, Some(saved), maxPostpone);
      && plan.mode.Partial?
      && (forall k :: k in plan.content <==>
            || k == "partial"
            || (k == "versionclient" && k in now)
            || (k in now && (k !in saved.checksums || saved.checksums[k] != hash(now[k]))))
      && plan.content["partial"] == "true"
      && (forall k | k in plan.content && k != "partial" :: plan.content[k] == now[k])
      && (forall k | k in now :: k in plan.state.checksums <==> k != "versionclient")
      && (forall k | k in plan.state.checksums :: k in now && plan.state.checksums[k] == hash(now[k]))
  {
  }

  /**
   * A server that got `torn` in a run that failed elsewhere and saved nothing: after
   * the next accepted submission it agrees with `next` exactly if that was full, or
   * each section that is again as saved was the same in `torn`, or was left alone
   * by a partial without it.
   */
  lemma TornAgreesIff(
    hash: Hash, saved: Content, torn: Content, next: Content, view: Content, since: nat, tornBound: nat, bound: nat)
    requires tornBound <= U32_MAX && bound <= U32_MAX && PARTIAL_FLAG !in torn && PARTIAL_FLAG !in next
    requires Agrees(view, saved) && InjectiveOn(hash, Docs(saved) + Docs(torn) + Docs(next))
    ensures var state := State(Checksums(hash, saved), since);
      var first, second := PlanFor(hash, torn, Some(state), tornBound), PlanFor(hash, next, Some(state), bound);
      Agrees(Merge(Merge(view, first.content), second.content), next) <==>
        second.mode.Full? || forall k | Tracked(k) && k in saved && k in next && saved[k] == next[k] ::
          if k in torn then torn[k] == next[k] else first.mode.Partial?
  {
    var state := State(Checksums(hash, saved), since);
    var first := PlanFor(hash, torn, Some(state), tornBound);
    var between := Merge(view, first.content);
    AcceptedAgreesIff(hash, Some(state), between, next, bound);
    forall k | Tracked(k) && k in saved && k in next
      ensures Unsent(hash, state, next, k) <==> saved[k] == next[k]
      ensures saved[k] == next[k] ==>
        ((k in between && between[k] == next[k]) <==> if k in torn then torn[k] == next[k] else first.mode.Partial?)
    {
      assert saved[k] in Docs(saved) && next[k] in Docs(next);
      if k in torn { assert torn[k] in Docs(torn); }
      if first.mode.Partial? { assert k in first.content <==> k in first.changed; }
    }
  }

  /**
   * Two devices that share a state file, `other` being the content the file was saved
   * for: this device's server agrees with its content exactly if the submission was
   * full or the server already held every section that is the same on both devices.
   */
  lemma SharedFileAgreesIff(hash: Hash, other: Content, held: Content, now: Content, since: nat, maxPostpone: nat)
    requires maxPostpone <= U32_MAX && PARTIAL_FLAG !in now
    requires InjectiveOn(hash, Docs(other) + Docs(now))
    ensures var plan := PlanFor(hash, now, Some(State(Checksums(hash, other), since)), maxPostpone);
      && (Agrees(Merge(held, plan.content), now) <==>
            plan.mode.Full? || forall k | Tracked(k) && k in other && k in now && other[k] == now[k] ::
              k in held && held[k] == now[k])
      && (held == map[] ==>
            (Agrees(Merge(held, plan.content), now) <==>
               plan.mode.Full? || forall k | Tracked(k) && k in other && k in now :: other[k] != now[k]))
  {
    var state := State(Checksums(hash, other), since);
    AcceptedAgreesIff(hash, Some(state), held, now, maxPostpone);
    forall k | Tracked(k) && k in other && k in now ensures Unsent(hash, state, now, k) <==> other[k] == now[k] {
      assert other[k] in Docs(other) && now[k] in Docs(now);
    }
  }

  // ---- Cadence ------------------------------------------------------------------

  /** One accepted submission of a device; `lost` says that the state file was gone before it. */
  datatype Turn = Turn(content: Content, postpone: nat, lost: bool)

  predicate ValidTurns(turns: seq<Turn>) {
    forall i | 0 <= i < |turns| :: turns[i].postpone <= U32_MAX
  }

  /** How many partials precede the next full inventory, as far as these turns go. */
  function PartialsAhead(hash: Hash, previous: Option<State>, turns: seq<Turn>): (n: nat)
    requires ValidTurns(turns)
    ensures n <= |turns|
    decreases |turns|
  {
    if turns == [] then 0
    else
      var plan := PlanFor(hash, turns[0].content, if turns[0].lost then None else previous, turns[0].postpone);
      if plan.mode.Full? then 0 else 1 + PartialsAhead(hash, Some(plan.state), turns[1..])
  }

  /** Nothing is saved, or at least as many partials are counted. */
  predicate NoFresher(a: Option<State>, b: Option<State>) {
    a.None? || (b.Some? && a.value.sinceFull >= b.value.sinceFull)
  }

  /**
   * Lower bounds and lost state files only bring the next full inventory forward,
   * whatever contents are collected.
   */
  lemma {:induction false} FullComesForward(
    hash: Hash, a: Option<State>, b: Option<State>, early: seq<Turn>, late: seq<Turn>)
    requires ValidTurns(early) && ValidTurns(late) && |early| == |late| && NoFresher(a, b)
    requires forall i | 0 <= i < |early| ::
      early[i].postpone <= late[i].postpone && (late[i].lost ==> early[i].lost)
    ensures PartialsAhead(hash, a, early) <= PartialsAhead(hash, b, late)
    decreases |early|
  {
    if early != [] {
      var p := PlanFor(hash, early[0].content, if early[0].lost then None else a, early[0].postpone);
      var q := PlanFor(hash, late[0].content, if late[0].lost then None else b, late[0].postpone);
      assert q.mode.Full? ==> p.mode.Full?;
      if p.mode.Partial? { FullComesForward(hash, Some(p.state), Some(q.state), early[1..], late[1..]); }
    }
  }

  /** With one bound and no loss the next full inventory comes after exactly the partials that are left. */
  lemma {:induction false} FullIsDue(hash: Hash, saved: State, turns: seq<Turn>, bound: nat)
    requires bound <= U32_MAX && forall i | 0 <= i < |turns| :: turns[i].postpone == bound && !turns[i].lost
    ensures var left := if saved.sinceFull < bound then bound - saved.sinceFull else 0;
      PartialsAhead(hash, Some(saved), turns) == if left < |turns| then left else |turns|
    decreases |turns|
  {
    if turns != [] {
      FullIsDue(hash, PlanFor(hash, turns[0].content, Some(saved), bound).state, turns[1..], bound);
    }
  }

  // ---- State files ------------------------------------------------------------

  predicate Safe(c: char) {
    'a' <= c <= 'z' || 'A' <= c <= 'Z' || '0' <= c <= '9' || c == '-' || c == '_' || c == '.'
  }

  function Sanitize(deviceid: string): (stem: string)
    ensures |stem| == |deviceid|
    ensures forall i | 0 <= i < |stem| :: Safe(stem[i]) && stem[i] == SafeChar(deviceid[i])
  {
    seq(|deviceid|, i requires 0 <= i < |deviceid| => SafeChar(deviceid[i]))
  }

  function SafeChar(c: char): char {
    if Safe(c) then c else '_'
  }

  /** Two characters end up alike: the same, or both an underscore after the rewrite. */
  predicate Confused(c: char, d: char) {
    c == d || ((c == '_' || !Safe(c)) && (d == '_' || !Safe(d)))
  }

  /** Two devices share a state file exactly when they differ only where both are rewritten. */
  lemma SameFileIff(a: string, b: string)
    ensures Sanitize(a) == Sanitize(b) <==> |a| == |b| && forall i | 0 <= i < |a| :: Confused(a[i], b[i])
  {
    var x, y := Sanitize(a), Sanitize(b);
    if x == y {
      forall i | 0 <= i < |a| ensures Confused(a[i], b[i]) {
        assert x[i] == y[i];
      }
    } else if |a| == |b| {
      var i :| 0 <= i < |x| && x[i] != y[i];
      assert !Confused(a[i], b[i]);
    }
  }

  /** The code points a stem may have: digits, ASCII letters, `-`, `.` and `_`. */
  predicate StemCode(n: nat) {
    48 <= n <= 57 || 65 <= n <= 90 || 97 <= n <= 122 || n == 45 || n == 46 || n == 95
  }

  /**
   * The stem of a device id has its length, keeps these characters in place, and has
   * an underscore for every other one: it names no other directory.
   */
  lemma StemIs(deviceid: string)
    ensures var stem := Sanitize(deviceid);
      && |stem| == |deviceid| && '/' !in stem && '\\' !in stem
      && forall i | 0 <= i < |stem| ::
           stem[i] == if StemCode(deviceid[i] as int) then deviceid[i] else '_'
  {
  }
}
