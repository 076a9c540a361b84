/**
 * The GETNEXT walk of the SNMP client (crates/glpi-discovery/src/snmp/client.rs)
 * and the in-memory agent it is compared with
 * (crates/glpi-discovery/src/snmp/walk.rs).
 */
module SnmpWalk {
  import opened Common
  import opened Oid

  datatype Value = NoSuchObject | NoSuchInstance | EndOfMibView | Data(text: string)

  predicate IsException(v: Value) {
    v.NoSuchObject? || v.NoSuchInstance? || v.EndOfMibView?
  }

  datatype Pair = Pair(oid: Oid, value: Value)

  /** What a response holds: a varbind, nothing (an error status counts as nothing), or a bad identifier. */
  datatype Reply = Varbind(pair: Pair) | NoVarbind | BadOid

  /** One attempt on the wire. */
  datatype Attempt = Timeout | Fault | Response(reply: Reply)

  datatype Answer = Next(pair: Pair) | End | Error

  /** What a response comes to: its pair, the end of the walk, or an identifier that cannot be read. */
  function AnswerOf(reply: Reply): Answer {
    match reply case Varbind(pair) => Next(pair) case NoVarbind => End case BadOid => Error
  }

  /** The agent and the network: what attempt `a` of request `n` for an identifier yields. */
  type Network = (nat, Oid, nat) -> Attempt

  datatype Client = Client(network: Network, retries: nat, encodable: Oid -> bool) {
    /** The first response within the attempts left from `attempt`. */
    function Query(n: nat, oid: Oid, attempt: nat): Answer
      requires attempt <= retries
      decreases retries - attempt
    {
      match network(n, oid, attempt)
      case Response(Varbind(pair)) => Next(pair)
      case Response(NoVarbind) => End
      case Response(BadOid) => Error
      case _ => if attempt >= retries then Error else Query(n, oid, attempt + 1)
    }

    function Answered(n: nat, oid: Oid): Answer {
      if encodable(oid) then Query(n, oid, 0) else Error
    }

    /** Attempt `a` is the first that brings a response. */
    ghost predicate Decisive(n: nat, oid: Oid, a: nat) {
      network(n, oid, a).Response? && forall b: nat | b < a :: !network(n, oid, b).Response?
    }

    /** The first response within the allowed attempts decides, the last attempt included. */
    lemma {:induction false} FirstResponseDecides(n: nat, oid: Oid, a: nat, from: nat)
      requires from <= a <= retries && Decisive(n, oid, a)
      ensures Query(n, oid, from) == AnswerOf(network(n, oid, a).reply)
      decreases a - from
    {
      if from < a { FirstResponseDecides(n, oid, a, from + 1); }
    }

    lemma {:induction false} SilenceFails(n: nat, oid: Oid, from: nat)
      requires from <= retries && forall a: nat | a <= retries :: !network(n, oid, a).Response?
      ensures Query(n, oid, from) == Error
      decreases retries - from
    {
      if from < retries { SilenceFails(n, oid, from + 1); }
    }

    /** `query_next`: retries on a timeout or a fault until the attempts are used up. */
    method QueryNext(n: nat, oid: Oid) returns (answer: Answer)
      ensures answer == Query(n, oid, 0)
      ensures forall a: nat | a <= retries && Decisive(n, oid, a) :: answer == AnswerOf(network(n, oid, a).reply)
      ensures (forall a: nat | a <= retries :: !network(n, oid, a).Response?) ==> answer == Error
    {
      forall a: nat | a <= retries && Decisive(n, oid, a)
        ensures Query(n, oid, 0) == AnswerOf(network(n, oid, a).reply)
      {
        FirstResponseDecides(n, oid, a, 0);
      }
      if forall a: nat | a <= retries :: !network(n, oid, a).Response? { SilenceFails(n, oid, 0); }
      var attempt := 0;
      while true
        invariant 0 <= attempt <= retries
        invariant Query(n, oid, 0) == Query(n, oid, attempt)
        decreases retries - attempt
      {
        var outcome := network(n, oid, attempt);
        match outcome {
          case Response(Varbind(pair)) => return Next(pair);
          case Response(NoVarbind) => return End;
          case Response(BadOid) => return Error;
          case _ =>
            if attempt >= retries {
              return Error;
            }
            attempt := attempt + 1;
        }
      }
    }

    /** The walk goes on with an answer that is data, under the root and further on. */
    predicate Continues(root: Oid, current: Oid, answer: Answer) {
      && answer.Next? && !IsException(answer.pair.value)
      && root <= answer.pair.oid && Less(current, answer.pair.oid)
    }

    /** The identifier asked for after the first `i` pairs. */
    function Asked(root: Oid, pairs: seq<Pair>, i: nat): Oid
      requires i <= |pairs|
    {
      if i == 0 then root else pairs[i - 1].oid
    }

    /** Pair `i` is an answer that continues the walk, to the request for the pair before it. */
    ghost predicate Link(root: Oid, pairs: seq<Pair>, i: nat)
      requires i < |pairs|
    {
      var asked := Asked(root, pairs, i);
      Answered(i, asked) == Next(pairs[i]) && Continues(root, asked, Next(pairs[i]))
    }

    ghost predicate Chain(root: Oid, pairs: seq<Pair>) {
      forall i | 0 <= i < |pairs| :: Link(root, pairs, i)
    }

    /** A complete walk: a chain whose next answer ends it. */
    ghost predicate Complete(root: Oid, pairs: seq<Pair>) {
      var last := Answered(|pairs|, Asked(root, pairs, |pairs|));
      Chain(root, pairs) && !last.Error? && !Continues(root, Asked(root, pairs, |pairs|), last)
    }

    /** No answer carries an identifier of more than `arcs` arcs. */
    ghost predicate Bounded(arcs: nat) {
      forall n, oid | Answered(n, oid).Next? :: |Answered(n, oid).pair.oid| <= arcs
    }

    /** `walk`: terminates because each step climbs in a finite order. */
    method Walk(root: Oid, ghost arcs: nat) returns (r: Result<seq<Pair>, ()>)
      requires Bounded(arcs)
      ensures r.Ok? ==> Complete(root, r.value) && Ascending(root, r.value)
      ensures r.Err? ==> exists pairs :: Chain(root, pairs) && Answered(|pairs|, Asked(root, pairs, |pairs|)).Error?
    {
      var results: seq<Pair> := [];
      var current := root;
      ghost var limit := if arcs < |root| then |root| else arcs;
      while true
        invariant Chain(root, results) && current == Asked(root, results, |results|)
        invariant |current| <= limit
        decreases Power(limit) - Rank(current, limit)
      {
        if !encodable(current) {
          return Err(());
        }
        var answer := QueryNext(|results|, current);
        assert answer == Answered(|results|, current);
        if answer.Error? {
          return Err(());
        }
        if answer.End? {
          break;
        }
        var next := answer.pair;
        if IsException(next.value) || !(root <= next.oid) || !Less(current, next.oid) {
          break;
        }
        RankIsMonotone(current, next.oid, limit);
        RankIsBounded(next.oid, limit);
        ChainGrows(root, results, next);
        current := next.oid;
        results := results + [next];
      }
      ChainAscends(root, results);
      return Ok(results);
    }

    lemma ChainGrows(root: Oid, pairs: seq<Pair>, next: Pair)
      requires Chain(root, pairs)
      requires Link(root, pairs + [next], |pairs|)
      ensures Chain(root, pairs + [next])
    {
      forall i | 0 <= i < |pairs| ensures Link(root, pairs + [next], i) {
        assert Link(root, pairs, i);
      }
    }

    lemma ChainAscends(root: Oid, pairs: seq<Pair>)
      requires Chain(root, pairs)
      ensures Ascending(root, pairs)
    {
      forall j | 0 <= j < |pairs|
        ensures root < pairs[j].oid && !IsException(pairs[j].value)
             && forall i | 0 <= i < j :: Less(pairs[i].oid, pairs[j].oid)
      {
        ChainUpTo(root, pairs, j);
      }
    }

    lemma {:induction false} ChainUpTo(root: Oid, pairs: seq<Pair>, j: nat)
      requires Chain(root, pairs) && j < |pairs|
      ensures Less(root, pairs[j].oid) && root < pairs[j].oid && !IsException(pairs[j].value)
      ensures forall i | 0 <= i < j :: Less(pairs[i].oid, pairs[j].oid)
    {
      var last := pairs[j].oid;
      assert Link(root, pairs, j);
      if j > 0 {
        var before := pairs[j - 1].oid;
        ChainUpTo(root, pairs, j - 1);
        LessIsTransitive(root, before, last);
        forall i | 0 <= i < j ensures Less(pairs[i].oid, last) {
          if i < j - 1 { LessIsTransitive(pairs[i].oid, before, last); }
        }
      }
      ProperExtension(root, last);
    }

    lemma {:induction false} SamePrefix(root: Oid, a: seq<Pair>, b: seq<Pair>, n: nat)
      requires Chain(root, a) && Chain(root, b) && n <= |a| && n <= |b|
      ensures forall i | 0 <= i < n :: a[i] == b[i]
    {
      if n > 0 {
        SamePrefix(root, a, b, n - 1);
        assert Link(root, a, n - 1) && Link(root, b, n - 1);
      }
    }

    lemma LinkContinues(root: Oid, pairs: seq<Pair>, i: nat)
      requires Chain(root, pairs) && i < |pairs|
      ensures Continues(root, Asked(root, pairs, i), Answered(i, Asked(root, pairs, i)))
    {
      assert Link(root, pairs, i);
    }

    lemma NoLongerWalk(root: Oid, a: seq<Pair>, b: seq<Pair>)
      requires Complete(root, a) && Chain(root, b)
      ensures |b| <= |a|
    {
      if |b| > |a| {
        SamePrefix(root, a, b, |a|);
        LinkContinues(root, b, |a|);
        assert false;
      }
    }

    /** The root and the identifiers of these pairs can be encoded. */
    ghost predicate Encodes(root: Oid, pairs: seq<Pair>) {
      encodable(root) && forall i | 0 <= i < |pairs| :: encodable(pairs[i].oid)
    }

    /** The same client with an encoder that refuses nothing. */
    function Unrestricted(): Client {
      Client(network, retries, _ => true)
    }

    lemma {:induction false} QueryIsSame(n: nat, oid: Oid, attempt: nat)
      requires attempt <= retries
      ensures Unrestricted().Query(n, oid, attempt) == Query(n, oid, attempt)
      decreases retries - attempt
    {
      if attempt < retries { QueryIsSame(n, oid, attempt + 1); }
    }

    /** A chain is one of the unrestricted client that asked only for what can be encoded. */
    lemma ChainIff(root: Oid, pairs: seq<Pair>)
      ensures Chain(root, pairs) <==>
        Unrestricted().Chain(root, pairs) && forall i | 0 <= i < |pairs| :: encodable(Asked(root, pairs, i))
    {
      forall i | 0 <= i < |pairs|
        ensures Link(root, pairs, i) <==> Unrestricted().Link(root, pairs, i) && encodable(Asked(root, pairs, i))
      {
        QueryIsSame(i, Asked(root, pairs, i), 0);
      }
    }

    lemma CompleteIff(root: Oid, pairs: seq<Pair>)
      ensures Complete(root, pairs) <==> Unrestricted().Complete(root, pairs) && Encodes(root, pairs)
    {
      ChainIff(root, pairs);
      QueryIsSame(|pairs|, Asked(root, pairs, |pairs|), 0);
      assert Asked(root, pairs, 0) == root;
      forall i | 0 < i <= |pairs| ensures Asked(root, pairs, i) == pairs[i - 1].oid {}
      if forall i | 0 <= i <= |pairs| :: encodable(Asked(root, pairs, i)) {
        forall i | 0 <= i < |pairs| ensures encodable(pairs[i].oid) { assert encodable(Asked(root, pairs, i + 1)); }
      }
    }

    /** There is only one complete walk. */
    lemma CompleteIsUnique(root: Oid, a: seq<Pair>, b: seq<Pair>)
      requires Complete(root, a) && Complete(root, b)
      ensures a == b
    {
      NoLongerWalk(root, a, b);
      NoLongerWalk(root, b, a);
      SamePrefix(root, a, b, |a|);
    }
  }

  /** Strictly ascending data, all of it properly below the root. */
  ghost predicate Ascending(root: Oid, pairs: seq<Pair>) {
    && (forall i | 0 <= i < |pairs| :: root < pairs[i].oid && pairs[i].value.Data?)
    && (forall i, j | 0 <= i < j < |pairs| :: Less(pairs[i].oid, pairs[j].oid))
  }

  // ---- The in-memory agent ------------------------------------------------------

  /** The entries of an ordered map, in ascending order of their keys. */
  ghost predicate Ordered(entries: seq<Pair>) {
    forall i, j | 0 <= i < j < |entries| :: Less(entries[i].oid, entries[j].oid)
  }

  datatype WalkSession = WalkSession(entries: seq<Pair>) {
    /** `get_next`: the first entry past `oid`. */
    function GetNext(oid: Oid, from: nat := 0): Option<Pair>
      requires from <= |entries|
      decreases |entries| - from
    {
      if from == |entries| then None
      else if Less(oid, entries[from].oid) then Some(entries[from])
      else GetNext(oid, from + 1)
    }

    /** `walk`: the entries whose key starts with `root`, in order. */
    function Walk(root: Oid, from: nat := 0): seq<Pair>
      requires from <= |entries|
      decreases |entries| - from
    {
      if from == |entries| then []
      else (if root <= entries[from].oid then [entries[from]] else []) + Walk(root, from + 1)
    }
  }

  function ReplyOf(session: WalkSession, oid: Oid): Reply {
    match session.GetNext(oid) case Some(pair) => Varbind(pair) case None => NoVarbind
  }

  /** Request `n` brings this reply within the allowed attempts. */
  ghost predicate Brings(c: Client, n: nat, oid: Oid, reply: Reply) {
    exists a: nat :: a <= c.retries && c.Decisive(n, oid, a) && c.network(n, oid, a) == Response(reply)
  }

  /** The client's network is this session, answering every request within the allowed attempts. */
  ghost predicate Serves(c: Client, session: WalkSession) {
    forall n, oid :: Brings(c, n, oid, ReplyOf(session, oid))
  }

  /** The client sees the session's answer to every request. */
  ghost predicate Sees(c: Client, session: WalkSession) {
    forall n, oid :: c.Answered(n, oid) == AnswerOf(ReplyOf(session, oid))
  }

  lemma UnrestrictedSees(c: Client, session: WalkSession)
    requires Serves(c, session)
    ensures Sees(c.Unrestricted(), session)
  {
    forall n, oid ensures c.Unrestricted().Answered(n, oid) == AnswerOf(ReplyOf(session, oid)) {
      ServedQuery(c, session, n, oid);
      c.QueryIsSame(n, oid, 0);
    }
  }

  lemma ServedQuery(c: Client, session: WalkSession, n: nat, oid: Oid)
    requires Serves(c, session)
    ensures c.Query(n, oid, 0) == AnswerOf(ReplyOf(session, oid))
  {
    assert Brings(c, n, oid, ReplyOf(session, oid));
    var a: nat :| a <= c.retries && c.Decisive(n, oid, a) && c.network(n, oid, a) == Response(ReplyOf(session, oid));
    c.FirstResponseDecides(n, oid, a, 0);
  }

  function WithoutRoot(root: Oid, pairs: seq<Pair>): seq<Pair> {
    if pairs == [] then []
    else (if pairs[0].oid == root then [] else [pairs[0]]) + WithoutRoot(root, pairs[1..])
  }

  /** The pairs before the first exception value. */
  function UpToException(pairs: seq<Pair>): seq<Pair> {
    if pairs == [] || IsException(pairs[0].value) then [] else [pairs[0]] + UpToException(pairs[1..])
  }

  /** The entries properly below `root` are those from `lo` up to `hi`. */
  ghost predicate Interval(session: WalkSession, root: Oid, lo: nat, hi: nat) {
    var es := session.entries;
    && lo <= hi <= |es|
    && (forall i | 0 <= i < lo :: !Less(root, es[i].oid))
    && (forall i | lo <= i < |es| :: Less(root, es[i].oid))
    && (forall i | lo <= i < hi :: root <= es[i].oid)
    && (forall i | hi <= i < |es| :: !(root <= es[i].oid))
  }

  lemma {:induction false} FirstPast(session: WalkSession, oid: Oid, from: nat) returns (at: nat)
    requires from <= |session.entries| && Ordered(session.entries)
    ensures from <= at <= |session.entries|
    ensures forall i | from <= i < at :: !Less(oid, session.entries[i].oid)
    ensures forall i | at <= i < |session.entries| :: Less(oid, session.entries[i].oid)
    decreases |session.entries| - from
  {
    at := from;
    if from < |session.entries| {
      if Less(oid, session.entries[from].oid) {
        forall i | from < i < |session.entries| ensures Less(oid, session.entries[i].oid) {
          LessIsTransitive(oid, session.entries[from].oid, session.entries[i].oid);
        }
      } else {
        at := FirstPast(session, oid, from + 1);
      }
    }
  }

  lemma SubtreeInterval(session: WalkSession, root: Oid) returns (lo: nat, hi: nat)
    requires Ordered(session.entries)
    ensures Interval(session, root, lo, hi)
  {
    var es := session.entries;
    lo := FirstPast(session, root, 0);
    hi := lo;
    while hi < |es| && root <= es[hi].oid
      invariant lo <= hi <= |es| && forall i | lo <= i < hi :: root <= es[i].oid
    {
      hi := hi + 1;
    }
    forall i | hi <= i < |es| ensures !(root <= es[i].oid) {
      if i > hi && root <= es[i].oid { SubtreeIsConvex(root, root, es[hi].oid, es[i].oid); }
    }
  }

  ghost predicate Kept(root: Oid, e: Pair) {
    root <= e.oid && e.oid != root
  }

  /** Which entries the filter keeps once the root itself is dropped. */
  lemma KeptInInterval(session: WalkSession, root: Oid, lo: nat, hi: nat)
    requires Interval(session, root, lo, hi)
    ensures KeptBetween(session, root, lo, hi)
  {
    forall i | 0 <= i < |session.entries| ensures Kept(root, session.entries[i]) <==> lo <= i < hi {
      var key := session.entries[i].oid;
      if root <= key {
        if i < lo { BelowOrEqual(root, key); } else { LessIsStrict(root); }
      }
    }
  }

  lemma WalkStep(session: WalkSession, root: Oid, from: nat)
    requires from < |session.entries|
    ensures var e, rest := session.entries[from], WithoutRoot(root, session.Walk(root, from + 1));
      WithoutRoot(root, session.Walk(root, from)) == if Kept(root, e) then [e] + rest else rest
  {
    var rest := session.Walk(root, from + 1);
    if root <= session.entries[from].oid { assert session.Walk(root, from)[1..] == rest; }
    else { assert session.Walk(root, from) == rest; }
  }

  /** The entries from `from` on that stand between `lo` and `hi`. */
  function Within(es: seq<Pair>, lo: nat, hi: nat, from: nat): seq<Pair>
    requires lo <= hi <= |es|
  {
    es[if from <= lo then lo else if from <= hi then from else hi..hi]
  }

  lemma WithinStep(es: seq<Pair>, lo: nat, hi: nat, from: nat)
    requires lo <= hi <= |es| && from < |es|
    ensures Within(es, lo, hi, from) ==
      (if lo <= from < hi then [es[from]] else []) + Within(es, lo, hi, from + 1)
  {
  }

  ghost predicate KeptBetween(session: WalkSession, root: Oid, lo: nat, hi: nat) {
    forall i | 0 <= i < |session.entries| :: Kept(root, session.entries[i]) <==> lo <= i < hi
  }

  lemma NextKept(session: WalkSession, root: Oid, lo: nat, hi: nat, from: nat)
    requires lo <= hi <= |session.entries| && from < |session.entries| && KeptBetween(session, root, lo, hi)
    requires WithoutRoot(root, session.Walk(root, from + 1)) == Within(session.entries, lo, hi, from + 1)
    ensures WithoutRoot(root, session.Walk(root, from)) == Within(session.entries, lo, hi, from)
  {
    WalkStep(session, root, from);
    WithinStep(session.entries, lo, hi, from);
    assert Kept(root, session.entries[from]) <==> lo <= from < hi;
  }

  /** Without an entry at the root itself, the session's walk is that interval. */
  lemma {:induction false} WalkIsInterval(session: WalkSession, root: Oid, lo: nat, hi: nat, from: nat)
    requires lo <= hi <= |session.entries| && from <= |session.entries|
    requires KeptBetween(session, root, lo, hi)
    ensures WithoutRoot(root, session.Walk(root, from)) == Within(session.entries, lo, hi, from)
    decreases |session.entries| - from
  {
    if from < |session.entries| {
      WalkIsInterval(session, root, lo, hi, from + 1);
      NextKept(session, root, lo, hi, from);
    }
  }

  lemma BelowOrEqual(root: Oid, key: Oid)
    requires root <= key && !Less(root, key)
    ensures key == root
  {
    if root < key { ExtensionIsGreater(root, key); }
  }

  lemma {:induction false} UpToExceptionIs(pairs: seq<Pair>, n: nat)
    requires n <= |pairs| && (forall i | 0 <= i < n :: !IsException(pairs[i].value))
    requires n < |pairs| ==> IsException(pairs[n].value)
    ensures UpToException(pairs) == pairs[..n]
  {
    if n > 0 { UpToExceptionIs(pairs[1..], n - 1); }
  }

  lemma {:induction false} GetNextIs(session: WalkSession, oid: Oid, from: nat, at: nat)
    requires from <= at <= |session.entries|
    requires forall i | from <= i < at :: !Less(oid, session.entries[i].oid)
    requires at < |session.entries| ==> Less(oid, session.entries[at].oid)
    ensures session.GetNext(oid, from) == if at == |session.entries| then None else Some(session.entries[at])
    decreases at - from
  {
    if from < at { GetNextIs(session, oid, from + 1, at); }
  }

  /** Past entry `at - 1`, or past the root when `at` is `lo`, the next entry is `at`. */
  lemma NextInOrder(session: WalkSession, root: Oid, lo: nat, hi: nat, at: nat)
    requires Ordered(session.entries) && Interval(session, root, lo, hi) && lo <= at <= |session.entries|
    ensures var asked := if at == lo then root else session.entries[at - 1].oid;
      && session.GetNext(asked) == (if at == |session.entries| then None else Some(session.entries[at]))
      && (at < |session.entries| ==> Less(asked, session.entries[at].oid))
  {
    var es := session.entries;
    var asked := if at == lo then root else es[at - 1].oid;
    forall i | 0 <= i < at ensures !Less(asked, es[i].oid) {
      if at > lo {
        LessIsStrict(asked);
        if i < at - 1 && Less(asked, es[i].oid) { LessIsTransitive(asked, es[i].oid, asked); }
      }
    }
    GetNextIs(session, asked, 0, at);
  }

  lemma IntervalIsComplete(c: Client, session: WalkSession, root: Oid, lo: nat, hi: nat, end: nat)
    requires Ordered(session.entries) && Sees(c, session)
    requires Interval(session, root, lo, hi) && lo <= end <= hi
    requires forall i | lo <= i < end :: !IsException(session.entries[i].value)
    requires end < hi ==> IsException(session.entries[end].value)
    ensures c.Complete(root, session.entries[lo..end])
  {
    var pairs := session.entries[lo..end];
    forall i: nat | i < |pairs| ensures c.Link(root, pairs, i) {
      AnswerInInterval(c, session, root, lo, hi, lo + i, pairs, i);
    }
    AnswerInInterval(c, session, root, lo, hi, end, pairs, |pairs|);
  }

  /** The answer after `i` pairs of the interval. */
  lemma AnswerInInterval(
    c: Client, session: WalkSession, root: Oid, lo: nat, hi: nat, at: nat, pairs: seq<Pair>, i: nat)
    requires Ordered(session.entries) && Sees(c, session) && Interval(session, root, lo, hi)
    requires i <= |pairs| && at == lo + i <= hi && lo + |pairs| <= hi && pairs == session.entries[lo..lo + |pairs|]
    ensures var es, asked := session.entries, c.Asked(root, pairs, i);
      && c.Answered(i, asked) == (if at == |es| then End else Next(es[at]))
      && (at < |es| ==> Less(asked, es[at].oid))
      && (c.Continues(root, asked, c.Answered(i, asked)) <==> at < hi && !IsException(es[at].value))
  {
    NextInOrder(session, root, lo, hi, at);
    assert c.Asked(root, pairs, i) == if i == 0 then root else session.entries[at - 1].oid;
  }

  lemma FirstException(session: WalkSession, lo: nat, hi: nat) returns (end: nat)
    requires lo <= hi <= |session.entries|
    ensures lo <= end <= hi && forall i | lo <= i < end :: !IsException(session.entries[i].value)
    ensures end < hi ==> IsException(session.entries[end].value)
    ensures UpToException(session.entries[lo..hi]) == session.entries[lo..end]
  {
    end := lo;
    while end < hi && !IsException(session.entries[end].value)
      invariant lo <= end <= hi && forall i | lo <= i < end :: !IsException(session.entries[i].value)
    {
      end := end + 1;
    }
    var inside := session.entries[lo..hi];
    assert inside[..end - lo] == session.entries[lo..end];
    assert end < hi ==> inside[end - lo] == session.entries[end];
    UpToExceptionIs(inside, end - lo);
  }

  /** The session's own walk as far as a client can follow it: without the root entry, up to an exception value. */
  function Listed(session: WalkSession, root: Oid): seq<Pair> {
    UpToException(WithoutRoot(root, session.Walk(root)))
  }

  lemma FilterIsComplete(c: Client, session: WalkSession, root: Oid)
    requires Ordered(session.entries) && Sees(c, session)
    ensures c.Complete(root, Listed(session, root))
  {
    var lo, hi := SubtreeInterval(session, root);
    KeptInInterval(session, root, lo, hi);
    WalkIsInterval(session, root, lo, hi, 0);
    var end := FirstException(session, lo, hi);
    IntervalIsComplete(c, session, root, lo, hi, end);
  }

  /**
   * GETNEXT refines the map filter: a client walk of a served session is complete
   * exactly if it is the session's own walk, minus an entry at the root, up to an
   * exception value, and the client can encode every identifier it asks for.
   */
  lemma WalkRefinesFilter(c: Client, session: WalkSession, root: Oid, pairs: seq<Pair>)
    requires Ordered(session.entries) && Serves(c, session)
    ensures c.Complete(root, pairs) <==> pairs == Listed(session, root) && c.Encodes(root, pairs)
  {
    UnrestrictedSees(c, session);
    FilterIsComplete(c.Unrestricted(), session, root);
    c.CompleteIff(root, pairs);
    if c.Complete(root, pairs) {
      c.Unrestricted().CompleteIsUnique(root, pairs, Listed(session, root));
    }
  }

  /** A walk of a served session breaks off only at an identifier that cannot be encoded. */
  lemma BreaksOffUnencodable(c: Client, session: WalkSession, root: Oid, pairs: seq<Pair>)
    requires Ordered(session.entries) && Serves(c, session)
    requires c.Chain(root, pairs) && c.Answered(|pairs|, c.Asked(root, pairs, |pairs|)).Error?
    ensures !c.Encodes(root, Listed(session, root))
  {
    var free, list := c.Unrestricted(), Listed(session, root);
    UnrestrictedSees(c, session);
    FilterIsComplete(free, session, root);
    c.ChainIff(root, pairs);
    free.NoLongerWalk(root, list, pairs);
    free.SamePrefix(root, list, pairs, |pairs|);
    ServedQuery(c, session, |pairs|, c.Asked(root, pairs, |pairs|));
    if pairs != [] { assert pairs[|pairs| - 1] == list[|pairs| - 1]; }
  }

  /** Without exception values nothing is cut off. */
  lemma {:induction false} NoExceptionNoCut(pairs: seq<Pair>)
    requires forall p | p in pairs :: !IsException(p.value)
    ensures UpToException(pairs) == pairs
  {
    if pairs != [] {
      assert pairs[0] in pairs;
      NoExceptionNoCut(pairs[1..]);
    }
  }

  lemma {:induction false} WalkIsCaptured(session: WalkSession, root: Oid, from: nat)
    requires from <= |session.entries|
    ensures forall p | p in WithoutRoot(root, session.Walk(root, from)) :: p in session.entries
    decreases |session.entries| - from
  {
    if from < |session.entries| {
      WalkIsCaptured(session, root, from + 1);
      WalkStep(session, root, from);
    }
  }

  /** The identifier begins with all the arcs of the root. */
  predicate Under(root: Oid, oid: Oid) {
    |root| <= |oid| && forall i | 0 <= i < |root| :: oid[i] == root[i]
  }

  /** The session's walk is a filter: the entries whose key extends the root, the root's own included, in order. */
  lemma {:induction false} WalkIsFilter(session: WalkSession, root: Oid, from: nat)
    requires from <= |session.entries| && Ordered(session.entries)
    ensures forall p :: p in session.Walk(root, from) <==>
      exists i | from <= i < |session.entries| :: session.entries[i] == p && Under(root, p.oid)
    ensures Ordered(session.Walk(root, from))
    decreases |session.entries| - from
  {
    if from < |session.entries| {
      WalkIsFilter(session, root, from + 1);
      var e, rest := session.entries[from], session.Walk(root, from + 1);
      forall j | 0 <= j < |rest| ensures Less(e.oid, rest[j].oid) {
        assert rest[j] in rest;
      }
      forall p ensures p in session.Walk(root, from) <==>
        exists i | from <= i < |session.entries| :: session.entries[i] == p && Under(root, p.oid)
      {
        if p == e && root <= e.oid { assert session.entries[from] == p; }
      }
    }
  }

  /** Some number of arcs bounds all entries, and so all answers. */
  lemma {:induction false} EntriesAreBounded(entries: seq<Pair>) returns (arcs: nat)
    ensures forall p | p in entries :: |p.oid| <= arcs
  {
    arcs := 0;
    if entries != [] {
      var rest := EntriesAreBounded(entries[1..]);
      var first := |entries[0].oid|;
      arcs := if rest < first then first else rest;
    }
  }

  lemma AnswersAreEntries(c: Client, session: WalkSession, arcs: nat)
    requires Serves(c, session) && forall p | p in session.entries :: |p.oid| <= arcs
    ensures c.Bounded(arcs)
  {
    forall n, oid | c.Answered(n, oid).Next? ensures |c.Answered(n, oid).pair.oid| <= arcs {
      GetNextIsEntry(session, oid, 0);
      ServedQuery(c, session, n, oid);
    }
  }

  lemma {:induction false} GetNextIsEntry(session: WalkSession, oid: Oid, from: nat)
    requires from <= |session.entries|
    ensures session.GetNext(oid, from).Some? ==> session.GetNext(oid, from).value in session.entries
    decreases |session.entries| - from
  {
    if from < |session.entries| { GetNextIsEntry(session, oid, from + 1); }
  }

  /**
   * Walking a served session succeeds exactly if the client can encode the root and
   * every identifier on the way, and then returns the session's own walk.
   */
  method WalkServed(c: Client, session: WalkSession, root: Oid) returns (r: Result<seq<Pair>, ()>)
    requires Ordered(session.entries) && Serves(c, session)
    ensures r.Ok? <==> c.Encodes(root, Listed(session, root))
    ensures r.Ok? ==> r.value == Listed(session, root)
    ensures r.Ok? && (forall p | p in session.entries :: !IsException(p.value)) ==>
      r.value == WithoutRoot(root, session.Walk(root))
  {
    ghost var arcs := EntriesAreBounded(session.entries);
    AnswersAreEntries(c, session, arcs);
    r := c.Walk(root, arcs);
    if r.Ok? {
      WalkRefinesFilter(c, session, root, r.value);
    } else {
      ghost var pairs :| c.Chain(root, pairs) && c.Answered(|pairs|, c.Asked(root, pairs, |pairs|)).Error?;
      BreaksOffUnencodable(c, session, root, pairs);
    }
    WalkIsCaptured(session, root, 0);
    if forall p | p in session.entries :: !IsException(p.value) {
      NoExceptionNoCut(WithoutRoot(root, session.Walk(root)));
    }
  }

  /** A client that refuses to encode a root walks nothing of what the session lists below it. */
  lemma RefusedRootFails(c: Client, root: Oid, arc: Arc, text: string, pairs: seq<Pair>)
    requires !c.encodable(root) && Serves(c, WalkSession([Pair(root + [arc], Data(text))]))
    ensures var session := WalkSession([Pair(root + [arc], Data(text))]);
      Listed(session, root) == session.entries && !c.Complete(root, pairs)
  {
    var entry := Pair(root + [arc], Data(text));
    var session := WalkSession([entry]);
    assert session.Walk(root) == [entry] + session.Walk(root, 1) == [entry];
    assert WithoutRoot(root, [entry]) == [entry] + WithoutRoot(root, [entry][1..]);
    assert [entry][1..] == [] && |root| < |entry.oid|;
    assert UpToException([entry]) == [entry] + UpToException([entry][1..]);
    WalkRefinesFilter(c, session, root, pairs);
  }
}
