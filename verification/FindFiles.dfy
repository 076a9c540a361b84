/**
 * The `findFile` collector (crates/glpi-collect/src/file.rs): a walk over a
 * directory tree with an explicit stack, a filter and an early-exit limit.
 *
 * The file system is a finite tree, seen through what `read_dir` and
 * `metadata` answer for each entry.
 */
module FindFiles {
  import opened Common
  import Glob

  datatype Kind = File | Directory | Other

  datatype Meta = Meta(kind: Kind, len: nat, sha256: Option<string>, sha512: Option<string>)

  /** `meta` is absent when it cannot be read. */
  datatype Entry = Entry(name: string, meta: Option<Meta>, listing: Listing)

  /** What `read_dir` answers: an error (also for anything but a directory) or the entries. */
  datatype Listing = Unreadable | Listing(entries: seq<Entry>)

  datatype Filter = Filter(
    name: Option<string>, isFile: Option<bool>, isDir: Option<bool>,
    sizeEquals: Option<nat>, sizeGreater: Option<nat>, sizeLower: Option<nat>,
    sha256: Option<string>, sha512: Option<string>)

  type Path = seq<string>

  datatype Found = Found(path: Path, size: nat)

  datatype Dir = Dir(path: Path, entry: Entry)

  predicate SizeAndSumsFit(meta: Meta, filter: Filter) {
    && (filter.sizeEquals.Some? ==> meta.len == filter.sizeEquals.value)
    && (filter.sizeGreater.Some? ==> meta.len > filter.sizeGreater.value)
    && (filter.sizeLower.Some? ==> meta.len < filter.sizeLower.value)
    && (filter.sha256.Some? ==> meta.sha256 == filter.sha256)
    && (filter.sha512.Some? ==> meta.sha512 == filter.sha512)
  }

  /** `matches_filter`: a size or checksum field can only be met by a regular file. */
  predicate MatchesFilter(name: string, meta: Meta, filter: Filter) {
    && (filter.isFile == Some(true) ==> meta.kind.File?)
    && (filter.isDir == Some(true) ==> meta.kind.Directory?)
    && (filter.name.Some? ==> Glob.Greedy(filter.name.value, name))
    && if meta.kind.File? then SizeAndSumsFit(meta, filter)
       else filter.sizeEquals.None? && filter.sizeGreater.None? && filter.sizeLower.None?
            && filter.sha256.None? && filter.sha512.None?
  }

  /** What one run of the collector is asked for. */
  datatype Query = Query(recursive: bool, filter: Filter) {
    predicate Hit(e: Entry) {
      e.meta.Some? && MatchesFilter(e.name, e.meta.value, filter)
    }

    function Report(path: Path, e: Entry): Found
      requires Hit(e)
    {
      Found(path + [e.name], Size(e))
    }

    function Size(e: Entry): nat
      requires e.meta.Some?
    {
      if e.meta.value.kind.Directory? then 0 else e.meta.value.len
    }

    predicate Descends(e: Entry) {
      recursive && e.meta.Some? && e.meta.value.kind.Directory?
    }

    /** The hits among the entries of one directory, in listing order. */
    function Hits(path: Path, es: seq<Entry>): seq<Found> {
      if es == [] then []
      else (if Hit(es[0]) then [Report(path, es[0])] else []) + Hits(path, es[1..])
    }

    /** The directories one listing puts on the stack. */
    function Pushed(path: Path, es: seq<Entry>): seq<Dir> {
      if es == [] then []
      else (if Descends(es[0]) then [Dir(path + [es[0].name], es[0])] else []) + Pushed(path, es[1..])
    }

    /** Everything the walk reports from this stack, whose top is its last element. */
    function Visit(stack: seq<Dir>): seq<Found>
      decreases Weights(stack)
    {
      if stack == [] then []
      else
        var top, rest := stack[|stack| - 1], stack[..|stack| - 1];
        WeightsAppend(rest, [top]);
        assert stack == rest + [top];
        if top.entry.listing.Unreadable? then Visit(rest)
        else
          var es := top.entry.listing.entries;
          PushedIsLighter(this, top.path, es);
          WeightsAppend(rest, Pushed(top.path, es));
          Hits(top.path, es) + Visit(rest + Pushed(top.path, es))
    }

    /** Reference order: each entry of the directory, directly followed by what lies below it. */
    ghost function Below(path: Path, dir: Entry): seq<Found>
      decreases dir, 0
    {
      if dir.listing.Unreadable? then [] else BelowAll(path, dir.listing.entries)
    }

    ghost function BelowAll(path: Path, es: seq<Entry>): seq<Found>
      decreases es
    {
      if es == [] then []
      else
        BelowOne(path, es[0]) + BelowAll(path, es[1..])
    }

    ghost function BelowOne(path: Path, e: Entry): seq<Found>
      decreases e, 1
    {
      (if Hit(e) then [Report(path, e)] else []) + (if Descends(e) then Below(path + [e.name], e) else [])
    }
  }

  /** The number of entries of a tree, the root included. */
  function Weight(e: Entry): nat
    decreases e
  {
    1 + if e.listing.Unreadable? then 0 else WeightAll(e.listing.entries)
  }

  function WeightAll(es: seq<Entry>): nat
    decreases es
  {
    if es == [] then 0 else Weight(es[0]) + WeightAll(es[1..])
  }

  function Weights(stack: seq<Dir>): nat {
    if stack == [] then 0 else Weight(stack[0].entry) + Weights(stack[1..])
  }

  lemma {:induction false} WeightsAppend(a: seq<Dir>, b: seq<Dir>)
    ensures Weights(a + b) == Weights(a) + Weights(b)
  {
    if a == [] {
      assert a + b == b;
    } else {
      assert (a + b)[1..] == a[1..] + b;
      WeightsAppend(a[1..], b);
    }
  }

  lemma {:induction false} PushedIsLighter(q: Query, path: Path, es: seq<Entry>)
    ensures Weights(q.Pushed(path, es)) <= WeightAll(es)
  {
    if es != [] {
      PushedIsLighter(q, path, es[1..]);
      var first := if q.Descends(es[0]) then [Dir(path + [es[0].name], es[0])] else [];
      WeightsAppend(first, q.Pushed(path, es[1..]));
    }
  }

  function Limited(all: seq<Found>, limit: nat): seq<Found> {
    if limit == 0 || |all| <= limit then all else all[..limit]
  }

  /** The loop over one listing: what it adds to the matches and to the stack, unless it fills up. */
  method ListDirectory(q: Query, path: Path, entries: seq<Entry>, limit: nat, found: seq<Found>, waiting: seq<Dir>)
    returns (matches: seq<Found>, stack: seq<Dir>, full: bool)
    requires limit != 0 ==> |found| < limit
    ensures !full ==> matches == found + q.Hits(path, entries) && stack == waiting + q.Pushed(path, entries)
    ensures !full ==> limit == 0 || |matches| < limit
    ensures full ==> limit != 0 && |matches| == limit && matches <= found + q.Hits(path, entries)
  {
    matches, stack := found, waiting;
    assert entries[0..] == entries;
    for i := 0 to |entries|
      invariant found + q.Hits(path, entries) == matches + q.Hits(path, entries[i..])
      invariant waiting + q.Pushed(path, entries) == stack + q.Pushed(path, entries[i..])
      invariant limit != 0 ==> |matches| < limit
    {
      var entry := entries[i];
      NextEntry(q, path, entries, i);
      if entry.meta.None? {
        continue;
      }
      if entry.meta.value.kind.Directory? && q.recursive {
        stack := stack + [Dir(path + [entry.name], entry)];
      }
      if MatchesFilter(entry.name, entry.meta.value, q.filter) {
        matches := matches + [q.Report(path, entry)];
        if limit != 0 && |matches| >= limit {
          return matches, stack, true;
        }
      }
    }
    return matches, stack, false;
  }

  lemma NextEntry(q: Query, path: Path, es: seq<Entry>, i: nat)
    requires i < |es|
    ensures q.Hits(path, es[i..]) ==
      (if q.Hit(es[i]) then [q.Report(path, es[i])] else []) + q.Hits(path, es[i + 1..])
    ensures q.Pushed(path, es[i..]) ==
      (if q.Descends(es[i]) then [Dir(path + [es[i].name], es[i])] else []) + q.Pushed(path, es[i + 1..])
  {
    assert es[i..][0] == es[i] && es[i..][1..] == es[i + 1..];
  }

  lemma LimitReached(reached: seq<Found>, more: seq<Found>, matches: seq<Found>)
    requires matches <= reached && matches != []
    ensures Limited(reached + more, |matches|) == matches
  {
    assert (reached + more)[..|matches|] == reached[..|matches|];
  }

  /** The worklist loop, with its early exit. */
  method FindFiles(path: Path, root: Entry, recursive: bool, limit: nat, filter: Filter)
    returns (matches: seq<Found>)
    ensures var q := Query(recursive, filter);
      var all := q.Visit([Dir(path, root)]);
      && matches <= all && multiset(all) == multiset(q.Below(path, root))
      && |matches| == if limit == 0 || |all| <= limit then |all| else limit
    ensures forall x | x in matches && filter.sizeEquals.Some? :: x.size == filter.sizeEquals.value
    ensures forall x | x in matches && filter.sizeGreater.Some? :: x.size > filter.sizeGreater.value
    ensures forall x | x in matches && filter.sizeLower.Some? :: x.size < filter.sizeLower.value
  {
    matches := WalkTree(path, root, recursive, limit, filter);
    var q := Query(recursive, filter);
    ghost var all := q.Visit([Dir(path, root)]);
    forall x | x in matches
      ensures filter.sizeEquals.Some? ==> x.size == filter.sizeEquals.value
      ensures filter.sizeGreater.Some? ==> x.size > filter.sizeGreater.value
      ensures filter.sizeLower.Some? ==> x.size < filter.sizeLower.value
    {
      assert x in all;
      assert x in multiset(all) && x in multiset(q.Below(path, root));
      var rel, e := ReportedMeets(q, path, root, x);
    }
  }

  method WalkTree(path: Path, root: Entry, recursive: bool, limit: nat, filter: Filter)
    returns (matches: seq<Found>)
    ensures var q := Query(recursive, filter);
      && matches == Limited(q.Visit([Dir(path, root)]), limit)
      && multiset(q.Visit([Dir(path, root)])) == multiset(q.Below(path, root))
  {
    var q := Query(recursive, filter);
    ghost var all := q.Visit([Dir(path, root)]);
    VisitIsBelowRoot(q, path, root);
    matches := [];
    var stack := [Dir(path, root)];
    while |stack| > 0
      invariant all == matches + q.Visit(stack)
      invariant limit != 0 ==> |matches| < limit
      decreases Weights(stack)
    {
      VisitPops(q, stack);
      var top := stack[|stack| - 1];
      stack := stack[..|stack| - 1];
      if !top.entry.listing.Unreadable? {
        ghost var hits := q.Hits(top.path, top.entry.listing.entries);
        ghost var next := stack + q.Pushed(top.path, top.entry.listing.entries);
        Assoc(matches, hits, q.Visit(next));
        ghost var reached := matches + hits;
        var full;
        matches, stack, full := ListDirectory(q, top.path, top.entry.listing.entries, limit, matches, stack);
        if full {
          LimitReached(reached, q.Visit(next), matches);
          return;
        }
      }
    }
  }

  /** Hits and stacked directories keep the order of the listing. */
  lemma {:induction false} ListingOrder(q: Query, path: Path, a: seq<Entry>, b: seq<Entry>)
    ensures q.Hits(path, a + b) == q.Hits(path, a) + q.Hits(path, b)
    ensures q.Pushed(path, a + b) == q.Pushed(path, a) + q.Pushed(path, b)
    decreases |a|
  {
    if a == [] {
      assert a + b == b;
    } else {
      assert (a + b)[0] == a[0] && (a + b)[1..] == a[1..] + b;
      ListingOrder(q, path, a[1..], b);
      Assoc(if q.Hit(a[0]) then [q.Report(path, a[0])] else [], q.Hits(path, a[1..]), q.Hits(path, b));
      Assoc(if q.Descends(a[0]) then [Dir(path + [a[0].name], a[0])] else [],
            q.Pushed(path, a[1..]), q.Pushed(path, b));
    }
  }

  lemma VisitPops(q: Query, stack: seq<Dir>)
    requires stack != []
    ensures var top, rest := stack[|stack| - 1], stack[..|stack| - 1];
      if top.entry.listing.Unreadable? then
        q.Visit(stack) == q.Visit(rest) && Weights(rest) < Weights(stack)
      else
        var next := rest + q.Pushed(top.path, top.entry.listing.entries);
        q.Visit(stack) == q.Hits(top.path, top.entry.listing.entries) + q.Visit(next) && Weights(next) < Weights(stack)
  {
    var top, rest := stack[|stack| - 1], stack[..|stack| - 1];
    WeightsAppend(rest, [top]);
    assert stack == rest + [top];
    if !top.entry.listing.Unreadable? {
      var es := top.entry.listing.entries;
      PushedIsLighter(q, top.path, es);
      WeightsAppend(rest, q.Pushed(top.path, es));
    }
  }

  // ---- Each entry exactly once ------------------------------------------------

  ghost function StackBelow(q: Query, stack: seq<Dir>): multiset<Found> {
    if stack == [] then multiset{}
    else multiset(q.Below(stack[0].path, stack[0].entry)) + StackBelow(q, stack[1..])
  }

  lemma {:induction false} StackBelowAppend(q: Query, a: seq<Dir>, b: seq<Dir>)
    ensures StackBelow(q, a + b) == StackBelow(q, a) + StackBelow(q, b)
  {
    if a == [] {
      assert a + b == b;
    } else {
      assert (a + b)[1..] == a[1..] + b;
      StackBelowAppend(q, a[1..], b);
    }
  }

  lemma {:induction false} ListingSplits(q: Query, path: Path, es: seq<Entry>)
    ensures multiset(q.BelowAll(path, es)) == multiset(q.Hits(path, es)) + StackBelow(q, q.Pushed(path, es))
  {
    if es != [] {
      ListingSplits(q, path, es[1..]);
      var first := if q.Descends(es[0]) then [Dir(path + [es[0].name], es[0])] else [];
      StackBelowAppend(q, first, q.Pushed(path, es[1..]));
      assert first != [] ==> StackBelow(q, first) == multiset(q.Below(path + [es[0].name], es[0]));
    }
  }

  lemma {:induction false} VisitIsBelow(q: Query, stack: seq<Dir>)
    ensures multiset(q.Visit(stack)) == StackBelow(q, stack)
    decreases Weights(stack)
  {
    if stack != [] {
      var top, rest := stack[|stack| - 1], stack[..|stack| - 1];
      VisitPops(q, stack);
      assert stack == rest + [top];
      StackBelowAppend(q, rest, [top]);
      if top.entry.listing.Unreadable? {
        VisitIsBelow(q, rest);
      } else {
        var es := top.entry.listing.entries;
        VisitIsBelow(q, rest + q.Pushed(top.path, es));
        StackBelowAppend(q, rest, q.Pushed(top.path, es));
        ListingSplits(q, top.path, es);
      }
    }
  }

  lemma VisitIsBelowRoot(q: Query, path: Path, root: Entry)
    ensures multiset(q.Visit([Dir(path, root)])) == multiset(q.Below(path, root))
  {
    VisitIsBelow(q, [Dir(path, root)]);
    assert StackBelow(q, [Dir(path, root)]) == multiset(q.Below(path, root)) + StackBelow(q, []);
  }

  // ---- What the reported entries are ------------------------------------------

  predicate IsDirectory(e: Entry) {
    e.meta.Some? && e.meta.value.kind == Directory
  }

  /** `e` is an entry that the names `rel` lead to, through directories if the walk is recursive. */
  ghost predicate Leads(q: Query, es: seq<Entry>, rel: Path, e: Entry)
    decreases |rel|, 1
  {
    exists c | c in es :: LeadsVia(q, c, rel, e)
  }

  ghost predicate LeadsVia(q: Query, c: Entry, rel: Path, e: Entry)
    decreases |rel|, 0
  {
    && rel != [] && c.name == rel[0]
    && if |rel| == 1 then e == c
       else q.recursive && IsDirectory(c) && c.listing.Listing? && Leads(q, c.listing.entries, rel[1..], e)
  }

  lemma {:induction false} ReportedLeads(q: Query, path: Path, es: seq<Entry>, x: Found) returns (rel: Path, e: Entry)
    requires x in q.BelowAll(path, es)
    ensures Leads(q, es, rel, e) && q.Hit(e) && x == Found(path + rel, q.Size(e))
    decreases es, 1
  {
    var c := es[0];
    if x in q.BelowOne(path, c) {
      rel, e := ReportedLeadsVia(q, path, c, x);
    } else {
      rel, e := ReportedLeads(q, path, es[1..], x);
      var c' :| c' in es[1..] && LeadsVia(q, c', rel, e);
    }
  }

  lemma {:induction false} ReportedLeadsVia(q: Query, path: Path, c: Entry, x: Found) returns (rel: Path, e: Entry)
    requires x in q.BelowOne(path, c)
    ensures LeadsVia(q, c, rel, e) && q.Hit(e) && x == Found(path + rel, q.Size(e))
    decreases c, 2
  {
    if q.Hit(c) && x == q.Report(path, c) {
      rel, e := [c.name], c;
    } else {
      assert q.Descends(c) && c.listing.Listing? && x in q.BelowAll(path + [c.name], c.listing.entries);
      var rel': Path;
      rel', e := ReportedLeads(q, path + [c.name], c.listing.entries, x);
      rel := [c.name] + rel';
      LeadsThrough(q, c, rel', e);
      Assoc(path, [c.name], rel');
    }
  }

  lemma LeadsThrough(q: Query, c: Entry, rel: Path, e: Entry)
    requires q.Descends(c) && c.listing.Listing? && Leads(q, c.listing.entries, rel, e)
    ensures LeadsVia(q, c, [c.name] + rel, e)
  {
    assert ([c.name] + rel)[1..] == rel;
    assert rel != [] by { var d :| d in c.listing.entries && LeadsVia(q, d, rel, e); }
  }

  lemma {:induction false} LeadsReported(q: Query, path: Path, es: seq<Entry>, rel: Path, e: Entry)
    requires Leads(q, es, rel, e) && q.Hit(e)
    ensures Found(path + rel, q.Size(e)) in q.BelowAll(path, es)
    decreases |rel|, |es|
  {
    var c :| c in es && LeadsVia(q, c, rel, e);
    if c != es[0] {
      assert c in es[1..];
      LeadsReported(q, path, es[1..], rel, e);
    } else if |rel| == 1 {
      assert rel == [c.name];
      assert q.Report(path, c) in q.BelowOne(path, c);
    } else {
      LeadsReported(q, path + [c.name], c.listing.entries, rel[1..], e);
      assert path + rel == path + [c.name] + rel[1..];
      assert Found(path + rel, q.Size(e)) in q.BelowOne(path, c);
    }
  }

  /** Entries of one directory have different names, at every level. */
  ghost predicate WellNamed(es: seq<Entry>)
    decreases es
  {
    es != [] ==>
      && (forall c | c in es[1..] :: c.name != es[0].name)
      && (es[0].listing.Listing? ==> WellNamed(es[0].listing.entries))
      && WellNamed(es[1..])
  }

  ghost predicate DistinctPaths(xs: seq<Found>) {
    forall i, j | 0 <= i < j < |xs| :: xs[i].path != xs[j].path
  }

  /** Every reported path goes through one of the entries. */
  lemma PathsGoThrough(q: Query, path: Path, es: seq<Entry>, x: Found)
    requires x in q.BelowAll(path, es)
    ensures |x.path| > |path| && x.path[..|path|] == path && exists c | c in es :: x.path[|path|] == c.name
  {
    var rel, e := ReportedLeads(q, path, es, x);
    var c :| c in es && LeadsVia(q, c, rel, e);
  }

  lemma {:induction false} OneIsDistinct(q: Query, path: Path, c: Entry)
    requires c.listing.Listing? ==> WellNamed(c.listing.entries)
    ensures DistinctPaths(q.BelowOne(path, c))
    ensures forall x | x in q.BelowOne(path, c) :: |x.path| > |path| && x.path[|path|] == c.name
    decreases c, 2
  {
    var below: seq<Found> := if q.Descends(c) then q.Below(path + [c.name], c) else [];
    if below != [] {
      BelowIsDistinct(q, path + [c.name], c.listing.entries);
    }
    forall x | x in below ensures |x.path| > |path| + 1 && x.path[|path|] == c.name {
      PathsGoThrough(q, path + [c.name], c.listing.entries, x);
      assert x.path[..|path| + 1][|path|] == c.name;
    }
    if q.Hit(c) { assert |q.Report(path, c).path| == |path| + 1; }
  }

  lemma {:induction false} BelowIsDistinct(q: Query, path: Path, es: seq<Entry>)
    requires WellNamed(es)
    ensures DistinctPaths(q.BelowAll(path, es))
    decreases es, 1
  {
    if es != [] {
      OneIsDistinct(q, path, es[0]);
      BelowIsDistinct(q, path, es[1..]);
      forall x, y | x in q.BelowOne(path, es[0]) && y in q.BelowAll(path, es[1..]) ensures x.path != y.path {
        PathsGoThrough(q, path, es[1..], y);
      }
    }
  }

  ghost predicate ReachableHit(q: Query, path: Path, es: seq<Entry>, x: Found) {
    exists rel, e :: Leads(q, es, rel, e) && q.Hit(e) && x == Found(path + rel, q.Size(e))
  }

  /**
   * An unlimited walk reports exactly the matching entries that can be reached
   * below the root, each of them once.
   */
  lemma ExactlyTheReachableHits(q: Query, path: Path, es: seq<Entry>, root: Entry, x: Found)
    requires root.listing == Listing(es)
    ensures var all := q.Visit([Dir(path, root)]);
      && (x in all <==> ReachableHit(q, path, es, x))
      && (WellNamed(es) && x in all ==> multiset(all)[x] == 1)
  {
    var all, below := q.Visit([Dir(path, root)]), q.BelowAll(path, es);
    VisitIsBelowRoot(q, path, root);
    assert x in all <==> x in multiset(all);
    assert x in below <==> x in multiset(below);
    if x in below {
      var rel, e := ReportedLeads(q, path, es, x);
      if WellNamed(es) {
        BelowIsDistinct(q, path, es);
        CountIsOne(below, x);
      }
    }
    if ReachableHit(q, path, es, x) {
      var rel, e :| Leads(q, es, rel, e) && q.Hit(e) && x == Found(path + rel, q.Size(e));
      LeadsReported(q, path, es, rel, e);
    }
  }

  lemma CountIsOne(xs: seq<Found>, x: Found)
    requires DistinctPaths(xs) && x in xs
    ensures multiset(xs)[x] == 1
  {
    var i :| 0 <= i < |xs| && xs[i] == x;
    assert xs == xs[..i] + [x] + xs[i + 1..];
    assert x !in xs[..i] && x !in xs[i + 1..];
    assert multiset(xs) == multiset(xs[..i]) + multiset{x} + multiset(xs[i + 1..]);
  }

  // ---- What a filter asks for, field by field -----------------------------------

  /**
   * Every reported entry is one that the walk may reach, reported with its size, and
   * meets each field of the filter that is set. Sizes and digests admit regular files only.
   */
  lemma ReportedMeets(q: Query, path: Path, root: Entry, x: Found) returns (rel: Path, e: Entry)
    requires x in q.Below(path, root)
    ensures root.listing.Listing? && Leads(q, root.listing.entries, rel, e) && e.meta.Some?
    ensures x.path == path + rel && x.size == if e.meta.value.kind == Directory then 0 else e.meta.value.len
    ensures q.filter.isFile == Some(true) ==> e.meta.value.kind == File
    ensures q.filter.isDir == Some(true) ==> e.meta.value.kind == Directory
    ensures q.filter.name.Some? ==> Glob.Matches(q.filter.name.value, e.name)
    ensures q.filter.sizeEquals.Some? ==> e.meta.value.kind == File && x.size == q.filter.sizeEquals.value
    ensures q.filter.sizeGreater.Some? ==> e.meta.value.kind == File && x.size > q.filter.sizeGreater.value
    ensures q.filter.sizeLower.Some? ==> e.meta.value.kind == File && x.size < q.filter.sizeLower.value
    ensures q.filter.sha256.Some? ==> e.meta.value.kind == File && e.meta.value.sha256 == q.filter.sha256
    ensures q.filter.sha512.Some? ==> e.meta.value.kind == File && e.meta.value.sha512 == q.filter.sha512
  {
    rel, e := ReportedLeads(q, path, root.listing.entries, x);
    if q.filter.name.Some? { Glob.GreedyVersusMatches(q.filter.name.value, e.name); }
  }

  /** Conversely, an unlimited walk reports every reachable entry that meets each field that is set. */
  lemma MeetingIsReported(q: Query, path: Path, root: Entry, rel: Path, e: Entry)
    requires root.listing.Listing? && Leads(q, root.listing.entries, rel, e) && e.meta.Some?
    requires q.filter.isFile == Some(true) ==> e.meta.value.kind == File
    requires q.filter.isDir == Some(true) ==> e.meta.value.kind == Directory
    requires q.filter.name.Some? ==>
      Glob.Matches(q.filter.name.value, e.name) && ('*' !in q.filter.name.value || '*' !in e.name)
    requires q.filter.sizeEquals.Some? ==> e.meta.value.kind == File && e.meta.value.len == q.filter.sizeEquals.value
    requires q.filter.sizeGreater.Some? ==> e.meta.value.kind == File && e.meta.value.len > q.filter.sizeGreater.value
    requires q.filter.sizeLower.Some? ==> e.meta.value.kind == File && e.meta.value.len < q.filter.sizeLower.value
    requires q.filter.sha256.Some? ==> e.meta.value.kind == File && e.meta.value.sha256 == q.filter.sha256
    requires q.filter.sha512.Some? ==> e.meta.value.kind == File && e.meta.value.sha512 == q.filter.sha512
    ensures Found(path + rel, if e.meta.value.kind == Directory then 0 else e.meta.value.len)
      in q.Visit([Dir(path, root)])
  {
    if q.filter.name.Some? { Glob.GreedyVersusMatches(q.filter.name.value, e.name); }
    LeadsReported(q, path, root.listing.entries, rel, e);
    VisitIsBelowRoot(q, path, root);
    var x := Found(path + rel, q.Size(e));
    assert x in multiset(q.Below(path, root)) && x in multiset(q.Visit([Dir(path, root)]));
  }

  /** Without recursion the walk stays in the root directory. */
  lemma ChildrenOnly(q: Query, es: seq<Entry>, rel: Path, e: Entry)
    requires !q.recursive
    ensures Leads(q, es, rel, e) <==> e in es && rel == [e.name]
  {
    if Leads(q, es, rel, e) {
      var c :| c in es && LeadsVia(q, c, rel, e);
    }
    if e in es && rel == [e.name] { assert LeadsVia(q, e, rel, e); }
  }
}
