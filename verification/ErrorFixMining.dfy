/** Fail-then-pass pairs in a session's audit trace (`mineErrorFixPairs`, packages/sidecar/src/graduation.ts). */
module ErrorFixMining {
  import opened Common
  import Sorting

  datatype Verdict = Pass | Fail

  /** An audit event, by what the extractors read from it. */
  datatype Event = Event(
    id: string,
    at: nat,
    verdict: Option<Verdict>,
    profile: string,
    signature: Option<string>,
    command: Option<string>,
    changedPath: Option<string>
  )

  datatype Fix = Fix(
    key: string,
    signature: string,
    evidence: seq<string>,
    profile: string,
    changedFiles: seq<string>,
    command: Option<string>,
    failedAt: nat,
    fixedAt: nat
  )

  predicate Earlier(a: Event, b: Event) {
    a.at <= b.at
  }

  /** The trace in time order, simultaneous events in the order they were written. */
  function TimeOrdered(events: seq<Event>): seq<Event> {
    Sorting.Sort(events, Earlier)
  }

  // ----- Specification -----

  /** Time order is what the trace says, and simultaneous events stay in the order they were written. */
  lemma TimeOrderIsStable(trace: seq<Event>, at: nat)
    ensures multiset(TimeOrdered(trace)) == multiset(trace)
    ensures forall i, j :: 0 <= i < j < |TimeOrdered(trace)| ==> TimeOrdered(trace)[i].at <= TimeOrdered(trace)[j].at
    ensures Filter(TimeOrdered(trace), (e: Event) => e.at == at) == Filter(trace, (e: Event) => e.at == at)
  {
    hide Sorting.Sort;
    hide Filter;
    var pivot := Event("", at, None, "", None, None, None);
    Sorting.SortSorted(trace, Earlier);
    Sorting.SortStable(trace, Earlier, pivot);
    FilterAgree(trace, (e: Event) => e.at == at, (y: Event) => Sorting.Ties(Earlier, y, pivot));
    FilterAgree(TimeOrdered(trace), (e: Event) => e.at == at, (y: Event) => Sorting.Ties(Earlier, y, pivot));
    forall i, j | 0 <= i < j < |TimeOrdered(trace)| ensures TimeOrdered(trace)[i].at <= TimeOrdered(trace)[j].at {
      assert Earlier(TimeOrdered(trace)[i], TimeOrdered(trace)[j]);
    }
  }

  predicate HasVerdict(e: Event, profile: string) {
    e.verdict.Some? && e.profile == profile
  }

  /** `i` and `j` are consecutive verdicts of one profile, a failure and then a pass. */
  ghost predicate FailThenPass(events: seq<Event>, i: nat, j: nat) {
    && i < j < |events|
    && events[i].verdict == Some(Fail) && events[j].verdict == Some(Pass)
    && events[i].profile == events[j].profile
    && forall k :: i < k < j ==> !HasVerdict(events[k], events[j].profile)
  }

  /** The last verdict of a profile among the first `n` events. */
  function LastVerdict(events: seq<Event>, n: nat, profile: string): (r: Option<nat>)
    requires n <= |events|
    ensures r.Some? ==>
      && r.value < n && HasVerdict(events[r.value], profile)
      && forall k :: r.value < k < n ==> !HasVerdict(events[k], profile)
    ensures r.None? ==> forall k :: 0 <= k < n ==> !HasVerdict(events[k], profile)
  {
    if n == 0 then None
    else if HasVerdict(events[n - 1], profile) then Some(n - 1)
    else LastVerdict(events, n - 1, profile)
  }

  function LastCommand(events: seq<Event>, n: nat): (r: Option<string>)
    requires n <= |events|
    ensures r.Some? ==> exists k :: 0 <= k < n && events[k].command == r && forall l :: k < l < n ==> events[l].command.None?
    ensures r.None? ==> forall k :: 0 <= k < n ==> events[k].command.None?
  {
    if n == 0 then None
    else if events[n - 1].command.Some? then events[n - 1].command
    else LastCommand(events, n - 1)
  }

  function ChangedPaths(events: seq<Event>, from: nat, to: nat): seq<string> {
    if events == [] then []
    else
      (if from <= events[0].at <= to && events[0].changedPath.Some? then [events[0].changedPath.value] else [])
      + ChangedPaths(events[1..], from, to)
  }

  function SignatureOf(e: Event): string {
    if e.signature.Some? then e.signature.value else e.profile + " verdict fail then pass"
  }

  function FixOf(events: seq<Event>, i: nat, j: nat): Fix
    requires i < |events| && j < |events|
  {
    Fix(
      "error-fix:" + events[j].profile + ":" + SignatureOf(events[i]),
      SignatureOf(events[i]),
      [events[i].id, events[j].id],
      events[j].profile,
      Distinct(ChangedPaths(events, events[i].at, events[j].at)),
      LastCommand(events, j + 1),
      events[i].at,
      events[j].at)
  }

  datatype Pair = Pair(fail: nat, pass: nat)

  /** The pairs closed by the first `n` events, in order of the pass. */
  function Pairs(events: seq<Event>, n: nat): (r: seq<Pair>)
    requires n <= |events|
    ensures forall p :: p in r ==> p.fail < p.pass < n
  {
    if n == 0 then []
    else
      var last := LastVerdict(events, n - 1, events[n - 1].profile);
      Pairs(events, n - 1)
      + (if events[n - 1].verdict == Some(Pass) && last.Some? && events[last.value].verdict == Some(Fail)
         then [Pair(last.value, n - 1)] else [])
  }

  function FixesOf(events: seq<Event>, pairs: seq<Pair>): seq<Fix>
    requires forall p :: p in pairs ==> p.fail < p.pass < |events|
  {
    if pairs == [] then []
    else
      var last := pairs[|pairs| - 1];
      assert last in pairs;
      FixesOf(events, pairs[..|pairs| - 1]) + [FixOf(events, last.fail, last.pass)]
  }

  lemma {:induction false} FixesOfAt(events: seq<Event>, pairs: seq<Pair>, k: nat)
    requires forall p :: p in pairs ==> p.fail < p.pass < |events|
    requires k < |pairs|
    ensures pairs[k] in pairs && |FixesOf(events, pairs)| == |pairs|
    ensures FixesOf(events, pairs)[k] == FixOf(events, pairs[k].fail, pairs[k].pass)
  {
    if k < |pairs| - 1 {
      FixesOfAt(events, pairs[..|pairs| - 1], k);
    } else if k > 0 {
      FixesOfAt(events, pairs[..|pairs| - 1], k - 1);
    }
  }

  // ----- The loop -----

  /** The failures waiting for a pass are exactly the last verdicts that are failures. */
  ghost predicate PendingIsLastFailure(events: seq<Event>, n: nat, pending: map<string, nat>)
    requires n <= |events|
  {
    forall profile ::
      var last := LastVerdict(events, n, profile);
      && (profile in pending <==> last.Some? && events[last.value].verdict == Some(Fail))
      && (profile in pending ==> last == Some(pending[profile]))
  }

  function UpdatePending(pending: map<string, nat>, event: Event, n: nat): map<string, nat> {
    if event.verdict == Some(Fail) then pending[event.profile := n]
    else if event.verdict == Some(Pass) then pending - {event.profile}
    else pending
  }

  lemma PendingStep(events: seq<Event>, n: nat, pending: map<string, nat>)
    requires n < |events| && PendingIsLastFailure(events, n, pending)
    ensures PendingIsLastFailure(events, n + 1, UpdatePending(pending, events[n], n))
  {
    var next := UpdatePending(pending, events[n], n);
    forall profile
      ensures var last := LastVerdict(events, n + 1, profile);
        && (profile in next <==> last.Some? && events[last.value].verdict == Some(Fail))
        && (profile in next ==> last == Some(next[profile]))
    {
      match events[n].verdict
      case None =>
      case Some(Pass) =>
      case Some(Fail) =>
      assert LastVerdict(events, n + 1, profile)
          == if HasVerdict(events[n], profile) then Some(n) else LastVerdict(events, n, profile);
    }
  }

  lemma PairsStep(events: seq<Event>, n: nat, pending: map<string, nat>)
    requires n < |events| && PendingIsLastFailure(events, n, pending)
    ensures var closes := events[n].verdict == Some(Pass) && events[n].profile in pending;
      && (closes ==> pending[events[n].profile] < n)
      && FixesOf(events, Pairs(events, n + 1))
         == FixesOf(events, Pairs(events, n)) + (if closes then [FixOf(events, pending[events[n].profile], n)] else [])
  {
    hide LastVerdict;
    var last := LastVerdict(events, n, events[n].profile);
    if events[n].verdict == Some(Pass) && last.Some? && events[last.value].verdict == Some(Fail) {
      assert Pairs(events, n + 1) == Pairs(events, n) + [Pair(last.value, n)];
    } else {
      assert Pairs(events, n + 1) == Pairs(events, n);
    }
  }

  method MineErrorFixPairs(trace: seq<Event>) returns (candidates: seq<Fix>)
    ensures var events := TimeOrdered(trace);
            candidates == FixesOf(events, Pairs(events, |events|))
  {
    hide FixesOf;
    hide PendingIsLastFailure;
    hide LastVerdict;
    hide LastCommand;
    hide Pairs;
    hide ChangedPaths;
    hide Distinct;
    hide TimeOrdered;
    var events := TimeOrdered(trace);
    candidates := [];
    var pendingFail: map<string, nat> := map[];
    var lastCommand: Option<string> := None;
    NothingPending(events);
    for n := 0 to |events|
      invariant PendingIsLastFailure(events, n, pendingFail)
      invariant lastCommand == LastCommand(events, n)
      invariant candidates == FixesOf(events, Pairs(events, n))
    {
      var event := events[n];
      PendingStep(events, n, pendingFail);
      PairsStep(events, n, pendingFail);
      CommandStep(events, n);
      if event.command.Some? {
        lastCommand := event.command;
      }
      if event.verdict == Some(Fail) {
        pendingFail := pendingFail[event.profile := n];
      } else if event.verdict == Some(Pass) {
        if event.profile in pendingFail {
          var fail := pendingFail[event.profile];
          var signature := if events[fail].signature.Some? then events[fail].signature.value
                           else event.profile + " verdict fail then pass";
          SignatureAgrees(events, n, pendingFail);
          candidates := candidates + [Fix(
            "error-fix:" + event.profile + ":" + signature,
            signature,
            [events[fail].id, event.id],
            event.profile,
            Distinct(ChangedPaths(events, events[fail].at, event.at)),
            lastCommand,
            events[fail].at,
            event.at)];
        }
        pendingFail := pendingFail - {event.profile};
      }
    }
  }

  lemma NothingPending(events: seq<Event>)
    ensures PendingIsLastFailure(events, 0, map[])
    ensures FixesOf(events, Pairs(events, 0)) == []
    ensures LastCommand(events, 0) == None
  {
  }

  lemma CommandStep(events: seq<Event>, n: nat)
    requires n < |events|
    ensures LastCommand(events, n + 1) == if events[n].command.Some? then events[n].command else LastCommand(events, n)
  {
  }

  lemma SignatureAgrees(events: seq<Event>, n: nat, pending: map<string, nat>)
    requires n < |events| && PendingIsLastFailure(events, n, pending) && events[n].profile in pending
    ensures pending[events[n].profile] < n && events[pending[events[n].profile]].profile == events[n].profile
  {
  }

  // ----- What the pairs are -----

  /** Exactly the consecutive fail-then-pass verdicts of one profile. */
  lemma {:induction false} PairsAreConsecutiveVerdicts(events: seq<Event>, n: nat, i: nat, j: nat)
    requires n <= |events|
    ensures Pair(i, j) in Pairs(events, n) <==> j < n && FailThenPass(events, i, j)
  {
    if n != 0 {
      PairsAreConsecutiveVerdicts(events, n - 1, i, j);
      var last := LastVerdict(events, n - 1, events[n - 1].profile);
      if j == n - 1 && FailThenPass(events, i, j) {
        assert HasVerdict(events[i], events[j].profile);
        assert last == Some(i);
      }
    }
  }

  ghost predicate EachOnce(pairs: seq<Pair>) {
    forall a, b :: 0 <= a < b < |pairs| ==> pairs[a].pass < pairs[b].pass && pairs[a].fail != pairs[b].fail
  }

  /** In time order, each pass closing one failure and each failure closed at most once. */
  lemma {:induction false} PairsUseEachVerdictOnce(events: seq<Event>, n: nat)
    requires n <= |events|
    ensures EachOnce(Pairs(events, n))
  {
    if n != 0 {
      PairsUseEachVerdictOnce(events, n - 1);
      var before, r := Pairs(events, n - 1), Pairs(events, n);
      if r != before {
        var last := r[|r| - 1];
        assert r == before + [last] && last.pass == n - 1 && last in r;
        forall a | 0 <= a < |before| ensures before[a].pass < last.pass && before[a].fail != last.fail {
          assert before[a] in before && before[a] in r;
          PairsAreConsecutiveVerdicts(events, n, before[a].fail, before[a].pass);
          PairsAreConsecutiveVerdicts(events, n, last.fail, last.pass);
          assert HasVerdict(events[before[a].pass], events[before[a].pass].profile);
        }
      }
    }
  }

  /** The latest command among the first `n` events, if any of them has one. */
  ghost predicate LatestCommand(events: seq<Event>, n: nat, command: Option<string>)
    requires n <= |events|
  {
    if command.None? then forall k :: 0 <= k < n ==> events[k].command.None?
    else exists k :: 0 <= k < n && events[k].command == command && forall l :: k < l < n ==> events[l].command.None?
  }

  /** What a mined fix says of the failure at `i` and the pass at `j`. */
  ghost predicate Tells(f: Fix, events: seq<Event>, i: nat, j: nat)
    requires i < |events| && j < |events|
  {
    && f.profile == events[j].profile
    && (match events[i].signature
        case Some(signature) => f.signature == signature
        case None => f.signature == events[i].profile + " verdict fail then pass")
    && f.key == "error-fix:" + f.profile + ":" + f.signature
    && f.evidence == [events[i].id, events[j].id]
    && f.failedAt == events[i].at && f.fixedAt == events[j].at
    && LatestCommand(events, j + 1, f.command)
    && NoDuplicates(f.changedFiles)
    && forall p :: p in f.changedFiles <==>
         exists k :: 0 <= k < |events| && events[i].at <= events[k].at <= events[j].at && events[k].changedPath == Some(p)
  }

  lemma FixTells(events: seq<Event>, i: nat, j: nat)
    requires i < |events| && j < |events|
    ensures Tells(FixOf(events, i, j), events, i, j)
  {
    var f := FixOf(events, i, j);
    assert f.changedFiles == Distinct(ChangedPaths(events, events[i].at, events[j].at));
    assert f.command == LastCommand(events, j + 1);
    ChangedBetween(events, events[i].at, events[j].at);
    hide ChangedPaths;
    hide Distinct;
    hide LastCommand;
  }

  lemma ChangedBetween(events: seq<Event>, from: nat, to: nat)
    ensures forall p :: p in ChangedPaths(events, from, to) <==>
      exists k :: 0 <= k < |events| && from <= events[k].at <= to && events[k].changedPath == Some(p)
  {
    ChangedPathsInWindow(events, from, to);
    hide ChangedPaths;
    forall p: string ensures p in ChangedPaths(events, from, to) <==>
      exists k :: 0 <= k < |events| && from <= events[k].at <= to && events[k].changedPath == Some(p)
    {
      if p in ChangedPaths(events, from, to) {
        var e :| e in events && from <= e.at <= to && e.changedPath == Some(p);
        var k :| 0 <= k < |events| && events[k] == e;
      }
    }
  }

  /** One fix per pair, in order of the passes; the pairs are the consecutive fail-then-pass verdicts. */
  ghost predicate FixesPairs(events: seq<Event>, fixes: seq<Fix>, pairs: seq<Pair>) {
    && |pairs| == |fixes|
    && (forall a, b :: 0 <= a < b < |pairs| ==> pairs[a].pass < pairs[b].pass)
    && (forall i, j :: FailThenPass(events, i, j) <==> Pair(i, j) in pairs)
    && (forall k :: 0 <= k < |pairs| ==>
         pairs[k].fail < |events| && pairs[k].pass < |events| && Tells(fixes[k], events, pairs[k].fail, pairs[k].pass))
  }

  /**
   * End to end: the mined candidates are one per consecutive fail-then-pass verdict pair of the
   * time-ordered trace, in order of the passes, each telling its failure, its pass, the files
   * changed between them and the latest command up to the pass.
   */
  lemma MinedFixesAreThePairs(trace: seq<Event>)
    ensures var events := TimeOrdered(trace);
      exists pairs :: FixesPairs(events, FixesOf(events, Pairs(events, |events|)), pairs)
  {
    hide TimeOrdered;
    MinedInOrder(TimeOrdered(trace));
    hide FixesPairs;
  }

  lemma MinedInOrder(events: seq<Event>)
    ensures FixesPairs(events, FixesOf(events, Pairs(events, |events|)), Pairs(events, |events|))
  {
    hide Pairs;
    hide FixesOf;
    hide FailThenPass;
    hide Tells;
    PairsUseEachVerdictOnce(events, |events|);
    PairsAreTheVerdicts(events);
    FixesTell(events, Pairs(events, |events|));
  }

  lemma PairsAreTheVerdicts(events: seq<Event>)
    ensures forall i, j :: FailThenPass(events, i, j) <==> Pair(i, j) in Pairs(events, |events|)
  {
    forall i: nat, j: nat ensures FailThenPass(events, i, j) <==> Pair(i, j) in Pairs(events, |events|) {
      PairsAreConsecutiveVerdicts(events, |events|, i, j);
    }
  }

  lemma FixesTell(events: seq<Event>, pairs: seq<Pair>)
    requires forall p :: p in pairs ==> p.fail < p.pass < |events|
    ensures |FixesOf(events, pairs)| == |pairs|
    ensures forall k :: 0 <= k < |pairs| ==>
      pairs[k].fail < |events| && pairs[k].pass < |events| && Tells(FixesOf(events, pairs)[k], events, pairs[k].fail, pairs[k].pass)
  {
    hide Tells;
    hide FixOf;
    forall k | 0 <= k < |pairs|
      ensures |FixesOf(events, pairs)| == |pairs| && pairs[k].fail < |events| && pairs[k].pass < |events|
      ensures Tells(FixesOf(events, pairs)[k], events, pairs[k].fail, pairs[k].pass)
    {
      FixesOfAt(events, pairs, k);
      FixTells(events, pairs[k].fail, pairs[k].pass);
    }
  }

  lemma {:induction false} ChangedPathsInWindow(events: seq<Event>, from: nat, to: nat)
    ensures forall p :: p in ChangedPaths(events, from, to) <==>
      exists e :: e in events && from <= e.at <= to && e.changedPath == Some(p)
  {
    if events != [] {
      ChangedPathsInWindow(events[1..], from, to);
      assert forall e :: e in events <==> e == events[0] || e in events[1..];
    }
  }
}
