// Collation of service URLs for one synchronous request: duplicates are dropped and net.slp.maxResults is kept.
module Collate {
  import opened Bytes
  import opened LinkedList

  const INT_MAX := 0x7FFFFFFF

  /** What the network layer reports, and what the caller's callback is told. */
  datatype Arrival = Url(url: seq<byte>, lifetime: nat) | LastCall | Failure(errorcode: int)

  // ----- The request as a function -----

  /** The collated URLs, the number of results counted, and the calls made to the caller. */
  datatype State = State(urls: seq<seq<byte>>, count: int, told: seq<Arrival>)

  function Limit(maxResults: int): int {
    if maxResults == -1 then INT_MAX else maxResults
  }

  /** One arrival; `goOn` is what the caller's callback answers. The flag is false when the request is over. */
  function Step(s: State, a: Arrival, maxResults: int, goOn: bool): (State, bool) {
    if a.LastCall? || s.count > Limit(maxResults) then (State([], 0, s.told + [LastCall]), false)
    else if a.Failure? then (s, true)
    else if a.url in s.urls then (s.(count := s.count + 1), true)
    else if goOn then (State(s.urls + [a.url], s.count + 1, s.told + [a]), true)
    else (State([], 0, s.told + [a]), false)
  }

  /** A request whose caller never stops it; arrivals after its end are not looked at. */
  function Run(trace: seq<Arrival>, maxResults: int): (State, bool) {
    if trace == [] then (State([], 0, []), true) else
      var (s, running) := Run(trace[..|trace| - 1], maxResults);
      if running then Step(s, trace[|trace| - 1], maxResults, true) else (s, false)
  }

  /** The successful arrivals before the first LastCall. */
  function Successes(trace: seq<Arrival>): seq<Arrival> {
    if trace == [] then [] else
      var before, last := trace[..|trace| - 1], trace[|trace| - 1];
      if last.Url? && LastCall !in before then Successes(before) + [last] else Successes(before)
  }

  ghost predicate HasUrl(s: seq<Arrival>, url: seq<byte>) {
    exists i :: 0 <= i < |s| && s[i].Url? && s[i].url == url
  }

  /** The arrivals whose URL did not arrive before. */
  ghost function FirstOccurrences(s: seq<Arrival>): seq<Arrival> {
    if s == [] then [] else
      var before, last := s[..|s| - 1], s[|s| - 1];
      FirstOccurrences(before) + (if last.Url? && HasUrl(before, last.url) then [] else [last])
  }

  ghost function Firsts(s: seq<Arrival>, n: int): seq<Arrival> {
    if n <= 0 then [] else if n >= |s| then s else s[..n]
  }

  lemma {:induction false} SuccessesAreUrls(trace: seq<Arrival>)
    ensures forall i :: 0 <= i < |Successes(trace)| ==> Successes(trace)[i].Url?
  {
    if trace != [] { SuccessesAreUrls(trace[..|trace| - 1]); }
  }

  lemma {:induction false} SameUrls(s: seq<Arrival>, url: seq<byte>)
    requires forall i :: 0 <= i < |s| ==> s[i].Url?
    ensures HasUrl(FirstOccurrences(s), url) <==> HasUrl(s, url)
    ensures forall i :: 0 <= i < |FirstOccurrences(s)| ==> FirstOccurrences(s)[i].Url?
  {
    if s != [] {
      var before, last := s[..|s| - 1], s[|s| - 1];
      SameUrls(before, url);
      assert s == before + [last];
      HasUrlConcat(before, last, url);
      HasUrlConcat(FirstOccurrences(before), last, url);
      assert FirstOccurrences(before) + [] == FirstOccurrences(before);
    }
  }

  /** Every URL is among the first occurrences, and only once. */
  lemma {:induction false} EachUrlOnce(s: seq<Arrival>)
    requires forall i :: 0 <= i < |s| ==> s[i].Url?
    ensures forall u :: HasUrl(FirstOccurrences(s), u) <==> HasUrl(s, u)
    ensures var f := FirstOccurrences(s);
            forall i, j :: 0 <= i < j < |f| ==> f[i].Url? && f[j].Url? && f[i].url != f[j].url
  {
    forall u ensures HasUrl(FirstOccurrences(s), u) <==> HasUrl(s, u) { SameUrls(s, u); }
    if s != [] {
      var before, last := s[..|s| - 1], s[|s| - 1];
      EachUrlOnce(before);
      SameUrls(before, last.url);
      SameUrls(s, last.url);
    }
  }

  lemma HasUrlConcat(s: seq<Arrival>, last: Arrival, url: seq<byte>)
    ensures HasUrl(s + [last], url) <==> HasUrl(s, url) || (last.Url? && last.url == url)
  {
    var t := s + [last];
    if HasUrl(s, url) {
      var i :| 0 <= i < |s| && s[i].Url? && s[i].url == url;
      assert t[i].url == url;
    }
    if last.Url? && last.url == url { assert t[|s|].url == url; }
  }

  /** The state while the request runs. */
  ghost predicate Running(s: State, trace: seq<Arrival>, maxResults: int) {
    var all := Successes(trace);
    && LastCall !in trace && s.count == |all| && (|all| == 0 || |all| <= Limit(maxResults) + 1)
    && s.told == FirstOccurrences(all)
    && forall u :: u in s.urls <==> HasUrl(all, u)
  }

  /** The state once it is over. */
  ghost predicate Over(s: State, trace: seq<Arrival>, maxResults: int) {
    var all := Successes(trace);
    && (LastCall in trace || |all| > Limit(maxResults))
    && s == State([], 0, FirstOccurrences(Firsts(all, Limit(maxResults) + 1)) + [LastCall])
  }

  lemma SuccessesStep(before: seq<Arrival>, a: Arrival)
    ensures Successes(before + [a]) ==
               if a.Url? && LastCall !in before then Successes(before) + [a] else Successes(before)
  {
    assert (before + [a])[..|before|] == before;
  }

  lemma FirstOccurrencesStep(all: seq<Arrival>, a: Arrival)
    requires a.Url?
    ensures FirstOccurrences(all + [a]) == FirstOccurrences(all) + (if HasUrl(all, a.url) then [] else [a])
  {
    assert (all + [a])[..|all|] == all;
  }

  lemma FirstsStep(all: seq<Arrival>, a: Arrival, n: int)
    requires |all| >= n
    ensures Firsts(all + [a], n) == Firsts(all, n)
  {
    if n > 0 { assert (all + [a])[..n] == all[..n]; }
  }

  /** The arrival ends the request. */
  lemma RunEnds(s: State, before: seq<Arrival>, a: Arrival, maxResults: int)
    requires Running(s, before, maxResults) && (a.LastCall? || s.count > Limit(maxResults))
    ensures Over(Step(s, a, maxResults, true).0, before + [a], maxResults)
  {
    hide Successes, FirstOccurrences, Limit;
    SuccessesStep(before, a);
    var all := Successes(before);
    if |all| > Limit(maxResults) { FirstsStep(all, a, Limit(maxResults) + 1); }
    assert (before + [a])[|before|] == a;
  }

  /** The arrival is counted, and reported if it is new. */
  lemma RunCounts(s: State, before: seq<Arrival>, a: Arrival, maxResults: int)
    requires Running(s, before, maxResults) && a.Url? && s.count <= Limit(maxResults)
    ensures Running(Step(s, a, maxResults, true).0, before + [a], maxResults)
  {
    hide Successes, FirstOccurrences, Limit, HasUrl;
    SuccessesStep(before, a);
    var all := Successes(before);
    FirstOccurrencesStep(all, a);
    assert FirstOccurrences(all) + [] == FirstOccurrences(all);
    forall u ensures HasUrl(all + [a], u) <==> HasUrl(all, u) || a.url == u { HasUrlConcat(all, a, u); }
  }

  lemma RunStep(s: State, before: seq<Arrival>, a: Arrival, maxResults: int)
    requires Running(s, before, maxResults)
    ensures var (s', running) := Step(s, a, maxResults, true); var trace := before + [a];
            if running then Running(s', trace, maxResults) else Over(s', trace, maxResults)
  {
    hide Successes, FirstOccurrences, Limit, HasUrl, Over;
    if a.LastCall? || s.count > Limit(maxResults) {
      RunEnds(s, before, a, maxResults);
    } else if a.Url? {
      RunCounts(s, before, a, maxResults);
    } else {
      SuccessesStep(before, a);
    }
  }

  lemma OverStays(s: State, before: seq<Arrival>, a: Arrival, maxResults: int)
    requires Over(s, before, maxResults)
    ensures Over(s, before + [a], maxResults)
  {
    hide Successes, FirstOccurrences, Limit;
    SuccessesStep(before, a);
    var all := Successes(before);
    if LastCall in before { assert LastCall in before + [a]; }
    if |all| > Limit(maxResults) { FirstsStep(all, a, Limit(maxResults) + 1); }
  }

  lemma {:induction false} RunInvariant(trace: seq<Arrival>, maxResults: int)
    ensures var (s, running) := Run(trace, maxResults);
            if running then Running(s, trace, maxResults) else Over(s, trace, maxResults)
  {
    if trace != [] {
      hide Running, Over, Step;
      var before, last := trace[..|trace| - 1], trace[|trace| - 1];
      RunInvariant(before, maxResults);
      var (s, running) := Run(before, maxResults);
      assert trace == before + [last];
      if running { RunStep(s, before, last, maxResults); } else { OverStays(s, before, last, maxResults); }
    }
  }

  /**
   * Main result, over every trace: the caller is told the first occurrences among the first
   * maxResults + 1 successful arrivals, and a last call once the request is over.
   */
  lemma Delivered(trace: seq<Arrival>, maxResults: int)
    ensures var (s, running) := Run(trace, maxResults);
            s.told == FirstOccurrences(Firsts(Successes(trace), Limit(maxResults) + 1))
                           + (if running then [] else [LastCall])
  {
    RunInvariant(trace, maxResults);
    var (s, running) := Run(trace, maxResults);
    if running { assert s.told + [] == s.told; }
  }

  /** With a limit of its own, the request ends after one result more; with -1 everything is delivered. */
  lemma DeliveredUpTo(trace: seq<Arrival>, maxResults: int)
    requires maxResults >= 0 || (maxResults == -1 && |trace| <= 0x7FFFFFFF)
    ensures var (s, running) := Run(trace, maxResults); var all := Successes(trace);
            var some := if maxResults >= 0 && |all| > maxResults then all[..maxResults + 1] else all;
            s.told == FirstOccurrences(some) + (if running then [] else [LastCall])
  {
    hide Run, FirstOccurrences, Successes;
    Delivered(trace, maxResults);
    FewerSuccesses(trace);
    var all := Successes(trace);
    if |all| > 0 { assert all[..|all|] == all; }
  }

  lemma {:induction false} FewerSuccesses(trace: seq<Arrival>)
    ensures |Successes(trace)| <= |trace|
  {
    if trace != [] { FewerSuccesses(trace[..|trace| - 1]); }
  }

  // ----- A caller that stops the request -----

  /** A request whose caller's callback answers its n-th call by `answers(n)`. */
  function Answered(trace: seq<Arrival>, maxResults: int, answers: nat -> bool): (State, bool) {
    if trace == [] then (State([], 0, []), true) else
      var (s, running) := Answered(trace[..|trace| - 1], maxResults, answers);
      if running then Step(s, trace[|trace| - 1], maxResults, answers(|s.told|)) else (s, false)
  }

  /** The first call with a URL that the caller answers by SLP_FALSE. */
  function FirstStop(told: seq<Arrival>, answers: nat -> bool): (n: nat)
    ensures n <= |told| && (n < |told| ==> told[n].Url? && !answers(n))
    ensures forall i :: 0 <= i < n ==> told[i].Url? ==> answers(i)
  {
    if told == [] then 0 else
      var before, last := told[..|told| - 1], told[|told| - 1];
      var n := FirstStop(before, answers);
      if n < |before| then n else if last.Url? && !answers(n) then n else n + 1
  }

  lemma StopLater(told: seq<Arrival>, more: Arrival, answers: nat -> bool)
    ensures var n := FirstStop(told, answers);
            FirstStop(told + [more], answers)
            == if n < |told| then n else if more.Url? && !answers(n) then n else n + 1
  {
    assert (told + [more])[..|told|] == told;
  }

  /** A step tells at most one thing more, and what it does depends on the answer for a new URL only. */
  lemma StepTells(s: State, a: Arrival, maxResults: int, goOn: bool)
    ensures var (t, running) := Step(s, a, maxResults, true); var (u, going) := Step(s, a, maxResults, goOn);
            && (t.told == s.told || (|t.told| == |s.told| + 1 && t.told == s.told + [t.told[|s.told|]]))
            && (t.told != s.told && t.told[|s.told|].Url? && !goOn ==> u == State([], 0, t.told) && !going)
            && (t.told == s.told || !t.told[|s.told|].Url? || goOn ==> u == t && going == running)
  {
  }

  /**
   * Main result, over every trace: the caller is told what one is told that never stops the request, up to and with
   * the first URL that it answers by SLP_FALSE. Then the request is over, and nothing is left of it.
   */
  lemma {:induction false} StoppedThere(trace: seq<Arrival>, maxResults: int, answers: nat -> bool)
    ensures var (s, running) := Run(trace, maxResults); var n := FirstStop(s.told, answers);
            Answered(trace, maxResults, answers)
            == if n < |s.told| then (State([], 0, s.told[..n + 1]), false) else (s, running)
  {
    hide Step, FirstStop;
    if trace == [] {
      NothingStopped(answers);
    } else {
      var before, last := trace[..|trace| - 1], trace[|trace| - 1];
      StoppedThere(before, maxResults, answers);
      var (s, running) := Run(before, maxResults);
      var n := FirstStop(s.told, answers);
      if running {
        var t := Step(s, last, maxResults, true).0;
        StepTells(s, last, maxResults, answers(|s.told|));
        if t.told != s.told {
          StopLater(s.told, t.told[|s.told|], answers);
          if n < |s.told| { assert t.told[..n + 1] == s.told[..n + 1]; }
          assert t.told[..|t.told|] == t.told;
        }
      }
    }
  }

  lemma NothingStopped(answers: nat -> bool)
    ensures FirstStop([], answers) == 0
  {
  }

  // ----- When the limit is kept -----

  /** How many URLs are among the calls made to the caller. */
  function UrlsTold(told: seq<Arrival>): nat {
    if told == [] then 0 else UrlsTold(told[..|told| - 1]) + if told[|told| - 1].Url? then 1 else 0
  }

  ghost predicate DifferentUrls(s: seq<Arrival>) {
    forall i, j :: 0 <= i < j < |s| && s[i].Url? && s[j].Url? ==> s[i].url != s[j].url
  }

  lemma DifferentStep(before: seq<Arrival>, last: Arrival)
    requires last.Url?
    ensures DifferentUrls(before + [last]) <==> DifferentUrls(before) && !HasUrl(before, last.url)
  {
    var s := before + [last];
    if DifferentUrls(s) {
      forall i | 0 <= i < |before| && before[i].Url? ensures before[i].url != last.url {
        assert s[i] == before[i] && s[|before|] == last;
      }
      forall i, j | 0 <= i < j < |before| && before[i].Url? && before[j].Url? ensures before[i].url != before[j].url {
        assert s[i] == before[i] && s[j] == before[j];
      }
    }
    if DifferentUrls(before) && !HasUrl(before, last.url) {
      forall i, j | 0 <= i < j < |s| && s[i].Url? && s[j].Url? ensures s[i].url != s[j].url {
        assert s[i] == before[i];
      }
    }
  }

  lemma {:induction false} AllAreTold(s: seq<Arrival>)
    requires forall i :: 0 <= i < |s| ==> s[i].Url?
    ensures |FirstOccurrences(s)| <= |s| && (|FirstOccurrences(s)| == |s| <==> DifferentUrls(s))
  {
    hide HasUrl, DifferentUrls;
    if s != [] {
      var before, last := s[..|s| - 1], s[|s| - 1];
      assert s == before + [last];
      AllAreTold(before);
      DifferentStep(before, last);
      FirstOccurrencesStep(before, last);
    } else {
      assert DifferentUrls(s) by { NoneDiffer(s); }
    }
  }

  lemma NoneDiffer(s: seq<Arrival>)
    requires s == []
    ensures DifferentUrls(s)
  {
  }

  lemma {:induction false} CountUrls(s: seq<Arrival>)
    requires forall i :: 0 <= i < |s| ==> s[i].Url?
    ensures UrlsTold(s) == |s| && UrlsTold(s + [LastCall]) == |s| && UrlsTold(s + []) == |s|
  {
    assert (s + [LastCall])[..|s|] == s && s + [] == s;
    if s != [] { CountUrls(s[..|s| - 1]); }
  }

  /**
   * Main result: the caller is told more URLs than the limit allows if and only if more successes arrive than
   * that and the first of them, up to one more than the limit, have different URLs.
   */
  lemma LimitExceededIff(trace: seq<Arrival>, maxResults: int)
    ensures var all, limit := Successes(trace), Limit(maxResults);
      UrlsTold(Run(trace, maxResults).0.told) > limit <==> |all| > limit && DifferentUrls(Firsts(all, limit + 1))
  {
    hide DifferentUrls, FirstOccurrences, Limit, Successes, Run, HasUrl, UrlsTold;
    var all, limit := Successes(trace), Limit(maxResults);
    var some := Firsts(all, limit + 1);
    Delivered(trace, maxResults);
    SuccessesAreUrls(trace);
    AllAreTold(some);
    SameUrls(some, []);
    CountUrls(FirstOccurrences(some));
    assert UrlsTold(Run(trace, maxResults).0.told) == |FirstOccurrences(some)|;
    assert limit >= 0 && |all| > limit ==> |some| == limit + 1;
    assert limit >= 0 && |all| <= limit ==> some == all;
    if |some| == 0 { NoneDiffer(some); }
  }

  /** A failing input: with maxResults 1, two different URLs are both told. */
  lemma LimitExceeded(a: seq<byte>, b: seq<byte>)
    requires a != b
    ensures UrlsTold(Run([Url(a, 1), Url(b, 1)], 1).0.told) == 2
  {
    var trace := [Url(a, 1), Url(b, 1)];
    CountUrls(trace);
    assert trace[..1] == [Url(a, 1)] && trace[..1][..0] == [];
    assert Run(trace[..1], 1) == (State([] + [a], 1, [] + [Url(a, 1)]), true);
    assert [] + [a] == [a] && [] + [Url(a, 1)] == trace[..1];
    assert Run(trace, 1).0.told == trace[..1] + [Url(b, 1)] == trace;
  }

  // ----- The callback -----

  class SLPHandleInfo {
    const collatedsrvurls: SLPList<seq<byte>>
    var callbackcount: int
    ghost var told: seq<Arrival>

    ghost predicate Valid()
      reads this, collatedsrvurls, collatedsrvurls.nodes
    {
      collatedsrvurls.Valid()
    }

    ghost function Value(): State
      reads this, collatedsrvurls
    {
      State(collatedsrvurls.Values(), callbackcount, told)
    }

    constructor ()
      ensures Valid() && Value() == State([], 0, []) && fresh(collatedsrvurls)
    {
      collatedsrvurls := new SLPList<seq<byte>>();
      callbackcount := 0;
      told := [];
    }

    /**
     * CollateToSLPSrvURLCallback of a synchronous request, with the value of net.slp.maxResults and the answer
     * of the caller's callback.
     */
    method CollateToSLPSrvURLCallback(a: Arrival, maxResultsProperty: int, goOn: bool) returns (more: bool)
      requires Valid()
      modifies this, collatedsrvurls, collatedsrvurls.nodes
      ensures Valid() && (Value(), more) == Step(old(Value()), a, maxResultsProperty, goOn)
      ensures !more ==> collatedsrvurls.nodes == [] && callbackcount == 0
    {
      hide SLPList.Valid, SLPList.Values;
      var maxResults := maxResultsProperty;
      if maxResults == -1 { maxResults := INT_MAX; }
      if a.LastCall? || callbackcount > maxResults {
        told := told + [LastCall];
        FreeCollation();
        return false;
      } else if a.Failure? {
        return true;
      }
      callbackcount := callbackcount + 1;
      var collateditem := FindUrl(a.url);
      if collateditem == null {
        var item := new ListItem(a.url);
        collatedsrvurls.LinkTail(item);
        told := told + [a];
        if !goOn {
          FreeCollation();
          return false;
        }
      }
      return true;
    }

    /** The search for the URL in the collation list. */
    method FindUrl(url: seq<byte>) returns (item: ListItem?<seq<byte>>)
      requires Valid()
      ensures item == null <==> url !in collatedsrvurls.Values()
      ensures item != null ==> item in collatedsrvurls.nodes
    {
      ghost var k, vs := 0, collatedsrvurls.Values();
      item := collatedsrvurls.head;
      while item != null
        invariant k <= |vs| && item == (if k < |vs| then collatedsrvurls.nodes[k] else null)
        invariant forall i :: 0 <= i < k ==> vs[i] != url
        decreases |vs| - k
      {
        assert collatedsrvurls.Linked(k) && vs[k] == item.val;
        if item.val == url { return; }
        item := item.next;
        k := k + 1;
      }
    }

    /** The CLEANUP label: unlinks and frees every item, and resets the counter. */
    method FreeCollation()
      requires Valid()
      modifies this`callbackcount, collatedsrvurls, collatedsrvurls.nodes
      ensures Valid() && collatedsrvurls.nodes == [] && collatedsrvurls.Values() == [] && callbackcount == 0
    {
      ghost var nodes, n := collatedsrvurls.nodes, 0;
      while collatedsrvurls.count != 0
        invariant Valid() && n <= |nodes| && collatedsrvurls.nodes == nodes[n..]
        decreases |nodes| - n
      {
        collatedsrvurls.Unlink(collatedsrvurls.head, 0);
        n := n + 1;
      }
      callbackcount := 0;
    }
  }
}
