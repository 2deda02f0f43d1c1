/**
  The two fixed-window limiters: an agent key's requests a minute, counted in one SQL statement
  (core/agent_keys.go), and an operator's panel reports, counted in a shared in-memory map
  (core/error_tracker.go). Times are whole microseconds.
*/
module RateLimit {
  import opened Basics

  const SECOND := 1_000_000
  const MINUTE := 60 * SECOND
  const REPORT_LIMIT := 20
  const PRUNE_ABOVE := 10000

  datatype Kind = AgentKey | PanelReport

  /** A window that has counted at least the request that opened it. */
  datatype WindowRow = Window(start: int, n: nat)
  type Window = w: WindowRow | w.n >= 1 witness Window(0, 1)

  /** The agent's window lasts until a whole minute has gone by; the panel's a moment longer. */
  predicate Expired(kind: Kind, start: int, now: int) {
    match kind
    case AgentKey => start <= now - MINUTE
    case PanelReport => now - start > MINUTE
  }

  /** The window once a request at `now` has been counted. */
  function Hit(kind: Kind, w: Option<Window>, now: int): Window {
    if w.None? || Expired(kind, w.value.start, now) then Window(now, 1) else Window(w.value.start, w.value.n + 1)
  }

  function CountIf(admitted: bool): nat { if admitted then 1 else 0 }

  /** How many of these requests, in order, are let through. */
  function Admitted(kind: Kind, limit: int, w: Option<Window>, times: seq<int>): nat
    decreases times
  {
    if times == [] then 0
    else
      var v := Hit(kind, w, times[0]);
      CountIf(v.n <= limit) + Admitted(kind, limit, Some(v), times[1..])
  }

  ghost predicate NonDecreasing(times: seq<int>) {
    forall i, j :: 0 <= i <= j < |times| ==> times[i] <= times[j]
  }

  // --------------------------------------------- how much one minute can let through

  /** Requests that all fall in the open window share what it has left. */
  lemma {:induction false} SameWindow(kind: Kind, limit: int, w: Window, times: seq<int>)
    requires limit >= 0
    requires forall i :: 0 <= i < |times| ==> !Expired(kind, w.start, times[i])
    ensures Admitted(kind, limit, Some(w), times) <= if w.n <= limit then limit - w.n else 0
    decreases times
  {
    if times != [] {
      SameWindow(kind, limit, Window(w.start, w.n + 1), times[1..]);
    }
  }

  /** If the window can turn over only where the next one outlasts every request, it turns over once. */
  lemma {:induction false} AtMostOneMoreWindow(kind: Kind, limit: int, w: Window, times: seq<int>)
    requires limit >= 0 && NonDecreasing(times)
    requires forall i, j :: 0 <= i <= j < |times| && Expired(kind, w.start, times[i]) ==> !Expired(kind, times[i], times[j])
    ensures Admitted(kind, limit, Some(w), times) <= (if w.n <= limit then limit - w.n else 0) + limit
    decreases times
  {
    if times != [] {
      var rest := times[1..];
      assert forall i :: 0 <= i < |rest| ==> rest[i] == times[i + 1];
      if Expired(kind, w.start, times[0]) {
        SameWindow(kind, limit, Window(times[0], 1), rest);
      } else {
        AtMostOneMoreWindow(kind, limit, Window(w.start, w.n + 1), rest);
      }
    }
  }

  /**
    Whatever was counted before, requests no more than a minute apart get at most twice the limit -
    and, unless the last comes when a window opened by the first would already have run out, one
    fewer than that, because the first window has spent a request before the boundary.
  */
  lemma AtMostTwiceTheLimit(kind: Kind, limit: int, w: Option<Window>, times: seq<int>)
    requires limit >= 1 && times != [] && NonDecreasing(times)
    requires times[|times| - 1] - times[0] <= MINUTE
    ensures Admitted(kind, limit, w, times) <= 2 * limit
    ensures !Expired(kind, times[0], times[|times| - 1]) ==> Admitted(kind, limit, w, times) <= 2 * limit - 1
  {
    var first, last, rest := times[0], times[|times| - 1], times[1..];
    assert forall i :: 0 <= i < |rest| ==> rest[i] == times[i + 1] && first <= rest[i] <= last;
    var v := Hit(kind, w, first);
    if v.start == first {
      if Expired(kind, first, last) {
        AtMostOneMoreWindow(kind, limit, v, rest);
      } else {
        SameWindow(kind, limit, v, rest);
      }
    } else {
      AtMostOneMoreWindow(kind, limit, v, rest);
    }
  }

  function Repeat(t: int, k: nat): (s: seq<int>)
    ensures |s| == k && forall i :: 0 <= i < k ==> s[i] == t
  {
    if k == 0 then [] else [t] + Repeat(t, k - 1)
  }

  lemma {:induction false} RepeatedHits(kind: Kind, limit: int, w: Window, t: int, k: nat, after: seq<int>)
    requires !Expired(kind, w.start, t) && w.n + k <= limit
    ensures Admitted(kind, limit, Some(w), Repeat(t, k) + after) ==
            k + Admitted(kind, limit, Some(Window(w.start, w.n + k)), after)
    decreases k
  {
    var s := Repeat(t, k) + after;
    if k == 0 {
      assert s == after;
    } else {
      assert s[1..] == Repeat(t, k - 1) + after;
      RepeatedHits(kind, limit, Window(w.start, w.n + 1), t, k - 1, after);
    }
  }

  /** A burst that finds the window run out has the whole limit for itself. */
  lemma FreshBurst(kind: Kind, limit: int, w: Option<Window>, t: int)
    requires limit >= 1 && (w.Some? ==> Expired(kind, w.value.start, t))
    ensures Admitted(kind, limit, w, Repeat(t, limit)) == limit
  {
    var burst := Repeat(t, limit);
    assert burst[1..] == Repeat(t, limit - 1);
    assert burst[1..] + [] == burst[1..];
    RepeatedHits(kind, limit, Window(t, 1), t, limit - 1, []);
  }

  /** The smaller bound is met by either limiter: one second across a boundary can let 2 * limit - 1 through. */
  lemma BoundIsMet(kind: Kind, limit: int)
    requires limit >= 1
    ensures var burst := Repeat(MINUTE + 1 - SECOND, limit - 1) + Repeat(MINUTE + 1, limit);
            Admitted(kind, limit, Some(Hit(kind, None, 0)), burst) == 2 * limit - 1
  {
    RepeatedHits(kind, limit, Window(0, 1), MINUTE + 1 - SECOND, limit - 1, Repeat(MINUTE + 1, limit));
    FreshBurst(kind, limit, Some(Window(0, limit)), MINUTE + 1);
  }

  /** The larger is met over exactly a minute: the window the first request opened has just run out. */
  lemma FullMinuteBoundIsMet(limit: int)
    requires limit >= 1
    ensures var requests := Repeat(0, limit) + Repeat(MINUTE, limit);
            && requests[|requests| - 1] - requests[0] == MINUTE
            && Admitted(AgentKey, limit, None, requests) == 2 * limit
  {
    var requests := Repeat(0, limit) + Repeat(MINUTE, limit);
    assert requests[1..] == Repeat(0, limit - 1) + Repeat(MINUTE, limit);
    RepeatedHits(AgentKey, limit, Window(0, 1), 0, limit - 1, Repeat(MINUTE, limit));
    FreshBurst(AgentKey, limit, Some(Window(0, limit)), MINUTE);
  }

  // ------------------------------------------------------------- Retry-After

  /** What a refused agent key is told to wait, in whole seconds, never less than one. */
  function RetryAfterSeconds(wait: int): int {
    var up := (wait + SECOND - 1) / SECOND;
    if up < 1 then 1 else up
  }

  /**
    A key with a rate, refused at `now` and sending nothing else, is admitted at exactly the times
    the wait allows; so the whole seconds it is told are always enough.
  */
  lemma RetryAfterIsExact(limit: int, w: Option<Window>, now: int, later: int)
    requires limit >= 1 && later >= now
    requires Hit(AgentKey, w, now).n > limit
    ensures var v := Hit(AgentKey, w, now);
            var wait := v.start + MINUTE - now;
            && (Hit(AgentKey, Some(v), later).n <= limit <==> later >= now + wait)
            && (later >= now + RetryAfterSeconds(wait) * SECOND ==> Hit(AgentKey, Some(v), later).n <= limit)
  {
    var wait := Hit(AgentKey, w, now).start + MINUTE - now;
    assert RetryAfterSeconds(wait) * SECOND >= wait;
  }

  // --------------------------------------------------------- the shared table

  datatype Request<K> = Request(key: K, limit: int, now: int)

  function Lookup<K>(table: map<K, Window>, key: K): Option<Window> {
    if key in table then Some(table[key]) else None
  }

  function Counted<K>(kind: Kind, table: map<K, Window>, r: Request<K>): map<K, Window> {
    table[r.key := Hit(kind, Lookup(table, r.key), r.now)]
  }

  function Allowed<K>(kind: Kind, table: map<K, Window>, r: Request<K>): bool {
    Hit(kind, Lookup(table, r.key), r.now).n <= r.limit
  }

  function Answers<K>(kind: Kind, table: map<K, Window>, log: seq<Request<K>>): (a: seq<bool>)
    ensures |a| == |log|
    decreases log
  {
    if log == [] then [] else [Allowed(kind, table, log[0])] + Answers(kind, Counted(kind, table, log[0]), log[1..])
  }

  /** How many of one key's requests a log of everybody's lets through. */
  function AdmittedTo<K(==)>(kind: Kind, table: map<K, Window>, log: seq<Request<K>>, key: K): nat
    decreases log
  {
    if log == [] then 0
    else CountIf(log[0].key == key && Allowed(kind, table, log[0]))
         + AdmittedTo(kind, Counted(kind, table, log[0]), log[1..], key)
  }

  function TimesOf<K(==)>(log: seq<Request<K>>, key: K): seq<int> {
    if log == [] then []
    else (if log[0].key == key then [log[0].now] else []) + TimesOf(log[1..], key)
  }

  ghost predicate InOrder<K(!new)>(log: seq<Request<K>>) {
    forall i, j :: 0 <= i <= j < |log| ==> log[i].now <= log[j].now
  }

  /** Keys do not disturb one another: each is counted as though its requests were the only ones. */
  lemma {:induction false} KeysAreIndependent<K(!new)>(kind: Kind, limit: int, table: map<K, Window>,
                                                       log: seq<Request<K>>, key: K)
    requires forall r :: r in log && r.key == key ==> r.limit == limit
    ensures AdmittedTo(kind, table, log, key) == Admitted(kind, limit, Lookup(table, key), TimesOf(log, key))
    decreases log
  {
    if log != [] {
      var r := log[0];
      assert r in log;
      KeysAreIndependent(kind, limit, Counted(kind, table, r), log[1..], key);
      if r.key == key {
        assert TimesOf(log, key)[0] == r.now && TimesOf(log, key)[1..] == TimesOf(log[1..], key);
      } else {
        assert TimesOf(log, key) == TimesOf(log[1..], key);
      }
    }
  }

  lemma {:induction false} TimesAreInOrder<K(!new)>(log: seq<Request<K>>, key: K, lo: int, hi: int)
    requires InOrder(log) && forall r :: r in log ==> lo <= r.now <= hi
    ensures NonDecreasing(TimesOf(log, key))
    ensures forall i :: 0 <= i < |TimesOf(log, key)| ==> lo <= TimesOf(log, key)[i] <= hi
  {
    if log != [] {
      forall r | r in log[1..] ensures log[0].now <= r.now <= hi {
        var i :| 0 <= i < |log[1..]| && log[1..][i] == r;
        assert log[i + 1] == r && r in log;
      }
      assert log[0] in log;
      TimesAreInOrder(log[1..], key, log[0].now, hi);
    }
  }

  /**
    The limiter's promise: in any minute of any log, one key gets at most twice its limit, and one fewer
    where the minute is not full, or the limiter is the panel's, whose window outlasts it.
  */
  lemma EveryMinuteIsBounded<K(!new)>(kind: Kind, limit: int, table: map<K, Window>, log: seq<Request<K>>, key: K)
    requires limit >= 1 && InOrder(log) && log != []
    requires log[|log| - 1].now - log[0].now <= MINUTE
    requires forall r :: r in log && r.key == key ==> r.limit == limit
    ensures AdmittedTo(kind, table, log, key) <= 2 * limit
    ensures kind.PanelReport? || log[|log| - 1].now - log[0].now < MINUTE ==> AdmittedTo(kind, table, log, key) <= 2 * limit - 1
  {
    var times := TimesOf(log, key);
    TimesAreInOrder(log, key, log[0].now, log[|log| - 1].now);
    KeysAreIndependent(kind, limit, table, log, key);
    if times != [] {
      AtMostTwiceTheLimit(kind, limit, Lookup(table, key), times);
    }
  }

  // ----------------------------------------------------------------- pruning

  function Prune<K>(table: map<K, Window>, now: int): map<K, Window> {
    map k | k in table && now - table[k].start <= MINUTE :: table[k]
  }

  /** allowReport's table before it counts: swept once it holds more than PRUNE_ABOVE windows. */
  function Swept<K>(table: map<K, Window>, now: int): map<K, Window> {
    if |table| > PRUNE_ABOVE then Prune(table, now) else table
  }

  function SweptAnswers<K>(table: map<K, Window>, log: seq<Request<K>>): (a: seq<bool>)
    ensures |a| == |log|
    decreases log
  {
    if log == [] then []
    else
      var t := Swept(table, log[0].now);
      [Allowed(PanelReport, t, log[0])] + SweptAnswers(Counted(PanelReport, t, log[0]), log[1..])
  }

  /** What sweeping has dropped is only windows the next request would have replaced anyway. */
  ghost predicate SameUntil<K(!new)>(swept: map<K, Window>, full: map<K, Window>, now: int) {
    && (forall k :: k in swept ==> k in full && full[k] == swept[k])
    && (forall k :: k in full && k !in swept ==> Expired(PanelReport, full[k].start, now))
  }

  /** Sweeping never changes an answer, over any log of non-decreasing times. */
  lemma {:induction false} SweepingIsInvisible<K(!new)>(swept: map<K, Window>, full: map<K, Window>,
                                                        log: seq<Request<K>>, now: int)
    requires InOrder(log) && (log != [] ==> now <= log[0].now)
    requires SameUntil(swept, full, now)
    ensures SweptAnswers(swept, log) == Answers(PanelReport, full, log)
    decreases log
  {
    if log != [] {
      var r := log[0];
      var t := Swept(swept, r.now);
      assert SameUntil(t, full, r.now);
      SweepingIsInvisible(Counted(PanelReport, t, r), Counted(PanelReport, full, r), log[1..], r.now);
    }
  }

  // ------------------------------------------------------------- the services

  class AgentRates {
    var rates: map<int, Window>

    constructor ()
      ensures rates == map[]
    {
      rates := map[];
    }

    /** allowAgent: one statement counts the request and reports what is left of the minute. */
    method AllowAgent(keyId: int, perMinute: int, now: int) returns (wait: int, ok: bool)
      modifies this
      ensures rates == Counted(AgentKey, old(rates), Request(keyId, perMinute, now))
      ensures ok <==> Allowed(AgentKey, old(rates), Request(keyId, perMinute, now))
      ensures wait == if ok then 0 else rates[keyId].start + MINUTE - now
    {
      if keyId in rates {
        var r := rates[keyId];
        var over := r.start <= now - MINUTE;
        rates := rates[keyId := Window(if over then now else r.start, if over then 1 else r.n + 1)];
      } else {
        rates := rates[keyId := Window(now, 1)];
      }
      var row := rates[keyId];
      ok := row.n <= perMinute;
      wait := if ok then 0 else row.start + MINUTE - now;
    }
  }

  class PanelReports {
    var windows: map<string, Window>

    constructor ()
      ensures windows == map[]
    {
      windows := map[];
    }

    /** allowReport, under the mutex that makes each call one step. */
    method AllowReport(key: string, now: int) returns (ok: bool)
      modifies this
      ensures var r := Request(key, REPORT_LIMIT, now);
              && windows == Counted(PanelReport, Swept(old(windows), now), r)
              && (ok <==> Allowed(PanelReport, Swept(old(windows), now), r))
    {
      if |windows| > PRUNE_ABOVE {
        DeleteExpired(now);
      }
      if key !in windows || now - windows[key].start > MINUTE {
        windows := windows[key := Window(now, 1)];
        return true;
      }
      var w := windows[key];
      windows := windows[key := Window(w.start, w.n + 1)];
      return w.n + 1 <= REPORT_LIMIT;
    }

    method DeleteExpired(now: int)
      modifies this
      ensures windows == Prune(old(windows), now)
    {
      var unseen := windows.Keys;
      while unseen != {}
        invariant unseen <= old(windows).Keys
        invariant windows == map k | k in old(windows) && (k in unseen || now - old(windows)[k].start <= MINUTE)
                               :: old(windows)[k]
      {
        var k :| k in unseen;
        if now - windows[k].start > MINUTE {
          windows := windows - {k};
        }
        unseen := unseen - {k};
      }
    }
  }

  /** Twenty reports in a minute are let through, and the rest of them dropped. */
  lemma TwentyReportsAMinute(t: int, extra: nat)
    ensures Admitted(PanelReport, REPORT_LIMIT, None, Repeat(t, 20 + extra)) == 20
  {
    var burst := Repeat(t, 20 + extra);
    assert burst[1..] == Repeat(t, 19 + extra);
    RepeatSplits(t, 19, extra);
    RepeatedHits(PanelReport, REPORT_LIMIT, Window(t, 1), t, 19, Repeat(t, extra));
    NoneLeft(PanelReport, REPORT_LIMIT, Window(t, 20), Repeat(t, extra));
  }

  lemma {:induction false} RepeatSplits(t: int, a: nat, b: nat)
    ensures Repeat(t, a + b) == Repeat(t, a) + Repeat(t, b)
  {
    if a > 0 {
      RepeatSplits(t, a - 1, b);
    }
  }

  lemma {:induction false} NoneLeft(kind: Kind, limit: int, w: Window, times: seq<int>)
    requires w.n >= limit && forall i :: 0 <= i < |times| ==> !Expired(kind, w.start, times[i])
    ensures Admitted(kind, limit, Some(w), times) == 0
    decreases times
  {
    if times != [] {
      NoneLeft(kind, limit, Window(w.start, w.n + 1), times[1..]);
    }
  }

  /** The wait told to a refused key is whole seconds, as few as cover it and never none. */
  lemma RetryIsTheFewestSeconds(wait: int)
    ensures RetryAfterSeconds(wait) >= 1 && RetryAfterSeconds(wait) * 1_000_000 >= wait
    ensures RetryAfterSeconds(wait) > 1 ==> (RetryAfterSeconds(wait) - 1) * 1_000_000 < wait
  {
  }
}
