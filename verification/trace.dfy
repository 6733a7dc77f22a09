/**
 * Whole lifetimes of an `HttpGetter`: any interleaving of requests, passes
 * of the loader loop and `shutdown`, and what holds across all of them.
 */
module GetterTrace {
  import opened Wrappers
  import opened HttpGetter

  /** One thing that happens to a getter: a `get_async` call, a loop pass with the body the transport returns, or `shutdown`. */
  datatype Event = Request(url: Url) | Pass(body: Bytes) | Stop

  /**
   * The final state, the tasks queued by requests, the tasks the loop
   * fetched, and every request with its reply, each in order.
   */
  datatype Trace = Trace(state: State, enqueued: seq<GetTask>, fetched: seq<GetTask>,
                         replies: seq<(Url, Reply)>)

  /** One event applied to a trace. */
  function Apply(t: Trace, e: Event): Trace {
    match e
    case Request(u) =>
      var (s', reply) := Get(t.state, u);
      var queued := if |s'.queue| > |t.state.queue| then [s'.queue[|s'.queue| - 1]] else [];
      Trace(s', t.enqueued + queued, t.fetched, t.replies + [(u, reply)])
    case Pass(body) =>
      var o := Tick(t.state, body);
      var got := match o.fetched case Some(task) => [task] case None => [];
      Trace(o.next, t.enqueued, t.fetched + got, t.replies)
    case Stop =>
      Trace(Shutdown(t.state), t.enqueued, t.fetched, t.replies)
  }

  /** The events, applied in order from `s`. */
  function Run(s: State, evs: seq<Event>): Trace
    decreases |evs|
  {
    if evs == [] then Trace(s, [], [], [])
    else Apply(Run(s, evs[..|evs| - 1]), evs[|evs| - 1])
  }

  /** One event applied as the program is written: requests go through `GetAsWritten`. */
  function ApplyAsWritten(t: Trace, e: Event): Trace {
    match e
    case Request(u) =>
      var (s', reply) := GetAsWritten(t.state, u);
      var queued := if |s'.queue| > |t.state.queue| then [s'.queue[|s'.queue| - 1]] else [];
      Trace(s', t.enqueued + queued, t.fetched, t.replies + [(u, reply)])
    case _ => Apply(t, e)
  }

  function RunAsWritten(s: State, evs: seq<Event>): Trace
    decreases |evs|
  {
    if evs == [] then Trace(s, [], [], [])
    else ApplyAsWritten(RunAsWritten(s, evs[..|evs| - 1]), evs[|evs| - 1])
  }

  /** The replies of the program as written, against the intended ones: equal, or raising where the intended reply awaits. */
  predicate RepliesAsWritten(written: seq<(Url, Reply)>, intended: seq<(Url, Reply)>) {
    && |written| == |intended|
    && forall i :: 0 <= i < |written| ==>
         && written[i].0 == intended[i].0
         && (written[i].1 == intended[i].1 || (written[i].1.Raised? && intended[i].1.Await?))
  }

  /**
   * The program as written goes through the same states, queues the same
   * tasks and fetches the same ones as the intended getter; only some of its
   * replies raise where the intended ones await. So every lemma below about
   * states, `enqueued` and `fetched` holds of the program as written.
   */
  lemma {:induction false} RunAsWrittenSameStates(s: State, evs: seq<Event>)
    ensures RunAsWritten(s, evs).state == Run(s, evs).state
    ensures RunAsWritten(s, evs).enqueued == Run(s, evs).enqueued
    ensures RunAsWritten(s, evs).fetched == Run(s, evs).fetched
    ensures RepliesAsWritten(RunAsWritten(s, evs).replies, Run(s, evs).replies)
    decreases |evs|
  {
    if evs != [] {
      var pre := evs[..|evs| - 1];
      RunAsWrittenSameStates(s, pre);
      var a, t := RunAsWritten(s, pre), Run(s, pre);
      match evs[|evs| - 1]
      case Request(u) =>
        GetAsWrittenDiffers(t.state, u);
        var ra := a.replies + [(u, GetAsWritten(t.state, u).1)];
        var rt := t.replies + [(u, Get(t.state, u).1)];
        assert RepliesAsWritten(ra, rt) by {
          forall i | 0 <= i < |ra|
            ensures ra[i].0 == rt[i].0
            ensures ra[i].1 == rt[i].1 || (ra[i].1.Raised? && rt[i].1.Await?)
          {
            if i < |a.replies| {
              assert ra[i] == a.replies[i] && rt[i] == t.replies[i];
            }
          }
        }
      case Pass(body) =>
      case Stop =>
    }
  }

  /** The URL texts of the tasks, in order. */
  function Urls(ts: seq<GetTask>): (r: seq<string>)
    ensures |r| == |ts| && forall i :: 0 <= i < |ts| ==> r[i] == ts[i].url.text
  {
    seq(|ts|, i requires 0 <= i < |ts| => ts[i].url.text)
  }

  predicate Distinct<T(==)>(xs: seq<T>) {
    forall i, j :: 0 <= i < j < |xs| ==> xs[i] != xs[j]
  }

  /** Entries are only ever added to the task map, never changed or removed. */
  ghost predicate Grows(m: map<string, GetTask>, m': map<string, GetTask>) {
    forall k :: k in m ==> k in m' && m'[k] == m[k]
  }

  /** What holds of a trace `t` that started from `s`. */
  ghost predicate Lifetime(s: State, t: Trace) {
    && Inv(t.state)
    && (t.state.looping || !t.state.isRunning)
    && (!s.isRunning ==> !t.state.isRunning)
    && t.state.cacheDir == s.cacheDir
    && Grows(s.taskMap, t.state.taskMap)
    && Distinct(Urls(t.enqueued))
    && (forall i :: 0 <= i < |t.enqueued| ==>
          t.enqueued[i].url.text !in s.taskMap && t.enqueued[i].url.text in t.state.taskMap)
    && (forall i :: 0 <= i < |t.replies| && t.replies[i].1.Await? ==>
          t.replies[i].0.text in t.state.taskMap &&
          t.state.taskMap[t.replies[i].0.text].future == t.replies[i].1.future)
  }

  /** A request either changes nothing but the reply log, or registers and queues one new URL. */
  lemma RequestEffect(t: Trace, u: Url)
    ensures var t' := Apply(t, Request(u));
      && t'.fetched == t.fetched
      && t'.replies == t.replies + [(u, Get(t.state, u).1)]
      && t'.state.cacheDir == t.state.cacheDir
      && t'.state.isRunning == t.state.isRunning && t'.state.looping == t.state.looping
      && ((t'.state.taskMap == t.state.taskMap && t'.enqueued == t.enqueued
           && t'.state.queue == t.state.queue)
          || (u.text !in t.state.taskMap
              && t'.state.taskMap == t.state.taskMap[u.text := GetTask(u, |t.state.futures|)]
              && t'.enqueued == t.enqueued + [GetTask(u, |t.state.futures|)]
              && t'.state.queue == t.state.queue + [GetTask(u, |t.state.futures|)]))
      && (Get(t.state, u).1.Await? ==>
            u.text in t'.state.taskMap && t'.state.taskMap[u.text].future == Get(t.state, u).1.future)
  {
  }

  lemma EnqueuedStaysDistinct(ts: seq<GetTask>, task: GetTask)
    requires Distinct(Urls(ts))
    requires forall i :: 0 <= i < |ts| ==> ts[i].url.text != task.url.text
    ensures Distinct(Urls(ts + [task]))
  {
  }

  lemma RequestKeepsLifetime(s: State, t: Trace, u: Url)
    requires Lifetime(s, t)
    ensures Lifetime(s, Apply(t, Request(u)))
  {
    GetInv(t.state, u);
    RequestEffect(t, u);
    var t' := Apply(t, Request(u));
    if t'.enqueued != t.enqueued {
      var task := GetTask(u, |t.state.futures|);
      assert forall i :: 0 <= i < |t.enqueued| ==> t.enqueued[i].url.text != task.url.text by {
        assert forall i :: 0 <= i < |t.enqueued| ==> t.enqueued[i].url.text in t.state.taskMap;
      }
      EnqueuedStaysDistinct(t.enqueued, task);
    }
  }

  lemma PassKeepsLifetime(s: State, t: Trace, body: Bytes)
    requires Lifetime(s, t)
    ensures Lifetime(s, Apply(t, Pass(body)))
  {
    TickInv(t.state, body);
    if t.state.looping && t.state.isRunning && t.state.queue != [] {
      TickSetsPendingFuture(t.state, body);
    }
  }

  lemma StopKeepsLifetime(s: State, t: Trace)
    requires Lifetime(s, t)
    ensures Lifetime(s, Apply(t, Stop))
  {
    ShutdownInv(t.state);
  }

  /**
   * Across a lifetime: the invariant holds throughout; the task map only
   * grows; every task queued by a request is for a URL the task map did not
   * hold before, so each URL is queued at most once; every awaited reply is
   * the future registered for its URL; and the loop task ends only after
   * `shutdown` (never by setting a finished future).
   */
  lemma {:induction false} RunLifetime(s: State, evs: seq<Event>)
    requires Inv(s) && (s.looping || !s.isRunning)
    ensures Lifetime(s, Run(s, evs))
    decreases |evs|
  {
    if evs != [] {
      var pre := evs[..|evs| - 1];
      RunLifetime(s, pre);
      var t := Run(s, pre);
      match evs[|evs| - 1]
      case Request(u) => RequestKeepsLifetime(s, t, u);
      case Pass(body) => PassKeepsLifetime(s, t, body);
      case Stop => StopKeepsLifetime(s, t);
    }
  }

  /**
   * FIFO: the tasks waiting at the start, followed by the tasks queued by
   * requests, are exactly the tasks fetched, followed by those still waiting.
   * So the loop fetches a prefix of the arrival order, in that order.
   */
  lemma {:induction false} RunFifo(s: State, evs: seq<Event>)
    ensures s.queue + Run(s, evs).enqueued == Run(s, evs).fetched + Run(s, evs).state.queue
    decreases |evs|
  {
    if evs != [] {
      var pre := evs[..|evs| - 1];
      RunFifo(s, pre);
      ApplyFifo(s.queue, Run(s, pre), evs[|evs| - 1]);
    }
  }

  /** One event keeps the tasks in arrival order equal to the fetched ones followed by the waiting ones. */
  lemma ApplyFifo(q0: seq<GetTask>, t: Trace, e: Event)
    requires q0 + t.enqueued == t.fetched + t.state.queue
    ensures q0 + Apply(t, e).enqueued == Apply(t, e).fetched + Apply(t, e).state.queue
  {
    match e
    case Request(u) =>
      var s' := Get(t.state, u).0;
      if |s'.queue| > |t.state.queue| {
        var x := s'.queue[|s'.queue| - 1];
        assert s'.queue == t.state.queue + [x];
        assert q0 + (t.enqueued + [x]) == (q0 + t.enqueued) + [x];
        assert (t.fetched + t.state.queue) + [x] == t.fetched + (t.state.queue + [x]);
      } else {
        assert s'.queue == t.state.queue;
      }
    case Pass(body) =>
      var o := Tick(t.state, body);
      if o.fetched.Some? {
        assert t.state.queue == [o.fetched.value] + o.next.queue;
        assert t.fetched + t.state.queue == (t.fetched + [o.fetched.value]) + o.next.queue;
      }
    case Stop =>
  }

  lemma PrefixDistinct(all: seq<GetTask>, front: seq<GetTask>, back: seq<GetTask>)
    requires all == front + back && Distinct(Urls(all))
    ensures Distinct(Urls(front))
  {
    forall i, j | 0 <= i < j < |front|
      ensures Urls(front)[i] != Urls(front)[j]
    {
      assert front[i] == all[i] && front[j] == all[j];
      assert Urls(all)[i] != Urls(all)[j];
    }
  }

  lemma JoinDistinct(a: seq<GetTask>, b: seq<GetTask>)
    requires Distinct(Urls(a)) && Distinct(Urls(b))
    requires forall i, j :: 0 <= i < |a| && 0 <= j < |b| ==> a[i].url.text != b[j].url.text
    ensures Distinct(Urls(a + b))
  {
  }

  /**
   * Each URL is fetched at most once over the getter's lifetime, and so
   * each future is set at most once.
   */
  lemma FetchedAtMostOnce(s: State, evs: seq<Event>)
    requires Inv(s) && (s.looping || !s.isRunning)
    ensures Distinct(Urls(Run(s, evs).fetched))
  {
    RunLifetime(s, evs);
    RunFifo(s, evs);
    var t := Run(s, evs);
    assert Distinct(Urls(s.queue)) by {
      forall i, j | 0 <= i < j < |s.queue|
        ensures Urls(s.queue)[i] != Urls(s.queue)[j]
      {
      }
    }
    assert forall i, j :: 0 <= i < |s.queue| && 0 <= j < |t.enqueued| ==>
      s.queue[i].url.text in s.taskMap && t.enqueued[j].url.text !in s.taskMap;
    JoinDistinct(s.queue, t.enqueued);
    PrefixDistinct(s.queue + t.enqueued, t.fetched, t.state.queue);
  }

  /**
   * Deduplication over a lifetime: any two requests for the same URL that
   * were not answered from the cache await the same future.
   */
  lemma SameUrlSameFuture(s: State, evs: seq<Event>, i: nat, j: nat)
    requires Inv(s) && (s.looping || !s.isRunning)
    requires i < |Run(s, evs).replies| && j < |Run(s, evs).replies|
    requires Run(s, evs).replies[i].0.text == Run(s, evs).replies[j].0.text
    requires Run(s, evs).replies[i].1.Await? && Run(s, evs).replies[j].1.Await?
    ensures Run(s, evs).replies[i].1 == Run(s, evs).replies[j].1
  {
    RunLifetime(s, evs);
  }

  /** Once `shutdown` has run, the loop fetches nothing more and the queue only grows. */
  lemma {:induction false} NothingFetchedAfterShutdown(s: State, evs: seq<Event>)
    requires !s.isRunning
    ensures Run(s, evs).fetched == []
    ensures !Run(s, evs).state.isRunning
    ensures Run(s, evs).state.queue == s.queue + Run(s, evs).enqueued
    decreases |evs|
  {
    if evs != [] {
      NothingFetchedAfterShutdown(s, evs[..|evs| - 1]);
      RunFifo(s, evs);
    }
  }

  /**
   * The program as written, too, fetches each URL text at most once and
   * dispatches in arrival order.
   */
  lemma AsWrittenFetchesOnceInOrder(s: State, evs: seq<Event>)
    requires Inv(s) && (s.looping || !s.isRunning)
    ensures Distinct(Urls(RunAsWritten(s, evs).fetched))
    ensures s.queue + RunAsWritten(s, evs).enqueued
      == RunAsWritten(s, evs).fetched + RunAsWritten(s, evs).state.queue
  {
    RunAsWrittenSameStates(s, evs);
    FetchedAtMostOnce(s, evs);
    RunFifo(s, evs);
  }

  /** No two awaited replies are for the same URL text. */
  predicate AwaitedOnce(replies: seq<(Url, Reply)>) {
    forall i, j :: 0 <= i < j < |replies| && replies[i].1.Await? && replies[j].1.Await? ==>
      replies[i].0.text != replies[j].0.text
  }

  /** Every awaited reply's URL text is registered in `m`. */
  predicate AwaitedRegistered(replies: seq<(Url, Reply)>, m: map<string, GetTask>) {
    forall i :: 0 <= i < |replies| && replies[i].1.Await? ==> replies[i].0.text in m
  }

  /**
   * As written there is no sharing at all: a request awaits only when it
   * created the task for its URL text, so no two awaited replies of a
   * lifetime are for the same URL text, and every later request for it
   * that the cache does not answer raises.
   */
  lemma {:induction false} AsWrittenAwaitsOnce(s: State, evs: seq<Event>)
    ensures AwaitedOnce(RunAsWritten(s, evs).replies)
    ensures AwaitedRegistered(RunAsWritten(s, evs).replies, RunAsWritten(s, evs).state.taskMap)
    decreases |evs|
  {
    if evs != [] {
      var pre := evs[..|evs| - 1];
      AsWrittenAwaitsOnce(s, pre);
      AsWrittenStepAwaits(RunAsWritten(s, pre), evs[|evs| - 1]);
    }
  }

  lemma AsWrittenStepAwaits(t: Trace, e: Event)
    requires AwaitedOnce(t.replies) && AwaitedRegistered(t.replies, t.state.taskMap)
    ensures AwaitedOnce(ApplyAsWritten(t, e).replies)
    ensures AwaitedRegistered(ApplyAsWritten(t, e).replies, ApplyAsWritten(t, e).state.taskMap)
  {
    match e
    case Request(u) =>
      var (s', reply) := GetAsWritten(t.state, u);
      var rs := t.replies + [(u, reply)];
      assert Grows(t.state.taskMap, s'.taskMap);
      assert reply.Await? ==> u.text !in t.state.taskMap && u.text in s'.taskMap;
      assert AwaitedOnce(rs) by {
        forall i, j | 0 <= i < j < |rs| && rs[i].1.Await? && rs[j].1.Await?
          ensures rs[i].0.text != rs[j].0.text
        {
          if j == |t.replies| {
            assert rs[i] == t.replies[i];
          } else {
            assert rs[i] == t.replies[i] && rs[j] == t.replies[j];
          }
        }
      }
      assert AwaitedRegistered(rs, s'.taskMap) by {
        forall i | 0 <= i < |rs| && rs[i].1.Await?
          ensures rs[i].0.text in s'.taskMap
        {
          if i < |t.replies| {
            assert rs[i] == t.replies[i];
          }
        }
      }
    case Pass(body) =>
      var o := Tick(t.state, body);
      assert o.next.taskMap == t.state.taskMap;
    case Stop =>
  }
}
