/**
 * `HttpGetter`: the request queue, the per-URL task map and the disk cache
 * of the JMA client, as a state machine over immutable states.
 *
 * The transitions are `get_async` up to its `await`, `shutdown`, and one
 * whole pass of `load_async_loop`: the pass merges the pop, the fetch (its
 * body is an input), the cache write and `set_result` into one step, so
 * the states between transitions are those at the loop's sleep. Futures
 * are identified by number and live in `futures`; the disk cache is a map
 * from path to bytes.
 */
module HttpGetter {
  import opened Wrappers

  newtype byte = x: int | 0 <= x < 256

  type Bytes = seq<byte>

  /**
   * A URL: `text` is the string `get_async` is called with, which keys
   * `task_map`; the other fields are what `urllib.parse.urlparse` makes of
   * it, `host` being the parse's `hostname` (None when the URL has no
   * network location).
   */
  datatype Url = Url(text: string, scheme: string, host: Option<string>, path: string,
                     query: string, fragment: string)

  /** An `asyncio.Future` of the response body. */
  datatype Future = Pending | Resolved(value: Bytes)

  /** `GetTask`: the URL and (the number of) its future. */
  datatype GetTask = GetTask(url: Url, future: nat)

  /**
   * The getter's fields. `looping` says whether the `load_async_loop` task
   * started by `__init__` is still running.
   */
  datatype State = State(
    cacheDir: string,
    queue: seq<GetTask>,
    taskMap: map<string, GetTask>,
    cache: map<string, Bytes>,
    futures: seq<Future>,
    isRunning: bool,
    looping: bool)

  /**
   * What `get_async` gives its caller: bytes at once, a future to await, or
   * the `TypeError` of awaiting something that is not awaitable.
   */
  datatype Reply = Hit(value: Bytes) | Await(future: nat) | Raised

  /** The result of one pass of `load_async_loop`, and the task it fetched, if any. */
  datatype TickOutcome = TickOutcome(next: State, fetched: Option<GetTask>)

  /** An f-string renders a missing hostname as `None`. */
  function HostText(host: Option<string>): string {
    match host
    case Some(h) => h
    case None => "None"
  }

  /** `get_cache_path`: the cache directory joined with hostname and path. */
  function CachePath(cacheDir: string, u: Url): (p: string)
    ensures |p| > |cacheDir|
    ensures p[..|cacheDir|] == cacheDir && p[|cacheDir|] == '/'
    ensures p[|cacheDir| + 1..] == HostText(u.host) + u.path
  {
    cacheDir + "/" + (HostText(u.host) + u.path)
  }

  /** The cache file depends on nothing but hostname and path. */
  lemma CachePathIgnoresRest(cacheDir: string, u: Url, v: Url)
    requires u.host == v.host && u.path == v.path
    ensures CachePath(cacheDir, u) == CachePath(cacheDir, v)
  {
  }

  /** Within one cache directory, hostname and path are read back from the cache file name. */
  lemma CachePathDeterminesHostPath(cacheDir: string, u: Url, v: Url)
    requires CachePath(cacheDir, u) == CachePath(cacheDir, v)
    ensures HostText(u.host) + u.path == HostText(v.host) + v.path
  {
    assert CachePath(cacheDir, u)[|cacheDir| + 1..] == CachePath(cacheDir, v)[|cacheDir| + 1..];
  }

  /** `__init__`: empty queue and task map, running, loop task started. */
  function Init(cacheDir: string, onDisk: map<string, Bytes>): (s: State)
    ensures s.cacheDir == cacheDir
    ensures s.queue == [] && s.taskMap == map[] && s.futures == []
    ensures s.isRunning && s.looping && s.cache == onDisk
  {
    State(cacheDir, [], map[], onDisk, [], true, true)
  }

  /** `shutdown`. */
  function Shutdown(s: State): (r: State)
    ensures !r.isRunning
    ensures r == s.(isRunning := false)
  {
    s.(isRunning := false)
  }

  /** `get_cache`: the bytes of the cache file, if it exists. */
  function GetCache(s: State, u: Url): (r: Option<Bytes>)
    ensures r.Some? <==> CachePath(s.cacheDir, u) in s.cache
    ensures r.Some? ==> r.value == s.cache[CachePath(s.cacheDir, u)]
  {
    var p := CachePath(s.cacheDir, u);
    if p in s.cache then Some(s.cache[p]) else None
  }

  /** `set_cache`: write the bytes to the URL's cache file. */
  function SetCache(s: State, u: Url, data: Bytes): (r: State)
    ensures GetCache(r, u) == Some(data)
    ensures forall p :: p != CachePath(s.cacheDir, u) && p in s.cache ==> p in r.cache && r.cache[p] == s.cache[p]
    ensures r.cache.Keys == s.cache.Keys + {CachePath(s.cacheDir, u)}
    ensures r == s.(cache := r.cache)
  {
    s.(cache := s.cache[CachePath(s.cacheDir, u) := data])
  }

  /** `create_task`: a fresh future, queued at the end and registered under the URL. */
  function CreateTask(s: State, u: Url): (r: (State, nat))
    ensures r.1 == |s.futures| && r.1 < |r.0.futures|
    ensures r.0.futures == s.futures + [Pending]
    ensures r.0.queue == s.queue + [GetTask(u, r.1)]
    ensures r.0.taskMap == s.taskMap[u.text := GetTask(u, r.1)]
    ensures r.0 == s.(queue := r.0.queue, taskMap := r.0.taskMap, futures := r.0.futures)
  {
    var f := |s.futures|;
    var task := GetTask(u, f);
    (s.(queue := s.queue + [task], taskMap := s.taskMap[u.text := task], futures := s.futures + [Pending]), f)
  }

  /** The `if value:` test: a missing file and an empty file both miss. */
  predicate CacheHit(s: State, u: Url): (b: bool)
    ensures b <==> CachePath(s.cacheDir, u) in s.cache && s.cache[CachePath(s.cacheDir, u)] != []
  {
    var c := GetCache(s, u);
    c.Some? && |c.value| > 0
  }

  /**
   * `get_async` as written: on a miss for a URL already in the task map,
   * `task_map.get(url)` yields the `GetTask` tuple itself, which is truthy,
   * so `create_task` is skipped and `await task` raises `TypeError`; no
   * state has changed by then.
   */
  function GetAsWritten(s: State, u: Url): (r: (State, Reply))
    ensures r.1.Raised? <==> !CacheHit(s, u) && u.text in s.taskMap
    ensures r.1.Raised? ==> r.0 == s
  {
    var value := GetCache(s, u);
    if value.Some? && |value.value| > 0 then (s, Hit(value.value))
    else if u.text in s.taskMap then (s, Raised)
    else
      var (s', f) := CreateTask(s, u);
      (s', Await(f))
  }

  /**
   * `get_async` as evidently intended, awaiting the registered task's
   * future: a cache hit with non-empty bytes answers at once and changes
   * nothing; otherwise a URL already in the task map gets that task's
   * future and nothing changes; otherwise a new task is queued at the end
   * and registered, and its future is awaited.
   */
  function Get(s: State, u: Url): (r: (State, Reply))
    ensures CacheHit(s, u) ==> r == (s, Hit(s.cache[CachePath(s.cacheDir, u)]))
    ensures !CacheHit(s, u) && u.text in s.taskMap ==> r == (s, Await(s.taskMap[u.text].future))
    ensures !CacheHit(s, u) && u.text !in s.taskMap ==>
      && r.1 == Await(|s.futures|)
      && r.0.queue == s.queue + [GetTask(u, |s.futures|)]
      && r.0.taskMap == s.taskMap[u.text := GetTask(u, |s.futures|)]
      && r.0.futures == s.futures + [Pending]
      && r.0.cache == s.cache && r.0.isRunning == s.isRunning && r.0.looping == s.looping
  {
    var value := GetCache(s, u);
    if value.Some? && |value.value| > 0 then (s, Hit(value.value))
    else if u.text in s.taskMap then (s, Await(s.taskMap[u.text].future))
    else
      var (s', f) := CreateTask(s, u);
      (s', Await(f))
  }

  /**
   * One pass of `load_async_loop`: the loop ends when `is_running` is false;
   * with an empty queue it only sleeps; otherwise it pops the head, writes
   * the fetched body to the cache and then sets the future. Setting a
   * future that is already done raises, which ends the loop task (the cache
   * write has happened by then).
   */
  function Tick(s: State, body: Bytes): (r: TickOutcome)
    ensures r.fetched.Some? <==> s.looping && s.isRunning && s.queue != []
    ensures r.fetched.None? ==> r.next == s.(looping := s.looping && s.isRunning)
    ensures r.fetched.Some? ==>
      && r.fetched.value == s.queue[0]
      && r.next.queue == s.queue[1..]
      && r.next.cache == s.cache[CachePath(s.cacheDir, s.queue[0].url) := body]
      && r.next.taskMap == s.taskMap && r.next.isRunning == s.isRunning
      && |r.next.futures| == |s.futures|
  {
    if !s.looping then TickOutcome(s, None)
    else if !s.isRunning then TickOutcome(s.(looping := false), None)
    else if s.queue == [] then TickOutcome(s, None)
    else
      var task := s.queue[0];
      var s1 := SetCache(s.(queue := s.queue[1..]), task.url, body);
      if task.future < |s.futures| && s.futures[task.future].Pending? then
        TickOutcome(s1.(futures := s.futures[task.future := Resolved(body)]), Some(task))
      else
        TickOutcome(s1.(looping := false), Some(task))
  }

  // ---------------------------------------------------------------------
  // The invariant of a getter's lifetime

  /** A task for the URL text `k` is waiting in the queue. */
  predicate Queued(s: State, k: string) {
    exists i :: 0 <= i < |s.queue| && s.queue[i].url.text == k
  }

  /**
   * Every task map entry is filed under its own URL text and owns its own
   * future; queued tasks are the registered ones, at most one per URL text;
   * and a registered future is still pending exactly while its task is
   * queued. It holds at the loop's sleep, the states between transitions.
   */
  ghost predicate Inv(s: State) {
    TasksOwnFutures(s) && QueueRegistered(s) && PendingWhileQueued(s)
  }

  ghost predicate TasksOwnFutures(s: State) {
    && (forall k :: k in s.taskMap ==> s.taskMap[k].url.text == k && s.taskMap[k].future < |s.futures|)
    && (forall k, l :: k in s.taskMap && l in s.taskMap && k != l ==>
          s.taskMap[k].future != s.taskMap[l].future)
  }

  ghost predicate QueueRegistered(s: State) {
    && (forall i :: 0 <= i < |s.queue| ==>
          s.queue[i].url.text in s.taskMap && s.taskMap[s.queue[i].url.text] == s.queue[i])
    && (forall i, j :: 0 <= i < j < |s.queue| ==> s.queue[i].url.text != s.queue[j].url.text)
  }

  ghost predicate PendingWhileQueued(s: State)
    requires TasksOwnFutures(s)
  {
    forall k :: k in s.taskMap ==> (s.futures[s.taskMap[k].future].Pending? <==> Queued(s, k))
  }

  lemma InitInv(cacheDir: string, onDisk: map<string, Bytes>)
    ensures Inv(Init(cacheDir, onDisk))
  {
  }

  lemma ShutdownInv(s: State)
    requires Inv(s)
    ensures Inv(Shutdown(s))
  {
    assert forall k :: Queued(s, k) <==> Queued(Shutdown(s), k);
  }

  lemma GetInv(s: State, u: Url)
    requires Inv(s)
    ensures Inv(Get(s, u).0)
  {
    if !CacheHit(s, u) && u.text !in s.taskMap {
      CreateTaskInv(s, u);
    }
  }

  /** Registering and queueing a URL the task map lacks keeps the invariant. */
  lemma CreateTaskInv(s: State, u: Url)
    requires Inv(s) && u.text !in s.taskMap
    ensures Inv(CreateTask(s, u).0)
  {
    CreateTaskOwns(s, u);
    CreateTaskRegisters(s, u);
    CreateTaskPending(s, u);
  }

  lemma CreateTaskOwns(s: State, u: Url)
    requires TasksOwnFutures(s) && u.text !in s.taskMap
    ensures TasksOwnFutures(CreateTask(s, u).0)
  {
  }

  lemma CreateTaskRegisters(s: State, u: Url)
    requires TasksOwnFutures(s) && QueueRegistered(s) && u.text !in s.taskMap
    ensures QueueRegistered(CreateTask(s, u).0)
  {
    var s' := CreateTask(s, u).0;
    assert s'.queue[|s.queue|] == GetTask(u, |s.futures|);
  }

  lemma CreateTaskPending(s: State, u: Url)
    requires Inv(s) && u.text !in s.taskMap
    ensures TasksOwnFutures(CreateTask(s, u).0) && PendingWhileQueued(CreateTask(s, u).0)
  {
    CreateTaskOwns(s, u);
    var s' := CreateTask(s, u).0;
    assert s'.queue[|s.queue|] == GetTask(u, |s.futures|);
    forall k | k in s'.taskMap && k != u.text
      ensures s'.futures[s'.taskMap[k].future].Pending? <==> Queued(s', k)
    {
      if Queued(s', k) {
        var i :| 0 <= i < |s'.queue| && s'.queue[i].url.text == k;
        assert i < |s.queue|;
        assert Queued(s, k);
      }
      if Queued(s, k) {
        var i :| 0 <= i < |s.queue| && s.queue[i].url.text == k;
        assert s'.queue[i].url.text == k;
      }
    }
  }

  /**
   * Under the invariant a dispatch never meets a finished future: the head's
   * future is pending, so `set_result` is called once per future and the
   * loop goes on; the future then holds the body.
   */
  lemma TickSetsPendingFuture(s: State, body: Bytes)
    requires Inv(s) && s.looping && s.isRunning && s.queue != []
    ensures s.queue[0].future < |s.futures| && s.futures[s.queue[0].future] == Pending
    ensures Tick(s, body).next.looping
    ensures Tick(s, body).next.futures == s.futures[s.queue[0].future := Resolved(body)]
  {
    var k := s.queue[0].url.text;
    assert Queued(s, k);
  }

  lemma TickInv(s: State, body: Bytes)
    requires Inv(s)
    ensures Inv(Tick(s, body).next)
  {
    var o := Tick(s, body);
    var s' := o.next;
    if o.fetched.Some? {
      TickSetsPendingFuture(s, body);
      var head := s.queue[0];
      forall i, j | 0 <= i < j < |s'.queue|
        ensures s'.queue[i].url.text != s'.queue[j].url.text
      {
        assert s'.queue[i] == s.queue[i + 1] && s'.queue[j] == s.queue[j + 1];
      }
      forall k | Queued(s, k) && k != head.url.text
        ensures Queued(s', k)
      {
        var i :| 0 <= i < |s.queue| && s.queue[i].url.text == k;
        assert s'.queue[i - 1].url.text == k;
      }
      forall k | k in s'.taskMap
        ensures s'.futures[s'.taskMap[k].future].Pending? <==> Queued(s', k)
      {
        if Queued(s', k) {
          var i :| 0 <= i < |s'.queue| && s'.queue[i].url.text == k;
          assert s'.queue[i] == s.queue[i + 1];
          assert k != head.url.text;
          assert Queued(s, k);
        }
      }
    } else {
      assert forall k :: Queued(s, k) <==> Queued(s', k);
    }
  }

  // ---------------------------------------------------------------------
  // Single-step promises

  /** What a caller ends up with: the bytes, or the value its future holds. */
  function Observe(s: State, reply: Reply): Option<Bytes> {
    match reply
    case Hit(v) => Some(v)
    case Await(f) =>
      if f < |s.futures| && s.futures[f].Resolved? then Some(s.futures[f].value) else None
    case Raised => None
  }

  /**
   * Write then read: once the loop has fetched `body` for a URL, asking for
   * that URL again queues nothing and yields `body`, from the cache when it
   * is non-empty and, in the intended `Get`, from the resolved future when it
   * is empty; as written, that empty case raises.
   */
  lemma DispatchThenGet(s: State, body: Bytes)
    requires Inv(s)
    requires Tick(s, body).fetched.Some?
    ensures var s' := Tick(s, body).next;
      var u := Tick(s, body).fetched.value.url;
      && Get(s', u).0 == s'
      && Observe(s', Get(s', u).1) == Some(body)
    ensures var s' := Tick(s, body).next;
      var u := Tick(s, body).fetched.value.url;
      GetAsWritten(s', u) == if body == [] then (s', Raised) else (s', Hit(body))
  {
    TickSetsPendingFuture(s, body);
    if body == [] {
      EmptyBodyThenRaises(s);
    }
  }

  /**
   * An empty cache file is no hit: the request is deduplicated against the
   * task map (as written: raises) or queued, exactly as if the file were
   * missing.
   */
  lemma EmptyCacheFileMisses(s: State, u: Url)
    requires GetCache(s, u) == Some([])
    ensures var missing := s.(cache := s.cache - {CachePath(s.cacheDir, u)});
      && Get(s, u).1 == Get(missing, u).1
      && Get(s, u).0 == Get(missing, u).0.(cache := s.cache)
    ensures Get(s, u).1.Await?
    ensures u.text !in s.taskMap ==> Get(s, u).0.queue == s.queue + [GetTask(u, |s.futures|)]
    ensures var missing := s.(cache := s.cache - {CachePath(s.cacheDir, u)});
      GetAsWritten(s, u).1 == GetAsWritten(missing, u).1
    ensures GetAsWritten(s, u).1.Raised? <==> u.text in s.taskMap
  {
  }

  /**
   * As written, a URL whose fetched body was empty can never be read again:
   * the empty cache file misses and the task map entry makes `get_async`
   * raise.
   */
  lemma EmptyBodyThenRaises(s: State)
    requires Inv(s) && Tick(s, []).fetched.Some?
    ensures var s' := Tick(s, []).next;
      GetAsWritten(s', Tick(s, []).fetched.value.url) == (s', Raised)
  {
    assert s.queue[0].url.text in s.taskMap;
  }

  /**
   * Deduplication: a second request for a URL, when the cache does not
   * answer it, queues nothing and, in the intended `Get`, shares the first
   * request's future; as written, it raises.
   */
  lemma GetTwiceSharesFuture(s: State, u: Url)
    requires Inv(s)
    requires !CacheHit(Get(s, u).0, u)
    ensures Get(s, u).1.Await?
    ensures Get(Get(s, u).0, u) == (Get(s, u).0, Get(s, u).1)
    ensures GetAsWritten(Get(s, u).0, u) == (Get(s, u).0, Raised)
  {
  }

  /**
   * The program as written and the intended `Get` change the state alike;
   * their replies differ only where the written one raises, and there the
   * intended one awaits the registered future.
   */
  lemma GetAsWrittenDiffers(s: State, u: Url)
    ensures GetAsWritten(s, u).0 == Get(s, u).0
    ensures GetAsWritten(s, u).1.Raised? ==> Get(s, u).1 == Await(s.taskMap[u.text].future)
    ensures !GetAsWritten(s, u).1.Raised? ==> GetAsWritten(s, u).1 == Get(s, u).1
    ensures !Get(s, u).1.Raised?
  {
  }

  /**
   * As written, deduplication fails: a second request for a URL the cache
   * does not answer raises `TypeError` instead of awaiting the first
   * request's future.
   */
  lemma SecondRequestRaises(s: State, u: Url)
    requires !CacheHit(s, u)
    ensures var s1 := GetAsWritten(s, u).0;
      && GetAsWritten(s1, u) == (s1, Raised)
      && Get(s1, u) == (s1, Await(s1.taskMap[u.text].future))
  {
  }

  /** The same on a fresh getter with an empty cache: the second call raises. */
  lemma TwoRequestsOnFreshGetter()
    ensures var u := Url("https://www.jma.go.jp/bosai/common/const/area.json", "https",
                         Some("www.jma.go.jp"), "/bosai/common/const/area.json", "", "");
      var s0 := Init("cache", map[]);
      var (s1, first) := GetAsWritten(s0, u);
      && first == Await(0)
      && GetAsWritten(s1, u) == (s1, Raised)
  {
    var u := Url("https://www.jma.go.jp/bosai/common/const/area.json", "https",
                 Some("www.jma.go.jp"), "/bosai/common/const/area.json", "", "");
    SecondRequestRaises(Init("cache", map[]), u);
  }

  /**
   * URLs that differ only in query, fragment or scheme share one cache file:
   * after the loop fetched a non-empty body for one of them, a request for
   * another is answered with that body without being queued.
   */
  lemma SiblingUrlHitsCache(s: State, body: Bytes, v: Url)
    requires Tick(s, body).fetched.Some? && |body| > 0
    requires v.host == s.queue[0].url.host && v.path == s.queue[0].url.path
    ensures Get(Tick(s, body).next, v) == (Tick(s, body).next, Hit(body))
  {
    CachePathIgnoresRest(s.cacheDir, v, s.queue[0].url);
  }

  /** After `shutdown` the loop fetches nothing and ends at its next pass. */
  lemma NoDispatchAfterShutdown(s: State, body: Bytes)
    ensures Tick(Shutdown(s), body).fetched.None?
    ensures !Tick(Shutdown(s), body).next.looping
    ensures Tick(Shutdown(s), body).next.queue == s.queue
  {
  }
}
