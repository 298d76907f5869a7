/** The detection-result cache in front of inference: time-to-live expiry, a capacity bound with
    oldest-first eviction, and the two keyed entry points that share it.

    The cache is first a transition system over map states, with the history of write times as an
    auxiliary variable; the class implements its steps. */
module ResultCache {
  import opened Prelude
  import opened Detections

  /** Time to live, in milliseconds. */
  const OCR_CACHE_TTL: nat := 10_000

  const OCR_CACHE_CAP: nat := 64

  datatype Entry = Entry(time: nat, dets: seq<Detection>)

  type Cache = map<string, Entry>

  // ----- Steps -----

  predicate Expired(time: nat, now: nat) {
    (if now >= time then now - time else 0) >= OCR_CACHE_TTL
  }

  /** `cache_get`. */
  function Lookup(c: Cache, key: string, now: nat): (r: (Cache, Option<seq<Detection>>)) {
    if key !in c then (c, None)
    else if Expired(c[key].time, now) then (c - {key}, None)
    else (c, Some(c[key].dets))
  }

  /** A key whose entry is at least as old as every other. */
  predicate Oldest(c: Cache, k: string) {
    k in c && forall j :: j in c ==> c[k].time <= c[j].time
  }

  predicate Full(c: Cache, key: string) {
    key !in c && |c| >= OCR_CACHE_CAP
  }

  /** `cache_put`: any oldest entry may be the victim, as the map's iteration order is unspecified. */
  ghost predicate Stores(c: Cache, key: string, dets: seq<Detection>, now: nat, c': Cache) {
    if Full(c, key) then exists v :: Oldest(c, v) && c' == (c - {v})[key := Entry(now, dets)]
    else c' == c[key := Entry(now, dets)]
  }

  datatype Event = Get(key: string, now: nat) | Put(key: string, dets: seq<Detection>, now: nat)

  /** The cache with its history: the clock, the last write time of every key ever written, and
      whether write times have been strictly increasing so far. */
  datatype State = State(cache: Cache, clock: nat, last: map<string, nat>, strict: bool)

  const Initial: State := State(map[], 0, map[], true)

  ghost predicate Next(s: State, e: Event, s': State) {
    && s.clock <= e.now == s'.clock
    && match e
       case Get(key, now) =>
         s'.cache == Lookup(s.cache, key, now).0 && s'.last == s.last && s'.strict == s.strict
       case Put(key, dets, now) =>
         && Stores(s.cache, key, dets, now, s'.cache) && s'.last == s.last[key := now]
         && s'.strict == (s.strict && forall k :: k in s.last ==> s.last[k] < now)
  }

  // ----- What every step keeps -----

  /** The keys written after the last write of `k`. */
  ghost function Newer(last: map<string, nat>, k: string): set<string>
    requires k in last
  {
    set j | j in last && last[j] > last[k]
  }

  ghost predicate Bounded(s: State) {
    && |s.cache| <= OCR_CACHE_CAP
    && forall k :: k in s.cache ==> k in s.last && s.cache[k].time == s.last[k] <= s.clock
  }

  ghost predicate Ordered(s: State) {
    && (forall k :: k in s.last ==> s.last[k] <= s.clock)
    && (forall j, k :: j in s.last && k in s.last && j != k ==> s.last[j] != s.last[k])
  }

  /** An absent key has expired or was overtaken by a full capacity of later writes. */
  ghost predicate Retains(s: State) {
    forall k :: k in s.last && k !in s.cache ==> Expired(s.last[k], s.clock) || |Newer(s.last, k)| >= OCR_CACHE_CAP
  }

  ghost predicate Inv(s: State) {
    Bounded(s) && (s.strict ==> Ordered(s) && Retains(s))
  }

  lemma NewerGrows(last: map<string, nat>, key: string, now: nat, k: string)
    requires k in last && k != key && forall j :: j in last ==> last[j] < now
    ensures Newer(last, k) <= Newer(last[key := now], k)
    ensures |Newer(last, k)| <= |Newer(last[key := now], k)|
  {
    SubsetSize(Newer(last, k), Newer(last[key := now], k));
  }

  lemma {:induction false} SubsetSize<T>(a: set<T>, b: set<T>)
    requires a <= b
    ensures |a| <= |b|
  {
    if a != {} {
      var x :| x in a;
      SubsetSize(a - {x}, b - {x});
    }
  }

  /** Everything that survives a strictly timed eviction is newer than the victim. */
  lemma VictimOvertaken(s: State, key: string, now: nat, v: string)
    requires Bounded(s) && Ordered(s) && Full(s.cache, key) && Oldest(s.cache, v)
    requires forall k :: k in s.last ==> s.last[k] < now
    ensures |Newer(s.last[key := now], v)| >= OCR_CACHE_CAP
  {
    var keys := s.cache.Keys - {v} + {key};
    assert |keys| == |s.cache.Keys|;
    assert keys <= Newer(s.last[key := now], v);
    SubsetSize(keys, Newer(s.last[key := now], v));
  }

  lemma GetKeeps(s: State, e: Event, s': State)
    requires Inv(s) && e.Get? && Next(s, e, s')
    ensures Inv(s')
  {
    SubsetSize(s'.cache.Keys, s.cache.Keys);
    if s.strict {
      GetRetains(s, e, s');
    }
  }

  lemma GetRetains(s: State, e: Event, s': State)
    requires Bounded(s) && Retains(s) && e.Get? && Next(s, e, s')
    ensures Retains(s')
  {
  }

  lemma PutBounded(s: State, e: Event, s': State)
    requires Bounded(s) && e.Put? && Next(s, e, s')
    ensures Bounded(s')
  {
    var c := s.cache;
    if Full(c, e.key) {
      var v :| Oldest(c, v) && s'.cache == (c - {v})[e.key := Entry(e.now, e.dets)];
      SizeAfterPut(c - {v}, e.key, Entry(e.now, e.dets));
      assert (c - {v}).Keys == c.Keys - {v};
    } else {
      SizeAfterPut(c, e.key, Entry(e.now, e.dets));
    }
  }

  lemma SizeAfterPut(c: Cache, key: string, e: Entry)
    ensures |c[key := e]| == if key in c then |c| else |c| + 1
  {
    assert c[key := e].Keys == c.Keys + {key};
  }

  lemma PutRetains(s: State, e: Event, s': State, k: string)
    requires Bounded(s) && Ordered(s) && Retains(s) && e.Put? && Next(s, e, s') && s'.strict
    requires k in s'.last && k !in s'.cache
    ensures Expired(s'.last[k], s'.clock) || |Newer(s'.last, k)| >= OCR_CACHE_CAP
  {
    if k in s.cache {
      var v :| Oldest(s.cache, v) && s'.cache == (s.cache - {v})[e.key := Entry(e.now, e.dets)];
      VictimOvertaken(s, e.key, e.now, v);
    } else {
      NewerGrows(s.last, e.key, e.now, k);
    }
  }

  lemma PutKeeps(s: State, e: Event, s': State)
    requires Inv(s) && e.Put? && Next(s, e, s')
    ensures Inv(s')
  {
    PutBounded(s, e, s');
    if s'.strict {
      forall k | k in s'.last && k !in s'.cache
        ensures Expired(s'.last[k], s'.clock) || |Newer(s'.last, k)| >= OCR_CACHE_CAP
      {
        PutRetains(s, e, s', k);
      }
    }
  }

  /** `k` is among the 64 most recently written keys. */
  ghost predicate RecentlyWritten(s: State, k: string) {
    k in s.last && |Newer(s.last, k)| < 64
  }

  /** Every state of every run: within capacity, and, as long as write times strictly increase, any
      unexpired key among the 64 most recently written is still present. */
  lemma {:induction false} EveryRunBoundedAndRetaining(run: seq<State>, events: seq<Event>, i: nat)
    requires |run| == |events| + 1 && run[0] == Initial && i < |run|
    requires forall j :: 0 <= j < |events| ==> Next(run[j], events[j], run[j + 1])
    ensures Inv(run[i])
    ensures |run[i].cache| <= 64
    ensures run[i].strict ==>
              forall k :: RecentlyWritten(run[i], k) && !Expired(run[i].last[k], run[i].clock) ==> k in run[i].cache
  {
    if i > 0 {
      EveryRunBoundedAndRetaining(run, events, i - 1);
      assert Next(run[i - 1], events[i - 1], run[i - 1 + 1]);
      if events[i - 1].Get? {
        GetKeeps(run[i - 1], events[i - 1], run[i]);
      } else {
        PutKeeps(run[i - 1], events[i - 1], run[i]);
      }
    }
  }

  /** A hit is younger than the time to live, counted from the last write of its key, and leaves the
      cache alone; an expired entry is gone after the lookup. */
  lemma HitsAreYoung(s: State, key: string, now: nat)
    requires Inv(s) && s.clock <= now
    ensures var (c, hit) := Lookup(s.cache, key, now);
            && (hit.Some? ==> key in s.last && now < s.last[key] + 10_000 && c == s.cache)
            && (hit.None? ==> key !in c && (key in s.cache ==> now >= s.last[key] + 10_000))
  {
  }

  // ----- Keys -----

  type Bytes = seq<bv8>

  datatype Request = Recognize(png: Bytes) | FindIcon(png: Bytes, description: string)

  /** A digest rendered to a fixed number of characters, without collisions among `frames`. */
  ghost predicate CollisionFree(h: Bytes -> string, frames: set<Bytes>) {
    && (forall b :: b in frames ==> |h(b)| == 64)
    && (forall a, b :: a in frames && b in frames && h(a) == h(b) ==> a == b)
  }

  /** `ocr_cache_key` and `icon_cache_key`. */
  function Key(h: Bytes -> string, req: Request): string {
    match req
    case Recognize(png) => "ocr:" + h(png)
    case FindIcon(png, description) => "icon:" + h(png) + ":" + description
  }

  /** Distinct requests over collision-free frames never share a key, across the two kinds too. */
  lemma KeysDistinct(h: Bytes -> string, frames: set<Bytes>, a: Request, b: Request)
    requires CollisionFree(h, frames) && a.png in frames && b.png in frames && Key(h, a) == Key(h, b)
    ensures a == b
  {
    var (ka, kb) := (Key(h, a), Key(h, b));
    assert ka[0] == kb[0];
    match a
    case Recognize(p) =>
      assert ka[0] == 'o' && b.Recognize?;
      assert ka[4..] == h(p) && kb[4..] == h(b.png);
    case FindIcon(p, d) =>
      assert ka[0] == 'i' && b.FindIcon?;
      assert ka[5..69] == h(p) && kb[5..69] == h(b.png);
      assert ka[70..] == d && kb[70..] == b.description;
  }

  // ----- Calls -----

  type Engine = Request -> Result<seq<Detection>, string>

  /** One call of `recognize` or `find_icon`: when it came in, when inference would finish, and what it
      answered. */
  datatype Call = Call(req: Request, now: nat, done: nat, answer: Result<seq<Detection>, string>)

  /** Cached answers are the engine's. */
  ghost predicate Sound(h: Bytes -> string, engine: Engine, frames: set<Bytes>, c: Cache) {
    forall req: Request :: req.png in frames && Key(h, req) in c ==> engine(req) == Ok(c[Key(h, req)].dets)
  }

  /** The state after the lookup of a call. */
  ghost function AfterGet(s: State, key: string, now: nat): State {
    State(Lookup(s.cache, key, now).0, now, s.last, s.strict)
  }

  /** A call as steps of the cache: a lookup, and on a miss that the engine answers, a store. */
  ghost predicate Serves(h: Bytes -> string, engine: Engine, s: State, c: Call, s': State) {
    var key := Key(h, c.req);
    var mid := AfterGet(s, key, c.now);
    && s.clock <= c.now <= c.done
    && match Lookup(s.cache, key, c.now).1
       case Some(dets) => s' == mid && c.answer == Ok(dets)
       case None =>
         && c.answer == engine(c.req)
         && if c.answer.Ok? then Next(mid, Put(key, c.answer.value, c.done), s') else s' == mid
  }

  lemma PutSound(h: Bytes -> string, engine: Engine, frames: set<Bytes>, s: State, req: Request, dets: seq<Detection>, now: nat, s': State)
    requires CollisionFree(h, frames) && req.png in frames && Sound(h, engine, frames, s.cache)
    requires engine(req) == Ok(dets) && Next(s, Put(Key(h, req), dets, now), s')
    ensures Sound(h, engine, frames, s'.cache) && Key(h, req) in s'.cache
  {
    forall q: Request | q.png in frames && Key(h, q) in s'.cache
      ensures engine(q) == Ok(s'.cache[Key(h, q)].dets)
    {
      if Key(h, q) == Key(h, req) {
        KeysDistinct(h, frames, q, req);
      }
    }
  }

  /** A call keeps the invariant and the soundness of what is cached, and answers what the engine
      would. */
  lemma ServesKeeps(h: Bytes -> string, engine: Engine, frames: set<Bytes>, s: State, c: Call, s': State)
    requires CollisionFree(h, frames) && c.req.png in frames && Inv(s) && Sound(h, engine, frames, s.cache)
    requires Serves(h, engine, s, c, s')
    ensures Inv(s') && Sound(h, engine, frames, s'.cache) && c.answer == engine(c.req)
  {
    var key := Key(h, c.req);
    var mid := AfterGet(s, key, c.now);
    GetKeeps(s, Get(key, c.now), mid);
    assert Sound(h, engine, frames, mid.cache);
    if Lookup(s.cache, key, c.now).1.None? && c.answer.Ok? {
      PutKeeps(mid, Put(key, c.answer.value, c.done), s');
      PutSound(h, engine, frames, mid, c.req, c.answer.value, c.done, s');
    }
  }

  ghost predicate IsServingRun(h: Bytes -> string, engine: Engine, run: seq<State>, calls: seq<Call>) {
    && |run| == |calls| + 1 && run[0] == Initial
    && forall j :: 0 <= j < |calls| ==> ServesAt(h, engine, run, calls, j)
  }

  ghost predicate ServesAt(h: Bytes -> string, engine: Engine, run: seq<State>, calls: seq<Call>, j: nat)
    requires j < |calls| && |run| == |calls| + 1
  {
    Serves(h, engine, run[j], calls[j], run[j + 1])
  }

  /** The cache is transparent and bounded over every run of calls: each answer is the engine's, at
      most 64 entries are kept, and, as long as write times strictly increase, every unexpired key
      among the 64 most recently written is present. */
  lemma {:induction false} EveryServingRun(h: Bytes -> string, engine: Engine, frames: set<Bytes>, run: seq<State>, calls: seq<Call>, i: nat)
    requires CollisionFree(h, frames) && IsServingRun(h, engine, run, calls) && i < |run|
    requires forall j :: 0 <= j < |calls| ==> calls[j].req.png in frames
    ensures Inv(run[i]) && Sound(h, engine, frames, run[i].cache)
    ensures forall j :: 0 <= j < i ==> calls[j].answer == engine(calls[j].req)
    ensures |run[i].cache| <= 64
    ensures run[i].strict ==>
              forall k :: RecentlyWritten(run[i], k) && !Expired(run[i].last[k], run[i].clock) ==> k in run[i].cache
  {
    if i > 0 {
      EveryServingRun(h, engine, frames, run, calls, i - 1);
      assert ServesAt(h, engine, run, calls, i - 1);
      ServesKeeps(h, engine, frames, run[i - 1], calls[i - 1], run[i]);
    }
  }

  // ----- The provider -----

  class Inner {
    const hash: Bytes -> string
    const engine: Engine
    /** Every frame the provider is asked about; they hash without collisions. */
    ghost const frames: set<Bytes>
    var cache: Cache
    ghost var clock: nat
    ghost var last: map<string, nat>
    ghost var strict: bool

    ghost function Model(): State
      reads this
    {
      State(cache, clock, last, strict)
    }

    ghost predicate Valid()
      reads this
    {
      CollisionFree(hash, frames) && Inv(Model()) && Sound(hash, engine, frames, cache)
    }

    constructor (h: Bytes -> string, engine: Engine, ghost frames: set<Bytes>)
      requires CollisionFree(h, frames)
      ensures Valid() && Model() == Initial && hash == h && this.engine == engine && this.frames == frames
    {
      hash, this.engine, this.frames := h, engine, frames;
      cache, clock, last, strict := map[], 0, map[], true;
    }

    method CacheGet(key: string, now: nat) returns (r: Option<seq<Detection>>)
      requires clock <= now
      modifies this
      ensures Next(old(Model()), Get(key, now), Model()) && r == Lookup(old(cache), key, now).1
    {
      clock := now;
      if key !in cache {
        return None;
      }
      var entry := cache[key];
      if Expired(entry.time, now) {
        cache := cache - {key};
        return None;
      }
      return Some(entry.dets);
    }

    method CachePut(key: string, dets: seq<Detection>, now: nat)
      requires clock <= now
      modifies this
      ensures Next(old(Model()), Put(key, dets, now), Model())
    {
      if key !in cache && |cache| >= OCR_CACHE_CAP {
        var oldest := FindOldest();
        cache := cache - {oldest};
      }
      cache := cache[key := Entry(now, dets)];
      clock, last, strict := now, last[key := now], strict && forall k :: k in last ==> last[k] < now;
    }

    /** `min_by_key` over the map's entries, in any order. */
    method FindOldest() returns (k: string)
      requires |cache| > 0
      ensures Oldest(cache, k)
    {
      k :| k in cache;
      var todo := cache.Keys - {k};
      while todo != {}
        invariant k in cache && todo <= cache.Keys
        invariant forall j :: j in cache && j !in todo ==> cache[k].time <= cache[j].time
        decreases |todo|
      {
        var j :| j in todo;
        todo := todo - {j};
        if cache[j].time < cache[k].time {
          k := j;
        }
      }
    }

    /** `recognize` and `find_icon`: `now` on entry, `done` when inference finishes. The answer is
        the engine's whatever the cache holds, and failures are not stored. */
    method Serve(req: Request, now: nat, done: nat) returns (r: Result<seq<Detection>, string>)
      requires Valid() && req.png in frames && clock <= now <= done
      modifies this
      ensures Valid() && r == engine(req)
      ensures Serves(hash, engine, old(Model()), Call(req, now, done, r), Model())
      ensures clock == if Lookup(old(cache), Key(hash, req), now).1.Some? || r.Err? then now else done
      ensures r.Err? ==> cache == Lookup(old(cache), Key(hash, req), now).0
      ensures r.Ok? ==> Key(hash, req) in cache
    {
      var key := Key(hash, req);
      var hit := CacheGet(key, now);
      if hit.Some? {
        r := Ok(hit.value);
      } else {
        r := engine(req);
        if r.Ok? {
          CachePut(key, r.value, done);
        }
      }
      assert old(Sound(hash, engine, frames, cache));
      ServesKeeps(hash, engine, frames, old(Model()), Call(req, now, done, r), Model());
    }
  }
}
