/**
 The per-target latency history kept by the `ProbeStoreDO` durable object.

 The object's storage is a map from string keys to stored lists. Target
 `url` lives under the key `"history:" + url` and holds its samples oldest
 first. Two requests touch it: an add appends one sample and keeps only the
 newest `MaxHistory`, and a history read returns the newest few, clamped.
 Both are pure functions here, taking already-decoded request fields and
 returning the next storage together with the reply body.
 */
module ProbeStore {
  import opened JsArray

  datatype Option<T> = None | Some(value: T)

  /** One latency measurement. The store never looks inside a sample (the
      object keeps whatever JSON value it is sent); the four fields only name
      what the prober puts there. */
  datatype Sample = Sample(ts: int, status: int, ttfbMs: int, totalMs: int)

  /** The durable object's storage. */
  type Store = map<string, seq<Sample>>

  /** At most this many samples are kept per target. */
  const MaxHistory: nat := 200

  /** The number of samples a history read returns when no limit is given. */
  const DefaultLimit: nat := 25

  const KeyPrefix: string := "history:"

  /** The storage key of a target: the prefix, then the target verbatim. */
  function HistoryKey(url: string): (key: string)
    ensures |key| == |KeyPrefix| + |url|
    ensures key[..|KeyPrefix|] == KeyPrefix
    ensures key[|KeyPrefix|..] == url
  {
    KeyPrefix + url
  }

  /** A storage read where a missing key reads as the empty list. */
  function Stored(store: Store, key: string): (r: seq<Sample>)
    ensures key !in store ==> r == []
    ensures key in store ==> r == store[key]
  {
    if key in store then store[key] else []
  }

  /** The invariant every reachable storage keeps: no list is over capacity. */
  predicate Bounded(store: Store) {
    forall k :: k in store ==> |store[k]| <= MaxHistory
  }

  /** Reply to an add: the next storage and the `count` field. */
  datatype AddReply = AddReply(store: Store, count: nat)

  /** An add request for `url`: append `sample`, keep the newest
      `MaxHistory`, write the list back and report its length. Only the
      target's own key changes. */
  function Add(store: Store, url: string, sample: Sample): (r: AddReply)
    ensures HistoryKey(url) in r.store
    ensures r.store[HistoryKey(url)]
            == Last(Stored(store, HistoryKey(url)) + [sample], MaxHistory)
    ensures r.count == |r.store[HistoryKey(url)]| <= MaxHistory
    ensures forall k :: k != HistoryKey(url) ==> (k in r.store <==> k in store)
    ensures forall k :: k != HistoryKey(url) && k in store ==> r.store[k] == store[k]
  {
    var key := HistoryKey(url);
    var existing := Stored(store, key);
    var trimmed := SliceFrom(existing + [sample], -(MaxHistory as int));
    assert trimmed == Last(existing + [sample], MaxHistory) by {
      SliceNegativeIsLast(existing + [sample], MaxHistory);
    }
    AddReply(store[key := trimmed], |trimmed|)
  }

  /** The target a history read is about: a missing `url` parameter is the
      empty string. */
  function Target(url: Option<string>): (t: string)
    ensures url.None? ==> t == ""
    ensures url.Some? ==> t == url.value
  {
    match url
    case Some(u) => u
    case None => ""
  }

  /** The window size of a history read: the given limit, or
      `DefaultLimit` when there is none, forced into `[1, MaxHistory]`. */
  function ClampLimit(limit: Option<int>): (k: nat)
    ensures 1 <= k <= MaxHistory
    ensures limit.None? ==> k == DefaultLimit
    ensures limit.Some? && 1 <= limit.value <= MaxHistory ==> k == limit.value
    ensures limit.Some? && limit.value < 1 ==> k == 1
    ensures limit.Some? && MaxHistory < limit.value ==> k == MaxHistory
  {
    var l := match limit case Some(v) => v case None => DefaultLimit;
    Min(Max(l, 1), MaxHistory)
  }

  /** Reply to a history read: the target and its newest samples. */
  datatype HistoryReply = HistoryReply(url: string, history: seq<Sample>)

  /** A history read: the newest `ClampLimit(limit)` samples of the target,
      oldest first; an unknown target has no samples. */
  function Read(store: Store, url: Option<string>, limit: Option<int>): (r: HistoryReply)
    ensures r.url == Target(url)
    ensures r.history == Last(Stored(store, HistoryKey(r.url)), ClampLimit(limit))
    // Follows from the clause above and the length of `Last`; restated so
    // callers see the reply's length directly.
    ensures |r.history| == Min(ClampLimit(limit), |Stored(store, HistoryKey(r.url))|)
  {
    var target := Target(url);
    var existing := Stored(store, HistoryKey(target));
    var k := ClampLimit(limit);
    assert SliceFrom(existing, -(k as int)) == Last(existing, k) by {
      SliceNegativeIsLast(existing, k);
    }
    HistoryReply(target, SliceFrom(existing, -(k as int)))
  }

  /** The two requests the object serves, with their fields decoded. */
  datatype Request =
    | AddRequest(url: string, sample: Sample)
    | HistoryRequest(target: Option<string>, limit: Option<int>)

  /** The reply bodies: `{ok, count}` and `{ok, url, history}`. */
  datatype Reply =
    | Count(count: nat)
    | History(url: string, history: seq<Sample>)

  datatype Outcome = Outcome(store: Store, reply: Reply)

  /** Serve one request. A history read leaves storage exactly as it was;
      an add changes only its target's key. */
  function Handle(store: Store, req: Request): (r: Outcome)
    ensures req.HistoryRequest? ==> r.store == store
    ensures req.HistoryRequest? ==>
              (var h := Read(store, req.target, req.limit);
               r.reply == History(h.url, h.history))
    ensures req.AddRequest? ==>
              (var a := Add(store, req.url, req.sample);
               r.store == a.store && r.reply == Count(a.count))
    ensures req.AddRequest? ==> r.reply.Count? && r.reply.count <= MaxHistory
    ensures req.AddRequest? ==>
              forall k :: k != HistoryKey(req.url) ==> (k in r.store <==> k in store)
    ensures req.AddRequest? ==>
              forall k :: k != HistoryKey(req.url) && k in store ==> r.store[k] == store[k]
  {
    if req.AddRequest? then
      var a := Add(store, req.url, req.sample);
      Outcome(a.store, Count(a.count))
    else
      var h := Read(store, req.target, req.limit);
      Outcome(store, History(h.url, h.history))
  }
}
