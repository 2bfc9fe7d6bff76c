/**
 Properties of the history store: what one add does to a target's list,
 that targets never see each other's samples, how a history read clamps its
 limit, and what a run of sequential adds to one target leaves behind.
 */
module StoreProperties {
  import opened JsArray
  import opened ProbeStore

  /** Below capacity an add evicts nothing: the list grows by exactly the
      new sample and the count is one more than before. */
  lemma AddBelowCapacity(store: Store, url: string, sample: Sample)
    requires |Stored(store, HistoryKey(url))| < MaxHistory
    ensures var r := Add(store, url, sample);
            && r.store[HistoryKey(url)] == Stored(store, HistoryKey(url)) + [sample]
            && r.count == |Stored(store, HistoryKey(url))| + 1
  {
    LastOfShort(Stored(store, HistoryKey(url)) + [sample], MaxHistory);
  }

  /** At capacity an add drops exactly the oldest sample: the length stays
      `MaxHistory`. */
  lemma AddAtCapacity(store: Store, url: string, sample: Sample)
    requires |Stored(store, HistoryKey(url))| == MaxHistory
    ensures var r := Add(store, url, sample);
            && r.store[HistoryKey(url)] == Stored(store, HistoryKey(url))[1..] + [sample]
            && r.count == MaxHistory
  {
    LastAppendFull(Stored(store, HistoryKey(url)), sample, MaxHistory);
  }

  /** An add keeps every list within capacity. */
  lemma AddBounded(store: Store, url: string, sample: Sample)
    requires Bounded(store)
    ensures Bounded(Add(store, url, sample).store)
  {
  }

  /** Serving any request keeps every list within capacity. */
  lemma HandleKeepsBounded(store: Store, req: Request)
    requires Bounded(store)
    ensures Bounded(Handle(store, req).store)
  {
    if req.AddRequest? {
      AddBounded(store, req.url, req.sample);
    }
  }

  /** Distinct targets have distinct storage keys. */
  lemma KeyInjective(a: string, b: string)
    requires HistoryKey(a) == HistoryKey(b)
    ensures a == b
  {
    assert a == HistoryKey(a)[|KeyPrefix|..];
  }

  /** An add for one target leaves every other target's list, and therefore
      every history read about it, exactly as it was. */
  lemma AddIsolatesTargets(store: Store, url: string, other: string, sample: Sample, limit: Option<int>)
    requires url != other
    ensures Stored(Add(store, url, sample).store, HistoryKey(other))
            == Stored(store, HistoryKey(other))
    ensures Read(Add(store, url, sample).store, Some(other), limit)
            == Read(store, Some(other), limit)
  {
    if HistoryKey(url) == HistoryKey(other) {
      KeyInjective(url, other);
      assert false;
    }
  }

  /** A target that was never written reads as an empty history. */
  lemma ReadUnknownTarget(store: Store, url: Option<string>, limit: Option<int>)
    requires HistoryKey(Target(url)) !in store
    ensures Read(store, url, limit).history == []
  {
  }

  /** A missing `url` parameter reads the history of the empty target. */
  lemma ReadMissingUrl(store: Store, limit: Option<int>)
    ensures Read(store, None, limit) == Read(store, Some(""), limit)
  {
  }

  /** A limit below 1 behaves as 1. */
  lemma ReadLimitBelowOne(store: Store, url: Option<string>, limit: int)
    requires limit < 1
    ensures Read(store, url, Some(limit)) == Read(store, url, Some(1))
    ensures |Read(store, url, Some(limit)).history| == Min(1, |Stored(store, HistoryKey(Target(url)))|)
  {
  }

  /** A limit above `MaxHistory` behaves as `MaxHistory`. */
  lemma ReadLimitAboveMax(store: Store, url: Option<string>, limit: int)
    requires MaxHistory < limit
    ensures Read(store, url, Some(limit)) == Read(store, url, Some(MaxHistory))
  {
  }

  /** No limit behaves as `DefaultLimit`. */
  lemma ReadDefaultLimit(store: Store, url: Option<string>)
    ensures Read(store, url, None) == Read(store, url, Some(DefaultLimit as int))
  {
  }

  /** Raising the limit to at least 1 matters: for limit 0, `slice(-0)`
      is `slice(0)`, so without the raise a read would return the whole
      stored list; with it, a read returns only the newest sample. */
  lemma ZeroLimitNeedsRaise(store: Store, url: string)
    requires Stored(store, HistoryKey(url)) != []
    ensures var stored := Stored(store, HistoryKey(url));
            && SliceFrom(stored, -Min(0, MaxHistory)) == stored
            && Read(store, Some(url), Some(0)).history == [stored[|stored| - 1]]
  {
    var stored := Stored(store, HistoryKey(url));
    LastIsSuffix(stored, 1);
  }

  /** Reading a target right after adding to it returns a non-empty history
      that ends with the sample just added, whatever the limit. */
  lemma AddThenRead(store: Store, url: string, sample: Sample, limit: Option<int>)
    ensures var h := Read(Add(store, url, sample).store, Some(url), limit).history;
            h != [] && h[|h| - 1] == sample
  {
    var all := Stored(store, HistoryKey(url)) + [sample];
    var stored := Add(store, url, sample).store[HistoryKey(url)];
    LastKeepsNewest(all, MaxHistory);
    LastKeepsNewest(stored, ClampLimit(limit));
  }

  /** Sequential adds of `samples` to one target, in order. */
  function AddAll(store: Store, url: string, samples: seq<Sample>): Store
    decreases |samples|
  {
    if samples == [] then store
    else AddAll(Add(store, url, samples[0]).store, url, samples[1..])
  }

  /** However many samples are added one after another, the target ends up
      with the newest `MaxHistory` of its old list followed by them, in
      insertion order: no sample is lost except by eviction. */
  lemma {:induction false} AddAllWindow(store: Store, url: string, samples: seq<Sample>)
    requires samples != []
    ensures Stored(AddAll(store, url, samples), HistoryKey(url))
            == Last(Stored(store, HistoryKey(url)) + samples, MaxHistory)
    decreases |samples|
  {
    var key := HistoryKey(url);
    var before := Stored(store, key);
    var next := Add(store, url, samples[0]).store;
    assert AddAll(store, url, samples) == AddAll(next, url, samples[1..]);
    assert Stored(next, key) == Last(before + [samples[0]], MaxHistory);
    if |samples| == 1 {
      assert samples == [samples[0]];
      assert AddAll(next, url, samples[1..]) == next;
    } else {
      AddAllWindow(next, url, samples[1..]);
      assert Stored(AddAll(next, url, samples[1..]), key)
             == Last(Last(before + [samples[0]], MaxHistory) + samples[1..], MaxHistory);
      LastOfLastConcat(before + [samples[0]], samples[1..], MaxHistory);
      assert before + [samples[0]] + samples[1..] == before + samples;
    }
  }

  /** Sequential adds never touch any other key: it is present afterwards
      exactly when it was before, and reads the same list. */
  lemma {:induction false} AddAllIsolated(store: Store, url: string, samples: seq<Sample>, key: string)
    requires key != HistoryKey(url)
    ensures key in AddAll(store, url, samples) <==> key in store
    ensures Stored(AddAll(store, url, samples), key) == Stored(store, key)
    decreases |samples|
  {
    if samples != [] {
      AddAllIsolated(Add(store, url, samples[0]).store, url, samples[1..], key);
    }
  }

  /** After at least `MaxHistory` sequential adds, the target holds exactly
      the last `MaxHistory` samples added, in insertion order. */
  lemma ManyAddsKeepLastWindow(store: Store, url: string, samples: seq<Sample>)
    requires MaxHistory <= |samples|
    ensures Stored(AddAll(store, url, samples), HistoryKey(url))
            == samples[|samples| - MaxHistory..]
  {
    var all := Stored(store, HistoryKey(url)) + samples;
    var x := Stored(AddAll(store, url, samples), HistoryKey(url));
    AddAllWindow(store, url, samples);
    LastIsSuffix(all, MaxHistory);
    assert x == all[|all| - MaxHistory..];
    assert all[|all| - MaxHistory..] == samples[|samples| - MaxHistory..];
  }

  /** Up to `MaxHistory` adds to a fresh target keep every sample; no adds
      leave it empty. */
  lemma FewAddsKeepAll(store: Store, url: string, samples: seq<Sample>)
    requires HistoryKey(url) !in store
    requires |samples| <= MaxHistory
    ensures Stored(AddAll(store, url, samples), HistoryKey(url)) == samples
  {
    if samples == [] {
      return;
    }
    AddAllWindow(store, url, samples);
    assert Stored(store, HistoryKey(url)) + samples == samples;
    LastOfShort(samples, MaxHistory);
  }

  /** Serve the adds of `samples` to one target one after another, as the
      object does for requests that reach it in that order, collecting the
      `count` of each reply. */
  method AddEach(store: Store, url: string, samples: seq<Sample>)
    returns (result: Store, counts: seq<nat>)
    ensures |counts| == |samples|
    ensures forall i :: 0 <= i < |counts| ==>
              counts[i] == Min(|Stored(store, HistoryKey(url))| + i + 1, MaxHistory)
    ensures samples != [] ==>
              Stored(result, HistoryKey(url))
              == Last(Stored(store, HistoryKey(url)) + samples, MaxHistory)
    ensures samples == [] ==> result == store
    ensures forall k :: k != HistoryKey(url) ==> Stored(result, k) == Stored(store, k)
  {
    var key := HistoryKey(url);
    var before := Stored(store, key);
    result := store;
    counts := [];
    var i := 0;
    while i < |samples|
      invariant 0 <= i <= |samples|
      invariant |counts| == i
      invariant forall j :: 0 <= j < i ==> counts[j] == Min(|before| + j + 1, MaxHistory)
      invariant i == 0 ==> result == store
      invariant 0 < i ==> Stored(result, key) == Last(before + samples[..i], MaxHistory)
      invariant forall k :: k != key ==> Stored(result, k) == Stored(store, k)
    {
      var reply := Add(result, url, samples[i]);
      assert Stored(reply.store, key) == Last(before + samples[..i + 1], MaxHistory) by {
        assert before + samples[..i + 1] == (before + samples[..i]) + [samples[i]];
        if 0 < i {
          LastOfLastConcat(before + samples[..i], [samples[i]], MaxHistory);
        } else {
          assert before + samples[..i] == before;
        }
      }
      assert reply.count == Min(|before| + i + 1, MaxHistory);
      assert forall k :: k != key ==> Stored(reply.store, k) == Stored(result, k);
      result := reply.store;
      counts := counts + [reply.count];
      i := i + 1;
    }
    assert samples[..i] == samples;
  }
}
