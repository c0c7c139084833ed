/**
 * The registry's contents as an insertion-ordered sequence of
 * (wallet, record) entries, and the three things done to it: keyed
 * assignment, front eviction down to the size cap, and the staleness
 * filter.
 */
module Store {
  import opened Json
  import opened Payload

  /** At most this many miners are kept. */
  const MaxMinersDisplayed: nat := 100

  /** A miner not heard from for this many seconds is stale. */
  const StaleThreshold: int := 600

  /** One key of the ordered dictionary with its value. */
  type Entry = (Value, Record)

  function Keys(es: seq<Entry>): (ks: seq<Value>)
  {
    seq(|es|, i requires 0 <= i < |es| => es[i].0)
  }

  /** A dictionary never holds the same key twice. */
  predicate DistinctKeys(es: seq<Entry>) {
    forall i, j :: 0 <= i < j < |es| ==> es[i].0 != es[j].0
  }

  function Min(a: int, b: int): int {
    if a <= b then a else b
  }

  /** The last `min(|s|, n)` entries of `s`. */
  function Newest(s: seq<Entry>, n: nat): seq<Entry> {
    s[|s| - Min(|s|, n)..]
  }

  /** Position of key `k`, or `|es|` when `k` is not a key. */
  function IndexOf(es: seq<Entry>, k: Value): (i: nat)
    ensures i <= |es|
    ensures i < |es| ==> es[i].0 == k
    ensures forall j :: 0 <= j < i ==> es[j].0 != k
  {
    if es == [] then 0
    else if es[0].0 == k then 0
    else 1 + IndexOf(es[1..], k)
  }

  /**
   * `miner_data[k] = r`: a new key is appended as the newest entry; an
   * existing key gets the new record in its old position, and every other
   * entry stays where it was.
   */
  function Put(es: seq<Entry>, k: Value, r: Record): (es': seq<Entry>)
    ensures k !in Keys(es) ==> es' == es + [(k, r)]
    ensures forall j :: 0 <= j < |es| && es[j].0 == k && DistinctKeys(es) ==> es' == es[j := (k, r)]
    ensures DistinctKeys(es) ==> DistinctKeys(es')
    ensures forall e :: e in es' ==> e in es || e == (k, r)
  {
    var i := IndexOf(es, k);
    if i == |es| then
      assert forall j :: 0 <= j < |es| ==> Keys(es)[j] == es[j].0;
      es + [(k, r)]
    else
      assert Keys(es)[i] == k;
      es[i := (k, r)]
  }

  /**
   * The eviction loop: pop the oldest entry while there are more than
   * `MaxMinersDisplayed`. Exactly the oldest surplus entries go.
   */
  function Evict(es: seq<Entry>): (es': seq<Entry>)
    ensures es' == Newest(es, MaxMinersDisplayed)
    decreases |es|
  {
    if |es| > MaxMinersDisplayed then Evict(es[1..]) else es
  }

  /**
   * The registry after a successful ingest of `(k, r)`: within the cap,
   * and holding nothing but old entries and the new one.
   */
  function Ingested(es: seq<Entry>, k: Value, r: Record): (es': seq<Entry>)
    ensures |es'| <= MaxMinersDisplayed
    ensures forall e :: e in es' ==> e in es || e == (k, r)
  {
    var p := Put(es, k, r);
    assert forall e :: e in Newest(p, MaxMinersDisplayed) ==> e in p;
    Evict(p)
  }

  lemma DistinctKeysSuffix(s: seq<Entry>, p: nat)
    requires p <= |s| && DistinctKeys(s)
    ensures DistinctKeys(s[p..])
  {
    forall i, j | 0 <= i < j < |s| - p
      ensures s[p..][i].0 != s[p..][j].0
    {
      assert s[p..][i] == s[p + i] && s[p..][j] == s[p + j];
    }
  }

  /** An ingest keeps keys distinct. */
  lemma IngestedDistinctKeys(es: seq<Entry>, k: Value, r: Record)
    ensures DistinctKeys(es) ==> DistinctKeys(Ingested(es, k, r))
  {
    if DistinctKeys(es) {
      var p := Put(es, k, r);
      DistinctKeysSuffix(p, |p| - Min(|p|, MaxMinersDisplayed));
    }
  }

  /** Updating an existing wallet evicts nothing: it is exactly an in-place overwrite. */
  lemma UpdateEvictsNothing(es: seq<Entry>, j: nat, r: Record)
    requires DistinctKeys(es) && |es| <= MaxMinersDisplayed
    requires j < |es|
    ensures Ingested(es, es[j].0, r) == es[j := (es[j].0, r)]
  {
  }

  /**
   * A new wallet is appended and is never the one evicted: at most the
   * single oldest entry goes, and only when the registry was full.
   */
  lemma NewWalletAppended(es: seq<Entry>, k: Value, r: Record)
    requires |es| <= MaxMinersDisplayed
    requires k !in Keys(es)
    ensures Ingested(es, k, r) == (if |es| == MaxMinersDisplayed then es[1..] else es) + [(k, r)]
  {
    var p := es + [(k, r)];
    if |es| == MaxMinersDisplayed {
      assert p[1..] == es[1..] + [(k, r)];
    } else {
      assert p[|p| - Min(|p|, MaxMinersDisplayed)..] == p;
    }
  }

  /** The entry just ingested is always in the registry afterwards, holding the new record. */
  lemma IngestedKeepsNewest(es: seq<Entry>, k: Value, r: Record)
    requires DistinctKeys(es) && |es| <= MaxMinersDisplayed
    ensures (k, r) in Ingested(es, k, r)
  {
    var i := IndexOf(es, k);
    if i < |es| {
      UpdateEvictsNothing(es, i, r);
      assert Ingested(es, k, r)[i] == (k, r);
    } else {
      assert k !in Keys(es) by {
        forall j | 0 <= j < |es| ensures Keys(es)[j] != k { }
      }
      NewWalletAppended(es, k, r);
      var res := Ingested(es, k, r);
      assert res[|res| - 1] == (k, r);
    }
  }

  /**
   * Folding a batch of ingests over the registry, oldest first: a valid
   * registry stays valid, and nothing but old and batch entries appears.
   */
  function IngestAll(es: seq<Entry>, batch: seq<Entry>): (es': seq<Entry>)
    ensures |es| <= MaxMinersDisplayed ==> |es'| <= MaxMinersDisplayed
    ensures DistinctKeys(es) ==> DistinctKeys(es')
    ensures forall e :: e in es' ==> e in es || e in batch
    decreases |batch|
  {
    if batch == [] then es
    else
      IngestedDistinctKeys(es, batch[0].0, batch[0].1);
      var next := Ingested(es, batch[0].0, batch[0].1);
      assert forall e :: e in batch[1..] ==> e in batch;
      IngestAll(next, batch[1..])
  }

  lemma NewestOfNewest(a: seq<Entry>, b: seq<Entry>, n: nat)
    ensures Newest(Newest(a, n) + b, n) == Newest(a + b, n)
  {
    var p := |a| - Min(|a|, n);
    assert Newest(a, n) + b == (a + b)[p..];
  }

  /** The first wallet of a batch whose keys, with the registry's, are distinct is new to the registry. */
  lemma FirstOfBatchIsNew(es: seq<Entry>, batch: seq<Entry>)
    requires batch != [] && DistinctKeys(es + batch)
    ensures batch[0].0 !in Keys(es)
  {
    forall j | 0 <= j < |es| ensures Keys(es)[j] != batch[0].0 {
      assert (es + batch)[j] == es[j] && (es + batch)[|es|] == batch[0];
    }
  }

  /** After the first ingest of a batch, what is left still has distinct keys and ends at the same newest entries. */
  lemma BatchStep(es: seq<Entry>, batch: seq<Entry>)
    requires batch != [] && DistinctKeys(es + batch)
    ensures DistinctKeys(Newest(es + [batch[0]], MaxMinersDisplayed) + batch[1..])
    ensures Newest(Newest(es + [batch[0]], MaxMinersDisplayed) + batch[1..], MaxMinersDisplayed)
         == Newest(es + batch, MaxMinersDisplayed)
  {
    var head := es + [batch[0]];
    assert es + batch == head + batch[1..];
    NewestOfNewest(head, batch[1..], MaxMinersDisplayed);
    var p := |head| - Min(|head|, MaxMinersDisplayed);
    assert Newest(head, MaxMinersDisplayed) + batch[1..] == (es + batch)[p..];
    DistinctKeysSuffix(es + batch, p);
  }

  /**
   * Cap eviction is first-in first-out: ingesting wallets that are all
   * new leaves exactly the newest `MaxMinersDisplayed` entries of the
   * old registry followed by the batch.
   */
  lemma {:induction false} IngestAllFifo(es: seq<Entry>, batch: seq<Entry>)
    requires DistinctKeys(es + batch) && |es| <= MaxMinersDisplayed
    ensures IngestAll(es, batch) == Newest(es + batch, MaxMinersDisplayed)
    decreases |batch|
  {
    if batch == [] {
      assert es + batch == es;
    } else {
      FirstOfBatchIsNew(es, batch);
      var es1 := Ingested(es, batch[0].0, batch[0].1);
      assert es1 == Newest(es + [batch[0]], MaxMinersDisplayed);
      BatchStep(es, batch);
      IngestAllFifo(es1, batch[1..]);
    }
  }

  /** Up to the cap, ingesting new wallets into an empty registry keeps all of them, in order. */
  lemma IngestAllWithinCap(batch: seq<Entry>)
    requires DistinctKeys(batch) && |batch| <= MaxMinersDisplayed
    ensures IngestAll([], batch) == batch
  {
    assert [] + batch == batch;
    IngestAllFifo([], batch);
  }

  /** An entry is fresh at time `now` when it was stamped less than `StaleThreshold` seconds before. */
  predicate IsFresh(e: Entry, now: int) {
    now - e.1.serverTimestamp < StaleThreshold
  }

  /** The fresh entries of `es` at time `now`, in their original order. */
  function Fresh(es: seq<Entry>, now: int): (fs: seq<Entry>)
    ensures |fs| <= |es|
    ensures forall e :: e in fs <==> e in es && IsFresh(e, now)
  {
    if es == [] then []
    else
      var last := es[|es| - 1];
      assert forall e :: e in es <==> e in es[..|es| - 1] || e == last;
      Fresh(es[..|es| - 1], now) + (if IsFresh(last, now) then [last] else [])
  }

  /** Filtering distributes over concatenation, so relative order is kept. */
  lemma {:induction false} FreshAppend(a: seq<Entry>, b: seq<Entry>, now: int)
    ensures Fresh(a + b, now) == Fresh(a, now) + Fresh(b, now)
    decreases |b|
  {
    if b == [] {
      assert a + b == a;
    } else {
      var b' := b[..|b| - 1];
      assert (a + b)[..|a + b| - 1] == a + b';
      FreshAppend(a, b', now);
    }
  }

  /** Filtering keeps keys distinct. */
  lemma {:induction false} FreshDistinctKeys(es: seq<Entry>, now: int)
    requires DistinctKeys(es)
    ensures DistinctKeys(Fresh(es, now))
    decreases |es|
  {
    if es != [] {
      var init, last := es[..|es| - 1], es[|es| - 1];
      FreshDistinctKeys(init, now);
      var fi := Fresh(init, now);
      forall e | e in fi ensures e.0 != last.0 {
        var j :| 0 <= j < |init| && init[j] == e;
        assert es[j] == e;
      }
      var fs := Fresh(es, now);
      forall i, j | 0 <= i < j < |fs| ensures fs[i].0 != fs[j].0 {
        if j == |fi| {
          assert fs[i] in fi;
        } else {
          assert fs[i] == fi[i] && fs[j] == fi[j];
        }
      }
    }
  }

  /** Filtering twice at the same time changes nothing the second time. */
  lemma {:induction false} FreshIdempotent(es: seq<Entry>, now: int)
    ensures Fresh(Fresh(es, now), now) == Fresh(es, now)
    decreases |es|
  {
    if es != [] {
      var init, last := es[..|es| - 1], es[|es| - 1];
      var tail := if IsFresh(last, now) then [last] else [];
      FreshAppend(Fresh(init, now), tail, now);
      FreshIdempotent(init, now);
    }
  }

  /** The loop over the registry that collects its fresh entries into a new ordered dictionary. */
  method FilterFresh(es: seq<Entry>, now: int) returns (active: seq<Entry>)
    ensures active == Fresh(es, now)
  {
    active := [];
    for i := 0 to |es|
      invariant active == Fresh(es[..i], now)
    {
      assert es[..i + 1][..i] == es[..i];
      if now - es[i].1.serverTimestamp < StaleThreshold {
        active := active + [es[i]];
      }
    }
    assert es[..|es|] == es;
  }
}
