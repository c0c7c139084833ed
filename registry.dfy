/**
 * The process-wide miner registry: an insertion-ordered dictionary from
 * wallet to record, filled by the ingestion handler and pruned of stale
 * miners by the statistics handler.
 */
module MinerData {
  import opened Wrappers
  import opened Json
  import opened Payload
  import opened Store

  /** The ingestion handler's answer: success, or the reason for turning the body away. */
  datatype Outcome = Accepted | Rejected(why: Rejection)

  class Registry {
    /** `miner_data`, oldest key first. */
    var entries: seq<Entry>

    ghost predicate Valid()
      reads this
    {
      DistinctKeys(entries) && |entries| <= MaxMinersDisplayed
    }

    constructor ()
      ensures Valid() && entries == []
    {
      entries := [];
    }

    /**
     * The ingestion handler, on a decoded body received at server time
     * `now`. A rejected body leaves the registry as it was; an accepted
     * one is assigned under its wallet and then the oldest entries are
     * popped until the cap holds.
     */
    method Ingest(data: Value, now: int, parseFloat: string -> Option<real>, parseInt: string -> Option<int>)
      returns (outcome: Outcome)
      requires Valid()
      modifies this
      ensures Valid()
      ensures match Decode(data, now, parseFloat, parseInt)
        case Reject(why) => outcome == Rejected(why) && entries == old(entries)
        case Accept(wallet, record) => outcome == Accepted && entries == Ingested(old(entries), wallet, record)
    {
      if !Truthy(data) {
        return Rejected(NoData);
      }
      if !data.Object? {
        return Rejected(InternalError);
      }
      var wallet, cpuUsage, uptime, timestamp := Wallet(data), CpuUsage(data), Uptime(data), Timestamp(data);
      if !HasRequiredFields(wallet, cpuUsage, uptime, timestamp) {
        return Rejected(MissingFields);
      }
      var cpu, up, clientTime := ToFloat(cpuUsage, parseFloat), ToInt(uptime, parseInt), ToInt(timestamp, parseInt);
      if cpu.None? || up.None? || clientTime.None? || !Hashable(wallet) {
        return Rejected(InternalError);
      }
      var record := Record(cpu.value, up.value, clientTime.value, now);
      ghost var before := entries;
      entries := Put(entries, wallet, record);
      while |entries| > MaxMinersDisplayed
        invariant Evict(entries) == Ingested(before, wallet, record)
        decreases |entries|
      {
        entries := entries[1..];
      }
      IngestedDistinctKeys(before, wallet, record);
      outcome := Accepted;
    }

    /**
     * The statistics handler at time `now`: the fresh entries, in order,
     * replace the registry and are returned.
     */
    method Snapshot(now: int) returns (active: seq<Entry>)
      requires Valid()
      modifies this
      ensures Valid()
      ensures active == Fresh(old(entries), now) && entries == active
    {
      FreshDistinctKeys(entries, now);
      active := FilterFresh(entries, now);
      entries := active;
    }
  }

  /**
   * A miner reports once, then the dashboard polls twice: at once, when the
   * miner is listed with its server stamp, and ten minutes later, when it
   * has gone stale and the registry is emptied.
   */
  method DashboardScenario(parseFloat: string -> Option<real>, parseInt: string -> Option<int>)
  {
    var registry := new Registry();
    var body := Object(map["wallet" := Str("A"), "cpu_usage" := Float(12.5), "uptime" := Int(100), "timestamp" := Int(1000)]);
    assert Wallet(body) == Str("A") && CpuUsage(body) == Float(12.5);
    assert Uptime(body) == Int(100) && Timestamp(body) == Int(1000);
    assert Complete(body) && Hashable(Wallet(body));
    assert ToFloat(CpuUsage(body), parseFloat) == Some(12.5);
    assert ToInt(Uptime(body), parseInt) == Some(100) && ToInt(Timestamp(body), parseInt) == Some(1000);
    var a := (Str("A"), Record(12.5, 100, 1000, 5000));
    assert Decode(body, 5000, parseFloat, parseInt) == Accept(a.0, a.1);
    assert Put([], a.0, a.1) == [a];
    assert Ingested([], a.0, a.1) == [a];
    var outcome := registry.Ingest(body, 5000, parseFloat, parseInt);
    assert outcome == Accepted && registry.entries == [a];
    var shown := registry.Snapshot(5000);
    assert [a] == [] + [a];
    assert shown == [a];
    shown := registry.Snapshot(5700);
    assert shown == [] && registry.entries == [];
  }
}
