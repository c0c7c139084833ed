/**
 * Validation of an ingestion request body and construction of the miner
 * record it describes, before anything is written to the registry.
 */
module Payload {
  import opened Wrappers
  import opened Json

  /** What the registry stores per wallet. */
  datatype Record = Record(cpuUsage: real, uptime: int, clientTimestamp: int, serverTimestamp: int)

  /** Why a request body is turned away: a 400 for the first two, a 500 for the last. */
  datatype Rejection =
    | NoData         // the body is empty or falsy
    | MissingFields  // the wallet is falsy, or a numeric field is absent or null
    | InternalError  // a conversion raised, the body is not an object, or the wallet is unhashable

  /** A body either yields the wallet key and its new record, or is rejected. */
  datatype Decoded = Accept(wallet: Value, record: Record) | Reject(why: Rejection)

  /**
   * The required-fields check: the wallet must be truthy, while the three
   * numeric fields need only be present, so a zero is accepted.
   */
  predicate HasRequiredFields(wallet: Value, cpuUsage: Value, uptime: Value, timestamp: Value) {
    Truthy(wallet) && cpuUsage != Null && uptime != Null && timestamp != Null
  }

  /** The four fields the handler reads from an object body. */
  function Wallet(data: Value): Value
    requires data.Object?
  { Get(data.fields, "wallet") }

  function CpuUsage(data: Value): Value
    requires data.Object?
  { Get(data.fields, "cpu_usage") }

  function Uptime(data: Value): Value
    requires data.Object?
  { Get(data.fields, "uptime") }

  function Timestamp(data: Value): Value
    requires data.Object?
  { Get(data.fields, "timestamp") }

  /** Whether an object body passes the required-fields check. */
  predicate Complete(data: Value)
    requires data.Object?
  {
    HasRequiredFields(Wallet(data), CpuUsage(data), Uptime(data), Timestamp(data))
  }

  /**
   * Decodes a request body received at server time `now`. The record is
   * built in full (every conversion done) before the caller touches the
   * registry, so a failing conversion leaves nothing half-applied.
   */
  function Decode(data: Value, now: int, parseFloat: string -> Option<real>, parseInt: string -> Option<int>): (d: Decoded)
    ensures d == Reject(NoData) <==> !Truthy(data)
    ensures d == Reject(MissingFields) <==> Truthy(data) && data.Object? && !Complete(data)
    ensures d.Accept? <==>
      Truthy(data) && data.Object? && Complete(data) && Hashable(Wallet(data))
      && ToFloat(CpuUsage(data), parseFloat).Some?
      && ToInt(Uptime(data), parseInt).Some?
      && ToInt(Timestamp(data), parseInt).Some?
    ensures d.Accept? ==>
      && d.wallet == Wallet(data) && Truthy(d.wallet)
      && Some(d.record.cpuUsage) == ToFloat(CpuUsage(data), parseFloat)
      && Some(d.record.uptime) == ToInt(Uptime(data), parseInt)
      && Some(d.record.clientTimestamp) == ToInt(Timestamp(data), parseInt)
      && d.record.serverTimestamp == now
  {
    if !Truthy(data) then Reject(NoData)
    else if !data.Object? then Reject(InternalError)
    else if !Complete(data) then Reject(MissingFields)
    else
      var cpuUsage := ToFloat(CpuUsage(data), parseFloat);
      var uptime := ToInt(Uptime(data), parseInt);
      var clientTimestamp := ToInt(Timestamp(data), parseInt);
      if cpuUsage.None? || uptime.None? || clientTimestamp.None? || !Hashable(Wallet(data)) then
        Reject(InternalError)
      else
        Accept(Wallet(data), Record(cpuUsage.value, uptime.value, clientTimestamp.value, now))
  }

  /** Present zero values are not mistaken for missing ones: a body of zeros is accepted as is. */
  lemma ZeroFieldsAccepted(data: Value, wallet: string, now: int,
                           parseFloat: string -> Option<real>, parseInt: string -> Option<int>)
    requires data.Object? && wallet != ""
    requires Wallet(data) == Str(wallet)
    requires CpuUsage(data) == Int(0) && Uptime(data) == Int(0) && Timestamp(data) == Int(0)
    ensures Decode(data, now, parseFloat, parseInt) == Accept(Str(wallet), Record(0.0, 0, 0, now))
  {
  }

  /** A field that is absent or null rejects the body even when every other field is present. */
  lemma NullFieldRejected(data: Value, now: int,
                          parseFloat: string -> Option<real>, parseInt: string -> Option<int>)
    requires data.Object? && data.fields != map[]
    requires CpuUsage(data) == Null || Uptime(data) == Null || Timestamp(data) == Null
    ensures Decode(data, now, parseFloat, parseInt) == Reject(MissingFields)
  {
  }
}
