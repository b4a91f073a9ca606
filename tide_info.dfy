/**
 The tide event record that the fetcher produces and the sensor functions
 consume: one predicted high or low water, with its height, its local and
 ISO-8601 time strings and its timestamp in whole seconds since the epoch.
 */
module TideInfo {

  datatype Option<T> = None | Some(value: T)

  /** The `type` string of an event. The sensor functions compare it with the
      literals "LOW" and "HIGH" only; every other string is kept as it is. */
  datatype TideType = Low | High | Other(name: string)

  datatype Tide = Tide(height: real, time: string, timeISO: string, timestamp: int, kind: TideType)

  /** Classifies the upstream `type` string. The classification agrees with
      the string tests of the sensor functions in both directions. */
  function TypeOf(s: string): (k: TideType)
    ensures Decodable(k)
    ensures k == Low <==> s == "LOW"
    ensures k == High <==> s == "HIGH"
    ensures k.Other? <==> s != "LOW" && s != "HIGH"
    ensures k.Other? ==> k.name == s
  {
    if s == "LOW" then Low else if s == "HIGH" then High else Other(s)
  }

  /** The kinds that an upstream `type` string can decode to: `Other` never
      carries "LOW" or "HIGH", which decode to `Low` and `High`. */
  predicate Decodable(k: TideType)
  {
    k.Other? ==> k.name != "LOW" && k.name != "HIGH"
  }

  /** The `type` string an event was decoded from. */
  function TypeName(k: TideType): string
  {
    match k
    case Low => "LOW"
    case High => "HIGH"
    case Other(name) => name
  }

  /** Classifying a string and naming the class gives the string back, so the
      enumeration loses nothing of the upstream value. */
  lemma TypeNameOfTypeOf(s: string)
    ensures TypeName(TypeOf(s)) == s
  {
  }

  /** Every decodable kind is decoded from its own name, so `TypeOf` and
      `TypeName` are inverse on decodable kinds. */
  lemma TypeOfTypeName(k: TideType)
    requires Decodable(k)
    ensures TypeOf(TypeName(k)) == k
  {
  }

  function Timestamp(t: Tide): int
  {
    t.timestamp
  }

  function Abs(x: int): (r: nat)
    ensures r == x || r == -x
  {
    if x < 0 then -x else x
  }
}
