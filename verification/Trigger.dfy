/** One detection of a lightning pulse at a station, and the table of travel times. */
module Trigger {
  import opened GpsTime

  datatype TriggerInfo = TriggerInfo(time: GPSTime, stationID: int, value: real, trigIdx: nat)

  /** What operator< and operator== of triggers look at. */
  datatype Key = Key(time: GPSTime, stationID: int)

  function KeyOf(t: TriggerInfo): Key {
    Key(t.time, t.stationID)
  }

  predicate KeyLess(a: Key, b: Key) {
    Less(a.time, b.time) || (a.time == b.time && a.stationID < b.stationID)
  }

  predicate Before(a: TriggerInfo, b: TriggerInfo) {
    KeyLess(KeyOf(a), KeyOf(b))
  }

  lemma KeyOrder(a: Key, b: Key, c: Key)
    ensures KeyLess(a, b) || KeyLess(b, a) || a == b
    ensures !(KeyLess(a, b) && KeyLess(b, a)) && !KeyLess(a, a)
    ensures KeyLess(a, b) && KeyLess(b, c) ==> KeyLess(a, c)
  {
    LessTotal(a.time, b.time);
    LessTotal(b.time, c.time);
    LessTotal(a.time, c.time);
    if KeyLess(a, b) && KeyLess(b, c) { LessTransitive(a.time, b.time, c.time); }
  }

  function Abs(x: real): real {
    if x < 0.0 then -x else x
  }

  /** Travel times between stations, zero where the table has none. */
  type TravelTimes = (int, int) -> real

  /** The bound on the time between two detections of one pulse. */
  predicate WithinReach(travel: TravelTimes, element: TriggerInfo, tri: TriggerInfo) {
    !(Abs(Minus(tri.time, element.time)) > travel(element.stationID, tri.stationID) + 0.0001)
  }

  /** For stations up to 39 seconds apart the test is exact within a minute: the detections are then no
      further apart than the travel time and a tenth of a millisecond. */
  lemma WithinReachExact(travel: TravelTimes, a: TriggerInfo, b: TriggerInfo)
    requires Valid(a.time) && Valid(b.time) && travel(a.stationID, b.stationID) <= 39.0
    ensures WithinReach(travel, a, b) <==>
      (SameMinute(a.time, b.time)
       && 10000.0 * (Abs(Instant(b.time) - Instant(a.time)) - travel(a.stationID, b.stationID)) <= 1.0)
  {
    hide SameMinute, Instant, Minus, Less;
    MinusOpposite(a.time, b.time);
    ExactWithinMinute(b.time, a.time);
    SameMinuteBack(a.time, b.time);
    if 0.0 <= Minus(b.time, a.time) <= 40.0 { SmallDifferenceExact(b.time, a.time); }
    if 0.0 <= Minus(a.time, b.time) <= 40.0 { SmallDifferenceExact(a.time, b.time); }
  }

  /** Triggers are ordered by instant, and those of one instant by station. */
  lemma BeforeExact(a: TriggerInfo, b: TriggerInfo)
    requires Valid(a.time) && Valid(b.time)
    ensures Before(a, b) <==>
      (Instant(a.time) < Instant(b.time) || (Instant(a.time) == Instant(b.time) && a.stationID < b.stationID))
    ensures KeyOf(a) == KeyOf(b) <==> Instant(a.time) == Instant(b.time) && a.stationID == b.stationID
  {
    hide Instant, Less;
    OrderAgrees(a.time, b.time);
  }
}
