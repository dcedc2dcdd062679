/**
  The travel-time estimate: walking at a fixed speed to and from the
  stations, riding the metro at a fixed average speed, plus a fixed delay
  per connection. Times are in minutes, distances in metres, speeds in
  metres per hour.
 */
module TravelTime {

  const MetroSpeed: real := 25000.0
  const WalkingSpeed: real := 4500.0
  const ConnectingTime: real := 4.0

  /** The minutes needed to walk d metres. */
  function WalkMinutes(d: real): (t: real)
    ensures t * WalkingSpeed == d * 60.0
  {
    d / WalkingSpeed * 60.0
  }

  /** The minutes spent in the metro: riding d metres and making nbConnections connections. */
  function MetroMinutes(d: real, nbConnections: nat): (t: real)
    ensures (t - ConnectingTime * nbConnections as real) * MetroSpeed == d * 60.0
  {
    d / MetroSpeed * 60.0 + nbConnections as real * ConnectingTime
  }

  /** The three time components and the printed total. */
  datatype Times = Times(tDep: real, tMetro: real, tArr: real, total: real)

  function TravelTimes(marcheDepart: real, marcheArrivee: real, distanceMetro: real,
                       nbConnections: nat): (t: Times)
    ensures t.tDep * WalkingSpeed == marcheDepart * 60.0
    ensures t.tArr * WalkingSpeed == marcheArrivee * 60.0
    ensures (t.tMetro - ConnectingTime * nbConnections as real) * MetroSpeed == distanceMetro * 60.0
    ensures t.total == t.tDep + t.tMetro + t.tArr
  {
    var tDep := WalkMinutes(marcheDepart);
    var tArr := WalkMinutes(marcheArrivee);
    var tMetro := MetroMinutes(distanceMetro, nbConnections);
    Times(tDep, tMetro, tArr, tDep + tMetro + tArr)
  }

  /** Walking time is linear in the distance walked: k times the distance takes k times as long. */
  lemma WalkLinear(d: real, k: real)
    ensures WalkMinutes(k * d) == k * WalkMinutes(d)
  {
    assert WalkMinutes(k * d) * WalkingSpeed == k * (WalkMinutes(d) * WalkingSpeed);
  }

  /** Doubling the walk to the departure station doubles that time component. */
  lemma DoubleWalkDoublesTime(marcheDepart: real, marcheArrivee: real, distanceMetro: real, nbConnections: nat)
    ensures TravelTimes(2.0 * marcheDepart, marcheArrivee, distanceMetro, nbConnections).tDep
         == 2.0 * TravelTimes(marcheDepart, marcheArrivee, distanceMetro, nbConnections).tDep
  {
    WalkLinear(marcheDepart, 2.0);
  }

  /** Each extra connection adds exactly four minutes to the metro time and to the total. */
  lemma ConnectionAddsFourMinutes(marcheDepart: real, marcheArrivee: real, distanceMetro: real, n: nat)
    ensures TravelTimes(marcheDepart, marcheArrivee, distanceMetro, n + 1).tMetro
         == TravelTimes(marcheDepart, marcheArrivee, distanceMetro, n).tMetro + 4.0
    ensures TravelTimes(marcheDepart, marcheArrivee, distanceMetro, n + 1).total
         == TravelTimes(marcheDepart, marcheArrivee, distanceMetro, n).total + 4.0
  {
  }

  /** Two 500 m walks and 1000 m of metro without connection: 40/3 + 12/5 = 236/15 minutes. */
  lemma ExampleDirectRoute()
    ensures TravelTimes(500.0, 500.0, 1000.0, 0).tMetro == 2.4
    ensures TravelTimes(500.0, 500.0, 1000.0, 0).tDep == 20.0 / 3.0
    ensures TravelTimes(500.0, 500.0, 1000.0, 0).total == 236.0 / 15.0
  {
  }
}
