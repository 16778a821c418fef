/**
 * The resolver `constellation(lat, lon, constellations)`: it fixes one observer
 * and one instant, then walks the requested names in order and appends, for each,
 * either an error record (the name is not in the table) or the star's apparent
 * altitude and azimuth.
 *
 * The astronomy belongs to an external ephemeris library. Here it is the
 * parameter `observe`: given the observer, the instant and the Hipparcos number,
 * it yields the altitude and azimuth in degrees. It stands for the dataset row
 * lookup, the construction of the star from its right ascension and declination,
 * and `observer.at(t).observe(star).apparent().altaz()`.
 */
module Resolver {
  import Catalog

  /** An observer on the Earth's surface, in degrees. */
  datatype Observer = Observer(latitudeDeg: real, longitudeDeg: real)

  /** The instant the clock reported, in whatever scale the ephemeris library uses. */
  type Instant = real

  /** An apparent horizontal position, in degrees. */
  datatype AltAz = AltAz(altitudeDeg: real, azimuthDeg: real)

  /** The ephemeris library's observation of a star, by Hipparcos number. */
  type Oracle = (Observer, Instant, int) -> AltAz

  /** One entry of the response array: `{constellation, altitude_deg, azimuth_deg}`
      for a known name, `{constellation, error}` for an unknown one. */
  datatype Item =
    | Position(constellation: string, altitudeDeg: real, azimuthDeg: real)
    | Unknown(constellation: string, error: string)

  const UnknownConstellation := "Unknown constellation"

  /** What the loop body produces for one name, with the observer and instant
      that were fixed before the loop. */
  function Resolve(observer: Observer, t: Instant, observe: Oracle, name: string): (item: Item)
    ensures item.constellation == name
    ensures item.Unknown? <==> name !in Catalog.ConstellationHip
    ensures item.Unknown? ==> item == Unknown(name, UnknownConstellation)
    ensures item.Position? ==>
      AltAz(item.altitudeDeg, item.azimuthDeg) == observe(observer, t, Catalog.ConstellationHip[name])
  {
    if name !in Catalog.ConstellationHip then Unknown(name, UnknownConstellation)
    else
      var altAz := observe(observer, t, Catalog.ConstellationHip[name]);
      Position(name, altAz.altitudeDeg, altAz.azimuthDeg)
  }

  /** The whole response for a list of names: one entry per name, in order. */
  function ResolveAll(observer: Observer, t: Instant, observe: Oracle, names: seq<string>): (items: seq<Item>)
    ensures |items| == |names|
    ensures forall i :: 0 <= i < |names| ==> items[i] == Resolve(observer, t, observe, names[i])
  {
    if names == [] then [] else [Resolve(observer, t, observe, names[0])] + ResolveAll(observer, t, observe, names[1..])
  }

  /** `constellation()`: builds the output list by appending inside a loop,
      skipping to the next name with `continue` when a name is unknown. The
      observer and the instant `now` are fixed once, before the loop. */
  method Constellation(lat: real, lon: real, constellations: seq<string>, now: Instant, observe: Oracle)
    returns (outputList: seq<Item>)
    ensures |outputList| == |constellations|
    ensures forall i :: 0 <= i < |constellations| ==> outputList[i].constellation == constellations[i]
    ensures forall i :: 0 <= i < |constellations| && constellations[i] !in Catalog.ConstellationHip ==>
      outputList[i] == Unknown(constellations[i], UnknownConstellation)
    ensures forall i :: 0 <= i < |constellations| && constellations[i] in Catalog.ConstellationHip ==>
      outputList[i].Position? &&
      AltAz(outputList[i].altitudeDeg, outputList[i].azimuthDeg)
        == observe(Observer(lat, lon), now, Catalog.ConstellationHip[constellations[i]])
    ensures outputList == ResolveAll(Observer(lat, lon), now, observe, constellations)
  {
    outputList := [];
    var observer := Observer(lat, lon);
    var t := now;
    for i := 0 to |constellations|
      invariant |outputList| == i
      invariant forall k :: 0 <= k < i ==> outputList[k] == Resolve(observer, t, observe, constellations[k])
    {
      var name := constellations[i];
      if name !in Catalog.ConstellationHip {
        outputList := outputList + [Unknown(name, UnknownConstellation)];
        continue;
      }
      var hipId := Catalog.ConstellationHip[name];
      var altAz := observe(observer, t, hipId);
      outputList := outputList + [Position(name, altAz.altitudeDeg, altAz.azimuthDeg)];
    }
  }

  /** Resolving a concatenation resolves each part independently: the entries for
      later names do not depend on what came before. */
  lemma {:induction false} ResolveAllAppend(observer: Observer, t: Instant, observe: Oracle, a: seq<string>, b: seq<string>)
    ensures ResolveAll(observer, t, observe, a + b) == ResolveAll(observer, t, observe, a) + ResolveAll(observer, t, observe, b)
  {
    if a == [] {
      assert a + b == b;
    } else {
      assert (a + b)[0] == a[0];
      assert (a + b)[1..] == a[1..] + b;
      ResolveAllAppend(observer, t, observe, a[1..], b);
      calc {
        ResolveAll(observer, t, observe, a + b);
        [Resolve(observer, t, observe, a[0])] + ResolveAll(observer, t, observe, a[1..] + b);
        [Resolve(observer, t, observe, a[0])] + (ResolveAll(observer, t, observe, a[1..]) + ResolveAll(observer, t, observe, b));
        ([Resolve(observer, t, observe, a[0])] + ResolveAll(observer, t, observe, a[1..])) + ResolveAll(observer, t, observe, b);
        ResolveAll(observer, t, observe, a) + ResolveAll(observer, t, observe, b);
      }
    }
  }

  /** An unknown name yields its error record in its own place and the names
      around it are resolved as if it were absent: the loop does not abort. */
  lemma UnknownNameIsIsolated(observer: Observer, t: Instant, observe: Oracle, before: seq<string>, name: string, after: seq<string>)
    requires name !in Catalog.ConstellationHip
    ensures ResolveAll(observer, t, observe, before + [name] + after)
      == ResolveAll(observer, t, observe, before) + [Unknown(name, UnknownConstellation)] + ResolveAll(observer, t, observe, after)
  {
    ResolveAllAppend(observer, t, observe, before + [name], after);
    ResolveAllAppend(observer, t, observe, before, [name]);
  }
}
