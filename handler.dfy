/**
 * The `GET /constellation` handler: validates the query parameters, canonicalises
 * the requested names and hands them to the resolver.
 *
 * The parameters arrive already read from the query string: `lat` and `lon` as
 * `None` when they are absent or do not parse as a float (what
 * `request.args.get(..., type=float)` returns), `names` as `None` when absent.
 */
module Handler {
  import opened Wrappers
  import Text
  import Catalog
  import Resolver

  const MissingParameters := "Missing parameters. Use lat, lon, names"

  /** The HTTP response: status 400 with a fixed error body, or status 200 with the array. */
  datatype Response = BadRequest(error: string) | Ok(items: seq<Resolver.Item>) {
    function Status(): int {
      if BadRequest? then 400 else 200
    }
  }

  /** `get_constellation()`. The ghost flag `resolved` is set by hand beside the call
      to the resolver; what shows that a rejected request computes nothing is that the
      400 response is the fixed message and depends on neither `now` nor `observe`. */
  method GetConstellation(lat: Option<real>, lon: Option<real>, names: Option<string>,
                          now: Resolver.Instant, observe: Resolver.Oracle)
    returns (response: Response, ghost resolved: bool)
    ensures response.BadRequest? <==> lat.None? || lon.None? || names.GetOr("") == ""
    ensures response.BadRequest? ==> response == BadRequest(MissingParameters) && response.Status() == 400 && !resolved
    ensures response.Ok? ==> resolved && response.Status() == 200
    ensures response.Ok? ==>
      response.items == Resolver.ResolveAll(Resolver.Observer(lat.value, lon.value), now, observe,
                                            Text.CanonicalNames(names.value))
  {
    var namesArg := names.GetOr("");
    if lat.None? || lon.None? || namesArg == "" {
      return BadRequest(MissingParameters), false;
    }
    var constellations := Text.CanonicalNames(namesArg);
    var result := Resolver.Constellation(lat.value, lon.value, constellations, now, observe);
    return Ok(result), true;
  }

  /** Every entry of a successful response is named by a canonical name, so a known
      name gets a position however it was cased or padded in the request. */
  lemma ResponseNamesCanonical(observer: Resolver.Observer, t: Resolver.Instant, observe: Resolver.Oracle,
                               names: string, i: nat)
    requires i < |Text.CanonicalNames(names)|
    ensures Resolver.ResolveAll(observer, t, observe, Text.CanonicalNames(names))[i].constellation
      == Text.Canonical(Text.Split(names, ',')[i])
    ensures Text.IsCanonical(Resolver.ResolveAll(observer, t, observe, Text.CanonicalNames(names))[i].constellation)
  {
  }

  /** A requested segment that differs from a table key only in letter case and
      surrounding whitespace resolves to that key's star. */
  lemma PaddedVariantResolves(observer: Resolver.Observer, t: Resolver.Instant, observe: Resolver.Oracle,
                              p: string, u: string, q: string, key: string)
    requires key in Catalog.ConstellationHip
    requires Text.AllSpace(p) && Text.AllSpace(q) && Text.Lower(u) == key
    ensures Resolver.Resolve(observer, t, observe, Text.Canonical(p + u + q)) == Resolver.Position(key,
      observe(observer, t, Catalog.ConstellationHip[key]).altitudeDeg,
      observe(observer, t, Catalog.ConstellationHip[key]).azimuthDeg)
  {
    Catalog.KeysAreCanonical(key);
    Text.CanonicalOfPaddedVariant(p, u, q, key);
  }

  /** "Leo", "LEO" and "leo", with any whitespace before and after them (" Leo " or
      "\tLeo " for two), all canonicalise to "leo", which the table maps to Regulus, HIP 49669. */
  lemma LeoSpellings(p: string, core: string, q: string)
    requires Text.AllSpace(p) && Text.AllSpace(q)
    requires core == "Leo" || core == "LEO" || core == "leo"
    ensures Text.Canonical(p + core + q) == "leo"
    ensures Catalog.ConstellationHip[Text.Canonical(p + core + q)] == 49669
  {
    assert Text.Lower(core) == "leo" by {
      assert |core| == 3;
      assert Text.Lower(core)[0] == 'l' && Text.Lower(core)[1] == 'e' && Text.Lower(core)[2] == 'o';
    }
    Catalog.KeysAreCanonical("leo");
    Text.CanonicalOfPaddedVariant(p, core, q, "leo");
  }

  /** The request `names=leo,not_a_thing,lyra` yields three entries, in order:
      a position for leo, the error record for not_a_thing, a position for lyra. */
  lemma MixedRequest(observer: Resolver.Observer, t: Resolver.Instant, observe: Resolver.Oracle, names: string)
    requires names == "leo,not_a_thing,lyra"
    ensures Text.CanonicalNames(names) == ["leo", "not_a_thing", "lyra"]
    ensures Resolver.ResolveAll(observer, t, observe, Text.CanonicalNames(names)) == [
      Resolver.Position("leo", observe(observer, t, 49669).altitudeDeg, observe(observer, t, 49669).azimuthDeg),
      Resolver.Unknown("not_a_thing", Resolver.UnknownConstellation),
      Resolver.Position("lyra", observe(observer, t, 91262).altitudeDeg, observe(observer, t, 91262).azimuthDeg)]
  {
    MixedNames(names);
    MixedItems(observer, t, observe, Text.CanonicalNames(names));
  }

  lemma MixedNames(names: string)
    requires names == "leo,not_a_thing,lyra"
    ensures Text.CanonicalNames(names) == ["leo", "not_a_thing", "lyra"]
  {
    var parts := ["leo", "not_a_thing", "lyra"];
    MixedParts(parts);
    MixedJoin(parts, names);
    Text.CanonicalNamesOfJoin(parts);
  }

  lemma MixedParts(parts: seq<string>)
    requires parts == ["leo", "not_a_thing", "lyra"]
    ensures forall i :: 0 <= i < |parts| ==> Text.IsCanonical(parts[i]) && ',' !in parts[i]
  {
    assert Text.IsCanonical(parts[0]) && ',' !in parts[0];
    assert Text.IsCanonical(parts[1]) && ',' !in parts[1];
    assert Text.IsCanonical(parts[2]) && ',' !in parts[2];
  }

  lemma MixedJoin(parts: seq<string>, names: string)
    requires parts == ["leo", "not_a_thing", "lyra"]
    requires names == "leo,not_a_thing,lyra"
    ensures Text.Join(parts, ',') == names
  {
    assert Text.Join(parts[1..][1..], ',') == parts[2];
    assert Text.Join(parts[1..], ',') == parts[1] + [','] + parts[2];
    assert Text.Join(parts, ',') == parts[0] + [','] + parts[1] + [','] + parts[2];
  }

  lemma MixedItems(observer: Resolver.Observer, t: Resolver.Instant, observe: Resolver.Oracle, parts: seq<string>)
    requires parts == ["leo", "not_a_thing", "lyra"]
    ensures Resolver.ResolveAll(observer, t, observe, parts) == [
      Resolver.Position("leo", observe(observer, t, 49669).altitudeDeg, observe(observer, t, 49669).azimuthDeg),
      Resolver.Unknown("not_a_thing", Resolver.UnknownConstellation),
      Resolver.Position("lyra", observe(observer, t, 91262).altitudeDeg, observe(observer, t, 91262).azimuthDeg)]
  {
    var items := Resolver.ResolveAll(observer, t, observe, parts);
    assert "not_a_thing" !in Catalog.ConstellationHip;
    assert items[0] == Resolver.Resolve(observer, t, observe, "leo");
    assert items[1] == Resolver.Resolve(observer, t, observe, "not_a_thing");
    assert items[2] == Resolver.Resolve(observer, t, observe, "lyra");
  }
}
