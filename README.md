# Constellation-API, modelled in Dafny

Constellation-API is a small web service with one endpoint,
`GET /constellation?lat=..&lon=..&names=..`. For each requested constellation it
returns the apparent altitude and azimuth of a representative star, seen from the
given place at the current instant. The service's own logic is:

- a fixed table `CONSTELLATION_HIP` of fifteen constellation names and the
  Hipparcos numbers of their stars (`Catalog`, catalog.dfy);
- the handler `get_constellation()`, which rejects a request that lacks `lat`,
  `lon` or `names` and turns the `names` parameter into canonical names: split
  on commas, trim whitespace, lower-case (`Handler`, handler.dfy, and `Text`,
  text.dfy);
- the resolver `constellation()`, which fixes one observer and one instant and
  then walks the names in order. It appends an error record for an unknown name
  and a position record for a known one (`Resolver`, resolver.dfy).

The astronomy is done by an external ephemeris library. Here it is an oracle
parameter `observe : (Observer, Instant, HipId) -> AltAz`, and the clock reading
`ts.now()` is a parameter `now`. The model is therefore about validation,
canonicalisation, lookup, tagging, order and length. It is not about astronomy.

`Resolver.Constellation` and `Handler.GetConstellation` are methods, because the
source builds its output list with `append` inside a `for` loop that uses
`continue`. `Resolver.ResolveAll` is the function that specifies that loop. The
string handling, the table and the validation test are pure, so they are
functions and constants.

Three details of the code:

- Canonicalisation happens in the handler (app.py:80), not in
  `constellation()`. The resolver receives names that are already canonical.
- A `lat` or `lon` that is present but does not parse as a float is `None`
  (app.py:73-74), so the handler rejects it like a missing one.
- A `names` value that is not empty is accepted even if it has no real name
  (`","`, `" "`). It yields error records for the empty name `""`
  (app.py:77, 80).

## Model

| member | source | states |
|---|---|---|
| Catalog.CatalogSize | app.py:8-24 | the table has exactly fifteen distinct keys |
| Catalog.CatalogSpelling | app.py:8-24 | every key is a non-empty lower-case ASCII word (letters and `_`) and every Hipparcos number is positive |
| Catalog.KeysAreCanonical | app.py:8-24 | every key is canonical, so canonicalisation maps it to itself |
| Catalog.StarsDistinct | app.py:9-23 | no two constellations in the table share a star |
| Text.Split | app.py:80 | `str.split(",")` yields at least one segment, and no segment holds a comma |
| Text.SplitCount | app.py:80 | empty segments are kept: there is exactly one more segment than there are commas |
| Text.JoinSplit | app.py:80 | joining the segments with the separator gives back the input |
| Text.SplitJoin | app.py:80 | splitting a join of separator-free segments gives back the segments |
| Text.TrimStart | app.py:80 | the result is a suffix of the input; what was dropped is all whitespace; the result does not start with whitespace |
| Text.TrimEnd | app.py:80 | the result is a prefix of the input; what was dropped is all whitespace; the result does not end with whitespace |
| Text.Strip | app.py:80 | `str.strip()` leaves neither leading nor trailing whitespace, never lengthens, and leaves a trimmed string unchanged |
| Text.StripPadding | app.py:80 | stripping any whitespace padding around a trimmed core yields exactly that core |
| Text.Lower | app.py:80 | `str.lower()` keeps the length and lower-cases each ASCII letter, leaving every other character as it is |
| Text.Canonical | app.py:80 | `n.strip().lower()` has no surrounding whitespace and no upper-case letter |
| Text.CanonicalFixpoint | app.py:80 | a canonical name is unchanged by canonicalisation |
| Text.CanonicalIdempotent | app.py:80 | canonicalising twice is the same as canonicalising once |
| Text.CanonicalOfPaddedVariant | app.py:80 | a spelling that differs from a canonical name only in case and surrounding whitespace canonicalises to that name |
| Text.CanonicalNames | app.py:80 | the list comprehension yields one entry per comma-separated segment (comma count + 1), each the canonical form of its segment and free of commas |
| Text.CanonicalNamesOfJoin | app.py:80 | a `names` value made of canonical names joined by commas is read back as exactly those names |
| Resolver.Resolve | app.py:42-62 | an unknown name gives exactly `{constellation: name, error: "Unknown constellation"}`; a known name gives a position record with that name and the oracle's altitude and azimuth for the name's Hipparcos number |
| Resolver.ResolveAll | app.py:41-62 | the response has one entry per requested name, and entry i is the resolution of name i |
| Resolver.Constellation | app.py:36-64 | the observer and the instant are fixed once before the loop, so every position in one response uses `Observer(lat, lon)` and `now`; the loop returns a list as long as the input, entry i names input i, unknown names give the error record, known names give the oracle's position for that observer and instant; the list equals `ResolveAll` |
| Resolver.ResolveAllAppend | app.py:41-44 | resolving a concatenation resolves each part independently, so earlier names never change later entries |
| Resolver.UnknownNameIsIsolated | app.py:42-44 | an unknown name puts its error record in its own place, and the names around it resolve as if it were absent: the loop does not abort |
| Handler.GetConstellation | app.py:73-83 | the response is the 400 error `Missing parameters. Use lat, lon, names` exactly when `lat` or `lon` is missing or unparseable or `names` is empty, and that response is fixed, so it depends on neither the clock nor the oracle; otherwise it is the 200 response holding the resolution of the canonical names |
| Handler.ResponseNamesCanonical | app.py:80-81 | each entry of a response is named by the canonical form of its segment of `names` |
| Handler.PaddedVariantResolves | app.py:80-81 | a segment that matches a table key up to case and surrounding whitespace resolves to that key's star |
| Handler.LeoSpellings | app.py:16 | `"Leo"`, `"LEO"` and `"leo"`, with any whitespace before and after (`" Leo "`, `"\tLeo "`), all canonicalise to `"leo"`, which the table maps to Hipparcos 49669 |
| Handler.MixedRequest | app.py:77-81 | `names=leo,not_a_thing,lyra` yields three entries in order: a position for leo, the error record for not_a_thing, a position for lyra |

## Left out

- HTTP plumbing: Flask routing, reading `request.args`, `jsonify` and
  `app.run` (app.py:1, 5, 67-68, 83, 86-87). The response is a datatype with a
  400 variant and a 200 variant.
- Parsing `lat` and `lon`: the handler receives them already parsed, as
  `None` or a real number. Python float parsing, and the values NaN and
  infinity, are not modelled.
- Loading the Hipparcos dataset and the DE421 ephemeris (app.py:26-33). This is
  network and file I/O.
- The star construction and the observation: `stars.loc[...]`, `Star`,
  `Topos`, `observe`, `apparent`, `altaz` and the conversion of right ascension
  from degrees to hours (app.py:38, 47-56). All of it is foreign floating-point
  code, folded into the oracle parameter `observe`.
- Failures inside that library, such as a dataset row that is missing. They
  would surface as an uncaught server error, but the oracle here is total.
- The clock `ts.now()` (app.py:39). It is the parameter `now`, read once.
- Any range for altitude or azimuth. The code promises none; a range would be
  a property of the external library.
- Text: Unicode whitespace and case mapping beyond ASCII. `IsSpace` is
  Python's ASCII whitespace set, including the separators 0x1C-0x1F, and
  `LowerChar` maps only A-Z.
- Float arithmetic in general: latitude, longitude, altitude and azimuth are
  reals, and the service does no arithmetic on them itself.
- The order of keys in the JSON objects and their serialisation.
