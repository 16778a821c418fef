/**
 * The fixed table `CONSTELLATION_HIP`: fifteen constellations, each keyed by its
 * canonical (lower-case) name and mapped to the Hipparcos catalogue number of
 * one representative star. It is a constant: nothing in the service changes it.
 */
module Catalog {
  import Text

  const ConstellationHip: map<string, int> := map[
    "aquila"      := 97649,   // Altair
    "bootes"      := 69673,   // Arcturus
    "canis_major" := 32349,   // Sirius
    "canis_minor" := 37279,   // Procyon
    "cassiopeia"  := 8886,    // Schedar
    "cygnus"      := 102098,  // Deneb
    "gemini"      := 36850,   // Pollux
    "leo"         := 49669,   // Regulus
    "lyra"        := 91262,   // Vega
    "orion"       := 24436,   // Betelgeuse
    "pleiades"    := 17702,   // Alcyone
    "sagittarius" := 90185,   // Kaus Australis
    "scorpius"    := 85927,   // Antares
    "taurus"      := 21421,   // Aldebaran
    "ursa_major"  := 54061    // Dubhe
  ]

  /** A key is made of lower-case ASCII letters and underscores. */
  predicate IsKeySpelling(name: string) {
    name != [] && forall i :: 0 <= i < |name| ==> 'a' <= name[i] <= 'z' || name[i] == '_'
  }

  /** The table holds exactly fifteen distinct names. */
  lemma CatalogSize()
    ensures |ConstellationHip| == 15
  {
    var names := ["aquila", "bootes", "canis_major", "canis_minor", "cassiopeia", "cygnus",
                  "gemini", "leo", "lyra", "orion", "pleiades", "sagittarius", "scorpius",
                  "taurus", "ursa_major"];
    assert ConstellationHip.Keys == set n | n in names;
    assert forall i, j :: 0 <= i < j < |names| ==> names[i] != names[j];
    DistinctCard(names);
  }

  /** A sequence without repetitions has as many distinct elements as it is long. */
  lemma {:induction false} DistinctCard<T>(s: seq<T>)
    requires forall i, j :: 0 <= i < j < |s| ==> s[i] != s[j]
    ensures |set x | x in s| == |s|
  {
    if s != [] {
      DistinctCard(s[1..]);
      assert (set x | x in s) == {s[0]} + (set x | x in s[1..]);
    }
  }

  /** Each name is spelled in lower case and mapped to a positive Hipparcos number. */
  lemma CatalogSpelling()
    ensures forall name :: name in ConstellationHip ==> IsKeySpelling(name) && ConstellationHip[name] > 0
  {
  }

  /** Every key is already canonical, so a requested name can only match a key
      through its canonical form. */
  lemma KeysAreCanonical(name: string)
    requires name in ConstellationHip
    ensures Text.IsCanonical(name)
    ensures Text.Canonical(name) == name
  {
    CatalogSpelling();
    Text.CanonicalFixpoint(name);
  }

  /** No two constellations share a star. */
  lemma StarsDistinct()
    ensures forall a, b :: a in ConstellationHip && b in ConstellationHip && a != b ==>
      ConstellationHip[a] != ConstellationHip[b]
  {
  }
}
