/**
 * The string handling that turns the raw `names` query parameter into
 * canonical constellation names: Python's `str.split(",")`, `str.strip()`
 * and `str.lower()`, restricted to ASCII.
 */
module Text {

  /** Python's `str.isspace()` on ASCII: tab, line feed, vertical tab, form feed,
      carriage return, the four separators 0x1C-0x1F, and the space. */
  predicate IsSpace(c: char) {
    c == ' ' || 9 <= c as int <= 13 || 28 <= c as int <= 31
  }

  predicate IsUpper(c: char) {
    'A' <= c <= 'Z'
  }

  /** Python's `str.lower()` on one ASCII character. */
  function LowerChar(c: char): (d: char)
    ensures !IsUpper(d)
    ensures IsUpper(c) ==> d as int == c as int + 32
    ensures !IsUpper(c) ==> d == c
  {
    if IsUpper(c) then (c as int + 32) as char else c
  }

  predicate AllSpace(s: string) {
    forall i :: 0 <= i < |s| ==> IsSpace(s[i])
  }

  /** Neither the first nor the last character is whitespace. */
  predicate IsTrimmed(s: string) {
    s == [] || (!IsSpace(s[0]) && !IsSpace(s[|s| - 1]))
  }

  predicate NoUpper(s: string) {
    forall i :: 0 <= i < |s| ==> !IsUpper(s[i])
  }

  /** What a name looks like after canonicalisation. */
  predicate IsCanonical(s: string) {
    IsTrimmed(s) && NoUpper(s)
  }

  // ---------------------------------------------------------------------
  // str.split(sep)
  // ---------------------------------------------------------------------

  /** Python's `s.split(sep)` for a one-character separator: empty segments
      are kept, so there is always one more segment than separators. */
  function Split(s: string, sep: char): (parts: seq<string>)
    ensures |parts| >= 1
    ensures forall i :: 0 <= i < |parts| ==> sep !in parts[i]
  {
    if s == [] then [[]]
    else
      var rest := Split(s[1..], sep);
      if s[0] == sep then [[]] + rest
      else [[s[0]] + rest[0]] + rest[1..]
  }

  /** There is one more segment than there are separators. */
  lemma {:induction false} SplitCount(s: string, sep: char)
    ensures |Split(s, sep)| == multiset(s)[sep] + 1
  {
    if s != [] {
      SplitCount(s[1..], sep);
      assert s == [s[0]] + s[1..];
      assert multiset(s) == multiset([s[0]]) + multiset(s[1..]);
    }
  }

  /** Python's `sep.join(parts)`. */
  function Join(parts: seq<string>, sep: char): string {
    if |parts| == 0 then []
    else if |parts| == 1 then parts[0]
    else parts[0] + [sep] + Join(parts[1..], sep)
  }

  /** Joining the segments with the separator gives back the input. */
  lemma {:induction false} JoinSplit(s: string, sep: char)
    ensures Join(Split(s, sep), sep) == s
  {
    if s != [] {
      var rest := Split(s[1..], sep);
      JoinSplit(s[1..], sep);
      assert Join(rest, sep) == s[1..];
      if s[0] == sep {
        calc {
          Join(Split(s, sep), sep);
          Join([[]] + rest, sep);
          { assert ([[]] + rest)[1..] == rest; }
          [] + [sep] + Join(rest, sep);
          [s[0]] + s[1..];
          s;
        }
      } else {
        var parts := [[s[0]] + rest[0]] + rest[1..];
        assert Split(s, sep) == parts;
        if |rest| == 1 {
          calc {
            Join(parts, sep);
            parts[0];
            [s[0]] + Join(rest, sep);
            s;
          }
        } else {
          calc {
            Join(parts, sep);
            { assert parts[1..] == rest[1..]; }
            ([s[0]] + rest[0]) + [sep] + Join(rest[1..], sep);
            [s[0]] + (rest[0] + [sep] + Join(rest[1..], sep));
            [s[0]] + Join(rest, sep);
            s;
          }
        }
      }
    }
  }

  /** A segment free of the separator, followed by the separator, splits off as one segment. */
  lemma {:induction false} SplitCons(p: string, sep: char, t: string)
    requires sep !in p
    ensures Split(p + [sep] + t, sep) == [p] + Split(t, sep)
  {
    var s := p + [sep] + t;
    if p == [] {
      assert s[0] == sep && s[1..] == t;
      assert Split(s, sep) == [[]] + Split(t, sep);
    } else {
      assert s[0] == p[0] && s[0] != sep;
      assert s[1..] == p[1..] + [sep] + t;
      SplitCons(p[1..], sep, t);
      var rest := Split(s[1..], sep);
      assert rest == [p[1..]] + Split(t, sep);
      calc {
        Split(s, sep);
        [[s[0]] + rest[0]] + rest[1..];
        { assert [p[0]] + p[1..] == p; }
        [p] + Split(t, sep);
      }
    }
  }

  /** A string without the separator is one segment. */
  lemma {:induction false} SplitNoSep(p: string, sep: char)
    requires sep !in p
    ensures Split(p, sep) == [p]
  {
    if p != [] {
      SplitNoSep(p[1..], sep);
      assert [p[0]] + p[1..] == p;
    }
  }

  /** Splitting a join of separator-free segments gives back the segments. */
  lemma {:induction false} SplitJoin(parts: seq<string>, sep: char)
    requires |parts| >= 1
    requires forall i :: 0 <= i < |parts| ==> sep !in parts[i]
    ensures Split(Join(parts, sep), sep) == parts
  {
    if |parts| == 1 {
      SplitNoSep(parts[0], sep);
    } else {
      SplitJoin(parts[1..], sep);
      SplitCons(parts[0], sep, Join(parts[1..], sep));
      assert [parts[0]] + parts[1..] == parts;
    }
  }

  // ---------------------------------------------------------------------
  // str.strip()
  // ---------------------------------------------------------------------

  /** Python's `s.lstrip()`: drops the leading whitespace. */
  function TrimStart(s: string): (r: string)
    ensures |r| <= |s| && r == s[|s| - |r|..]
    ensures forall i :: 0 <= i < |s| - |r| ==> IsSpace(s[i])
    ensures r == [] || !IsSpace(r[0])
  {
    if |s| > 0 && IsSpace(s[0]) then
      var r := TrimStart(s[1..]);
      assert forall i :: 1 <= i < |s| - |r| ==> s[i] == s[1..][i - 1];
      r
    else s
  }

  /** Python's `s.rstrip()`: drops the trailing whitespace. */
  function TrimEnd(s: string): (r: string)
    ensures |r| <= |s| && r == s[..|r|]
    ensures forall i :: |r| <= i < |s| ==> IsSpace(s[i])
    ensures r == [] || !IsSpace(r[|r| - 1])
  {
    if |s| > 0 && IsSpace(s[|s| - 1]) then TrimEnd(s[..|s| - 1]) else s
  }

  /** Python's `s.strip()`. */
  function Strip(s: string): (r: string)
    ensures |r| <= |s|
    ensures IsTrimmed(r)
    ensures IsTrimmed(s) ==> r == s
  {
    var m := TrimStart(s);
    assert m != [] ==> m[|m| - 1] == s[|s| - 1];
    TrimEnd(m)
  }

  /** Strip removes exactly the whitespace padding around a trimmed core. */
  lemma {:induction false} StripPadding(p: string, m: string, q: string)
    requires AllSpace(p) && AllSpace(q) && IsTrimmed(m)
    ensures Strip(p + m + q) == m
  {
    if m == [] {
      assert p + m + q == p + q;
      AllSpaceConcat(p, q);
      TrimStartAllSpace(p + q);
    } else {
      assert p + m + q == p + (m + q);
      TrimStartPadding(p, m + q);
      TrimEndPadding(m, q);
      assert Strip(p + m + q) == TrimEnd(TrimStart(p + (m + q)));
    }
  }

  lemma AllSpaceConcat(p: string, q: string)
    requires AllSpace(p) && AllSpace(q)
    ensures AllSpace(p + q)
  {
    forall i | 0 <= i < |p + q| ensures IsSpace((p + q)[i]) {
      if i >= |p| { assert (p + q)[i] == q[i - |p|]; }
    }
  }

  lemma TrimStartAllSpace(s: string)
    requires AllSpace(s)
    ensures TrimStart(s) == []
  {
  }

  lemma {:induction false} TrimStartPadding(p: string, t: string)
    requires AllSpace(p)
    requires t == [] || !IsSpace(t[0])
    ensures TrimStart(p + t) == t
  {
    if p != [] {
      assert (p + t)[1..] == p[1..] + t;
      TrimStartPadding(p[1..], t);
    }
  }

  lemma {:induction false} TrimEndPadding(m: string, q: string)
    requires AllSpace(q) && IsTrimmed(m)
    ensures TrimEnd(m + q) == m
  {
    if q != [] {
      assert (m + q)[..|m + q| - 1] == m + q[..|q| - 1];
      TrimEndPadding(m, q[..|q| - 1]);
    } else {
      assert m + q == m;
    }
  }

  // ---------------------------------------------------------------------
  // str.lower()
  // ---------------------------------------------------------------------

  /** Python's `s.lower()` on ASCII: every letter A-Z becomes a-z, nothing else changes. */
  function Lower(s: string): (r: string)
    ensures |r| == |s|
    ensures forall i :: 0 <= i < |s| ==> r[i] == LowerChar(s[i])
  {
    if s == [] then [] else [LowerChar(s[0])] + Lower(s[1..])
  }

  lemma LowerKeepsSpace(c: char)
    ensures IsSpace(LowerChar(c)) <==> IsSpace(c)
  {
  }

  lemma LowerKeepsTrimmed(s: string)
    ensures IsTrimmed(Lower(s)) <==> IsTrimmed(s)
  {
    if s != [] {
      LowerKeepsSpace(s[0]);
      LowerKeepsSpace(s[|s| - 1]);
    }
  }

  // ---------------------------------------------------------------------
  // n.strip().lower()
  // ---------------------------------------------------------------------

  /** One requested name as the handler normalises it: `n.strip().lower()`. */
  function Canonical(n: string): (r: string)
    ensures IsCanonical(r)
    ensures |r| <= |n|
  {
    var m := Strip(n);
    LowerKeepsTrimmed(m);
    Lower(m)
  }

  /** A canonical name is left unchanged by canonicalisation. */
  lemma CanonicalFixpoint(s: string)
    requires IsCanonical(s)
    ensures Canonical(s) == s
  {
    assert Strip(s) == s;
    assert Lower(s) == s;
  }

  /** Canonicalisation is idempotent. */
  lemma CanonicalIdempotent(n: string)
    ensures Canonical(Canonical(n)) == Canonical(n)
  {
    CanonicalFixpoint(Canonical(n));
  }

  /** Matching ignores case and surrounding whitespace: any spelling of a canonical
      name `k` that differs from it only in letter case, padded with any whitespace,
      canonicalises to `k`. */
  lemma {:induction false} CanonicalOfPaddedVariant(p: string, u: string, q: string, k: string)
    requires AllSpace(p) && AllSpace(q)
    requires IsCanonical(k) && Lower(u) == k
    ensures Canonical(p + u + q) == k
  {
    LowerKeepsTrimmed(u);
    StripPadding(p, u, q);
  }

  /** The handler's list comprehension `[n.strip().lower() for n in names.split(",")]`:
      one entry per comma-separated segment, each the canonical form of its segment. */
  function CanonicalNames(names: string): (r: seq<string>)
    ensures |r| == |Split(names, ',')| == multiset(names)[','] + 1
    ensures forall i :: 0 <= i < |r| ==> IsCanonical(r[i]) && ',' !in r[i]
    ensures forall i :: 0 <= i < |r| ==> r[i] == Canonical(Split(names, ',')[i])
  {
    var parts := Split(names, ',');
    SplitCount(names, ',');
    seq(|parts|, i requires 0 <= i < |parts| => CanonicalNoComma(parts[i]); Canonical(parts[i]))
  }

  /** Canonicalisation never introduces a comma. */
  lemma CanonicalNoComma(n: string)
    requires ',' !in n
    ensures ',' !in Canonical(n)
  {
    var m := TrimStart(n);
    assert forall c :: c in m ==> c in n;
    var t := TrimEnd(m);
    assert forall c :: c in t ==> c in m;
    var r := Lower(t);
    forall i | 0 <= i < |r| ensures r[i] != ',' {
      assert t[i] in t;
    }
  }

  /** A request spelled with canonical, comma-free names is read back as exactly those names. */
  lemma CanonicalNamesOfJoin(parts: seq<string>)
    requires |parts| >= 1
    requires forall i :: 0 <= i < |parts| ==> IsCanonical(parts[i]) && ',' !in parts[i]
    ensures CanonicalNames(Join(parts, ',')) == parts
  {
    SplitJoin(parts, ',');
    forall i | 0 <= i < |parts| ensures Canonical(parts[i]) == parts[i] {
      CanonicalFixpoint(parts[i]);
    }
  }
}
