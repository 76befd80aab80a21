/** The `stamp` value of apps/mlat_server.py: a station identity with a
    time given as whole seconds plus fractional seconds.  Times are exact
    reals here, so `tofloat` has no rounding. */
module Stamps {

  /** A station is identified by the name its client registered. */
  type Station = string

  datatype Stamp = Stamp(addr: Station, secs: int, frac: real)

  /** `stamp.__lt__`: seconds first, fractional seconds on a tie. */
  predicate Less(a: Stamp, b: Stamp)
  {
    if a.secs == b.secs then a.frac < b.frac else a.secs < b.secs
  }

  /** `stamp.__gt__`. */
  predicate Greater(a: Stamp, b: Stamp)
  {
    if a.secs == b.secs then a.frac > b.frac else a.secs > b.secs
  }

  /** `stamp.__eq__`: the station plays no part. */
  predicate Same(a: Stamp, b: Stamp)
  {
    a.secs == b.secs && a.frac == b.frac
  }

  /** `stamp.__ne__`. */
  predicate Differ(a: Stamp, b: Stamp)
  {
    a.secs != b.secs || a.frac != b.frac
  }

  /** `stamp.tofloat`. */
  function ToFloat(s: Stamp): real
  {
    s.secs as real + s.frac
  }

  /** A stamp whose fractional part is in [0, 1), as receivers produce them. */
  predicate WellFormed(s: Stamp)
  {
    0.0 <= s.frac < 1.0
  }

  predicate AllWellFormed(s: seq<Stamp>)
  {
    forall k :: 0 <= k < |s| ==> WellFormed(s[k])
  }

  /** Non-decreasing in the stamp order: no later element is `<` an earlier one. */
  predicate Sorted(s: seq<Stamp>)
  {
    forall i, j :: 0 <= i < j < |s| ==> !Less(s[j], s[i])
  }

  /** The three comparisons are lexicographic on (secs, frac), mutually
      exclusive and exhaustive, `!=` is the negation of `==`, and `>` is
      `<` with the arguments swapped. */
  lemma Trichotomy(a: Stamp, b: Stamp)
    ensures Less(a, b) <==> (a.secs < b.secs || (a.secs == b.secs && a.frac < b.frac))
    ensures Less(a, b) || Greater(a, b) || Same(a, b)
    ensures !(Less(a, b) && Greater(a, b))
    ensures !(Less(a, b) && Same(a, b))
    ensures !(Greater(a, b) && Same(a, b))
    ensures Differ(a, b) <==> !Same(a, b)
    ensures Greater(a, b) <==> Less(b, a)
  {
  }

  /** `<` is a strict order: irreflexive and transitive. */
  lemma LessIsStrictOrder(a: Stamp, b: Stamp, c: Stamp)
    ensures !Less(a, a)
    ensures Less(a, b) && Less(b, c) ==> Less(a, c)
    ensures !Less(a, b) && !Less(b, c) ==> !Less(a, c)
  {
  }

  /** The station never affects a comparison. */
  lemma OrderIgnoresStation(a: Stamp, b: Stamp, x: Station, y: Station)
    ensures Less(a.(addr := x), b.(addr := y)) == Less(a, b)
    ensures Greater(a.(addr := x), b.(addr := y)) == Greater(a, b)
    ensures Same(a.(addr := x), b.(addr := y)) == Same(a, b)
    ensures Differ(a.(addr := x), b.(addr := y)) == Differ(a, b)
    ensures ToFloat(a.(addr := x)) == ToFloat(a)
  {
  }

  /** For well-formed stamps the lexicographic order is the order of
      `tofloat`, and `==` is equality of `tofloat`. */
  lemma OrderMatchesToFloat(a: Stamp, b: Stamp)
    requires WellFormed(a) && WellFormed(b)
    ensures Less(a, b) <==> ToFloat(a) < ToFloat(b)
    ensures Same(a, b) <==> ToFloat(a) == ToFloat(b)
  {
    if a.secs < b.secs {
      assert a.secs as real + 1.0 <= b.secs as real;
    } else if b.secs < a.secs {
      assert b.secs as real + 1.0 <= a.secs as real;
    }
  }

  /** Without well-formed fractions the two orders disagree: (0 s, 5.0)
      comes before (1 s, 0.0) in the stamp order but after it in time. */
  lemma OrderNeedsWellFormedFraction()
    ensures exists a: Stamp, b: Stamp :: Less(a, b) && ToFloat(b) < ToFloat(a)
  {
    var a := Stamp("a", 0, 5.0);
    var b := Stamp("b", 1, 0.0);
    assert Less(a, b) && ToFloat(b) < ToFloat(a);
  }

  /** In a sorted list of well-formed stamps `tofloat` never decreases. */
  lemma SortedTimesNondecreasing(s: seq<Stamp>, i: int, j: int)
    requires Sorted(s) && AllWellFormed(s)
    requires 0 <= i <= j < |s|
    ensures ToFloat(s[i]) <= ToFloat(s[j])
  {
    if i < j {
      OrderMatchesToFloat(s[j], s[i]);
    }
  }
}
