/** What every segmenter shares: the seven-field postal record, the list of the
    sixteen voivodeships, the compound municipality names, and the backward scan
    that locates the voivodeship among the tokens of a line. */
module Vocabulary {
  import opened Wrappers

  /** One row of the postal-code table: PNA, Miejscowość, Ulica, Numery, Gmina,
      Powiat and Województwo. */
  datatype Record = Record(
    pna: string,
    locality: string,
    street: string,
    numbers: string,
    gmina: string,
    powiat: string,
    region: string)

  /** The sixteen voivodeships, two of them hyphenated
      (parse_postal_codes.py:52-57; the same list in the other two segmenters). */
  const Voivodeships: seq<string> := [
    "mazowieckie", "śląskie", "wielkopolskie", "małopolskie", "lubelskie",
    "podkarpackie", "dolnośląskie", "kujawsko-pomorskie", "pomorskie",
    "łódzkie", "zachodniopomorskie", "lubuskie", "podlaskie", "świętokrzyskie",
    "opolskie", "warmińsko-mazurskie"]

  /** Two-word municipality names known to parse_postal_codes.py:93-97. */
  const CompoundGminas: seq<string> := [
    "Nowe Miasto", "Stare Miasto", "Biała Rawska", "Góra Kalwaria",
    "Nowa Dęba", "Stary Sącz", "Nowy Dwór", "Biała Podlaska",
    "Pruszcz Gdański", "Nowy Tomyśl", "Stary Dzierzgoń", "Bielsk Podlaski"]

  /** The shorter list of simple_column_parser.py:211. */
  const ShortCompoundGminas: seq<string> := [
    "Nowe Miasto", "Stare Miasto", "Biała Rawska", "Góra Kalwaria"]

  /** Python's `x in names` for a list of names. */
  predicate Listed(x: string, names: seq<string>) {
    exists k :: 0 <= k < |names| && names[k] == x
  }

  /** Token `i` alone names a voivodeship. */
  predicate SingleHit(parts: seq<string>, i: int) {
    0 <= i < |parts| && Listed(parts[i], Voivodeships)
  }

  /** Tokens `i - 1` and `i` joined by a hyphen name a voivodeship. */
  predicate PairHit(parts: seq<string>, i: int) {
    0 < i < |parts| && Listed(parts[i - 1] + "-" + parts[i], Voivodeships)
  }

  predicate HitAt(parts: seq<string>, i: int) {
    SingleHit(parts, i) || PairHit(parts, i)
  }

  /** Where the scan stopped: the voivodeship, the index of its first token
      (`voiv_idx`) and the index the scan was at. */
  datatype RegionHit = RegionHit(name: string, start: nat, last: nat)

  /** What the scan reports when it stops at index `i`: the single token wins over
      the pair ending at it. */
  function HitFor(parts: seq<string>, i: nat): (h: RegionHit)
    requires HitAt(parts, i)
    ensures h.last == i && Listed(h.name, Voivodeships)
    ensures SingleHit(parts, i) ==> h.name == parts[i] && h.start == i
    ensures !SingleHit(parts, i) ==> h.start + 1 == i && h.name == parts[i - 1] + "-" + parts[i]
  {
    if SingleHit(parts, i) then RegionHit(parts[i], i, i)
    else RegionHit(parts[i - 1] + "-" + parts[i], i - 1, i)
  }

  /** The backward scan over the indices below `n`. */
  function ScanBelow(parts: seq<string>, n: nat): (r: Option<RegionHit>)
    requires n <= |parts|
    ensures r.Some? ==> r.value.last < n && r.value.start <= r.value.last
  {
    if n == 0 then None
    else if HitAt(parts, n - 1) then Some(HitFor(parts, n - 1))
    else ScanBelow(parts, n - 1)
  }

  /** The voivodeship of a line (parse_postal_codes.py:63-74); FindRegionSpec says
      which hit it is. */
  function FindRegion(parts: seq<string>): (r: Option<RegionHit>)
    ensures r.Some? ==> r.value.start <= r.value.last < |parts|
    ensures r.Some? ==> r.value.start == r.value.last || r.value.start + 1 == r.value.last
  {
    var r := ScanBelow(parts, |parts|);
    assert r.Some? ==> r.value.start == r.value.last || r.value.start + 1 == r.value.last by {
      if r.Some? { ScanBelowSpec(parts, |parts|); }
    }
    r
  }

  lemma {:induction false} ScanBelowSpec(parts: seq<string>, n: nat)
    requires n <= |parts|
    ensures var r := ScanBelow(parts, n);
      && (r.None? <==> forall i :: 0 <= i < n ==> !HitAt(parts, i))
      && (r.Some? ==>
           && HitAt(parts, r.value.last)
           && r.value == HitFor(parts, r.value.last)
           && forall i :: r.value.last < i < n ==> !HitAt(parts, i))
    decreases n
  {
    if n == 0 {
    } else if HitAt(parts, n - 1) {
      assert ScanBelow(parts, n) == Some(HitFor(parts, n - 1));
    } else {
      var r := ScanBelow(parts, n - 1);
      assert ScanBelow(parts, n) == r;
      ScanBelowSpec(parts, n - 1);
      if r.Some? {
        forall i | r.value.last < i < n ensures !HitAt(parts, i) {
          if i < n - 1 {
          }
        }
      } else {
        forall i | 0 <= i < n ensures !HitAt(parts, i) {
          if i < n - 1 {
          }
        }
      }
    }
  }

  /** The scan reports the hit at the LAST index where either test succeeds, the
      single token winning over the pair ending at the same index; tokens after it
      are ignored. No hit anywhere gives None. */
  lemma FindRegionSpec(parts: seq<string>)
    ensures var r := FindRegion(parts);
      && (r.None? <==> forall i :: 0 <= i < |parts| ==> !HitAt(parts, i))
      && (r.Some? ==>
           && HitAt(parts, r.value.last)
           && r.value == HitFor(parts, r.value.last)
           && forall i :: r.value.last < i < |parts| ==> !HitAt(parts, i))
  {
    ScanBelowSpec(parts, |parts|);
  }

  /** A hit with none after it is the one the scan reports. */
  lemma LastHit(parts: seq<string>, i: nat)
    requires HitAt(parts, i) && forall j :: i < j < |parts| ==> !HitAt(parts, j)
    ensures FindRegion(parts) == Some(HitFor(parts, i))
  {
    FindRegionSpec(parts);
  }

  /** The scan as the segmenters write it: a loop from the last index down that
      stops at the first index where the single token or the pair ending there is
      a voivodeship. */
  method ScanRegion(parts: seq<string>) returns (region: string, idx: int)
    ensures idx == -1 <==> FindRegion(parts).None?
    ensures idx == -1 ==> region == ""
    ensures idx != -1 ==>
      && FindRegion(parts).Some?
      && idx == FindRegion(parts).value.start
      && region == FindRegion(parts).value.name
  {
    region, idx := "", -1;
    var i := |parts| - 1;
    while i >= 0
      invariant -1 <= i < |parts|
      invariant forall j :: i < j < |parts| ==> !HitAt(parts, j)
    {
      if Listed(parts[i], Voivodeships) {
        LastHit(parts, i);
        region, idx := parts[i], i;
        return;
      }
      if i > 0 {
        var compound := parts[i - 1] + "-" + parts[i];
        if Listed(compound, Voivodeships) {
          LastHit(parts, i);
          region, idx := compound, i - 1;
          return;
        }
      }
      i := i - 1;
    }
    FindRegionSpec(parts);
  }

  // ---------------------------------------------------------------------------
  // The hyphenated voivodeships

  lemma NoHyphenA(v: string)
    requires v in ["mazowieckie", "śląskie", "wielkopolskie", "małopolskie"]
    ensures '-' !in v
  {
  }

  lemma NoHyphenB(v: string)
    requires v in ["lubelskie", "podkarpackie", "dolnośląskie", "pomorskie"]
    ensures '-' !in v
  {
  }

  lemma NoHyphenC(v: string)
    requires v in ["łódzkie", "zachodniopomorskie", "lubuskie", "podlaskie"]
    ensures '-' !in v
  {
  }

  lemma NoHyphenD(v: string)
    requires v in ["świętokrzyskie", "opolskie"]
    ensures '-' !in v
  {
  }

  lemma OneHyphen(v: string, k: int)
    requires v in ["kujawsko-pomorskie", "warmińsko-mazurskie"] && 0 <= k < |v| && v[k] == '-'
    ensures (v == "kujawsko-pomorskie" && k == 8) || (v == "warmińsko-mazurskie" && k == 9)
  {
  }

  /** Only the two hyphenated voivodeships contain a hyphen, each exactly once. */
  lemma HyphenatedVoivodeship(v: string, k: int)
    requires Listed(v, Voivodeships) && 0 <= k < |v| && v[k] == '-'
    ensures (v == "kujawsko-pomorskie" && k == 8) || (v == "warmińsko-mazurskie" && k == 9)
  {
    var i :| 0 <= i < |Voivodeships| && Voivodeships[i] == v;
    assert v[k] in v;
    if i < 4 {
      NoHyphenA(v);
    } else if i == 7 || i == 15 {
      OneHyphen(v, k);
    } else if i < 9 {
      NoHyphenB(v);
    } else if i < 13 {
      NoHyphenC(v);
    } else {
      NoHyphenD(v);
    }
  }

  lemma PairSplit(a: string, b: string, v: string, k: nat)
    requires a + "-" + b == v && |a| == k < |v|
    ensures a == v[..k] && b == v[k + 1..]
  {
  }

  /** A pair hit is only ever "kujawsko" "pomorskie" or "warmińsko" "mazurskie". */
  lemma PairHitWords(parts: seq<string>, i: int)
    requires PairHit(parts, i)
    ensures (parts[i - 1] == "kujawsko" && parts[i] == "pomorskie") ||
            (parts[i - 1] == "warmińsko" && parts[i] == "mazurskie")
  {
    var a, b := parts[i - 1], parts[i];
    var v := a + "-" + b;
    assert v[|a|] == '-';
    HyphenatedVoivodeship(v, |a|);
    PairSplit(a, b, v, |a|);
  }

  /** Because "pomorskie" is itself a voivodeship and is tested first, a split
      "kujawsko pomorskie" resolves to "pomorskie" with "kujawsko" before it; only
      "warmińsko mazurskie" is ever recognised as a pair. */
  lemma ScanPrefersSingle(parts: seq<string>)
    requires FindRegion(parts).Some?
    ensures var h := FindRegion(parts).value;
      h.start < h.last ==> h.name == "warmińsko-mazurskie" && parts[h.start] == "warmińsko"
  {
    FindRegionSpec(parts);
    var h := FindRegion(parts).value;
    if h.start < h.last {
      PairHitWords(parts, h.last);
      assert parts[h.last] != "pomorskie" by {
        assert Voivodeships[8] == "pomorskie";
      }
      WarminskoMazurskie(parts[h.start], parts[h.last]);
    }
  }

  lemma WarminskoMazurskie(a: string, b: string)
    requires a == "warmińsko" && b == "mazurskie"
    ensures a + "-" + b == "warmińsko-mazurskie"
  {
  }

  lemma KujawskoPomorskieSplit(pre: seq<string>)
    ensures var parts := pre + ["kujawsko", "pomorskie"];
      FindRegion(parts) == Some(RegionHit("pomorskie", |pre| + 1, |pre| + 1))
  {
    var parts := pre + ["kujawsko", "pomorskie"];
    assert parts[|pre| + 1] == "pomorskie" == Voivodeships[8];
    assert SingleHit(parts, |pre| + 1);
  }
}
