/** The IEEE radar letter-band classifier: a wavelength in centimetres is
    turned into a frequency in gigahertz and looked up, first match wins, in
    the fixed table of IEEE radar bands. */
module FrequencyBand {
  import opened Results

  /** One table entry: the band's letter name and its inclusive
      [fmin, fmax] range in GHz. */
  datatype Band = Band(name: string, fmin: real, fmax: real)

  datatype BandError =
    | DivisionByZero      // wavelength 0.0: Python's float division raises
    | InvalidWavelength   // the frequency lies in no band of the table

  /** The table, in the order the classifier scans it. */
  const IeeeBands: seq<Band> := [
    Band("L", 1.0, 2.0),
    Band("S", 2.0, 4.0),
    Band("C", 4.0, 8.0),
    Band("X", 8.0, 12.0),
    Band("Ku", 12.0, 18.0),
    Band("K", 18.0, 27.0),
    Band("Ka", 27.0, 40.0),
    Band("V", 40.0, 75.0),
    Band("W", 75.0, 110.0)
  ]

  const BandNames: set<string> := {"L", "S", "C", "X", "Ku", "K", "Ka", "V", "W"}

  predicate InBand(b: Band, ghz: real) {
    b.fmin <= ghz <= b.fmax
  }

  /** `i` is the first position of `bands` whose range holds `ghz`. */
  predicate IsFirstMatch(bands: seq<Band>, ghz: real, i: nat) {
    i < |bands| && InBand(bands[i], ghz) && forall j :: 0 <= j < i ==> !InBand(bands[j], ghz)
  }

  /** Every band is a proper range and lies wholly below the bands after it. */
  predicate Ascending(bands: seq<Band>) {
    && (forall i :: 0 <= i < |bands| ==> bands[i].fmin < bands[i].fmax)
    && (forall i, j :: 0 <= i < j < |bands| ==> bands[i].fmax <= bands[j].fmin)
  }

  /** 1e-9 * 3e8 / (wavelength * 1e-2): speed of light over the wavelength
      in metres, in GHz. */
  function Gigahertz(wavelength: real): (ghz: real)
    requires wavelength != 0.0
    ensures ghz * wavelength == 30.0
  {
    0.000000001 * 300000000.0 / (wavelength * 0.01)
  }

  /** The position of the first band of `bands` whose closed range holds
      `ghz`, or None when no band does. */
  function FirstMatch(bands: seq<Band>, ghz: real): (r: Option<nat>)
    ensures r.Some? ==> IsFirstMatch(bands, ghz, r.value)
    ensures r.None? <==> forall j :: 0 <= j < |bands| ==> !InBand(bands[j], ghz)
  {
    if bands == [] then None
    else if InBand(bands[0], ghz) then Some(0)
    else
      match FirstMatch(bands[1..], ghz)
      case None => None
      case Some(i) => Some(i + 1)
  }

  /** get_frequency_band: the name of the first IEEE band holding the
      frequency of `wavelength` (cm), or the error Python raises. */
  function GetFrequencyBand(wavelength: real): (r: Result<string, BandError>)
    ensures r == Failure(DivisionByZero) <==> wavelength == 0.0
  {
    if wavelength == 0.0 then Failure(DivisionByZero)
    else
      var ghz := Gigahertz(wavelength);
      match FirstMatch(IeeeBands, ghz)
      case Some(i) => Success(IeeeBands[i].name)
      case None => Failure(InvalidWavelength)
  }

  /** A classified wavelength gets the name of the first IEEE band holding
      its frequency, always one of the nine letter bands; it fails with
      InvalidWavelength exactly when no band holds the frequency. */
  lemma {:induction false} ClassifiedByFirstMatch(wavelength: real)
    requires wavelength != 0.0
    ensures var r := GetFrequencyBand(wavelength);
            r.Success? ==> r.value in BandNames
    ensures var r := GetFrequencyBand(wavelength);
            r.Success? ==> exists i: nat :: IsFirstMatch(IeeeBands, Gigahertz(wavelength), i) && r.value == IeeeBands[i].name
    ensures var r := GetFrequencyBand(wavelength);
            r == Failure(InvalidWavelength) <==>
              forall j :: 0 <= j < |IeeeBands| ==> !InBand(IeeeBands[j], Gigahertz(wavelength))
  {
    var ghz := Gigahertz(wavelength);
    var m := FirstMatch(IeeeBands, ghz);
    if m.Some? {
      var i := m.value;
      assert IsFirstMatch(IeeeBands, ghz, i);
      assert IeeeBands[i].name in BandNames;
    }
  }

  /** The IEEE table is sorted by frequency, its neighbours share their
      edges, and together they cover [1, 110] GHz without gaps. */
  lemma IeeeBandsContiguous()
    ensures Ascending(IeeeBands)
    ensures IeeeBands[0].fmin == 1.0 && IeeeBands[|IeeeBands| - 1].fmax == 110.0
    ensures forall i :: 0 <= i < |IeeeBands| - 1 ==> IeeeBands[i].fmax == IeeeBands[i + 1].fmin
  {
  }

  /** Multiplying by a positive number keeps the order both ways. */
  lemma ScaleByPositive(x: real, y: real, k: real)
    requires k > 0.0
    ensures x <= y <==> x * k <= y * k
  {
  }

  /** A frequency is classified exactly when it lies in [1, 110] GHz. */
  lemma MatchExactlyInCoveredRange(ghz: real)
    ensures FirstMatch(IeeeBands, ghz).Some? <==> 1.0 <= ghz <= 110.0
  {
    if 1.0 <= ghz <= 110.0 {
      var i := if ghz <= 2.0 then 0 else if ghz <= 4.0 then 1 else if ghz <= 8.0 then 2
        else if ghz <= 12.0 then 3 else if ghz <= 18.0 then 4 else if ghz <= 27.0 then 5
        else if ghz <= 40.0 then 6 else if ghz <= 75.0 then 7 else 8;
      assert InBand(IeeeBands[i], ghz);
    } else {
      IeeeBandsContiguous();
      forall j | 0 <= j < |IeeeBands| ensures !InBand(IeeeBands[j], ghz) {
        assert IeeeBands[0].fmin <= IeeeBands[j].fmin;
        assert IeeeBands[j].fmax <= IeeeBands[|IeeeBands| - 1].fmax;
      }
    }
  }

  /** In wavelength terms: the classifier succeeds exactly for wavelengths in
      [30/110, 30] cm; every other wavelength, including zero and every
      negative one, is an error. */
  lemma ClassifiedWavelengths(wavelength: real)
    ensures GetFrequencyBand(wavelength).Success? <==> 3.0 / 11.0 <= wavelength <= 30.0
  {
    if wavelength != 0.0 {
      var ghz := Gigahertz(wavelength);
      MatchExactlyInCoveredRange(ghz);
      assert GetFrequencyBand(wavelength).Success? <==> FirstMatch(IeeeBands, ghz).Some?;
      if wavelength < 0.0 {
        NegativeWavelengthNegativeFrequency(wavelength);
      } else {
        PositiveWavelengthBounds(wavelength);
      }
    }
  }

  /** A negative wavelength gives a negative frequency. */
  lemma NegativeWavelengthNegativeFrequency(wavelength: real)
    requires wavelength < 0.0
    ensures Gigahertz(wavelength) < 0.0
  {
    var ghz := Gigahertz(wavelength);
    assert ghz * -wavelength == -30.0;
    ScaleByPositive(0.0, ghz, -wavelength);
  }

  /** For a positive wavelength the frequency bounds 1 and 110 GHz are the
      wavelength bounds 30 and 30/110 cm. */
  lemma PositiveWavelengthBounds(wavelength: real)
    requires wavelength > 0.0
    ensures 1.0 <= Gigahertz(wavelength) <==> wavelength <= 30.0
    ensures Gigahertz(wavelength) <= 110.0 <==> 3.0 / 11.0 <= wavelength
  {
    var ghz := Gigahertz(wavelength);
    ScaleByPositive(1.0, ghz, wavelength);
    ScaleByPositive(ghz, 110.0, wavelength);
    assert 1.0 * wavelength == wavelength;
  }

  /** In an ascending table a frequency on the edge shared by two bands goes
      to the earlier one: every band owns its upper edge. */
  lemma SharedEdgeGoesToEarlierBand(bands: seq<Band>, i: nat)
    requires Ascending(bands) && i < |bands|
    ensures FirstMatch(bands, bands[i].fmax) == Some(i)
  {
    var f := bands[i].fmax;
    assert InBand(bands[i], f);
  }

  /** The shared edges of the IEEE table: 2 GHz is L, 4 GHz is S, 8 GHz is C. */
  lemma EdgeExamples()
    ensures GetFrequencyBand(15.0) == Success("L")
    ensures GetFrequencyBand(7.5) == Success("S")
    ensures GetFrequencyBand(3.75) == Success("C")
  {
    IeeeBandsContiguous();
    SharedEdgeGoesToEarlierBand(IeeeBands, 0);
    SharedEdgeGoesToEarlierBand(IeeeBands, 1);
    SharedEdgeGoesToEarlierBand(IeeeBands, 2);
  }

  /** A 5 cm wavelength is 6 GHz, a C-band radar; 1000 cm (0.03 GHz) and
      0.01 cm (3000 GHz) lie outside every band. */
  lemma WavelengthExamples()
    ensures GetFrequencyBand(5.0) == Success("C")
    ensures GetFrequencyBand(1000.0) == Failure(InvalidWavelength)
    ensures GetFrequencyBand(0.01) == Failure(InvalidWavelength)
  {
    MatchExactlyInCoveredRange(Gigahertz(1000.0));
    MatchExactlyInCoveredRange(Gigahertz(0.01));
  }

  /** In an ascending table a higher frequency never lands in an earlier band. */
  lemma FirstMatchMonotone(bands: seq<Band>, ghz1: real, ghz2: real)
    requires Ascending(bands) && ghz1 <= ghz2
    requires FirstMatch(bands, ghz1).Some? && FirstMatch(bands, ghz2).Some?
    ensures FirstMatch(bands, ghz1).value <= FirstMatch(bands, ghz2).value
  {
  }

  /** So among classified wavelengths a longer one never gets a later
      (higher-frequency) IEEE band than a shorter one. */
  lemma LongerWavelengthLowerBand(w1: real, w2: real)
    requires 3.0 / 11.0 <= w2 <= w1 <= 30.0
    ensures FirstMatch(IeeeBands, Gigahertz(w1)).Some? && FirstMatch(IeeeBands, Gigahertz(w2)).Some?
    ensures FirstMatch(IeeeBands, Gigahertz(w1)).value <= FirstMatch(IeeeBands, Gigahertz(w2)).value
  {
    var g1, g2 := Gigahertz(w1), Gigahertz(w2);
    assert g1 <= g2 by {
      assert g1 > 0.0 by { ScaleByPositive(g1, 0.0, w1); }
      ScaleByPositive(g1, g2, w2);
      ScaleByPositive(w2, w1, g1);
    }
    ClassifiedWavelengths(w1);
    ClassifiedWavelengths(w2);
    IeeeBandsContiguous();
    FirstMatchMonotone(IeeeBands, g1, g2);
  }
}
