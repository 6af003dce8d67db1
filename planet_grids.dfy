/**
 * Choice of the opacity and chemistry set-up by planet type, as made while
 * constructing `generate_atmosphere` (utils.py).  The planet type is a
 * string tag; only "terrestrial" and "giant" select a configuration, and any
 * other tag selects none.
 */
module PlanetGrids {
  import opened Wrappers

  datatype PlanetType = Terrestrial | Giant

  /** The tag that selects a planet type. */
  function Tag(p: PlanetType): (tag: string)
  {
    match p
    case Terrestrial => "terrestrial"
    case Giant => "giant"
  }

  /** Reads the planet-type tag; any tag other than the two known ones gives None. */
  function ParsePlanetType(tag: string): (r: Option<PlanetType>)
    ensures r.None? <==> tag != "terrestrial" && tag != "giant"
  {
    if tag == "terrestrial" then Some(Terrestrial)
    else if tag == "giant" then Some(Giant)
    else None
  }

  /** Tag and ParsePlanetType are mutually inverse. */
  lemma ParseTag(p: PlanetType, tag: string)
    ensures ParsePlanetType(Tag(p)) == Some(p)
    ensures ParsePlanetType(tag) == Some(p) ==> Tag(p) == tag
  {
  }

  /** The opacity database passed to the opacity reader. */
  datatype OpacityDatabase = Temperate | LibraryDefault

  /** The chemistry grid held by the object; only giants load one. */
  datatype ChemistryGrid = NoChemistryGrid | FastChemGrid

  /**
   * How the atmosphere model is defined: terrestrial models take the
   * caller's P-T profile; giant models ask for equilibrium chemistry and
   * leave the P-T profile to the library default.
   */
  datatype ModelOptions = ModelOptions(usesCallerPTProfile: bool, chemicalEquilibrium: bool)

  /** The set-up chosen for one planet type. */
  datatype GridConfig = GridConfig(
    model: ModelOptions,
    tFineMin: int,         // K
    tFineMax: int,         // K
    tFineStep: int,        // K
    logPFineMin: real,     // log10(P / bar)
    logPFineMax: real,     // log10(P / bar)
    logPFineStep: real,    // dex
    opacityTreatment: string,
    database: OpacityDatabase,
    chemistry: ChemistryGrid)

  const TFineStep: int := 10
  const LogPFineMin: real := -6.0
  const LogPFineStep: real := 0.2
  const OpacityTreatment: string := "opacity_sampling"

  /** Temperature of the initial atmosphere set at the end of construction (K). */
  const InitialTemperature: real := 300.0

  /** The configuration for a known planet type. */
  function ConfigFor(p: PlanetType): (c: GridConfig)
    ensures c.tFineStep == 10 && c.tFineMin < c.tFineMax && (c.tFineMax - c.tFineMin) % c.tFineStep == 0
    ensures c.logPFineMin == -6.0 < c.logPFineMax && c.logPFineStep == 0.2
    ensures c.opacityTreatment == "opacity_sampling"
    ensures c.chemistry.FastChemGrid? <==> c.model.chemicalEquilibrium
    ensures c.model.usesCallerPTProfile <==> !c.model.chemicalEquilibrium
    ensures c.database == Temperate <==> p == Terrestrial
  {
    match p
    case Terrestrial =>
      GridConfig(ModelOptions(true, false), 100, 300, TFineStep,
                 LogPFineMin, 0.0, LogPFineStep, OpacityTreatment, Temperate, NoChemistryGrid)
    case Giant =>
      GridConfig(ModelOptions(false, true), 400, 2000, TFineStep,
                 LogPFineMin, 2.0, LogPFineStep, OpacityTreatment, LibraryDefault, FastChemGrid)
  }

  /** The configuration selected by a planet-type tag, if any. */
  function Configure(tag: string): (r: Option<GridConfig>)
    ensures r.None? <==> tag != "terrestrial" && tag != "giant"
    ensures r.Some? ==> (r.value.chemistry.FastChemGrid? <==> tag == "giant")
    ensures r.Some? ==> (r.value.database == Temperate <==> tag == "terrestrial")
  {
    match ParsePlanetType(tag)
    case Some(p) => Some(ConfigFor(p))
    case None => None
  }

  /** Each known tag selects the configuration of its planet type. */
  lemma ConfigureTag(p: PlanetType)
    ensures Configure(Tag(p)) == Some(ConfigFor(p))
  {
  }

  /**
   * `np.arange(start, stop, step)` on integers with a positive step: the
   * values start + k * step that lie below stop, in order.
   */
  function Arange(start: int, stop: int, step: int): (r: seq<int>)
    requires step > 0
    ensures forall k :: 0 <= k < |r| ==> r[k] == start + k * step && r[k] < stop
    ensures start + |r| * step >= stop
    decreases stop - start
  {
    if start >= stop then []
    else
      var rest := Arange(start + step, stop, step);
      ArangeCons(start, stop, step, rest);
      [start] + rest
  }

  /** Prepending start to the grid that begins one step later keeps the grid shape. */
  lemma ArangeCons(start: int, stop: int, step: int, rest: seq<int>)
    requires step > 0 && start < stop
    requires forall k :: 0 <= k < |rest| ==> rest[k] == (start + step) + k * step && rest[k] < stop
    requires (start + step) + |rest| * step >= stop
    ensures var r := [start] + rest;
            (forall k :: 0 <= k < |r| ==> r[k] == start + k * step && r[k] < stop) &&
            start + |r| * step >= stop
  {
    var r := [start] + rest;
    forall k | 1 <= k < |r| ensures r[k] == start + k * step {
      assert r[k] == rest[k - 1];
      ShiftedProduct(k, step);
    }
    ShiftedProduct(|r|, step);
  }

  lemma ShiftedProduct(k: int, step: int)
    ensures (k - 1) * step + step == k * step
  {
  }

  /** The fine temperature grid, `np.arange(T_fine_min, T_fine_max + T_fine_step, T_fine_step)`. */
  function TFine(c: GridConfig): (grid: seq<int>)
    requires c.tFineStep > 0
  {
    Arange(c.tFineMin, c.tFineMax + c.tFineStep, c.tFineStep)
  }

  /**
   * With a step that divides the span, the shifted stop makes the grid
   * include both endpoints: (max - min) / step + 1 points from min to max.
   */
  lemma ArangeInclusive(min: int, max: int, step: int)
    requires step > 0 && min <= max && (max - min) % step == 0
    ensures var r := Arange(min, max + step, step);
            |r| == (max - min) / step + 1 &&
            (forall k :: 0 <= k < |r| ==> r[k] == min + k * step) &&
            r == seq((max - min) / step + 1, k => min + k * step) &&
            r[0] == min && r[|r| - 1] == max
  {
    var r := Arange(min, max + step, step);
    var q := (max - min) / step;
    assert max - min == q * step;
    var n := |r|;
    assert n > 0;
    assert r[n - 1] == min + (n - 1) * step < max + step;
    assert (n - 1) * step < (q + 1) * step;
    assert n * step >= (q + 1) * step;
    if n - 1 >= q + 1 {
      MulMonotone(q + 1, n - 1, step);
    }
    if n < q + 1 {
      MulMonotone(n, q, step);
    }
  }

  lemma MulMonotone(a: int, b: int, step: int)
    requires a <= b && step > 0
    ensures a * step <= b * step
  {
  }

  /** Terrestrial planets: 100, 110, ..., 300 K (21 points), log P up to 0, the Temperate database, no chemistry grid. */
  lemma TerrestrialSettings()
    ensures var c := ConfigFor(Terrestrial);
            TFine(c) == seq(21, k => 100 + 10 * k) &&
            TFine(c)[0] == 100 && TFine(c)[20] == 300 &&
            c.logPFineMax == 0.0 && c.database == Temperate && c.chemistry == NoChemistryGrid &&
            c.model == ModelOptions(true, false)
  {
    ArangeInclusive(100, 300, 10);
  }

  /** Giant planets: 400, 410, ..., 2000 K (161 points), log P up to 2, the library's database, a FastChem grid. */
  lemma GiantSettings()
    ensures var c := ConfigFor(Giant);
            TFine(c) == seq(161, k => 400 + 10 * k) &&
            TFine(c)[0] == 400 && TFine(c)[160] == 2000 &&
            c.logPFineMax == 2.0 && c.database == LibraryDefault && c.chemistry == FastChemGrid &&
            c.model == ModelOptions(false, true)
  {
    ArangeInclusive(400, 2000, 10);
  }

  /** Both endpoints of the temperature bounds are on the fine grid, for every planet type. */
  lemma TFineEndpoints(p: PlanetType)
    ensures var c := ConfigFor(p);
            |TFine(c)| == (c.tFineMax - c.tFineMin) / 10 + 1 &&
            TFine(c)[0] == c.tFineMin && TFine(c)[|TFine(c)| - 1] == c.tFineMax &&
            forall k :: 0 < k < |TFine(c)| ==> TFine(c)[k] - TFine(c)[k - 1] == 10
  {
    var c := ConfigFor(p);
    ArangeInclusive(c.tFineMin, c.tFineMax, c.tFineStep);
  }

  /** The initial temperature lies within the fine temperature grid of terrestrial planets only. */
  lemma InitialTemperatureOnGrid(p: PlanetType)
    ensures var c := ConfigFor(p);
            (c.tFineMin as real <= InitialTemperature <= c.tFineMax as real) <==> p == Terrestrial
  {
  }
}
