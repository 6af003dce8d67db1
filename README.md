# Binning and planet-type grid selection of the gp-retrievals wrapper

`utils.py` wraps an external atmospheric-retrieval library (POSEIDON). This
project models the two parts of it that are computed locally:

* **`bin_to_data`**, which averages a finely sampled model spectrum onto a
  coarser data wavelength grid (module `Binning`, file `binning.dfy`). Every
  data point `i` gets a half-width. For the first point this is the gap to the
  next point. For every other point it is the gap to the previous point
  (`Binning.HalfWidth`). The bin of `i` is the set of model samples `j` with
  `|w_data[i] - w_model[j]| <= half-width`, both ends included
  (`Binning.InBin`). `np.where` returns those indices in ascending order
  (`Binning.Within`), and `np.mean` averages over them (`Binning.Mean`, sum
  divided by count). `Binning.BinToData` is the loop itself. It allocates a
  zero-filled output array and fills it entry by entry. Its postcondition ties
  the result to the specification function `Binning.Binned`, and the lemmas
  prove the source's promises about `Binned`. Wavelengths and spectrum values
  are exact `real`s.
* **The planet-type decision table** from the constructor of
  `generate_atmosphere` (module `PlanetGrids`, file `planet_grids.dfy`). The
  tag `'terrestrial'` or `'giant'` decides five things: how the atmosphere
  model is defined, the fine temperature grid (bounds, 10 K step), the upper
  bound of the log-pressure grid, the opacity database, and whether a
  chemistry grid is loaded. `PlanetGrids.Configure` maps a tag to an
  `Option<GridConfig>`. Every other tag gives `None`. The source instead
  raises `UnboundLocalError` at utils.py:102 during construction, because the
  local variables `T_fine_min` and `T_fine_max` are then never assigned, so no
  object is returned. `PlanetGrids.ConfigureTag` connects each tag to its
  configuration. The integer
  temperature grid `np.arange(T_fine_min, T_fine_max + 10, 10)` is
  `PlanetGrids.TFine`, built from `PlanetGrids.Arange`.

`wrappers.dfy` holds the `Option` datatype.

Preconditions of `bin_to_data` (`Binning.WellFormed`):
* The number of data points is not exactly one. The first half-width reads
  `w_data[1]`. With no data points the loop never runs and the result is empty,
  and the model allows that too.
* Every bin is non-empty. An empty bin would produce NaN, which the source
  does not guard against. Lemma `Binning.OutOfOrderEmptiesBin` shows that data
  out of ascending order gives a negative half-width and so an empty bin.
* Every selected model index is a valid index of `d_model`.

Facts proved:
* The output has one value per data point.
* The bin is the exact set of qualifying indices. Each index appears once and
  in ascending order.
* A constant model spectrum bins to that constant.
* Each output value lies between the smallest and largest model value in its
  bin. Both of those values are attained inside the bin.
* For sorted data, bins cover the whole data range, and neighbouring bins
  overlap.
* The exact terrestrial and giant configurations, the inverse pair
  tag/parse, and the fact that a chemistry grid is loaded exactly when the
  model uses equilibrium chemistry.

`BinToData` has no `modifies` clause. Its result is fresh and fully
determined by the inputs, so equal inputs give equal outputs.

## Model

| member | source | states |
|---|---|---|
| `Binning.BinToData` | utils.py:6-25 | returns a fresh array whose contents are `Binned` of the inputs, one value per data point; the three input arrays are unchanged |
| `Binning.Binned` | utils.py:8-11 | the binned spectrum has exactly as many entries as there are data points |
| `Binning.WithinExactly` | utils.py:21 | the `np.where` index array holds exactly the indices whose distance to the centre is at most the half-width (inclusive), strictly ascending, so each appears once |
| `Binning.BinIndicesExactly` | utils.py:13-21 | the bin of data point i is exactly the model samples within `HalfWidth` of `w_data[i]` (gap to the next point for i = 0, to the previous point otherwise); it is non-empty and indexes `d_model` |
| `Binning.MeanConstant` | utils.py:23 | the mean of equal values is that value |
| `Binning.MeanBounds` | utils.py:23 | any lower and upper bound on the averaged values also bounds their mean |
| `Binning.MinValue` | utils.py:23 | the smallest averaged value is a lower bound attained at some selected index |
| `Binning.MaxValue` | utils.py:23 | the largest averaged value is an upper bound attained at some selected index |
| `Binning.MeanBetweenExtremes` | utils.py:23 | the mean lies between the smallest and the largest averaged value |
| `Binning.BinnedConstant` | utils.py:21-23 | if `d_model` equals v everywhere and every bin is non-empty, every output value is v |
| `Binning.BinnedWithinBin` | utils.py:21-23 | each output value is at least the model value of some sample in its bin and at most that of some sample in its bin |
| `Binning.BinnedBounded` | utils.py:21-23 | bounds on the model values of a bin bound that bin's output value |
| `Binning.OutOfOrderEmptiesBin` | utils.py:10-21 | a negative half-width (data not in ascending order) selects no model sample, the unguarded NaN case |
| `Binning.SortedCoverage` | utils.py:13-21 | for sorted data every model sample between the first and last data wavelength lies in some bin |
| `Binning.NeighbouringBinsShareEdge` | utils.py:17-21 | a model sample on data point i-1 belongs to the bins of both i-1 and i, so bins overlap |
| `Binning.ConstantExample` | utils.py:6-25 | data grid [1, 2, 3] with a constant model sampled every 0.5 over [0.5, 3.5] meets the preconditions and bins to [v, v, v] |
| `PlanetGrids.ParsePlanetType` | utils.py:61 | only the tags 'terrestrial' and 'giant' select a planet type |
| `PlanetGrids.ParseTag` | utils.py:61 | parsing a type's tag gives back that type, and a tag that parses to a type is that type's tag |
| `PlanetGrids.ConfigFor` | utils.py:71-122 | step 10 K dividing the temperature span; log-pressure grid from -6.0 with 0.2 dex steps; opacity sampling; chemistry grid loaded exactly when the model uses equilibrium chemistry, which is exactly when the caller's P-T profile is not used; Temperate database exactly for terrestrial |
| `PlanetGrids.ConfigureTag` | utils.py:71-122 | the tag of each planet type selects exactly that type's configuration |
| `PlanetGrids.Configure` | utils.py:71-122 | gives no configuration exactly for tags other than 'terrestrial' and 'giant'; otherwise a chemistry grid exactly for 'giant' and the Temperate database exactly for 'terrestrial' |
| `PlanetGrids.Arange` | utils.py:102 | integer `np.arange`: the k-th value is start + k * step, every value is below stop, and one more step would reach stop |
| `PlanetGrids.ArangeInclusive` | utils.py:100-102 | when the step divides the span, the grid runs from min to max inclusive in (max - min) / step + 1 points |
| `PlanetGrids.TerrestrialSettings` | utils.py:71-118 | terrestrial: grid 100, 110, ..., 300 K (21 points); log P max 0.0; Temperate database; no chemistry grid; caller's P-T profile without equilibrium chemistry |
| `PlanetGrids.GiantSettings` | utils.py:79-122 | giant: grid 400, 410, ..., 2000 K (161 points); log P max 2.0; library default database; FastChem chemistry grid; equilibrium chemistry with the library's P-T profile |
| `PlanetGrids.TFineEndpoints` | utils.py:93-102 | for every planet type, both temperature bounds are on the fine grid and consecutive points differ by 10 K |
| `PlanetGrids.InitialTemperatureOnGrid` | utils.py:93-129 | the initial 300 K temperature (utils.py:129) lies inside the fine temperature range (utils.py:93-98) exactly for terrestrial planets; the source itself never makes this comparison |

## Left out

- All calls into the external library: `create_star`, `create_planet`, `define_model`, `wl_grid_constant_R`, `read_opacities`, `load_chemistry_grid`, `make_atmosphere` and `compute_spectrum`. They are foreign code. Only the arguments the planet type chooses for them are modelled: the `ModelOptions`, the opacity database and the kind of chemistry grid.
- `set_parameters` and `get_spectrum`. They only store their arguments and pass state through to the external atmosphere builder and spectrum solver.
- The `log_P_fine` grid in 0.2-dex steps. Floating-point accumulation makes its length and endpoints imprecise, so only its bounds and step are modelled.
- The `np.logspace` pressure profile and the unit conversions with `R_Sun`, `R_E` and `M_E`. Both are floating-point plumbing.
- The `log10` of the initial mixing ratios and cloud parameters. This is floating-point plumbing too. Only the initial temperature is kept. The source never compares it with the temperature grid; the lemma `PlanetGrids.InitialTemperatureOnGrid` does.
- Reading opacity tables and the chemistry grid from disk. This is I/O.
- Binning.BinToData: the empty-bin NaN result is excluded by the precondition, not modelled. NaN and IEEE rounding are not modelled at all. Values are exact reals.
- PlanetGrids.Configure: an unknown tag gives `None`. The source raises `UnboundLocalError` at utils.py:102 during construction instead; the model does not represent exceptions.
- Binning.BinToData: a single data point makes the source raise `IndexError` at `w_data[1]` (utils.py:15), and a selected index past the end of `d_model` makes it raise `IndexError` at utils.py:23. The model does not represent these exceptions; `Binning.WellFormed` excludes both inputs.
