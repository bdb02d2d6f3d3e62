# SCIRun core pieces in Dafny

This project models four small pieces of SCIRun and proves properties about
them:

- **Serial scheduler** (`scheduler.dfy`, module `Scheduler`).
  `BoostGraphSerialScheduler::schedule` asks a network graph analyzer for a
  topological vertex order under the execute-all policy. It maps every vertex
  to its module id. The analyzer is a function parameter, constrained by the
  topological-order contract. A Kahn sort with smallest-index tie-break,
  `TopologicalSort`, shows the contract can be met exactly when the network has
  a topological order. Otherwise it returns a dangling connection, or a set of
  vertices closed under predecessors, which is a certificate that no order
  exists.
- **Field erosion** (`erode.dfy`, module `Erode`). `ErodeFieldDataAlgo` runs
  `MaxIterations` sweeps. Each sweep sets every node or element value to the
  minimum of itself and its mesh neighbours, read from the previous sweep's
  buffer. The double-buffered loop `ErodeData` is proved equal to the
  functional `Iterate`. After `k` sweeps a cell holds exactly the minimum of
  the input over the cells reachable from it in at most `k` neighbour steps.
  `RunImpl` and `Run` model the field checks, the dispatch and the error
  reporting.
- **Import/export plugin registry** (`plugins.dfy`, module `IEPlugins`).
  `GenericIEPluginManager` keeps a lazily created `std::map` from plugin name
  to plugin; the static pointer is an explicit `Option` state. The module also
  holds the plugin `operator==` and `operator!=`. `string_order.dfy` (module
  `StringOrder`) gives the key order of a `std::map<std::string, _>`: every key
  once, strictly ascending.
- **Colour maps** (`colormap.dfy`, module `ColorMaps`). From `ColorMap.cc`:
  - the factory of named strategies and the list of names;
  - the clamps and inversion of the value transform;
  - the alpha control-point interpolation;
  - table lookup with linear blending;
  - the Rainbow strategy;
  - the fixed colour lists handed to the OSPRay renderer.

  Real numbers stand in for `double`.

`wrappers.dfy` (module `Wrappers`) holds the `Option` and `Result` types.

## Model

| member | source | states |
|---|---|---|
| Scheduler.Schedule | src/Dataflow/Engine/Scheduler/BoostGraphSerialScheduler.cc:36-48 | The result has one module id per vertex of the analyzer's execute-all range, position by position. If the analyzer meets its contract, every connection's upstream module comes before its downstream one and every module appears. Distinct vertices with distinct ids give no repeated id. |
| Scheduler.TranslationRespectsDependencies | src/Dataflow/Engine/Scheduler/BoostGraphSerialScheduler.cc:40-45 | Mapping a topological vertex order to module ids keeps every upstream module ahead of its downstream module. |
| Scheduler.TranslationIsComplete | src/Dataflow/Engine/Scheduler/BoostGraphSerialScheduler.cc:40-45 | Mapping a topological vertex order names every module of the network and nothing else. |
| Scheduler.TranslationIsDistinct | src/Dataflow/Engine/Scheduler/BoostGraphSerialScheduler.cc:40-45 | Distinct vertices with an injective id lookup give distinct module ids. |
| Scheduler.TranslationIsDeterministic | src/Dataflow/Engine/Scheduler/BoostGraphSerialScheduler.cc:40-45 | A vertex order has exactly one translation into module ids. |
| Scheduler.TopologicalSort | src/Dataflow/Engine/Scheduler/BoostGraphSerialScheduler.cc:38-42 | Succeeds exactly when some topological order of the network exists, and then returns one. On failure it names a connection leaving the network, or a non-empty vertex set in which every vertex has a predecessor. |
| Scheduler.KahnFrom | src/Dataflow/Engine/Scheduler/BoostGraphSerialScheduler.cc:38-42 | From a partial order that respects every connection into the emitted vertices, it completes a topological order, or stops at a non-empty set closed under predecessors. |
| Scheduler.ClosedSetHasNoOrder | src/Dataflow/Engine/Scheduler/BoostGraphSerialScheduler.cc:38-42 | If a non-empty vertex set is closed under predecessors (a cycle or what lies behind one), no topological order exists. |
| Scheduler.DanglingHasNoOrder | src/Dataflow/Engine/Scheduler/BoostGraphSerialScheduler.cc:38-42 | A connection to or from a vertex outside the network rules out every topological order. |
| Scheduler.EmptyNetworkSortsToEmptyOrder | src/Dataflow/Engine/Scheduler/BoostGraphSerialScheduler.cc:40-47 | An empty network yields the empty order, not an error. |
| Erode.MinOver | src/Core/Algorithms/Legacy/Fields/FilterFieldData/ErodeFieldData.cc:178-182 | The inner loop's result is at most the start value and every neighbour value, and equals one of them. |
| Erode.Cell | src/Core/Algorithms/Legacy/Fields/FilterFieldData/ErodeFieldData.cc:175-183 | A cell's new value is the minimum of its old value and its neighbours' old values. |
| Erode.Sweep | src/Core/Algorithms/Legacy/Fields/FilterFieldData/ErodeFieldData.cc:173-184 | One sweep keeps the size and computes every cell from the previous buffer only. |
| Erode.Iterate | src/Core/Algorithms/Legacy/Fields/FilterFieldData/ErodeFieldData.cc:168-187 | k sweeps, each reading the previous sweep's complete output, keep the data length. |
| Erode.IterateNeverIncreases | src/Core/Algorithms/Legacy/Fields/FilterFieldData/ErodeFieldData.cc:168-187 | Erosion never raises a value: after any number of sweeps every cell is at most its input value. |
| Erode.IterateBelowReachable | src/Core/Algorithms/Legacy/Fields/FilterFieldData/ErodeFieldData.cc:168-187 | After k sweeps a cell is at most every input value within k neighbour steps. |
| Erode.IterateAttainsReachable | src/Core/Algorithms/Legacy/Fields/FilterFieldData/ErodeFieldData.cc:168-187 | After k sweeps a cell equals the input value of some cell within k neighbour steps. Together with the previous row, it is exactly the minimum over that neighbourhood. |
| Erode.SweepSource | src/Core/Algorithms/Legacy/Fields/FilterFieldData/ErodeFieldData.cc:173-184 | A swept cell's value is copied from the cell itself or from one of its neighbours. |
| Erode.IterateTakesInputValues | src/Core/Algorithms/Legacy/Fields/FilterFieldData/ErodeFieldData.cc:168-187 | Erosion creates no new values: every output value occurs in the input. |
| Erode.IterateKeepsLowerBound | src/Core/Algorithms/Legacy/Fields/FilterFieldData/ErodeFieldData.cc:168-187 | A lower bound of the input data is a lower bound of the output. |
| Erode.ConstantFieldIsFixedPoint | src/Core/Algorithms/Legacy/Fields/FilterFieldData/ErodeFieldData.cc:168-187 | A constant field is unchanged by any number of sweeps. |
| Erode.SweepOrderIrrelevant | src/Core/Algorithms/Legacy/Fields/FilterFieldData/ErodeFieldData.cc:173-186 | Since every cell reads the previous buffer, visiting the cells in any order that covers them gives the same sweep. |
| Erode.ErodeData | src/Core/Algorithms/Legacy/Fields/FilterFieldData/ErodeFieldData.cc:137-190 | The double-buffered loops produce exactly max(numIter, 0) sweeps of the input data. A non-positive count leaves the data unchanged. |
| Erode.RunImpl | src/Core/Algorithms/Legacy/Fields/FilterFieldData/ErodeFieldData.cc:74-134 | The checks come in source order: missing field, non-linear elements, no data, non-scalar data. It succeeds exactly for scalar constant or linear data of one of the ten value types. On success the data is max(MaxIterations, 0) sweeps over element neighbours for constant (per-element) data and over node neighbours for linear (per-node) data. The output is the input field with only its data replaced, no value higher than before. |
| Erode.ErodeWith | src/Core/Algorithms/Legacy/Fields/FilterFieldData/ErodeFieldData.cc:193-246 | The clone of the field with its data eroded the configured number of times, never raising a value. |
| Erode.Run | src/Core/Algorithms/Legacy/Fields/FilterFieldData/ErodeFieldData.cc:248-258 | It fails exactly when runImpl fails, with the processing error "False returned on legacy run call."; otherwise it returns runImpl's output field. |
| Erode.DefaultAlgoSweepsTwice | src/Core/Algorithms/Legacy/Fields/FilterFieldData/ErodeFieldData.cc:56-59 | With the default MaxIterations of 2 the output data is exactly two sweeps of the input. |
| StringOrder.SortedKeys | src/Core/ImportExport/GenericIEPlugin.h:130-135 | Iterating a string-keyed std::map yields every key exactly once, in strictly ascending lexicographic order. |
| StringOrder.AscendingUnique | src/Core/ImportExport/GenericIEPlugin.h:130-135 | A key set has only one strictly ascending enumeration, so the iteration order is determined by the keys. |
| StringOrder.LessTransitive | src/Core/ImportExport/GenericIEPlugin.h:71 | The key comparison of the plugin map is transitive. |
| StringOrder.LessTotal | src/Core/ImportExport/GenericIEPlugin.h:71 | Any two different keys are ordered one way or the other. |
| IEPlugins.Initial | src/Core/ImportExport/GenericIEPlugin.h:89-90 | At program start there is no table. |
| IEPlugins.CreateMap | src/Core/ImportExport/GenericIEPlugin.h:106-113 | It creates an empty table only when there is none; an existing table is kept untouched. |
| IEPlugins.CreateMapIdempotent | src/Core/ImportExport/GenericIEPlugin.h:106-113 | Creating the table twice is the same as creating it once. |
| IEPlugins.GetMap | src/Core/ImportExport/GenericIEPlugin.h:98-104 | It returns the existing table unchanged, or a freshly created empty one that is now installed. |
| IEPlugins.Register | src/Core/ImportExport/GenericIEPlugin.h:98-104 | After a write through getMap, the name looks up the new plugin and every other name looks up what it did before. The count grows by one exactly when the name was new. |
| IEPlugins.NumPlugins | src/Core/ImportExport/GenericIEPlugin.h:115-119 | Zero without a table, otherwise the table's size. |
| IEPlugins.ImporterList | src/Core/ImportExport/GenericIEPlugin.h:121-136 | The caller's list is kept as a prefix. Without a table nothing is appended; otherwise every registered name is appended once, ascending. |
| IEPlugins.ExporterList | src/Core/ImportExport/GenericIEPlugin.h:138-153 | Same as the importer list: caller's prefix, then each registered name once, ascending. |
| IEPlugins.ListsAgree | src/Core/ImportExport/GenericIEPlugin.h:121-153 | The importer and exporter listings are identical, one entry per registered plugin. |
| IEPlugins.GetPlugin | src/Core/ImportExport/GenericIEPlugin.h:155-172 | The lookup yields a plugin exactly when a table exists and holds the name, and then yields the registered plugin. |
| IEPlugins.DestroyMap | src/Core/ImportExport/GenericIEPlugin.h:174-179 | The table is gone afterwards. |
| IEPlugins.DestroyedRegistryIsEmpty | src/Core/ImportExport/GenericIEPlugin.h:174-179 | After destroyMap: no plugins, every lookup null, both listings add nothing. |
| IEPlugins.Equal | src/Core/ImportExport/GenericIEPlugin.h:54-58 | Plugin equality is the left plugin's equals applied to the right one. |
| IEPlugins.NotEqual | src/Core/ImportExport/GenericIEPlugin.h:60-64 | Inequality holds exactly when equals does not. |
| ColorMaps.Create | src/Core/Datatypes/ColorMap.cc:213-260 | Each of the 25 names registered in `colorMapFactoryMap` (the constant `FactoryMap`) gets its own strategy, any other name gets Rainbow. The map keeps the given name and every parameter, which the getters at lines 662-667 return. |
| ColorMaps.GetList | src/Core/Datatypes/ColorMap.cc:262-267 | The list names every registered strategy exactly once and nothing else, in strictly ascending order. |
| ColorMaps.Clamp01 | src/Core/Datatypes/ColorMap.cc:280 | The result lies in [0, 1]. Values inside are unchanged, values below become 0 and values above become 1. |
| ColorMaps.Normalized | src/Core/Datatypes/ColorMap.cc:278-285 | The rescaled value is clamped into [0, 1]. When inverted it is mirrored to 1 - v and the shift is negated. |
| ColorMaps.InvertMirrors | src/Core/Datatypes/ColorMap.cc:282-285 | The inverted map's normalised value mirrors the plain map's value, and its shift is the negated shift. |
| ColorMaps.TransformedValue | src/Core/Datatypes/ColorMap.cc:276-297 | The transformed value always lies in [0, 1], and the final clamp does not alter a gamma result already in range. |
| ColorMaps.SegmentEnd | src/Core/Datatypes/ColorMap.cc:324-325 | The search stops at the first control x not below the value, or at the end of the list. |
| ColorMaps.SegmentEndLocates | src/Core/Datatypes/ColorMap.cc:325 | With strictly increasing x's, the search stops at the control point that brackets the value from above. |
| ColorMaps.AlphaAsWritten | src/Core/Datatypes/ColorMap.cc:321-349 | The source's alpha. It has a zero denominator at line 346 (the result is NaN) only when the first x is 0 and the value is at most 0, or the last x is 1 and the value exceeds 1; the first case always produces it. |
| ColorMaps.AlphaAsWrittenZeroDenominator | src/Core/Datatypes/ColorMap.cc:327-347 | For control points [0, 0.25] and value 0 the as-written alpha divides 0 by 0. |
| ColorMaps.Alpha | src/Core/Datatypes/ColorMap.cc:321-349 | Defined for every value. An empty list gives 0.5. At or before the first x it gives the first y; past every x it gives the last y. |
| ColorMaps.AlphaAgreesWhereDefined | src/Core/Datatypes/ColorMap.cc:327-347 | Wherever the as-written alpha yields a number, the corrected alpha yields the same number. |
| ColorMaps.Lerp | src/Core/Datatypes/ColorMap.cc:346-347 | The interpolation through (startx, starty) and (endx, endy) returns starty at startx and endy at endx. |
| ColorMaps.AlphaAtFirstControlPoint | src/Core/Datatypes/ColorMap.cc:328-332 | At the first control point's x the corrected alpha returns that point's y, the constant y the source's first segment (from x = 0 up to that point) carries. |
| ColorMaps.AlphaInterpolates | src/Core/Datatypes/ColorMap.cc:338-347 | Between two bracketing control points alpha lies on the straight line through them. At a control x it returns that point's y. |
| ColorMaps.AlphaWithinControlRange | src/Core/Datatypes/ColorMap.cc:321-349 | Alpha never leaves the range spanned by the control y's. |
| ColorMaps.Mix | src/Core/Datatypes/ColorMap.cc:486-489 | Blend factor 0 gives the first value; any factor in [0, 1] gives a value between the two. |
| ColorMaps.TableIndex | src/Core/Datatypes/ColorMap.cc:493-495 | The truncated index is the floor of f times the segment count. It lies in the table, and is the first entry for f = 0 and the last for f = 1. |
| ColorMaps.ReadColorFromArray | src/Core/Datatypes/ColorMap.cc:491-501 | f = 0 reads the first colour and f = 1 the last. Every channel lies between the two neighbouring table entries. |
| ColorMaps.RainbowColor | src/Core/Datatypes/ColorMap.cc:395-407 | Blue at 0, red at 1, every channel in [0, 1] on [0, 1]. |
| ColorMaps.RainbowContinuousAtBreakpoints | src/Core/Datatypes/ColorMap.cc:398-405 | The four pieces meet at 0.25, 0.5 and 0.75: the piece below each breakpoint, evaluated there, gives the colour at the breakpoint. |
| ColorMaps.OspHelper | src/Core/Datatypes/ColorMap.cc:671-710 | Opacities are always [0.5, 0.5]. The seven named maps have RGB lists of the source's lengths with components in [0, 1]; any other name gets an empty list. |
| ColorMaps.OspRainbowSamplesRainbow | src/Core/Datatypes/ColorMap.cc:675-680 | The OSPRay Rainbow list is the Rainbow strategy sampled at 0, 1/4, 1/2, 3/4 and 1. |

## Left out

- The network graph analyzer (`NetworkGraphAnalyzer`, its third constructor argument and its `ExecuteAffectedModules` policy) is not part of this model. `Scheduler.Schedule` takes it as a function and assumes only its contract.
- Scheduler.Schedule requires the analyzer's vertices to index the module list. The source's `moduleAt` lookup has no defined result otherwise.
- Scheduler.Schedule does not model what the analyzer does on a cyclic network. `TopologicalSort` only shows that no valid order exists then.
- The mutex and guards of the plugin manager (`getLock`, `lock_`): concurrency is outside the model.
- Plugin registration happens in the plugins' own code, outside this header. `IEPlugins.Register` models only its effect: a write through `getMap`.
- Plugins are a type parameter, and `equals` is a function parameter.
- Allocation failure of `deep_clone` in the erosion templates (lines 145-157 and 201-213) is not modelled: cloning always succeeds.
- The ten C++ value types of the erosion are one unbounded `int`. Narrow-type wrap-around cannot occur, because the minimum of stored values is always a stored value. NaN comparisons of `float`/`double` data are not modelled.
- Mesh synchronisation and `get_neighbors` become a neighbour function per field. The status reporter and the `error` log messages become the `ErodeError` constructors.
- Erode.RunImpl requires the field's neighbour lists to stay inside its data array. A mesh whose neighbour indices leave the array is undefined in the source.
- The algorithm parameter store becomes the `maxIterations` field of `ErodeAlgo`.
- ColorMaps.TransformedValue: the resolution quantisation and the `tan`/`pow` gamma (lines 287-295) are a function parameter, since floating-point transcendentals are not modelled. Only the clamps and the inversion are stated precisely.
- Floating point in general: `real` replaces `double` and `float`. The Darkhue entries `0.333333f` and `0.25f*2.6666666f` are exact decimals here.
- The colour tables and `getColorMapVal` of the 24 strategies other than Rainbow are left out, as are tensor and vector colouring. Only the shared table lookup `readColorFromArray` is modelled.
- The composition in `getColorMapVal`/`applyAlpha` (lines 308-319) and the alpha channel of `ColorRGB` are left out: they only combine modelled parts.
- The `logError` call in `create` is left out.
- ColorMaps.Alpha and ColorMaps.AlphaAsWritten require an even-length control list. With an odd length the source's search can step past the end and read out of bounds.
- ColorMaps.ReadColorFromArray requires a non-empty table and f in [0, 1]. Callers pass a transformed value, which lies in that range.

## Findings

| source | as written | input that shows it | evidently intended | confidence | as-written member | corrected member |
|---|---|---|---|---|---|---|
| src/Core/Datatypes/ColorMap.cc:328-347 | When the value is at or below the first control x and that x is 0, the first segment runs from 0 to 0 and line 346 divides by zero (the result is NaN); at a value of exactly 0 it computes (0 - 0) / (0 - 0). | Control points [0.0, 0.25] and value 0.0, which `getTransformedValue` returns for every datum at or below the bottom of the range of a non-inverted map, or at or above the top of an inverted one. | The first control point's y (0.25), as for every other value before the first x. | not executed | ColorMaps.AlphaAsWrittenZeroDenominator | ColorMaps.Alpha |
