# RICH particle identification with IRT: a Dafny model

This project models the core of the EICrecon RICH particle-identification algorithm
`IrtCherenkovParticleID`, together with the helpers it relies on in `Tools.h`.

`Tools.h` provides four things:

- a radiator-ID registry (`Aerogel` = 0, `Gas` = 1);
- a hard-coded PDG mass table (e+, pi+, K+, p);
- `ApplyFineBinning`, which resamples a sparse (photon energy, refractive index)
  table onto a uniform grid by piecewise-linear interpolation;
- `GetFinelyBinnedTableEntry`, a constant-time bin lookup in such a table.

The algorithm works in two stages:

- **Initialisation.** `AlgorithmInit` takes the first IRT `CherenkovDetector`.
  - It rebins every radiator's refractive-index table.
  - It selects the PID radiators: every radiator except `Filter`.
  - It copies each PID radiator's configuration block onto it: ID, reference index,
    attenuation, smearing and trajectory bins.
  - It builds the PDG-to-mass table.
- **Per event.** `AlgorithmProcess`:
  - checks that every radiator supplies the same number of track segments;
  - builds one optical photon per raw PMT hit;
  - fills one radiator history per (charged particle, PID radiator), optionally
    routing photons by their true radiator and looking up their true refractive
    index (the two cheat modes);
  - hands the histories to the ray-optics resolver (`ChargedParticle::PIDReconstruction`);
  - reduces what the resolver reports into one `CherenkovParticleID` record per
    (charged particle, PID radiator). Each record holds the photon count, the angle,
    refractive-index and wavelength averages, the per-photon (theta, phi) list and
    one hypothesis per mass-table entry.

Modules:

- `wrappers.dfy` (`Wrappers`): `Option` and `Result`.
- `sorted_map.dfy` (`SortedMap`): the `std::map<double, double>` buffer of
  `ApplyFineBinning`, as a strictly key-sorted sequence. Later inserts of the same key win.
- `tools.dfy` (`Tools`): the registries, the mass table, `ApplyFineBinning` as a
  method over sequences, and `GetFinelyBinnedTableEntry` as a method returning
  (found, entry).
- `cherenkov_data.dfy` (`CherenkovData`): the configuration, the IRT radiator
  settings, the event inputs, the photons and histories, the resolver's report, and
  the output records.
- `radiator_setup.dfy` (`RadiatorSetup`): the three steps of `AlgorithmInit` that
  work on values: radiator selection, configuration and the mass table.
- `photon_flow.dfy` (`PhotonFlow`): the per-event steps around the resolver: the
  segment-count check, photon building, history filling and reduction.
- `irt_cherenkov_particle_id.dfy` (`IrtCherenkovParticleId`):
  - the `CherenkovDetector` class, whose radiator list `AlgorithmInit` updates in place;
  - the algorithm class `IrtCherenkovParticleId`, with the fields the source updates;
  - a specification function `Process` for one event;
  - the lemmas about the records `Process` produces.

`double` is modelled as `real` (exact arithmetic). The resolver, the sensor geometry
(`m_ReadoutIDToPosition`) and the radiator guess (`GuessRadiator`) are function-valued
inputs.

Where a comment in the code and its behaviour disagree, the model follows the behaviour:

- The comment in `ApplyFineBinning` promises "nbins+1" equidistant entries. The loop
  guard `e < e1` never emits the largest energy, so the result has exactly `nbins`
  entries, `from + k * step` for k = 0 .. nbins - 1 (`Tools.ResampledBelowLargest`,
  `Tools.ResampledStep`).
- Only the smallest-energy sample of the input is copied into the result. Every other
  entry is interpolated from the last emitted entry, not from the previous input sample.
- `GetFinelyBinnedTableEntry` also accepts arguments in [emax, emax + step) and returns
  the last entry for them. On a table produced by `ApplyFineBinning`, that makes the
  lookup succeed exactly on [from, to) of the original samples (`Tools.RebinnedLookup`).
- A PID radiator without track segments in the event is skipped by the filling loop.
  The later `out_charged_particles.at(irt_rad)` then throws. The model returns
  `Failure(MissingRadiator(name))` for the first such radiator, and returns no partial
  output.

## Model

| member | source | states |
|---|---|---|
| Tools.GetRadiatorName | src/algorithms/pid/Tools.h:34-53 | succeeds exactly for IDs 0 and 1, giving "Aerogel" and "Gas"; any other ID raises UnknownRadiatorId |
| Tools.GetRadiatorID | src/algorithms/pid/Tools.h:54-59 | the scan inverts GetRadiatorName in both directions: a returned ID maps back to the name, and any ID naming it is the one returned; an unknown name raises UnknownRadiatorName |
| Tools.GetPDGMass | src/algorithms/pid/Tools.h:27-32 | succeeds exactly for PDG codes -11, 211, 321 and 2212, with their tabulated masses in GeV; any other code raises UnknownPdg |
| Tools.GetNumPDGs | src/algorithms/pid/Tools.h:73 | the mass table knows 4 particle types |
| Tools.ApplyFineBinning | src/algorithms/pid/Tools.h:77-119 | the result is FinelyBinned over the last-wins, sorted buffer of the input: empty below 2 distinct energies or 2 bins; otherwise nbins strictly increasing grid samples from + k*step, the first being the smallest sample, each later one on the line through its predecessor and the sample closing its bracket |
| Tools.ResampledUnique | src/algorithms/pid/Tools.h:98-116 | FinelyBinned determines the result uniquely, so ApplyFineBinning's contract is its full behaviour |
| Tools.ResampledEmpty | src/algorithms/pid/Tools.h:85-91 | the result is empty iff the input has fewer than 2 distinct energies or nbins < 2 |
| Tools.ResampledFirst | src/algorithms/pid/Tools.h:93-103 | a non-empty result starts with an input sample of the smallest energy, namely the last input sample carrying it |
| Tools.ResampledStep | src/algorithms/pid/Tools.h:94-114 | consecutive output energies differ by exactly step = (to - from) / nbins > 0 |
| Tools.ResampledBelowLargest | src/algorithms/pid/Tools.h:94-113 | the returned input position carries the largest input energy, and every output energy lies strictly below it: the largest sample is never emitted |
| Tools.InterpolatesAt | src/algorithms/pid/Tools.h:105-114 | every output sample after the first lies above its predecessor, on the straight line from that predecessor to the input sample closing its bracket |
| Tools.GriddedOnGrid | src/algorithms/pid/Tools.h:96-114 | samples emitted one step apart lie on the grid from + k*step and, with a positive step, are strictly increasing |
| Tools.BracketOf | src/algorithms/pid/Tools.h:98-113 | every energy within the span of the sorted buffer falls into one bracket [buffer[i-1], buffer[i]) |
| Tools.FinelyBinnedGrid | src/algorithms/pid/Tools.h:93-96 | a non-empty result has nbins samples on the grid of step (to - from) / nbins, all within [from, to) |
| Tools.LoadBuffer | src/algorithms/pid/Tools.h:85-88 | the loading loop leaves exactly Buffer(input), the sorted map in which later samples of an energy overwrite earlier ones |
| Tools.GetFinelyBinnedTableEntry | src/algorithms/pid/Tools.h:123-148 | found iff FineBin finds a bin (at least 2 entries, a nonzero span, and floor((x - emin) / step) within [0, dim)); it then returns that bin's value, and otherwise hands the caller's value back unwritten |
| Tools.FineBin | src/algorithms/pid/Tools.h:131-144 | a bin that is found is a valid index of a table of at least 2 entries |
| Tools.FineBinCell | src/algorithms/pid/Tools.h:136-144 | on a rising table, bin i is chosen exactly for arguments in [emin + i*step, emin + (i+1)*step) |
| Tools.FineBinRange | src/algorithms/pid/Tools.h:136-147 | on a rising table the lookup succeeds exactly on [emin, emax + step), and arguments in [emax, emax + step) read the last entry |
| Tools.RebinnedLookup | src/algorithms/pid/Tools.h:93-144 | on an ApplyFineBinning result the lookup succeeds exactly for arguments in [from, to) of the distinct input samples, and reads the grid sample at or below the argument, the next one lying above it |
| SortedMap.Insert | src/algorithms/pid/Tools.h:88 | inserting into the sorted buffer keeps it strictly sorted and non-empty, with the smaller of the old head and the new key first |
| SortedMap.InsertAsMap | src/algorithms/pid/Tools.h:88 | `buffer[e] = q` updates exactly key e of the map |
| SortedMap.BufferAsMap | src/algorithms/pid/Tools.h:85-88 | the filled buffer stands for the map in which the last sample of each energy wins |
| SortedMap.LastWinsKeys | src/algorithms/pid/Tools.h:87-88 | duplicate energies collapse: an energy is in the map iff some input sample carries it |
| SortedMap.LastWinsIsLastOccurrence | src/algorithms/pid/Tools.h:87-88 | the value kept for an energy is that of the last input sample with that energy |
| SortedMap.BufferKeys | src/algorithms/pid/Tools.h:85-91 | the buffer holds each distinct input energy exactly once, so its size is the number of distinct energies |
| SortedMap.BufferBounds | src/algorithms/pid/Tools.h:93-94 | every input energy lies between the buffer's first and last energies, and some input sample carries the last |
| SortedMap.BufferHead | src/algorithms/pid/Tools.h:93-103 | the buffer's first pair is the last input sample carrying the smallest energy |
| RadiatorSetup.SelectPidRadiators | src/algorithms/pid/IrtCherenkovParticleID.cc:49-51 | a radiator position is selected iff its radiator is not named "Filter"; the selection keeps the detector's order |
| RadiatorSetup.PidRadiatorNames | src/algorithms/pid/IrtCherenkovParticleID.cc:49-51 | the PID radiators' names are the detector's radiator names minus "Filter" |
| RadiatorSetup.ConfigureRadiator | src/algorithms/pid/IrtCherenkovParticleID.cc:60-73 | sets the ID, the average and reference refractive index; sets the attenuation only when > 0; sets uniform or gaussian smearing only when the width is > 0 and the mode is one of those two, else keeps the old smearing; sets trajectory bins to zbins - 1; keeps the name and table |
| RadiatorSetup.ConfigureAll | src/algorithms/pid/IrtCherenkovParticleID.cc:54-75 | the pass keeps the number of radiators, their names and their tables |
| RadiatorSetup.ConfigureRadiators | src/algorithms/pid/IrtCherenkovParticleID.cc:54-75 | the configuration loop computes ConfigureAll: radiators with a block are configured in PID order, those without one are left alone, and the first unknown radiator name ends the loop with its exception |
| RadiatorSetup.FirstUnregistered | src/algorithms/pid/IrtCherenkovParticleID.cc:56-60 | none iff every name with a configuration block is registered; otherwise the first such unregistered name |
| RadiatorSetup.ConfigureAllError | src/algorithms/pid/IrtCherenkovParticleID.cc:56-60 | the pass raises exactly UnknownRadiatorName of the first PID radiator with a block whose name the registry does not know |
| RadiatorSetup.ConfigureAllResult | src/algorithms/pid/IrtCherenkovParticleID.cc:54-75 | when nothing is raised, each PID radiator with a block is ConfigureRadiator of it with its registered ID, and every other radiator is unchanged |
| RadiatorSetup.RegisteredId | src/algorithms/pid/IrtCherenkovParticleID.cc:60 | the ID given to a registered radiator name maps back to that name |
| RadiatorSetup.BuildPdgMass | src/algorithms/pid/IrtCherenkovParticleID.cc:81-85 | with every PDG code known: one entry per distinct code, with its GetPDGMass mass; otherwise it raises UnknownPdg for the first unknown code, with the table of the codes before it |
| RadiatorSetup.MassTableSize | src/algorithms/pid/Tools.h:73 | a mass table never holds more hypotheses than GetNumPDGs |
| PhotonFlow.CheckSegmentCounts | src/algorithms/pid/IrtCherenkovParticleID.cc:114-125 | fails iff two radiators supply segment lists of different lengths; otherwise returns the common length, and 0 for an empty map |
| PhotonFlow.SensorOf | src/algorithms/pid/IrtCherenkovParticleID.cc:136 | the sensor ID holds exactly the bits set both in the cell ID and in the readout mask: none outside either, all inside both |
| PhotonFlow.MakePhoton | src/algorithms/pid/IrtCherenkovParticleID.cc:135-155 | the photon is detected and carries the masked sensor ID and the cell's position; its MC vertex, momentum and momentum magnitude are copied only in a cheat mode (and are zero otherwise); no refractive index is set |
| PhotonFlow.BuildPhotons | src/algorithms/pid/IrtCherenkovParticleID.cc:130-160 | exactly one photon per raw hit, in hit order |
| PhotonFlow.Delivered | src/algorithms/pid/IrtCherenkovParticleID.cc:217-225 | only the refractive index can change; in vertex cheat mode it becomes the table entry at 1e9 times the momentum magnitude when the lookup finds one, else the photon is unchanged |
| PhotonFlow.FillRadiatorHistory | src/algorithms/pid/IrtCherenkovParticleID.cc:204-228 | the photon loop for one history: returns the history's copies (RoutedCopies) and the event's photons after the loop, each updated in place as AfterFill says |
| PhotonFlow.AllPhotonsCopied | src/algorithms/pid/IrtCherenkovParticleID.cc:204-228 | without true-radiator routing a history receives one copy of every photon, in order; without either cheat mode the copies are the photons themselves |
| PhotonFlow.RoutedPhotonsCopied | src/algorithms/pid/IrtCherenkovParticleID.cc:207-213 | with true-radiator routing a history receives exactly the photons whose guessed radiator is its own (both directions) |
| PhotonFlow.RoutedOrder | src/algorithms/pid/IrtCherenkovParticleID.cc:203-228 | with true-radiator routing the copies follow photon order: copy m is the delivered photon at the m-th position (in increasing order) whose guessed radiator is the history's own, and every such position appears |
| PhotonFlow.IsSelected | src/algorithms/pid/IrtCherenkovParticleID.cc:270-273 | a photon counts iff some entry of its selection list names the radiator |
| PhotonFlow.TallySelected | src/algorithms/pid/IrtCherenkovParticleID.cc:267-284 | npe is the number of history photons that the resolver selected for the radiator |
| PhotonFlow.TallyCounts | src/algorithms/pid/IrtCherenkovParticleID.cc:274-291 | npe equals the length of the theta/phi list; weight_sum == npe; theta_sum is the sum of the listed angles; without vertex cheat mode the refractive-index and wavelength sums stay 0 |
| PhotonFlow.TallyOrder | src/algorithms/pid/IrtCherenkovParticleID.cc:267-287 | the theta/phi list holds exactly one entry per selected photon, in history order: a strictly increasing list of positions covering exactly the selected ones, whose m-th position supplies the m-th (theta, phi) entry |
| PhotonFlow.ReduceRadiator | src/algorithms/pid/IrtCherenkovParticleID.cc:255-293 | the reduce loop over a history computes TallyUpTo over all its photons |
| PhotonFlow.ComputeAve | src/algorithms/pid/IrtCherenkovParticleID.cc:296 | with a positive count the average times the count is the sum; otherwise the average is exactly 0 |
| PhotonFlow.ThetaAverageIsMean | src/algorithms/pid/IrtCherenkovParticleID.cc:280-297 | with weight 1.0, theta_ave is the unweighted mean of the selected photons' angles |
| PhotonFlow.BuildHypotheses | src/algorithms/pid/IrtCherenkovParticleID.cc:326-343 | one hypothesis per mass-table entry, in table order, with the resolver's weight and npe for the radiator, zero or not |
| IrtCherenkovParticleId.CherenkovDetector.constructor | src/algorithms/pid/IrtCherenkovParticleID.cc:29-35 | a detector holds its radiators, readout mask, sensor geometry and radiator guess |
| IrtCherenkovParticleId.RebinTables | src/algorithms/pid/IrtCherenkovParticleID.cc:40-46 | every radiator's table is replaced by a FinelyBinned resampling of itself, and nothing else about the radiators changes |
| IrtCherenkovParticleId.FirstMissing | src/algorithms/pid/IrtCherenkovParticleID.cc:180-184 | none iff every PID radiator has segments; otherwise the first PID radiator, in order, without any |
| IrtCherenkovParticleId.FirstMissingAt | src/algorithms/pid/IrtCherenkovParticleID.cc:180-184 | a missing radiator preceded only by present ones is the one FirstMissing names |
| IrtCherenkovParticleId.FillHistories | src/algorithms/pid/IrtCherenkovParticleID.cc:173-237 | the first radiator loop of a particle: one history per PID radiator, with the particle's track points and its photon copies, threading the photons mutated in cheat mode |
| IrtCherenkovParticleId.EmitRecords | src/algorithms/pid/IrtCherenkovParticleID.cc:255-352 | the second radiator loop: the records of every PID radiator in order, or the position of the first one without segments, where the source throws |
| IrtCherenkovParticleId.RecordOfFits | src/algorithms/pid/IrtCherenkovParticleID.cc:255-350 | a record carries its radiator's ID and the particle's segment, one hypothesis per mass entry with that entry's PDG code, npe equal to the theta/phi list length and to the number of selected photons, hypothesis k carrying the resolver's weight and npe for mass entry k, theta their mean, and a zero refractive index and wavelength outside vertex cheat mode |
| IrtCherenkovParticleId.AllRecordsShape | src/algorithms/pid/IrtCherenkovParticleID.cc:165-350 | the particle loop emits n rows of one record per PID radiator; the record of particle i and radiator j is at i*w + j, fits them, and is exactly `LoopRecord`: radiator j's history of particle i, filled from the photons the earlier particles left, reduced with the resolver's result for that particle |
| IrtCherenkovParticleId.ProcessOutput | src/algorithms/pid/IrtCherenkovParticleID.cc:163-356 | a successful event yields exactly particles × PID radiators records, particle-major and in PID radiator order, each fitting its particle and radiator and equal to `LoopRecord` of the event's photons, so its hypotheses and (theta, phi) list come from that particle's resolver run and history (see RecordOfFits, TallyOrder) |
| IrtCherenkovParticleId.ProcessFailure | src/algorithms/pid/IrtCherenkovParticleID.cc:181-347 | an event fails iff its segment counts agree, it has particles, and some PID radiator has no segments; the error names the first such radiator |
| IrtCherenkovParticleId.PlainHistories | src/algorithms/pid/IrtCherenkovParticleID.cc:204-228 | without cheat modes the photons are never altered, and every present radiator's history holds all of them, in hit order |
| IrtCherenkovParticleId.PlainPhotons | src/algorithms/pid/IrtCherenkovParticleID.cc:165-237 | without cheat modes the particle loop leaves the event's photons as built |
| IrtCherenkovParticleId.NoHitProcess | src/algorithms/pid/IrtCherenkovParticleID.cc:132-314 | an event without raw hits yields only records with no photons and zero averages |
| IrtCherenkovParticleId.IrtCherenkovParticleId.constructor | src/algorithms/pid/IrtCherenkovParticleID.cc:112 | IrtCherenkovParticleID.cc defines no constructor; the initial values of `m_init_failed` and the containers come from the class declaration in IrtCherenkovParticleID.h, which is not modelled (see Left out). A new algorithm has no detector, no PID radiators and no mass table, and counts as not initialised, so the early return at this line applies until AlgorithmInit clears the flag |
| IrtCherenkovParticleId.IrtCherenkovParticleId.AlgorithmInit | src/algorithms/pid/IrtCherenkovParticleID.cc:8-87 | no detector: initialisation fails. Otherwise it takes the first detector and its mask, rebins every table in place, selects the non-"Filter" radiators in order, leaves the radiators as ConfigureAll of the rebinned ones, and then returns the configuration exception or BuildPdgMass's table and exception |
| IrtCherenkovParticleId.IrtCherenkovParticleId.AlgorithmProcess | src/algorithms/pid/IrtCherenkovParticleID.cc:98-357 | returns no records if initialisation failed; otherwise exactly Process of the current setup and the event |

## Left out

- Floating point: `double` is `real`. The inner loop of `ApplyFineBinning` steps `e += step`
  exactly, so the result has exactly `nbins` entries. The source's rounding can produce
  one more or one fewer.
- The momentum magnitude (`TVector3::Mag`, a square root) is carried as an input field
  of the MC photon rather than computed.
- Track points: the source stores a particle's points on the shared IRT radiator
  (`ResetLocations`/`AddLocation`). The model stores them in the particle's radiator
  history, where the resolver reads them.
- Logging, configuration printing and the cheat-mode warnings (`m_log`, `PrintCheats`).
- The IRT library: `ChargedParticle::PIDReconstruction`, `CherenkovDetector::GuessRadiator`,
  `m_ReadoutIDToPosition` and the radiator setters are foreign code. The model takes
  their results as function-valued inputs or records the values the setters store.
- The photon-detector pointer `m_PhotonDetectors[0]` attached to each photon is not
  modelled.
- Iteration order of `std::unordered_map`: the PDG mass table is modelled in insertion
  order. `Tools.GetRadiatorID` picks a matching registry entry in no fixed order; its
  contract holds for any scan order, because the registered names are distinct.
- The PID radiators are a position list into the detector's name-ordered radiators,
  which matches the source's ordered map.
- The radiator guess is modelled by name, which assumes that radiator names are distinct.
- IrtCherenkovParticleId.IrtCherenkovParticleId.AlgorithmInit: with an empty detector
  collection the source sets `m_init_failed` and then dereferences `begin()` anyway
  (undefined behaviour). The model records the failure and returns.
- IrtCherenkovParticleId.IrtCherenkovParticleId.AlgorithmInit: it requires empty PID
  radiator and mass lists, as on the single call the factory makes. Calling it a second
  time is not modelled.
- IrtCherenkovParticleId.IrtCherenkovParticleId.AlgorithmInit: after an exception
  (unknown radiator name or PDG code), the state is the one reached so far. The
  source's caller does not go on.
- IrtCherenkovParticleId.IrtCherenkovParticleId.constructor: the initial value of
  `m_init_failed` comes from the class header; src/algorithms/pid/IrtCherenkovParticleID.h
  is not part of this model. The model starts it as failed, so that an algorithm that
  was never initialised returns no records.
- Tools.GetFinelyBinnedTableEntry: when the first and last energies coincide, the
  source divides by zero. The model finds no bin.
- PhotonFlow.Wavelength: a zero momentum in vertex cheat mode makes the source divide
  by zero. The model adds a wavelength of 0 for such a photon.
- PhotonFlow.MakePhoton: the refractive index of a fresh `OpticalPhoton` is taken to be
  0.0. The IRT class is not part of this model.
- The output's numeric conversions (`float` theta/phi pairs, the integer radiator ID and
  the `unsigned` npe) are not modelled. Values are kept as exact reals and integers.
- `(int)floor(...)` in the lookup: `real.Floor` is used. The truncation of values
  outside the `int` range is not modelled.
- `AlgorithmChangeRun` (empty in the source) and `GetRadiatorIDs` (returns the
  registry) are not modelled separately.
