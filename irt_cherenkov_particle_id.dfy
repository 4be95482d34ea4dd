/**
  The `IrtCherenkovParticleID` algorithm: AlgorithmInit prepares the IRT detector
  (rebinned refractive-index tables, the PID radiators and their settings, the mass
  hypotheses), and AlgorithmProcess turns one event's raw hits and track segments
  into one CherenkovParticleID record per (charged particle, PID radiator).
 */
module IrtCherenkovParticleId {
  import opened Wrappers
  import opened SortedMap
  import opened CherenkovData
  import opened Tools
  import opened RadiatorSetup
  import opened PhotonFlow

  /**
    An IRT `CherenkovDetector`: its radiators, each found by name (their settings
    are updated in place by AlgorithmInit), the readout cell mask, the sensor geometry
    and the radiator guess from a photon vertex (by name).
   */
  class CherenkovDetector {
    var radiators: seq<Radiator>
    const readoutCellMask: bv64
    const readoutIdToPosition: bv64 -> Vec3
    const guessRadiator: (Vec3, Vec3) -> Option<string>

    constructor (radiators: seq<Radiator>, readoutCellMask: bv64, readoutIdToPosition: bv64 -> Vec3,
                 guessRadiator: (Vec3, Vec3) -> Option<string>)
      ensures this.radiators == radiators && this.readoutCellMask == readoutCellMask
      ensures this.readoutIdToPosition == readoutIdToPosition && this.guessRadiator == guessRadiator
    {
      this.radiators := radiators;
      this.readoutCellMask := readoutCellMask;
      this.readoutIdToPosition := readoutIdToPosition;
      this.guessRadiator := guessRadiator;
    }
  }

  // ---------------------------------------------------------------------------
  // Initialisation helpers

  /** The refractive-index tables of a radiator list. */
  function Tables(rads: seq<Radiator>): (tables: seq<seq<Entry>>)
    ensures |tables| == |rads| && forall k :: 0 <= k < |rads| ==> tables[k] == rads[k].riLookupTable
  {
    seq(|rads|, k requires 0 <= k < |rads| => rads[k].riLookupTable)
  }

  /** A radiator list with its tables replaced, everything else kept. */
  function WithTables(rads: seq<Radiator>, tables: seq<seq<Entry>>): (r: seq<Radiator>)
    requires |tables| == |rads|
    ensures |r| == |rads| && forall k :: 0 <= k < |rads| ==> r[k] == rads[k].(riLookupTable := tables[k])
  {
    seq(|rads|, k requires 0 <= k < |rads| => rads[k].(riLookupTable := tables[k]))
  }

  /** The rebinning loop of AlgorithmInit: every table is replaced by its fine binning. */
  method RebinTables(rads: seq<Radiator>, nbins: nat) returns (out: seq<Radiator>)
    ensures |out| == |rads| && out == WithTables(rads, Tables(out))
    ensures forall k :: 0 <= k < |rads| ==> FinelyBinned(Buffer(rads[k].riLookupTable), nbins, out[k].riLookupTable)
  {
    out := rads;
    for k := 0 to |rads|
      invariant |out| == |rads|
      invariant forall m :: 0 <= m < |rads| ==> out[m] == rads[m].(riLookupTable := out[m].riLookupTable)
      invariant forall m :: k <= m < |rads| ==> out[m] == rads[m]
      invariant forall m :: 0 <= m < k ==> FinelyBinned(Buffer(rads[m].riLookupTable), nbins, out[m].riLookupTable)
    {
      var table := ApplyFineBinning(out[k].riLookupTable, nbins);
      out := out[k := out[k].(riLookupTable := table)];
    }
  }

  // ---------------------------------------------------------------------------
  // What one event produces

  /** The event-independent inputs of AlgorithmProcess, as AlgorithmInit left them. */
  datatype Setup = Setup(
    radiators: seq<Radiator>,
    masses: seq<(int, real)>,
    cheatPhotonVertex: bool,
    cheatTrueRadiator: bool,
    cellMask: bv64,
    positionOf: bv64 -> Vec3,
    guess: (Vec3, Vec3) -> Option<string>)

  /** The PID radiators, as the radiators at positions `pids`. */
  function PidRadiatorsOf(rads: seq<Radiator>, pids: seq<nat>): (r: seq<Radiator>)
    requires IndexesInto(pids, |rads|)
    ensures |r| == |pids| && forall i :: 0 <= i < |pids| ==> r[i] == rads[pids[i]]
  {
    seq(|pids|, i requires 0 <= i < |pids| => rads[pids[i]])
  }

  /** The event's photons, one per raw hit. */
  function EventPhotons(s: Setup, hits: seq<RawHit>): seq<Photon> {
    seq(|hits|, k requires 0 <= k < |hits| =>
      MakePhoton(hits[k], s.cellMask, s.positionOf, s.cheatPhotonVertex || s.cheatTrueRadiator))
  }

  /** Every radiator's segment list has at least n entries. */
  predicate Covers(cp: map<string, seq<TrackSegment>>, n: nat) {
    forall name :: name in cp ==> n <= |cp[name]|
  }

  /** The number of charged particles of a consistent event. */
  ghost function SegmentCount(cp: map<string, seq<TrackSegment>>): (n: nat)
    requires Consistent(cp)
    ensures Covers(cp, n) && forall name :: name in cp ==> |cp[name]| == n
  {
    if cp == map[] then 0 else var a :| a in cp; |cp[a]|
  }

  /** The event's photons after the history of PID radiator r was filled. */
  function PhotonsAfter(s: Setup, cp: map<string, seq<TrackSegment>>, photons: seq<Photon>, r: Radiator): seq<Photon> {
    if r.name in cp then
      seq(|photons|, k requires 0 <= k < |photons| =>
        AfterFill(photons[k], r.name, r.riLookupTable, s.cheatTrueRadiator, s.cheatPhotonVertex, s.guess))
    else photons
  }

  /**
    The history of PID radiator r for particle i: empty when the event has no
    segments for r, and otherwise the segment's points and the routed photon copies.
   */
  function HistoryOf(s: Setup, cp: map<string, seq<TrackSegment>>, i: nat, photons: seq<Photon>, r: Radiator): RadiatorHistory
    requires Covers(cp, i + 1)
  {
    if r.name !in cp then RadiatorHistory(r.name, [], [])
    else RadiatorHistory(r.name, cp[r.name][i].points,
      RoutedCopies(photons, r.name, r.riLookupTable, s.cheatTrueRadiator, s.cheatPhotonVertex, s.guess))
  }

  /**
    The first radiator loop of particle i over the first j PID radiators: (photons after, histories).
    Its ensures gives only the shape; PlainHistories and FillHistories state the contents.
   */
  function FillUpTo(s: Setup, cp: map<string, seq<TrackSegment>>, i: nat, photons: seq<Photon>, j: nat)
    : (r: (seq<Photon>, seq<RadiatorHistory>))
    requires j <= |s.radiators| && Covers(cp, i + 1)
    ensures |r.1| == j
  {
    if j == 0 then (photons, [])
    else
      var before := FillUpTo(s, cp, i, photons, j - 1);
      var rad := s.radiators[j - 1];
      (PhotonsAfter(s, cp, before.0, rad), before.1 + [HistoryOf(s, cp, i, before.0, rad)])
  }

  /** The hypothesis masses handed to the resolver, in mass-table order. */
  function MassValues(masses: seq<(int, real)>): seq<real> {
    seq(|masses|, k requires 0 <= k < |masses| => masses[k].1)
  }

  /** The hypothesis list of the record of radiator `rad`. */
  function HypothesesOf(masses: seq<(int, real)>, res: Resolution, rad: string): seq<Hypothesis> {
    seq(|masses|, k requires 0 <= k < |masses| => Hypothesis(masses[k].0, res.weight(k, rad), res.npe(k, rad)))
  }

  /** The output record of PID radiator r, reduced from its history h. */
  function RecordOf(s: Setup, res: Resolution, r: Radiator, h: RadiatorHistory, segment: TrackSegment): CherenkovPid {
    var t := TallyUpTo(h.photons, res, r.name, s.cheatPhotonVertex, |h.photons|);
    CherenkovPid(r.id, t.npe, ComputeAve(t.thetaSum, t.weightSum), ComputeAve(t.rindexSum, t.npe as real),
      ComputeAve(t.wavelengthSum, t.npe as real), t.thetaPhi, HypothesesOf(s.masses, res, r.name), segment)
  }

  /** Every PID radiator has segments in the event. */
  predicate AllPresent(s: Setup, cp: map<string, seq<TrackSegment>>) {
    forall j :: 0 <= j < |s.radiators| ==> s.radiators[j].name in cp
  }

  /**
    The records of the first j PID radiators for particle i, from its histories. Its ensures
    gives only the length; RecordsUpToAt and RecordOfFits state what each record holds.
   */
  function RecordsUpTo(s: Setup, cp: map<string, seq<TrackSegment>>, i: nat, hs: seq<RadiatorHistory>,
                       res: Resolution, j: nat): (recs: seq<CherenkovPid>)
    requires j <= |s.radiators| && j <= |hs| && Covers(cp, i + 1)
    requires forall jj :: 0 <= jj < j ==> s.radiators[jj].name in cp
    ensures |recs| == j
  {
    if j == 0 then []
    else
      var r := s.radiators[j - 1];
      RecordsUpTo(s, cp, i, hs, res, j - 1) + [RecordOf(s, res, r, hs[j - 1], cp[r.name][i])]
  }

  /** Particle i: fill its histories, run the resolver, emit one record per PID radiator. */
  function ParticleRecords(s: Setup, cp: map<string, seq<TrackSegment>>, i: nat, photons: seq<Photon>,
                           resolver: Resolver): (seq<Photon>, seq<CherenkovPid>)
    requires Covers(cp, i + 1) && AllPresent(s, cp)
  {
    var filled := FillUpTo(s, cp, i, photons, |s.radiators|);
    var res := resolver(filled.1, MassValues(s.masses));
    (filled.0, RecordsUpTo(s, cp, i, filled.1, res, |s.radiators|))
  }

  /** The particle loop over the first n particles, threading the event's photons. */
  function AllRecords(s: Setup, cp: map<string, seq<TrackSegment>>, n: nat, photons: seq<Photon>,
                      resolver: Resolver): (seq<Photon>, seq<CherenkovPid>)
    requires Covers(cp, n) && (n == 0 || AllPresent(s, cp))
  {
    if n == 0 then (photons, [])
    else
      var before := AllRecords(s, cp, n - 1, photons, resolver);
      var particle := ParticleRecords(s, cp, n - 1, before.0, resolver);
      (particle.0, before.1 + particle.1)
  }

  /** The first PID radiator, in order, without segments in the event. */
  function FirstMissing(rads: seq<Radiator>, cp: map<string, seq<TrackSegment>>): (r: Option<string>)
    ensures r.None? <==> forall j :: 0 <= j < |rads| ==> rads[j].name in cp
    ensures r.Some? ==> exists j :: (0 <= j < |rads| && rads[j].name == r.value && r.value !in cp &&
      forall jj :: 0 <= jj < j ==> rads[jj].name in cp)
  {
    if rads == [] then None
    else if rads[0].name !in cp then Some(rads[0].name)
    else
      var r := FirstMissing(rads[1..], cp);
      assert r.Some? ==> exists j :: (0 <= j < |rads| - 1 && rads[1..][j].name == r.value && r.value !in cp &&
        forall jj :: 0 <= jj < j ==> rads[1..][jj].name in cp);
      if r.Some? then
        var j :| (0 <= j < |rads| - 1 && rads[1..][j].name == r.value && r.value !in cp &&
          forall jj :: 0 <= jj < j ==> rads[1..][jj].name in cp);
        assert forall jj :: 0 <= jj < j + 1 ==> rads[jj].name in cp by {
          forall jj | 0 <= jj < j + 1 ensures rads[jj].name in cp {
            if jj > 0 { assert rads[jj] == rads[1..][jj - 1]; }
          }
        }
        r
      else r
  }

  /** A radiator that follows only present ones and is itself missing is the first missing one. */
  lemma {:induction false} FirstMissingAt(rads: seq<Radiator>, cp: map<string, seq<TrackSegment>>, j: nat)
    requires j < |rads| && rads[j].name !in cp
    requires forall jj :: 0 <= jj < j ==> rads[jj].name in cp
    ensures FirstMissing(rads, cp) == Some(rads[j].name)
  {
    if j > 0 {
      FirstMissingAt(rads[1..], cp, j - 1);
    }
  }

  /**
    AlgorithmProcess for an initialised algorithm: nothing for inconsistent segment
    counts or no particles; an exception naming the first PID radiator without
    segments; otherwise the records of every particle.
   */
  ghost function Process(s: Setup, hits: seq<RawHit>, cp: map<string, seq<TrackSegment>>, resolver: Resolver)
    : Result<seq<CherenkovPid>, ProcessError>
  {
    if !Consistent(cp) then Success([])
    else
      var n := SegmentCount(cp);
      if n == 0 then Success([])
      else match FirstMissing(s.radiators, cp)
        case Some(name) => Failure(MissingRadiator(name))
        case None => Success(AllRecords(s, cp, n, EventPhotons(s, hits), resolver).1)
  }

  /** The first radiator loop of particle i: history filling for every PID radiator, in order. */
  method FillHistories(s: Setup, cp: map<string, seq<TrackSegment>>, i: nat, photons: seq<Photon>)
    returns (updated: seq<Photon>, hs: seq<RadiatorHistory>)
    requires Covers(cp, i + 1)
    ensures (updated, hs) == FillUpTo(s, cp, i, photons, |s.radiators|)
  {
    updated, hs := photons, [];
    for j := 0 to |s.radiators|
      invariant (updated, hs) == FillUpTo(s, cp, i, photons, j)
    {
      var rad := s.radiators[j];
      if rad.name !in cp {
        hs := hs + [RadiatorHistory(rad.name, [], [])];
        continue;
      }
      var segment := cp[rad.name][i];
      var after, copies := FillRadiatorHistory(updated, rad.name, rad.riLookupTable,
        s.cheatTrueRadiator, s.cheatPhotonVertex, s.guess);
      assert after == PhotonsAfter(s, cp, updated, rad);
      hs := hs + [RadiatorHistory(rad.name, segment.points, copies)];
      updated := after;
    }
  }

  /**
    The second radiator loop of particle i: the records of the PID radiators in
    order, or the position of the first one without segments (where the source's
    lookup of the particle's segment throws).
   */
  method EmitRecords(s: Setup, cp: map<string, seq<TrackSegment>>, i: nat, hs: seq<RadiatorHistory>, res: Resolution)
    returns (missing: Option<nat>, recs: seq<CherenkovPid>)
    requires |hs| == |s.radiators| && Covers(cp, i + 1)
    ensures missing.None? ==> AllPresent(s, cp) && recs == RecordsUpTo(s, cp, i, hs, res, |s.radiators|)
    ensures missing.Some? ==>
      && missing.value < |s.radiators| && s.radiators[missing.value].name !in cp
      && forall jj :: 0 <= jj < missing.value ==> s.radiators[jj].name in cp
  {
    recs := [];
    for j := 0 to |s.radiators|
      invariant forall jj :: 0 <= jj < j ==> s.radiators[jj].name in cp
      invariant recs == RecordsUpTo(s, cp, i, hs, res, j)
    {
      var rad := s.radiators[j];
      if rad.name !in cp {
        return Some(j), recs;
      }
      var t := ReduceRadiator(hs[j].photons, res, rad.name, s.cheatPhotonVertex);
      var hyps := BuildHypotheses(s.masses, res, rad.name);
      assert hyps == HypothesesOf(s.masses, res, rad.name);
      var rec := CherenkovPid(rad.id, t.npe, ComputeAve(t.thetaSum, t.weightSum),
        ComputeAve(t.rindexSum, t.npe as real), ComputeAve(t.wavelengthSum, t.npe as real),
        t.thetaPhi, hyps, cp[rad.name][i]);
      recs := recs + [rec];
    }
    missing := None;
  }

  // ---------------------------------------------------------------------------
  // What the records of an event say

  /**
    What every record of particle i and PID radiator j states, whatever the
    resolver reports: the radiator's identifier, the particle's segment in that
    radiator, one hypothesis per mass-table entry in table order, npe equal to the
    number of listed photon angles, theta their mean, and no refractive index or
    wavelength outside vertex cheat mode.
   */
  predicate RecordFits(s: Setup, cp: map<string, seq<TrackSegment>>, rec: CherenkovPid, i: nat, j: nat)
    requires j < |s.radiators|
  {
    var r := s.radiators[j];
    && rec.radiator == r.id
    && r.name in cp && i < |cp[r.name]| && rec.chargedParticle == cp[r.name][i]
    && |rec.hypotheses| == |s.masses|
    && (forall k :: 0 <= k < |s.masses| ==> rec.hypotheses[k].pdg == s.masses[k].0)
    && rec.npe == |rec.thetaPhiPhotons|
    && rec.theta == MeanTheta(rec.thetaPhiPhotons)
    && (!s.cheatPhotonVertex ==> rec.rindex == 0.0 && rec.wavelength == 0.0)
  }

  /**
    A record's photon count is the number of photons of its history that the
    resolver selected for its radiator, and the record fits its radiator and segment.
   */
  lemma RecordOfFits(s: Setup, cp: map<string, seq<TrackSegment>>, res: Resolution, h: RadiatorHistory, i: nat, j: nat)
    requires j < |s.radiators| && s.radiators[j].name in cp && i < |cp[s.radiators[j].name]|
    ensures RecordFits(s, cp, RecordOf(s, res, s.radiators[j], h, cp[s.radiators[j].name][i]), i, j)
    ensures RecordOf(s, res, s.radiators[j], h, cp[s.radiators[j].name][i]).npe ==
      |SelectedPositions(res, s.radiators[j].name, |h.photons|)|
    ensures forall k :: 0 <= k < |s.masses| ==>
      RecordOf(s, res, s.radiators[j], h, cp[s.radiators[j].name][i]).hypotheses[k] ==
        Hypothesis(s.masses[k].0, res.weight(k, s.radiators[j].name), res.npe(k, s.radiators[j].name))
  {
    var r := s.radiators[j];
    TallySelected(h.photons, res, r.name, s.cheatPhotonVertex, |h.photons|);
    TallyCounts(h.photons, res, r.name, s.cheatPhotonVertex, |h.photons|);
    ThetaAverageIsMean(h.photons, res, r.name, s.cheatPhotonVertex);
  }

  /** The m-th of the first j records of a particle is the record of PID radiator m. */
  lemma {:induction false} RecordsUpToAt(s: Setup, cp: map<string, seq<TrackSegment>>, i: nat, hs: seq<RadiatorHistory>,
                                         res: Resolution, j: nat, m: nat)
    requires j <= |s.radiators| && j <= |hs| && Covers(cp, i + 1)
    requires forall jj :: 0 <= jj < j ==> s.radiators[jj].name in cp
    requires m < j
    ensures RecordsUpTo(s, cp, i, hs, res, j)[m] == RecordOf(s, res, s.radiators[m], hs[m], cp[s.radiators[m].name][i])
  {
    if m < j - 1 {
      RecordsUpToAt(s, cp, i, hs, res, j - 1, m);
    }
  }

  /** Row-major positions of an n-by-width table stay inside it. */
  lemma RowMajor(i: nat, j: nat, rows: nat, width: nat)
    requires i < rows && j < width
    ensures i * width + j < rows * width
  {
    assert (rows - (i + 1)) * width >= 0;
    assert rows * width == (i + 1) * width + (rows - (i + 1)) * width;
  }

  /** The record of row i, column j of a particle-major record list of row width w, if there is one. */
  function RecordAt(recs: seq<CherenkovPid>, w: nat, i: nat, j: nat): Option<CherenkovPid> {
    if j < w && i * w + j < |recs| then Some(recs[i * w + j]) else None
  }

  /**
    The record the particle loop computes for particle i and PID radiator j: the
    histories of particle i are filled from the photons the earlier particles
    left, the resolver runs on them, and radiator j's history is reduced. None
    when the event does not reach that particle and radiator.
   */
  function LoopRecord(s: Setup, cp: map<string, seq<TrackSegment>>, photons: seq<Photon>, resolver: Resolver,
                      i: nat, j: nat): Option<CherenkovPid>
  {
    if Covers(cp, i + 1) && AllPresent(s, cp) && j < |s.radiators| then
      var hs := FillUpTo(s, cp, i, AllRecords(s, cp, i, photons, resolver).0, |s.radiators|).1;
      var r := s.radiators[j];
      Some(RecordOf(s, resolver(hs, MassValues(s.masses)), r, hs[j], cp[r.name][i]))
    else None
  }

  /** Appending a row of width w to n full rows: old rows keep their records, the new row is row n. */
  lemma AppendRow(rows: seq<CherenkovPid>, row: seq<CherenkovPid>, w: nat, n: nat, i: nat, j: nat)
    requires |rows| == n * w && |row| == w && i <= n && j < w
    ensures i < n ==> RecordAt(rows + row, w, i, j) == RecordAt(rows, w, i, j) && RecordAt(rows, w, i, j).Some?
    ensures i == n ==> RecordAt(rows + row, w, i, j) == Some(row[j])
  {
    assert (n + 1) * w == n * w + w;
    if i < n {
      RowMajor(i, j, n, w);
    }
  }

  /** Every record of particle i fits its PID radiator. */
  lemma ParticleRecordsFit(s: Setup, cp: map<string, seq<TrackSegment>>, i: nat, photons: seq<Photon>,
                           resolver: Resolver, j: nat)
    requires Covers(cp, i + 1) && AllPresent(s, cp) && j < |s.radiators|
    ensures |ParticleRecords(s, cp, i, photons, resolver).1| == |s.radiators|
    ensures RecordFits(s, cp, ParticleRecords(s, cp, i, photons, resolver).1[j], i, j)
  {
    var filled := FillUpTo(s, cp, i, photons, |s.radiators|);
    var res := resolver(filled.1, MassValues(s.masses));
    RecordsUpToAt(s, cp, i, filled.1, res, |s.radiators|, j);
    RecordOfFits(s, cp, res, filled.1[j], i, j);
  }

  /**
    The particle loop emits n rows of one record per PID radiator: the record of
    particle i and radiator j is row i, column j, and fits them.
   */
  lemma {:induction false} AllRecordsShape(s: Setup, cp: map<string, seq<TrackSegment>>, n: nat, photons: seq<Photon>,
                                           resolver: Resolver)
    requires Covers(cp, n) && (n == 0 || AllPresent(s, cp))
    ensures |AllRecords(s, cp, n, photons, resolver).1| == n * |s.radiators|
    ensures forall i, j :: 0 <= i < n && 0 <= j < |s.radiators| ==>
      && RecordAt(AllRecords(s, cp, n, photons, resolver).1, |s.radiators|, i, j).Some?
      && RecordFits(s, cp, RecordAt(AllRecords(s, cp, n, photons, resolver).1, |s.radiators|, i, j).value, i, j)
    ensures forall i, j :: 0 <= i < n && 0 <= j < |s.radiators| ==>
      RecordAt(AllRecords(s, cp, n, photons, resolver).1, |s.radiators|, i, j) == LoopRecord(s, cp, photons, resolver, i, j)
  {
    if n > 0 {
      var w := |s.radiators|;
      AllRecordsShape(s, cp, n - 1, photons, resolver);
      var before := AllRecords(s, cp, n - 1, photons, resolver);
      var row := ParticleRecords(s, cp, n - 1, before.0, resolver).1;
      assert |row| == w;
      assert (n - 1) * w + w == n * w;
      forall i, j | 0 <= i < n && 0 <= j < w
        ensures RecordAt(before.1 + row, w, i, j).Some? && RecordFits(s, cp, RecordAt(before.1 + row, w, i, j).value, i, j)
        ensures RecordAt(before.1 + row, w, i, j) == LoopRecord(s, cp, photons, resolver, i, j)
      {
        AppendRow(before.1, row, w, n - 1, i, j);
        if i == n - 1 {
          ParticleRecordsFit(s, cp, n - 1, before.0, resolver, j);
          var filled := FillUpTo(s, cp, n - 1, before.0, w);
          RecordsUpToAt(s, cp, n - 1, filled.1, resolver(filled.1, MassValues(s.masses)), w, j);
        }
      }
    }
  }

  /** The number of charged particles AlgorithmProcess handles. */
  ghost function ParticleCount(cp: map<string, seq<TrackSegment>>): nat {
    if Consistent(cp) then SegmentCount(cp) else 0
  }

  /**
    A successful event yields exactly one record per (charged particle, PID
    radiator), particle-major and in PID radiator order, each fitting its particle
    and radiator.
   */
  lemma ProcessOutput(s: Setup, hits: seq<RawHit>, cp: map<string, seq<TrackSegment>>, resolver: Resolver)
    ensures Process(s, hits, cp, resolver).Success? ==>
      && |Process(s, hits, cp, resolver).value| == ParticleCount(cp) * |s.radiators|
      && forall i, j :: 0 <= i < ParticleCount(cp) && 0 <= j < |s.radiators| ==>
           && RecordAt(Process(s, hits, cp, resolver).value, |s.radiators|, i, j).Some?
           && RecordFits(s, cp, RecordAt(Process(s, hits, cp, resolver).value, |s.radiators|, i, j).value, i, j)
           && RecordAt(Process(s, hits, cp, resolver).value, |s.radiators|, i, j) ==
                LoopRecord(s, cp, EventPhotons(s, hits), resolver, i, j)
  {
    if Consistent(cp) && SegmentCount(cp) > 0 && FirstMissing(s.radiators, cp).None? {
      AllRecordsShape(s, cp, SegmentCount(cp), EventPhotons(s, hits), resolver);
    }
  }

  /**
    An event fails exactly when it has charged particles and some PID radiator has
    no segments; the exception names the first such radiator in PID order.
   */
  lemma ProcessFailure(s: Setup, hits: seq<RawHit>, cp: map<string, seq<TrackSegment>>, resolver: Resolver)
    ensures Process(s, hits, cp, resolver).Failure? <==>
      Consistent(cp) && SegmentCount(cp) > 0 && exists j :: 0 <= j < |s.radiators| && s.radiators[j].name !in cp
    ensures Process(s, hits, cp, resolver).Failure? ==> exists j :: (0 <= j < |s.radiators| &&
      Process(s, hits, cp, resolver).error == MissingRadiator(s.radiators[j].name) && s.radiators[j].name !in cp &&
      forall jj :: 0 <= jj < j ==> s.radiators[jj].name in cp)
  {
  }

  /** The history of PID radiator r for particle i when it receives the photons unchanged. */
  function PlainHistory(cp: map<string, seq<TrackSegment>>, i: nat, photons: seq<Photon>, r: Radiator): RadiatorHistory
    requires Covers(cp, i + 1)
  {
    if r.name in cp then RadiatorHistory(r.name, cp[r.name][i].points, photons) else RadiatorHistory(r.name, [], [])
  }

  /**
    Without cheat modes the photons are never altered, and the history of every
    PID radiator with segments receives all of them, in hit order.
   */
  lemma {:induction false} PlainHistories(s: Setup, cp: map<string, seq<TrackSegment>>, i: nat, photons: seq<Photon>, j: nat)
    requires j <= |s.radiators| && Covers(cp, i + 1)
    requires !s.cheatPhotonVertex && !s.cheatTrueRadiator
    ensures FillUpTo(s, cp, i, photons, j).0 == photons
    ensures forall jj :: 0 <= jj < j ==> FillUpTo(s, cp, i, photons, j).1[jj] == PlainHistory(cp, i, photons, s.radiators[jj])
  {
    if j > 0 {
      PlainHistories(s, cp, i, photons, j - 1);
      var r := s.radiators[j - 1];
      PlainCopy(s, cp, i, photons, r);
      var hs := FillUpTo(s, cp, i, photons, j - 1).1;
      assert FillUpTo(s, cp, i, photons, j).1 == hs + [PlainHistory(cp, i, photons, r)];
    }
  }

  /** Without cheat modes one radiator's history filling copies the photons and leaves them as they are. */
  lemma PlainCopy(s: Setup, cp: map<string, seq<TrackSegment>>, i: nat, photons: seq<Photon>, r: Radiator)
    requires Covers(cp, i + 1) && !s.cheatPhotonVertex && !s.cheatTrueRadiator
    ensures PhotonsAfter(s, cp, photons, r) == photons
    ensures HistoryOf(s, cp, i, photons, r) == PlainHistory(cp, i, photons, r)
  {
    AllPhotonsCopied(photons, r.name, r.riLookupTable, false, s.guess);
  }

  /** Without cheat modes the particle loop leaves the event's photons as built. */
  lemma {:induction false} PlainPhotons(s: Setup, cp: map<string, seq<TrackSegment>>, n: nat, photons: seq<Photon>,
                                        resolver: Resolver)
    requires Covers(cp, n) && (n == 0 || AllPresent(s, cp))
    requires !s.cheatPhotonVertex && !s.cheatTrueRadiator
    ensures AllRecords(s, cp, n, photons, resolver).0 == photons
  {
    if n > 0 {
      PlainPhotons(s, cp, n - 1, photons, resolver);
      PlainHistories(s, cp, n - 1, photons, |s.radiators|);
    }
  }

  /** A record reduced from an empty history has no photons, angle, refractive index or wavelength. */
  predicate EmptyRecord(rec: CherenkovPid) {
    rec.npe == 0 && rec.thetaPhiPhotons == [] && rec.theta == 0.0 && rec.rindex == 0.0 && rec.wavelength == 0.0
  }

  /** With no photons every history of a particle is empty, and so is every record of it. */
  lemma {:induction false} NoPhotonsParticle(s: Setup, cp: map<string, seq<TrackSegment>>, i: nat, res: Resolution, j: nat)
    requires j <= |s.radiators| && Covers(cp, i + 1)
    requires forall jj :: 0 <= jj < j ==> s.radiators[jj].name in cp
    ensures FillUpTo(s, cp, i, [], j).0 == []
    ensures forall jj :: 0 <= jj < j ==> FillUpTo(s, cp, i, [], j).1[jj].photons == []
    ensures forall rec :: rec in RecordsUpTo(s, cp, i, FillUpTo(s, cp, i, [], j).1, res, j) ==> EmptyRecord(rec)
  {
    if j > 0 {
      NoPhotonsParticle(s, cp, i, res, j - 1);
      var hs := FillUpTo(s, cp, i, [], j).1;
      assert hs[..j - 1] == FillUpTo(s, cp, i, [], j - 1).1;
      RecordsPrefix(s, cp, i, hs, res, j - 1);
    }
  }

  /** The first j records of a particle depend only on its first j histories. */
  lemma {:induction false} RecordsPrefix(s: Setup, cp: map<string, seq<TrackSegment>>, i: nat, hs: seq<RadiatorHistory>,
                                         res: Resolution, j: nat)
    requires j < |s.radiators| && j < |hs| && Covers(cp, i + 1)
    requires forall jj :: 0 <= jj < j ==> s.radiators[jj].name in cp
    ensures RecordsUpTo(s, cp, i, hs[..j], res, j) == RecordsUpTo(s, cp, i, hs, res, j)
  {
    if j > 0 {
      assert hs[..j][..j - 1] == hs[..j - 1];
      RecordsPrefix(s, cp, i, hs[..j], res, j - 1);
      RecordsPrefix(s, cp, i, hs, res, j - 1);
    }
  }

  /** An event without raw hits yields only empty records (with their full hypothesis lists). */
  lemma {:induction false} NoHitRecords(s: Setup, cp: map<string, seq<TrackSegment>>, n: nat, resolver: Resolver)
    requires Covers(cp, n) && (n == 0 || AllPresent(s, cp))
    ensures AllRecords(s, cp, n, [], resolver).0 == []
    ensures forall rec :: rec in AllRecords(s, cp, n, [], resolver).1 ==> EmptyRecord(rec)
  {
    if n > 0 {
      NoHitRecords(s, cp, n - 1, resolver);
      var filled := FillUpTo(s, cp, n - 1, [], |s.radiators|);
      NoPhotonsParticle(s, cp, n - 1, resolver(filled.1, MassValues(s.masses)), |s.radiators|);
    }
  }

  /** AlgorithmProcess on an event without raw hits emits only empty records. */
  lemma NoHitProcess(s: Setup, cp: map<string, seq<TrackSegment>>, resolver: Resolver)
    ensures Process(s, [], cp, resolver).Success? ==>
      forall rec :: rec in Process(s, [], cp, resolver).value ==> EmptyRecord(rec)
  {
    assert EventPhotons(s, []) == [];
    if Consistent(cp) && SegmentCount(cp) > 0 && FirstMissing(s.radiators, cp).None? {
      NoHitRecords(s, cp, SegmentCount(cp), resolver);
    }
  }

  // ---------------------------------------------------------------------------
  // The algorithm object

  class IrtCherenkovParticleId {
    const cfg: Config
    var initFailed: bool
    var detName: string
    var detector: CherenkovDetector?
    var cellMask: bv64
    var pidRadiators: seq<nat>
    var pdgMass: seq<(int, real)>

    /** An initialised algorithm has a detector whose radiators its PID positions index. */
    ghost predicate Valid()
      reads this, detector
    {
      !initFailed ==> detector != null && IndexesInto(pidRadiators, |detector.radiators|)
    }

    /** A new algorithm, not initialised yet. */
    constructor (cfg: Config)
      ensures this.cfg == cfg && initFailed && detector == null
      ensures pidRadiators == [] && pdgMass == []
      ensures Valid()
    {
      this.cfg := cfg;
      initFailed := true;
      detName := "";
      detector := null;
      cellMask := 0;
      pidRadiators := [];
      pdgMass := [];
    }

    /** The event-independent inputs AlgorithmProcess reads. */
    ghost function CurrentSetup(): Setup
      reads this, detector
      requires Valid() && !initFailed
    {
      Setup(PidRadiatorsOf(detector.radiators, pidRadiators), pdgMass, cfg.cheatPhotonVertex,
        cfg.cheatTrueRadiator, cellMask, detector.readoutIdToPosition, detector.guessRadiator)
    }

    /**
      AlgorithmInit on the detector collection `detectors` (name, detector): with no
      detector it only records the failure; otherwise it takes the first detector,
      rebins every radiator's table, selects the PID radiators (all but "Filter"),
      configures them, and builds the mass table; the exception of an unknown
      radiator name or PDG code is returned, with the state reached so far.
     */
    method AlgorithmInit(detectors: seq<(string, CherenkovDetector)>) returns (err: Option<ToolsError>)
      requires pidRadiators == [] && pdgMass == []
      modifies this, if |detectors| > 0 then {detectors[0].1} else {}
      ensures Valid()
      ensures |detectors| == 0 ==> initFailed && err == None
      ensures |detectors| > 0 ==>
        && !initFailed
        && detName == detectors[0].0 && detector == detectors[0].1
        && cellMask == detector.readoutCellMask
        && |detector.radiators| == old(|detectors[0].1.radiators|)
        && (forall k :: 0 <= k < |detector.radiators| ==>
              FinelyBinned(Buffer(old(detectors[0].1.radiators[k].riLookupTable)), cfg.numRIndexBins,
                detector.radiators[k].riLookupTable))
        && (forall k: nat :: k in pidRadiators <==> k < |detector.radiators| && detector.radiators[k].name != FilterName)
        && (forall a, b :: 0 <= a < b < |pidRadiators| ==> pidRadiators[a] < pidRadiators[b])
      ensures |detectors| > 0 ==>
        var rebinned := WithTables(old(detectors[0].1.radiators), Tables(detector.radiators));
        && detector.radiators == ConfigureAll(rebinned, pidRadiators, cfg.radiators).radiators
        && (ConfigureAll(rebinned, pidRadiators, cfg.radiators).error.Some? ==>
              err == ConfigureAll(rebinned, pidRadiators, cfg.radiators).error && pdgMass == [])
        && (ConfigureAll(rebinned, pidRadiators, cfg.radiators).error.None? ==>
              && (err.None? <==> forall j :: 0 <= j < |cfg.pdgList| ==> GetPDGMass(cfg.pdgList[j]).Success?)
              && (err.None? ==> MassTableOf(pdgMass, cfg.pdgList))
              && (err.Some? ==> exists j :: (0 <= j < |cfg.pdgList| &&
                    err == Some(UnknownPdg(cfg.pdgList[j])) &&
                    (forall j' :: 0 <= j' < j ==> GetPDGMass(cfg.pdgList[j']).Success?) &&
                    MassTableOf(pdgMass, cfg.pdgList[..j]))))
    {
      initFailed := false;
      if |detectors| == 0 {
        initFailed := true;
        return None;
      }
      var det := detectors[0].1;
      detName := detectors[0].0;
      detector := det;
      cellMask := det.readoutCellMask;
      ghost var original := det.radiators;
      var rebinned := RebinTables(det.radiators, cfg.numRIndexBins);
      det.radiators := rebinned;
      var pids := SelectPidRadiators(rebinned);
      assert IndexesInto(pids, |rebinned|) by {
        forall i | 0 <= i < |pids| ensures pids[i] < |rebinned| {
          assert pids[i] in pids;
        }
      }
      pidRadiators := pids;
      var outcome := ConfigureRadiators(rebinned, pids, cfg.radiators);
      det.radiators := outcome.radiators;
      assert Tables(det.radiators) == Tables(rebinned);
      if outcome.error.Some? {
        return outcome.error;
      }
      var masses, perr := BuildPdgMass(cfg.pdgList);
      pdgMass := masses;
      return perr;
    }

    /**
      AlgorithmProcess on one event: raw hits, the track segments per radiator name,
      and the resolver standing for `ChargedParticle::PIDReconstruction`. It changes
      nothing; an algorithm whose initialisation failed returns no records.
     */
    method AlgorithmProcess(rawHits: seq<RawHit>, cp: map<string, seq<TrackSegment>>, resolver: Resolver)
      returns (r: Result<seq<CherenkovPid>, ProcessError>)
      requires Valid()
      ensures initFailed ==> r == Success([])
      ensures !initFailed ==> r == Process(CurrentSetup(), rawHits, cp, resolver)
    {
      if initFailed {
        return Success([]);
      }
      var count := CheckSegmentCounts(cp);
      if count.None? {
        return Success([]);
      }
      var n := count.value;
      var s := Setup(PidRadiatorsOf(detector.radiators, pidRadiators), pdgMass, cfg.cheatPhotonVertex,
        cfg.cheatTrueRadiator, cellMask, detector.readoutIdToPosition, detector.guessRadiator);
      assert n == SegmentCount(cp);
      var photons := BuildPhotons(rawHits, cellMask, detector.readoutIdToPosition,
        cfg.cheatPhotonVertex || cfg.cheatTrueRadiator);
      ghost var photons0 := photons;
      assert photons0 == EventPhotons(s, rawHits);
      var out: seq<CherenkovPid> := [];
      for i := 0 to n
        invariant i > 0 ==> AllPresent(s, cp)
        invariant (photons, out) == AllRecords(s, cp, i, photons0, resolver)
      {
        var updated, hs := FillHistories(s, cp, i, photons);
        var res := resolver(hs, MassValues(pdgMass));
        var missing, recs := EmitRecords(s, cp, i, hs, res);
        if missing.Some? {
          FirstMissingAt(s.radiators, cp, missing.value);
          return Failure(MissingRadiator(s.radiators[missing.value].name));
        }
        photons, out := updated, out + recs;
      }
      return Success(out);
    }
  }
}
