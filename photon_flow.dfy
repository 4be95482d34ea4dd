/**
  The per-event steps of `IrtCherenkovParticleID::AlgorithmProcess` around the
  resolver: the track-segment count check, one optical photon per raw hit, the
  copies each radiator history receives, and the reduction of one radiator
  history to a photon count, angle averages and the hypothesis list.
 */
module PhotonFlow {
  import opened Wrappers
  import opened SortedMap
  import opened CherenkovData
  import opened Tools

  // ---------------------------------------------------------------------------
  // Track-segment counts

  /** Every radiator supplies the same number of track segments. */
  ghost predicate Consistent(cp: map<string, seq<TrackSegment>>) {
    forall a, b :: a in cp && b in cp ==> |cp[a]| == |cp[b]|
  }

  /**
    The check on `in_charged_particles`: walking the radiators, the first one fixes
    the count and any later one with another count ends the event. On success the
    count is the common number of segments (0 for an empty map, whose initial -1
    runs no particle loop).
   */
  method CheckSegmentCounts(cp: map<string, seq<TrackSegment>>) returns (n: Option<nat>)
    ensures n.None? <==> !Consistent(cp)
    ensures n.Some? ==> forall a :: a in cp ==> |cp[a]| == n.value
    ensures n.Some? && cp == map[] ==> n.value == 0
  {
    var count := -1;
    var unseen := cp.Keys;
    while unseen != {}
      invariant unseen <= cp.Keys
      invariant count == -1 <==> unseen == cp.Keys
      invariant count >= -1
      invariant forall a :: a in cp && a !in unseen ==> |cp[a]| == count
      decreases unseen
    {
      var name :| name in unseen;
      if count < 0 {
        count := |cp[name]|;
      } else if count != |cp[name]| {
        return None;
      }
      unseen := unseen - {name};
    }
    if count < 0 {
      assert cp.Keys == {};
      return Some(0);
    }
    return Some(count);
  }

  // ---------------------------------------------------------------------------
  // Photons

  /**
    The sensor id of a cell: the cell id under the readout mask, so it keeps
    exactly the bits set both in the cell id and in the mask: no bit outside
    either (the first clause), and every bit inside both (the second).
   */
  function SensorOf(cellId: bv64, cellMask: bv64): (sensor: bv64)
    ensures sensor & cellId & cellMask == sensor
    ensures (cellId & cellMask) | sensor == sensor
  {
    cellId & cellMask
  }

  /**
    The optical photon built for one raw hit: its sensor is the hit's cell id
    under the readout mask, its position the one the sensor geometry gives the cell,
    and it is marked detected; the MC vertex position and momentum are copied only
    in a cheat mode (`withVertex`), and no refractive index is set yet.
   */
  function MakePhoton(hit: RawHit, cellMask: bv64, positionOf: bv64 -> Vec3, withVertex: bool): (p: Photon)
    ensures p.detected && p.vertexRIndex == UnsetVertexRIndex
    ensures p.sensorId == SensorOf(hit.cellId, cellMask)
    ensures p.detectionPosition == positionOf(hit.cellId)
    ensures withVertex ==> p.vertexPosition == hit.photon.vertex && p.vertexMomentum == hit.photon.momentum
    ensures withVertex ==> p.vertexMomentumMag == hit.photon.momentumMag
    ensures !withVertex ==> p.vertexPosition == Zero && p.vertexMomentum == Zero && p.vertexMomentumMag == 0.0
  {
    Photon(
      SensorOf(hit.cellId, cellMask),
      positionOf(hit.cellId),
      true,
      if withVertex then hit.photon.vertex else Zero,
      if withVertex then hit.photon.momentum else Zero,
      if withVertex then hit.photon.momentumMag else 0.0,
      UnsetVertexRIndex)
  }

  /** `irt_photons`: exactly one photon per raw hit, in hit order. */
  method BuildPhotons(hits: seq<RawHit>, cellMask: bv64, positionOf: bv64 -> Vec3, withVertex: bool)
    returns (photons: seq<Photon>)
    ensures |photons| == |hits|
    ensures forall k :: 0 <= k < |hits| ==> photons[k] == MakePhoton(hits[k], cellMask, positionOf, withVertex)
  {
    photons := [];
    for k := 0 to |hits|
      invariant |photons| == k
      invariant forall i :: 0 <= i < k ==> photons[i] == MakePhoton(hits[i], cellMask, positionOf, withVertex)
    {
      photons := photons + [MakePhoton(hits[k], cellMask, positionOf, withVertex)];
    }
  }

  // ---------------------------------------------------------------------------
  // Filling one radiator history

  /**
    Whether the history of radiator `rad` receives photon p: always, except that in
    true-radiator cheat mode only when the geometry guesses `rad` from its vertex.
   */
  predicate Routed(p: Photon, rad: string, cheatTrue: bool, guess: (Vec3, Vec3) -> Option<string>) {
    !cheatTrue || guess(p.vertexPosition, p.vertexPosition) == Some(rad)
  }

  /** The energy (eV) the lookup is keyed on: 1e9 times the momentum magnitude in GeV. */
  function PhotonEnergy(p: Photon): real {
    1000000000.0 * p.vertexMomentumMag
  }

  /**
    What happens to a photon the history receives: in vertex cheat mode its
    refractive index is replaced by the radiator table's entry at the photon's energy
    when the lookup finds one, and is otherwise kept; nothing else changes.
   */
  function Delivered(p: Photon, table: seq<Entry>, cheatVertex: bool): (q: Photon)
    ensures q == p.(vertexRIndex := q.vertexRIndex)
    ensures cheatVertex && FineBin(table, PhotonEnergy(p)).Some? ==>
      q.vertexRIndex == table[FineBin(table, PhotonEnergy(p)).value].1
    ensures !(cheatVertex && FineBin(table, PhotonEnergy(p)).Some?) ==> q == p
  {
    if cheatVertex then
      match FineBin(table, PhotonEnergy(p))
      case Some(i) => p.(vertexRIndex := table[i].1)
      case None => p
    else p
  }

  /** The event's photon after the history of `rad` was filled (the source mutates the shared photon). */
  function AfterFill(p: Photon, rad: string, table: seq<Entry>, cheatTrue: bool, cheatVertex: bool,
                     guess: (Vec3, Vec3) -> Option<string>): Photon
  {
    if Routed(p, rad, cheatTrue, guess) then Delivered(p, table, cheatVertex) else p
  }

  /** The photon copies the history of `rad` receives, in photon order. */
  function RoutedCopies(ps: seq<Photon>, rad: string, table: seq<Entry>, cheatTrue: bool, cheatVertex: bool,
                        guess: (Vec3, Vec3) -> Option<string>): seq<Photon>
    decreases |ps|
  {
    if ps == [] then []
    else
      var n := |ps| - 1;
      RoutedCopies(ps[..n], rad, table, cheatTrue, cheatVertex, guess) +
        (if Routed(ps[n], rad, cheatTrue, guess) then [Delivered(ps[n], table, cheatVertex)] else [])
  }

  /**
    The photon loop for one radiator history: returns the event's photons after the
    loop and the copies appended to the history.
   */
  method FillRadiatorHistory(photons: seq<Photon>, rad: string, table: seq<Entry>, cheatTrue: bool,
                             cheatVertex: bool, guess: (Vec3, Vec3) -> Option<string>)
    returns (updated: seq<Photon>, copies: seq<Photon>)
    ensures |updated| == |photons|
    ensures forall k :: 0 <= k < |photons| ==>
      updated[k] == AfterFill(photons[k], rad, table, cheatTrue, cheatVertex, guess)
    ensures copies == RoutedCopies(photons, rad, table, cheatTrue, cheatVertex, guess)
  {
    updated := photons;
    copies := [];
    for k := 0 to |photons|
      invariant |updated| == |photons|
      invariant forall i :: 0 <= i < k ==> updated[i] == AfterFill(photons[i], rad, table, cheatTrue, cheatVertex, guess)
      invariant forall i :: k <= i < |photons| ==> updated[i] == photons[i]
      invariant copies == RoutedCopies(photons[..k], rad, table, cheatTrue, cheatVertex, guess)
    {
      assert photons[..k + 1][..k] == photons[..k];
      var p := updated[k];
      if cheatTrue && guess(p.vertexPosition, p.vertexPosition) != Some(rad) {
        continue;
      }
      if cheatVertex {
        var found, ri := GetFinelyBinnedTableEntry(table, PhotonEnergy(p), p.vertexRIndex);
        if found {
          p := p.(vertexRIndex := ri);
          updated := updated[k := p];
        }
      }
      copies := copies + [p];
    }
    assert photons[..|photons|] == photons;
  }

  /**
    Without true-radiator routing a history receives one copy of every photon, in
    order; without either cheat mode those copies are the photons themselves.
   */
  lemma {:induction false} AllPhotonsCopied(ps: seq<Photon>, rad: string, table: seq<Entry>, cheatVertex: bool,
                                            guess: (Vec3, Vec3) -> Option<string>)
    ensures |RoutedCopies(ps, rad, table, false, cheatVertex, guess)| == |ps|
    ensures forall k :: 0 <= k < |ps| ==>
      RoutedCopies(ps, rad, table, false, cheatVertex, guess)[k] == Delivered(ps[k], table, cheatVertex)
    ensures !cheatVertex ==> RoutedCopies(ps, rad, table, false, cheatVertex, guess) == ps
    decreases |ps|
  {
    if ps != [] {
      var n := |ps| - 1;
      AllPhotonsCopied(ps[..n], rad, table, cheatVertex, guess);
      assert forall k :: 0 <= k < n ==> ps[..n][k] == ps[k];
    }
  }

  /**
    With true-radiator routing a history receives exactly the photons whose guessed
    radiator is its own: every copy comes from such a photon, and every such photon
    is copied.
   */
  lemma {:induction false} RoutedPhotonsCopied(ps: seq<Photon>, rad: string, table: seq<Entry>, cheatVertex: bool,
                                               guess: (Vec3, Vec3) -> Option<string>)
    ensures forall c :: c in RoutedCopies(ps, rad, table, true, cheatVertex, guess) ==>
      exists k :: 0 <= k < |ps| && guess(ps[k].vertexPosition, ps[k].vertexPosition) == Some(rad) &&
        c == Delivered(ps[k], table, cheatVertex)
    ensures forall k :: 0 <= k < |ps| && guess(ps[k].vertexPosition, ps[k].vertexPosition) == Some(rad) ==>
      Delivered(ps[k], table, cheatVertex) in RoutedCopies(ps, rad, table, true, cheatVertex, guess)
    decreases |ps|
  {
    if ps != [] {
      var n := |ps| - 1;
      RoutedPhotonsCopied(ps[..n], rad, table, cheatVertex, guess);
      assert forall k :: 0 <= k < n ==> ps[..n][k] == ps[k];
    }
  }

  /** The positions of the photons whose guessed radiator is `rad`. */
  predicate GuessedFor(ps: seq<Photon>, k: int, rad: string, guess: (Vec3, Vec3) -> Option<string>) {
    0 <= k < |ps| && guess(ps[k].vertexPosition, ps[k].vertexPosition) == Some(rad)
  }

  /**
    The order of the routed copies: `idx` lists, in increasing order, exactly the
    positions of the photons whose guessed radiator is `rad`, and copy m is the
    delivered photon at position idx[m].
   */
  lemma {:induction false} RoutedOrder(ps: seq<Photon>, rad: string, table: seq<Entry>, cheatVertex: bool,
                                       guess: (Vec3, Vec3) -> Option<string>)
    returns (idx: seq<nat>)
    ensures |idx| == |RoutedCopies(ps, rad, table, true, cheatVertex, guess)|
    ensures forall a, b :: 0 <= a < b < |idx| ==> idx[a] < idx[b]
    ensures forall m :: 0 <= m < |idx| ==>
      GuessedFor(ps, idx[m], rad, guess) &&
      RoutedCopies(ps, rad, table, true, cheatVertex, guess)[m] == Delivered(ps[idx[m]], table, cheatVertex)
    ensures forall k :: GuessedFor(ps, k, rad, guess) ==> k in idx
    decreases |ps|
  {
    if ps == [] {
      idx := [];
    } else {
      var n := |ps| - 1;
      var front := ps[..n];
      var prev := RoutedOrder(front, rad, table, cheatVertex, guess);
      var before := RoutedCopies(front, rad, table, true, cheatVertex, guess);
      var copies := RoutedCopies(ps, rad, table, true, cheatVertex, guess);
      if GuessedFor(ps, n, rad, guess) {
        idx := prev + [n];
        assert copies == before + [Delivered(ps[n], table, cheatVertex)];
      } else {
        idx := prev;
        assert copies == before;
      }
      forall m | 0 <= m < |idx|
        ensures GuessedFor(ps, idx[m], rad, guess) && copies[m] == Delivered(ps[idx[m]], table, cheatVertex)
      {
        if m < |prev| {
          assert idx[m] == prev[m] && copies[m] == before[m];
          assert front[prev[m]] == ps[prev[m]];
        }
      }
      forall k | GuessedFor(ps, k, rad, guess)
        ensures k in idx
      {
        if k < n {
          assert front[k] == ps[k];
          assert GuessedFor(front, k, rad, guess);
        }
      }
    }
  }

  // ---------------------------------------------------------------------------
  // Reducing one radiator history

  /** A photon is used for radiator `rad` iff some `_m_Selected` entry names `rad`. */
  predicate SelectedFor(sel: seq<Selection>, rad: string) {
    exists i :: 0 <= i < |sel| && sel[i].radiator == rad
  }

  /** The selection scan, stopping at the first entry naming the radiator. */
  method IsSelected(sel: seq<Selection>, rad: string) returns (selected: bool)
    ensures selected <==> SelectedFor(sel, rad)
  {
    selected := false;
    for i := 0 to |sel|
      invariant forall i' :: 0 <= i' < i ==> sel[i'].radiator != rad
    {
      if sel[i].radiator == rad {
        selected := true;
        break;
      }
    }
  }

  /** `1239.84 / (1e9 * |p|)`: the wavelength (nm) of a photon of momentum |p| (GeV). */
  function Wavelength(mag: real): real {
    if mag == 0.0 then 0.0 else 1239.84 / (1000000000.0 * mag)
  }

  /** The running sums of the reduce loop. */
  datatype Tally = Tally(
    npe: nat,
    thetaSum: real,
    weightSum: real,
    rindexSum: real,
    wavelengthSum: real,
    thetaPhi: seq<(real, real)>)

  /** The weight of a selected photon (the source's fixed choice). */
  const PhotonWeight: real := 1.0

  /** The reduce loop over the first n photons of the history of `rad`. */
  function TallyUpTo(ps: seq<Photon>, res: Resolution, rad: string, cheatVertex: bool, n: nat): Tally
    requires n <= |ps|
  {
    if n == 0 then Tally(0, 0.0, 0.0, 0.0, 0.0, [])
    else
      var t := TallyUpTo(ps, res, rad, cheatVertex, n - 1);
      var e := res.estimate(rad, n - 1);
      var p := ps[n - 1];
      if !SelectedFor(e.selected, rad) then t
      else
        Tally(
          t.npe + 1,
          t.thetaSum + PhotonWeight * e.theta,
          t.weightSum + PhotonWeight,
          if cheatVertex then t.rindexSum + p.vertexRIndex else t.rindexSum,
          if cheatVertex then t.wavelengthSum + Wavelength(p.vertexMomentumMag) else t.wavelengthSum,
          t.thetaPhi + [(e.theta, e.phi)])
  }

  /** The positions of the history's photons the resolver selected for `rad`. */
  ghost function SelectedPositions(res: Resolution, rad: string, n: nat): set<nat> {
    set k: nat | k < n && SelectedFor(res.estimate(rad, k).selected, rad)
  }

  /** The sum of the angles of a theta/phi list. */
  function SumTheta(tp: seq<(real, real)>): real {
    if tp == [] then 0.0 else SumTheta(tp[..|tp| - 1]) + tp[|tp| - 1].0
  }

  /** npe is the number of photons of the history the resolver selected for the radiator. */
  lemma {:induction false} TallySelected(ps: seq<Photon>, res: Resolution, rad: string, cheatVertex: bool, n: nat)
    requires n <= |ps|
    ensures TallyUpTo(ps, res, rad, cheatVertex, n).npe == |SelectedPositions(res, rad, n)|
  {
    if n > 0 {
      TallySelected(ps, res, rad, cheatVertex, n - 1);
      var before := SelectedPositions(res, rad, n - 1);
      if SelectedFor(res.estimate(rad, n - 1).selected, rad) {
        assert SelectedPositions(res, rad, n) == before + {n - 1};
      } else {
        assert SelectedPositions(res, rad, n) == before;
      }
    } else {
      assert SelectedPositions(res, rad, 0) == {};
    }
  }

  /**
    What else the reduce loop accumulates: the theta/phi list has npe entries, each
    the (theta, phi) estimate of a selected photon; the weight sum equals npe (weight
    1.0); the theta sum is the sum of the listed angles; and outside vertex cheat
    mode the refractive-index and wavelength sums stay 0.
   */
  lemma {:induction false} TallyCounts(ps: seq<Photon>, res: Resolution, rad: string, cheatVertex: bool, n: nat)
    requires n <= |ps|
    ensures TallyUpTo(ps, res, rad, cheatVertex, n).npe == |TallyUpTo(ps, res, rad, cheatVertex, n).thetaPhi|
    ensures TallyUpTo(ps, res, rad, cheatVertex, n).weightSum == TallyUpTo(ps, res, rad, cheatVertex, n).npe as real
    ensures TallyUpTo(ps, res, rad, cheatVertex, n).thetaSum == SumTheta(TallyUpTo(ps, res, rad, cheatVertex, n).thetaPhi)
    ensures forall m :: 0 <= m < |TallyUpTo(ps, res, rad, cheatVertex, n).thetaPhi| ==>
      exists k :: k in SelectedPositions(res, rad, n) &&
        TallyUpTo(ps, res, rad, cheatVertex, n).thetaPhi[m] == (res.estimate(rad, k).theta, res.estimate(rad, k).phi)
    ensures !cheatVertex ==>
      TallyUpTo(ps, res, rad, cheatVertex, n).rindexSum == 0.0 && TallyUpTo(ps, res, rad, cheatVertex, n).wavelengthSum == 0.0
  {
    if n > 0 {
      TallyCounts(ps, res, rad, cheatVertex, n - 1);
      var t := TallyUpTo(ps, res, rad, cheatVertex, n - 1);
      var e := res.estimate(rad, n - 1);
      if SelectedFor(e.selected, rad) {
        var tp := t.thetaPhi + [(e.theta, e.phi)];
        assert tp[..|tp| - 1] == t.thetaPhi;
        assert n - 1 in SelectedPositions(res, rad, n);
        assert forall k :: k in SelectedPositions(res, rad, n - 1) ==> k in SelectedPositions(res, rad, n);
      } else {
        assert forall k :: k in SelectedPositions(res, rad, n - 1) ==> k in SelectedPositions(res, rad, n);
      }
    }
  }

  /**
    The theta/phi list holds one entry per selected photon, in history order: `idx`
    lists the selected positions, strictly increasing and each exactly once, and entry
    m of the list is the (theta, phi) estimate of the photon at idx[m].
   */
  lemma {:induction false} TallyOrder(ps: seq<Photon>, res: Resolution, rad: string, cheatVertex: bool, n: nat)
    returns (idx: seq<nat>)
    requires n <= |ps|
    ensures |idx| == |TallyUpTo(ps, res, rad, cheatVertex, n).thetaPhi|
    ensures forall a, b :: 0 <= a < b < |idx| ==> idx[a] < idx[b]
    ensures forall m :: 0 <= m < |idx| ==> idx[m] in SelectedPositions(res, rad, n)
    ensures forall k :: k in SelectedPositions(res, rad, n) ==> k in idx
    ensures forall m :: 0 <= m < |idx| ==>
      TallyUpTo(ps, res, rad, cheatVertex, n).thetaPhi[m] == (res.estimate(rad, idx[m]).theta, res.estimate(rad, idx[m]).phi)
  {
    if n == 0 {
      idx := [];
    } else {
      var prev := TallyOrder(ps, res, rad, cheatVertex, n - 1);
      assert forall k :: k in SelectedPositions(res, rad, n - 1) ==> k in SelectedPositions(res, rad, n);
      if SelectedFor(res.estimate(rad, n - 1).selected, rad) {
        idx := prev + [n - 1];
        assert n - 1 in SelectedPositions(res, rad, n);
        assert forall k :: k in SelectedPositions(res, rad, n) ==> k == n - 1 || k in SelectedPositions(res, rad, n - 1);
      } else {
        idx := prev;
        assert forall k :: k in SelectedPositions(res, rad, n) ==> k in SelectedPositions(res, rad, n - 1);
      }
    }
  }

  /** The reduce loop over a radiator history. */
  method ReduceRadiator(ps: seq<Photon>, res: Resolution, rad: string, cheatVertex: bool) returns (t: Tally)
    ensures t == TallyUpTo(ps, res, rad, cheatVertex, |ps|)
  {
    t := Tally(0, 0.0, 0.0, 0.0, 0.0, []);
    for k := 0 to |ps|
      invariant t == TallyUpTo(ps, res, rad, cheatVertex, k)
    {
      var e := res.estimate(rad, k);
      var selected := IsSelected(e.selected, rad);
      if !selected {
        continue;
      }
      var p := ps[k];
      t := t.(npe := t.npe + 1, weightSum := t.weightSum + PhotonWeight, thetaSum := t.thetaSum + PhotonWeight * e.theta,
        thetaPhi := t.thetaPhi + [(e.theta, e.phi)]);
      if cheatVertex {
        t := t.(rindexSum := t.rindexSum + p.vertexRIndex, wavelengthSum := t.wavelengthSum + Wavelength(p.vertexMomentumMag));
      }
    }
  }

  /** `ComputeAve`: the mean sum / count, guarded to exactly 0 when the count is not positive. */
  function ComputeAve(sum: real, count: real): (ave: real)
    ensures count > 0.0 ==> ave * count == sum
    ensures count <= 0.0 ==> ave == 0.0
  {
    if count > 0.0 then sum / count else 0.0
  }

  /** The unweighted mean of the angles of a theta/phi list (0 for an empty list). */
  function MeanTheta(tp: seq<(real, real)>): real {
    if tp == [] then 0.0 else SumTheta(tp) / |tp| as real
  }

  /** With weight 1.0 the averaged angle is the unweighted mean of the listed angles. */
  lemma ThetaAverageIsMean(ps: seq<Photon>, res: Resolution, rad: string, cheatVertex: bool)
    ensures
      var t := TallyUpTo(ps, res, rad, cheatVertex, |ps|);
      ComputeAve(t.thetaSum, t.weightSum) == MeanTheta(t.thetaPhi)
  {
    TallyCounts(ps, res, rad, cheatVertex, |ps|);
  }

  // ---------------------------------------------------------------------------
  // Hypotheses

  /**
    The hypothesis list of a record: one entry per entry of the mass table, in its
    order, with the weight and photon count the resolver gave that hypothesis for
    the radiator, zero or not.
   */
  method BuildHypotheses(masses: seq<(int, real)>, res: Resolution, rad: string) returns (hyps: seq<Hypothesis>)
    ensures |hyps| == |masses|
    ensures forall k :: 0 <= k < |masses| ==>
      hyps[k] == Hypothesis(masses[k].0, res.weight(k, rad), res.npe(k, rad))
  {
    hyps := [];
    for k := 0 to |masses|
      invariant |hyps| == k
      invariant forall i :: 0 <= i < k ==> hyps[i] == Hypothesis(masses[i].0, res.weight(i, rad), res.npe(i, rad))
    {
      hyps := hyps + [Hypothesis(masses[k].0, res.weight(k, rad), res.npe(k, rad))];
    }
  }
}
