/**
  The values the RICH particle-identification algorithm reads and writes: its
  configuration, the IRT radiator settings, the event inputs (raw sensor hits and
  per-radiator track segments), the optical photons and radiator histories handed
  to the ray-optics resolver, what the resolver reports back, and the output
  `CherenkovParticleID` records.
 */
module CherenkovData {
  import opened SortedMap

  /** A TVector3 / edm4hep vector. */
  datatype Vec3 = Vec3(x: real, y: real, z: real)

  const Zero: Vec3 := Vec3(0.0, 0.0, 0.0)

  // ---------------------------------------------------------------------------
  // Configuration

  /** `cfg_rad`: the per-radiator block of IrtCherenkovParticleIDConfig. */
  datatype RadiatorConfig = RadiatorConfig(
    referenceRIndex: real,
    attenuation: real,
    smearingMode: string,
    smearing: real,
    zbins: int)

  /** IrtCherenkovParticleIDConfig: the fields the algorithm reads. */
  datatype Config = Config(
    numRIndexBins: nat,
    radiators: map<string, RadiatorConfig>,
    pdgList: seq<int>,
    cheatPhotonVertex: bool,
    cheatTrueRadiator: bool)

  // ---------------------------------------------------------------------------
  // IRT radiators

  /** The smearing an IRT radiator applies to its photons. */
  datatype Smearing = Unsmeared | UniformSmearing(width: real) | GaussianSmearing(width: real)

  /**
    The settings of one IRT `CherenkovRadiator` that the algorithm touches; every
    other field of the IRT object is outside this model.
   */
  datatype Radiator = Radiator(
    name: string,
    riLookupTable: seq<Entry>,
    id: int,
    averageRIndex: real,
    referenceRIndex: real,
    attenuationLength: real,
    smearing: Smearing,
    trajectoryBinCount: int)

  // ---------------------------------------------------------------------------
  // Event inputs

  /** One TrackPoint of a TrackSegment. */
  datatype TrackPoint = TrackPoint(position: Vec3, momentum: Vec3)

  /** A charged particle's path through one radiator (edm4eic::TrackSegment). */
  datatype TrackSegment = TrackSegment(points: seq<TrackPoint>)

  /**
    The Monte Carlo photon behind a raw hit (used only by the cheat modes); the
    magnitude of its momentum (GeV) is carried alongside the vector.
   */
  datatype McPhoton = McPhoton(vertex: Vec3, momentum: Vec3, momentumMag: real)

  /** edm4eic::RawPMTHit: the readout cell and its MC photon. */
  datatype RawHit = RawHit(cellId: bv64, photon: McPhoton)

  // ---------------------------------------------------------------------------
  // Resolver interface

  /** The refractive index an `OpticalPhoton` carries before any is set. */
  const UnsetVertexRIndex: real := 0.0

  /** An IRT `OpticalPhoton`, as built from one raw hit. */
  datatype Photon = Photon(
    sensorId: bv64,
    detectionPosition: Vec3,
    detected: bool,
    vertexPosition: Vec3,
    vertexMomentum: Vec3,
    vertexMomentumMag: real,
    vertexRIndex: real)

  /** One `RadiatorHistory` of a charged particle: its path points and photon copies. */
  datatype RadiatorHistory = RadiatorHistory(radiator: string, points: seq<TrackPoint>, photons: seq<Photon>)

  /** One `_m_Selected` entry of a photon: a hypothesis that selected it, for a radiator. */
  datatype Selection = Selection(hypothesis: nat, radiator: string)

  /**
    What the resolver leaves on one photon copy, seen from the radiator of its
    history: the selections, the PDF average (theta) and the azimuth (phi).
   */
  datatype PhotonEstimate = PhotonEstimate(selected: seq<Selection>, theta: real, phi: real)

  /**
    What `ChargedParticle::PIDReconstruction` reports: per (radiator, index of the
    photon in that radiator's history) its estimate, and per (hypothesis index,
    radiator) the weight and the photon count of the hypothesis.
   */
  datatype Resolution = Resolution(
    estimate: (string, nat) -> PhotonEstimate,
    weight: (nat, string) -> real,
    npe: (nat, string) -> real)

  /** The resolver, as a function of the radiator histories and the hypothesis masses. */
  type Resolver = (seq<RadiatorHistory>, seq<real>) -> Resolution

  // ---------------------------------------------------------------------------
  // Output

  /** edm4eic::CherenkovPdgHypothesis. */
  datatype Hypothesis = Hypothesis(pdg: int, weight: real, npe: real)

  /** edm4eic::CherenkovParticleID. */
  datatype CherenkovPid = CherenkovPid(
    radiator: int,
    npe: nat,
    theta: real,
    rindex: real,
    wavelength: real,
    thetaPhiPhotons: seq<(real, real)>,
    hypotheses: seq<Hypothesis>,
    chargedParticle: TrackSegment)

  /** The exceptions AlgorithmProcess lets escape. */
  datatype ProcessError = MissingRadiator(name: string)
}
