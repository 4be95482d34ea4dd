/**
  The configuration steps of `IrtCherenkovParticleID::AlgorithmInit`: choosing the
  radiators used for PID, passing each one its configuration block, and building the
  PDG-to-mass table of the hypotheses.
 */
module RadiatorSetup {
  import opened Wrappers
  import opened CherenkovData
  import opened Tools

  /** The radiator that exists only for the optical simulation. */
  const FilterName: string := "Filter"

  // ---------------------------------------------------------------------------
  // PID radiators

  /**
    `m_pid_radiators`: the positions (in the detector's radiator map) of every
    radiator except the one named "Filter", in map order.
   */
  method SelectPidRadiators(rads: seq<Radiator>) returns (pids: seq<nat>)
    ensures forall k: nat :: k in pids <==> k < |rads| && rads[k].name != FilterName
    ensures forall a, b :: 0 <= a < b < |pids| ==> pids[a] < pids[b]
  {
    pids := [];
    for k := 0 to |rads|
      invariant forall i: nat :: i in pids <==> i < k && rads[i].name != FilterName
      invariant forall a, b :: 0 <= a < b < |pids| ==> pids[a] < pids[b]
      invariant forall a :: 0 <= a < |pids| ==> pids[a] < k
    {
      if rads[k].name != FilterName {
        pids := pids + [k];
      }
    }
  }

  /** The PID radiators' names are the detector's radiator names without "Filter". */
  lemma PidRadiatorNames(rads: seq<Radiator>, pids: seq<nat>)
    requires forall k: nat :: k in pids <==> k < |rads| && rads[k].name != FilterName
    ensures (set k | k in pids :: rads[k].name) == (set k | 0 <= k < |rads| :: rads[k].name) - {FilterName}
  {
    var lhs := set k | k in pids :: rads[k].name;
    var rhs := (set k | 0 <= k < |rads| :: rads[k].name) - {FilterName};
    forall n | n in rhs ensures n in lhs {
      var k :| 0 <= k < |rads| && rads[k].name == n;
      assert k in pids;
    }
  }

  // ---------------------------------------------------------------------------
  // Radiator configuration

  /**
    What passing `cfg_rad` to an IRT radiator does, once its identifier `id` is
    known: the average and reference refractive index take the configured value;
    the attenuation length changes only for a positive configured value; the
    smearing changes only for a positive configured width with mode "uniform" or
    "gaussian" (any other mode is logged and leaves it alone); the trajectory bin
    count becomes zbins - 1. Name and refractive-index table are left alone.
   */
  function ConfigureRadiator(rad: Radiator, c: RadiatorConfig, id: int): (r: Radiator)
    ensures r.name == rad.name && r.riLookupTable == rad.riLookupTable
    ensures r.id == id && r.averageRIndex == c.referenceRIndex && r.referenceRIndex == c.referenceRIndex
    ensures c.attenuation > 0.0 ==> r.attenuationLength == c.attenuation
    ensures c.attenuation <= 0.0 ==> r.attenuationLength == rad.attenuationLength
    ensures r.smearing != rad.smearing ==>
      c.smearing > 0.0 && (c.smearingMode == "uniform" || c.smearingMode == "gaussian")
    ensures c.smearing > 0.0 && c.smearingMode == "uniform" ==> r.smearing == UniformSmearing(c.smearing)
    ensures c.smearing > 0.0 && c.smearingMode == "gaussian" ==> r.smearing == GaussianSmearing(c.smearing)
    ensures r.trajectoryBinCount == c.zbins - 1
  {
    var smearing :=
      if c.smearing > 0.0 && c.smearingMode == "uniform" then UniformSmearing(c.smearing)
      else if c.smearing > 0.0 && c.smearingMode == "gaussian" then GaussianSmearing(c.smearing)
      else rad.smearing;
    rad.(
      id := id,
      averageRIndex := c.referenceRIndex,
      referenceRIndex := c.referenceRIndex,
      attenuationLength := if c.attenuation > 0.0 then c.attenuation else rad.attenuationLength,
      smearing := smearing,
      trajectoryBinCount := c.zbins - 1)
  }

  /** A radiator name the registry knows (GetRadiatorID succeeds on it). */
  ghost predicate Registered(name: string) {
    exists id :: GetRadiatorName(id) == Success(name)
  }

  /** The identifier GetRadiatorID returns for a registered name. */
  ghost function RegisteredId(name: string): (id: int)
    requires Registered(name)
    ensures GetRadiatorName(id) == Success(name)
  {
    var id :| GetRadiatorName(id) == Success(name); id
  }

  /** The radiators after a configuration pass, and the exception that stopped it, if any. */
  datatype ConfigOutcome = ConfigOutcome(radiators: seq<Radiator>, error: Option<ToolsError>)

  /** Every position of `pids` indexes `rads`. */
  predicate IndexesInto(pids: seq<nat>, n: nat) {
    forall i :: 0 <= i < |pids| ==> pids[i] < n
  }

  /**
    The configuration loop over the PID radiators at positions `pids`, in order: a
    radiator with a configuration block gets its registry identifier and that
    block; one without is logged and skipped; an unregistered name raises, leaving
    the radiators configured so far as they are.
   */
  ghost function ConfigureAll(rads: seq<Radiator>, pids: seq<nat>, cfgs: map<string, RadiatorConfig>): (r: ConfigOutcome)
    requires IndexesInto(pids, |rads|)
    ensures |r.radiators| == |rads|
    ensures forall k :: 0 <= k < |rads| ==>
      r.radiators[k].name == rads[k].name && r.radiators[k].riLookupTable == rads[k].riLookupTable
    decreases |pids|
  {
    if pids == [] then ConfigOutcome(rads, None)
    else
      var k := pids[0];
      var name := rads[k].name;
      if name !in cfgs then ConfigureAll(rads, pids[1..], cfgs)
      else if !Registered(name) then ConfigOutcome(rads, Some(UnknownRadiatorName(name)))
      else ConfigureAll(rads[k := ConfigureRadiator(rads[k], cfgs[name], RegisteredId(name))], pids[1..], cfgs)
  }

  /**
    The configuration loop of AlgorithmInit; GetRadiatorID's exception becomes the
    returned error.
   */
  method ConfigureRadiators(rads: seq<Radiator>, pids: seq<nat>, cfgs: map<string, RadiatorConfig>)
    returns (out: ConfigOutcome)
    requires IndexesInto(pids, |rads|)
    ensures out == ConfigureAll(rads, pids, cfgs)
  {
    var cur := rads;
    for i := 0 to |pids|
      invariant |cur| == |rads|
      invariant ConfigureAll(cur, pids[i..], cfgs) == ConfigureAll(rads, pids, cfgs)
    {
      assert pids[i..][1..] == pids[i + 1..];
      var k := pids[i];
      var name := cur[k].name;
      if name in cfgs {
        var id := GetRadiatorID(name);
        if id.Failure? {
          return ConfigOutcome(cur, Some(id.error));
        }
        cur := cur[k := ConfigureRadiator(cur[k], cfgs[name], id.value)];
      }
    }
    out := ConfigOutcome(cur, None);
  }

  /** The names of the radiators at positions `pids`, in order. */
  function PidNames(rads: seq<Radiator>, pids: seq<nat>): (names: seq<string>)
    requires IndexesInto(pids, |rads|)
    ensures |names| == |pids| && forall i :: 0 <= i < |pids| ==> names[i] == rads[pids[i]].name
  {
    seq(|pids|, i requires 0 <= i < |pids| => rads[pids[i]].name)
  }

  /** The first name with a configuration block that the registry does not know. */
  ghost function FirstUnregistered(names: seq<string>, cfgs: map<string, RadiatorConfig>): (r: Option<string>)
    ensures r.None? <==> forall i :: 0 <= i < |names| && names[i] in cfgs ==> Registered(names[i])
    ensures r.Some? ==> exists i :: (0 <= i < |names| && names[i] == r.value &&
      names[i] in cfgs && !Registered(names[i]) &&
      forall i' :: 0 <= i' < i && names[i'] in cfgs ==> Registered(names[i']))
    decreases |names|
  {
    if names == [] then None
    else if names[0] in cfgs && !Registered(names[0]) then Some(names[0])
    else
      var r := FirstUnregistered(names[1..], cfgs);
      assert forall i :: 1 <= i < |names| ==> names[1..][i - 1] == names[i];
      r
  }

  /**
    The pass raises exactly when some PID radiator with a configuration block has
    a name the registry does not know, and then names the first such radiator.
   */
  lemma {:induction false} ConfigureAllError(rads: seq<Radiator>, pids: seq<nat>, cfgs: map<string, RadiatorConfig>)
    requires IndexesInto(pids, |rads|)
    ensures ConfigureAll(rads, pids, cfgs).error ==
      match FirstUnregistered(PidNames(rads, pids), cfgs)
      case None => None
      case Some(name) => Some(UnknownRadiatorName(name))
    decreases |pids|
  {
    if pids != [] {
      var k := pids[0];
      var name := rads[k].name;
      var rest := pids[1..];
      var next := if name in cfgs && Registered(name)
        then rads[k := ConfigureRadiator(rads[k], cfgs[name], RegisteredId(name))] else rads;
      if !(name in cfgs && !Registered(name)) {
        ConfigureAllError(next, rest, cfgs);
        assert PidNames(next, rest) == PidNames(rads, pids)[1..];
      }
    }
  }

  /** The configuration the pass gives the radiator at position k when it does not raise. */
  ghost function Configured(rad: Radiator, isPid: bool, cfgs: map<string, RadiatorConfig>): Radiator
  {
    if isPid && rad.name in cfgs && Registered(rad.name)
    then ConfigureRadiator(rad, cfgs[rad.name], RegisteredId(rad.name))
    else rad
  }

  /**
    When the pass does not raise, every PID radiator with a configuration block is
    configured with it and its registry identifier, and every other radiator (the
    "Filter" one among them) is left exactly as it was.
   */
  lemma {:induction false} ConfigureAllResult(rads: seq<Radiator>, pids: seq<nat>, cfgs: map<string, RadiatorConfig>)
    requires IndexesInto(pids, |rads|)
    requires forall a, b :: 0 <= a < b < |pids| ==> pids[a] < pids[b]
    requires ConfigureAll(rads, pids, cfgs).error.None?
    ensures forall k :: 0 <= k < |rads| ==>
      ConfigureAll(rads, pids, cfgs).radiators[k] == Configured(rads[k], k in pids, cfgs)
    decreases |pids|
  {
    if pids != [] {
      var k := pids[0];
      var name := rads[k].name;
      var rest := pids[1..];
      var next := if name in cfgs then rads[k := ConfigureRadiator(rads[k], cfgs[name], RegisteredId(name))] else rads;
      ConfigureAllResult(next, rest, cfgs);
      assert k !in rest;
      forall j | 0 <= j < |rads| ensures ConfigureAll(rads, pids, cfgs).radiators[j] == Configured(rads[j], j in pids, cfgs) {
        if j != k {
          assert j in pids <==> j in rest;
        }
      }
    }
  }

  // ---------------------------------------------------------------------------
  // PDG masses

  /** The PDG codes of a mass table. */
  function MassKeys(m: seq<(int, real)>): set<int> {
    set i | 0 <= i < |m| :: m[i].0
  }

  /**
    `m_pdg_mass` for the codes `pdgs`: one entry per distinct code, carrying its
    tabulated mass.
   */
  ghost predicate MassTableOf(m: seq<(int, real)>, pdgs: seq<int>) {
    && (forall a, b :: 0 <= a < b < |m| ==> m[a].0 != m[b].0)
    && (forall i :: 0 <= i < |m| ==> GetPDGMass(m[i].0) == Success(m[i].1))
    && (forall pdg :: pdg in MassKeys(m) <==> pdg in pdgs)
  }

  /**
    The mass loop of AlgorithmInit: look up every configured code in order, and
    insert it unless already present; an unknown code raises, leaving the codes
    before it inserted.
   */
  method BuildPdgMass(pdgList: seq<int>) returns (masses: seq<(int, real)>, err: Option<ToolsError>)
    ensures err.None? <==> forall j :: 0 <= j < |pdgList| ==> GetPDGMass(pdgList[j]).Success?
    ensures err.None? ==> MassTableOf(masses, pdgList)
    ensures err.Some? ==> exists j :: (0 <= j < |pdgList| &&
      err == Some(UnknownPdg(pdgList[j])) && GetPDGMass(pdgList[j]).Failure? &&
      (forall j' :: 0 <= j' < j ==> GetPDGMass(pdgList[j']).Success?) &&
      MassTableOf(masses, pdgList[..j]))
  {
    masses := [];
    for j := 0 to |pdgList|
      invariant forall j' :: 0 <= j' < j ==> GetPDGMass(pdgList[j']).Success?
      invariant MassTableOf(masses, pdgList[..j])
    {
      var pdg := pdgList[j];
      var mass := GetPDGMass(pdg);
      if mass.Failure? {
        return masses, Some(mass.error);
      }
      assert pdgList[..j + 1] == pdgList[..j] + [pdg];
      if pdg !in MassKeys(masses) {
        MassKeysAppend(masses, (pdg, mass.value));
        masses := masses + [(pdg, mass.value)];
      }
    }
    assert pdgList[..|pdgList|] == pdgList;
    err := None;
  }

  lemma MassKeysAppend(m: seq<(int, real)>, e: (int, real))
    ensures MassKeys(m + [e]) == MassKeys(m) + {e.0}
  {
    var m' := m + [e];
    forall x | x in MassKeys(m') ensures x in MassKeys(m) + {e.0} {
      var i :| 0 <= i < |m'| && m'[i].0 == x;
      if i < |m| { assert m[i].0 == x; }
    }
    forall x | x in MassKeys(m) ensures x in MassKeys(m') {
      var i :| 0 <= i < |m| && m[i].0 == x;
      assert m'[i].0 == x;
    }
    assert m'[|m|].0 == e.0;
  }

  /** A mass table never holds more hypotheses than the database has particles. */
  lemma MassTableSize(m: seq<(int, real)>, pdgs: seq<int>)
    requires MassTableOf(m, pdgs)
    ensures |m| <= GetNumPDGs()
  {
    DistinctKeysCount(m);
    forall i | 0 <= i < |m| ensures m[i].0 in PdgMassDb.Keys {
      assert GetPDGMass(m[i].0).Success?;
    }
    assert MassKeys(m) <= PdgMassDb.Keys;
    SubsetCard(MassKeys(m), PdgMassDb.Keys);
    assert |PdgMassDb.Keys| == |PdgMassDb| == GetNumPDGs();
  }

  lemma {:induction false} DistinctKeysCount(m: seq<(int, real)>)
    requires forall a, b :: 0 <= a < b < |m| ==> m[a].0 != m[b].0
    ensures |MassKeys(m)| == |m|
  {
    if m != [] {
      var t := m[1..];
      DistinctKeysCount(t);
      assert MassKeys(m) == {m[0].0} + MassKeys(t) by {
        forall x | x in MassKeys(m) ensures x in {m[0].0} + MassKeys(t) {
          var i :| 0 <= i < |m| && m[i].0 == x;
          if i > 0 { assert t[i - 1].0 == x; }
        }
      }
      assert m[0].0 !in MassKeys(t);
    }
  }

  lemma SubsetCard(a: set<int>, b: set<int>)
    requires a <= b
    ensures |a| <= |b|
  {
    assert b == a + (b - a);
  }
}
