/**
  The helpers of the RICH particle-identification code: the radiator-ID and
  PDG-mass registries, and the two refractive-index table tools (uniform
  resampling of a sparse table, and constant-time lookup in a resampled one).
 */
module Tools {
  import opened Wrappers
  import opened SortedMap

  /** The runtime errors the lookups raise on unknown keys. */
  datatype ToolsError =
    | UnknownRadiatorId(id: int)
    | UnknownRadiatorName(name: string)
    | UnknownPdg(pdg: int)

  /** `g_pdg_db_for_pid`: the hard-coded rest masses (GeV) of the PID hypotheses. */
  const PdgMassDb: map<int, real> := map[-11 := 0.000510999, 211 := 0.13957, 321 := 0.493677, 2212 := 0.938272]

  /** `g_radiator_ids`: radiator identifier to radiator name. */
  const RadiatorIds: map<int, string> := map[0 := "Aerogel", 1 := "Gas"]

  // ---------------------------------------------------------------------------
  // Radiator IDs

  /** The name registered for a radiator identifier; raises on an unknown identifier. */
  function GetRadiatorName(id: int): (r: Result<string, ToolsError>)
    ensures r.Success? <==> id == 0 || id == 1
    ensures id == 0 ==> r == Success("Aerogel")
    ensures id == 1 ==> r == Success("Gas")
    ensures r.Failure? ==> r.error == UnknownRadiatorId(id)
  {
    if id in RadiatorIds then Success(RadiatorIds[id]) else Failure(UnknownRadiatorId(id))
  }

  /**
    The identifier registered for a radiator name, found by scanning the registry;
    raises on an unknown name. It inverts GetRadiatorName in both directions.
   */
  method GetRadiatorID(name: string) returns (r: Result<int, ToolsError>)
    ensures r.Success? ==> GetRadiatorName(r.value) == Success(name)
    ensures forall id :: GetRadiatorName(id) == Success(name) ==> r == Success(id)
    ensures r.Failure? ==> r.error == UnknownRadiatorName(name)
  {
    var unseen := RadiatorIds.Keys;
    while unseen != {}
      invariant unseen <= RadiatorIds.Keys
      invariant forall id :: id in RadiatorIds && id !in unseen ==> RadiatorIds[id] != name
      decreases unseen
    {
      var id :| id in unseen;
      if RadiatorIds[id] == name {
        return Success(id);
      }
      unseen := unseen - {id};
    }
    return Failure(UnknownRadiatorName(name));
  }

  // ---------------------------------------------------------------------------
  // PDG mass lookup

  /** The tabulated rest mass of a PDG code; raises on a code outside the table. */
  function GetPDGMass(pdg: int): (r: Result<real, ToolsError>)
    ensures r.Success? <==> pdg in {-11, 211, 321, 2212}
    ensures pdg == -11 ==> r == Success(0.000510999)
    ensures pdg == 211 ==> r == Success(0.13957)
    ensures pdg == 321 ==> r == Success(0.493677)
    ensures pdg == 2212 ==> r == Success(0.938272)
    ensures r.Failure? ==> r.error == UnknownPdg(pdg)
  {
    if pdg in PdgMassDb then Success(PdgMassDb[pdg]) else Failure(UnknownPdg(pdg))
  }

  /** The number of particle types the mass table knows. */
  function GetNumPDGs(): (n: nat)
    ensures n == 4
  {
    assert PdgMassDb.Keys == {-11, 211, 321, 2212};
    |PdgMassDb|
  }

  // ---------------------------------------------------------------------------
  // Fine binning

  /**
    The straight line through samples p and q, evaluated at energy e, computed as the
    source does: slope a = (q.1 - p.1) / (q.0 - p.0), intercept b = p.1 - a * p.0.
   */
  function Line(p: Entry, q: Entry, e: real): real
    requires p.0 != q.0
  {
    var a := (q.1 - p.1) / (q.0 - p.0);
    var b := p.1 - a * p.0;
    a * e + b
  }

  /** The energies of `r` are from, from + step, from + 2 * step, ... */
  ghost predicate OnGrid(r: seq<Entry>, from: real, step: real) {
    forall k :: 0 <= k < |r| ==> r[k].0 == from + k as real * step
  }

  /** OnGrid stated one sample at a time, from the last sample backwards. */
  ghost predicate Gridded(r: seq<Entry>, from: real, step: real)
    decreases |r|
  {
    |r| == 0 || (Gridded(r[..|r| - 1], from, step) && r[|r| - 1].0 == from + (|r| - 1) as real * step)
  }

  /** Gridded samples are on the grid, and with a positive step strictly sorted. */
  lemma {:induction false} GriddedOnGrid(r: seq<Entry>, from: real, step: real)
    requires Gridded(r, from, step)
    ensures OnGrid(r, from, step)
    ensures step > 0.0 ==> StrictlySorted(r)
    decreases |r|
  {
    if |r| > 0 {
      var r' := r[..|r| - 1];
      GriddedOnGrid(r', from, step);
      forall k | 0 <= k < |r'|
        ensures r[k] == r'[k]
      {
      }
      if step > 0.0 {
        forall i | 0 <= i < |r'|
          ensures r[i].0 < r[|r| - 1].0
        {
          GridPointBelow(from, step, i, |r| - 1, r[i].0, r[|r| - 1].0);
        }
      }
    }
  }

  /** A grid point of smaller index lies lower. */
  lemma GridPointBelow(from: real, step: real, i: nat, j: nat, a: real, b: real)
    requires step > 0.0 && i < j
    requires a == from + i as real * step && b == from + j as real * step
    ensures a < b
  {
    MulLt(i as real, j as real, step);
  }

  /** Energy e falls in the bracket [buffer[i-1].0, buffer[i].0) of the table. */
  predicate InBracket(buffer: seq<Entry>, i: int, e: real) {
    1 <= i < |buffer| && buffer[i - 1].0 <= e < buffer[i].0
  }

  /**
    Sample x lies above p, on the line from p to the buffer sample that closes the
    bracket x falls in (if it falls in one).
   */
  ghost predicate InterpolatedFrom(buffer: seq<Entry>, p: Entry, x: Entry) {
    forall i :: InBracket(buffer, i, x.0) ==> p.0 < x.0 && x.1 == Line(p, buffer[i], x.0)
  }

  /** Every sample of `r` after the first is interpolated from its predecessor in `r`. */
  ghost predicate Interpolates(buffer: seq<Entry>, r: seq<Entry>)
    decreases |r|
  {
    |r| < 2 || (Interpolates(buffer, r[..|r| - 1]) && InterpolatedFrom(buffer, r[|r| - 2], r[|r| - 1]))
  }

  /** The pointwise reading of Interpolates. */
  lemma {:induction false} InterpolatesAt(buffer: seq<Entry>, r: seq<Entry>, k: nat, i: nat)
    requires Interpolates(buffer, r) && 1 <= k < |r| && InBracket(buffer, i, r[k].0)
    ensures r[k - 1].0 < r[k].0 && r[k].1 == Line(r[k - 1], buffer[i], r[k].0)
    decreases |r|
  {
    if k < |r| - 1 {
      var r' := r[..|r| - 1];
      assert r'[k] == r[k] && r'[k - 1] == r[k - 1];
      InterpolatesAt(buffer, r', k, i);
    }
  }

  /**
    `r` is what ApplyFineBinning produces from the sorted, de-duplicated `buffer`:
    empty when there are fewer than two distinct energies or fewer than two bins;
    otherwise exactly `nbins` samples at energies from + k * step (k = 0 .. nbins - 1,
    step = (to - from) / nbins), the first being the smallest-energy sample itself,
    and each later one lying on the line through its predecessor in `r` and the
    buffer sample that closes the bracket [buffer[j-1].0, buffer[j].0) it falls in.
   */
  ghost predicate FinelyBinned(buffer: seq<Entry>, nbins: nat, r: seq<Entry>)
    requires StrictlySorted(buffer)
  {
    if |buffer| < 2 || nbins < 2 then r == []
    else
      var from := buffer[0].0;
      var step := (buffer[|buffer| - 1].0 - from) / nbins as real;
      && |r| == nbins
      && r[0] == buffer[0]
      && OnGrid(r, from, step)
      && StrictlySorted(r)
      && Interpolates(buffer, r)
  }

  /** What the resampling loop has established after walking buffer[..j] (j >= 1). */
  ghost predicate EmittedUpTo(buffer: seq<Entry>, step: real, r: seq<Entry>, j: nat)
    requires StrictlySorted(buffer) && 1 <= j <= |buffer|
  {
    && |r| >= 1
    && r[0] == buffer[0]
    && Gridded(r, buffer[0].0, step)
    && r[|r| - 1].0 <= buffer[j - 1].0 <= r[|r| - 1].0 + step
    && (j >= 2 ==> r[|r| - 1].0 < buffer[j - 1].0)
    && Interpolates(buffer, r)
  }

  /** Sample p lies on the line y = a * x + b. */
  predicate OnLine(a: real, b: real, p: Entry) {
    p.1 == a * p.0 + b
  }

  /** Two points of the line y = a * x + b determine that same line. */
  lemma LineThroughLine(a: real, b: real, p: Entry, q: Entry, e: real)
    requires p.0 != q.0 && OnLine(a, b, p) && OnLine(a, b, q)
    ensures Line(p, q, e) == a * e + b
  {
    var d := q.0 - p.0;
    assert q.1 - p.1 == a * d;
    assert (q.1 - p.1) / d == a;
  }

  /** The sample the inner loop emits at energy e lies on its line. */
  lemma OnLineAt(a: real, b: real, e: real)
    ensures OnLine(a, b, (e, a * e + b))
  {
  }

  /** With step > 0, (n - 1) * step < m * step <= n * step pins n down to m. */
  lemma CountFromBounds(n: int, m: int, step: real)
    requires step > 0.0
    requires (n - 1) as real * step < m as real * step <= n as real * step
    ensures n == m
  {
    assert (m - n) as real * step <= 0.0;
    assert (n - 1 - m) as real * step < 0.0;
  }

  /** The last grid sample below `last` and within one step of it has index m - 1. */
  lemma GridCount(n: int, m: int, step: real, base: real, x: real, last: real)
    requires step > 0.0
    requires x == base + (n - 1) as real * step && last == base + m as real * step
    requires x < last <= x + step
    ensures n == m
  {
    assert (n - 1) as real * step + step == n as real * step;
    CountFromBounds(n, m, step);
  }

  /**
    `Tools::ApplyFineBinning`: load the (energy, index) samples into an ordered map
    (later duplicates overwrite earlier ones), then walk the map and emit equidistant
    samples, interpolating from the LAST EMITTED sample towards each map sample.
    The loops use exact arithmetic; the source steps a double by `e += step`.
   */
  method ApplyFineBinning(input: seq<Entry>, nbins: nat) returns (ret: seq<Entry>)
    ensures FinelyBinned(Buffer(input), nbins, ret)
  {
    var buffer := LoadBuffer(input);
    ret := [];
    if |buffer| < 2 || nbins < 2 {
      return;
    }
    var from := buffer[0].0;
    var to := buffer[|buffer| - 1].0;
    var step := (to - from) / nbins as real;
    GridSpan(from, to, nbins, step);
    ret := Resample(buffer, nbins, step);
  }

  /**
    The loading loop of ApplyFineBinning: insert every sample into the ordered map,
    a later sample overwriting an earlier one of the same energy.
   */
  method LoadBuffer(input: seq<Entry>) returns (buffer: seq<Entry>)
    ensures buffer == Buffer(input)
  {
    buffer := [];
    for i := 0 to |input|
      invariant buffer == Buffer(input[..i])
    {
      assert input[..i + 1][..i] == input[..i];
      buffer := Insert(buffer, input[i].0, input[i].1);
    }
    assert input[..|input|] == input;
  }

  /**
    The resampling loop of ApplyFineBinning over the ordered, de-duplicated samples:
    the first sample is emitted as is, every later one closes a bracket.
   */
  method Resample(buffer: seq<Entry>, nbins: nat, step: real) returns (ret: seq<Entry>)
    requires StrictlySorted(buffer) && |buffer| >= 2 && nbins >= 2 && step > 0.0
    requires buffer[|buffer| - 1].0 == buffer[0].0 + nbins as real * step
    ensures FinelyBinned(buffer, nbins, ret)
  {
    ret := [];
    for j := 0 to |buffer|
      invariant j == 0 ==> ret == []
      invariant j > 0 ==> EmittedUpTo(buffer, step, ret, j)
    {
      if |ret| == 0 {
        ret := ret + [buffer[j]];
        EmittedFirst(buffer, step);
      } else {
        ret := EmitBracket(buffer, j, step, ret, nbins);
      }
    }
    EmittedAll(buffer, nbins, step, ret);
  }

  /** The resampling step divides the energy span into `nbins` equal parts. */
  lemma GridSpan(from: real, to: real, nbins: nat, step: real)
    requires nbins >= 1 && from < to && step == (to - from) / nbins as real
    ensures step > 0.0 && to == from + nbins as real * step
  {
  }

  /** The grid span fixes the step: (to - from) / nbins == step. */
  lemma StepOfSpan(from: real, to: real, nbins: nat, step: real)
    requires nbins >= 1 && to == from + nbins as real * step
    ensures (to - from) / nbins as real == step
  {
    assert to - from == step * nbins as real;
  }

  /** After the first bracket the only emitted sample is the first buffer sample. */
  lemma EmittedFirst(buffer: seq<Entry>, step: real)
    requires StrictlySorted(buffer) && |buffer| >= 1 && step > 0.0
    ensures EmittedUpTo(buffer, step, [buffer[0]], 1)
  {
  }

  /** Once every bracket is walked, exactly `nbins` samples were emitted. */
  lemma EmittedAll(buffer: seq<Entry>, nbins: nat, step: real, r: seq<Entry>)
    requires StrictlySorted(buffer) && |buffer| >= 2 && nbins >= 2 && step > 0.0
    requires buffer[|buffer| - 1].0 == buffer[0].0 + nbins as real * step
    requires EmittedUpTo(buffer, step, r, |buffer|)
    ensures FinelyBinned(buffer, nbins, r)
  {
    var from := buffer[0].0;
    var to := buffer[|buffer| - 1].0;
    StepOfSpan(from, to, nbins, step);
    var n := |r|;
    GriddedOnGrid(r, from, step);
    GridCount(n, nbins, step, from, r[n - 1].0, to);
  }

  /**
    One pass of the inner loop of ApplyFineBinning: compute the line from the last
    emitted sample to buffer[j], then emit samples on it every `step` while they stay
    below the energy of buffer[j].
   */
  method EmitBracket(buffer: seq<Entry>, j: nat, step: real, ret: seq<Entry>, ghost nbins: nat) returns (out: seq<Entry>)
    requires StrictlySorted(buffer) && 1 <= j < |buffer| && step > 0.0
    requires buffer[|buffer| - 1].0 == buffer[0].0 + nbins as real * step
    requires EmittedUpTo(buffer, step, ret, j)
    ensures EmittedUpTo(buffer, step, out, j + 1)
    ensures |out| >= |ret| && out[..|ret|] == ret
  {
    var prev := ret[|ret| - 1];
    var next := buffer[j];
    var a := (next.1 - prev.1) / (next.0 - prev.0);
    var b := prev.1 - a * prev.0;
    SlopeIntercept(prev, next, a, b);
    out := EmitAlong(buffer, j, step, ret, a, b, nbins);
  }

  /** The emitting loop of EmitBracket, along the line y = a * x + b. */
  method EmitAlong(buffer: seq<Entry>, j: nat, step: real, ret: seq<Entry>, a: real, b: real, ghost nbins: nat)
    returns (out: seq<Entry>)
    requires StrictlySorted(buffer) && 1 <= j < |buffer| && step > 0.0
    requires buffer[|buffer| - 1].0 == buffer[0].0 + nbins as real * step
    requires EmittedUpTo(buffer, step, ret, j)
    requires OnLine(a, b, ret[|ret| - 1]) && OnLine(a, b, buffer[j])
    ensures EmittedUpTo(buffer, step, out, j + 1)
    ensures |out| >= |ret| && out[..|ret|] == ret
  {
    var from := buffer[0].0;
    var e1 := buffer[j].0;
    out := ret;
    var e := ret[|ret| - 1].0 + step;
    while e < e1
      invariant |out| >= |ret| && out[..|ret|] == ret
      invariant e == out[|out| - 1].0 + step
      invariant OnLine(a, b, out[|out| - 1])
      invariant buffer[j - 1].0 <= e
      invariant out[|out| - 1].0 < e1
      invariant out[0] == buffer[0]
      invariant Gridded(out, from, step)
      invariant Interpolates(buffer, out)
      decreases nbins - |out|
    {
      BelowEnd(buffer, step, out, nbins, e1);
      var qe := a * e + b;
      LineThroughLine(a, b, out[|out| - 1], buffer[j], e);
      PushInterpolated(buffer, j, out, e, qe);
      PushGridded(out, from, step, e, qe);
      OnLineAt(a, b, e);
      ghost var old_out := out;
      out := out + [(e, qe)];
      assert out[..|ret|] == old_out[..|ret|];
      e := e + step;
    }
  }

  /** The source's slope and intercept reproduce both end points. */
  lemma SlopeIntercept(p: Entry, q: Entry, a: real, b: real)
    requires p.0 != q.0 && a == (q.1 - p.1) / (q.0 - p.0) && b == p.1 - a * p.0
    ensures OnLine(a, b, p) && OnLine(a, b, q)
  {
    assert a * (q.0 - p.0) == q.1 - p.1;
  }

  /** A grid sample below the last buffer energy has index below `nbins`. */
  lemma BelowEnd(buffer: seq<Entry>, step: real, r: seq<Entry>, nbins: nat, e1: real)
    requires |buffer| >= 1 && |r| >= 1 && step > 0.0
    requires r[|r| - 1].0 == buffer[0].0 + (|r| - 1) as real * step
    requires r[|r| - 1].0 < e1 <= buffer[|buffer| - 1].0 == buffer[0].0 + nbins as real * step
    ensures |r| <= nbins
  {
    assert (|r| - 1) as real * step < nbins as real * step;
    MulLess(|r| - 1, nbins, step);
  }

  /** Multiplying by a positive factor preserves strict order of integers. */
  lemma MulLess(x: int, y: int, step: real)
    requires step > 0.0 && x as real * step < y as real * step
    ensures x < y
  {
    assert (y - x) as real * step > 0.0;
  }

  /** Appending a point of bracket j on the line from the last sample keeps Interpolates. */
  lemma PushInterpolated(buffer: seq<Entry>, j: nat, ret: seq<Entry>, e: real, q: real)
    requires StrictlySorted(buffer) && InBracket(buffer, j, e)
    requires |ret| >= 1 && ret[|ret| - 1].0 < e
    requires q == Line(ret[|ret| - 1], buffer[j], e)
    requires Interpolates(buffer, ret)
    ensures Interpolates(buffer, ret + [(e, q)])
  {
    var r := ret + [(e, q)];
    assert r[..|r| - 1] == ret;
    forall i | InBracket(buffer, i, e)
      ensures ret[|ret| - 1].0 < e && q == Line(ret[|ret| - 1], buffer[i], e)
    {
      BracketUnique(buffer, i, j, e);
    }
  }

  /** Appending the next grid energy keeps a sample sequence on the grid. */
  lemma PushGridded(r: seq<Entry>, from: real, step: real, e: real, q: real)
    requires |r| >= 1 && Gridded(r, from, step) && e == r[|r| - 1].0 + step
    ensures Gridded(r + [(e, q)], from, step)
  {
    assert (|r| - 1) as real * step + step == |r| as real * step;
    assert (r + [(e, q)])[..|r|] == r;
  }

  /** An energy falls into at most one bracket [s[i-1].0, s[i].0) of a sorted table. */
  lemma BracketUnique(s: seq<Entry>, i: nat, j: nat, e: real)
    requires StrictlySorted(s) && InBracket(s, i, e) && InBracket(s, j, e)
    ensures i == j
  {
  }

  // ---------------------------------------------------------------------------
  // What the resampled table is, in terms of the input samples

  /** The grid a non-empty FinelyBinned result lies on, named. */
  lemma FinelyBinnedGrid(buffer: seq<Entry>, nbins: nat, r: seq<Entry>) returns (from: real, to: real, step: real)
    requires StrictlySorted(buffer) && |buffer| >= 2 && nbins >= 2 && FinelyBinned(buffer, nbins, r)
    ensures from == buffer[0].0 && to == buffer[|buffer| - 1].0 && from < to
    ensures step == (buffer[|buffer| - 1].0 - buffer[0].0) / nbins as real && step > 0.0
    ensures |r| == nbins && r[0] == buffer[0] && OnGrid(r, from, step) && Interpolates(buffer, r)
    ensures forall k :: 0 <= k < |r| ==> from <= r[k].0 < to
  {
    from := buffer[0].0;
    to := buffer[|buffer| - 1].0;
    step := (to - from) / nbins as real;
    GridSpan(from, to, nbins, step);
    GridRange(r, from, to, nbins, step);
  }

  /** A grid of nbins points from `from` stays in [from, to). */
  lemma GridRange(r: seq<Entry>, from: real, to: real, nbins: nat, step: real)
    requires nbins >= 1 && from < to && step == (to - from) / nbins as real
    requires |r| == nbins && OnGrid(r, from, step)
    ensures forall k :: 0 <= k < |r| ==> from <= r[k].0 < to
  {
    forall k | 0 <= k < |r| ensures from <= r[k].0 < to {
      GridBelowEnd(from, to, nbins, step, k);
    }
  }

  /**
    The result is empty exactly when the input has fewer than two distinct
    energies or fewer than two bins are asked for.
   */
  lemma ResampledEmpty(input: seq<Entry>, nbins: nat, r: seq<Entry>)
    requires FinelyBinned(Buffer(input), nbins, r)
    ensures r == [] <==> |Keys(input)| < 2 || nbins < 2
  {
    BufferKeys(input);
  }

  /**
    A non-empty result starts with an input sample of the smallest input energy,
    namely the last input sample with that energy (later duplicates win).
   */
  lemma ResampledFirst(input: seq<Entry>, nbins: nat, r: seq<Entry>)
    requires FinelyBinned(Buffer(input), nbins, r) && r != []
    ensures forall j :: 0 <= j < |input| ==> r[0].0 <= input[j].0
    ensures exists j :: (0 <= j < |input| && input[j] == r[0] &&
      forall j' :: j < j' < |input| ==> input[j'].0 != r[0].0)
  {
    var top := BufferBounds(input);
    BufferHead(input);
  }

  /**
    The largest input energy is never emitted: every output energy lies strictly
    below it, although the grid has room for one more point there. `top` is an
    input position carrying that largest energy.
   */
  lemma ResampledBelowLargest(input: seq<Entry>, nbins: nat, r: seq<Entry>) returns (top: nat)
    requires FinelyBinned(Buffer(input), nbins, r) && r != []
    ensures top < |input|
    ensures forall j :: 0 <= j < |input| ==> input[j].0 <= input[top].0
    ensures forall k :: 0 <= k < |r| ==> r[k].0 < input[top].0
  {
    ResampledNonEmpty(Buffer(input), nbins, r);
    top := BufferBounds(input);
    ResampledBelow(Buffer(input), nbins, r, input[top].0);
  }

  /** A non-empty result comes from at least two buffer samples. */
  lemma ResampledNonEmpty(buffer: seq<Entry>, nbins: nat, r: seq<Entry>)
    requires StrictlySorted(buffer) && FinelyBinned(buffer, nbins, r) && r != []
    ensures |buffer| >= 2 && nbins >= 2
  {
  }

  /** Every output energy lies below the last buffer energy `bound`. */
  lemma ResampledBelow(buffer: seq<Entry>, nbins: nat, r: seq<Entry>, bound: real)
    requires StrictlySorted(buffer) && FinelyBinned(buffer, nbins, r) && r != []
    requires |buffer| >= 2 && bound == buffer[|buffer| - 1].0
    ensures forall k :: 0 <= k < |r| ==> r[k].0 < bound
  {
    var from, to, step := FinelyBinnedGrid(buffer, nbins, r);
  }

  /** Consecutive output energies are exactly one step apart. */
  lemma ResampledStep(buffer: seq<Entry>, nbins: nat, r: seq<Entry>, step: real)
    requires StrictlySorted(buffer) && FinelyBinned(buffer, nbins, r) && r != []
    requires step == (buffer[|buffer| - 1].0 - buffer[0].0) / nbins as real
    ensures step > 0.0
    ensures forall k :: 1 <= k < |r| ==> r[k].0 - r[k - 1].0 == step
  {
    var from, to, step' := FinelyBinnedGrid(buffer, nbins, r);
    GridSteps(r, from, step);
  }

  /** Points on a grid are one step apart. */
  lemma GridSteps(r: seq<Entry>, from: real, step: real)
    requires OnGrid(r, from, step)
    ensures forall k :: 1 <= k < |r| ==> r[k].0 - r[k - 1].0 == step
  {
    forall k | 1 <= k < |r| ensures r[k].0 - r[k - 1].0 == step {
      assert r[k].0 == from + k as real * step;
      assert r[k - 1].0 == from + (k - 1) as real * step;
      Distribute((k - 1) as real, 0.0, step);
    }
  }

  /** The grid point of index k < nbins lies in [from, to). */
  lemma GridBelowEnd(from: real, to: real, nbins: nat, step: real, k: nat)
    requires nbins >= 1 && from < to && step == (to - from) / nbins as real && k < nbins
    ensures from <= from + k as real * step < to
  {
    GridSpan(from, to, nbins, step);
    MulLe(0.0, k as real, step);
    MulLt(k as real, nbins as real, step);
  }

  /** An energy within the span of a sorted table falls into one of its brackets. */
  lemma {:induction false} BracketOf(buffer: seq<Entry>, e: real) returns (i: nat)
    requires StrictlySorted(buffer) && |buffer| >= 2
    requires buffer[0].0 <= e < buffer[|buffer| - 1].0
    ensures InBracket(buffer, i, e)
    decreases |buffer|
  {
    var n := |buffer|;
    if buffer[n - 2].0 <= e {
      i := n - 1;
    } else {
      var front := buffer[..n - 1];
      assert front[0] == buffer[0] && front[n - 2] == buffer[n - 2];
      i := BracketOf(front, e);
      assert front[i - 1] == buffer[i - 1] && front[i] == buffer[i];
    }
  }

  /**
    FinelyBinned pins the result down completely: two results for the same buffer
    and bin count are equal. So ApplyFineBinning's contract is its full meaning.
   */
  lemma ResampledUnique(buffer: seq<Entry>, nbins: nat, r1: seq<Entry>, r2: seq<Entry>)
    requires StrictlySorted(buffer) && FinelyBinned(buffer, nbins, r1) && FinelyBinned(buffer, nbins, r2)
    ensures r1 == r2
  {
    if |buffer| >= 2 && nbins >= 2 {
      var from, to, step := FinelyBinnedGrid(buffer, nbins, r1);
      var from', to', step' := FinelyBinnedGrid(buffer, nbins, r2);
      forall k | 0 <= k < nbins ensures r1[k] == r2[k] {
        SameSampleAt(buffer, r1, r2, from, step, k);
      }
    }
  }

  /** Two grid samplings interpolated on the same buffer agree up to any index. */
  lemma {:induction false} SameSampleAt(buffer: seq<Entry>, r1: seq<Entry>, r2: seq<Entry>, from: real, step: real, k: nat)
    requires StrictlySorted(buffer) && |buffer| >= 2
    requires |r1| == |r2| && k < |r1| && r1[0] == r2[0]
    requires OnGrid(r1, from, step) && OnGrid(r2, from, step)
    requires Interpolates(buffer, r1) && Interpolates(buffer, r2)
    requires forall j :: 0 <= j < |r1| ==> buffer[0].0 <= r1[j].0 < buffer[|buffer| - 1].0
    ensures r1[k] == r2[k]
  {
    if k > 0 {
      SameSampleAt(buffer, r1, r2, from, step, k - 1);
      assert r1[k].0 == from + k as real * step == r2[k].0;
      SameNextSample(buffer, r1, r2, k);
    }
  }

  /** Samples at the same energy, interpolated from the same predecessor, are equal. */
  lemma SameNextSample(buffer: seq<Entry>, r1: seq<Entry>, r2: seq<Entry>, k: nat)
    requires StrictlySorted(buffer) && |buffer| >= 2
    requires 1 <= k < |r1| && k < |r2| && r1[k - 1] == r2[k - 1] && r1[k].0 == r2[k].0
    requires Interpolates(buffer, r1) && Interpolates(buffer, r2)
    requires buffer[0].0 <= r1[k].0 < buffer[|buffer| - 1].0
    ensures r1[k] == r2[k]
  {
    var i := BracketOf(buffer, r1[k].0);
    InterpolatesAt(buffer, r1, k, i);
    InterpolatesAt(buffer, r2, k, i);
  }

  // ---------------------------------------------------------------------------
  // Constant-time lookup in a finely binned table

  /**
    The bin `GetFinelyBinnedTableEntry` reads for `argument`: the energy range of
    the table is cut into |table| - 1 equal steps and the bin is
    floor((argument - emin) / step). There is no bin when the table has fewer than
    two entries, when the index falls outside [0, |table|), and when the first and
    last energies coincide (the step is zero and the division has no value).
   */
  function FineBin(table: seq<Entry>, argument: real): (bin: Option<nat>)
    ensures bin.Some? ==> 2 <= |table| && bin.value < |table|
  {
    if |table| < 2 then None
    else
      var emin := table[0].0;
      var emax := table[|table| - 1].0;
      if emax == emin then None
      else
        var step := (emax - emin) / (|table| - 1) as real;
        var ibin := ((argument - emin) / step).Floor;
        if ibin < 0 || ibin >= |table| then None else Some(ibin)
  }

  /**
    The out-parameter form of FineBin: returns whether a bin exists and, if so, the
    value stored in it; when there is none, the caller's value `entry0` is handed back
    untouched (the C++ leaves `*entry` unwritten).
   */
  method GetFinelyBinnedTableEntry(table: seq<Entry>, argument: real, entry0: real)
    returns (found: bool, entry: real)
    ensures found <==> FineBin(table, argument).Some?
    ensures found ==> entry == table[FineBin(table, argument).value].1
    ensures !found ==> entry == entry0
  {
    entry := entry0;
    var dim := |table|;
    if dim < 2 {
      return false, entry;
    }
    var emin := table[0].0;
    var emax := table[dim - 1].0;
    if emax == emin {
      return false, entry;
    }
    var step := (emax - emin) / (dim - 1) as real;
    var ibin := ((argument - emin) / step).Floor;
    if ibin < 0 || ibin >= dim {
      return false, entry;
    }
    entry := table[ibin].1;
    found := true;
  }

  /**
    For a table whose energies rise from first to last, bin i is chosen exactly
    for the arguments in the half-open cell [emin + i * step, emin + (i + 1) * step).
   */
  lemma FineBinCell(table: seq<Entry>, x: real, step: real, i: nat)
    requires |table| >= 2 && table[0].0 < table[|table| - 1].0
    requires step == (table[|table| - 1].0 - table[0].0) / (|table| - 1) as real
    ensures step > 0.0
    ensures FineBin(table, x) == Some(i) <==>
      i < |table| && table[0].0 + i as real * step <= x < table[0].0 + i as real * step + step
  {
    FloorOfScaled(x - table[0].0, step, i);
  }

  /**
    For a table whose energies rise from first to last, the lookup succeeds exactly
    on [emin, emax + step): one step beyond the last energy still reads the last
    entry.
   */
  lemma FineBinRange(table: seq<Entry>, x: real, step: real)
    requires |table| >= 2 && table[0].0 < table[|table| - 1].0
    requires step == (table[|table| - 1].0 - table[0].0) / (|table| - 1) as real
    ensures step > 0.0
    ensures FineBin(table, x).Some? <==> table[0].0 <= x < table[|table| - 1].0 + step
    ensures table[|table| - 1].0 <= x < table[|table| - 1].0 + step ==> FineBin(table, x) == Some(|table| - 1)
  {
    var n := |table|;
    var emin := table[0].0;
    var d := x - emin;
    var f := (d / step).Floor;
    FloorOfScaled(d, step, f);
    GridSpan(emin, table[n - 1].0, n - 1, step);
    CellBelow(d, step, f, 0);
    CellBelow(d, step, f, n);
    Distribute((n - 1) as real, 0.0, step);
    FineBinCell(table, x, step, n - 1);
  }

  /**
    Looking up a table produced by ApplyFineBinning: the lookup succeeds exactly
    for arguments in [from, to), the energy span of the distinct input samples, and
    then reads the grid sample at or below the argument, the next grid sample (if
    any) lying above it.
   */
  lemma RebinnedLookup(buffer: seq<Entry>, nbins: nat, r: seq<Entry>, x: real)
    requires StrictlySorted(buffer) && FinelyBinned(buffer, nbins, r)
    ensures FineBin(r, x).Some? <==>
      |buffer| >= 2 && nbins >= 2 && buffer[0].0 <= x < buffer[|buffer| - 1].0
    ensures FineBin(r, x).Some? ==>
      var i := FineBin(r, x).value;
      r[i].0 <= x && (i + 1 < |r| ==> x < r[i + 1].0)
  {
    if |buffer| >= 2 && nbins >= 2 {
      var step := (buffer[|buffer| - 1].0 - buffer[0].0) / nbins as real;
      GridLookup(buffer[0].0, buffer[|buffer| - 1].0, nbins, step, r, x);
    }
  }

  /** RebinnedLookup on the grid from, from + step, ..., to - step. */
  lemma GridLookup(from: real, to: real, nbins: nat, step: real, r: seq<Entry>, x: real)
    requires nbins >= 2 && from < to && step == (to - from) / nbins as real
    requires |r| == nbins && OnGrid(r, from, step)
    ensures FineBin(r, x).Some? <==> from <= x < to
    ensures FineBin(r, x).Some? ==>
      var i := FineBin(r, x).value;
      r[i].0 <= x && (i + 1 < |r| ==> x < r[i + 1].0)
  {
    GridSpan(from, to, nbins, step);
    var last := r[nbins - 1].0;
    assert r[0].0 == from;
    assert last == from + (nbins - 1) as real * step;
    StepOfSpan(from, last, nbins - 1, step);
    Distribute((nbins - 1) as real, 0.0, step);
    MulLt(0.0, (nbins - 1) as real, step);
    FineBinRange(r, x, step);
    if FineBin(r, x).Some? {
      var i := FineBin(r, x).value;
      FineBinCell(r, x, step, i);
      if i + 1 < |r| {
        assert r[i + 1].0 == from + (i + 1) as real * step;
        Distribute(i as real, 0.0, step);
      }
    }
  }

  /** The cell [i * step, i * step + step) holding d lies below n * step iff i < n. */
  lemma CellBelow(d: real, step: real, i: int, n: int)
    requires step > 0.0 && i as real * step <= d < i as real * step + step
    ensures i < n <==> d < n as real * step
  {
    var ir := i as real;
    var nr := n as real;
    MulSign(nr - ir - 1.0, step);
    MulSign(ir - nr, step);
    Distribute(nr, ir + 1.0, step);
    Distribute(ir, 0.0, step);
    Distribute(ir, nr, step);
  }

  /** floor(d / step) is the index of the step-wide cell that holds d. */
  lemma FloorOfScaled(d: real, step: real, i: int)
    requires step > 0.0
    ensures (d / step).Floor == i <==> i as real * step <= d < i as real * step + step
  {
    FloorBounds(d, step, d / step);
    if i as real * step <= d < i as real * step + step {
      FloorUnique(d, step, i);
    }
  }

  lemma FloorBounds(d: real, step: real, y: real)
    requires step > 0.0 && y == d / step
    ensures y.Floor as real * step <= d < y.Floor as real * step + step
  {
    var fr := y.Floor as real;
    DivMul(d, step, y);
    CellLower(d, step, y, fr);
    CellUpper(d, step, y, fr);
  }

  /** The lower cell bound of d = y * step for fr <= y. */
  lemma CellLower(d: real, step: real, y: real, fr: real)
    requires step > 0.0 && fr <= y && y * step == d
    ensures fr * step <= d
  {
    MulLe(fr, y, step);
  }

  /** The upper cell bound of d = y * step for y < fr + 1. */
  lemma CellUpper(d: real, step: real, y: real, fr: real)
    requires step > 0.0 && y < fr + 1.0 && y * step == d
    ensures d < fr * step + step
  {
    MulLt(y, fr + 1.0, step);
    StepUp(fr, step);
  }

  lemma FloorUnique(d: real, step: real, i: int)
    requires step > 0.0 && i as real * step <= d < i as real * step + step
    ensures (d / step).Floor == i
  {
    var y := d / step;
    var ir := i as real;
    DivMul(d, step, y);
    Distribute(ir, 0.0, step);
    MulLeInv(ir, y, step);
    MulLtInv(y, ir + 1.0, step);
  }

  lemma MulLe(u: real, v: real, step: real)
    requires step > 0.0 && u <= v
    ensures u * step <= v * step
  {
    MulSign(v - u, step);
    Distribute(v, u, step);
  }

  lemma MulLt(u: real, v: real, step: real)
    requires step > 0.0 && u < v
    ensures u * step < v * step
  {
    MulSign(v - u, step);
    Distribute(v, u, step);
  }

  lemma MulLeInv(u: real, v: real, step: real)
    requires step > 0.0 && u * step <= v * step
    ensures u <= v
  {
    MulSign(u - v, step);
    Distribute(u, v, step);
  }

  lemma MulLtInv(u: real, v: real, step: real)
    requires step > 0.0 && u * step < v * step
    ensures u < v
  {
    MulSign(u - v, step);
    Distribute(u, v, step);
  }

  lemma DivMul(d: real, step: real, y: real)
    requires step > 0.0 && y == d / step
    ensures y * step == d
  {
  }

  lemma MulSign(a: real, b: real)
    requires b > 0.0
    ensures a > 0.0 ==> a * b > 0.0
    ensures a >= 0.0 ==> a * b >= 0.0
    ensures a < 0.0 ==> a * b < 0.0
  {
  }

  lemma StepUp(u: real, step: real)
    ensures (u + 1.0) * step == u * step + step
  {
  }

  lemma Distribute(u: real, v: real, step: real)
    ensures (u - v) * step == u * step - v * step
    ensures (u + 1.0) * step == u * step + step
  {
  }
}
