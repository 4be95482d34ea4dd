/**
  The `std::map<double, double>` that `Tools::ApplyFineBinning` fills before it
  resamples: a sequence of (key, value) pairs kept in strictly increasing key
  order, so that walking the sequence is walking the map in key order.
 */
module SortedMap {

  /** One (photon energy, refractive index) sample. */
  type Entry = (real, real)

  /** Keys strictly increase along the sequence (hence they are distinct). */
  predicate StrictlySorted(s: seq<Entry>) {
    forall i, j :: 0 <= i < j < |s| ==> s[i].0 < s[j].0
  }

  /** The keys present in the sequence. */
  function Keys(s: seq<Entry>): set<real> {
    set i | 0 <= i < |s| :: s[i].0
  }

  lemma KeysCons(s: seq<Entry>)
    requires s != []
    ensures Keys(s) == {s[0].0} + Keys(s[1..])
  {
    forall x | x in Keys(s) ensures x in {s[0].0} + Keys(s[1..]) {
      var i :| 0 <= i < |s| && s[i].0 == x;
      if i > 0 { assert s[1..][i - 1].0 == x; }
    }
    forall x | x in Keys(s[1..]) ensures x in Keys(s) {
      var i :| 0 <= i < |s[1..]| && s[1..][i].0 == x;
      assert s[i + 1].0 == x;
    }
  }

  /** The key/value association the sequence stands for. */
  function AsMap(s: seq<Entry>): map<real, real> {
    if s == [] then map[] else AsMap(s[1..])[s[0].0 := s[0].1]
  }

  /** The map's keys are the sequence's keys. */
  lemma {:induction false} AsMapKeys(s: seq<Entry>)
    ensures AsMap(s).Keys == Keys(s)
  {
    if s == [] {
      assert Keys(s) == {};
    } else {
      KeysCons(s);
      AsMapKeys(s[1..]);
    }
  }

  /** In a sorted sequence every pair is what the map associates with its key. */
  lemma {:induction false} AsMapAt(s: seq<Entry>, i: nat)
    requires StrictlySorted(s) && i < |s|
    ensures s[i].0 in AsMap(s) && AsMap(s)[s[i].0] == s[i].1
  {
    if i > 0 {
      AsMapAt(s[1..], i - 1);
    }
  }

  /** Putting a smaller key in front of a sorted sequence keeps it sorted. */
  lemma SortedCons(x: Entry, rest: seq<Entry>)
    requires StrictlySorted(rest)
    requires forall j :: 0 <= j < |rest| ==> x.0 < rest[j].0
    ensures StrictlySorted([x] + rest)
  {
    var r := [x] + rest;
    forall i, j | 0 <= i < j < |r| ensures r[i].0 < r[j].0 {
      assert r[j] == rest[j - 1];
      if i > 0 { assert r[i] == rest[i - 1]; }
    }
  }

  /**
    `buffer[k] = v`: insert a new key in its place, or overwrite the value of an
    existing one. The result stays sorted and starts with the smaller of k and the
    old first key.
   */
  function Insert(s: seq<Entry>, k: real, v: real): (r: seq<Entry>)
    requires StrictlySorted(s)
    ensures StrictlySorted(r) && r != []
    ensures r[0].0 == if s != [] && s[0].0 < k then s[0].0 else k
  {
    if s == [] then
      [(k, v)]
    else if k < s[0].0 then
      SortedCons((k, v), s);
      [(k, v)] + s
    else if k == s[0].0 then
      assert forall j :: 0 <= j < |s[1..]| ==> s[1..][j] == s[j + 1];
      SortedCons((k, v), s[1..]);
      [(k, v)] + s[1..]
    else
      var rest := Insert(s[1..], k, v);
      assert forall j :: 0 <= j < |rest| ==> rest[0].0 <= rest[j].0;
      SortedCons(s[0], rest);
      [s[0]] + rest
  }

  /** Inserting updates exactly the inserted key of the map. */
  lemma {:induction false} InsertAsMap(s: seq<Entry>, k: real, v: real)
    requires StrictlySorted(s)
    ensures AsMap(Insert(s, k, v)) == AsMap(s)[k := v]
  {
    if s == [] {
    } else if k < s[0].0 {
      assert ([(k, v)] + s)[1..] == s;
    } else if k == s[0].0 {
      OverwriteHeadAsMap(s, v);
    } else {
      InsertAsMap(s[1..], k, v);
      InsertBehindHeadAsMap(s, k, v);
    }
  }

  lemma OverwriteHeadAsMap(s: seq<Entry>, v: real)
    requires StrictlySorted(s) && s != []
    ensures AsMap(Insert(s, s[0].0, v)) == AsMap(s)[s[0].0 := v]
  {
    var r := [(s[0].0, v)] + s[1..];
    assert Insert(s, s[0].0, v) == r;
    assert r[1..] == s[1..];
  }

  lemma InsertBehindHeadAsMap(s: seq<Entry>, k: real, v: real)
    requires StrictlySorted(s) && s != [] && s[0].0 < k
    requires AsMap(Insert(s[1..], k, v)) == AsMap(s[1..])[k := v]
    ensures AsMap(Insert(s, k, v)) == AsMap(s)[k := v]
  {
    var rest := Insert(s[1..], k, v);
    var r := [s[0]] + rest;
    var m := AsMap(s[1..]);
    calc {
      AsMap(Insert(s, k, v));
      AsMap(r);
      { assert r[1..] == rest; }
      AsMap(rest)[s[0].0 := s[0].1];
      m[k := v][s[0].0 := s[0].1];
      { MapUpdatesCommute(m, k, v, s[0].0, s[0].1); }
      m[s[0].0 := s[0].1][k := v];
      AsMap(s)[k := v];
    }
  }

  lemma MapUpdatesCommute(m: map<real, real>, k1: real, v1: real, k2: real, v2: real)
    requires k1 != k2
    ensures m[k1 := v1][k2 := v2] == m[k2 := v2][k1 := v1]
  {
  }

  /** The map after `buffer[e] = q` for every input pair, in input order: later pairs win. */
  function LastWins(input: seq<Entry>): map<real, real> {
    if input == [] then map[] else LastWins(input[..|input| - 1])[input[|input| - 1].0 := input[|input| - 1].1]
  }

  /** The sorted buffer after filling it with every input pair, in input order. */
  function Buffer(input: seq<Entry>): (r: seq<Entry>)
    ensures StrictlySorted(r)
  {
    if input == [] then []
    else Insert(Buffer(input[..|input| - 1]), input[|input| - 1].0, input[|input| - 1].1)
  }

  /** The buffer stands for the last-wins map of the input. */
  lemma {:induction false} BufferAsMap(input: seq<Entry>)
    ensures AsMap(Buffer(input)) == LastWins(input)
  {
    if input != [] {
      var n := |input| - 1;
      BufferAsMap(input[..n]);
      InsertAsMap(Buffer(input[..n]), input[n].0, input[n].1);
    }
  }

  /** Duplicate energies collapse: the keys of the buffer are the input keys. */
  lemma {:induction false} LastWinsKeys(input: seq<Entry>, k: real)
    ensures k in LastWins(input) <==> exists j :: 0 <= j < |input| && input[j].0 == k
  {
    if input != [] {
      var n := |input| - 1;
      var front := input[..n];
      LastWinsKeys(front, k);
      if k in LastWins(input) && input[n].0 != k {
        var j :| 0 <= j < |front| && front[j].0 == k;
        assert input[j] == front[j];
      }
      if exists j :: 0 <= j < |input| && input[j].0 == k {
        var j :| 0 <= j < |input| && input[j].0 == k;
        if j < n {
          assert front[j] == input[j];
        }
      }
    }
  }

  /** The value kept for a key is the one of the LAST input pair with that key. */
  lemma {:induction false} LastWinsIsLastOccurrence(input: seq<Entry>, k: real)
    requires k in LastWins(input)
    ensures exists j :: (0 <= j < |input| && input[j] == (k, LastWins(input)[k]) &&
      forall j' :: j < j' < |input| ==> input[j'].0 != k)
  {
    var n := |input| - 1;
    var front := input[..n];
    if input[n].0 == k {
      assert input[n] == (k, LastWins(input)[k]);
    } else {
      LastWinsIsLastOccurrence(front, k);
      var j :| 0 <= j < |front| && front[j] == (k, LastWins(front)[k]) &&
        forall j' :: j < j' < |front| ==> front[j'].0 != k;
      assert input[j] == (k, LastWins(input)[k]);
      assert forall j' :: j < j' < |input| ==> input[j'].0 != k by {
        forall j' | j < j' < |input| ensures input[j'].0 != k {
          if j' < n {
            assert input[j'] == front[j'];
          }
        }
      }
    }
  }

  /** A strictly sorted sequence has as many distinct keys as entries. */
  lemma {:induction false} SortedKeysCount(s: seq<Entry>)
    requires StrictlySorted(s)
    ensures |Keys(s)| == |s|
  {
    if s != [] {
      KeysCons(s);
      SortedKeysCount(s[1..]);
      assert s[0].0 !in Keys(s[1..]);
    }
  }

  /** The buffer holds exactly the distinct input energies, once each. */
  lemma BufferKeys(input: seq<Entry>)
    ensures Keys(Buffer(input)) == Keys(input)
    ensures |Buffer(input)| == |Keys(input)|
  {
    AsMapKeys(Buffer(input));
    BufferAsMap(input);
    forall k ensures k in Keys(Buffer(input)) <==> k in Keys(input) {
      LastWinsKeys(input, k);
    }
    SortedKeysCount(Buffer(input));
  }

  /**
    The buffer's first and last keys are the smallest and the largest input keys;
    `top` is an input position carrying the largest one.
   */
  lemma BufferBounds(input: seq<Entry>) returns (top: nat)
    requires Buffer(input) != []
    ensures forall j :: 0 <= j < |input| ==>
      Buffer(input)[0].0 <= input[j].0 <= Buffer(input)[|Buffer(input)| - 1].0
    ensures top < |input| && input[top].0 == Buffer(input)[|Buffer(input)| - 1].0
  {
    var buffer := Buffer(input);
    BufferKeys(input);
    forall j | 0 <= j < |input| ensures buffer[0].0 <= input[j].0 <= buffer[|buffer| - 1].0 {
      assert input[j].0 in Keys(input);
      var i :| 0 <= i < |buffer| && buffer[i].0 == input[j].0;
    }
    assert buffer[|buffer| - 1].0 in Keys(input);
    top :| 0 <= top < |input| && input[top].0 == buffer[|buffer| - 1].0;
  }

  /** The buffer's first pair is the last input pair carrying the smallest key. */
  lemma BufferHead(input: seq<Entry>)
    requires Buffer(input) != []
    ensures exists j :: (0 <= j < |input| && input[j] == Buffer(input)[0] &&
      forall j' :: j < j' < |input| ==> input[j'].0 != Buffer(input)[0].0)
  {
    var buffer := Buffer(input);
    AsMapAt(buffer, 0);
    BufferAsMap(input);
    LastWinsIsLastOccurrence(input, buffer[0].0);
  }
}
