// Properties of the configurations GabacConfiguration
// (python_api/gabac_conf_gen.py) builds: its mutable parameters, the random
// configurations and the random neighbours.
module ConfigProperties {
  import opened Configs

  // ---------------------------------------------------------------------------
  // Templates

  lemma {:induction false} ListKeysMono<K>(t: Template<K>, j: nat, n: nat)
    requires j <= n <= |t.keys|
    ensures |ListKeys(t, j)| <= |ListKeys(t, n)|
  {
    if j < n {
      ListKeysMono(t, j, n - 1);
    }
  }

  /** The template walk over available_variant[id] finds MainListKeys(id). */
  lemma MainListKeysValue(id: int)
    requires IsVariant(id)
    ensures ListKeys(VariantTemplate(id), 3) == MainListKeys(id)
  {
    var t := VariantTemplate(id);
    assert ListKeys(t, 1) == [];
    assert ListKeys(t, 2) == [];
  }

  // ---------------------------------------------------------------------------
  // Random configurations

  /** Every configuration drawn is well formed: the main keys of the
      template, num_transformed_seq[id] transformed sequences, every value
      one the templates allow. */
  lemma RandomConfigWellFormed(id: int, ds: seq<nat>)
    requires IsVariant(id) && |ds| >= ConfigDraws(id)
    ensures WellFormed(id, RandomConfig(id, ds))
    ensures |RandomConfig(id, ds).subs| == NumTransformedSeq(id)
  {
    var m := MainListKeys(id);
    assert m[..|m|] == m;
    AssignConforms(VariantTemplate(id), m, |m|, ds);
    RandomSubsConform(NumTransformedSeq(id), ds[|MainListKeys(id)|..]);
  }

  /** Draw j of a transformed sequence goes to its j-th list key, in
      template order; lut_transformation_parameter keeps its 0. */
  lemma SubDraws(ds: seq<nat>, j: nat)
    requires |ds| >= SUB_DRAWS && j < SUB_DRAWS
    ensures RandomSub(ds).Keys == SubTemplate().entries.Keys
    ensures RandomSub(ds)[SUB_LIST_KEYS[j]] == Pick(SubTemplate(), SUB_LIST_KEYS[j], ds[j])
    ensures RandomSub(ds)[LutTransformationParameter] == Int(0)
  {
    var s := SubTemplate();
    SubTemplateShape();
    SubTemplateDistinct();
    SubListKeys();
    WalkKeys(s, 6, ds);
    WalkKeeps(s, 6, ds, LutTransformationParameter);
    WalkListKey(s, 6, ds, j);
  }

  /** Transformed sequence n is drawn from its own five draws, after those
      of the main keys. */
  lemma RandomSubsAt(id: int, ds: seq<nat>, n: nat)
    requires IsVariant(id) && |ds| >= ConfigDraws(id) && n < NumTransformedSeq(id)
    ensures var m := |MainListKeys(id)|;
            RandomConfig(id, ds).subs[n] == RandomSub(ds[m + n * SUB_DRAWS..])
  {
    var m := |MainListKeys(id)|;
    RandomSubsIndex(NumTransformedSeq(id), ds[m..], n);
    assert ds[m..][n * SUB_DRAWS..] == ds[m + n * SUB_DRAWS..];
  }

  lemma {:induction false} RandomSubsIndex(count: nat, ds: seq<nat>, n: nat)
    requires |ds| >= count * SUB_DRAWS && n < count
    ensures RandomSubs(count, ds)[n] == RandomSub(ds[n * SUB_DRAWS..])
  {
    if n < count - 1 {
      RandomSubsIndex(count - 1, ds, n);
      assert RandomSubs(count, ds)[n] == RandomSubs(count - 1, ds)[n];
    }
  }

  /** binarization_parameters is stored as a one-element list holding one
      of 0 to 31. */
  lemma BinarizationParametersAsList(id: int, ds: seq<nat>, n: nat)
    requires IsVariant(id) && |ds| >= ConfigDraws(id) && n < NumTransformedSeq(id)
    ensures BinarizationParameters in RandomConfig(id, ds).subs[n]
    ensures var v := RandomConfig(id, ds).subs[n][BinarizationParameters];
            v.List? && |v.items| == 1 && v.items[0].Int? && 0 <= v.items[0].i < 32
  {
    RandomConfigWellFormed(id, ds);
    var v := RandomConfig(id, ds).subs[n][BinarizationParameters];
    assert Fits(SubTemplate(), BinarizationParameters, v);
    var choices := BinarizationParameterChoices();
    var k :| 0 <= k < |choices| && choices[k] == v.items[0];
  }

  // ---------------------------------------------------------------------------
  // Mutable parameters

  /** The parameters are exactly the list-valued main keys and, for each
      transformed sequence, the list-valued keys of its template. */
  lemma ParamsOfComplete(id: int, p: Param)
    requires IsVariant(id)
    ensures p in ParamsOf(id) <==> ValidParam(id, p)
  {
    if ValidParam(id, p) {
      match p
      case MainParam(key) =>
        assert MainParams(MainListKeys(id))[0] == p;
      case SubParam(key, idx) =>
        SubParamsHas(NumTransformedSeq(id), key, idx);
    }
  }

  lemma {:induction false} SubParamsHas(n: nat, k: SubKey, idx: nat)
    requires idx < n && k in SUB_LIST_KEYS
    ensures SubParam(k, idx) in SubParams(n)
  {
    if idx == n - 1 {
      var row := SubParamsAt(SUB_LIST_KEYS, n - 1);
      var j :| 0 <= j < |SUB_LIST_KEYS| && SUB_LIST_KEYS[j] == k;
      assert row[j] == SubParam(k, idx);
      assert SubParams(n) == SubParams(n - 1) + row;
    } else {
      SubParamsHas(n - 1, k, idx);
    }
  }

  /** Valid parameters name list-valued template keys. */
  lemma ValidParamListKey(id: int, p: Param)
    requires IsVariant(id) && ValidParam(id, p)
    ensures p.MainParam? ==> VariantTemplate(id).entries[p.key].List?
    ensures p.SubParam? ==> SubTemplate().entries[p.subKey].List?
  {
    if p.SubParam? {
      SubListKeysExact(p.subKey);
    }
  }

  // ---------------------------------------------------------------------------
  // Neighbours

  /** The retry loop gives up only when every draw repeats the current
      value. */
  lemma {:induction false} RetryNone<K>(t: Template<K>, key: K, current: Value, ds: seq<nat>)
    requires IsListKey(t, key)
    ensures Retry(t, key, current, ds).None? <==> forall j :: 0 <= j < |ds| ==> Pick(t, key, ds[j]) == current
  {
    if ds != [] {
      RetryNone(t, key, current, ds[1..]);
      assert forall j :: 0 <= j < |ds| - 1 ==> ds[1..][j] == ds[j + 1];
    }
  }

  /** A neighbour through a main parameter sets that key to the next draw,
      which the template allows, and keeps every other key and the
      transformed sequences. */
  lemma NeighborMain(id: int, conf: Config, key: MainKey, ds: seq<nat>)
    requires IsVariant(id) && WellFormed(id, conf) && ValidParam(id, MainParam(key)) && ds != []
    ensures var r := NeighborVia(id, conf, MainParam(key), ds);
            && r.Some? && r.value.subs == conf.subs
            && r.value.main.Keys == conf.main.Keys
            && r.value.main[key] == Pick(VariantTemplate(id), key, ds[0])
            && forall k :: k in conf.main && k != key ==> r.value.main[k] == conf.main[k]
  {
  }

  /** A neighbour through a transformed-sequence parameter (key, idx), when
      one comes out, gives that field a value different from its old one
      and keeps everything else. */
  lemma NeighborSub(id: int, conf: Config, key: SubKey, idx: nat, ds: seq<nat>)
    requires IsVariant(id) && WellFormed(id, conf) && ValidParam(id, SubParam(key, idx))
    ensures var r := NeighborVia(id, conf, SubParam(key, idx), ds);
            r.Some? ==>
              && idx < |conf.subs| && key in conf.subs[idx]
              && r.value.main == conf.main
              && |r.value.subs| == |conf.subs|
              && (forall j :: 0 <= j < |conf.subs| && j != idx ==> r.value.subs[j] == conf.subs[j])
              && r.value.subs[idx].Keys == conf.subs[idx].Keys
              && (forall k :: k in conf.subs[idx] && k != key ==> r.value.subs[idx][k] == conf.subs[idx][k])
              && r.value.subs[idx][key] != conf.subs[idx][key]
  {
    SubListKeysExact(key);
  }

  /** A neighbour through a transformed-sequence parameter is none exactly
      when every draw after the first repeats the current value. */
  lemma NeighborSubNone(id: int, conf: Config, key: SubKey, idx: nat, ds: seq<nat>)
    requires IsVariant(id) && WellFormed(id, conf) && ValidParam(id, SubParam(key, idx))
    ensures SubTemplate().entries[key].List? && key in conf.subs[idx]
    ensures NeighborVia(id, conf, SubParam(key, idx), ds).None? <==>
              forall j :: 0 <= j < |ds| ==> Pick(SubTemplate(), key, ds[j]) == conf.subs[idx][key]
  {
    SubListKeysExact(key);
    RetryNone(SubTemplate(), key, conf.subs[idx][key], ds);
  }

  /** A neighbour is well formed again. */
  lemma NeighborWellFormed(id: int, conf: Config, ds: seq<nat>)
    requires IsVariant(id) && WellFormed(id, conf)
    ensures Neighbor(id, conf, ds).Some? ==> WellFormed(id, Neighbor(id, conf, ds).value)
  {
    if ds != [] {
      var p := ParamsOf(id)[ds[0] % |ParamsOf(id)|];
      assert p in ParamsOf(id);
      NeighborViaWellFormed(id, conf, p, ds[1..]);
    }
  }

  lemma NeighborViaWellFormed(id: int, conf: Config, p: Param, ds: seq<nat>)
    requires IsVariant(id) && WellFormed(id, conf) && ValidParam(id, p)
    ensures NeighborVia(id, conf, p, ds).Some? ==> WellFormed(id, NeighborVia(id, conf, p, ds).value)
  {
    var r := NeighborVia(id, conf, p, ds);
    if r.Some? {
      match p
      case MainParam(key) =>
        NeighborMain(id, conf, key, ds);
      case SubParam(key, idx) =>
        NeighborSub(id, conf, key, idx, ds);
        var subs := r.value.subs;
        forall j | 0 <= j < |subs|
          ensures Conforms(SubTemplate(), subs[j])
        {
          if j != idx {
            assert subs[j] == conf.subs[j];
          } else {
            SubListKeysExact(key);
          }
        }
    }
  }

  /** With the match variant, a main-parameter neighbour can equal the
      configuration it came from: there is no retry on that path. */
  lemma MainNeighborMayRepeat(ds: seq<nat>)
    requires |ds| >= ConfigDraws(MATCH)
    ensures var conf := RandomConfig(MATCH, ds);
            WellFormed(MATCH, conf) &&
            Neighbor(MATCH, conf, [0, ds[0]]) == Some(conf)
  {
    var conf := RandomConfig(MATCH, ds);
    RandomConfigWellFormed(MATCH, ds);
    var key := SequenceTransformationParameter;
    var ps := ParamsOf(MATCH);
    assert 0 % |ps| == 0;
    assert ps[0] == MainParam(key);
    var draws := [0, ds[0]];
    assert draws[1..] == [ds[0]];
    NeighborUnfold(MATCH, conf, draws);
    MainRepeat(conf, key, ds);
  }

  lemma NeighborUnfold(id: int, conf: Config, ds: seq<nat>)
    requires IsVariant(id) && WellFormed(id, conf) && ds != []
    ensures ParamsOf(id)[ds[0] % |ParamsOf(id)|] in ParamsOf(id)
    ensures Neighbor(id, conf, ds) == NeighborVia(id, conf, ParamsOf(id)[ds[0] % |ParamsOf(id)|], ds[1..])
  {
  }

  lemma MainRepeat(conf: Config, key: MainKey, ds: seq<nat>)
    requires |ds| >= ConfigDraws(MATCH) && conf == RandomConfig(MATCH, ds) && key == SequenceTransformationParameter
    requires WellFormed(MATCH, conf) && ValidParam(MATCH, MainParam(key))
    ensures NeighborVia(MATCH, conf, MainParam(key), [ds[0]]) == Some(conf)
  {
    var t := VariantTemplate(MATCH);
    assert conf.main[key := Pick(t, key, ds[0])] == conf.main;
  }
}
