// GabacConfiguration (python_api/gabac_conf_gen.py): the generator of
// random configurations and random neighbours for the configuration search.
module ConfGen {
  import opened Configs
  import opened ConfigProperties

  class GabacConfiguration {
    var seqTransformId: int
    var enaRoundtrip: bool
    var variantTemplate: Template<MainKey>
    var mainParams: seq<MainKey>
    var subParams: seq<Param>
    var params: seq<Param>

    ghost predicate Valid()
      reads this
    {
      && IsVariant(seqTransformId)
      && variantTemplate == VariantTemplate(seqTransformId)
      && mainParams == MainListKeys(seqTransformId)
      && subParams == SubParams(NumTransformedSeq(seqTransformId))
      && params == ParamsOf(seqTransformId)
    }

    /** __init__: collects the list-valued main keys, then (key, idx) for
        every transformed sequence and every list-valued key of its
        template; the parameters are the first followed by the second. */
    constructor (id: int, roundtrip: bool)
      requires IsVariant(id)
      ensures Valid() && seqTransformId == id && enaRoundtrip == roundtrip
      ensures params == MainParams(MainListKeys(id)) + SubParams(NumTransformedSeq(id))
    {
      seqTransformId := id;
      enaRoundtrip := roundtrip;
      var t := VariantTemplate(id);
      variantTemplate := t;
      VariantTemplateShape(id);
      MainListKeysValue(id);
      var mains := CollectListKeys(t);
      mainParams := mains;
      var s := SubTemplate();
      SubTemplateShape();
      SubListKeys();
      var subs: seq<Param> := [];
      for idx := 0 to NumTransformedSeq(id)
        invariant subs == SubParams(idx)
      {
        var row := CollectSubParams(s, idx);
        subs := subs + row;
      }
      subParams := subs;
      params := MainParams(mains) + subs;
    }

    /** generate_random_config: each list-valued main key, then each
        transformed sequence's list-valued keys, take one draw each, in
        order; None when the draws run out. */
    method GenerateRandomConfig(draws: seq<nat>) returns (conf: Option<Config>)
      requires Valid()
      ensures conf.Some? <==> |draws| >= ConfigDraws(seqTransformId)
      ensures conf.Some? ==> conf.value == RandomConfig(seqTransformId, draws)
      ensures conf.Some? ==> WellFormed(seqTransformId, conf.value)
    {
      var id := seqTransformId;
      if |draws| < ConfigDraws(id) {
        return None;
      }
      var main := AssignDraws(variantTemplate, mainParams, draws);
      var subs := FillSubs(draws, |mainParams|, NumTransformedSeq(id));
      conf := Some(Config(main, subs));
      RandomConfigWellFormed(id, draws);
    }

    /** generate_random_neighbor: draw 0 picks the parameter. For a
        transformed-sequence parameter, draws are taken until one gives a
        value different from the current one, which is stored; a main
        parameter takes one draw and stores it even when it is the old
        value. The configuration passed in is a value and is not changed. */
    method GenerateRandomNeighbor(config: Config, draws: seq<nat>) returns (newConfig: Option<Config>)
      requires Valid() && WellFormed(seqTransformId, config)
      ensures newConfig == Neighbor(seqTransformId, config, draws)
      ensures newConfig.Some? ==> WellFormed(seqTransformId, newConfig.value)
    {
      NeighborWellFormed(seqTransformId, config, draws);
      if |draws| == 0 {
        return None;
      }
      var chosen := params[draws[0] % |params|];
      assert chosen in params;
      match chosen {
        case MainParam(key) =>
          // chosen_param[0] is the first character of the key, which is not a
          // key of the transformed-sequence template: the KeyError leads to
          // the except branch
          if |draws| < 2 {
            return None;
          }
          newConfig := Some(Config(config.main[key := Pick(variantTemplate, key, draws[1])], config.subs));
        case SubParam(key, idx) =>
          SubListKeysExact(key);
          var v := RetryLoop(SubTemplate(), key, config.subs[idx][key], draws);
          if v.Some? {
            newConfig := Some(Config(config.main, config.subs[idx := config.subs[idx][key := v.value]]));
          } else {
            newConfig := None;
          }
      }
    }
  }

  /** The while loop of generate_random_neighbor: draws from index 1 on
      until one picks a value different from `current`. */
  method RetryLoop<K>(t: Template<K>, key: K, current: Value, draws: seq<nat>) returns (v: Option<Value>)
    requires IsListKey(t, key) && |draws| >= 1
    ensures v == Retry(t, key, current, draws[1..])
  {
    var cursor := 1;
    while cursor < |draws|
      invariant 1 <= cursor <= |draws|
      invariant Retry(t, key, current, draws[cursor..]) == Retry(t, key, current, draws[1..])
    {
      var value := Pick(t, key, draws[cursor]);
      assert draws[cursor..][1..] == draws[cursor + 1..];
      if value != current {
        return Some(value);
      }
      cursor := cursor + 1;
    }
    return None;
  }

  /** The loop of generate_random_config over the list-valued main keys:
      key number i takes draw number i. */
  method AssignDraws<K>(t: Template<K>, keys: seq<K>, draws: seq<nat>) returns (c: map<K, Value>)
    requires |draws| >= |keys| && forall k :: k in keys ==> IsListKey(t, k)
    ensures c == Assign(t, keys, |keys|, draws)
  {
    c := t.entries;
    for i := 0 to |keys|
      invariant c == Assign(t, keys, i, draws)
    {
      c := c[keys[i] := Pick(t, keys[i], draws[i])];
    }
  }

  /** The outer loop of generate_random_config over the transformed
      sequences: `count` dicts, five draws each from `start` on. */
  method FillSubs(draws: seq<nat>, start: nat, count: nat) returns (subs: seq<SubConfig>)
    requires start + count * SUB_DRAWS <= |draws|
    ensures subs == RandomSubs(count, draws[start..])
  {
    subs := [];
    var cursor := start;
    for n := 0 to count
      invariant cursor == start + n * SUB_DRAWS
      invariant subs == RandomSubs(n, draws[start..])
    {
      subs, cursor := FillSubsTurn(draws, start, count, n, subs, cursor);
    }
  }

  /** One turn of that loop: the dict of transformed sequence n. */
  method FillSubsTurn(draws: seq<nat>, start: nat, count: nat, n: nat, subs: seq<SubConfig>, cursor: nat)
      returns (subs': seq<SubConfig>, cursor': nat)
    requires n < count && start + count * SUB_DRAWS <= |draws|
    requires cursor == start + n * SUB_DRAWS && subs == RandomSubs(n, draws[start..])
    ensures cursor' == start + (n + 1) * SUB_DRAWS && subs' == RandomSubs(n + 1, draws[start..])
  {
    SubTemplateShape();
    SubListKeys();
    assert cursor + SUB_DRAWS <= |draws| by {
      assert (n + 1) * SUB_DRAWS <= count * SUB_DRAWS;
    }
    var sub := FillSub(SubTemplate(), draws, cursor);
    assert draws[start..][n * SUB_DRAWS..] == draws[cursor..];
    subs' := subs + [sub];
    cursor' := cursor + SUB_DRAWS;
  }

  /** The inner loop of generate_random_config: the dict of one transformed
      sequence, built from template `t`, whose list-valued keys take the
      draws from `cursor` on. */
  method FillSub<K>(t: Template<K>, draws: seq<nat>, cursor: nat) returns (sub: map<K, Value>)
    requires WellShaped(t) && cursor + |ListKeys(t, |t.keys|)| <= |draws|
    ensures sub == Walk(t, |t.keys|, draws[cursor..])
  {
    var ds := draws[cursor..];
    sub := t.entries;
    var d := 0;
    for j := 0 to |t.keys|
      invariant d == |ListKeys(t, j)| <= |ListKeys(t, |t.keys|)|
      invariant sub == Walk(t, j, ds)
    {
      sub, d := FillKey(t, ds, j, sub, d);
    }
  }

  /** One turn of the inner loop: key j takes draw d when it is a list. */
  method FillKey<K>(t: Template<K>, ds: seq<nat>, j: nat, sub: map<K, Value>, d: nat)
      returns (sub': map<K, Value>, d': nat)
    requires WellShaped(t) && j < |t.keys| && |ListKeys(t, |t.keys|)| <= |ds|
    requires d == |ListKeys(t, j)| <= |ListKeys(t, |t.keys|)| && sub == Walk(t, j, ds)
    ensures d' == |ListKeys(t, j + 1)| <= |ListKeys(t, |t.keys|)|
    ensures sub' == Walk(t, j + 1, ds)
  {
    ListKeysMono(t, j + 1, |t.keys|);
    var key := t.keys[j];
    if t.entries[key].List? {
      sub', d' := sub[key := Pick(t, key, ds[d])], d + 1;
    } else {
      sub', d' := sub, d;
    }
  }

  /** The loop of __init__ over the main template: its list-valued keys, in
      order. */
  method CollectListKeys<K>(t: Template<K>) returns (keys: seq<K>)
    requires WellShaped(t)
    ensures keys == ListKeys(t, |t.keys|)
  {
    keys := [];
    for i := 0 to |t.keys|
      invariant keys == ListKeys(t, i)
    {
      if t.entries[t.keys[i]].List? {
        keys := keys + [t.keys[i]];
      }
    }
  }

  /** The inner loop of __init__ for transformed sequence `idx`: (key, idx)
      for each list-valued key of `s`, in order. */
  method CollectSubParams(s: Template<SubKey>, idx: nat) returns (row: seq<Param>)
    requires WellShaped(s)
    ensures row == SubParamsAt(ListKeys(s, |s.keys|), idx)
  {
    row := [];
    for j := 0 to |s.keys|
      invariant row == SubParamsAt(ListKeys(s, j), idx)
    {
      if s.entries[s.keys[j]].List? {
        row := row + [SubParam(s.keys[j], idx)];
      }
    }
  }
}
