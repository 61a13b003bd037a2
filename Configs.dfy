// The configurations GabacConfiguration (python_api/gabac_conf_gen.py)
// draws and mutates, and what it computes from its draws. A configuration is
// a Python dict; its keys are the fixed key names below, its values Python
// values. random.choice is fed from an injected sequence of draws: choosing
// from a list of n values with draw d picks element d % n.
module Configs {

  /** The keys of main_conf_template other than "transformed_sequences". */
  datatype MainKey = WordSize | SequenceTransformationId | SequenceTransformationParameter

  /** The keys of transformed_seq_conf_template. */
  datatype SubKey =
    | LutTransformationEnabled | LutTransformationParameter | DiffCodingEnabled
    | BinarizationId | BinarizationParameters | ContextSelectionId

  datatype Value = Null | Bool(b: bool) | Int(i: int) | List(items: seq<Value>)

  datatype Option<T> = None | Some(value: T)

  /** An ordered dict used as a template: a value that is a list gives the
      choices for its key, any other value is copied as it is. A value
      chosen for a key of `asList` is stored inside a one-element list. */
  datatype Template<K> = Template(keys: seq<K>, entries: map<K, Value>, asList: set<K>)

  type SubConfig = map<SubKey, Value>

  /** A configuration dict: `main` holds its scalar keys, `subs` the list
      stored under "transformed_sequences", one dict per transformed
      sequence. */
  datatype Config = Config(main: map<MainKey, Value>, subs: seq<SubConfig>)

  /** A mutable parameter: a key of the main configuration, or the pair
      (key, idx) naming a key of transformed sequence `idx`. */
  datatype Param = MainParam(key: MainKey) | SubParam(subKey: SubKey, idx: nat)

  // GABAC_TRANSFORM, GABAC_BINARIZATION and GABAC_CONTEXT_SELECT values
  const NONE: int := 0
  const EQUALITY: int := 1
  const MATCH: int := 2
  const RLE: int := 3
  const EG: int := 2
  const SEG: int := 3
  const TEG: int := 4
  const STEG: int := 5
  const BYPASS: int := 0
  const ADAPTIVE_ORDER_0: int := 1
  const ADAPTIVE_ORDER_1: int := 2
  const ADAPTIVE_ORDER_2: int := 3

  /** transformed_seq_conf_template, with
      transformed_seq_parameter_value_as_list as its `asList`. */
  function SubTemplate(): Template<SubKey>
  {
    Template(
      [LutTransformationEnabled, LutTransformationParameter, DiffCodingEnabled,
       BinarizationId, BinarizationParameters, ContextSelectionId],
      map key: SubKey | true :: SubEntry(key),
      {BinarizationParameters})
  }

  /** The value transformed_seq_conf_template holds for `key`. */
  function SubEntry(key: SubKey): Value
  {
    match key
    case LutTransformationEnabled => List([Bool(false), Bool(true)])
    case LutTransformationParameter => Int(0)
    case DiffCodingEnabled => List([Bool(false), Bool(true)])
    case BinarizationId => List([Int(SEG), Int(EG), Int(STEG), Int(TEG)])
    case BinarizationParameters => List(BinarizationParameterChoices())
    case ContextSelectionId => List([Int(BYPASS), Int(ADAPTIVE_ORDER_0), Int(ADAPTIVE_ORDER_1), Int(ADAPTIVE_ORDER_2)])
  }

  /** The integers 0 to 31. */
  function BinarizationParameterChoices(): (r: seq<Value>)
    ensures |r| == 32 && forall k :: 0 <= k < 32 ==> r[k] == Int(k)
  {
    seq(32, k => Int(k))
  }

  /** The keys of available_variant. */
  predicate IsVariant(id: int)
  {
    id == NONE || id == EQUALITY || id == MATCH || id == RLE
  }

  /** available_variant[id]: main_conf_template with the transformation and
      its parameter filled in. */
  function VariantTemplate(id: int): Template<MainKey>
    requires IsVariant(id)
  {
    Template(
      [WordSize, SequenceTransformationId, SequenceTransformationParameter],
      map key: MainKey | true :: VariantEntry(id, key),
      {})
  }

  /** The value available_variant[id] holds for `key`. */
  function VariantEntry(id: int, key: MainKey): Value
    requires IsVariant(id)
  {
    match key
    case WordSize => Int(1)
    case SequenceTransformationId => Int(id)
    case SequenceTransformationParameter =>
      if id == MATCH then List([Int(1), Int(2), Int(4), Int(8)]) else if id == RLE then Int(255) else Int(0)
  }

  /** num_transformed_seq. */
  function NumTransformedSeq(id: int): (n: nat)
    requires IsVariant(id)
    ensures 1 <= n <= 3
  {
    if id == NONE then 1 else if id == MATCH then 3 else 2
  }

  // ---------------------------------------------------------------------------
  // Templates

  predicate IsListKey<K>(t: Template<K>, key: K)
  {
    key in t.entries && t.entries[key].List? && |t.entries[key].items| > 0
  }

  /** Every listed key has an entry, and no list of choices is empty. */
  predicate WellShaped<K>(t: Template<K>)
  {
    && (forall j :: 0 <= j < |t.keys| ==> t.keys[j] in t.entries)
    && (forall k :: k in t.entries && t.entries[k].List? ==> |t.entries[k].items| > 0)
  }

  lemma SubTemplateShape()
    ensures WellShaped(SubTemplate()) && |SubTemplate().keys| == 6
  {
  }

  /** No key is listed twice in the template. */
  predicate DistinctKeys<K>(t: Template<K>)
  {
    forall a, b :: 0 <= a < b < |t.keys| ==> t.keys[a] != t.keys[b]
  }

  lemma SubTemplateDistinct()
    ensures DistinctKeys(SubTemplate())
  {
  }

  lemma VariantTemplateShape(id: int)
    requires IsVariant(id)
    ensures WellShaped(VariantTemplate(id)) && |VariantTemplate(id).keys| == 3
  {
  }

  /** The keys among the first n of the template whose value is a list, in
      order. */
  function ListKeys<K>(t: Template<K>, n: nat): (r: seq<K>)
    requires n <= |t.keys|
    ensures |r| <= n
    ensures forall k :: k in r ==> k in t.entries && t.entries[k].List?
  {
    if n == 0 then []
    else
      var last := t.keys[n - 1];
      ListKeys(t, n - 1) + (if last in t.entries && t.entries[last].List? then [last] else [])
  }

  /** In a well-shaped template every listed key offers a choice. */
  lemma ListKeysChoose<K>(t: Template<K>, n: nat)
    requires WellShaped(t) && n <= |t.keys|
    ensures forall k :: k in ListKeys(t, n) ==> IsListKey(t, k)
  {
  }

  /** random.choice from the list for `key` with draw d, wrapped in a list
      when the key asks for it. */
  function Pick<K>(t: Template<K>, key: K, d: nat): (v: Value)
    requires IsListKey(t, key)
    ensures Fits(t, key, v)
  {
    var dom := t.entries[key].items;
    var x := dom[d % |dom|];
    if key in t.asList then List([x]) else x
  }

  /** A value the template allows for `key`. */
  predicate Fits<K>(t: Template<K>, key: K, v: Value)
  {
    key in t.entries &&
    var tv := t.entries[key];
    if tv.List? then
      if key in t.asList then v.List? && |v.items| == 1 && v.items[0] in tv.items else v in tv.items
    else v == tv
  }

  /** A dict with exactly the template's keys, each holding an allowed value. */
  predicate Conforms<K>(t: Template<K>, m: map<K, Value>)
  {
    m.Keys == t.entries.Keys && forall key :: key in m ==> Fits(t, key, m[key])
  }

  /** A copy of the template's dict after the first n of `keys` are
      assigned a draw each, in turn: keys[j] takes draw j. */
  function Assign<K>(t: Template<K>, keys: seq<K>, n: nat, ds: seq<nat>): map<K, Value>
    requires n <= |keys| && n <= |ds| && forall k :: k in keys ==> IsListKey(t, k)
  {
    if n == 0 then t.entries
    else Assign(t, keys, n - 1, ds)[keys[n - 1] := Pick(t, keys[n - 1], ds[n - 1])]
  }

  /** Assigning every list-valued key of a template gives a conforming
      dict. */
  lemma {:induction false} AssignConforms<K>(t: Template<K>, keys: seq<K>, n: nat, ds: seq<nat>)
    requires n <= |keys| && n <= |ds| && forall k :: k in keys ==> IsListKey(t, k)
    requires forall k :: k in t.entries && t.entries[k].List? ==> k in keys[..n]
    ensures Conforms(t, Assign(t, keys, n, ds))
  {
    AssignKeys(t, keys, n, ds);
    forall k | k in t.entries
      ensures Fits(t, k, Assign(t, keys, n, ds)[k])
    {
      if t.entries[k].List? {
        var i :| 0 <= i < n && keys[..n][i] == k;
        AssignFits(t, keys, n, ds, i);
      } else {
        AssignKeeps(t, keys, n, ds, k);
      }
    }
  }

  lemma {:induction false} AssignKeys<K>(t: Template<K>, keys: seq<K>, n: nat, ds: seq<nat>)
    requires n <= |keys| && n <= |ds| && forall k :: k in keys ==> IsListKey(t, k)
    ensures Assign(t, keys, n, ds).Keys == t.entries.Keys
  {
    if n > 0 {
      AssignKeys(t, keys, n - 1, ds);
    }
  }

  lemma {:induction false} AssignFits<K>(t: Template<K>, keys: seq<K>, n: nat, ds: seq<nat>, i: nat)
    requires n <= |keys| && n <= |ds| && forall k :: k in keys ==> IsListKey(t, k)
    requires i < n
    ensures keys[i] in Assign(t, keys, n, ds) && Fits(t, keys[i], Assign(t, keys, n, ds)[keys[i]])
  {
    if i < n - 1 {
      AssignFits(t, keys, n - 1, ds, i);
    }
  }

  lemma {:induction false} AssignKeeps<K>(t: Template<K>, keys: seq<K>, n: nat, ds: seq<nat>, k: K)
    requires n <= |keys| && n <= |ds| && forall k :: k in keys ==> IsListKey(t, k)
    requires k in t.entries && !t.entries[k].List?
    ensures k in Assign(t, keys, n, ds) && Assign(t, keys, n, ds)[k] == t.entries[k]
  {
    if n > 0 {
      AssignKeeps(t, keys, n - 1, ds, k);
    }
  }

  /** The dict after walking the first j template keys in order, each list
      key taking the next draw. */
  function Walk<K>(t: Template<K>, j: nat, ds: seq<nat>): map<K, Value>
    requires WellShaped(t) && j <= |t.keys| && |ds| >= |ListKeys(t, j)|
  {
    if j == 0 then t.entries
    else
      var key := t.keys[j - 1];
      if t.entries[key].List? then Walk(t, j - 1, ds)[key := Pick(t, key, ds[|ListKeys(t, j - 1)|])]
      else Walk(t, j - 1, ds)
  }

  /** A walk over all of a template's keys gives a conforming dict when the
      template lists every key it has. */
  lemma {:induction false} WalkConforms<K>(t: Template<K>, ds: seq<nat>)
    requires WellShaped(t) && |ds| >= |ListKeys(t, |t.keys|)|
    requires forall k :: k in t.entries ==> k in t.keys
    ensures Conforms(t, Walk(t, |t.keys|, ds))
  {
    var n := |t.keys|;
    WalkKeys(t, n, ds);
    forall k | k in t.entries
      ensures Fits(t, k, Walk(t, n, ds)[k])
    {
      var i :| 0 <= i < n && t.keys[i] == k;
      WalkFits(t, n, ds, i);
    }
  }

  lemma {:induction false} WalkKeys<K>(t: Template<K>, j: nat, ds: seq<nat>)
    requires WellShaped(t) && j <= |t.keys| && |ds| >= |ListKeys(t, j)|
    ensures Walk(t, j, ds).Keys == t.entries.Keys
  {
    if j > 0 {
      WalkKeys(t, j - 1, ds);
    }
  }

  /** A key already walked holds a value the template allows. */
  lemma {:induction false} WalkFits<K>(t: Template<K>, j: nat, ds: seq<nat>, i: nat)
    requires WellShaped(t) && j <= |t.keys| && |ds| >= |ListKeys(t, j)| && i < j
    ensures t.keys[i] in Walk(t, j, ds) && Fits(t, t.keys[i], Walk(t, j, ds)[t.keys[i]])
  {
    WalkKeys(t, j, ds);
    if i < j - 1 {
      WalkFits(t, j - 1, ds, i);
    } else if !t.entries[t.keys[i]].List? {
      WalkKeeps(t, j, ds, t.keys[i]);
    }
  }

  /** In a template without repeated keys, the j-th list key of the walk
      holds a pick of draw j. */
  lemma {:induction false} WalkListKey<K>(t: Template<K>, n: nat, ds: seq<nat>, j: nat)
    requires WellShaped(t) && DistinctKeys(t) && n <= |t.keys| && |ds| >= |ListKeys(t, n)|
    requires j < |ListKeys(t, n)|
    ensures ListKeys(t, n)[j] in Walk(t, n, ds)
    ensures IsListKey(t, ListKeys(t, n)[j])
    ensures Walk(t, n, ds)[ListKeys(t, n)[j]] == Pick(t, ListKeys(t, n)[j], ds[j])
  {
    var before := ListKeys(t, n - 1);
    var key := ListKeys(t, n)[j];
    WalkKeys(t, n, ds);
    ListKeysChoose(t, n);
    assert key in ListKeys(t, n);
    if j < |before| {
      assert key == before[j];
      ListKeysBefore(t, n - 1, n - 1);
      WalkListKey(t, n - 1, ds, j);
      assert Walk(t, n, ds)[key] == Walk(t, n - 1, ds)[key];
    } else {
      assert key == t.keys[n - 1];
    }
  }

  /** Key number a is not among the list keys of the first m < a + 1. */
  lemma {:induction false} ListKeysBefore<K>(t: Template<K>, m: nat, a: nat)
    requires DistinctKeys(t) && m <= a < |t.keys|
    ensures t.keys[a] !in ListKeys(t, m)
  {
    if m > 0 {
      ListKeysBefore(t, m - 1, a);
    }
  }

  /** Keys whose template value is not a list keep it. */
  lemma {:induction false} WalkKeeps<K>(t: Template<K>, j: nat, ds: seq<nat>, k: K)
    requires WellShaped(t) && j <= |t.keys| && |ds| >= |ListKeys(t, j)|
    requires k in t.entries && !t.entries[k].List?
    ensures k in Walk(t, j, ds) && Walk(t, j, ds)[k] == t.entries[k]
  {
    if j > 0 {
      WalkKeeps(t, j - 1, ds, k);
    }
  }

  // ---------------------------------------------------------------------------
  // Random configurations

  /** The list-valued keys of transformed_seq_conf_template, in order. */
  const SUB_LIST_KEYS: seq<SubKey> :=
    [LutTransformationEnabled, DiffCodingEnabled, BinarizationId, BinarizationParameters, ContextSelectionId]

  /** Draws one transformed sequence takes. */
  const SUB_DRAWS: nat := 5

  /** The listed keys are exactly the list-valued keys of the template. */
  lemma SubListKeysExact(key: SubKey)
    ensures key in SUB_LIST_KEYS <==> SubTemplate().entries[key].List?
    ensures key in SUB_LIST_KEYS ==> IsListKey(SubTemplate(), key)
  {
  }

  /** The walk of __init__ over the template finds SUB_LIST_KEYS, one key
      at a time. */
  lemma SubListKeys()
    ensures ListKeys(SubTemplate(), 6) == SUB_LIST_KEYS
  {
    SubListKeys5();
  }

  lemma SubListKeys2()
    ensures ListKeys(SubTemplate(), 2) == SUB_LIST_KEYS[..1]
  {
    assert ListKeys(SubTemplate(), 1) == SUB_LIST_KEYS[..1];
  }

  lemma SubListKeys3()
    ensures ListKeys(SubTemplate(), 3) == SUB_LIST_KEYS[..2]
  {
    SubListKeys2();
  }

  lemma SubListKeys4()
    ensures ListKeys(SubTemplate(), 4) == SUB_LIST_KEYS[..3]
  {
    SubListKeys3();
  }

  lemma SubListKeys5()
    ensures ListKeys(SubTemplate(), 5) == SUB_LIST_KEYS[..4]
  {
    SubListKeys4();
  }

  /** Every list-valued key among the first n is listed. */
  lemma {:induction false} ListKeysComplete<K>(t: Template<K>, n: nat, i: nat)
    requires i < n <= |t.keys| && t.keys[i] in t.entries && t.entries[t.keys[i]].List?
    ensures t.keys[i] in ListKeys(t, n)
  {
    if i < n - 1 {
      ListKeysComplete(t, n - 1, i);
    }
  }

  /** The list-valued keys of available_variant[id]: only the match
      variant has one, its parameter. */
  function MainListKeys(id: int): (r: seq<MainKey>)
    requires IsVariant(id)
    ensures forall k :: k in r ==> IsListKey(VariantTemplate(id), k)
    ensures forall k :: k in VariantTemplate(id).entries && VariantTemplate(id).entries[k].List? ==> k in r
  {
    if id == MATCH then [SequenceTransformationParameter] else []
  }

  /** The configuration of one transformed sequence drawn from `ds`. */
  function RandomSub(ds: seq<nat>): SubConfig
    requires |ds| >= SUB_DRAWS
  {
    SubTemplateShape();
    Walk(SubTemplate(), 6, ds)
  }

  /** n transformed-sequence configurations, five draws each. */
  function RandomSubs(n: nat, ds: seq<nat>): (r: seq<SubConfig>)
    requires |ds| >= n * SUB_DRAWS
    ensures |r| == n
  {
    if n == 0 then []
    else RandomSubs(n - 1, ds) + [RandomSub(ds[(n - 1) * SUB_DRAWS..])]
  }

  /** A drawn transformed sequence conforms to its template. */
  lemma RandomSubConforms(ds: seq<nat>)
    requires |ds| >= SUB_DRAWS
    ensures Conforms(SubTemplate(), RandomSub(ds))
  {
    SubTemplateShape();
        WalkConforms(SubTemplate(), ds);
  }

  lemma {:induction false} RandomSubsConform(n: nat, ds: seq<nat>)
    requires |ds| >= n * SUB_DRAWS
    ensures forall j :: 0 <= j < n ==> Conforms(SubTemplate(), RandomSubs(n, ds)[j])
  {
    if n > 0 {
      RandomSubsConform(n - 1, ds);
      RandomSubConforms(ds[(n - 1) * SUB_DRAWS..]);
    }
  }

  /** Draws generate_random_config takes. */
  function ConfigDraws(id: int): nat
    requires IsVariant(id)
  {
    |MainListKeys(id)| + NumTransformedSeq(id) * SUB_DRAWS
  }

  /** The configuration generate_random_config builds from `ds`: the main
      list keys take the first draws, then each transformed sequence five. */
  function RandomConfig(id: int, ds: seq<nat>): Config
    requires IsVariant(id) && |ds| >= ConfigDraws(id)
  {
    var m := MainListKeys(id);
    Config(Assign(VariantTemplate(id), m, |m|, ds), RandomSubs(NumTransformedSeq(id), ds[|m|..]))
  }

  /** A configuration of the variant `id` as generate_random_config and
      generate_random_neighbor produce them. */
  predicate WellFormed(id: int, conf: Config)
    requires IsVariant(id)
  {
    && Conforms(VariantTemplate(id), conf.main)
    && |conf.subs| == NumTransformedSeq(id)
    && forall j :: 0 <= j < |conf.subs| ==> Conforms(SubTemplate(), conf.subs[j])
  }

  // ---------------------------------------------------------------------------
  // Mutable parameters

  function MainParams(keys: seq<MainKey>): (r: seq<Param>)
    ensures |r| == |keys| && forall i :: 0 <= i < |keys| ==> r[i] == MainParam(keys[i])
  {
    seq(|keys|, i requires 0 <= i < |keys| => MainParam(keys[i]))
  }

  /** (key, idx) for each of `keys`. */
  function SubParamsAt(keys: seq<SubKey>, idx: nat): (r: seq<Param>)
    ensures |r| == |keys| && forall j :: 0 <= j < |keys| ==> r[j] == SubParam(keys[j], idx)
  {
    seq(|keys|, j requires 0 <= j < |keys| => SubParam(keys[j], idx))
  }

  /** (key, idx) for idx below n and each list key of the sub template. */
  function SubParams(n: nat): (r: seq<Param>)
    ensures |r| == n * SUB_DRAWS
    ensures forall p :: p in r ==> p.SubParam? && p.idx < n && p.subKey in SUB_LIST_KEYS
  {
        if n == 0 then []
    else SubParams(n - 1) + SubParamsAt(SUB_LIST_KEYS, n - 1)
  }

  /** The parameters __init__ collects for the variant `id`. */
  function ParamsOf(id: int): (r: seq<Param>)
    requires IsVariant(id)
    ensures |r| == |MainListKeys(id)| + NumTransformedSeq(id) * SUB_DRAWS
    ensures forall p :: p in r ==> ValidParam(id, p)
  {
    MainParams(MainListKeys(id)) + SubParams(NumTransformedSeq(id))
  }

  /** A parameter names a list-valued key, of the main template or of an
      existing transformed sequence's template. */
  predicate ValidParam(id: int, p: Param)
    requires IsVariant(id)
  {
    match p
    case MainParam(key) => IsListKey(VariantTemplate(id), key)
    case SubParam(key, idx) => idx < NumTransformedSeq(id) && key in SUB_LIST_KEYS
  }

  // ---------------------------------------------------------------------------
  // Neighbours

  /** The retry loop of generate_random_neighbor: the first draw whose value
      differs from `current`, or None once the draws run out. */
  function Retry<K>(t: Template<K>, key: K, current: Value, ds: seq<nat>): (r: Option<Value>)
    requires IsListKey(t, key)
    ensures r.Some? ==> r.value != current && Fits(t, key, r.value)
  {
    if ds == [] then None
    else if Pick(t, key, ds[0]) != current then Some(Pick(t, key, ds[0]))
    else Retry(t, key, current, ds[1..])
  }

  /** The neighbour generate_random_neighbor returns for `conf`: draw 0 picks
      the parameter, the other draws go to NeighborVia. */
  function Neighbor(id: int, conf: Config, ds: seq<nat>): (r: Option<Config>)
    requires IsVariant(id) && WellFormed(id, conf)
  {
    if ds == [] then None
    else
      var params := ParamsOf(id);
      var p := params[ds[0] % |params|];
      assert p in params;
      NeighborVia(id, conf, p, ds[1..])
  }

  /** The neighbour through parameter `p`: a main parameter takes the next
      draw as it is, a transformed-sequence parameter retries until the
      value changes. */
  function NeighborVia(id: int, conf: Config, p: Param, ds: seq<nat>): (r: Option<Config>)
    requires IsVariant(id) && WellFormed(id, conf) && ValidParam(id, p)
  {
    match p
    case MainParam(key) =>
      if ds == [] then None
      else Some(Config(conf.main[key := Pick(VariantTemplate(id), key, ds[0])], conf.subs))
    case SubParam(key, idx) =>
      SubListKeysExact(key);
      var sub := conf.subs[idx];
      match Retry(SubTemplate(), key, sub[key], ds)
      case None => None
      case Some(v) => Some(Config(conf.main, conf.subs[idx := sub[key := v]]))
  }
}
