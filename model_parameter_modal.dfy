/**
 The completion-parameter resolver of the model parameter modal: the transitions
 that build a new completion-parameter map and hand it to the host callback, the
 availability gates, the model-change lookup, and the rule list the modal shows.

 Every handler is modelled by what it passes to `onCompletionParamsChange`; a
 handler that may pass nothing returns an `Option`.
 */
module ModelParameterModal {
  import opened Wrappers
  import opened JsValue

  // ---------------------------------------------------------------------------
  // Parameter rules

  /** A `ModelParameterRule`; an absent `default` is `Undefined`. Labels and help
      texts are presentation and are not modelled. */
  datatype ParameterRule = ParameterRule(name: string, defaultValue: Value, required: bool, kind: string)

  /** `stopParameerRule`: the synthetic stop-sequences rule shown in advanced mode. */
  const StopRule: ParameterRule := ParameterRule("stop", Arr([]), false, "tag")

  /** The body of a parameter-rules response; `data` may be missing. */
  datatype RulesResponse = RulesResponse(data: Option<seq<ParameterRule>>)

  const RulesPathPrefix: string := "/workspaces/current/model-providers/"
  const RulesPathMiddle: string := "/models/parameter-rules?model="

  /** The request key handed to the fetcher: none unless both the provider and
      the model id are non-empty strings. */
  function RulesRequestKey(provider: string, modelId: string): (key: Option<string>)
    ensures key.Some? <==> provider != "" && modelId != ""
    ensures key.Some? ==> |key.value| == |RulesPathPrefix| + |provider| + |RulesPathMiddle| + |modelId|
    ensures key.Some? ==> key.value[..|RulesPathPrefix|] == RulesPathPrefix
    ensures key.Some? ==> key.value[|RulesPathPrefix|..|RulesPathPrefix| + |provider|] == provider
    ensures key.Some? ==> key.value[|key.value| - |modelId|..] == modelId
  {
    if provider != "" && modelId != "" then
      var k := RulesPathPrefix + provider + RulesPathMiddle + modelId;
      assert k[..|RulesPathPrefix|] == RulesPathPrefix;
      assert k[|RulesPathPrefix|..|RulesPathPrefix| + |provider|] == provider;
      assert k[|k| - |modelId|..] == modelId;
      Some(k)
    else
      None
  }

  /** In a request key, the provider name is followed by the first '/' after the
      fixed prefix, provided the name itself holds none. */
  lemma ProviderEndsAtFirstSlash(provider: string, modelId: string)
    requires '/' !in provider
    ensures var k := RulesPathPrefix + provider + RulesPathMiddle + modelId;
      && k[|RulesPathPrefix| + |provider|] == '/'
      && forall i :: |RulesPathPrefix| <= i < |RulesPathPrefix| + |provider| ==> k[i] != '/'
  {
    var k := RulesPathPrefix + provider + RulesPathMiddle + modelId;
    forall i | |RulesPathPrefix| <= i < |RulesPathPrefix| + |provider| ensures k[i] != '/' {
      assert k[i] == provider[i - |RulesPathPrefix|];
    }
  }

  /** Two selections whose provider names contain no '/' share a request key only
      when they are the same selection: the key identifies (provider, modelId). */
  lemma RulesRequestKeyInjective(p1: string, m1: string, p2: string, m2: string)
    requires '/' !in p1 && '/' !in p2
    requires RulesRequestKey(p1, m1).Some? && RulesRequestKey(p1, m1) == RulesRequestKey(p2, m2)
    ensures p1 == p2 && m1 == m2
  {
    var k := RulesRequestKey(p1, m1).value;
    var n := |RulesPathPrefix|;
    assert k == RulesPathPrefix + p1 + RulesPathMiddle + m1;
    assert k == RulesPathPrefix + p2 + RulesPathMiddle + m2;
    ProviderEndsAtFirstSlash(p1, m1);
    ProviderEndsAtFirstSlash(p2, m2);
    assert k[n + |p1|] == '/' && k[n + |p2|] == '/';
    assert |p1| == |p2|;
    assert p1 == k[n..n + |p1|] == p2;
    assert |m1| == |m2|;
    assert m1 == k[|k| - |m1|..] == m2;
  }

  /** `parameterRulesData?.data || []`: the fetched rules, or none while there is
      no response or the response carries no list. */
  function ParameterRules(response: Option<RulesResponse>): (rules: seq<ParameterRule>)
    ensures response.None? || response.value.data.None? ==> rules == []
    ensures response.Some? && response.value.data.Some? ==> rules == response.value.data.value
  {
    match response
    case None => []
    case Some(r) => if r.data.Some? then r.data.value else []
  }

  /** The rule items the modal renders: nothing while loading or when there are no
      rules; otherwise the fetched rules in order, followed by the stop rule in
      advanced mode. */
  function RenderedRules(rules: seq<ParameterRule>, isLoading: bool, isAdvancedMode: bool): (shown: seq<ParameterRule>)
    ensures isLoading || rules == [] ==> shown == []
    ensures !isLoading && rules != [] ==>
      && |shown| == |rules| + (if isAdvancedMode then 1 else 0)
      && shown[..|rules|] == rules
      && (isAdvancedMode ==> shown[|rules|] == StopRule)
  {
    if isLoading || |rules| == 0 then []
    else rules + (if isAdvancedMode then [StopRule] else [])
  }

  // ---------------------------------------------------------------------------
  // handleParamChange and handleSwitch

  /** `{ ...completionParams, [key]: value }`. */
  function ParamChanged(params: FormValue, key: string, value: Value): (r: FormValue)
    ensures r.Keys == params.Keys + {key}
    ensures r[key] == value
    ensures forall k :: k in params && k != key ==> r[k] == params[k]
  {
    params[key := value]
  }

  /** What `handleSwitch(key, on, assignValue)` emits: switching on sets the key,
      switching off removes it and keeps every other entry. */
  function Switched(params: FormValue, key: string, on: bool, assignValue: Value): (r: FormValue)
    ensures on ==> r == ParamChanged(params, key, assignValue)
    ensures !on ==> r.Keys == params.Keys - {key}
    ensures !on ==> forall k :: k in r ==> r[k] == params[k]
  {
    if on then params[key := assignValue] else params - {key}
  }

  /** `handleSwitch`: copies the map and deletes the key, or spreads the assigned
      value over it. Exactly one map is emitted. */
  method HandleSwitch(params: FormValue, key: string, on: bool, assignValue: Value) returns (emitted: FormValue)
    ensures emitted == Switched(params, key, on, assignValue)
  {
    if !on {
      var newParams := params;
      newParams := newParams - {key};
      emitted := newParams;
    } else {
      emitted := params[key := assignValue];
    }
  }

  /** Switching a parameter on and then off leaves no entry for it and restores
      every other entry. */
  lemma SwitchOnThenOff(params: FormValue, key: string, a: Value, b: Value)
    ensures key !in Switched(Switched(params, key, true, a), key, false, b)
    ensures Switched(Switched(params, key, true, a), key, false, b) == Switched(params, key, false, b)
  {
  }

  /** Switching a parameter off and then on is the same as setting it directly. */
  lemma SwitchOffThenOn(params: FormValue, key: string, a: Value, b: Value)
    ensures Switched(Switched(params, key, false, b), key, true, a) == ParamChanged(params, key, a)
  {
  }

  // ---------------------------------------------------------------------------
  // handleInitialParams

  /** The effect of one rule on the value stored under its name: a truthy value is
      kept; otherwise the rule's default is stored when it is neither `null` nor
      `undefined`, and the key is removed when it is. */
  function KeyStep(current: Option<Value>, defaultValue: Value): (r: Option<Value>)
    ensures current.Some? && Truthy(current.value) ==> r == current
    ensures !(current.Some? && Truthy(current.value)) ==>
      r == (if IsNullOrUndefined(defaultValue) then None else Some(defaultValue))
  {
    if current.Some? && Truthy(current.value) then current
    else if !IsNullOrUndefined(defaultValue) then Some(defaultValue)
    else None
  }

  /** One iteration of the `forEach` body in `handleInitialParams`. */
  function ApplyRule(params: FormValue, rule: ParameterRule): (r: FormValue)
    ensures Lookup(r, rule.name) == KeyStep(Lookup(params, rule.name), rule.defaultValue)
    ensures forall k :: k != rule.name ==> Lookup(r, k) == Lookup(params, k)
  {
    if Truthy(Index(params, rule.name)) then params
    else if !IsNullOrUndefined(rule.defaultValue) then params[rule.name := rule.defaultValue]
    else params - {rule.name}
  }

  /** The map `handleInitialParams` builds: the rules applied one by one in list order. */
  function InitializeFrom(params: FormValue, rules: seq<ParameterRule>): (r: FormValue)
    ensures rules == [] ==> r == params
    ensures forall k :: k in r ==> k in params || NamesKey(rules, k)
    decreases |rules|
  {
    if rules == [] then params
    else ApplyRule(InitializeFrom(params, rules[..|rules| - 1]), rules[|rules| - 1])
  }

  /** What `handleInitialParams` emits: nothing for an empty rule list. */
  function InitialParams(params: FormValue, rules: seq<ParameterRule>): (emitted: Option<FormValue>)
    ensures emitted.None? <==> rules == []
    ensures emitted.Some? ==> emitted.value == InitializeFrom(params, rules)
  {
    if |rules| == 0 then None else Some(InitializeFrom(params, rules))
  }

  /** `handleInitialParams`: copies the map, walks the rules assigning defaults to
      and deleting rule-named keys, and emits the copy unless there are no rules. */
  method HandleInitialParams(params: FormValue, rules: seq<ParameterRule>) returns (emitted: Option<FormValue>)
    ensures emitted == InitialParams(params, rules)
  {
    var newParams := params;
    if |rules| > 0 {
      var i := 0;
      while i < |rules|
        invariant 0 <= i <= |rules|
        invariant newParams == InitializeFrom(params, rules[..i])
      {
        var rule := rules[i];
        if !Truthy(Index(newParams, rule.name)) {
          if !IsNullOrUndefined(rule.defaultValue) {
            newParams := newParams[rule.name := rule.defaultValue];
          } else {
            newParams := newParams - {rule.name};
          }
        }
        assert rules[..i + 1][..i] == rules[..i];
        i := i + 1;
      }
      assert rules[..|rules|] == rules;
      emitted := Some(newParams);
    } else {
      emitted := None;
    }
  }

  /** Whether some rule of the list is named `k`. */
  predicate NamesKey(rules: seq<ParameterRule>, k: string)
  {
    exists i :: 0 <= i < |rules| && rules[i].name == k
  }

  /** The value under one key after the rules are applied: `KeyStep` for each rule
      with that name, in list order. */
  function Resolve(current: Option<Value>, k: string, rules: seq<ParameterRule>): Option<Value>
    decreases |rules|
  {
    if rules == [] then current
    else
      var before := Resolve(current, k, rules[..|rules| - 1]);
      if rules[|rules| - 1].name == k then KeyStep(before, rules[|rules| - 1].defaultValue) else before
  }

  /** Initialization acts key by key: each key ends up as `Resolve` of its old entry. */
  lemma {:induction false} InitializeFromPointwise(params: FormValue, rules: seq<ParameterRule>, k: string)
    ensures Lookup(InitializeFrom(params, rules), k) == Resolve(Lookup(params, k), k, rules)
    decreases |rules|
  {
    if rules != [] {
      InitializeFromPointwise(params, rules[..|rules| - 1], k);
    }
  }

  /** A truthy value survives every rule. */
  lemma {:induction false} ResolveKeepsTruthy(current: Option<Value>, k: string, rules: seq<ParameterRule>)
    requires current.Some? && Truthy(current.value)
    ensures Resolve(current, k, rules) == current
    decreases |rules|
  {
    if rules != [] {
      ResolveKeepsTruthy(current, k, rules[..|rules| - 1]);
    }
  }

  /** Keys that no rule names are left as they were. */
  lemma {:induction false} ResolveUnnamed(current: Option<Value>, k: string, rules: seq<ParameterRule>)
    requires !NamesKey(rules, k)
    ensures Resolve(current, k, rules) == current
    decreases |rules|
  {
    if rules != [] {
      var init := rules[..|rules| - 1];
      assert !NamesKey(init, k) by {
        forall i | 0 <= i < |init| ensures init[i].name != k {
          assert init[i] == rules[i];
        }
      }
      ResolveUnnamed(current, k, init);
    }
  }

  /** Once some rule names the key, a falsy or missing old entry no longer matters. */
  lemma {:induction false} ResolveForgetsFalsy(c1: Option<Value>, c2: Option<Value>, k: string, rules: seq<ParameterRule>)
    requires NamesKey(rules, k)
    requires !(c1.Some? && Truthy(c1.value)) && !(c2.Some? && Truthy(c2.value))
    ensures Resolve(c1, k, rules) == Resolve(c2, k, rules)
    decreases |rules|
  {
    var init := rules[..|rules| - 1];
    var last := rules[|rules| - 1];
    if NamesKey(init, k) {
      ResolveForgetsFalsy(c1, c2, k, init);
    } else {
      ResolveUnnamed(c1, k, init);
      ResolveUnnamed(c2, k, init);
      assert last.name == k;
    }
  }

  /** Resolving a key twice against the same rules changes nothing. */
  lemma ResolveIdempotent(current: Option<Value>, k: string, rules: seq<ParameterRule>)
    ensures Resolve(Resolve(current, k, rules), k, rules) == Resolve(current, k, rules)
  {
    var once := Resolve(current, k, rules);
    if !NamesKey(rules, k) {
      ResolveUnnamed(current, k, rules);
      ResolveUnnamed(once, k, rules);
    } else if once.Some? && Truthy(once.value) {
      ResolveKeepsTruthy(once, k, rules);
    } else if current.Some? && Truthy(current.value) {
      ResolveKeepsTruthy(current, k, rules);
    } else {
      ResolveForgetsFalsy(once, current, k, rules);
    }
  }

  /** Two maps that agree on every key are equal. */
  lemma MapsAgreeOnKeys(m1: FormValue, m2: FormValue)
    requires forall k :: Lookup(m1, k) == Lookup(m2, k)
    ensures m1 == m2
  {
    assert forall k :: k in m1 <==> Lookup(m1, k).Some?;
    assert m1.Keys == m2.Keys;
    forall k | k in m1 ensures m1[k] == m2[k] {
      assert Lookup(m1, k) == Lookup(m2, k);
    }
  }

  /** Re-initializing with the same rules changes nothing. */
  lemma InitializeFromIdempotent(params: FormValue, rules: seq<ParameterRule>)
    ensures InitializeFrom(InitializeFrom(params, rules), rules) == InitializeFrom(params, rules)
  {
    var once := InitializeFrom(params, rules);
    forall k ensures Lookup(InitializeFrom(once, rules), k) == Lookup(once, k) {
      InitializeFromPointwise(once, rules, k);
      InitializeFromPointwise(params, rules, k);
      ResolveIdempotent(Lookup(params, k), k, rules);
    }
    MapsAgreeOnKeys(InitializeFrom(once, rules), once);
  }

  /** Keys that no rule names keep their entries (present or absent): the code
      only ever writes or deletes rule-named keys. */
  lemma InitializeFromKeepsUnnamed(params: FormValue, rules: seq<ParameterRule>, k: string)
    requires !NamesKey(rules, k)
    ensures Lookup(InitializeFrom(params, rules), k) == Lookup(params, k)
  {
    InitializeFromPointwise(params, rules, k);
    ResolveUnnamed(Lookup(params, k), k, rules);
  }

  /** A truthy value the user set is never overwritten. */
  lemma InitializeFromKeepsTruthy(params: FormValue, rules: seq<ParameterRule>, k: string)
    requires k in params && Truthy(params[k])
    ensures k in InitializeFrom(params, rules) && InitializeFrom(params, rules)[k] == params[k]
  {
    InitializeFromPointwise(params, rules, k);
    ResolveKeepsTruthy(Lookup(params, k), k, rules);
  }

  /** With exactly one rule named `k`, that rule alone decides the value under `k`. */
  lemma {:induction false} ResolveSingleRule(current: Option<Value>, k: string, rules: seq<ParameterRule>, i: nat)
    requires i < |rules| && rules[i].name == k
    requires forall j :: 0 <= j < |rules| && j != i ==> rules[j].name != k
    ensures Resolve(current, k, rules) == KeyStep(current, rules[i].defaultValue)
    decreases |rules|
  {
    var init := rules[..|rules| - 1];
    if i == |rules| - 1 {
      assert !NamesKey(init, k) by {
        forall j | 0 <= j < |init| ensures init[j].name != k {
          assert init[j] == rules[j];
        }
      }
      ResolveUnnamed(current, k, init);
    } else {
      forall j | 0 <= j < |init| && j != i ensures init[j].name != k {
        assert init[j] == rules[j];
      }
      ResolveSingleRule(current, k, init, i);
    }
  }

  /** When a single rule carries the name `k` (rule names are unique in a model's
      schema), a truthy value under `k` is kept, and otherwise `k` takes the rule's
      default, or is removed when that default is `null` or `undefined`. Falsy
      values such as `0`, `''` and `false` count as missing. */
  lemma InitializeFromWritesDefault(params: FormValue, rules: seq<ParameterRule>, i: nat)
    requires i < |rules|
    requires forall j :: 0 <= j < |rules| && j != i ==> rules[j].name != rules[i].name
    ensures var k := rules[i].name;
      && (k in params && Truthy(params[k]) ==> k in InitializeFrom(params, rules) && InitializeFrom(params, rules)[k] == params[k])
      && (!(k in params && Truthy(params[k])) && !IsNullOrUndefined(rules[i].defaultValue) ==>
            k in InitializeFrom(params, rules) && InitializeFrom(params, rules)[k] == rules[i].defaultValue)
      && (!(k in params && Truthy(params[k])) && IsNullOrUndefined(rules[i].defaultValue) ==>
            k !in InitializeFrom(params, rules))
  {
    var k := rules[i].name;
    InitializeFromPointwise(params, rules, k);
    ResolveSingleRule(Lookup(params, k), k, rules, i);
  }

  /** Every value in the result is the old value under that key or the default of
      a rule with that name. */
  lemma {:induction false} ResolveValueOrigin(current: Option<Value>, k: string, rules: seq<ParameterRule>)
    requires Resolve(current, k, rules).Some?
    ensures Resolve(current, k, rules) == current
         || exists i :: 0 <= i < |rules| && rules[i].name == k && rules[i].defaultValue == Resolve(current, k, rules).value
    decreases |rules|
  {
    if rules != [] {
      var init := rules[..|rules| - 1];
      var last := rules[|rules| - 1];
      var before := Resolve(current, k, init);
      if last.name == k && Resolve(current, k, rules) != before {
        assert Resolve(current, k, rules).value == last.defaultValue;
      } else {
        ResolveValueOrigin(current, k, init);
        if Resolve(current, k, init) != current {
          var i :| 0 <= i < |init| && init[i].name == k && init[i].defaultValue == before.value;
        }
      }
    }
  }

  /** Initialization never invents a value: each entry of the result was already
      there or is the default of a rule with that name. */
  lemma InitializeFromValueOrigin(params: FormValue, rules: seq<ParameterRule>, k: string)
    requires k in InitializeFrom(params, rules)
    ensures || (k in params && params[k] == InitializeFrom(params, rules)[k])
            || exists i :: 0 <= i < |rules| && rules[i].name == k && rules[i].defaultValue == InitializeFrom(params, rules)[k]
  {
    InitializeFromPointwise(params, rules, k);
    ResolveValueOrigin(Lookup(params, k), k, rules);
  }

  /** A falsy value the user set (here `0`) is overwritten by a rule's default. */
  lemma FalsyValueIsOverwritten()
    ensures InitializeFrom(map["temperature" := Num(0.0)], [ParameterRule("temperature", Num(0.7), true, "float")])
         == map["temperature" := Num(0.7)]
  {
  }

  /** A rule with a default fills an empty map; a rule without one adds nothing. */
  lemma DefaultsFillEmptyParams()
    ensures InitializeFrom(map[], [ParameterRule("temperature", Num(0.7), true, "float"), ParameterRule("top_p", Undefined, false, "float")])
         == map["temperature" := Num(0.7)]
  {
    var rules := [ParameterRule("temperature", Num(0.7), true, "float"), ParameterRule("top_p", Undefined, false, "float")];
    assert rules[..1][..0] == [];
  }

  /** A rule list without `max_tokens` leaves an existing `max_tokens` entry in place. */
  lemma OrphanKeyIsKept()
    ensures InitializeFrom(map["temperature" := Num(0.9), "max_tokens" := Num(100.0)],
                           [ParameterRule("temperature", Num(0.7), true, "float"), ParameterRule("top_p", Undefined, false, "float")])
         == map["temperature" := Num(0.9), "max_tokens" := Num(100.0)]
  {
    var rules := [ParameterRule("temperature", Num(0.7), true, "float"), ParameterRule("top_p", Undefined, false, "float")];
    assert rules[..1][..0] == [];
  }

  // ---------------------------------------------------------------------------
  // handleSelectPresetParameter

  /** An entry of the tone table. */
  datatype Tone = Tone(id: int, config: FormValue)

  /** `Array.prototype.find`, by position: where the first element satisfying `p` is. */
  function FindFirst<T>(s: seq<T>, p: T -> bool): (r: Option<nat>)
    ensures r.None? <==> forall i :: 0 <= i < |s| ==> !p(s[i])
    ensures r.Some? ==> r.value < |s| && p(s[r.value])
    ensures r.Some? ==> forall j :: 0 <= j < r.value ==> !p(s[j])
  {
    if s == [] then None
    else if p(s[0]) then Some(0)
    else
      var rest := FindFirst(s[1..], p);
      if rest.None? then None else Some(rest.value + 1)
  }

  /** `{ ...completionParams, ...config }`: a right-biased shallow merge. */
  function MergeConfig(params: FormValue, config: FormValue): (r: FormValue)
    ensures r.Keys == params.Keys + config.Keys
    ensures forall k :: k in config ==> r[k] == config[k]
    ensures forall k :: k in params && k !in config ==> r[k] == params[k]
  {
    params + config
  }

  /** What `handleSelectPresetParameter(toneId)` emits: nothing when no tone has
      that id, otherwise the map overridden by the first such tone's config. */
  function SelectPresetParameter(params: FormValue, tones: seq<Tone>, toneId: int): (emitted: Option<FormValue>)
    ensures emitted.None? <==> forall i :: 0 <= i < |tones| ==> tones[i].id != toneId
    ensures emitted.Some? ==> exists i :: 0 <= i < |tones| && tones[i].id == toneId
                                       && (forall j :: 0 <= j < i ==> tones[j].id != toneId)
                                       && emitted.value == MergeConfig(params, tones[i].config)
  {
    var found := FindFirst(tones, (t: Tone) => t.id == toneId);
    if found.None? then None else Some(MergeConfig(params, tones[found.value].config))
  }

  /** Applying two presets in a row: the later one wins on the keys it names. */
  lemma PresetsLastWriterWins(params: FormValue, c1: FormValue, c2: FormValue)
    ensures MergeConfig(MergeConfig(params, c1), c2).Keys == params.Keys + c1.Keys + c2.Keys
    ensures forall k :: k in c2 ==> MergeConfig(MergeConfig(params, c1), c2)[k] == c2[k]
    ensures forall k :: k in c1 && k !in c2 ==> MergeConfig(MergeConfig(params, c1), c2)[k] == c1[k]
  {
  }

  /** A preset overrides the keys it names and keeps the others. */
  lemma PresetMergeExample()
    ensures SelectPresetParameter(map["temperature" := Num(0.9), "frequency_penalty" := Num(0.1)],
                                  [Tone(1, map["temperature" := Num(0.2), "top_p" := Num(0.9)])], 1)
         == Some(map["temperature" := Num(0.2), "top_p" := Num(0.9), "frequency_penalty" := Num(0.1)])
  {
    var tones := [Tone(1, map["temperature" := Num(0.2), "top_p" := Num(0.9)])];
    assert FindFirst(tones, (t: Tone) => t.id == 1) == Some(0);
    assert MergeConfig(map["temperature" := Num(0.9), "frequency_penalty" := Num(0.1)], tones[0].config)
        == map["temperature" := Num(0.2), "top_p" := Num(0.9), "frequency_penalty" := Num(0.1)];
  }

  /** Applying the same preset twice is the same as applying it once. */
  lemma PresetIdempotent(params: FormValue, tones: seq<Tone>, toneId: int)
    requires SelectPresetParameter(params, tones, toneId).Some?
    ensures SelectPresetParameter(SelectPresetParameter(params, tones, toneId).value, tones, toneId)
         == SelectPresetParameter(params, tones, toneId)
  {
    var found := FindFirst(tones, (t: Tone) => t.id == toneId);
    var c := tones[found.value].config;
    assert MergeConfig(MergeConfig(params, c), c) == MergeConfig(params, c);
  }

  // ---------------------------------------------------------------------------
  // Model catalog, gates and handleChangeModel

  /** `ModelStatusEnum`: only `active` matters to the core; every other status is
      an `OtherStatus`, whose name is never `"active"`. */
  datatype ModelStatus = Active | OtherStatus(status: string)

  /** A model entry of the catalog; `mode` is `model_properties.mode`. */
  datatype ModelItem = ModelItem(model: string, status: ModelStatus, mode: Option<string>, features: Option<seq<string>>)

  /** A provider entry of the catalog with its models. */
  datatype ProviderItem = ProviderItem(provider: string, models: seq<ModelItem>)

  /** The three availability gates. */
  datatype Gates = Gates(hasDeprecated: bool, modelDisabled: bool, disabled: bool)

  /** `hasDeprecated`, `modelDisabled` and `disabled`, from the current provider and
      model entries (either may be missing) and whether an API key is set. */
  function ComputeGates(currentProvider: Option<ProviderItem>, currentModel: Option<ModelItem>, hasSettedApiKey: bool): (g: Gates)
    ensures g.hasDeprecated <==> currentProvider.None? || currentModel.None?
    ensures g.modelDisabled <==> !(currentModel.Some? && currentModel.value.status == Active)
    ensures currentModel.None? ==> g.hasDeprecated && g.modelDisabled && g.disabled
    ensures !g.disabled <==> hasSettedApiKey && currentProvider.Some? && currentModel.Some? && currentModel.value.status == Active
  {
    var hasDeprecated := currentProvider.None? || currentModel.None?;
    var modelDisabled := currentModel.None? || currentModel.value.status != Active;
    Gates(hasDeprecated, modelDisabled, !hasSettedApiKey || hasDeprecated || modelDisabled)
  }

  /** The argument `handleChangeModel` passes to `setModel`. */
  datatype ModelSelection = ModelSelection(modelId: string, provider: string, mode: Option<string>, features: seq<string>)

  /** The model entry `handleChangeModel` finds: the first provider with that name,
      then the first of its models with that name. */
  function TargetModel(catalog: seq<ProviderItem>, provider: string, model: string): (r: Option<ModelItem>)
    ensures r.Some? ==> r.value.model == model
    ensures (forall i :: 0 <= i < |catalog| ==> catalog[i].provider != provider) ==> r.None?
    ensures r.Some? ==> exists i :: 0 <= i < |catalog| && catalog[i].provider == provider
                                    && (forall j :: 0 <= j < i ==> catalog[j].provider != provider)
                                    && exists m :: 0 <= m < |catalog[i].models| && catalog[i].models[m] == r.value
                                                   && forall m' :: 0 <= m' < m ==> catalog[i].models[m'].model != model
  {
    var p := FindFirst(catalog, (it: ProviderItem) => it.provider == provider);
    if p.None? then None
    else
      var models := catalog[p.value].models;
      var m := FindFirst(models, (it: ModelItem) => it.model == model);
      if m.None? then None else Some(models[m.value])
  }

  /** No entry is found exactly when no provider matches, or the first matching
      provider lists no model of that name. */
  lemma TargetModelNone(catalog: seq<ProviderItem>, provider: string, model: string)
    ensures TargetModel(catalog, provider, model).None? <==>
      || (forall i :: 0 <= i < |catalog| ==> catalog[i].provider != provider)
      || (exists i :: 0 <= i < |catalog| && catalog[i].provider == provider
                      && (forall j :: 0 <= j < i ==> catalog[j].provider != provider)
                      && (forall m :: 0 <= m < |catalog[i].models| ==> catalog[i].models[m].model != model))
  {
    var isProvider := (it: ProviderItem) => it.provider == provider;
    var p := FindFirst(catalog, isProvider);
    if p.Some? {
      var i := p.value;
      assert catalog[i].provider == provider;
      assert forall j :: 0 <= j < i ==> catalog[j].provider != provider by {
        forall j | 0 <= j < i ensures catalog[j].provider != provider {
          assert !isProvider(catalog[j]);
        }
      }
      forall i' | 0 <= i' < |catalog| && catalog[i'].provider == provider
                  && (forall j :: 0 <= j < i' ==> catalog[j].provider != provider)
        ensures i' == i
      {
        assert isProvider(catalog[i']);
      }
      var isModel := (it: ModelItem) => it.model == model;
      var m := FindFirst(catalog[i].models, isModel);
      if m.Some? {
        assert catalog[i].models[m.value].model == model;
      } else {
        assert forall k :: 0 <= k < |catalog[i].models| ==> catalog[i].models[k].model != model by {
          forall k | 0 <= k < |catalog[i].models| ensures catalog[i].models[k].model != model {
            assert !isModel(catalog[i].models[k]);
          }
        }
      }
    } else {
      assert forall i :: 0 <= i < |catalog| ==> catalog[i].provider != provider by {
        forall i | 0 <= i < |catalog| ensures catalog[i].provider != provider {
          assert !isProvider(catalog[i]);
        }
      }
    }
  }

  /** `handleChangeModel`: provider and model pass through unchanged; `mode` and
      `features` come from the entry found, and degrade to undefined and the
      empty list when there is none. */
  function ChangeModel(catalog: seq<ProviderItem>, provider: string, model: string): (sel: ModelSelection)
    ensures sel.modelId == model && sel.provider == provider
    ensures TargetModel(catalog, provider, model).None? ==> sel.mode.None? && sel.features == []
    ensures TargetModel(catalog, provider, model).Some? ==>
      var item := TargetModel(catalog, provider, model).value;
      && sel.mode == item.mode
      && sel.features == (if item.features.Some? then item.features.value else [])
  {
    var target := TargetModel(catalog, provider, model);
    match target
    case None => ModelSelection(model, provider, None, [])
    case Some(item) => ModelSelection(model, provider, item.mode, if item.features.Some? then item.features.value else [])
  }
}
