// The settings manager of the camera: the current value of every list
// preference, the overrides that a dependency table imposes on other
// preferences, and the back-references recording which preference imposed
// an override. It also builds the exposure-compensation steps and the ISO
// list from the sensor's ranges.

module SettingsManager {
  import opened Bytes
  import opened Text
  import Arith

  /** A preference's own value and the value a dependency forces on it. */
  datatype Values = Values(value: Option<string>, overridden: Option<string>)

  /** One entry of the change list handed to the listeners. */
  datatype SettingState = SettingState(key: string, values: Values)

  /** A list preference of the preference group: its value and its entry values. */
  datatype ListPref = ListPref(value: string, entryValues: seq<string>)

  /** A dependency list: the preferences it forces, each to a value. */
  type DependencyList = map<string, string>

  /** The dependency map of one preference: value (or "default") to dependency
      list; None stands for an entry that is not a JSON object. */
  type DependencyMap = map<string, Option<DependencyList>>

  const DEFAULT_KEY: string := "default"
  const ISO_AUTO: string := "auto"
  const ISO_STEP: int := 50
  const EXPOSURE_MAX_STEPS: int := 10

  // ---------------------------------------------------------------------
  // Reading values

  /** getValue on a values map: the override when there is one, else the value. */
  function Lookup(values: map<string, Values>, key: string): (r: Option<string>)
    ensures key !in values ==> r.None?
    ensures key in values && values[key].overridden.Some? ==> r == values[key].overridden
    ensures key in values && values[key].overridden.None? ==> r == values[key].value
  {
    if key !in values then None
    else if values[key].overridden.Some? then values[key].overridden
    else values[key].value
  }

  /** The keys that carry an override. */
  function DisabledKeys(values: map<string, Values>): (r: set<string>)
    ensures forall k :: k in r <==> k in values && values[k].overridden.Some?
  {
    set k | k in values && values[k].overridden.Some?
  }

  /** The keys of a change list. */
  function StateKeys(states: seq<SettingState>): set<string>
  {
    set s | s in states :: s.key
  }

  lemma StateKeysAppend(a: seq<SettingState>, b: seq<SettingState>)
    ensures StateKeys(a + b) == StateKeys(a) + StateKeys(b)
  {
    forall k | k in StateKeys(a + b)
      ensures k in StateKeys(a) + StateKeys(b)
    {
      var s :| s in a + b && s.key == k;
    }
    forall k | k in StateKeys(a) + StateKeys(b)
      ensures k in StateKeys(a + b)
    {
      if k in StateKeys(a) {
        var s :| s in a && s.key == k;
        assert s in a + b;
      } else {
        var s :| s in b && s.key == k;
        assert s in a + b;
      }
    }
  }

  // ---------------------------------------------------------------------
  // The dependency table

  /** getDependencyMapForKey: none without a table or without an entry for the key. */
  function DependencyMapForKey(dependency: Option<map<string, DependencyMap>>, key: string)
    : (r: Option<DependencyMap>)
    ensures r.Some? <==> dependency.Some? && key in dependency.value
    ensures r.Some? ==> r.value == dependency.value[key]
  {
    if dependency.None? || key !in dependency.value then None
    else Some(dependency.value[key])
  }

  /** getDependencyKey: the value itself when the map has it, else "default". */
  function DependencyKey(m: DependencyMap, value: Option<string>): (k: string)
    ensures value.Some? && value.value in m ==> k == value.value
    ensures !(value.Some? && value.value in m) ==> k == DEFAULT_KEY
  {
    if value.Some? && value.value in m then value.value else DEFAULT_KEY
  }

  /** getDependencyList: the list for the value, falling back to the "default"
      list; none when neither exists or the entry is not an object. */
  function DependencyListFor(dependency: Option<map<string, DependencyMap>>, key: string,
                             value: Option<string>): (r: Option<DependencyList>)
    ensures r.Some? ==> dependency.Some? && key in dependency.value
    ensures dependency.Some? && key in dependency.value && value.Some?
            && value.value in dependency.value[key]
            ==> r == dependency.value[key][value.value]
    ensures dependency.Some? && key in dependency.value
            && !(value.Some? && value.value in dependency.value[key])
            ==> r == (if DEFAULT_KEY in dependency.value[key]
                      then dependency.value[key][DEFAULT_KEY] else None)
  {
    var m := DependencyMapForKey(dependency, key);
    if m.None? then None
    else
      var k := DependencyKey(m.value, value);
      if k !in m.value then None else m.value[k]
  }

  // ---------------------------------------------------------------------
  // The effect of a change on the other preferences

  /** A key of the turn-on set whose override is cleared: something depends on it. */
  predicate ReEnabled(k: string, turnOn: set<string>, dependsOn: map<string, set<string>>)
  {
    k in turnOn && k in dependsOn && dependsOn[k] != {}
  }

  function ReEnabledKeys(values: map<string, Values>, turnOn: set<string>,
                         dependsOn: map<string, set<string>>): set<string>
  {
    set k | k in values && ReEnabled(k, turnOn, dependsOn)
  }

  /** The values after the turn-on keys lost their overrides. */
  function ApplyTurnOn(values: map<string, Values>, turnOn: set<string>,
                       dependsOn: map<string, set<string>>): (r: map<string, Values>)
  {
    map k | k in values :: if ReEnabled(k, turnOn, dependsOn)
                           then values[k].(overridden := None) else values[k]
  }

  /** A key of the turn-off set that receives the new list's value. */
  predicate Disabled(k: string, values: map<string, Values>, turnOff: set<string>,
                     group: map<string, ListPref>, list: DependencyList)
  {
    k in turnOff && k in group && k in values && values[k].overridden.None? && k in list
  }

  function DisabledNow(values: map<string, Values>, turnOff: set<string>,
                       group: map<string, ListPref>, list: DependencyList): set<string>
  {
    set k | k in values && Disabled(k, values, turnOff, group, list)
  }

  /** The values after the turn-off keys took their override from the new list. */
  function ApplyTurnOff(values: map<string, Values>, turnOff: set<string>,
                        group: map<string, ListPref>, list: DependencyList)
    : (r: map<string, Values>)
  {
    map k | k in values :: if Disabled(k, values, turnOff, group, list)
                           then Values(Some(group[k].value), Some(list[k])) else values[k]
  }

  /** updateBackDependency: the key leaves the back-reference sets of the removed
      keys and joins (creating when needed) those of the added keys. */
  function BackDependency(dependsOn: map<string, set<string>>, key: string,
                          remove: set<string>, add: set<string>): (r: map<string, set<string>>)
  {
    map c | c in dependsOn.Keys + add ::
      if c in add then (if c in dependsOn then dependsOn[c] else {}) + {key}
      else if c in remove then dependsOn[c] - {key}
      else dependsOn[c]
  }

  datatype Kind = NoChange | Changed | NullDereference

  /** What checkDependencyAndUpdate does: its outcome, the new values and
      back-references, and the keys of the change list. */
  datatype Update = Update(kind: Kind, values: map<string, Values>,
                           dependsOn: map<string, set<string>>, changedKeys: set<string>)

  function CheckDependency(values: map<string, Values>, dependsOn: map<string, set<string>>,
                           group: map<string, ListPref>,
                           dependency: Option<map<string, DependencyMap>>, key: string)
    : (u: Update)
    ensures u.kind == NoChange ==> u.values == values && u.dependsOn == dependsOn
    ensures u.kind == Changed ==> key in u.changedKeys
  {
    if key !in group then Update(NoChange, values, dependsOn, {})
    else
      var v := group[key].value;
      var prev := Lookup(values, key);
      if prev == Some(v) then Update(NoChange, values, dependsOn, {})
      else
        var m1 := values[key := Values(Some(v), None)];
        var dm := DependencyMapForKey(dependency, key);
        if dm.None? || DependencyKey(dm.value, Some(v)) == DependencyKey(dm.value, prev) then
          Update(Changed, m1, dependsOn, {key})
        else
          var nl := DependencyListFor(dependency, key, Some(v));
          var ol := DependencyListFor(dependency, key, prev);
          if nl.None? || ol.None? then Update(NullDereference, m1, dependsOn, {})
          else
            var on := ol.value.Keys - nl.value.Keys;
            var off := nl.value.Keys - ol.value.Keys;
            var m2 := ApplyTurnOn(m1, on, dependsOn);
            Update(Changed, ApplyTurnOff(m2, off, group, nl.value),
                   BackDependency(dependsOn, key, on, off),
                   {key} + ReEnabledKeys(m1, on, dependsOn)
                     + DisabledNow(m2, off, group, nl.value))
  }

  /** Setting a preference to the value it already shows changes nothing. */
  lemma CheckDependencySameValue(values: map<string, Values>, dependsOn: map<string, set<string>>,
                                 group: map<string, ListPref>,
                                 dependency: Option<map<string, DependencyMap>>, key: string)
    requires key in group && Lookup(values, key) == Some(group[key].value)
    ensures CheckDependency(values, dependsOn, group, dependency, key)
            == Update(NoChange, values, dependsOn, {})
  {
  }

  /** A real change of value always records the new value, without override,
      unless the key is one the new list itself turns off. */
  lemma CheckDependencyRecordsValue(values: map<string, Values>,
                                    dependsOn: map<string, set<string>>,
                                    group: map<string, ListPref>,
                                    dependency: Option<map<string, DependencyMap>>, key: string)
    requires key in group && Lookup(values, key) != Some(group[key].value)
    requires var nl := DependencyListFor(dependency, key, Some(group[key].value));
             var ol := DependencyListFor(dependency, key, Lookup(values, key));
             !(nl.Some? && ol.Some? && key in nl.value && key !in ol.value)
    ensures var u := CheckDependency(values, dependsOn, group, dependency, key);
            u.kind != NoChange && key in u.values && u.values[key].value == Some(group[key].value)
            && Lookup(u.values, key) == Some(group[key].value)
  {
  }

  /** The turn-on and turn-off sets are the two differences of the old and the
      new dependency lists, so they never share a key; a turn-on key that some
      preference depends on ends without override, and a turn-off key that had
      none ends with the value the new list gives it. */
  lemma {:induction false} CheckDependencyOverrides(values: map<string, Values>,
                                 dependsOn: map<string, set<string>>,
                                 group: map<string, ListPref>,
                                 dependency: Option<map<string, DependencyMap>>, key: string,
                                 k: string)
    requires key in group && Lookup(values, key) != Some(group[key].value)
    requires var nl := DependencyListFor(dependency, key, Some(group[key].value));
             var ol := DependencyListFor(dependency, key, Lookup(values, key));
             nl.Some? && ol.Some? && nl.value.Keys != ol.value.Keys
    ensures var nl := DependencyListFor(dependency, key, Some(group[key].value)).value;
            var ol := DependencyListFor(dependency, key, Lookup(values, key)).value;
            var u := CheckDependency(values, dependsOn, group, dependency, key);
            u.kind == Changed
            && (k in ol && k !in nl && k in values && k in dependsOn && dependsOn[k] != {}
                ==> u.values[k].overridden.None? && k in u.changedKeys)
            && (k in nl && k !in ol && k != key && k in values && k in group
                && values[k].overridden.None?
                ==> u.values[k] == Values(Some(group[k].value), Some(nl[k]))
                    && k in u.changedKeys)
            && (k in ol && k !in nl ==> k in u.dependsOn ==> key !in u.dependsOn[k])
            && (k in nl && k !in ol ==> k in u.dependsOn && key in u.dependsOn[k])
  {
    var v := group[key].value;
    var prev := Lookup(values, key);
    var dm := DependencyMapForKey(dependency, key);
    var nl := DependencyListFor(dependency, key, Some(v));
    var ol := DependencyListFor(dependency, key, prev);
    assert dm.Some?;
    var m1 := values[key := Values(Some(v), None)];
    var on := ol.value.Keys - nl.value.Keys;
    var m2 := ApplyTurnOn(m1, on, dependsOn);
    if k in nl.value && k !in ol.value && k != key && k in values && k in group
       && values[k].overridden.None? {
      assert m2[k] == values[k];
    }
  }

  // ---------------------------------------------------------------------
  // The loops of checkDependencyAndUpdate, on map values

  /** turnOn.addAll(a); turnOn.removeAll(b), one key at a time. */
  method KeysMinus(a: set<string>, b: set<string>) returns (d: set<string>)
    ensures d == a - b
  {
    d := {};
    var todo := a;
    while todo != {}
      invariant todo <= a
      invariant d == a - todo
      decreases todo
    {
      var k :| k in todo;
      d := d + {k};
      todo := todo - {k};
    }
    todo := b;
    while todo != {}
      invariant todo <= b
      invariant d == a - (b - todo)
      decreases todo
    {
      var k :| k in todo;
      d := d - {k};
      todo := todo - {k};
    }
  }

  lemma TurnOnStep(values: map<string, Values>, done: set<string>, k: string,
                   dependsOn: map<string, set<string>>)
    requires k !in done
    ensures var r := ApplyTurnOn(values, done, dependsOn);
            ApplyTurnOn(values, done + {k}, dependsOn)
            == (if k in values && k in dependsOn && dependsOn[k] != {}
                then r[k := values[k].(overridden := None)] else r)
    ensures ReEnabledKeys(values, done + {k}, dependsOn)
            == ReEnabledKeys(values, done, dependsOn)
               + (if k in values && k in dependsOn && dependsOn[k] != {} then {k} else {})
  {
  }

  /** The turn-on loop: each key some preference depends on loses its override. */
  method ClearOverrides(values: map<string, Values>, turnOn: set<string>,
                        dependsOn: map<string, set<string>>)
    returns (r: map<string, Values>, states: seq<SettingState>)
    ensures r == ApplyTurnOn(values, turnOn, dependsOn)
    ensures StateKeys(states) == ReEnabledKeys(values, turnOn, dependsOn)
    ensures forall s :: s in states ==> s.key in r && s.values == r[s.key]
  {
    r := values;
    states := [];
    var todo := turnOn;
    ghost var done: set<string> := {};
    assert ApplyTurnOn(values, {}, dependsOn) == values;
    while todo != {}
      invariant done == turnOn - todo && todo <= turnOn
      invariant r == ApplyTurnOn(values, done, dependsOn)
      invariant StateKeys(states) == ReEnabledKeys(values, done, dependsOn)
      invariant forall s :: s in states ==> s.key in r && s.key in done && s.values == r[s.key]
      decreases todo
    {
      var k :| k in todo;
      TurnOnStep(values, done, k, dependsOn);
      if k in dependsOn && dependsOn[k] != {} && k in r {
        var cleared := r[k].(overridden := None);
        r := r[k := cleared];
        StateKeysAppend(states, [SettingState(k, cleared)]);
        assert StateKeys([SettingState(k, cleared)]) == {k};
        states := states + [SettingState(k, cleared)];
      }
      todo := todo - {k};
      done := done + {k};
    }
  }

  lemma TurnOffStep(values: map<string, Values>, done: set<string>, k: string,
                    group: map<string, ListPref>, list: DependencyList)
    requires k !in done
    ensures var r := ApplyTurnOff(values, done, group, list);
            ApplyTurnOff(values, done + {k}, group, list)
            == (if k in group && k in values && values[k].overridden.None? && k in list
                then r[k := Values(Some(group[k].value), Some(list[k]))] else r)
    ensures DisabledNow(values, done + {k}, group, list)
            == DisabledNow(values, done, group, list)
               + (if k in group && k in values && values[k].overridden.None? && k in list
                  then {k} else {})
  {
  }

  /** The turn-off loop: each key of the group without an override takes the
      value the new dependency list forces on it. */
  method ForceOverrides(values: map<string, Values>, turnOff: set<string>,
                        group: map<string, ListPref>, list: DependencyList)
    returns (r: map<string, Values>, states: seq<SettingState>)
    requires turnOff <= list.Keys
    ensures r == ApplyTurnOff(values, turnOff, group, list)
    ensures StateKeys(states) == DisabledNow(values, turnOff, group, list)
    ensures forall s :: s in states ==> s.key in r && s.values == r[s.key]
  {
    r := values;
    states := [];
    var todo := turnOff;
    ghost var done: set<string> := {};
    assert ApplyTurnOff(values, {}, group, list) == values;
    while todo != {}
      invariant done == turnOff - todo && todo <= turnOff
      invariant r == ApplyTurnOff(values, done, group, list)
      invariant StateKeys(states) == DisabledNow(values, done, group, list)
      invariant forall s :: s in states ==> s.key in r && s.key in done && s.values == r[s.key]
      decreases todo
    {
      var k :| k in todo;
      TurnOffStep(values, done, k, group, list);
      if k in group && k in r && r[k].overridden.None? {
        var forced := Values(Some(group[k].value), Some(list[k]));
        r := r[k := forced];
        StateKeysAppend(states, [SettingState(k, forced)]);
        assert StateKeys([SettingState(k, forced)]) == {k};
        states := states + [SettingState(k, forced)];
      }
      todo := todo - {k};
      done := done + {k};
    }
  }

  lemma RemoveStep(dependsOn: map<string, set<string>>, key: string, done: set<string>, c: string)
    ensures var r := BackDependency(dependsOn, key, done, {});
            BackDependency(dependsOn, key, done + {c}, {})
            == (if c in r then r[c := r[c] - {key}] else r)
  {
    var r := BackDependency(dependsOn, key, done, {});
    var lhs := BackDependency(dependsOn, key, done + {c}, {});
    var rhs := if c in r then r[c := r[c] - {key}] else r;
    assert lhs.Keys == rhs.Keys;
    forall x | x in lhs
      ensures lhs[x] == rhs[x]
    {
      if x == c && c in done {
        assert r[c] - {key} == dependsOn[c] - {key};
      }
    }
  }

  lemma AddStep(dependsOn: map<string, set<string>>, key: string, remove: set<string>,
                done: set<string>, c: string)
    requires c !in done
    ensures var r := BackDependency(dependsOn, key, remove, done);
            BackDependency(dependsOn, key, remove, done + {c})
            == r[c := (if c in r then r[c] else {}) + {key}]
  {
    var r := BackDependency(dependsOn, key, remove, done);
    var lhs := BackDependency(dependsOn, key, remove, done + {c});
    var rhs := r[c := (if c in r then r[c] else {}) + {key}];
    assert lhs.Keys == rhs.Keys;
    forall x | x in lhs
      ensures lhs[x] == rhs[x]
    {
      if x == c && c in dependsOn && c in remove {
        assert (dependsOn[c] - {key}) + {key} == dependsOn[c] + {key};
      }
    }
  }

  /** The two loops of updateBackDependency. */
  method UpdateBackDependency(dependsOn: map<string, set<string>>, key: string,
                              remove: set<string>, add: set<string>)
    returns (r: map<string, set<string>>)
    ensures r == BackDependency(dependsOn, key, remove, add)
  {
    r := dependsOn;
    var todo := remove;
    ghost var done: set<string> := {};
    assert BackDependency(dependsOn, key, {}, {}) == dependsOn;
    while todo != {}
      invariant done == remove - todo && todo <= remove
      invariant r == BackDependency(dependsOn, key, done, {})
      decreases todo
    {
      var c :| c in todo;
      RemoveStep(dependsOn, key, done, c);
      if c in r {
        r := r[c := r[c] - {key}];
      }
      todo := todo - {c};
      done := done + {c};
    }
    todo := add;
    done := {};
    while todo != {}
      invariant done == add - todo && todo <= add
      invariant r == BackDependency(dependsOn, key, remove, done)
      decreases todo
    {
      var c :| c in todo;
      AddStep(dependsOn, key, remove, done, c);
      var set0 := if c in r then r[c] else {};
      r := r[c := set0 + {key}];
      todo := todo - {c};
      done := done + {c};
    }
  }

  // ---------------------------------------------------------------------
  // The manager

  class Manager {
    var valuesMap: map<string, Values>
    var dependsOnMap: map<string, set<string>>
    var group: map<string, ListPref>
    const dependency: Option<map<string, DependencyMap>>

    constructor (group0: map<string, ListPref>, values0: map<string, Values>,
                 dependsOn0: map<string, set<string>>,
                 dependency0: Option<map<string, DependencyMap>>)
      ensures group == group0 && valuesMap == values0 && dependsOnMap == dependsOn0
      ensures dependency == dependency0
    {
      group := group0;
      valuesMap := values0;
      dependsOnMap := dependsOn0;
      dependency := dependency0;
    }

    /** getValue: null for an unknown key, else the override or the value. */
    function GetValue(key: string): (r: Option<string>)
      reads this
      ensures key !in valuesMap ==> r.None?
      ensures key in valuesMap && valuesMap[key].overridden.Some?
              ==> r == valuesMap[key].overridden
      ensures key in valuesMap && valuesMap[key].overridden.None? ==> r == valuesMap[key].value
    {
      Lookup(valuesMap, key)
    }

    /** isOverriden: whether a dependency forces the key's value. */
    function IsOverriden(key: string): (r: bool)
      reads this
      requires key in valuesMap
      ensures r <==> key in DisabledKeys(valuesMap)
    {
      valuesMap[key].overridden.Some?
    }

    /** getDisabledList: every key with an override, once each. */
    method GetDisabledList() returns (list: seq<string>)
      ensures forall k :: k in list <==> k in valuesMap && valuesMap[k].overridden.Some?
      ensures forall i, j :: 0 <= i < j < |list| ==> list[i] != list[j]
    {
      list := [];
      var todo := valuesMap.Keys;
      while todo != {}
        invariant todo <= valuesMap.Keys
        invariant forall k :: k in list <==>
          (k in valuesMap && k !in todo && valuesMap[k].overridden.Some?)
        invariant forall i, j :: 0 <= i < j < |list| ==> list[i] != list[j]
        decreases todo
      {
        var k :| k in todo;
        if valuesMap[k].overridden.Some? {
          list := list + [k];
        }
        todo := todo - {k};
      }
    }

    /** checkDependencyAndUpdate: records the key's new value, then clears or
        forces the overrides its dependency lists name and updates the
        back-references. */
    method CheckDependencyAndUpdate(key: string) returns (kind: Kind, states: seq<SettingState>)
      modifies this
      ensures var u := CheckDependency(old(valuesMap), old(dependsOnMap), group, dependency, key);
              kind == u.kind && valuesMap == u.values && dependsOnMap == u.dependsOn
              && (kind == Changed ==> StateKeys(states) == u.changedKeys)
      ensures kind == Changed ==>
                (key in group && |states| >= 1
                 && states[0] == SettingState(key, Values(Some(group[key].value), None)))
      ensures kind != Changed ==> states == []
      ensures group == old(group)
    {
      states := [];
      if key !in group {
        kind := NoChange;
        return;
      }
      var v := group[key].value;
      var prev := GetValue(key);
      if prev == Some(v) {
        kind := NoChange;
        return;
      }
      var values := Values(Some(v), None);
      valuesMap := valuesMap[key := values];
      var changed := [SettingState(key, values)];
      assert StateKeys(changed) == {key};
      var m := DependencyMapForKey(dependency, key);
      if m.None? || DependencyKey(m.value, Some(v)) == DependencyKey(m.value, prev) {
        kind, states := Changed, changed;
        return;
      }
      var newList := DependencyListFor(dependency, key, Some(v));
      var oldList := DependencyListFor(dependency, key, prev);
      if newList.None? || oldList.None? {
        kind := NullDereference;
        return;
      }
      var turnOn := KeysMinus(oldList.value.Keys, newList.value.Keys);
      var turnOff := KeysMinus(newList.value.Keys, oldList.value.Keys);
      var m1 := valuesMap;
      var m2, onStates := ClearOverrides(m1, turnOn, dependsOnMap);
      var m3, offStates := ForceOverrides(m2, turnOff, group, newList.value);
      valuesMap := m3;
      dependsOnMap := UpdateBackDependency(dependsOnMap, key, turnOn, turnOff);
      StateKeysAppend(changed, onStates);
      StateKeysAppend(changed + onStates, offStates);
      kind, states := Changed, changed + onStates + offStates;
    }

    /** setValue: refuses an unknown key and a value that is not one of the
        entries; otherwise stores the value and propagates the change. */
    method SetValue(key: string, value: string) returns (ok: bool, kind: Kind)
      modifies this
      ensures !ok <==> key !in old(group) || value !in old(group)[key].entryValues
      ensures !ok ==> valuesMap == old(valuesMap) && dependsOnMap == old(dependsOnMap)
                      && group == old(group) && kind == NoChange
      ensures ok ==> group == old(group)[key := old(group)[key].(value := value)]
      ensures ok ==> var u := CheckDependency(old(valuesMap), old(dependsOnMap), group,
                                              dependency, key);
                     kind == u.kind && valuesMap == u.values && dependsOnMap == u.dependsOn
    {
      if key !in group || value !in group[key].entryValues {
        ok, kind := false, NoChange;
        return;
      }
      group := group[key := group[key].(value := value)];
      var states;
      kind, states := CheckDependencyAndUpdate(key);
      ok := true;
    }
  }

  // ---------------------------------------------------------------------
  // Exposure compensation

  /** The number of steps between min and max at a given increment, with Java's
      integer division. */
  function Steps(min: int, max: int, increment: int): int
    requires increment >= 1
  {
    JavaDiv(max - min, increment)
  }

  lemma StepsBound(d: int, k: int)
    requires k >= 1 && JavaDiv(d, k) > EXPOSURE_MAX_STEPS
    ensures k < d
  {
    if d >= 0 {
      Arith.DivMod(d, k);
      Arith.MulLe(1, d / k, k);
    }
  }

  /** The increment loop of buildExposureCompensation: the smallest increment
      that leaves at most ten steps. */
  method ExposureIncrement(min: int, max: int) returns (increment: int)
    ensures increment >= 1 && Steps(min, max, increment) <= EXPOSURE_MAX_STEPS
    ensures forall k :: 1 <= k < increment ==> Steps(min, max, k) > EXPOSURE_MAX_STEPS
  {
    increment := 1;
    while Steps(min, max, increment) > EXPOSURE_MAX_STEPS
      invariant increment >= 1
      invariant forall k :: 1 <= k < increment ==> Steps(min, max, k) > EXPOSURE_MAX_STEPS
      decreases max - min - increment
    {
      StepsBound(max - min, increment);
      increment := increment + 1;
    }
  }

  /** Math.abs on the model's unbounded integers. */
  function Abs(x: int): (r: nat)
    ensures r == x || r == -x
  {
    if x < 0 then -x else x
  }

  /** The start loop: a negative minimum is raised to the first value whose
      magnitude the increment divides; zero always qualifies. */
  method ExposureStart(min: int, increment: int) returns (start: int)
    requires increment >= 1
    ensures min >= 0 ==> start == min
    ensures min < 0 ==> min <= start <= 0 && Abs(start) % increment == 0
    ensures min < 0 ==> forall s :: min <= s < start ==> Abs(s) % increment != 0
  {
    start := min;
    if start < 0 {
      assert Abs(0) % increment == 0 by {
        Arith.DivModOf(0, 0, increment);
      }
      while Abs(start) % increment != 0
        invariant min <= start <= 0
        invariant forall s :: min <= s < start ==> Abs(s) % increment != 0
        decreases -start
      {
        start := start + 1;
      }
    }
  }

  /** The entry values from start to max in steps of the increment. */
  function StepValues(start: int, max: int, increment: int): (r: seq<int>)
    requires increment >= 1
    decreases max - start
  {
    if start > max then [] else [start] + StepValues(start + increment, max, increment)
  }

  /** The values are start, start + increment, …, and stop at the last one not above max. */
  lemma {:induction false} StepValuesShape(start: int, max: int, increment: int)
    requires increment >= 1
    ensures var r := StepValues(start, max, increment);
            (forall j :: 0 <= j < |r| ==> r[j] == start + j * increment && r[j] <= max)
            && (|r| > 0 ==> r[|r| - 1] + increment > max)
            && (start <= max ==> |r| > 0)
    decreases max - start
  {
    if start <= max {
      StepValuesShape(start + increment, max, increment);
      var r := StepValues(start, max, increment);
      var t := StepValues(start + increment, max, increment);
      assert r == [start] + t;
      forall j | 0 <= j < |r|
        ensures r[j] == start + j * increment && r[j] <= max
      {
        if j > 0 {
          assert r[j] == t[j - 1];
          assert start + increment + (j - 1) * increment == start + j * increment;
        }
      }
    }
  }

  /** f applied to each value. */
  function MapInts<T>(f: int -> T, vs: seq<int>): (r: seq<T>)
    ensures |r| == |vs|
  {
    if vs == [] then [] else [f(vs[0])] + MapInts(f, vs[1..])
  }

  lemma {:induction false} MapIntsAppend<T>(f: int -> T, a: seq<int>, b: seq<int>)
    ensures MapInts(f, a + b) == MapInts(f, a) + MapInts(f, b)
  {
    if a == [] {
      assert a + b == b;
    } else {
      var t := a[1..];
      MapIntsAppend(f, t, b);
      calc {
        MapInts(f, a + b);
        [f((a + b)[0])] + MapInts(f, (a + b)[1..]);
        { assert (a + b)[1..] == t + b; }
        [f(a[0])] + (MapInts(f, t) + MapInts(f, b));
        ([f(a[0])] + MapInts(f, t)) + MapInts(f, b);
      }
    }
  }

  /** Integer.toString of each value. */
  function Strings(vs: seq<int>): (r: seq<string>)
  {
    MapInts(IntString, vs)
  }

  lemma StringsAppend(a: seq<int>, b: seq<int>)
    ensures Strings(a + b) == Strings(a) + Strings(b)
  {
    MapIntsAppend(IntString, a, b);
  }

  /** buildExposureCompensation's arithmetic: None when the range is [0, 0]
      (the preference is removed), else the entry values. */
  method ExposureEntryValues(min: int, max: int)
    returns (entryValues: Option<seq<string>>, increment: int, start: int)
    ensures entryValues.None? <==> min == 0 && max == 0
    ensures entryValues.Some? ==>
              increment >= 1 && Steps(min, max, increment) <= EXPOSURE_MAX_STEPS
              && (forall k :: 1 <= k < increment ==> Steps(min, max, k) > EXPOSURE_MAX_STEPS)
              && (min >= 0 ==> start == min)
              && (min < 0 ==> min <= start <= 0 && Abs(start) % increment == 0
                              && forall s :: min <= s < start ==> Abs(s) % increment != 0)
              && entryValues.value == Strings(StepValues(start, max, increment))
  {
    if min == 0 && max == 0 {
      return None, 1, 0;
    }
    increment := ExposureIncrement(min, max);
    start := ExposureStart(min, increment);
    var list := StepStrings(start, max, increment);
    entryValues := Some(list);
  }

  /** The entry-value loop: Integer.toString of start, start + increment, … up to max. */
  method StepStrings(start: int, max: int, increment: int) returns (list: seq<string>)
    requires increment >= 1
    ensures list == Strings(StepValues(start, max, increment))
  {
    list := [];
    var i := start;
    while i <= max
      invariant list + Strings(StepValues(i, max, increment))
                == Strings(StepValues(start, max, increment))
      decreases max - i
    {
      var rest := StepValues(i + increment, max, increment);
      assert StepValues(i, max, increment) == [i] + rest;
      StringsAppend([i], rest);
      assert list + Strings(StepValues(i, max, increment)) == (list + [IntString(i)]) + Strings(rest);
      list := list + [IntString(i)];
      i := i + increment;
    }
  }

  // ---------------------------------------------------------------------
  // ISO

  /** The multiples of 50 from v up to the range's upper end that lie in the range. */
  function IsoValues(v: int, lower: int, upper: int): seq<int>
    decreases upper - v
  {
    if v > upper then []
    else (if lower <= v then [v] else []) + IsoValues(v + ISO_STEP, lower, upper)
  }

  lemma ShiftMod(a: int)
    ensures (a - ISO_STEP) % ISO_STEP == a % ISO_STEP
    ensures a % ISO_STEP == 0 && a > 0 ==> a >= ISO_STEP
  {
  }

  /** The list holds exactly the values v + 50k inside [lower, upper], ascending. */
  lemma {:induction false} IsoValuesExact(v: int, lower: int, upper: int)
    ensures forall x :: x in IsoValues(v, lower, upper) <==>
              (v <= x && (x - v) % ISO_STEP == 0 && lower <= x <= upper)
    ensures forall i, j :: 0 <= i < j < |IsoValues(v, lower, upper)| ==>
              IsoValues(v, lower, upper)[i] < IsoValues(v, lower, upper)[j]
    ensures forall i :: 0 <= i < |IsoValues(v, lower, upper)| ==> v <= IsoValues(v, lower, upper)[i]
    decreases upper - v
  {
    if v <= upper {
      IsoValuesExact(v + ISO_STEP, lower, upper);
      var t := IsoValues(v + ISO_STEP, lower, upper);
      var r := IsoValues(v, lower, upper);
      if lower > v {
        assert r == t;
      }
      forall x
        ensures x in r <==> v <= x && (x - v) % ISO_STEP == 0 && lower <= x <= upper
      {
        ShiftMod(x - v);
        if lower <= v {
          assert r == [v] + t;
          assert x in r <==> x == v || x in t;
        }
      }
      if lower <= v {
        assert r == [v] + t;
        forall i, j | 0 <= i < j < |r|
          ensures r[i] < r[j]
        {
          assert r[j] == t[j - 1];
          if i > 0 {
            assert r[i] == t[i - 1];
          }
        }
        forall i | 0 <= i < |r|
          ensures v <= r[i]
        {
          if i > 0 {
            assert r[i] == t[i - 1];
          }
        }
      }
    }
  }

  /** getSupportedIso: "auto", then every multiple of 50 from 50 to the
      range's upper end that the range contains. */
  method GetSupportedIso(lower: int, upper: int) returns (iso: seq<string>)
    ensures iso == [ISO_AUTO] + Strings(IsoValues(ISO_STEP, lower, upper))
  {
    var value := ISO_STEP;
    iso := [ISO_AUTO];
    while value <= upper
      invariant iso + Strings(IsoValues(value, lower, upper))
                == [ISO_AUTO] + Strings(IsoValues(ISO_STEP, lower, upper))
      decreases upper - value
    {
      var rest := IsoValues(value + ISO_STEP, lower, upper);
      if lower <= value {
        assert IsoValues(value, lower, upper) == [value] + rest;
        StringsAppend([value], rest);
        assert iso + Strings(IsoValues(value, lower, upper))
               == (iso + [IntString(value)]) + Strings(rest);
        iso := iso + [IntString(value)];
      } else {
        assert IsoValues(value, lower, upper) == rest;
      }
      value := value + ISO_STEP;
    }
  }

  /** The ISO list: "auto" first, then ascending positive multiples of 50
      inside the sensitivity range, and every such multiple. */
  lemma IsoListExact(lower: int, upper: int, x: int)
    ensures var r := IsoValues(ISO_STEP, lower, upper);
            (x in r <==> x >= ISO_STEP && x % ISO_STEP == 0 && lower <= x <= upper)
            && (forall i, j :: 0 <= i < j < |r| ==> r[i] < r[j])
  {
    IsoValuesExact(ISO_STEP, lower, upper);
    if x >= ISO_STEP {
      Arith.DivMod(x, ISO_STEP);
      Arith.DivMod(x - ISO_STEP, ISO_STEP);
      Arith.DivModOf(x / ISO_STEP - 1, x % ISO_STEP, ISO_STEP);
    }
  }
}
