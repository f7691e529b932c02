/** The skill table of skill.c and the name registry that indexes it. */
module SkillRegistry {
  import opened Bits
  import opened Bytes
  import opened ChainMap
  import opened HashMap

  const MAX_SKILLS: nat := 1024
  const NAME_ROOM: nat := 63
  const MIN_CALLS: nat := 10
  const SUCCESS_THRESHOLD: real := 0.6

  datatype Skill = Skill(id: nat, name: Key, active: bool, calls: nat, rate: real)

  /** strncpy into the name field. */
  function Trunc(n: Key): Key { if |n| <= NAME_ROOM then n else n[..NAME_ROOM] }

  predicate Answers(s: Skill, n: Key) { s.active && s.name == n }

  /** The linear scan: the first active skill with the name, or the number of skills. */
  function Scan(sk: seq<Skill>, n: Key): (i: nat)
    ensures i <= |sk| && (i < |sk| ==> Answers(sk[i], n)) && forall j | 0 <= j < i :: !Answers(sk[j], n)
  {
    if sk == [] || Answers(sk[0], n) then 0 else 1 + Scan(sk[1..], n)
  }

  lemma ScanIs(sk: seq<Skill>, n: Key, i: nat)
    requires i <= |sk| && (i < |sk| ==> Answers(sk[i], n)) && forall j | 0 <= j < i :: !Answers(sk[j], n)
    ensures Scan(sk, n) == i
  {
  }

  /** A binding that still fits its slot names the skill the scan would find. */
  ghost predicate BindingOk(sk: seq<Skill>, n: Key, i: nat) {
    i < |sk| && (Answers(sk[i], n) ==> Scan(sk, n) == i)
  }

  ghost predicate RegistryOk(sk: seq<Skill>, m: map<Key, nat>) {
    forall n | n in m :: BindingOk(sk, n, m[n])
  }

  lemma BindingStays(sk: seq<Skill>, s: Skill, n: Key, i: nat)
    requires BindingOk(sk, n, i)
    ensures BindingOk(sk + [s], n, i)
  {
    if Answers(sk[i], n) { ScanIs(sk + [s], n, i); }
  }

  /** Registration keeps the registry right, whether or not the new binding could be stored. */
  lemma RegisterKeeps(sk: seq<Skill>, m: map<Key, nat>, n: Key, s: Skill)
    requires RegistryOk(sk, m) && Scan(sk, n) == |sk|
    ensures RegistryOk(sk + [s], m) && RegistryOk(sk + [s], m[n := |sk|])
  {
    hide Scan;
    forall k | k in m ensures BindingOk(sk + [s], k, m[k]) {
      BindingStays(sk, s, k, m[k]);
    }
    if Answers(s, n) { ScanIs(sk + [s], n, |sk|); }
  }

  /** Retiring a skill keeps the registry right, whatever happens to its binding. */
  lemma RetireKeeps(sk: seq<Skill>, m: map<Key, nat>, i: nat, n: Key)
    requires RegistryOk(sk, m) && i < |sk|
    ensures RegistryOk(sk[i := sk[i].(active := false)], m) && RegistryOk(sk[i := sk[i].(active := false)], m - {n})
  {
    hide Scan;
    var sk' := sk[i := sk[i].(active := false)];
    forall k | k in m ensures BindingOk(sk', k, m[k]) {
      assert BindingOk(sk, k, m[k]);
      if Answers(sk'[m[k]], k) { ScanIs(sk', k, m[k]); }
    }
  }

  /** New statistics keep the registry right. */
  lemma StatsKeep(sk: seq<Skill>, m: map<Key, nat>, i: nat, calls: nat, rate: real)
    requires RegistryOk(sk, m) && i < |sk|
    ensures RegistryOk(sk[i := sk[i].(calls := calls, rate := rate)], m)
  {
    hide Scan;
    var sk' := sk[i := sk[i].(calls := calls, rate := rate)];
    forall k | k in m ensures BindingOk(sk', k, m[k]) {
      assert BindingOk(sk, k, m[k]);
      if Answers(sk'[m[k]], k) { ScanIs(sk', k, m[k]); }
    }
  }

  /** Skills that get registered under names that fit have different names while they are active. */
  ghost predicate NamesDiffer(sk: seq<Skill>) {
    forall i, j | 0 <= i < j < |sk| && sk[i].active && sk[j].active :: sk[i].name != sk[j].name
  }

  lemma RegisterKeepsNames(sk: seq<Skill>, n: Key, s: Skill)
    requires NamesDiffer(sk) && Scan(sk, n) == |sk| && s.name == Trunc(n)
    ensures |n| <= NAME_ROOM ==> NamesDiffer(sk + [s])
  {
    hide Scan;
    if |n| <= NAME_ROOM {
      forall i | 0 <= i < |sk| && sk[i].active ensures sk[i].name != n {
        assert !Answers(sk[i], n);
      }
    }
  }

  predicate Poor(s: Skill) { s.active && s.calls >= MIN_CALLS && s.rate < SUCCESS_THRESHOLD }

  function CountPoor(sk: seq<Skill>): nat {
    if sk == [] then 0 else CountPoor(sk[..|sk| - 1]) + if Poor(sk[|sk| - 1]) then 1 else 0
  }

  class Engine {
    var skills: seq<Skill>
    var nextId: nat
    const registry: Map?

    ghost function Bindings(): map<Key, nat>
      reads this, registry
    {
      if registry == null then map[] else registry.m
    }

    ghost predicate Valid()
      reads this, registry
    {
      && |skills| <= MAX_SKILLS && (registry != null ==> registry.Valid()) && RegistryOk(skills, Bindings())
      && nextId > 0 && forall i | 0 <= i < |skills| :: 0 < skills[i].id < nextId
    }

    /** skill_init; the registry may be missing. */
    constructor (registry: Map?)
      requires registry != null ==> registry.Valid() && registry.m == map[]
      ensures Valid() && skills == [] && this.registry == registry && NamesDiffer(skills)
    {
      this.registry := registry;
      skills, nextId := [], 1;
    }

    method ScanTable(name: Key) returns (i: nat)
      ensures i == Scan(skills, name)
    {
      i := 0;
      while i < |skills| && !(skills[i].active && skills[i].name == name)
        invariant i <= |skills| && forall j | 0 <= j < i :: !Answers(skills[j], name)
      {
        i := i + 1;
      }
      ScanIs(skills, name, i);
    }

    /** skill_find_by_name: the registry first, then the scan; always the skill the scan alone would give. */
    method FindByName(name: Key) returns (r: Option<nat>)
      requires Valid()
      ensures r == if Scan(skills, name) < |skills| then Some(Scan(skills, name)) else None
    {
      hide Scan, TableOk, Agrees;
      if registry != null {
        var v := registry.Get(name);
        if v != 0 {
          assert BindingOk(skills, name, v);
          if v < |skills| && skills[v].active && skills[v].name == name {
            return Some(v);
          }
        }
      }
      var i := ScanTable(name);
      r := if i < |skills| then Some(i) else None;
    }

    /** skill_register. */
    method Register(name: Key, tableRoom: bool, entryRoom: bool) returns (r: Option<nat>)
      requires Valid()
      modifies this, registry
      ensures Valid()
      ensures r == None <==> old(|skills|) >= MAX_SKILLS || old(Scan(skills, name)) < old(|skills|)
      ensures r == None ==> skills == old(skills) && Bindings() == old(Bindings()) && nextId == old(nextId)
      ensures r != None ==> r == Some(old(|skills|)) && nextId == old(nextId) + 1
                            && skills == old(skills) + [Skill(old(nextId), Trunc(name), true, 0, 1.0)]
      ensures r != None && registry != null ==>
                || Bindings() == old(Bindings())[name := |old(skills)|]
                || (Bindings() == old(Bindings()) && name !in Bindings()
                    && (!tableRoom || !entryRoom || |registry.buckets| * 2 >= TWO64))
      ensures |name| <= NAME_ROOM && NamesDiffer(old(skills)) ==> NamesDiffer(skills)
    {
      hide Scan, TableOk, Agrees, LoadOk;
      if |skills| >= MAX_SKILLS {
        return None;
      }
      var i := ScanTable(name);
      if i < |skills| {
        return None;
      }
      var slot := |skills|;
      if NamesDiffer(skills) { RegisterKeepsNames(skills, name, Skill(nextId, Trunc(name), true, 0, 1.0)); }
      RegisterKeeps(skills, Bindings(), name, Skill(nextId, Trunc(name), true, 0, 1.0));
      skills := skills + [Skill(nextId, Trunc(name), true, 0, 1.0)];
      nextId := nextId + 1;
      if registry != null {
        var _ := registry.Put(name, slot, tableRoom, entryRoom);
      }
      r := Some(slot);
    }

    /** The common part of unregistering and retiring: the binding of the stored name goes, the skill is off. */
    method Retire(i: nat)
      requires Valid() && i < |skills|
      modifies this`skills, registry
      ensures Valid() && skills == old(skills)[i := old(skills)[i].(active := false)]
      ensures Bindings() == old(Bindings()) - {old(skills)[i].name}
      ensures NamesDiffer(old(skills)) ==> NamesDiffer(skills)
    {
      hide Scan, TableOk, Agrees, LoadOk;
      RetireKeeps(skills, Bindings(), i, skills[i].name);
      if registry != null {
        var _ := registry.Remove(skills[i].name);
      }
      skills := skills[i := skills[i].(active := false)];
    }

    /** skill_unregister: the first slot with the id, active or not. */
    method Unregister(id: nat) returns (ok: bool)
      requires Valid()
      modifies this`skills, registry
      ensures Valid()
      ensures ok <==> exists i | 0 <= i < old(|skills|) :: old(skills)[i].id == id
      ensures !ok ==> skills == old(skills)
      ensures ok ==> exists i: nat | i < old(|skills|) :: && old(skills)[i].id == id
                                                     && (forall j | 0 <= j < i :: old(skills)[j].id != id)
                                                     && skills == old(skills)[i := old(skills)[i].(active := false)]
      ensures NamesDiffer(old(skills)) ==> NamesDiffer(skills)
    {
      hide Scan, RegistryOk;
      var i := 0;
      while i < |skills|
        invariant i <= |skills| && Valid() && skills == old(skills)
        invariant forall j | 0 <= j < i :: skills[j].id != id
      {
        if skills[i].id == id {
          Retire(i);
          return true;
        }
        i := i + 1;
      }
      ok := false;
    }

    /** skill_auto_retire: exactly the active skills with enough calls and too little success are switched off. */
    method AutoRetire() returns (retired: nat)
      requires Valid()
      modifies this`skills, registry
      ensures Valid() && |skills| == old(|skills|) && retired == CountPoor(old(skills))
      ensures forall i | 0 <= i < |skills| ::
                skills[i] == if Poor(old(skills)[i]) then old(skills)[i].(active := false) else old(skills)[i]
      ensures forall i | 0 <= i < |skills| ::
                skills[i].active <==> old(skills)[i].active && (old(skills)[i].calls < 10 || old(skills)[i].rate >= 0.6)
      ensures NamesDiffer(old(skills)) ==> NamesDiffer(skills)
    {
      hide Scan, RegistryOk;
      retired := 0;
      for i := 0 to |skills|
        invariant Valid() && |skills| == old(|skills|) && retired == CountPoor(old(skills)[..i])
        invariant forall j | 0 <= j < i ::
                    skills[j] == if Poor(old(skills)[j]) then old(skills)[j].(active := false) else old(skills)[j]
        invariant forall j | i <= j < |skills| :: skills[j] == old(skills)[j]
        invariant NamesDiffer(old(skills)) ==> NamesDiffer(skills)
      {
        if skills[i].active && skills[i].calls >= MIN_CALLS && skills[i].rate < SUCCESS_THRESHOLD {
          Retire(i);
          retired := retired + 1;
        }
        assert old(skills)[..i + 1][..i] == old(skills)[..i];
      }
      assert old(skills)[..|skills|] == old(skills);
    }

    /** Executions change the statistics of a skill and nothing else. */
    method Record(i: nat, calls: nat, rate: real)
      requires Valid() && i < |skills|
      modifies this`skills
      ensures Valid() && skills == old(skills)[i := old(skills)[i].(calls := calls, rate := rate)]
      ensures NamesDiffer(old(skills)) ==> NamesDiffer(skills)
    {
      hide Scan, RegistryOk;
      StatsKeep(skills, Bindings(), i, calls, rate);
      skills := skills[i := skills[i].(calls := calls, rate := rate)];
    }
  }
}
