/**
 * `getPersons` (ggd2json.py:81-97): a person or author field as a list of
 * name/role entries. A role is split off at the last `. ` of an entry while
 * the loop-carried `role` variable is truthy; that variable starts as the
 * `role` argument and is overwritten by every entry.
 */
module GgdPersons {
  import opened Results
  import opened Text
  import opened GgdValues

  const RoleSeparator: string := ". "

  /** The Python variable `role`: the boolean argument, then a string or None. */
  datatype RoleVar = Flag(on: bool) | Role(text: string) | Unset

  predicate IsSet(role: RoleVar)
  {
    match role
    case Flag(on) => on
    case Role(t) => t != ""
    case Unset => false
  }

  /** The carried `role` after the entry `name`: the right piece of a split, or `None`. */
  function NextRole(name: string, role: RoleVar): RoleVar
  {
    if IsSet(role) && Contains(name, RoleSeparator) then
      Role(name[FindLast(name, RoleSeparator).value + |RoleSeparator|..])
    else Unset
  }

  /** The entry appended for `name` while `role` is carried. */
  function EntryOf(name: string, role: RoleVar): PersonRole
  {
    if IsSet(role) && Contains(name, RoleSeparator) then
      var cut := FindLast(name, RoleSeparator).value;
      PersonRole(name[..cut], Some(name[cut + |RoleSeparator|..]))
    else PersonRole(name, None)
  }

  /** What the loop appends for `names`, starting with `role` as the carried variable. */
  function SplitEntries(names: seq<string>, role: RoleVar): (entries: seq<PersonRole>)
    ensures |entries| == |names|
    decreases |names|
  {
    if names == [] then []
    else [EntryOf(names[0], role)] + SplitEntries(names[1..], NextRole(names[0], role))
  }

  /** `getPersons(persons, role)`. */
  method GetPersons(persons: RawValue, role: bool) returns (plist: seq<PersonRole>)
    ensures plist == SplitEntries(Entries(persons), Flag(role))
  {
    var names := if persons.Str? then [persons.text] else persons.elems;
    var carried := Flag(role);
    plist := [];
    for i := 0 to |names|
      invariant plist + SplitEntries(names[i..], carried) == SplitEntries(names, Flag(role))
    {
      var person := names[i];
      ghost var before := carried;
      SplitEntriesAt(names, i, before);
      if IsSet(carried) && Contains(person, RoleSeparator) {
        var cut := FindLast(person, RoleSeparator).value;
        person, carried := person[..cut], Role(person[cut + |RoleSeparator|..]);
      } else {
        carried := Unset;
      }
      var entry := PersonRole(person, if carried.Role? then Some(carried.text) else None);
      assert entry == EntryOf(names[i], before) && carried == NextRole(names[i], before);
      assert plist + [entry] + SplitEntries(names[i + 1..], carried) == plist + SplitEntries(names[i..], before);
      plist := plist + [entry];
    }
  }

  /** The entries from position `i` on: the entry for `names[i]`, then the rest with the role it leaves. */
  lemma SplitEntriesAt(names: seq<string>, i: nat, role: RoleVar)
    requires i < |names|
    ensures SplitEntries(names[i..], role) ==
            [EntryOf(names[i], role)] + SplitEntries(names[i + 1..], NextRole(names[i], role))
  {
    assert names[i..][1..] == names[i + 1..] && names[i..][0] == names[i];
  }

  /** Each of the first `i` entries got a non-empty role. */
  ghost predicate RolesBefore(out: seq<PersonRole>, i: nat)
    requires i <= |out|
  {
    forall j :: 0 <= j < i ==> out[j].role.Some? && out[j].role.value != ""
  }

  /** The first `i` entries after the head got roles exactly when the head and the first `i - 1` after it did. */
  lemma RolesBeforeCons(out: seq<PersonRole>, rest: seq<PersonRole>, i: nat)
    requires out != [] && out == [out[0]] + rest && 0 < i <= |out|
    ensures RolesBefore(out, i) <==> (out[0].role.Some? && out[0].role.value != "") && RolesBefore(rest, i - 1)
  {
    assert forall j :: 0 <= j < i - 1 ==> rest[j] == out[j + 1];
    if (out[0].role.Some? && out[0].role.value != "") && RolesBefore(rest, i - 1) {
      forall j | 0 <= j < i
        ensures out[j].role.Some? && out[j].role.value != ""
      {
        if j > 0 {
          assert out[j] == rest[j - 1];
        }
      }
    }
  }

  /**
   * Entry `i` carries a role exactly when the call asked for roles, its name
   * contains `. `, and every earlier entry got a non-empty role.
   */
  lemma {:induction false} EntryAt(names: seq<string>, role: RoleVar, i: nat)
    requires i < |names|
    ensures |SplitEntries(names, role)| == |names|
    ensures SplitEntries(names, role)[i].role.Some? <==>
              IsSet(role) && Contains(names[i], RoleSeparator) && RolesBefore(SplitEntries(names, role), i)
    decreases i
  {
    var out := SplitEntries(names, role);
    var name := names[0];
    var split := IsSet(role) && Contains(name, RoleSeparator);
    var next := NextRole(name, role);
    var rest := SplitEntries(names[1..], next);
    assert out == [out[0]] + rest;
    if i > 0 {
      EntryAt(names[1..], next, i - 1);
      assert out[i] == rest[i - 1];
      assert names[1..][i - 1] == names[i];
      assert IsSet(next) <==> out[0].role.Some? && out[0].role.value != "";
      assert IsSet(next) ==> IsSet(role);
      RolesBeforeCons(out, rest, i);
    }
  }

  /** A split entry rejoins to the name at the last `. `; an unsplit one is the name. */
  lemma {:induction false} EntryShape(names: seq<string>, role: RoleVar, i: nat)
    requires i < |names|
    ensures |SplitEntries(names, role)| == |names|
    ensures var e := SplitEntries(names, role)[i];
            e.role.Some? ==>
              e.person + RoleSeparator + e.role.value == names[i] &&
              !Contains(e.role.value, RoleSeparator)
    ensures var e := SplitEntries(names, role)[i];
            e.role.None? ==> e.person == names[i]
    decreases i
  {
    var out := SplitEntries(names, role);
    var name := names[0];
    var split := IsSet(role) && Contains(name, RoleSeparator);
    var next := NextRole(name, role);
    var rest := SplitEntries(names[1..], next);
    assert out == [out[0]] + rest;
    if i == 0 {
      if split {
        RoleSplitsAtLast(name);
      }
    } else {
      EntryShape(names[1..], next, i - 1);
      assert out[i] == rest[i - 1];
      assert names[1..][i - 1] == names[i];
    }
  }

  /** `rsplit('. ', 1)` cuts at the last `. `: the pieces rejoin, and the right one holds no `. `. */
  lemma RoleSplitsAtLast(name: string)
    requires Contains(name, RoleSeparator)
    ensures var cut := FindLast(name, RoleSeparator).value;
            name[..cut] + RoleSeparator + name[cut + 2..] == name &&
            !Contains(name[cut + 2..], RoleSeparator)
  {
    var cut := FindLast(name, RoleSeparator).value;
    var right := name[cut + 2..];
    assert name == name[..cut] + name[cut..cut + 2] + right;
    forall j | 0 <= j <= |right|
      ensures !OccursAt(right, RoleSeparator, j)
    {
      if j + 2 <= |right| {
        assert right[j..j + 2] == name[cut + 2 + j..cut + 2 + j + 2];
        assert !OccursAt(name, RoleSeparator, cut + 2 + j);
      }
    }
  }

  /**
   * Carry-over: once an entry gets no role, or an empty one, no later entry
   * of the same call is split.
   */
  lemma CarryOver(names: seq<string>, role: RoleVar, i: nat, k: nat)
    requires i < k < |names|
    requires var out := SplitEntries(names, role);
             |out| == |names| && (out[i].role.None? || out[i].role == Some(""))
    ensures SplitEntries(names, role)[k] == PersonRole(names[k], None)
  {
    EntryAt(names, role, k);
    EntryShape(names, role, k);
  }

  /** Called with `role=False` (the authors), no entry is split. */
  lemma NoRolesRequested(names: seq<string>, i: nat)
    requires i < |names|
    ensures |SplitEntries(names, Flag(false))| == |names|
    ensures SplitEntries(names, Flag(false))[i] == PersonRole(names[i], None)
  {
    EntryAt(names, Flag(false), i);
    EntryShape(names, Flag(false), i);
  }
}
