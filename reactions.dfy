/**
  The reactions sheet (components/ReactionsBottomSheet.tsx): the reactions of
  one message grouped by their value (the emoji), each group listing its
  reactors, and a "No reactions yet." line when there are none.

  The grouping is a `reduce` into an object literal `{}` used as a
  dictionary; `Object.entries` then lists the groups in the order their keys
  were first added. A group list in first-occurrence order models that
  dictionary.
 */
module ReactionsSheet {
  import opened Entities
  import opened KeyedSeq
  import opened Avatar

  datatype Group = Group(value: string, reactions: seq<Reaction>)

  function GroupValue(g: Group): string { g.value }

  /** The reactions of `rs` whose value is `v`, in order. */
  ghost function WithValue(rs: seq<Reaction>, v: string): seq<Reaction>
    decreases |rs|
  {
    if |rs| == 0 then []
    else WithValue(rs[..|rs| - 1], v) + (if rs[|rs| - 1].value == v then [rs[|rs| - 1]] else [])
  }

  /** The distinct values of `rs`. */
  ghost function Values(rs: seq<Reaction>): set<string>
  {
    set r | r in rs :: r.value
  }

  /** The number of reactions over all groups. */
  function SizeSum(gs: seq<Group>): nat
    decreases |gs|
  {
    if |gs| == 0 then 0 else SizeSum(gs[..|gs| - 1]) + |gs[|gs| - 1].reactions|
  }

  // ---------------------------------------------------------------------------
  // The grouping

  /** One step of the reduce on a dictionary that holds only its own keys:
      push onto the group of the reaction's value, creating it if needed. */
  ghost function AddReaction(gs: seq<Group>, r: Reaction): seq<Group>
  {
    var i := IndexOf(gs, r.value, GroupValue);
    if i == -1 then gs + [Group(r.value, [r])]
    else gs[i := gs[i].(reactions := gs[i].reactions + [r])]
  }

  /** The grouping the sheet means to show. */
  ghost function Grouped(rs: seq<Reaction>): seq<Group>
    decreases |rs|
  {
    if |rs| == 0 then [] else AddReaction(Grouped(rs[..|rs| - 1]), rs[|rs| - 1])
  }

  /** The names an empty object literal inherits from `Object.prototype`. */
  const InheritedKeys: set<string> := {
    "constructor", "hasOwnProperty", "isPrototypeOf", "propertyIsEnumerable",
    "toLocaleString", "toString", "valueOf", "__proto__",
    "__defineGetter__", "__defineSetter__", "__lookupGetter__", "__lookupSetter__"}

  /** `value` names a property every object literal already has. */
  predicate IsInherited(value: string)
  {
    value in InheritedKeys
  }

  const PushTypeError := "TypeError: acc[reaction.value].push is not a function"

  /** The reduce as written over `{}`: for an inherited name `acc[value]` is
      already truthy (a function, or the prototype itself), so no array is
      created and the `push` call throws. */
  ghost function GroupOnPlainObject(rs: seq<Reaction>): Call<seq<Group>>
    decreases |rs|
  {
    if |rs| == 0 then Returned([])
    else match GroupOnPlainObject(rs[..|rs| - 1])
      case Threw(e) => Threw(e)
      case Returned(gs) =>
        var r := rs[|rs| - 1];
        if IndexOf(gs, r.value, GroupValue) == -1 && IsInherited(r.value) then Threw(PushTypeError)
        else Returned(AddReaction(gs, r))
  }

  /** The `reduce` callback as written: look the value up on the dictionary,
      create an empty group when the lookup is falsy, then push. */
  method ReduceStep(acc: seq<Group>, reaction: Reaction) returns (next: Call<seq<Group>>)
    ensures next == if IndexOf(acc, reaction.value, GroupValue) == -1 && IsInherited(reaction.value)
                    then Threw(PushTypeError) else Returned(AddReaction(acc, reaction))
  {
    var groups := acc;
    var idx := FindIndex(groups, reaction.value, GroupValue);
    if idx == -1 {
      if IsInherited(reaction.value) {
        return Threw(PushTypeError);
      }
      groups := groups + [Group(reaction.value, [])];
      idx := |groups| - 1;
      CreateThenPush(acc, reaction);
    }
    groups := groups[idx := groups[idx].(reactions := groups[idx].reactions + [reaction])];
    next := Returned(groups);
  }

  /** The `reduce` over the reactions, from the empty object. */
  method GroupReactions(rs: seq<Reaction>) returns (outcome: Call<seq<Group>>)
    ensures outcome == GroupOnPlainObject(rs)
  {
    var acc: seq<Group> := [];
    var i := 0;
    while i < |rs|
      invariant 0 <= i <= |rs|
      invariant GroupOnPlainObject(rs[..i]) == Returned(acc)
    {
      var next := ReduceStep(acc, rs[i]);
      PlainObjectStep(rs, i, acc);
      if next.Threw? {
        ThrownStaysThrown(rs, i + 1);
        return next;
      }
      acc := next.value;
      i := i + 1;
    }
    assert rs[..i] == rs;
    outcome := Returned(acc);
  }

  /** Creating the missing group empty and then pushing onto it adds the
      one-reaction group. */
  lemma CreateThenPush(gs: seq<Group>, r: Reaction)
    requires IndexOf(gs, r.value, GroupValue) == -1
    ensures var a := gs + [Group(r.value, [])];
      a[|gs| := a[|gs|].(reactions := a[|gs|].reactions + [r])] == AddReaction(gs, r)
  {
    var a := gs + [Group(r.value, [])];
    assert a[|gs|].(reactions := a[|gs|].reactions + [r]) == Group(r.value, [r]);
    assert a[|gs| := Group(r.value, [r])] == gs + [Group(r.value, [r])];
  }

  /** One more reaction into the written reduce. */
  lemma PlainObjectStep(rs: seq<Reaction>, i: nat, acc: seq<Group>)
    requires i < |rs| && GroupOnPlainObject(rs[..i]) == Returned(acc)
    ensures GroupOnPlainObject(rs[..i + 1]) ==
      if IndexOf(acc, rs[i].value, GroupValue) == -1 && IsInherited(rs[i].value) then Threw(PushTypeError)
      else Returned(AddReaction(acc, rs[i]))
  {
    assert rs[..i + 1][..i] == rs[..i];
  }

  /** Once the reduce has thrown, the rest of the reactions do not matter. */
  lemma {:induction false} ThrownStaysThrown(rs: seq<Reaction>, n: nat)
    requires n <= |rs| && GroupOnPlainObject(rs[..n]).Threw?
    ensures GroupOnPlainObject(rs) == GroupOnPlainObject(rs[..n])
    decreases |rs|
  {
    if n < |rs| {
      var init := rs[..|rs| - 1];
      assert init[..n] == rs[..n];
      ThrownStaysThrown(init, n);
    } else {
      assert rs[..n] == rs;
    }
  }

  // ---------------------------------------------------------------------------
  // What the grouping shows

  lemma WithValueAbsent(rs: seq<Reaction>, v: string)
    requires v !in Values(rs)
    ensures WithValue(rs, v) == []
    decreases |rs|
  {
    if |rs| > 0 {
      assert Values(rs[..|rs| - 1]) <= Values(rs) by {
        forall r | r in rs[..|rs| - 1] ensures r in rs { }
      }
      assert rs[|rs| - 1] in rs;
      WithValueAbsent(rs[..|rs| - 1], v);
    }
  }

  lemma WithValueSnoc(rs: seq<Reaction>, r: Reaction, v: string)
    ensures WithValue(rs + [r], v) == WithValue(rs, v) + (if r.value == v then [r] else [])
  {
    assert (rs + [r])[..|rs|] == rs;
  }

  lemma ValuesSnoc(rs: seq<Reaction>, r: Reaction)
    ensures Values(rs + [r]) == Values(rs) + {r.value}
  {
    assert forall x :: x in rs + [r] <==> x in rs || x == r;
  }

  /** `gs` is the grouping of `rs`: one group per value, no value twice, and
      each group holding exactly the reactions with its value, in order. */
  ghost predicate GroupsOf(gs: seq<Group>, rs: seq<Reaction>)
  {
    && UniqueKeys(gs, GroupValue)
    && Keys(gs, GroupValue) == Values(rs)
    && forall j :: 0 <= j < |gs| ==> gs[j].reactions == WithValue(rs, gs[j].value)
  }

  lemma AddNewGroup(gs: seq<Group>, rs: seq<Reaction>, r: Reaction)
    requires GroupsOf(gs, rs) && IndexOf(gs, r.value, GroupValue) == -1
    ensures GroupsOf(gs + [Group(r.value, [r])], rs + [r])
  {
    var out := gs + [Group(r.value, [r])];
    KeysIndexOf(gs, r.value, GroupValue);
    KeysSnoc(gs, Group(r.value, [r]), GroupValue);
    ValuesSnoc(rs, r);
    WithValueAbsent(rs, r.value);
    forall j | 0 <= j < |out| ensures out[j].reactions == WithValue(rs + [r], out[j].value) {
      WithValueSnoc(rs, r, out[j].value);
    }
  }

  lemma AddToExistingGroup(gs: seq<Group>, rs: seq<Reaction>, r: Reaction)
    requires GroupsOf(gs, rs) && IndexOf(gs, r.value, GroupValue) != -1
    ensures var i := IndexOf(gs, r.value, GroupValue);
      GroupsOf(gs[i := gs[i].(reactions := gs[i].reactions + [r])], rs + [r])
  {
    var i := IndexOf(gs, r.value, GroupValue);
    var out := gs[i := gs[i].(reactions := gs[i].reactions + [r])];
    KeysIndexOf(gs, r.value, GroupValue);
    KeysUpdate(gs, i, out[i], GroupValue);
    ValuesSnoc(rs, r);
    forall j | 0 <= j < |out| ensures out[j].reactions == WithValue(rs + [r], out[j].value) {
      WithValueSnoc(rs, r, out[j].value);
      if j != i {
        assert GroupValue(gs[j]) != GroupValue(gs[i]);
      }
    }
    assert UniqueKeys(out, GroupValue) by {
      forall a, b | 0 <= a < b < |out| ensures GroupValue(out[a]) != GroupValue(out[b]) {
        assert GroupValue(out[a]) == GroupValue(gs[a]) && GroupValue(out[b]) == GroupValue(gs[b]);
      }
    }
  }

  /** Every value of the reactions heads exactly one group, in order of first
      occurrence, and each group holds exactly the reactions with its value,
      in their order. */
  lemma {:induction false} GroupedShape(rs: seq<Reaction>)
    ensures GroupsOf(Grouped(rs), rs)
    decreases |rs|
  {
    if |rs| > 0 {
      var init, r := rs[..|rs| - 1], rs[|rs| - 1];
      assert rs == init + [r];
      GroupedShape(init);
      if IndexOf(Grouped(init), r.value, GroupValue) == -1 {
        AddNewGroup(Grouped(init), init, r);
      } else {
        AddToExistingGroup(Grouped(init), init, r);
      }
    }
  }

  lemma {:induction false} WithValueMembers(rs: seq<Reaction>, v: string)
    ensures forall x :: x in WithValue(rs, v) <==> x in rs && x.value == v
    decreases |rs|
  {
    if |rs| > 0 {
      var init, r := rs[..|rs| - 1], rs[|rs| - 1];
      WithValueMembers(init, v);
      assert rs == init + [r];
    }
  }

  /** Every reaction lands in the group of its own value, and in no other. */
  lemma ReactionInItsGroup(rs: seq<Reaction>, k: nat)
    requires k < |rs|
    ensures exists j :: 0 <= j < |Grouped(rs)| && Grouped(rs)[j].value == rs[k].value && rs[k] in Grouped(rs)[j].reactions
    ensures forall j :: 0 <= j < |Grouped(rs)| && rs[k] in Grouped(rs)[j].reactions ==> Grouped(rs)[j].value == rs[k].value
  {
    var gs := Grouped(rs);
    GroupedShape(rs);
    assert rs[k] in rs;
    assert rs[k].value in Keys(gs, GroupValue);
    var g :| g in gs && GroupValue(g) == rs[k].value;
    var j :| 0 <= j < |gs| && gs[j] == g;
    WithValueMembers(rs, rs[k].value);
    forall j' | 0 <= j' < |gs| && rs[k] in gs[j'].reactions ensures gs[j'].value == rs[k].value {
      WithValueMembers(rs, gs[j'].value);
    }
  }

  lemma {:induction false} SizeSumSnoc(gs: seq<Group>, g: Group)
    ensures SizeSum(gs + [g]) == SizeSum(gs) + |g.reactions|
  {
    assert (gs + [g])[..|gs|] == gs;
  }

  lemma {:induction false} SizeSumUpdate(gs: seq<Group>, i: nat, g: Group)
    requires i < |gs|
    ensures SizeSum(gs[i := g]) == SizeSum(gs) - |gs[i].reactions| + |g.reactions|
    decreases |gs|
  {
    var u := gs[i := g];
    if i < |gs| - 1 {
      assert u[..|u| - 1] == gs[..|gs| - 1][i := g];
      SizeSumUpdate(gs[..|gs| - 1], i, g);
    } else {
      assert u[..|u| - 1] == gs[..|gs| - 1];
    }
  }

  /** The group headers' counts add up to the number of reactions: no reaction
      is lost or shown twice. */
  lemma {:induction false} GroupedSizes(rs: seq<Reaction>)
    ensures SizeSum(Grouped(rs)) == |rs|
    decreases |rs|
  {
    if |rs| > 0 {
      var init, r := rs[..|rs| - 1], rs[|rs| - 1];
      var gs := Grouped(init);
      GroupedSizes(init);
      var i := IndexOf(gs, r.value, GroupValue);
      if i == -1 {
        SizeSumSnoc(gs, Group(r.value, [r]));
      } else {
        SizeSumUpdate(gs, i, gs[i].(reactions := gs[i].reactions + [r]));
      }
    }
  }

  /** "No reactions yet." is shown exactly when no group is shown. */
  lemma EmptyTextIffNoGroups(rs: seq<Reaction>)
    ensures |rs| == 0 <==> Grouped(rs) == []
  {
    GroupedShape(rs);
    if |rs| > 0 {
      assert rs[0] in rs;
      assert rs[0].value in Keys(Grouped(rs), GroupValue);
    }
  }

  /** While no value is an inherited name, the written reduce yields the
      intended grouping. */
  lemma {:induction false} PlainObjectAgrees(rs: seq<Reaction>)
    requires forall k :: 0 <= k < |rs| ==> !IsInherited(rs[k].value)
    ensures GroupOnPlainObject(rs) == Returned(Grouped(rs))
    decreases |rs|
  {
    if |rs| > 0 {
      PlainObjectAgrees(rs[..|rs| - 1]);
    }
  }

  /** The written reduce throws exactly when some reaction's value is an
      inherited name. */
  lemma {:induction false} PlainObjectThrowsIff(rs: seq<Reaction>)
    ensures GroupOnPlainObject(rs).Threw? <==> exists k :: 0 <= k < |rs| && IsInherited(rs[k].value)
    decreases |rs|
  {
    if |rs| > 0 {
      var init, r := rs[..|rs| - 1], rs[|rs| - 1];
      PlainObjectThrowsIff(init);
      if GroupOnPlainObject(init).Threw? {
        var k :| 0 <= k < |init| && IsInherited(init[k].value);
        assert rs[k] == init[k];
      } else {
        PlainObjectAgrees(init);
        GroupedShape(init);
        var gs := Grouped(init);
        if IsInherited(r.value) {
          assert r.value !in Values(init);
          KeysIndexOf(gs, r.value, GroupValue);
        } else {
          forall k | 0 <= k < |rs| ensures !IsInherited(rs[k].value) {
            if k < |init| { assert rs[k] == init[k]; }
          }
        }
      }
    }
  }

  /** A single reaction whose value is "constructor" makes the sheet throw,
      where the intended grouping shows one group. */
  lemma ConstructorReactionThrows()
    ensures var r := Reaction("r1", "p1", "constructor");
      GroupOnPlainObject([r]) == Threw(PushTypeError) && Grouped([r]) == [Group("constructor", [r])]
  {
    var r := Reaction("r1", "p1", "constructor");
    assert [r][..0] == [];
  }

  // ---------------------------------------------------------------------------
  // One reactor's row

  /** The name on a reactor's row: the first participant with the reactor's
      uuid, unless missing or with an empty name, then "Unknown User". */
  function ReactorName(participants: seq<Participant>, r: Reaction): (name: string)
    ensures name != ""
    ensures (forall i :: 0 <= i < |participants| ==> participants[i].uuid != r.participantUuid) ==>
      name == "Unknown User"
    ensures forall i ::
      (0 <= i < |participants| && participants[i].uuid == r.participantUuid &&
       forall j :: 0 <= j < i ==> participants[j].uuid != r.participantUuid) ==>
      name == (if participants[i].name == "" then "Unknown User" else participants[i].name)
  {
    match Find(participants, r.participantUuid, ParticipantUuid)
    case Some(p) => if p.name == "" then "Unknown User" else p.name
    case None => "Unknown User"
  }

  /** The avatar on a reactor's row, from the participant's avatar URL and name. */
  function ReactorAvatar(participants: seq<Participant>, r: Reaction): (c: Content)
    ensures Find(participants, r.participantUuid, ParticipantUuid).None? ==> c == Placeholder("?")
    ensures forall p :: Find(participants, r.participantUuid, ParticipantUuid) == Some(p) ==>
      c == AvatarContent(p.avatarUrl, Some(p.name))
  {
    match Find(participants, r.participantUuid, ParticipantUuid)
    case Some(p) => AvatarContent(p.avatarUrl, Some(p.name))
    case None => AvatarContent(None, None)
  }
}
