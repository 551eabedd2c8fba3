/** Properties that relate the engine's operations to one another: what a
    later listing or dispatch observes after a registration or a deletion,
    and how the literal DeleteGroup differs from the intended one. */
module EngineProperties {

  import opened Optional
  import opened Results
  import opened CallBack
  import opened CallBackEngine

  /* ----- lookup and listing ----- */

  /** A name is listed exactly when the lookup finds it. */
  lemma ListedIffFound<P>(e: Engine<P>, name: string)
    ensures name in Info_GetGroupList(e) <==> GetGroupIndex(e, name) != -1
  {
  }

  /** In a valid engine the listing has no repeated name, and the lookup
      returns the one position that holds the name. */
  lemma ListingIsDistinct<P>(e: Engine<P>, name: string, i: int)
    requires Valid(e)
    requires 0 <= i < |e.groups| && e.groups[i].name == name
    ensures GetGroupIndex(e, name) == i
    ensures forall j :: 0 <= j < |e.groups| && j != i ==> Info_GetGroupList(e)[j] != name
  {
  }

  /** The lookup depends on the group names alone. */
  lemma LookupByNamesOnly<P>(e1: Engine<P>, e2: Engine<P>, name: string)
    requires Info_GetGroupList(e1) == Info_GetGroupList(e2)
    ensures GetGroupIndex(e1, name) == GetGroupIndex(e2, name)
  {
  }

  /* ----- registration ----- */

  /** Registering under `groupName` appends exactly the new callback to what
      that group listed before, whether the group existed or not. */
  lemma AddCallBackAppends<P>(e: Engine<P>, name: string, groupName: string,
                              f: P -> Outcome, disabled: bool)
    ensures Info_GetCallbackFromGroup(AddCallBack(e, name, groupName, f, disabled).engine, groupName)
         == Info_GetCallbackFromGroup(e, groupName) + [NewCallback(name, f, disabled)]
  {
  }

  /** Registering under `groupName` leaves what every other group lists
      unchanged. */
  lemma AddCallBackLeavesOthers<P>(e: Engine<P>, name: string, groupName: string,
                                   f: P -> Outcome, disabled: bool, other: string)
    requires other != groupName
    ensures Info_GetCallbackFromGroup(AddCallBack(e, name, groupName, f, disabled).engine, other)
         == Info_GetCallbackFromGroup(e, other)
  {
    var r := AddCallBack(e, name, groupName, f, disabled);
    if r.status == Success {
      LookupByNamesOnly(e, r.engine, other);
    } else {
      var i := GetGroupIndex(e, other);
      if i != -1 {
        assert r.engine.groups[i] == e.groups[i];
      }
    }
  }

  /** Registering adds `groupName` at the end of the group listing when it
      was absent, and leaves the listing as it was otherwise. */
  lemma AddCallBackGroupList<P>(e: Engine<P>, name: string, groupName: string,
                                f: P -> Outcome, disabled: bool)
    ensures Info_GetGroupList(AddCallBack(e, name, groupName, f, disabled).engine)
         == Info_GetGroupList(e) + (if GetGroupIndex(e, groupName) == -1 then [groupName] else [])
  {
  }

  /** The number of callbacks held by all groups together. */
  function TotalCallbacks<P>(groups: seq<Group<P>>): nat
  {
    if groups == [] then 0
    else TotalCallbacks(groups[..|groups| - 1]) + |groups[|groups| - 1].callbacks|
  }

  lemma {:induction false} TotalCallbacksUpdate<P>(groups: seq<Group<P>>, i: int, g: Group<P>)
    requires 0 <= i < |groups|
    ensures TotalCallbacks(groups[i := g])
         == TotalCallbacks(groups) - |groups[i].callbacks| + |g.callbacks|
  {
    var last := |groups| - 1;
    if i == last {
      assert groups[i := g][..last] == groups[..last];
    } else {
      assert groups[i := g][..last] == groups[..last][i := g];
      TotalCallbacksUpdate(groups[..last], i, g);
    }
  }

  /** Each registration adds exactly one callback to the registry. */
  lemma AddCallBackCountsOne<P>(e: Engine<P>, name: string, groupName: string,
                                f: P -> Outcome, disabled: bool)
    ensures TotalCallbacks(AddCallBack(e, name, groupName, f, disabled).engine.groups)
         == TotalCallbacks(e.groups) + 1
  {
    var r := AddCallBack(e, name, groupName, f, disabled);
    if r.status == Success {
      var i := GetGroupIndex(e, groupName);
      assert r.engine.groups == e.groups[i := r.engine.groups[i]];
      TotalCallbacksUpdate(e.groups, i, r.engine.groups[i]);
    } else {
      assert r.engine.groups[..|e.groups|] == e.groups;
    }
  }

  /** One call of AddCallBack, by its arguments. */
  datatype Registration<!P> = Registration(name: string, groupName: string, f: P -> Outcome, disabled: bool)

  /** The engine after the registrations `regs`, applied in order. */
  function RegisterAll<P>(e: Engine<P>, regs: seq<Registration<P>>): Engine<P>
  {
    if regs == [] then e
    else
      var last := regs[|regs| - 1];
      AddCallBack(RegisterAll(e, regs[..|regs| - 1]), last.name, last.groupName, last.f, last.disabled).engine
  }

  /** The callbacks `regs` put into the group `groupName`, in order. */
  function RegisteredTo<P>(regs: seq<Registration<P>>, groupName: string): seq<Callback<P>>
  {
    if regs == [] then []
    else
      var last := regs[|regs| - 1];
      RegisteredTo(regs[..|regs| - 1], groupName)
        + (if last.groupName == groupName then [NewCallback(last.name, last.f, last.disabled)] else [])
  }

  /** A run of registrations loses and duplicates nothing: every group ends
      up with what it had followed by exactly the callbacks registered to
      it, in registration order; the total grows by the number of
      registrations; and the engine stays valid. */
  lemma {:induction false} RegisterAllKeepsEverything<P>(e: Engine<P>, regs: seq<Registration<P>>, groupName: string)
    ensures Info_GetCallbackFromGroup(RegisterAll(e, regs), groupName)
         == Info_GetCallbackFromGroup(e, groupName) + RegisteredTo(regs, groupName)
    ensures TotalCallbacks(RegisterAll(e, regs).groups) == TotalCallbacks(e.groups) + |regs|
    ensures Valid(e) ==> Valid(RegisterAll(e, regs))
  {
    if regs != [] {
      var prefix := regs[..|regs| - 1];
      var last := regs[|regs| - 1];
      var mid := RegisterAll(e, prefix);
      RegisterAllKeepsEverything(e, prefix, groupName);
      AddCallBackCountsOne(mid, last.name, last.groupName, last.f, last.disabled);
      if last.groupName == groupName {
        AddCallBackAppends(mid, last.name, last.groupName, last.f, last.disabled);
      } else {
        AddCallBackLeavesOthers(mid, last.name, last.groupName, last.f, last.disabled, groupName);
      }
    }
  }

  /* ----- deletion ----- */

  /** After a successful deletion the name is no longer listed, has no
      callbacks and cannot be dispatched to. */
  lemma DeleteGroupRemoves<P>(e: Engine<P>, name: string, arg: P)
    requires Valid(e)
    requires GetGroupIndex(e, name) != -1
    ensures DeleteGroup(e, name).status == Success
    ensures name !in Info_GetGroupList(DeleteGroup(e, name).engine)
    ensures Info_GetCallbackFromGroup(DeleteGroup(e, name).engine, name) == []
    ensures DoCallBack(DeleteGroup(e, name).engine, name, arg).status == Failure
  {
  }

  /** After a deletion at position `i`, the groups before `i` keep their
      positions and the ones after it move down by one. */
  lemma DeleteGroupShifts<P>(e: Engine<P>, name: string, m: int)
    requires GetGroupIndex(e, name) != -1
    requires 0 <= m < |DeleteGroup(e, name).engine.groups|
    ensures DeleteGroup(e, name).engine.groups[m]
         == e.groups[if m < GetGroupIndex(e, name) then m else m + 1]
  {
  }

  /** A group that survives a deletion is found at its shifted position. */
  lemma DeleteGroupKeepsPresent<P>(e: Engine<P>, name: string, other: string)
    requires GetGroupIndex(e, name) != -1 && GetGroupIndex(e, other) != -1
    requires other != name
    ensures var i, j := GetGroupIndex(e, name), GetGroupIndex(e, other);
      GetGroupIndex(DeleteGroup(e, name).engine, other) == if j < i then j else j - 1
  {
    var e' := DeleteGroup(e, name).engine;
    var i, j := GetGroupIndex(e, name), GetGroupIndex(e, other);
    var k := if j < i then j else j - 1;
    DeleteGroupShifts(e, name, k);
    forall m | 0 <= m < k ensures e'.groups[m].name != other {
      DeleteGroupShifts(e, name, m);
    }
  }

  /** A name that was absent stays absent after a deletion. */
  lemma DeleteGroupKeepsAbsent<P>(e: Engine<P>, name: string, other: string)
    requires GetGroupIndex(e, name) != -1 && GetGroupIndex(e, other) == -1
    ensures GetGroupIndex(DeleteGroup(e, name).engine, other) == -1
  {
    var e' := DeleteGroup(e, name).engine;
    forall m | 0 <= m < |e'.groups| ensures e'.groups[m].name != other {
      DeleteGroupShifts(e, name, m);
    }
  }

  /** Deleting one group leaves what every other group lists unchanged. */
  lemma DeleteGroupLeavesOthers<P>(e: Engine<P>, name: string, other: string)
    requires other != name
    ensures Info_GetCallbackFromGroup(DeleteGroup(e, name).engine, other)
         == Info_GetCallbackFromGroup(e, other)
  {
    var i, j := GetGroupIndex(e, name), GetGroupIndex(e, other);
    if i != -1 && j != -1 {
      DeleteGroupKeepsPresent(e, name, other);
      DeleteGroupShifts(e, name, if j < i then j else j - 1);
    } else if i != -1 {
      DeleteGroupKeepsAbsent(e, name, other);
    }
  }

  /** `names` without any occurrence of `name`. */
  function Without(names: seq<string>, name: string): seq<string>
  {
    if names == [] then []
    else Without(names[..|names| - 1], name) + (if names[|names| - 1] == name then [] else [names[|names| - 1]])
  }

  lemma {:induction false} WithoutConcat(a: seq<string>, b: seq<string>, name: string)
    ensures Without(a + b, name) == Without(a, name) + Without(b, name)
  {
    if b == [] {
      assert a + b == a;
    } else {
      var b' := b[..|b| - 1];
      var tail := if b[|b| - 1] == name then [] else [b[|b| - 1]];
      assert (a + b)[..|a + b| - 1] == a + b';
      assert (a + b)[|a + b| - 1] == b[|b| - 1];
      WithoutConcat(a, b', name);
      calc {
        Without(a + b, name);
        Without(a + b', name) + tail;
        (Without(a, name) + Without(b', name)) + tail;
        Without(a, name) + (Without(b', name) + tail);
        Without(a, name) + Without(b, name);
      }
    }
  }

  lemma {:induction false} WithoutAbsent(names: seq<string>, name: string)
    requires name !in names
    ensures Without(names, name) == names
  {
    if names != [] {
      WithoutAbsent(names[..|names| - 1], name);
    }
  }

  /** Taking out the one occurrence of `name` between two runs that do not
      contain it leaves the two runs joined. */
  lemma WithoutOne(before: seq<string>, name: string, after: seq<string>)
    requires name !in before && name !in after
    ensures Without(before + [name] + after, name) == before + after
  {
    var single: seq<string> := [name];
    assert Without(single, name) == [] by {
      assert single[..0] == [];
    }
    WithoutConcat(before, single, name);
    WithoutAbsent(before, name);
    assert Without(before + single, name) == before;
    WithoutConcat(before + single, after, name);
    WithoutAbsent(after, name);
  }

  /** Deleting the group at position `i` drops the `i`-th listed name. */
  lemma DeleteGroupDropsName<P>(e: Engine<P>, name: string, i: int)
    requires i == GetGroupIndex(e, name) != -1
    ensures Info_GetGroupList(DeleteGroup(e, name).engine)
         == Info_GetGroupList(e)[..i] + Info_GetGroupList(e)[i + 1..]
  {
  }

  /** Deleting a group lists the same names as before with that one taken
      out, the others in their old order. */
  lemma DeleteGroupList<P>(e: Engine<P>, name: string)
    requires Valid(e)
    ensures Info_GetGroupList(DeleteGroup(e, name).engine) == Without(Info_GetGroupList(e), name)
  {
    var names := Info_GetGroupList(e);
    var i := GetGroupIndex(e, name);
    ListedIffFound(e, name);
    if i == -1 {
      WithoutAbsent(names, name);
    } else {
      var before, after := names[..i], names[i + 1..];
      assert names == before + [name] + after;
      assert name !in before;
      assert name !in after by {
        forall k | 0 <= k < |after| ensures after[k] != name {
          assert after[k] == e.groups[i + 1 + k].name;
        }
      }
      WithoutOne(before, name, after);
      DeleteGroupDropsName(e, name, i);
    }
  }

  /** The literal DeleteGroup never does what the intended one does: a
      present group is reported as a Failure and kept, and an absent name
      reaches an erase outside the bounds. */
  lemma DeleteGroupAsWrittenDiffers<P>(e: Engine<P>, name: string)
    ensures DeleteGroupAsWritten(e, name) != Some(DeleteGroup(e, name))
    ensures GetGroupIndex(e, name) != -1 ==> DeleteGroupAsWritten(e, name).value.engine == e
  {
  }

  /** Two concrete inputs: deleting from a fresh engine reaches the
      out-of-bounds erase, and deleting a group that exists keeps it. */
  lemma DeleteGroupAsWrittenCounterexample<P>(f: P -> Outcome)
    ensures DeleteGroupAsWritten(Init<P>(), "g") == None
    ensures var e := AddCallBack(Init<P>(), "A", "g", f, false).engine;
      && DeleteGroupAsWritten(e, "g") == Some(Reply(e, Failure))
      && DeleteGroup(e, "g") == Reply(Init<P>().(counter := 1), Success)
  {
    var e := AddCallBack(Init<P>(), "A", "g", f, false).engine;
    assert e.groups[0].name == "g";
  }

  /* ----- an end-to-end run ----- */

  /** Two callbacks registered under "onStart", the first returning 0 and
      the second 1: the first registration creates the group, the second
      joins it, a dispatch reports Success with the statuses Success and
      Failure in registration order, and "onStart" is the only group. */
  lemma OnStartScenario<P>(payload: P)
    ensures var f0 := (x: P) => Returns(0);
      var f1 := (x: P) => Returns(1);
      var r1 := AddCallBack(Init<P>(), "A", "onStart", f0, false);
      var r2 := AddCallBack(r1.engine, "B", "onStart", f1, false);
      && r1.status == CreatedNew
      && r2.status == Success
      && DoCallBack(r2.engine, "onStart", payload) == DispatchResult(Success, [Success, Failure])
      && Info_GetGroupList(r2.engine) == ["onStart"]
  {
  }

}
