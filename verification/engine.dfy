/** The callback registry (Pugback.h, struct PUG_CallBack_Group and class
    PUG_CallBack_Engine). Every public method is one atomic step from an
    engine state to a reply; the mutex that brackets each step in the C++
    code is not modelled. */
module CallBackEngine {

  import opened Optional
  import opened Results
  import opened CallBack

  /** A named group of callbacks, kept in registration order. */
  datatype Group<!P> = Group(id: int, name: string, callbacks: seq<Callback<P>>)

  /** The engine: its groups in creation order and the group-ID counter. */
  datatype Engine<!P> = Engine(groups: seq<Group<P>>, counter: int)

  /** The state after a mutating call, and the status code it returns. */
  datatype Reply<!P> = Reply(engine: Engine<P>, status: Status)

  /** The status a dispatch returns, with the per-callback statuses the C++
      loop computes and then discards. */
  datatype DispatchResult = DispatchResult(status: Status, results: seq<Status>)

  /* ----- the engine invariant ----- */

  /** No two groups share a name. */
  ghost predicate UniqueNames<P>(groups: seq<Group<P>>)
  {
    forall i, j :: 0 <= i < j < |groups| ==> groups[i].name != groups[j].name
  }

  /** Group IDs strictly increase along the sequence and were all handed out
      by the counter, so none of them exceeds it. */
  ghost predicate IncreasingIds<P>(groups: seq<Group<P>>, counter: int)
  {
    && (forall i, j :: 0 <= i < j < |groups| ==> groups[i].id < groups[j].id)
    && (forall i :: 0 <= i < |groups| ==> 0 < groups[i].id <= counter)
  }

  /** Every stored callback carries the placeholder identity 0. */
  ghost predicate PlaceholderIds<P>(groups: seq<Group<P>>)
  {
    forall i, k :: 0 <= i < |groups| && 0 <= k < |groups[i].callbacks| ==>
      groups[i].callbacks[k].id == 0 && groups[i].callbacks[k].groupId == 0
  }

  ghost predicate Valid<P>(e: Engine<P>)
  {
    && 0 <= e.counter
    && UniqueNames(e.groups)
    && IncreasingIds(e.groups, e.counter)
    && PlaceholderIds(e.groups)
  }

  /** The engine as its constructor leaves it: no groups, counter 0. */
  function Init<P>(): (e: Engine<P>)
    ensures Valid(e)
    ensures e.counter == 0
    ensures Info_GetGroupList(e) == []
  {
    Engine([], 0)
  }

  /* ----- lookup ----- */

  /** The scan of GetGroupIndex from position `start` on. */
  function FindFrom<P>(groups: seq<Group<P>>, name: string, start: nat): (r: int)
    requires start <= |groups|
    ensures r == -1 || start <= r < |groups|
    ensures r == -1 <==> forall i :: start <= i < |groups| ==> groups[i].name != name
    ensures r != -1 ==> groups[r].name == name
    ensures r != -1 ==> forall i :: start <= i < r ==> groups[i].name != name
    decreases |groups| - start
  {
    if start == |groups| then -1
    else if groups[start].name == name then start
    else FindFrom(groups, name, start + 1)
  }

  /** The position of the first group called `name`, or the sentinel -1. */
  function GetGroupIndex<P>(e: Engine<P>, name: string): (r: int)
    ensures -1 <= r < |e.groups|
    ensures r == -1 <==> forall i :: 0 <= i < |e.groups| ==> e.groups[i].name != name
    ensures r != -1 ==> e.groups[r].name == name
    ensures r != -1 ==> forall i :: 0 <= i < r ==> e.groups[i].name != name
  {
    FindFrom(e.groups, name, 0)
  }

  /** `std::vector::erase` at a position: outside the bounds there is no
      defined result. */
  function EraseAt<T>(s: seq<T>, i: int): (r: Option<seq<T>>)
    ensures r.Some? <==> 0 <= i < |s|
    ensures r.Some? ==> |r.value| == |s| - 1
    ensures r.Some? ==> forall k :: 0 <= k < |r.value| ==>
      r.value[k] == (if k < i then s[k] else s[k + 1])
  {
    if 0 <= i < |s| then Some(s[..i] + s[i + 1..]) else None
  }

  /** Appends `cb` to the callback list of the group at `index`. */
  function AppendAt<P>(e: Engine<P>, index: int, cb: Callback<P>): (r: Engine<P>)
    requires 0 <= index < |e.groups|
    ensures r.counter == e.counter && |r.groups| == |e.groups|
    ensures r.groups[index].id == e.groups[index].id
    ensures r.groups[index].name == e.groups[index].name
    ensures r.groups[index].callbacks == e.groups[index].callbacks + [cb]
    ensures forall i :: 0 <= i < |e.groups| && i != index ==> r.groups[i] == e.groups[i]
  {
    var g := e.groups[index];
    e.(groups := e.groups[index := g.(callbacks := g.callbacks + [cb])])
  }

  /* ----- mutating operations ----- */

  /** Creates an empty group called `name` unless one exists. The new group
      takes the incremented counter as its ID and goes at the end. */
  function CreateNewGroup<P>(e: Engine<P>, name: string): (r: Reply<P>)
    ensures r.status in {Success, Failure}
    ensures r.status == Failure <==> GetGroupIndex(e, name) != -1
    ensures r.status == Failure ==> r.engine == e
    ensures r.status == Success ==>
      && r.engine.counter == e.counter + 1
      && r.engine.groups == e.groups + [Group(r.engine.counter, name, [])]
    ensures Valid(e) ==> Valid(r.engine)
  {
    if GetGroupIndex(e, name) != -1 then Reply(e, Failure)
    else
      var id := e.counter + 1;
      Reply(Engine(e.groups + [Group(id, name, [])], id), Success)
  }

  /** Registers a callback called `name` under `groupName`. An existing
      group gets the callback appended and the call returns Success; an
      absent name first gets a new group and the call returns CreatedNew.
      `disabled` is the initial value of the flag the C++ constructor leaves
      uninitialised. */
  function AddCallBack<P>(e: Engine<P>, name: string, groupName: string,
                          f: P -> Outcome, disabled: bool): (r: Reply<P>)
    ensures r.status in {Success, CreatedNew}
    ensures r.status == Success <==> GetGroupIndex(e, groupName) != -1
    ensures r.status == Success ==>
      var i := GetGroupIndex(e, groupName);
      && r.engine.counter == e.counter
      && |r.engine.groups| == |e.groups|
      && r.engine.groups[i] == e.groups[i].(callbacks := e.groups[i].callbacks + [NewCallback(name, f, disabled)])
      && (forall j :: 0 <= j < |e.groups| && j != i ==> r.engine.groups[j] == e.groups[j])
    ensures r.status == CreatedNew ==>
      && r.engine.counter == e.counter + 1
      && r.engine.groups == e.groups + [Group(e.counter + 1, groupName, [NewCallback(name, f, disabled)])]
    ensures Valid(e) ==> Valid(r.engine)
  {
    var cb := NewCallback(name, f, disabled);
    var index := GetGroupIndex(e, groupName);
    if index != -1 then
      Reply(AppendAt(e, index, cb), Success)
    else
      var created := CreateNewGroup(e, groupName);
      if created.status == Failure then
        // unreachable: the name was just found absent
        Reply(created.engine, Failure)
      else
        var newIndex := GetGroupIndex(created.engine, groupName);
        assert created.engine.groups[|e.groups|].name == groupName;
        assert newIndex == |e.groups|;
        var appended := AppendAt(created.engine, newIndex, cb);
        assert created.engine.groups[newIndex].callbacks + [cb] == [cb];
        assert appended.groups[newIndex] == Group(e.counter + 1, groupName, [cb]);
        assert forall j :: 0 <= j < |e.groups| ==> appended.groups[j] == e.groups[j];
        assert appended.groups == e.groups + [Group(e.counter + 1, groupName, [cb])];
        Reply(appended, CreatedNew)
  }

  /** Deletes the group called `name`, as the comments at Pugback.h:255 and
      Pugback.h:264 describe it: an absent name is a Failure that changes
      nothing, a present one is removed, the others keeping their order. */
  function DeleteGroup<P>(e: Engine<P>, name: string): (r: Reply<P>)
    ensures r.status in {Success, Failure}
    ensures r.status == Failure <==> GetGroupIndex(e, name) == -1
    ensures r.status == Failure ==> r.engine == e
    ensures r.status == Success ==>
      var i := GetGroupIndex(e, name);
      && r.engine.counter == e.counter
      && r.engine.groups == e.groups[..i] + e.groups[i + 1..]
    ensures Valid(e) ==> Valid(r.engine)
  {
    var index := GetGroupIndex(e, name);
    if index == -1 then Reply(e, Failure)
    else
      match EraseAt(e.groups, index)
      case Some(rest) => Reply(e.(groups := rest), Success)
  }

  /** DeleteGroup exactly as Pugback.h:248-271 is written: the test at line
      256 is inverted, so a present group is reported as a Failure and left
      in place, and an absent one reaches the erase at the sentinel -1
      (None: the erase has no defined result). */
  function DeleteGroupAsWritten<P>(e: Engine<P>, name: string): (r: Option<Reply<P>>)
    ensures GetGroupIndex(e, name) != -1 ==> r == Some(Reply(e, Failure))
    ensures GetGroupIndex(e, name) == -1 ==> r == None
  {
    var index := GetGroupIndex(e, name);
    if index != -1 then Some(Reply(e, Failure))
    else
      match EraseAt(e.groups, index)
      case None => None
      case Some(rest) => Some(Reply(e.(groups := rest), Success))
  }

  /* ----- read-only operations ----- */

  /** The names of the groups, in group order. */
  function Info_GetGroupList<P>(e: Engine<P>): (names: seq<string>)
    ensures |names| == |e.groups|
    ensures forall i :: 0 <= i < |e.groups| ==> names[i] == e.groups[i].name
  {
    seq(|e.groups|, i requires 0 <= i < |e.groups| => e.groups[i].name)
  }

  /** A copy of the callbacks of the group called `name`; empty when there
      is no such group. */
  function Info_GetCallbackFromGroup<P>(e: Engine<P>, name: string): (cbs: seq<Callback<P>>)
    ensures GetGroupIndex(e, name) == -1 ==> cbs == []
    ensures GetGroupIndex(e, name) != -1 ==> cbs == e.groups[GetGroupIndex(e, name)].callbacks
  {
    var index := GetGroupIndex(e, name);
    if index == -1 then [] else e.groups[index].callbacks
  }

  /** Invokes every callback of `cbs`, in order, on the same payload, and
      collects their statuses; no status stops the fan-out. */
  function FanOut<P>(cbs: seq<Callback<P>>, arg: P): (rs: seq<Status>)
    ensures |rs| == |cbs|
    ensures forall i :: 0 <= i < |cbs| ==> rs[i] == DoCallback(cbs[i], arg)
  {
    if cbs == [] then []
    else FanOut(cbs[..|cbs| - 1], arg) + [DoCallback(cbs[|cbs| - 1], arg)]
  }

  /** Dispatches `arg` to the group called `name`. An absent group is a
      Failure that invokes nothing; a present one has a snapshot of its
      callbacks invoked in order, and the call returns Success whatever
      they return. The engine is not changed: no new state is produced. */
  function DoCallBack<P>(e: Engine<P>, name: string, arg: P): (r: DispatchResult)
    ensures r.status in {Success, Failure}
    ensures r.status == Failure <==> GetGroupIndex(e, name) == -1
    ensures r.status == Failure ==> r.results == []
    ensures r.status == Success ==>
      var snapshot := e.groups[GetGroupIndex(e, name)].callbacks;
      && |r.results| == |snapshot|
      && forall i :: 0 <= i < |snapshot| ==> r.results[i] == DoCallback(snapshot[i], arg)
  {
    var index := GetGroupIndex(e, name);
    if index == -1 then DispatchResult(Failure, [])
    else
      var snapshot := e.groups[index];
      DispatchResult(Success, FanOut(snapshot.callbacks, arg))
  }

}
