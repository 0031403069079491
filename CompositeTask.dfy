/** A composite task: it owns an ordered list of child tasks captured once at
    construction, makes itself the parent of each of them, and verifies by
    running its base hook and then launching every child's verification,
    checking for cancellation before each launch. */
module Deeply {
  import opened VerifySpec

  /** Why construction failed: no sequence at all, or a null entry at
      `index` of the sequence, met while the children were being parented. */
  datatype Error = ArgumentNull(paramName: string) | NullReference(index: nat)

  datatype Result<T> = Success(value: T) | Failure(error: Error)

  /** A child task as the composite sees it: a name and a parent slot that
      the owning composite writes. What its verification does is given to
      the composite as an outcome per launch. */
  class Task {
    const name: string
    var parent: CompositeTask?

    constructor (name: string)
      ensures this.name == name && parent == null
    {
      this.name := name;
      parent := null;
    }
  }

  /** The tasks held by the caller's sequence; none when there is no sequence. */
  function Elements(source: array?<Task?>): set<Task>
    reads source
  {
    if source == null then {} else set t: Task | t in source[..]
  }

  /** The position of the first null entry of `s`, if there is one. */
  function FirstNull(s: seq<Task?>): (r: Option<nat>)
    ensures r.Some? ==> r.value < |s| && s[r.value] == null && forall k :: 0 <= k < r.value ==> s[k] != null
    ensures r.None? <==> null !in s
  {
    if s == [] then None
    else if s[0] == null then Some(0)
    else match FirstNull(s[1..]) {
      case None => None
      case Some(k) => Some(k + 1)
    }
  }

  /** How many leading entries of `s` get their parent written: all of them,
      or those before the first null entry. */
  function ParentedCount(s: seq<Task?>): nat {
    match FirstNull(s)
    case None => |s|
    case Some(k) => k
  }

  class CompositeTask {
    const name: string
    /** The children, copied out of the caller's sequence during construction. */
    const tasks: seq<Task?>
    /** Where construction threw: the position of the null entry whose parent
        could not be written, or `None` when every child was parented. */
    var faultAt: Option<nat>

    /** The child tasks, in the order they were supplied. Being a constant,
        the list reads no heap state, so no later write changes it. */
    function Tasks(): (r: seq<Task?>)
      ensures r == tasks
    {
      tasks
    }

    /** Copies the caller's sequence once, then makes the new composite the
        parent of each child in order. A null entry stops the loop there, as
        the exception it raises would: the children before it are already
        parented, the rest are untouched. Only children's parent slots change. */
    constructor (name: string, source: array<Task?>)
      modifies Elements(source)
      ensures this.name == name && Tasks() == source[..]
      ensures faultAt == FirstNull(source[..])
      ensures forall k :: 0 <= k < ParentedCount(source[..]) ==> source[k] != null && source[k].parent == this
      ensures forall t: Task :: t in source[..] && t !in source[..ParentedCount(source[..])] ==>
        t.parent == old(t.parent)
    {
      this.name := name;
      tasks := source[..];
      faultAt := None;
      new;
      var i := 0;
      while i < |tasks|
        invariant 0 <= i <= |tasks|
        invariant faultAt == None
        invariant forall k :: 0 <= k < i ==> tasks[k] != null && tasks[k].parent == this
        invariant forall t: Task :: t in tasks && t !in tasks[..i] ==> t.parent == old(t.parent)
      {
        if tasks[i] == null {
          faultAt := Some(i);
          break;
        }
        tasks[i].parent := this;
        i := i + 1;
      }
    }

    /** Construction with an explicit name. A missing sequence is refused
        before any child is copied or has its parent written; a null entry
        fails construction after the entries before it were parented to the
        abandoned composite. */
    static method Create(name: string, source: array?<Task?>) returns (r: Result<CompositeTask>)
      modifies Elements(source)
      ensures source == null <==> r == Failure(ArgumentNull("tasks"))
      ensures source != null ==> (r.Success? <==> null !in source[..])
      ensures source != null && r.Failure? ==>
        var k := ParentedCount(source[..]);
        r.error == NullReference(k) &&
        (forall j :: 0 <= j < k ==>
           source[j] != null && source[j].parent != null && fresh(source[j].parent) &&
           source[j].parent == source[0].parent) &&
        (forall t: Task :: t in source[..] && t !in source[..k] ==> t.parent == old(t.parent))
      ensures r.Success? ==>
        source != null && fresh(r.value) && r.value.name == name && r.value.Tasks() == source[..] &&
        (forall k :: 0 <= k < source.Length ==> source[k] != null && source[k].parent == r.value)
    {
      if source == null {
        return Failure(ArgumentNull("tasks"));
      }
      var c := new CompositeTask(name, source);
      if c.faultAt.Some? {
        return Failure(NullReference(c.faultAt.value));
      }
      return Success(c);
    }

    /** Construction with a name drawn from the task-name generator. */
    static method CreateUnnamed(nextTaskName: () -> string, source: array?<Task?>) returns (r: Result<CompositeTask>)
      modifies Elements(source)
      ensures source == null <==> r == Failure(ArgumentNull("tasks"))
      ensures source != null ==> (r.Success? <==> null !in source[..])
      ensures source != null && r.Failure? ==>
        var k := ParentedCount(source[..]);
        r.error == NullReference(k) &&
        (forall j :: 0 <= j < k ==>
           source[j] != null && source[j].parent != null && fresh(source[j].parent) &&
           source[j].parent == source[0].parent) &&
        (forall t: Task :: t in source[..] && t !in source[..k] ==> t.parent == old(t.parent))
      ensures r.Success? ==>
        source != null && fresh(r.value) && r.value.name == nextTaskName() && r.value.Tasks() == source[..] &&
        (forall k :: 0 <= k < source.Length ==> source[k] != null && source[k].parent == r.value)
    {
      r := Create(nextTaskName(), source);
    }

    /** The verification pass. `baseHook` is the outcome of the inherited
        hook, `verify(k)` the outcome of the verification started for list
        entry `k` (a child listed twice is verified twice). Returns the
        outcome, the children whose verification was started, and the events
        in the order they happened. */
    method VerifyInternal(token: CancellationToken, baseHook: Outcome, verify: nat -> Outcome)
      returns (outcome: Outcome, launched: seq<Task?>, trace: seq<Event>)
      ensures Run(outcome, launched, trace) == Verification(tasks, token, baseHook, verify)
      ensures |launched| <= |tasks| && launched == tasks[..|launched|]
    {
      if baseHook != Succeeded {
        return baseHook, [], [BaseHook];
      }
      var steps, cancelled;
      launched, steps, cancelled := LaunchChildren(token);
      if cancelled {
        return Cancelled, launched, [BaseHook] + steps;
      }
      return WhenAll(LaunchOutcomes(|launched|, verify)), launched, [BaseHook] + steps + [Join];
    }

    /** The launch loop: before each child, in list order, check the token
        and stop at once if it is set; otherwise start that child's
        verification. Returns the children started, the polls and launches
        made, and whether the loop stopped on cancellation. */
    method LaunchChildren(token: CancellationToken) returns (waits: seq<Task?>, steps: seq<Event>, cancelled: bool)
      ensures Launches(waits, steps, cancelled) == LaunchFrom(tasks, token, 0)
      ensures |waits| <= |tasks| && waits == tasks[..|waits|]
    {
      var children := tasks;
      ghost var all := LaunchFrom(children, token, 0);
      waits, steps := [], [];
      var i := 0;
      while i < |children|
        invariant 0 <= i <= |children|
        invariant all.launched == waits + LaunchFrom(children, token, i).launched
        invariant all.trace == steps + LaunchFrom(children, token, i).trace
        invariant all.cancelled == LaunchFrom(children, token, i).cancelled
      {
        if token.IsCancellationRequested(i) {
          return waits, steps + [Poll(i)], true;
        }
        LaunchStep(children, token, i);
        ghost var rest := LaunchFrom(children, token, i + 1);
        assert waits + ([children[i]] + rest.launched) == (waits + [children[i]]) + rest.launched;
        assert steps + ([Poll(i), Launch(i)] + rest.trace) == (steps + [Poll(i), Launch(i)]) + rest.trace;
        waits := waits + [children[i]];
        steps := steps + [Poll(i), Launch(i)];
        i := i + 1;
      }
      assert LaunchFrom(children, token, i) == Launches([], [], false);
      assert all.launched == waits && all.trace == steps;
      return waits, steps, false;
    }
  }

  /** The composite keeps its own copy of the children: overwriting an entry
      of the caller's array after construction leaves the composite's
      children as they were supplied. */
  method SnapshotSurvivesSourceMutation(name: string, source: array<Task?>, k: nat, replacement: Task?)
    returns (c: CompositeTask)
    requires k < source.Length
    modifies source, Elements(source)
    ensures source[k] == replacement
    ensures c.Tasks() == old(source[..])
  {
    c := new CompositeTask(name, source);
    source[k] := replacement;
  }
}
