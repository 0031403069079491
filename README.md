# Deeply: composite task construction and verification fan-out

This project models `CompositeTask` of the Deeply task library. A composite
task owns an ordered list of child tasks, makes itself the parent of each
child when it is built, and verifies by first running its inherited
verification hook and then starting every child's verification in list
order. It checks the context's cancellation token before each launch and
joins the launched verifications when the loop ends normally.

Two modules:

- `VerifySpec` (VerifySpec.dfy) gives the reference semantics of one
  verification as pure functions: `LaunchFrom` for the launch loop,
  `Verification` for the whole pass, and `WhenAll` for the join. It also
  holds the lemmas that state the scheduling rule. It is generic in the type
  of the children.
- `Deeply` (CompositeTask.dfy) holds the classes. `Task` is a child with a
  mutable `parent` slot. `CompositeTask` keeps the captured child list in a
  `const` sequence, and its constructor writes each child's parent in a
  loop. `Create` and `CreateUnnamed` turn the two ways construction can
  throw into errors. `VerifyInternal` and its loop `LaunchChildren` run the
  verification imperatively and are proved equal to `Verification` and
  `LaunchFrom`.

Modelling choices:

- The caller's child sequence is an `array?<Task?>`. `null` is the missing
  sequence, and an entry may itself be null. Writing to the array after
  construction shows that the composite keeps its own copy.
- Construction can fail in two ways. A missing sequence is refused before
  anything else happens (`ArgumentNull("tasks")`). A null entry is copied
  into the list like any other, but writing its parent throws. The children
  before it have already been parented to the abandoned composite, and the
  ones after it are untouched. `Create` reports this as `NullReference(k)`,
  where `k` is the position of the first null entry. The constructor records
  that position in `faultAt`, because a Dafny constructor cannot throw.
- The cancellation token is `CancellationToken(raisedBeforePoll)`. Poll `i`
  is the check made just before child `i`. The token is set at poll `i`
  exactly when it was raised before some poll `k <= i`, so once set it stays
  set.
- The inherited hook's result is a parameter `baseHook: Outcome`. The
  outcome of each child verification is a parameter `verify: nat -> Outcome`,
  indexed by list position. A child listed twice is verified twice, and the
  two verifications may end differently.
- A run records `Event`s in order: `BaseHook`, then `Poll(i)` and
  `Launch(i)` for each step, then `Join`.
- Three behaviours of the code (src/Deeply/CompositeTask.cs:87-98) are worth
  stating outright.
  - When the loop throws on cancellation, the children already started are
    not awaited. The join at :98 is reached only on the normal path.
  - An empty composite never consults the token. So a composite with no
    children whose token was raised before verification began still ends
    with its base hook's outcome, `Succeeded` if the hook succeeds, rather
    than `Cancelled`. `EmptyCompositeNeverPolls` states this.
    `CancelledBeforeVerify` states the cancelled case for a non-empty
    composite.
  - The base hook's failure takes precedence over a raised token. The hook
    is awaited at :87 before the first poll at :93. So a composite whose
    hook fails ends with the hook's outcome even when the token was raised
    before verification began. `BaseHookRunsFirst` and
    `CancelledBeforeVerify` state this.
- The join follows the documented `Task.WhenAll` rule: a faulted child
  faults the join; otherwise a cancelled child cancels it; otherwise it
  succeeds.

## Model

| member | source | states |
|---|---|---|
| `Deeply.FirstNull` | src/Deeply/CompositeTask.cs:61-65 | Gives the position of the first null entry, before which every entry is non-null, or none exactly when no entry is null. That position is where the parenting loop throws. |
| `Deeply.CompositeTask.constructor` | src/Deeply/CompositeTask.cs:53-67 | Afterwards `Tasks()` is exactly the supplied entries in the supplied order. `faultAt` is the first null entry's position, if any. Every entry before that point (all of them when there is none) has the new composite as parent. Every other task keeps its parent, and the frame lets only children's parent slots change. |
| `Deeply.CompositeTask.Tasks` | src/Deeply/CompositeTask.cs:72-78 | Returns the captured list. What it holds is stated by `Tasks() == source[..]` in the constructor and in `Create`. Because `tasks` is a constant read without any heap state, no later write to the caller's array or to a child can change it. |
| `Deeply.CompositeTask.Create` | src/Deeply/CompositeTask.cs:53-67 | A missing sequence gives `ArgumentNull("tasks")`, and the empty frame means no child is touched. A sequence with a null entry at first position `k` gives `NullReference(k)`. Entries before `k` then all point at one fresh, abandoned composite, and every other task keeps its parent. Otherwise the result is a fresh composite with the given name, children equal to the sequence, and every child parented to it. |
| `Deeply.CompositeTask.CreateUnnamed` | src/Deeply/CompositeTask.cs:43-46 | Same as `Create`, with the name taken from the task-name generator. |
| `Deeply.SnapshotSurvivesSourceMutation` | src/Deeply/CompositeTask.cs:33-37 | Overwriting an entry of the caller's array after construction leaves the composite's children equal to the array as it was supplied. |
| `Deeply.CompositeTask.VerifyInternal` | src/Deeply/CompositeTask.cs:85-99 | The outcome, launched children and event trace equal the reference `Verification` of the captured children. The launched children are a prefix of the child list. |
| `Deeply.CompositeTask.LaunchChildren` | src/Deeply/CompositeTask.cs:89-96 | The children started, the polls and launches made, and whether the loop stopped on cancellation equal the reference `LaunchFrom` from the first child. The children started are a prefix of the child list. |
| `VerifySpec.WhenAll` | src/Deeply/CompositeTask.cs:98 | The join succeeds if and only if every joined outcome is `Succeeded`. It is `Failed` if and only if some joined outcome is `Failed`. |
| `VerifySpec.LaunchFrom` | src/Deeply/CompositeTask.cs:91-96 | The children launched from index `i` on are exactly the next entries of the list, in order, and never run past its end. |
| `VerifySpec.Verification` | src/Deeply/CompositeTask.cs:85-99 | The children launched in a whole verification are a prefix of the child list, and the base hook is the first event. |
| `VerifySpec.FirstCancellation` | src/Deeply/CompositeTask.cs:91-93 | Gives the first poll in a range that sees the token set, or none when no poll in the range sees it. |
| `VerifySpec.LaunchStopsAtFirstCancellation` | src/Deeply/CompositeTask.cs:91-96 | The loop is cancelled if and only if some remaining poll sees the token. It launches exactly the children before the first such poll, or all remaining children when there is none. |
| `VerifySpec.LaunchTrace` | src/Deeply/CompositeTask.cs:91-96 | Each launch comes right after its own poll. Children are launched by increasing index, each once. A cancelled loop ends on the poll that saw the token. The loop never joins. |
| `VerifySpec.BaseHookRunsFirst` | src/Deeply/CompositeTask.cs:87 | The base hook is the first event. A base hook that does not succeed ends the verification with its own outcome, and no child is launched. |
| `VerifySpec.LaunchedInOrder` | src/Deeply/CompositeTask.cs:87-96 | Launched children are a prefix of the child list. The k-th launch event names child k and follows the poll for child k. No launch event names a child outside the launched prefix. |
| `VerifySpec.CancellationStopsLaunching` | src/Deeply/CompositeTask.cs:91-98 | When the base hook succeeds and the token is raised before the poll for child `c`, the outcome is `Cancelled`. Exactly the children before `c` are launched. No join happens, and the run ends on that poll. |
| `VerifySpec.CancelledBeforeVerify` | src/Deeply/CompositeTask.cs:87-95 | A token raised before verification starts means a non-empty composite launches no child. Its outcome is `Cancelled` when the base hook succeeds, and otherwise the base hook's own outcome, because the hook runs before the first poll. |
| `VerifySpec.UncancelledLaunchesAll` | src/Deeply/CompositeTask.cs:91-98 | If no poll sees the token, every child is launched and the join is the last event. The composite succeeds if and only if every launched verification succeeds. It fails if and only if some launched verification fails. |
| `VerifySpec.SucceedsIffAllSucceed` | src/Deeply/CompositeTask.cs:85-98 | A verification succeeds if and only if three things hold: the base hook succeeds, no poll sees the token, and every child verification succeeds. |
| `VerifySpec.EmptyCompositeNeverPolls` | src/Deeply/CompositeTask.cs:91-98 | A composite with no children polls nothing and launches nothing. It ends with the base hook's outcome, whatever the token says. |

## Left out

- Asynchrony is not modelled. `async`/`await`, `Task` objects, and concurrent execution of sibling verifications are absent; a launch is an append to the launched list and the join is `WhenAll` over abstract outcomes.
- `WhenAll` does not model exception aggregation in .NET (every inner exception kept, first one rethrown by `await`). Only the outcome is kept.
- `TaskBase` is not part of this model. The name generator `TaskBase.NextTaskName()` becomes a `nextTaskName` parameter, and its uniqueness under concurrent calls is not modelled. C# calls it before the null check, which the model cannot observe. The inherited `VerifyInternalAsync` hook becomes the `baseHook` outcome. Each child's `VerifyAsync` becomes the `verify` outcome function.
- `ITaskContext` and `CancellationToken` internals are not modelled. The token is only a monotonic flag polled before each launch.
- Deeply.CompositeTask.LaunchChildren: a null entry is started like any other child, where the source throws at src/Deeply/CompositeTask.cs:95. The next line says when this is reachable.
- Deeply.CompositeTask.VerifyInternal: a null entry is launched like any other child, and the run goes on to the join. In the source, starting a null entry's verification throws at src/Deeply/CompositeTask.cs:95. `Create` never returns a composite holding a null entry, but the abandoned composite stays reachable through the `parent` of every entry before the null one. Verifying it in the source launches those entries, polls once more, and then faults at :95 without awaiting them and without the join at :98. On the same input the model launches the null entry too, joins, and ends with `WhenAll` of the launched outcomes. The fault is left out because the reference semantics `LaunchFrom` and `Verification` are generic in the child type and have no notion of a null child.
- A composite cannot itself be a child in this model. Dafny classes here cannot share an interface without traits, so children are leaf `Task` objects and a nested composite appears only through its outcome in `verify`.
- `Task.parent` has type `CompositeTask?` rather than the interface type, because only a composite ever writes it here.
- The construction failure on a null entry is reported as an error value. The abandoned composite still exists in the model's heap, and the children before the null entry point to it, as they do in the source.
- The caller's sequence is an array, not a lazy `IEnumerable`. Delayed or repeated enumeration, the reason the source copies the sequence, is shown only by writing to the array after construction.
- The execute/commit phase and what leaf tasks do are not part of this model.
