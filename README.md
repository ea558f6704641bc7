# CustomCollectionLib in Dafny

A model of CustomCollectionLib, a small C# library with four parts:

- `CustomLinkedList<T>`, a circular doubly-linked list built like .NET's `LinkedList<T>`;
- `CustomLinkedListNode<T>`, its node cell;
- `CustomLinkedListEnumerator<T>`, its forward enumerator;
- `CustomStack<T>`, a LIFO stack that keeps its elements in one private list.

Modules, one file each:

- `Errors` (`errors.dfy`): the exceptions the library throws, as values. `Outcome` is the result of a `void` operation and `Result<R>` the result of one that returns a value. A C# exception becomes a `Fail`/`Failure` naming its type.
- `Sequences` (`sequences.dfy`): the abstract linear searches `IndexOf` and `LastIndexFrom`, plus `Insert` and `Delete` at a position, with their laws.
- `LinkedLists` (`linked_list.dfy`): the classes `Node` and `LinkedList`.
  - `LinkedList` has the fields `head` and `count`.
  - Its ghost fields are `nodes` (the live nodes from `Head` to `Last`) and `Contents` (their values).
  - `Valid()` says five things: the raw links form a ring in list order; no node occurs twice; every live node is owned by the list and holds the matching value; `Head` is the first node (null exactly on an empty list); `count` is the ring length.
  - Every operation is a method proved against `nodes`/`Contents`.
- `Enumerators` (`enumerator.dfy`): the enumerator as a class with a cursor, the current value and a ghost position.
- `Stacks` (`stack.dfy`): the stack as a class over its list. Its `Elements()` runs from bottom to top.
- `Scenarios` (`scenarios.dfy`): concrete situations from the library's unit tests, each stated as a contract.

**Raw links versus the public getters.**

- Each node stores raw links `next`/`prev`.
- The public `Next` getter hides the link from the tail to `Head`, and `Previous` hides the link from `Head` to the tail (`Node.NextView`, `Node.PrevView`).
- The list's code reads links through these getters. Read literally, that breaks most operations:
  - `Last` (CustomLinkedList.cs:28) is always null, and so the stack's `_list.Last!.Value` (CustomStack.cs:17, 26, 52, 63) throws NullReferenceException on every non-empty stack;
  - `InsertNodeBefore(Head, …)` dereferences a null predecessor (CustomLinkedList.cs:128), so `AddLast` and `AddFirst` fail on a non-empty list;
  - `RemoveLast` always refuses a non-empty list, since `Head.Previous` is null (CustomLinkedList.cs:268);
  - `Find` and `CopyTo` reach null at the tail while the loop condition `currentNode != Head` still holds, and the next pass dereferences it (CustomLinkedList.cs:196 and 207 for `Find` on an absent value; CustomLinkedList.cs:245 for `CopyTo`, after every value is written);
  - `RemoveNode` dereferences null when removing `Head`, the tail or the only node (CustomLinkedList.cs:282, 293-294);
  - `AddAfter` on the tail passes the null `Next` to `InsertNodeBefore`, whose validation throws ArgumentNullException (CustomLinkedList.cs:61, 43);
  - `FindLast` always takes its else branch, since `Head.Previous` is null (CustomLinkedList.cs:154), and dereferences null there (CustomLinkedList.cs:174).
- The library's own tests expect the ring behaviour. So the model reads the raw fields inside the list (as .NET's `LinkedList<T>` does), and keeps the getters as the functions a client sees.
- `LinkedList.Clear` and the enumerator use the getters literally, because they are correct as written.
- `LastThroughGetter` records what `Last` is when read through the getter.

Value equality (`EqualityComparer<T>.Default`) is Dafny's `==` on `T`. The null and non-null branches of `Find` therefore become one scan. `default(T)` is an explicit `zero` given to the enumerator and the stack.

## Model

| member | source | states |
|---|---|---|
| LinkedLists.Node.constructor | CustomCollectionLib/CustomLinkedListNode.cs:9-13 | the node belongs to the given list and holds the given value, with no links |
| LinkedLists.NewNode | CustomCollectionLib/CustomLinkedListNode.cs:9-13 | a null list gives ArgumentNullException; otherwise a fresh unlinked node with that list and value |
| LinkedLists.Node.NextView | CustomCollectionLib/CustomLinkedListNode.cs:17-19 | the `Next` getter is null exactly when the raw successor is null or is the owner's `Head`, and is the raw successor otherwise |
| LinkedLists.Node.PrevView | CustomCollectionLib/CustomLinkedListNode.cs:23-25 | the `Previous` getter is null exactly when the raw predecessor is null or this node is the owner's `Head`, and is the raw predecessor otherwise |
| LinkedLists.Node.SetNext | CustomCollectionLib/CustomLinkedListNode.cs:20 | the `Next` setter writes the raw link unconditionally and nothing else |
| LinkedLists.Node.SetPrev | CustomCollectionLib/CustomLinkedListNode.cs:26 | the `Previous` setter writes the raw link unconditionally and nothing else, so a client can sever `Head`'s predecessor |
| LinkedLists.Node.SetValue | CustomCollectionLib/CustomLinkedListNode.cs:29-35 | the `Value` setter (and a write through `ValueRef`) sets the stored value and leaves owner and links alone |
| LinkedLists.Node.GetValue | CustomCollectionLib/CustomLinkedListNode.cs:29-35 | the `Value` getter (and a read through `ValueRef`) returns the stored value, so a set value reads back |
| LinkedLists.Node.Clear | CustomCollectionLib/CustomLinkedListNode.cs:37-42 | the owner and both raw links become null and the value is unchanged |
| LinkedLists.FromCollection | CustomCollectionLib/CustomLinkedList.cs:14-22 | a null collection gives ArgumentNullException; otherwise a fresh valid list whose contents are the items in order |
| LinkedLists.LinkedList.constructor | CustomCollectionLib/CustomLinkedList.cs:7-12 | a new list is valid and empty |
| LinkedLists.LinkedList.First | CustomCollectionLib/CustomLinkedList.cs:26 | `First` is the first live node, null on an empty list |
| LinkedLists.LinkedList.Last | CustomCollectionLib/CustomLinkedList.cs:28 | `Last`, read through the raw link, is the last live node, null on an empty list |
| LinkedLists.LinkedList.LastThroughGetter | CustomCollectionLib/CustomLinkedList.cs:28 | `Last` as written, through the filtered `Previous` getter, is null on every valid list |
| LinkedLists.LinkedList.ValidateNode | CustomCollectionLib/CustomLinkedList.cs:41-49 | passes exactly a non-null node of this list; a null node gives ArgumentNullException and a node of another list gives InvalidOperationException |
| LinkedLists.LinkedList.AddNodeToEmptyList | CustomCollectionLib/CustomLinkedList.cs:109-120 | the `&&` guard refuses exactly a non-empty valid list, changing nothing; otherwise the node becomes a one-node ring that is `Head`, and the list is valid |
| LinkedLists.LinkedList.InsertNodeBefore | CustomCollectionLib/CustomLinkedList.cs:122-132 | validation failures change nothing; otherwise the new node sits right before `existing` (at the tail when `existing` is `Head`), `Head` stays and the ring invariant holds |
| LinkedLists.Splice | CustomCollectionLib/CustomLinkedList.cs:126-129 | the four link writes of the insertion: the new node between its neighbours, each neighbour pointing to it; owners and values unchanged |
| LinkedLists.SpliceKeepsRing | CustomCollectionLib/CustomLinkedList.cs:126-129 | after those writes the nodes with the new node at its position form a ring |
| LinkedLists.LinkedList.InsertKeepsValid | CustomCollectionLib/CustomLinkedList.cs:122-132 | the state the insertion leaves satisfies the list invariant |
| LinkedLists.LinkedList.MoveHeadToInserted | CustomCollectionLib/CustomLinkedList.cs:69-72 | after inserting before `Head` (at the tail), moving `Head` to the new node puts it at position 0 of a valid list |
| LinkedLists.LinkedList.MoveHeadToTail | CustomCollectionLib/CustomLinkedList.cs:84-87 | moving `Head` back to the node just inserted at the tail makes it the first node and keeps the list valid and the ring unchanged |
| LinkedLists.LinkedList.RotateKeepsValid | CustomCollectionLib/CustomLinkedList.cs:84-87 | rotating the last node to the front of a valid ring, with `Head` on it, is valid |
| LinkedLists.RingRotate | CustomCollectionLib/CustomLinkedList.cs:84-87 | a ring rotated by one position is still a ring |
| LinkedLists.LinkedList.AddLast | CustomCollectionLib/CustomLinkedList.cs:92-106 | contents become the old contents plus `v`, the returned fresh node is `Last`, and `Head` stays unless the list was empty |
| LinkedLists.LinkedList.AddFirst | CustomCollectionLib/CustomLinkedList.cs:75-90 | contents become `v` plus the old contents, the returned fresh node is `First`, and `Last` does not change on a non-empty list |
| LinkedLists.LinkedList.AddBefore | CustomCollectionLib/CustomLinkedList.cs:64-73 | refused nodes change nothing; otherwise `v` is inserted at the position of `existing`, and `Head` moves to the new node exactly when `existing` was `Head` |
| LinkedLists.LinkedList.AddAfter | CustomCollectionLib/CustomLinkedList.cs:56-62 | refused nodes change nothing; otherwise `v` is inserted right after `existing`, `Head` stays, and the new node is `Last` exactly when `existing` was `Last` |
| LinkedLists.OwnedInsert | CustomCollectionLib/CustomLinkedList.cs:122-132 | inserting an owned node and its value at the same position keeps every node owned and matched to its value |
| LinkedLists.LinkedList.RemoveNode | CustomCollectionLib/CustomLinkedList.cs:273-304 | validation failures and an empty list change nothing; otherwise the node's element goes, the rest keep their order, `Head` moves to the successor when it was removed, and the node is cleared with its value kept |
| LinkedLists.Unsplice | CustomCollectionLib/CustomLinkedList.cs:293-294 | the two link writes of the removal leave the other nodes in a ring, still owned |
| LinkedLists.UnspliceKeepsRing | CustomCollectionLib/CustomLinkedList.cs:293-294 | after bridging the predecessor and successor, the nodes without the removed one form a ring |
| LinkedLists.OwnedDelete | CustomCollectionLib/CustomLinkedList.cs:293-294 | deleting a node and its value at the same position keeps the others owned and matched |
| LinkedLists.LinkedList.DetachNode | CustomCollectionLib/CustomLinkedList.cs:302-303 | clearing the removed node and decrementing `Count` leaves a valid list without it |
| LinkedLists.LinkedList.RemoveKeepsValid | CustomCollectionLib/CustomLinkedList.cs:273-304 | the state the removal leaves satisfies the list invariant |
| LinkedLists.LinkedList.RemoveFirst | CustomCollectionLib/CustomLinkedList.cs:259-263 | an empty list gives InvalidOperationException and no change; otherwise the first element goes and the old `Head` is cleared |
| LinkedLists.LinkedList.RemoveLast | CustomCollectionLib/CustomLinkedList.cs:265-270 | an empty list, or a `Head` whose raw predecessor is null, gives InvalidOperationException and no change; otherwise the last element goes and its node is cleared |
| LinkedLists.LinkedList.Remove | CustomCollectionLib/CustomLinkedList.cs:250-257 | true exactly when `v` occurs; then its first occurrence is deleted and that node fully cleared, otherwise nothing changes |
| LinkedLists.LinkedList.Find | CustomCollectionLib/CustomLinkedList.cs:186-216 | the node at the first position holding `v`, or null when none does (an empty list included) |
| LinkedLists.LinkedList.Contains | CustomCollectionLib/CustomLinkedList.cs:148 | true exactly when `v` is among the contents |
| LinkedLists.LinkedList.FindLast | CustomCollectionLib/CustomLinkedList.cs:150-168 | as written: the last node holding `v` among every position but `Head`'s (all positions on a one-node list), or null |
| LinkedLists.FindLastLow | CustomCollectionLib/CustomLinkedList.cs:159-168 | the first position `FindLast` compares is 0 exactly when the list has at most one node |
| LinkedLists.FindLastMissesHead | CustomCollectionLib/CustomLinkedList.cs:159-168 | on two or more values whose only `v` is at `Head`, `FindLast` as written finds nothing, while the last `v` is at position 0 |
| LinkedLists.LinkedList.FindLastIncludingHead | CustomCollectionLib/CustomLinkedList.cs:150-168 | corrected: the node at the last position in the whole list holding `v`, or null |
| LinkedLists.LinkedList.CopyTo | CustomCollectionLib/CustomLinkedList.cs:220-248 | in order: a null array gives ArgumentNullException, a negative index or one past the end ArgumentOutOfRangeException, too little room ArgumentException, each with the array unchanged; otherwise `a[index..index+count]` holds the contents and every other cell is unchanged |
| LinkedLists.LinkedList.Clear | CustomCollectionLib/CustomLinkedList.cs:134-146 | the list is valid and empty and every former node is cleared with its value kept |
| LinkedLists.LinkedList.RingInverse | CustomCollectionLib/CustomLinkedList.cs:116-131 | each live node is the raw predecessor of its successor and the raw successor of its predecessor, a one-node ring points to itself, and `Head` and `Last` are linked both ways |
| LinkedLists.RingModular | CustomCollectionLib/CustomLinkedList.cs:116-131 | the ring laws in modular form: `next` of position `i` is position `(i + 1) mod n` and `prev` is `(i - 1 + n) mod n` |
| LinkedLists.LinkedList.ViewsAreLinear | CustomCollectionLib/CustomLinkedListNode.cs:17-27 | along the live nodes the public `Next` is the following node and null at the tail only, and `Previous` is the preceding node and null at `Head` only |
| LinkedLists.LinkedList.NextIsLive | CustomCollectionLib/CustomLinkedList.cs:200 | the raw successor of a live node is a live node |
| LinkedLists.LinkedList.Walk | CustomCollectionLib/CustomLinkedList.cs:200-201 | following raw `next` links from a live node stays on live nodes |
| LinkedLists.LinkedList.WalkFrom | CustomCollectionLib/CustomLinkedList.cs:200-201 | `k` steps forward from position `i` reach position `i + k`, or `Head` after exactly the last node |
| LinkedLists.LinkedList.CountIsRingLength | CustomCollectionLib/CustomLinkedList.cs:109-132 | `Count` is the length of the ring: the walk from `Head` returns to `Head` after `Count` links and not before |
| Sequences.IndexOf | CustomCollectionLib/CustomLinkedList.cs:186-216 | the first position holding `x`, `|s|` exactly when `x` does not occur |
| Sequences.LastIndexFrom | CustomCollectionLib/CustomLinkedList.cs:150-168 | the last position at or after `lo` holding `x`, -1 exactly when none does |
| Sequences.Insert | CustomCollectionLib/CustomLinkedList.cs:122-132 | the element lands at position `m`, the earlier elements keep their positions and the later ones move up by one |
| Sequences.Delete | CustomCollectionLib/CustomLinkedList.cs:273-304 | the earlier elements keep their positions and the later ones move down by one |
| Sequences.DeleteInsert | CustomCollectionLib/CustomLinkedList.cs:122-304 | deleting what was just inserted gives back the original |
| Sequences.DistinctInsert | CustomCollectionLib/CustomLinkedList.cs:122-132 | inserting a new node keeps the live nodes free of repetitions |
| Sequences.DistinctDelete | CustomCollectionLib/CustomLinkedList.cs:273-304 | deleting keeps them free of repetitions, and the deleted node is no longer among them |
| Sequences.IndexOfDistinct | CustomCollectionLib/CustomLinkedList.cs:122-132 | in a repetition-free sequence, the first occurrence of the element at `k` is at `k` |
| Sequences.IndexOfAppend | CustomCollectionLib/CustomLinkedList.cs:186-216 | after appending, a search finds the old first occurrence, else the appended value at the new last position |
| Sequences.RemoveFirstOccurrence | CustomCollectionLib/CustomLinkedList.cs:250-257 | after `Remove(v)` the value is still present exactly when it occurred again after its first occurrence |
| Enumerators.Enumerator.constructor | CustomCollectionLib/CustomLinkedListEnumerator.cs:15-24 | the cursor is at `Head`; `Current` is `Head`'s value on a non-empty list and the default value on an empty one |
| Enumerators.Enumerator.MoveNext | CustomCollectionLib/CustomLinkedListEnumerator.cs:26-42 | true exactly when values are left; then `Current` is the next value in `Head`-to-`Last` order, otherwise `Current` is kept; the list is not modified |
| Enumerators.ViewsAreLinearAt | CustomCollectionLib/CustomLinkedListEnumerator.cs:34 | the public `Next` of the node at position `i` is the node at `i + 1`, or null at the tail |
| Enumerators.Enumerator.Reset | CustomCollectionLib/CustomLinkedListEnumerator.cs:44-48 | `Current` becomes the default value and the cursor is back at `Head`; the list is not modified |
| Enumerators.Enumerator.Current | CustomCollectionLib/CustomLinkedListEnumerator.cs:11 | once a value was yielded, the last value yielded |
| Enumerators.GetEnumerator | CustomCollectionLib/CustomLinkedList.cs:30-33 | a fresh enumerator over the list, before its first value, whose `Current` is `Head`'s value or the default on an empty list |
| Enumerators.Drain | CustomCollectionLib/CustomLinkedListEnumerator.cs:26-42 | calling `MoveNext` until it answers false collects the values from the cursor on, in order |
| Enumerators.EnumerateAll | CustomCollectionLib.Tests/CustomLinkedListEnumeratorTests.cs:5-33 | a fresh enumerator yields exactly the contents in order, an empty list none, and `MoveNext` then keeps answering false |
| Enumerators.ResetReplays | CustomCollectionLib/CustomLinkedListEnumerator.cs:44-48 | after `Reset` a second pass yields the same values as the first |
| Stacks.Stack.constructor | CustomCollectionLib/CustomStack.cs:7 | a new stack owns a fresh, empty list |
| Stacks.Stack.TryPeek | CustomCollectionLib/CustomStack.cs:9-19 | false with the default value on an empty stack, otherwise true with the top element; nothing changes |
| Stacks.Stack.Peek | CustomCollectionLib/CustomStack.cs:21-27 | InvalidOperationException on an empty stack, otherwise the top element; nothing changes |
| Stacks.Stack.CopyTo | CustomCollectionLib/CustomStack.cs:29-32 | the list's `CopyTo`: the same errors, and bottom-to-top order on success |
| Stacks.Stack.Contains | CustomCollectionLib/CustomStack.cs:34-37 | true exactly when `v` is among the elements |
| Stacks.Stack.Clear | CustomCollectionLib/CustomStack.cs:39-42 | the stack and its list of nodes become empty |
| Stacks.Stack.TryPop | CustomCollectionLib/CustomStack.cs:44-55 | false with the default value and no change on an empty stack, otherwise true with the top element, which is removed |
| Stacks.Stack.Pop | CustomCollectionLib/CustomStack.cs:57-66 | InvalidOperationException and no change on an empty stack, otherwise the top element, which is removed with its node |
| Stacks.Stack.Push | CustomCollectionLib/CustomStack.cs:68-71 | `v` is the new top above the old elements, held by one fresh node appended to the list |
| Stacks.Stack.Count | CustomCollectionLib/CustomStack.cs:73 | the number of elements |
| Stacks.Stack.GetEnumerator | CustomCollectionLib/CustomStack.cs:75-78 | the list's enumerator, which yields the elements bottom to top; its `Current` starts at the bottom element, or the default on an empty stack |
| Stacks.PushThenPop | CustomCollectionLib/CustomStack.cs:57-71 | on any valid stack, `Pop` after `Push(v)` returns `v` and leaves the elements as they were |
| Stacks.PopThenPush | CustomCollectionLib/CustomStack.cs:57-71 | on a non-empty stack, pushing back what `Pop` returned leaves the elements as they were |
| Scenarios.CopyToAtStart | CustomCollectionLib.Tests/CustomLinkedListTests.cs:95-109 | `[1, 2, 3]` copied into five zeros at index 0 gives `[1, 2, 3, 0, 0]` |
| Scenarios.CopyToAtOne | CustomCollectionLib.Tests/CustomLinkedListTests.cs:95-109 | `[1, 2, 3]` copied into five zeros at index 1 gives `[0, 1, 2, 3, 0]` |
| Scenarios.CopyToRefusesBadIndex | CustomCollectionLib.Tests/CustomLinkedListTests.cs:124-155 | an index equal to the length, past it, and negative give ArgumentException, ArgumentOutOfRangeException, ArgumentOutOfRangeException |
| Scenarios.RemoveLastAfterHeadPreviousCleared | CustomCollectionLib.Tests/CustomLinkedListTests.cs:19-27 | after `Head.Previous = null`, `RemoveLast` gives InvalidOperationException |
| Scenarios.FindLastSearchesCorrectly | CustomCollectionLib.Tests/CustomLinkedListTests.cs:157-170 | in `[1, 3, 3, 4]`, `FindLast(3)` is the third node |
| Scenarios.FindLastMissesHeadValue | CustomCollectionLib/CustomLinkedList.cs:159-168 | in `[3, 1]`, `FindLast(3)` as written is null and the corrected search finds `Head` |
| Scenarios.StackIsLastInFirstOut | CustomCollectionLib.Tests/CustomStackTests.cs:100-137 | pushing 1, 2, 3 then popping gives 3, 2, 1 and then InvalidOperationException |
| Scenarios.TryPopOnEmptyStack | CustomCollectionLib.Tests/CustomStackTests.cs:88-98 | `TryPop` on an empty stack gives false and 0 |
| Scenarios.StackEnumeratesBottomFirst | CustomCollectionLib.Tests/CustomStackTests.cs:56-73 | enumerating after pushing 1, 2, 3 yields 1, 2, 3 |
| Scenarios.ResetResetsEnumerator | CustomCollectionLib.Tests/CustomLinkedListEnumeratorTests.cs:35-49 | over `[1, 2]`, one `MoveNext` then `Reset` leaves `Current` at 0 |

## Left out

- Raw link reads inside the list: the list's own methods read `next`/`prev` directly instead of through the `Next`/`Previous` getters. The failures that a literal reading through the getters would cause are not modelled; `LastThroughGetter` shows the effect on `Last`. They are:
  - the null dereference in `InsertNodeBefore` (CustomLinkedList.cs:128), which every `AddLast`, `AddFirst` and `AddBefore` on a non-empty list reaches;
  - `RemoveLast`'s refusal of every non-empty list (CustomLinkedList.cs:268; the removal at :269 is then never reached);
  - the null dereferences in `Find` (CustomLinkedList.cs:196, 207) and `CopyTo` (CustomLinkedList.cs:245) one step past the tail;
  - the null dereferences in `RemoveNode` (CustomLinkedList.cs:282, 293-294);
  - the ArgumentNullException of `AddAfter` on the tail (CustomLinkedList.cs:61, 43);
  - `FindLast`'s switch to its else branch and the null dereference there (CustomLinkedList.cs:154, 174);
  - the NullReferenceException of the stack's `Peek`, `TryPeek`, `Pop` and `TryPop` on a non-empty stack (CustomStack.cs:17, 26, 52, 63).
- LinkedLists.Node.NextView and LinkedLists.Node.PrevView require an owner whenever the link is set. A cleared node whose raw link a client set again throws NullReferenceException in the getter (`List!.Head`, CustomLinkedListNode.cs:19, 25); that case is not modelled.
- LinkedLists.LinkedList.FindLast: the else branch (CustomLinkedList.cs:170-181) runs only when `Head`'s raw predecessor is null, which a valid list rules out. It is not modelled, and the method requires a valid list.
- Forged nodes: a client can construct a node naming a list without linking it in. `InsertNodeBefore`, `AddBefore`, `AddAfter` and `RemoveNode` require that a node which claims to belong to the list is one of its live nodes.
- Client writes to a live node's links or value through the public setters break the list invariant. Only the severed `Head` predecessor before `RemoveLast`, which the source checks for, is modelled.
- `ValueRef` returns a C# `ref` to the stored value; the model has plain reads and writes of that field (`GetValue`, `SetValue`).
- `count` is an unbounded integer; the 32-bit overflow of `Count` after 2^31 insertions is not modelled.
- Changing the list while an enumerator walks it: the enumerator's precondition is a valid list whose state the client leaves alone between calls.
- Interface plumbing: `IEnumerable`/`IEnumerator` boilerplate, the non-generic `GetEnumerator` and `Current`, the empty `Dispose`, `IsReadOnly`, and `ICollection<T>.Add` (an alias of `AddLast`).
- The stack events `ItemPushed`, `ItemPopped` and `StackCleared` appear only in the library's tests and its console demo; CustomStack.cs declares none.
- The console demo application (CustomCollectionTestingApp) is I/O only.

## Findings

| source | as written | input that shows it | evidently intended | confidence | as-written member | corrected member |
|---|---|---|---|---|---|---|
| CustomCollectionLib/CustomLinkedList.cs:28 | `Last` is `Head?.Previous`, through the getter that hides `Head`'s predecessor | any non-empty list: `Last` is null | `Last` is the tail node, `Head`'s raw predecessor | not executed | LinkedLists.LinkedList.LastThroughGetter | LinkedLists.LinkedList.Last |
| CustomCollectionLib/CustomLinkedList.cs:159-168 | the backward scan stops on reaching `Head` without comparing it | the list `[3, 1]` and `FindLast(3)`: null, although `Head` holds 3 | the last node holding the value anywhere in the list | not executed | LinkedLists.FindLastMissesHead | LinkedLists.LinkedList.FindLastIncludingHead |
