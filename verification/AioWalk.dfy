/** Walks over the handler list and the bottom-half list of an event loop whose callbacks may
    change those lists and walk them again. Deletion is deferred while any walk is under way. */
module AioWalk {
  import opened Basics
  import opened SeqFacts

  /** What poll() reported: input or hang-up, output, error. */
  datatype Ready = Ready(input: bool, output: bool, error: bool)

  const NOT_READY := Ready(false, false, false)

  datatype Handler = Handler(fd: int, deleted: bool, onRead: bool, onWrite: bool, ready: Ready)

  datatype Bh = Bh(scheduled: bool, deleted: bool)

  /** Where an iteration of aio_dispatch stands; `In...` while the callback runs. */
  datatype Phase = AtRead | InRead | AtWrite | InWrite

  /** One active walk, with the pointers its C frame holds. */
  datatype Frame =
    | Dispatch(node: nat, phase: Phase, r: bool, w: bool)
    | Poll(nodes: seq<nat>)
    | Bottom(bh: nat, next: Option<nat>, inCallback: bool)

  /** Allocated objects are exactly those in the heaps; identities are never used twice. The last
      frame of `stack` is the innermost call. */
  datatype State = State(
    handlers: seq<nat>, heap: map<nat, Handler>, walking: nat,
    bhList: seq<nat>, bhHeap: map<nat, Bh>, walkingBh: nat,
    nextId: nat, stack: seq<Frame>)

  predicate WalksHandlers(f: Frame) {
    f.Dispatch? || f.Poll?
  }

  function CountWalks(stack: seq<Frame>): nat {
    if stack == [] then 0
    else CountWalks(stack[..|stack| - 1]) + if WalksHandlers(stack[|stack| - 1]) then 1 else 0
  }

  function CountBhWalks(stack: seq<Frame>): nat {
    if stack == [] then 0
    else CountBhWalks(stack[..|stack| - 1]) + if stack[|stack| - 1].Bottom? then 1 else 0
  }

  function Top(s: State): Frame
    requires s.stack != []
  {
    s.stack[|s.stack| - 1]
  }

  function SetTop(s: State, f: Frame): State
    requires s.stack != []
  {
    s.(stack := s.stack[..|s.stack| - 1] + [f])
  }

  function Push(s: State, f: Frame): State {
    s.(stack := s.stack + [f])
  }

  function Pop(s: State): State
    requires s.stack != []
  {
    s.(stack := s.stack[..|s.stack| - 1])
  }

  /** The element after `x`, if any. */
  function After(list: seq<nat>, x: nat): Option<nat> {
    if |list| < 2 then None
    else if list[0] == x then Some(list[1])
    else After(list[1..], x)
  }

  /** find_aio_handler: the first handler for `fd` that is not deleted. */
  function FindHandler(list: seq<nat>, heap: map<nat, Handler>, fd: int): Option<nat> {
    if list == [] then None
    else if list[0] in heap && heap[list[0]].fd == fd && !heap[list[0]].deleted then Some(list[0])
    else FindHandler(list[1..], heap, fd)
  }

  /** aio_set_fd_handler. */
  function SetFdHandler(s: State, fd: int, onRead: bool, onWrite: bool): State {
    var found := FindHandler(s.handlers, s.heap, fd);
    if !onRead && !onWrite then
      if found.None? || found.value !in s.heap then s
      else if s.walking > 0 then
        s.(heap := s.heap[found.value := s.heap[found.value].(deleted := true, ready := NOT_READY)])
      else
        s.(handlers := Without(s.handlers, found.value), heap := s.heap - {found.value})
    else if found.None? then
      s.(handlers := [s.nextId] + s.handlers, nextId := s.nextId + 1,
         heap := s.heap[s.nextId := Handler(fd, false, onRead, onWrite, NOT_READY)])
    else if found.value in s.heap then
      s.(heap := s.heap[found.value := s.heap[found.value].(onRead := onRead, onWrite := onWrite)])
    else s
  }

  /** The live handlers with some event to poll for. */
  function Polled(list: seq<nat>, heap: map<nat, Handler>): seq<nat> {
    if list == [] then []
    else if list[0] in heap && !heap[list[0]].deleted && (heap[list[0]].onRead || heap[list[0]].onWrite)
      then [list[0]] + Polled(list[1..], heap)
    else Polled(list[1..], heap)
  }

  /** Start of an iteration of aio_dispatch at `node`: the events are taken. */
  function Enter(heap: map<nat, Handler>, node: nat): (map<nat, Handler>, Frame)
    requires node in heap
  {
    var h := heap[node];
    // An error is waited for with either callback, and counts for both.
    var error := h.ready.error && (h.onRead || h.onWrite);
    (heap[node := h.(ready := NOT_READY)],
     Dispatch(node, AtRead, (h.ready.input && h.onRead) || error, (h.ready.output && h.onWrite) || error))
  }

  /** Frees `node` if it is deleted and only one walk is active. */
  function Reap(s: State, node: nat): State
    requires node in s.heap
  {
    if s.walking == 1 && s.heap[node].deleted
    then s.(handlers := Without(s.handlers, node), heap := s.heap - {node})
    else s
  }

  /** End of an iteration of aio_dispatch: step to the next handler, free this one if it is deleted
      and no other walk is active. */
  function Leave(s: State): State
    requires s.stack != [] && Top(s).Dispatch? && s.walking > 0
    requires Top(s).node in s.heap
  {
    var node := Top(s).node;
    var next := After(s.handlers, node);
    var s1 := Reap(s, node);
    if next.None? || next.value !in s1.heap then Pop(s1).(walking := s.walking - 1)
    else
      var (heap', frame) := Enter(s1.heap, next.value);
      SetTop(s1.(heap := heap'), frame)
  }

  /** The bottom halves left when the deleted ones are freed. */
  function Survivors(list: seq<nat>, heap: map<nat, Bh>): seq<nat> {
    if list == [] then []
    else if list[0] in heap && !heap[list[0]].deleted then [list[0]] + Survivors(list[1..], heap)
    else Survivors(list[1..], heap)
  }

  datatype Step =
    | SetFd(fd: int, onRead: bool, onWrite: bool)
    | BeginPoll
    | EndPoll(ready: map<nat, Ready>)
    | BeginDispatch
    | CallRead | SkipRead | ReturnRead
    | CallWrite | SkipWrite | ReturnWrite
    | BhNew
    | BhSchedule(bh: nat)
    | BhCancel(bh: nat)
    | BhDelete(bh: nat)
    | BeginBhPoll
    | BhCall | BhSkip
    | BhReturn

  /** The innermost call is a callback, or there is no call: the program may start a new walk. */
  predicate MayStart(s: State) {
    s.stack == [] || match Top(s)
                     case Dispatch(_, phase, _, _) => phase == InRead || phase == InWrite
                     case Poll(_) => false
                     case Bottom(_, _, inCallback) => inCallback
  }

  /** The pointers a step reads through are allocated: what must hold for the step not to touch
      freed memory. */
  predicate Accesses(s: State, step: Step) {
    match step
    case EndPoll(_) => s.stack != [] && Top(s).Poll? ==> forall n :: n in Top(s).nodes ==> n in s.heap
    case CallRead => NodeAllocated(s)
    case SkipRead => NodeAllocated(s)
    case ReturnRead => NodeAllocated(s)
    case CallWrite => NodeAllocated(s)
    case SkipWrite => NodeAllocated(s) && NextAllocated(s)
    case ReturnWrite => NodeAllocated(s) && NextAllocated(s)
    case BhSchedule(_) => true
    case BhCancel(_) => true
    case BhDelete(_) => true
    case BhNew => true
    case BeginBhPoll => forall b :: b in s.bhList ==> b in s.bhHeap
    case BhCall => BhAllocated(s)
    case BhSkip => BhAllocated(s)
    case BhReturn => BhAllocated(s)
    case SetFd(_, _, _) => forall n :: n in s.handlers ==> n in s.heap
    case BeginPoll => forall n :: n in s.handlers ==> n in s.heap
    case BeginDispatch => forall n :: n in s.handlers ==> n in s.heap
  }

  predicate NodeAllocated(s: State) {
    s.stack != [] && Top(s).Dispatch? ==> Top(s).node in s.heap
  }

  /** Stepping on reads the list link of the node, and the node it leads to outlives it. */
  predicate NextAllocated(s: State) {
    s.stack != [] && Top(s).Dispatch? ==>
      && Top(s).node in s.handlers
      && var next := After(s.handlers, Top(s).node);
      next.Some? ==> next.value in s.heap && next.value != Top(s).node
  }

  predicate BhAllocated(s: State) {
    s.stack != [] && Top(s).Bottom? ==>
      && Top(s).bh in s.bhHeap
      && (Top(s).next.Some? ==> Top(s).next.value in s.bhHeap)
      && forall b :: b in s.bhList ==> b in s.bhHeap
  }

  /** `for (bh = ...; bh; bh = next)`: on to the next bottom half, or out of the walk, freeing the
      deleted ones when it was the only one. */
  function BhAdvance(s: State): State
    requires s.stack != [] && Top(s).Bottom?
  {
    var next := Top(s).next;
    if next.Some? then SetTop(s, Bottom(next.value, After(s.bhList, next.value), false))
    else
      var s1 := Pop(s).(walkingBh := if s.walkingBh > 0 then s.walkingBh - 1 else 0);
      if s1.walkingBh > 0 then s1
      else
        var left := Survivors(s1.bhList, s1.bhHeap);
        s1.(bhList := left, bhHeap := map b | b in s1.bhHeap && b in left :: s1.bhHeap[b])
  }

  predicate Next(s: State, step: Step, s': State) {
    match step
    case SetFd(fd, onRead, onWrite) => s' == SetFdHandler(s, fd, onRead, onWrite)
    case BeginPoll =>
      MayStart(s) && s' == Push(s, Poll(Polled(s.handlers, s.heap))).(walking := s.walking + 1)
    case EndPoll(ready) =>
      && s.stack != [] && Top(s).Poll? && s.walking > 0
      && s' == Pop(s).(walking := s.walking - 1,
           heap := map n | n in s.heap :: if n in Top(s).nodes && n in ready
                                          then s.heap[n].(ready := ready[n]) else s.heap[n])
    case BeginDispatch =>
      && MayStart(s)
      && if s.handlers == [] || s.handlers[0] !in s.heap then s' == s
         else
           var (heap', frame) := Enter(s.heap, s.handlers[0]);
           s' == Push(s.(heap := heap'), frame).(walking := s.walking + 1)
    case CallRead =>
      && s.stack != [] && Top(s).Dispatch? && Top(s).phase == AtRead && Top(s).node in s.heap
      && !s.heap[Top(s).node].deleted && Top(s).r && s.heap[Top(s).node].onRead
      && s' == SetTop(s, Top(s).(phase := InRead))
    case SkipRead =>
      && s.stack != [] && Top(s).Dispatch? && Top(s).phase == AtRead && Top(s).node in s.heap
      && (s.heap[Top(s).node].deleted || !Top(s).r || !s.heap[Top(s).node].onRead)
      && s' == SetTop(s, Top(s).(phase := AtWrite))
    case ReturnRead =>
      && s.stack != [] && Top(s).Dispatch? && Top(s).phase == InRead
      && s' == SetTop(s, Top(s).(phase := AtWrite))
    case CallWrite =>
      && s.stack != [] && Top(s).Dispatch? && Top(s).phase == AtWrite && Top(s).node in s.heap
      && !s.heap[Top(s).node].deleted && Top(s).w && s.heap[Top(s).node].onWrite
      && s' == SetTop(s, Top(s).(phase := InWrite))
    case SkipWrite =>
      && s.stack != [] && Top(s).Dispatch? && Top(s).phase == AtWrite && Top(s).node in s.heap && s.walking > 0
      && (s.heap[Top(s).node].deleted || !Top(s).w || !s.heap[Top(s).node].onWrite)
      && s' == Leave(s)
    case ReturnWrite =>
      && s.stack != [] && Top(s).Dispatch? && Top(s).phase == InWrite && Top(s).node in s.heap && s.walking > 0
      && s' == Leave(s)
    case BhNew =>
      s' == s.(bhList := [s.nextId] + s.bhList, bhHeap := s.bhHeap[s.nextId := Bh(false, false)], nextId := s.nextId + 1)
    case BhSchedule(b) => b in s.bhHeap && s' == s.(bhHeap := s.bhHeap[b := s.bhHeap[b].(scheduled := true)])
    case BhCancel(b) => b in s.bhHeap && s' == s.(bhHeap := s.bhHeap[b := s.bhHeap[b].(scheduled := false)])
    case BhDelete(b) => b in s.bhHeap && s' == s.(bhHeap := s.bhHeap[b := Bh(false, true)])
    case BeginBhPoll =>
      && MayStart(s)
      && (if s.bhList == [] then s' == s
          else s' == Push(s, Bottom(s.bhList[0], After(s.bhList, s.bhList[0]), false)).(walkingBh := s.walkingBh + 1))
    case BhCall =>
      && s.stack != [] && Top(s).Bottom? && !Top(s).inCallback && Top(s).bh in s.bhHeap
      && !s.bhHeap[Top(s).bh].deleted && s.bhHeap[Top(s).bh].scheduled
      && s' == SetTop(s.(bhHeap := s.bhHeap[Top(s).bh := s.bhHeap[Top(s).bh].(scheduled := false)]), Top(s).(inCallback := true))
    case BhSkip =>
      && s.stack != [] && Top(s).Bottom? && !Top(s).inCallback && Top(s).bh in s.bhHeap
      && (s.bhHeap[Top(s).bh].deleted || !s.bhHeap[Top(s).bh].scheduled)
      && s' == BhAdvance(s)
    case BhReturn =>
      && s.stack != [] && Top(s).Bottom? && Top(s).inCallback
      && s' == BhAdvance(s)
  }

  // ---------------------------------------------------------------------------------------

  lemma {:induction false} AfterInList(list: seq<nat>, x: nat)
    requires After(list, x).Some?
    ensures After(list, x).value in list
    ensures NoDuplicates(list) ==> After(list, x).value != x
  {
    if list[0] != x {
      AfterInList(list[1..], x);
    }
  }

  /** In a list without duplicates it is the next element. */
  lemma {:induction false} AfterIsNext(list: seq<nat>, i: nat)
    requires NoDuplicates(list) && i < |list|
    ensures After(list, list[i]) == if i + 1 < |list| then Some(list[i + 1]) else None
  {
    if i > 0 {
      assert list[1..][i - 1] == list[i];
      AfterIsNext(list[1..], i - 1);
    }
  }

  lemma {:induction false} SurvivorsAre(list: seq<nat>, heap: map<nat, Bh>)
    ensures forall y :: y in Survivors(list, heap) <==> y in list && y in heap && !heap[y].deleted
    ensures NoDuplicates(list) ==> NoDuplicates(Survivors(list, heap))
  {
    if list != [] {
      SurvivorsAre(list[1..], heap);
    }
  }

  /** Exactly the live handlers that have a callback are polled for. */
  lemma {:induction false} PolledAre(list: seq<nat>, heap: map<nat, Handler>)
    ensures forall y :: y in Polled(list, heap) <==>
              y in list && y in heap && !heap[y].deleted && (heap[y].onRead || heap[y].onWrite)
  {
    if list != [] {
      PolledAre(list[1..], heap);
    }
  }

  lemma {:induction false} FindHandlerFinds(list: seq<nat>, heap: map<nat, Handler>, fd: int)
    ensures var r := FindHandler(list, heap, fd);
      if r.Some? then r.value in list && r.value in heap && heap[r.value].fd == fd && !heap[r.value].deleted
      else forall x :: x in list && x in heap && heap[x].fd == fd ==> heap[x].deleted
  {
    if list != [] {
      FindHandlerFinds(list[1..], heap, fd);
    }
  }

  /** The lists hold exactly the allocated objects, once each. */
  ghost predicate ListsOk(s: State) {
    && (forall x :: x in s.handlers <==> x in s.heap) && NoDuplicates(s.handlers)
    && (forall x :: x in s.bhList <==> x in s.bhHeap) && NoDuplicates(s.bhList)
    && (forall x :: x in s.heap || x in s.bhHeap ==> x < s.nextId)
  }

  /** Each descriptor has at most one handler that is not deleted. */
  predicate OneLivePerFd(s: State) {
    forall x, y :: x in s.heap && y in s.heap && x != y && !s.heap[x].deleted && !s.heap[y].deleted ==>
      s.heap[x].fd != s.heap[y].fd
  }

  predicate FrameOk(s: State, f: Frame) {
    match f
    case Dispatch(node, _, _, _) => node in s.heap
    case Poll(nodes) => forall n :: n in nodes ==> n in s.heap
    case Bottom(bh, next, _) => bh in s.bhHeap && (next.Some? ==> next.value in s.bhHeap)
  }

  predicate FramesOk(s: State) {
    forall i | 0 <= i < |s.stack| :: FrameOk(s, s.stack[i])
  }

  predicate CountsOk(s: State) {
    s.walking == CountWalks(s.stack) && s.walkingBh == CountBhWalks(s.stack)
  }

  ghost predicate Inv(s: State) {
    ListsOk(s) && OneLivePerFd(s) && FramesOk(s) && CountsOk(s)
  }

  lemma {:induction false} NoWalks(stack: seq<Frame>)
    ensures CountWalks(stack) == 0 ==> forall i | 0 <= i < |stack| :: !WalksHandlers(stack[i])
    ensures CountBhWalks(stack) == 0 ==> forall i | 0 <= i < |stack| :: !stack[i].Bottom?
  {
    if stack != [] {
      NoWalks(stack[..|stack| - 1]);
    }
  }

  lemma CountPush(stack: seq<Frame>, f: Frame)
    ensures CountWalks(stack + [f]) == CountWalks(stack) + if WalksHandlers(f) then 1 else 0
    ensures CountBhWalks(stack + [f]) == CountBhWalks(stack) + if f.Bottom? then 1 else 0
  {
    assert (stack + [f])[..|stack|] == stack;
  }

  /** The count below the innermost frame, and with it replaced. */
  lemma CountTop(s: State, f: Frame)
    requires s.stack != [] && WalksHandlers(f) == WalksHandlers(Top(s)) && f.Bottom? == Top(s).Bottom?
    ensures CountWalks(SetTop(s, f).stack) == CountWalks(s.stack)
    ensures CountBhWalks(SetTop(s, f).stack) == CountBhWalks(s.stack)
  {
    CountPush(s.stack[..|s.stack| - 1], f);
  }

  lemma SetFdLists(s: State, fd: int, onRead: bool, onWrite: bool)
    requires ListsOk(s)
    ensures ListsOk(SetFdHandler(s, fd, onRead, onWrite))
  {
    hide FindHandler, Without;
    var found := FindHandler(s.handlers, s.heap, fd);
    FindHandlerFinds(s.handlers, s.heap, fd);
    if found.Some? {
      WithoutIs(s.handlers, found.value);
    } else {
      assert ([s.nextId] + s.handlers)[1..] == s.handlers;
    }
  }

  lemma SetFdLive(s: State, fd: int, onRead: bool, onWrite: bool)
    requires ListsOk(s) && OneLivePerFd(s)
    ensures OneLivePerFd(SetFdHandler(s, fd, onRead, onWrite))
  {
    hide FindHandler, Without, NoDuplicates;
    FindHandlerFinds(s.handlers, s.heap, fd);
  }

  /** While a walk is active no handler is freed. */
  lemma SetFdFrames(s: State, fd: int, onRead: bool, onWrite: bool)
    requires Inv(s)
    ensures FramesOk(SetFdHandler(s, fd, onRead, onWrite))
  {
    NoWalks(s.stack);
    var s' := SetFdHandler(s, fd, onRead, onWrite);
    forall i | 0 <= i < |s'.stack|
      ensures FrameOk(s', s'.stack[i])
    {
      assert FrameOk(s, s.stack[i]);
    }
  }

  /** Freeing the current node: no other frame of the stack holds a handler. */
  lemma FreeCurrent(s: State)
    requires Inv(s) && s.stack != [] && Top(s).Dispatch? && s.walking == 1
    ensures forall i | 0 <= i < |s.stack| - 1 :: !WalksHandlers(s.stack[i])
  {
    NoWalks(s.stack[..|s.stack| - 1]);
  }

  lemma ReapLists(s: State, node: nat)
    requires Inv(s) && node in s.heap
    ensures ListsOk(Reap(s, node)) && OneLivePerFd(Reap(s, node))
  {
    WithoutIs(s.handlers, node);
  }

  lemma LeaveLists(s: State)
    requires Inv(s) && s.stack != [] && Top(s).Dispatch? && s.walking > 0 && Top(s).node in s.heap
    ensures ListsOk(Leave(s)) && OneLivePerFd(Leave(s))
  {
    hide After, Without, FramesOk, CountsOk, NoDuplicates;
    ReapLists(s, Top(s).node);
  }

  lemma LeaveCounts(s: State)
    requires Inv(s) && s.stack != [] && Top(s).Dispatch? && s.walking > 0 && Top(s).node in s.heap
    ensures CountsOk(Leave(s))
  {
    hide NoDuplicates, After, Without, FramesOk;
    var s' := Leave(s);
    if |s'.stack| == |s.stack| {
      CountTop(s, Top(s'));
    }
  }

  lemma LeaveFrames(s: State)
    requires Inv(s) && s.stack != [] && Top(s).Dispatch? && s.walking > 0 && Top(s).node in s.heap
    ensures FramesOk(Leave(s))
  {
    hide NoDuplicates, After, CountWalks, CountBhWalks;
    var node := Top(s).node;
    var next := After(s.handlers, node);
    var s' := Leave(s);
    if next.Some? {
      AfterInList(s.handlers, node);
    }
    if s.walking == 1 {
      FreeCurrent(s);
    }
    forall i | 0 <= i < |s'.stack|
      ensures FrameOk(s', s'.stack[i])
    {
      if i < |s.stack| - 1 {
        assert FrameOk(s, s.stack[i]) && s'.stack[i] == s.stack[i];
      }
    }
  }

  lemma LeaveInv(s: State)
    requires Inv(s) && s.stack != [] && Top(s).Dispatch? && s.walking > 0
    ensures Top(s).node in s.heap && Inv(Leave(s))
  {
    assert FrameOk(s, Top(s));
    LeaveLists(s);
    LeaveCounts(s);
    LeaveFrames(s);
  }

  lemma BhAdvanceInv(s: State)
    requires Inv(s) && s.stack != [] && Top(s).Bottom?
    ensures Inv(BhAdvance(s))
  {
    assert FrameOk(s, Top(s));
    var next := Top(s).next;
    var s' := BhAdvance(s);
    var below := s.stack[..|s.stack| - 1];
    if next.Some? {
      if After(s.bhList, next.value).Some? {
        AfterInList(s.bhList, next.value);
      }
      CountTop(s, Top(s'));
    } else {
      SurvivorsAre(s.bhList, s.bhHeap);
      NoWalks(below);
    }
    forall i | 0 <= i < |s'.stack|
      ensures FrameOk(s', s'.stack[i])
    {
      if i < |s.stack| - 1 {
        assert FrameOk(s, s.stack[i]) && s'.stack[i] == s.stack[i];
      }
    }
  }

  /** Pushing a frame that is sound keeps the frames below it sound. */
  lemma PushFrames(s: State, s': State, f: Frame)
    requires FramesOk(s) && s'.stack == s.stack + [f] && FrameOk(s', f)
    requires s'.heap.Keys == s.heap.Keys && s'.bhHeap == s.bhHeap
    ensures FramesOk(s')
  {
    forall i | 0 <= i < |s'.stack|
      ensures FrameOk(s', s'.stack[i])
    {
      if i < |s.stack| {
        assert FrameOk(s, s.stack[i]) && s'.stack[i] == s.stack[i];
      }
    }
  }

  /** The state when a walk has begun: its frame is on the stack, and it is counted. */
  function Begun(s: State, f: Frame): State {
    s.(stack := s.stack + [f], walking := s.walking + (if WalksHandlers(f) then 1 else 0),
       walkingBh := s.walkingBh + (if f.Bottom? then 1 else 0))
  }

  lemma BegunInv(s: State, f: Frame)
    requires Inv(s) && FrameOk(Begun(s, f), f)
    ensures Inv(Begun(s, f))
  {
    CountPush(s.stack, f);
    PushFrames(s, Begun(s, f), f);
    hide FrameOk, FramesOk, NoDuplicates, CountWalks, CountBhWalks;
  }

  lemma BeginPollInv(s: State, s': State)
    requires Inv(s) && Next(s, BeginPoll, s')
    ensures Inv(s')
  {
    hide Inv, Polled;
    PolledAre(s.handlers, s.heap);
    BegunInv(s, Poll(Polled(s.handlers, s.heap)));
  }

  /** Taking a handler's events changes nothing the invariant speaks of. */
  lemma TakeEventsInv(s: State, node: nat)
    requires Inv(s) && node in s.heap
    ensures Inv(s.(heap := Enter(s.heap, node).0))
  {
    hide NoDuplicates, CountWalks, CountBhWalks;
    var s' := s.(heap := Enter(s.heap, node).0);
    assert s'.heap.Keys == s.heap.Keys;
    forall i | 0 <= i < |s'.stack|
      ensures FrameOk(s', s'.stack[i])
    {
      assert FrameOk(s, s.stack[i]);
    }
  }

  lemma BeginDispatchInv(s: State, s': State)
    requires Inv(s) && Next(s, BeginDispatch, s')
    ensures Inv(s')
  {
    hide Inv;
    if s' != s {
      TakeEventsInv(s, s.handlers[0]);
      BegunInv(s.(heap := Enter(s.heap, s.handlers[0]).0), Top(s'));
    }
  }

  lemma FirstBhOk(s: State)
    requires Inv(s) && s.bhList != []
    ensures FrameOk(s, Bottom(s.bhList[0], After(s.bhList, s.bhList[0]), false))
  {
    if After(s.bhList, s.bhList[0]).Some? {
      AfterInList(s.bhList, s.bhList[0]);
    }
    hide After, NoDuplicates, FramesOk, CountsOk, OneLivePerFd;
  }

  lemma BeginBhPollInv(s: State, s': State)
    requires Inv(s) && Next(s, BeginBhPoll, s')
    ensures Inv(s')
  {
    hide Inv, After;
    if s' != s {
      FirstBhOk(s);
      BegunInv(s, Bottom(s.bhList[0], After(s.bhList, s.bhList[0]), false));
    }
  }

  lemma EndPollInv(s: State, step: Step, s': State)
    requires Inv(s) && Next(s, step, s') && step.EndPoll?
    ensures Inv(s')
  {
    assert s'.heap.Keys == s.heap.Keys;
    forall i | 0 <= i < |s'.stack|
      ensures FrameOk(s', s'.stack[i])
    {
      assert FrameOk(s, s.stack[i]) && s'.stack[i] == s.stack[i];
    }
  }

  /** Changing a frame of the innermost walk to a sound one of the same kind. */
  lemma SetTopInv(s: State, f: Frame)
    requires Inv(s) && s.stack != [] && FrameOk(s, f)
    requires WalksHandlers(f) == WalksHandlers(Top(s)) && f.Bottom? == Top(s).Bottom?
    ensures Inv(SetTop(s, f))
  {
    CountTop(s, f);
    hide NoDuplicates, CountWalks, CountBhWalks;
    var s' := SetTop(s, f);
    forall i | 0 <= i < |s'.stack|
      ensures FrameOk(s', s'.stack[i])
    {
      assert FrameOk(s, s.stack[i]);
    }
  }

  /** Changing a bottom half changes nothing the invariant speaks of. */
  lemma BhUpdateInv(s: State, b: nat, bh: Bh)
    requires Inv(s) && b in s.bhHeap
    ensures Inv(s.(bhHeap := s.bhHeap[b := bh]))
  {
    hide NoDuplicates, CountWalks, CountBhWalks;
    var s' := s.(bhHeap := s.bhHeap[b := bh]);
    assert s'.bhHeap.Keys == s.bhHeap.Keys;
    forall i | 0 <= i < |s'.stack|
      ensures FrameOk(s', s'.stack[i])
    {
      assert FrameOk(s, s.stack[i]);
    }
  }

  lemma TopOk(s: State)
    requires Inv(s) && s.stack != []
    ensures FrameOk(s, Top(s))
  {
  }

  lemma PhaseInv(s: State, step: Step, s': State)
    requires Inv(s) && Next(s, step, s')
    requires step.CallRead? || step.SkipRead? || step.ReturnRead? || step.CallWrite?
    ensures Inv(s')
  {
    hide Inv;
    TopOk(s);
    SetTopInv(s, Top(s'));
  }

  lemma BhCallInv(s: State, s': State)
    requires Inv(s) && Next(s, BhCall, s')
    ensures Inv(s')
  {
    hide Inv;
    TopOk(s);
    var b := Top(s).bh;
    BhUpdateInv(s, b, s.bhHeap[b].(scheduled := false));
    SetTopInv(s.(bhHeap := s.bhHeap[b := s.bhHeap[b].(scheduled := false)]), Top(s'));
  }

  lemma BhNewInv(s: State, s': State)
    requires Inv(s) && Next(s, BhNew, s')
    ensures Inv(s')
  {
    hide CountWalks, CountBhWalks;
    BhNewLists(s, s');
    hide ListsOk;
    forall i | 0 <= i < |s'.stack|
      ensures FrameOk(s', s'.stack[i])
    {
      assert FrameOk(s, s.stack[i]);
    }
  }

  lemma BhNewLists(s: State, s': State)
    requires ListsOk(s) && Next(s, BhNew, s')
    ensures ListsOk(s')
  {
    assert ([s.nextId] + s.bhList)[1..] == s.bhList;
  }

  lemma BhListInv(s: State, step: Step, s': State)
    requires Inv(s) && Next(s, step, s') && (step.BhSchedule? || step.BhCancel? || step.BhDelete?)
    ensures Inv(s')
  {
    hide Inv;
    BhUpdateInv(s, step.bh, s'.bhHeap[step.bh]);
  }

  lemma StepInv(s: State, step: Step, s': State)
    requires Inv(s) && Next(s, step, s')
    ensures Inv(s')
  {
    match step
    case SetFd(fd, r, w) =>
      SetFdLists(s, fd, r, w);
      SetFdLive(s, fd, r, w);
      SetFdFrames(s, fd, r, w);
    case EndPoll(_) => EndPollInv(s, step, s');
    case BeginPoll => BeginPollInv(s, s');
    case BeginDispatch => BeginDispatchInv(s, s');
    case BeginBhPoll => BeginBhPollInv(s, s');
    case SkipWrite => LeaveInv(s);
    case ReturnWrite => LeaveInv(s);
    case BhNew => BhNewInv(s, s');
    case BhCall => BhCallInv(s, s');
    case BhSchedule(_) => BhListInv(s, step, s');
    case BhCancel(_) => BhListInv(s, step, s');
    case BhDelete(_) => BhListInv(s, step, s');
    case BhSkip => BhAdvanceInv(s);
    case BhReturn => BhAdvanceInv(s);
    case _ => PhaseInv(s, step, s');
  }

  lemma InvAccesses(s: State, step: Step)
    requires Inv(s)
    ensures Accesses(s, step)
  {
    if s.stack != [] {
      assert FrameOk(s, Top(s));
      if Top(s).Dispatch? && After(s.handlers, Top(s).node).Some? {
        AfterInList(s.handlers, Top(s).node);
      }
    }
  }

  predicate Init(s: State) {
    s == State([], map[], 0, [], map[], 0, 0, [])
  }

  predicate IsRun(states: seq<State>, steps: seq<Step>) {
    && |states| == |steps| + 1
    && Init(states[0])
    && forall i | 0 <= i < |steps| :: Next(states[i], steps[i], states[i + 1])
  }

  lemma {:induction false} RunInv(states: seq<State>, steps: seq<Step>, i: nat)
    requires IsRun(states, steps) && i < |states|
    ensures Inv(states[i])
  {
    if i > 0 {
      RunInv(states, steps, i - 1);
      StepInv(states[i - 1], steps[i - 1], states[i]);
    }
  }

  /** Under any nesting of walks and callbacks no step that could come next touches a freed object,
      and every descriptor has at most one live handler. */
  lemma NoUseAfterFree(states: seq<State>, steps: seq<Step>, i: nat, step: Step)
    requires IsRun(states, steps) && i < |states|
    ensures Accesses(states[i], step)
    ensures OneLivePerFd(states[i])
  {
    RunInv(states, steps, i);
    InvAccesses(states[i], step);
  }

  /** The handler has been given out and is deleted or already freed. */
  predicate Gone(s: State, h: nat) {
    h < s.nextId && (h in s.heap ==> s.heap[h].deleted)
  }

  predicate BhGone(s: State, b: nat) {
    b < s.nextId && (b in s.bhHeap ==> s.bhHeap[b].deleted)
  }

  /** The handler that a step calls back. */
  function Called(s: State, step: Step): Option<nat> {
    if s.stack != [] && Top(s).Dispatch? && (step.CallRead? || step.CallWrite?) then Some(Top(s).node) else None
  }

  function BhCalled(s: State, step: Step): Option<nat> {
    if s.stack != [] && Top(s).Bottom? && step.BhCall? then Some(Top(s).bh) else None
  }

  lemma SetFdGone(s: State, fd: int, onRead: bool, onWrite: bool, h: nat)
    requires Inv(s)
    ensures var s' := SetFdHandler(s, fd, onRead, onWrite);
      (Gone(s, h) ==> Gone(s', h)) && s'.bhHeap == s.bhHeap && s'.nextId >= s.nextId
  {
    hide FindHandler, Without;
    FindHandlerFinds(s.handlers, s.heap, fd);
  }

  lemma LeaveGone(s: State, h: nat)
    requires s.stack != [] && Top(s).Dispatch? && s.walking > 0 && Top(s).node in s.heap
    ensures var s' := Leave(s); (Gone(s, h) ==> Gone(s', h)) && s'.bhHeap == s.bhHeap && s'.nextId == s.nextId
  {
    hide After, Without;
  }

  lemma BhAdvanceGone(s: State, b: nat)
    requires s.stack != [] && Top(s).Bottom?
    ensures var s' := BhAdvance(s); (BhGone(s, b) ==> BhGone(s', b)) && s'.heap == s.heap && s'.nextId == s.nextId
  {
    hide After, Survivors;
  }

  /** What holds of the handlers and bottom halves that are gone after a step. */
  predicate StayGone(s: State, s': State, h: nat) {
    (Gone(s, h) ==> Gone(s', h)) && (BhGone(s, h) ==> BhGone(s', h))
  }

  lemma LeavingGone(s: State, step: Step, s': State, h: nat)
    requires Inv(s) && Next(s, step, s')
    requires step.SetFd? || step.SkipWrite? || step.ReturnWrite? || step.BhSkip? || step.BhReturn?
    ensures StayGone(s, s', h)
  {
    hide Inv, SetFdHandler, Leave, BhAdvance;
    match step
    case SetFd(fd, r, w) => SetFdGone(s, fd, r, w, h);
    case SkipWrite => LeaveGone(s, h);
    case ReturnWrite => LeaveGone(s, h);
    case BhSkip => BhAdvanceGone(s, h);
    case BhReturn => BhAdvanceGone(s, h);
  }

  lemma PollingGone(s: State, step: Step, s': State, h: nat)
    requires Next(s, step, s') && (step.BeginPoll? || step.EndPoll? || step.BeginDispatch? || step.BeginBhPoll?)
    ensures StayGone(s, s', h)
  {
    hide Polled, After;
  }

  lemma CallingGone(s: State, step: Step, s': State, h: nat)
    requires Next(s, step, s')
    requires step.CallRead? || step.SkipRead? || step.ReturnRead? || step.CallWrite? || step.BhCall?
    ensures StayGone(s, s', h)
  {
  }

  lemma BhListGone(s: State, step: Step, s': State, h: nat)
    requires Next(s, step, s') && (step.BhNew? || step.BhSchedule? || step.BhCancel? || step.BhDelete?)
    ensures StayGone(s, s', h)
  {
  }

  /** A deleted handler or bottom half stays deleted until it is freed, and its identity is not used again. */
  lemma GoneStays(s: State, step: Step, s': State, h: nat)
    requires Inv(s) && Next(s, step, s')
    ensures StayGone(s, s', h)
  {
    hide Inv, Next, StayGone;
    if step.SetFd? || step.SkipWrite? || step.ReturnWrite? || step.BhSkip? || step.BhReturn? {
      LeavingGone(s, step, s', h);
    } else if step.BhNew? || step.BhSchedule? || step.BhCancel? || step.BhDelete? {
      BhListGone(s, step, s', h);
    } else if step.BeginPoll? || step.EndPoll? || step.BeginDispatch? || step.BeginBhPoll? {
      PollingGone(s, step, s', h);
    } else {
      CallingGone(s, step, s', h);
    }
  }

  lemma GoneNotCalled(s: State, step: Step, s': State, h: nat)
    requires Next(s, step, s')
    ensures Gone(s, h) ==> Called(s, step) != Some(h)
    ensures BhGone(s, h) ==> BhCalled(s, step) != Some(h)
  {
  }

  /** A handler that has been deleted is never called back again. */
  lemma {:induction false} DeletedNeverCalled(states: seq<State>, steps: seq<Step>, i: nat, j: nat, h: nat)
    requires IsRun(states, steps) && i <= j < |steps| && Gone(states[i], h)
    ensures Gone(states[j], h) && Called(states[j], steps[j]) != Some(h)
    decreases j
  {
    hide Next, Inv;
    GoneNotCalled(states[j], steps[j], states[j + 1], h);
    if i < j {
      DeletedNeverCalled(states, steps, i, j - 1, h);
      RunInv(states, steps, j - 1);
      GoneStays(states[j - 1], steps[j - 1], states[j], h);
    }
  }

  /** A deleted bottom half is never called back again, even if it is scheduled once more. */
  lemma {:induction false} DeletedBhNeverCalled(states: seq<State>, steps: seq<Step>, i: nat, j: nat, b: nat)
    requires IsRun(states, steps) && i <= j < |steps| && BhGone(states[i], b)
    ensures BhGone(states[j], b) && BhCalled(states[j], steps[j]) != Some(b)
    decreases j
  {
    hide Next, Inv;
    GoneNotCalled(states[j], steps[j], states[j + 1], b);
    if i < j {
      DeletedBhNeverCalled(states, steps, i, j - 1, b);
      RunInv(states, steps, j - 1);
      GoneStays(states[j - 1], steps[j - 1], states[j], b);
    }
  }

  /** Clearing both callbacks of a descriptor leaves no live handler for it. */
  lemma ClearingDeletes(s: State, fd: int)
    requires Inv(s)
    ensures var s' := SetFdHandler(s, fd, false, false);
      && (forall h :: h in s'.heap && s'.heap[h].fd == fd ==> s'.heap[h].deleted)
      && (s.walking == 0 ==> forall h :: h in s.heap && s.heap[h].fd == fd && !s.heap[h].deleted ==> h !in s'.heap)
  {
    FindHandlerFinds(s.handlers, s.heap, fd);
  }

  /** Setting callbacks of a descriptor leaves it exactly one live handler, with those callbacks, and no other
      handler is changed. */
  lemma SetFdMeans(s: State, fd: int, onRead: bool, onWrite: bool) returns (h: nat)
    requires Inv(s) && (onRead || onWrite)
    ensures var s' := SetFdHandler(s, fd, onRead, onWrite);
      && h in s'.heap && h in s'.handlers && s'.heap[h].fd == fd && !s'.heap[h].deleted
      && s'.heap[h].onRead == onRead && s'.heap[h].onWrite == onWrite
      && (forall x :: x in s'.heap && x != h ==> x in s.heap && s'.heap[x] == s.heap[x])
      && (forall x :: x in s.heap ==> x in s'.heap)
      && (forall x :: x in s'.heap && s'.heap[x].fd == fd && !s'.heap[x].deleted ==> x == h)
  {
    hide FindHandler, NoDuplicates, FramesOk, CountsOk;
    FindHandlerFinds(s.handlers, s.heap, fd);
    var found := FindHandler(s.handlers, s.heap, fd);
    h := if found.Some? then found.value else s.nextId;
  }

  // ---------------------------------------------------------------------------------------
  // Walks visit what they should

  datatype Callback = Reading | Writing

  /** poll() reported an event that the handler has this callback for. */
  predicate ReadyFor(h: Handler, c: Callback) {
    match c
    case Reading => h.onRead && (h.ready.input || h.ready.error)
    case Writing => h.onWrite && (h.ready.output || h.ready.error)
  }

  predicate Calls(s: State, step: Step, h: nat, c: Callback) {
    && s.stack != [] && Top(s).Dispatch? && Top(s).node == h
    && step == match c { case Reading => CallRead case Writing => CallWrite }
  }

  /** The program does not register other callbacks for the handler, and no poll takes its event back. */
  predicate Undisturbed(s: State, step: Step, h: nat, c: Callback) {
    && (step.SetFd? && h in s.heap ==> step.fd != s.heap[h].fd)
    && (step.EndPoll? && h in step.ready && h in s.heap ==> ReadyFor(s.heap[h].(ready := step.ready[h]), c))
  }

  /** The handler is alive and has the callback. */
  predicate Has(s: State, h: nat, c: Callback) {
    h in s.heap && !s.heap[h].deleted && match c { case Reading => s.heap[h].onRead case Writing => s.heap[h].onWrite }
  }

  /** `x` comes before `y`. */
  ghost predicate Before(list: seq<nat>, x: nat, y: nat) {
    exists i, j :: 0 <= i < j < |list| && list[i] == x && list[j] == y
  }

  /** The walk has taken the handler's event and will still come to the callback. */
  predicate Promises(f: Frame, h: nat, c: Callback) {
    && f.Dispatch? && f.node == h
    && match c
       case Reading => f.phase == AtRead && f.r
       case Writing => (f.phase == AtRead || f.phase == InRead || f.phase == AtWrite) && f.w
  }

  ghost predicate Promised(s: State, d: nat, h: nat, c: Callback) {
    exists p :: d <= p < |s.stack| && Promises(s.stack[p], h, c)
  }

  /** The walk at depth `d` has not come to the handler, whose event is still there. */
  ghost predicate Ahead(s: State, d: nat, h: nat, c: Callback) {
    && d < |s.stack| && s.stack[d].Dispatch? && h in s.heap && ReadyFor(s.heap[h], c)
    && Before(s.handlers, s.stack[d].node, h)
  }

  ghost predicate Due(s: State, d: nat, h: nat, c: Callback) {
    d < |s.stack| && Has(s, h, c) && (Promised(s, d, h, c) || Ahead(s, d, h, c))
  }

  lemma EnterPromises(heap: map<nat, Handler>, h: nat, c: Callback)
    requires h in heap && ReadyFor(heap[h], c)
    ensures Promises(Enter(heap, h).1, h, c)
  {
  }

  lemma BeforeNext(list: seq<nat>, x: nat, y: nat)
    requires NoDuplicates(list) && Before(list, x, y)
    ensures After(list, x).Some? && After(list, x).value in list
    ensures After(list, x).value == y || Before(list, After(list, x).value, y)
  {
    var i, j :| 0 <= i < j < |list| && list[i] == x && list[j] == y;
    AfterIsNext(list, i);
  }

  lemma {:induction false} BeforeWithout(list: seq<nat>, z: nat, x: nat, y: nat)
    requires Before(list, x, y) && z != x && z != y
    ensures Before(Without(list, z), x, y)
  {
    var i, j :| 0 <= i < j < |list| && list[i] == x && list[j] == y;
    if list[0] == z {
      assert list[1..][i - 1] == x && list[1..][j - 1] == y;
    } else if i == 0 {
      WithoutHas(list[1..], z, y);
      var k :| 0 <= k < |Without(list[1..], z)| && Without(list[1..], z)[k] == y;
      assert Without(list, z)[0] == x && Without(list, z)[k + 1] == y by {
        assert list[1..][j - 1] == y;
      }
    } else {
      assert list[1..][i - 1] == x && list[1..][j - 1] == y;
      BeforeWithout(list[1..], z, x, y);
      var k, l :| 0 <= k < l < |Without(list[1..], z)| && Without(list[1..], z)[k] == x && Without(list[1..], z)[l] == y;
      assert Without(list, z)[k + 1] == x && Without(list, z)[l + 1] == y;
    }
  }

  lemma {:induction false} WithoutHas(list: seq<nat>, z: nat, y: nat)
    requires y in list && y != z
    ensures y in Without(list, z)
  {
    if list[0] != z && list[0] != y {
      WithoutHas(list[1..], z, y);
    }
  }

  lemma BeforeInFront(list: seq<nat>, z: nat, x: nat, y: nat)
    requires Before(list, x, y)
    ensures Before([z] + list, x, y)
  {
    var i, j :| 0 <= i < j < |list| && list[i] == x && list[j] == y;
    assert ([z] + list)[i + 1] == x && ([z] + list)[j + 1] == y;
  }

  /** Frames of dispatch walks stay at their handler, and keep what they promise. */
  predicate FramesKeep(s: State, s': State, h: nat, c: Callback) {
    forall p | 0 <= p < |s.stack| && s.stack[p].Dispatch? ::
      && p < |s'.stack| && s'.stack[p].Dispatch? && s'.stack[p].node == s.stack[p].node
      && (Promises(s.stack[p], h, c) ==> Promises(s'.stack[p], h, c))
  }

  ghost predicate OrderKept(s: State, s': State, h: nat) {
    forall x :: x in s'.heap && Before(s.handlers, x, h) ==> Before(s'.handlers, x, h)
  }

  /** The handler still has its callback and its event. */
  predicate HandlerKept(s: State, s': State, h: nat, c: Callback) {
    Has(s', h, c) && (h in s.heap && ReadyFor(s.heap[h], c) ==> ReadyFor(s'.heap[h], c))
  }

  lemma QuietDue(s: State, s': State, d: nat, h: nat, c: Callback)
    requires Due(s, d, h, c) && FramesKeep(s, s', h, c) && OrderKept(s, s', h) && HandlerKept(s, s', h, c) && FramesOk(s')
    ensures Due(s', d, h, c)
  {
    hide ReadyFor, Before;
    if Promised(s, d, h, c) {
      var p :| d <= p < |s.stack| && Promises(s.stack[p], h, c);
      assert Promises(s'.stack[p], h, c);
    } else {
      assert FrameOk(s', s'.stack[d]);
    }
  }

  lemma SetFdDue(s: State, step: Step, s': State, h: nat, c: Callback)
    requires Inv(s) && Inv(s') && Next(s, step, s') && step.SetFd? && Has(s, h, c) && Undisturbed(s, step, h, c)
    ensures FramesKeep(s, s', h, c) && OrderKept(s, s', h) && HandlerKept(s, s', h, c)
  {
    hide FindHandler, NoDuplicates, Without, Before, FramesOk, CountsOk, OneLivePerFd, ReadyFor;
    FindHandlerFinds(s.handlers, s.heap, step.fd);
    var found := FindHandler(s.handlers, s.heap, step.fd);
    forall x | x in s'.heap && Before(s.handlers, x, h)
      ensures Before(s'.handlers, x, h)
    {
      if s'.handlers != s.handlers {
        if step.onRead || step.onWrite {
          BeforeInFront(s.handlers, s.nextId, x, h);
        } else {
          BeforeWithout(s.handlers, found.value, x, h);
        }
      }
    }
  }

  /** Steps of bottom halves change neither the handlers nor the walks over them. */
  lemma BhStepDue(s: State, step: Step, s': State, h: nat, c: Callback)
    requires Next(s, step, s') && Has(s, h, c)
    requires step.BhNew? || step.BhSchedule? || step.BhCancel? || step.BhDelete?
             || step.BeginBhPoll? || step.BhCall? || step.BhSkip? || step.BhReturn?
    ensures FramesKeep(s, s', h, c) && OrderKept(s, s', h) && HandlerKept(s, s', h, c)
  {
    hide Before, After, Survivors, Promises, ReadyFor;
    assert s'.handlers == s.handlers && s'.heap == s.heap;
  }

  lemma PollDue(s: State, step: Step, s': State, h: nat, c: Callback)
    requires Next(s, step, s') && Has(s, h, c) && Undisturbed(s, step, h, c) && (step.BeginPoll? || step.EndPoll?)
    ensures FramesKeep(s, s', h, c) && OrderKept(s, s', h) && HandlerKept(s, s', h, c)
  {
    hide Before, Polled, Promises;
    assert s'.handlers == s.handlers;
  }

  lemma PhaseDue(s: State, step: Step, s': State, h: nat, c: Callback)
    requires Next(s, step, s') && Has(s, h, c) && !Calls(s, step, h, c)
    requires step.CallRead? || step.SkipRead? || step.ReturnRead? || step.CallWrite?
    ensures FramesKeep(s, s', h, c) && OrderKept(s, s', h) && HandlerKept(s, s', h, c)
  {
    hide Before;
  }

  lemma BeginDue(s: State, s': State, d: nat, h: nat, c: Callback)
    requires Inv(s) && Inv(s') && Next(s, BeginDispatch, s') && Due(s, d, h, c)
    ensures Due(s', d, h, c)
  {
    hide NoDuplicates, Before, CountsOk, OneLivePerFd;
    if s' != s {
      if s.handlers[0] == h && ReadyFor(s.heap[h], c) {
        EnterPromises(s.heap, h, c);
        assert Promises(s'.stack[|s'.stack| - 1], h, c);
      } else {
        QuietDue(s, s', d, h, c);
      }
    }
  }

  /** The end of an iteration: the walk goes on to the next handler of the list. */
  lemma LeaveDue(s: State, step: Step, s': State, d: nat, h: nat, c: Callback)
    requires Inv(s) && Inv(s') && Next(s, step, s') && (step.SkipWrite? || step.ReturnWrite?) && Due(s, d, h, c)
    ensures Due(s', d, h, c)
  {
    hide Before, Inv, Leave, ReadyFor, OrderKept;
    LeaveOrder(s, s', h);
    LeaveHandler(s, s', h, c);
    var top := |s.stack| - 1;
    if |s'.stack| == |s.stack| && Promises(s'.stack[top], h, c) {
      assert Promised(s', d, h, c);
    } else if Promised(s, d, h, c) {
      var p :| d <= p < |s.stack| && Promises(s.stack[p], h, c);
      assert p < top && s'.stack[p] == s.stack[p];
    } else if d < top {
      assert s'.stack[d] == s.stack[d];
      StayBefore(s, s', s'.stack[d].node, d, h);
    } else {
      LeaveNext(s, h);
      StayBefore(s, s', s'.stack[d].node, d, h);
    }
  }

  lemma StayBefore(s: State, s': State, x: nat, d: nat, h: nat)
    requires Inv(s') && d < |s'.stack| && s'.stack[d].Dispatch? && s'.stack[d].node == x
    requires OrderKept(s, s', h) && Before(s.handlers, x, h)
    ensures Before(s'.handlers, x, h)
  {
    hide Before, NoDuplicates;
    assert FrameOk(s', s'.stack[d]);
  }

  /** What stepping on does to a handler that is not deleted: nothing, or its event is taken. */
  lemma LeaveHandler(s: State, s': State, h: nat, c: Callback)
    requires Inv(s) && s.stack != [] && Top(s).Dispatch? && s.walking > 0 && Top(s).node in s.heap && s' == Leave(s)
    requires Has(s, h, c)
    ensures Has(s', h, c) && |s.stack| - 1 <= |s'.stack| <= |s.stack|
    ensures forall p | 0 <= p < |s.stack| - 1 :: s'.stack[p] == s.stack[p]
    ensures ReadyFor(s.heap[h], c) ==> ReadyFor(s'.heap[h], c) || (|s'.stack| == |s.stack| && Promises(Top(s'), h, c))
  {
    hide NoDuplicates, After, Without, FramesOk, CountsOk, OneLivePerFd;
  }

  /** The walk goes on to the handler it is looking for, or comes nearer to it. */
  lemma LeaveNext(s: State, h: nat)
    requires Inv(s) && s.stack != [] && Top(s).Dispatch? && s.walking > 0 && Top(s).node in s.heap
    requires Before(s.handlers, Top(s).node, h) && h in s.heap
    ensures var s' := Leave(s);
      && |s'.stack| == |s.stack| && Top(s').Dispatch? && Top(s').phase == AtRead
      && (if Top(s').node == h then forall c: Callback :: ReadyFor(s.heap[h], c) ==> Promises(Top(s'), h, c)
          else Before(s.handlers, Top(s').node, h))
  {
    BeforeIrreflexive(s.handlers, Top(s).node, h);
    BeforeNext(s.handlers, Top(s).node, h);
    AfterInList(s.handlers, Top(s).node);
    hide NoDuplicates, Before, After, Without, FramesOk, CountsOk, OneLivePerFd;
  }

  lemma LeaveOrder(s: State, s': State, h: nat)
    requires Inv(s) && s.stack != [] && Top(s).Dispatch? && s.walking > 0 && Top(s).node in s.heap && s' == Leave(s)
    requires h in s.heap && !s.heap[h].deleted
    ensures OrderKept(s, s', h) && h in s'.heap
  {
    hide NoDuplicates, Before, After, Without;
    forall x | x in s'.heap && Before(s.handlers, x, h)
      ensures Before(s'.handlers, x, h)
    {
      if s'.handlers != s.handlers {
        BeforeWithout(s.handlers, Top(s).node, x, h);
      }
    }
  }

  lemma BeforeIrreflexive(list: seq<nat>, x: nat, y: nat)
    requires NoDuplicates(list) && Before(list, x, y)
    ensures x != y
  {
    var i, j :| 0 <= i < j < |list| && list[i] == x && list[j] == y;
    AfterIsNext(list, i);
    AfterIsNext(list, j);
  }

  /** A callback that is due stays due until it is called; the walk cannot end before. */
  lemma DueKept(s: State, step: Step, s': State, d: nat, h: nat, c: Callback)
    requires Inv(s) && Inv(s') && Next(s, step, s') && Due(s, d, h, c)
    requires Undisturbed(s, step, h, c) && !Calls(s, step, h, c)
    ensures Due(s', d, h, c)
  {
    hide Next, Undisturbed, Calls, Promised, Ahead, ListsOk, OneLivePerFd, FramesOk, CountsOk, FramesKeep, OrderKept, HandlerKept;
    if step.BeginDispatch? {
      BeginDue(s, s', d, h, c);
    } else if step.SkipWrite? || step.ReturnWrite? {
      LeaveDue(s, step, s', d, h, c);
    } else {
      if step.SetFd? {
        SetFdDue(s, step, s', h, c);
      } else if step.CallRead? || step.SkipRead? || step.ReturnRead? || step.CallWrite? {
        PhaseDue(s, step, s', h, c);
      } else if step.BeginPoll? || step.EndPoll? {
        PollDue(s, step, s', h, c);
      } else {
        BhStepDue(s, step, s', h, c);
      }
      QuietDue(s, s', d, h, c);
    }
  }

  /** When a dispatch walk begins, every event that a live handler has a callback for is due. */
  lemma BeginsDue(s: State, s': State, h: nat, c: Callback)
    requires Inv(s) && Next(s, BeginDispatch, s') && Has(s, h, c) && ReadyFor(s.heap[h], c)
    ensures Due(s', |s.stack|, h, c)
  {
    hide NoDuplicates, FramesOk, CountsOk, OneLivePerFd;
    assert h in s.handlers;
    assert s.handlers[0] in s.handlers;
    if s.handlers[0] == h {
      EnterPromises(s.heap, h, c);
      assert Promises(s'.stack[|s.stack|], h, c);
    } else {
      var j :| 0 <= j < |s.handlers| && s.handlers[j] == h;
      assert s'.handlers[0] == s'.stack[|s.stack|].node && s'.handlers[j] == h;
    }
  }

  lemma {:induction false} DueUntilCalled(states: seq<State>, steps: seq<Step>, i: nat, j: nat, h: nat, c: Callback)
    requires IsRun(states, steps) && i < j <= |steps| && steps[i] == BeginDispatch
    requires Has(states[i], h, c) && ReadyFor(states[i].heap[h], c)
    requires forall k | i < k < j :: Undisturbed(states[k], steps[k], h, c)
    requires forall k | i < k < j :: !Calls(states[k], steps[k], h, c)
    ensures Due(states[j], |states[i].stack|, h, c)
    decreases j
  {
    hide Inv, Next, Due, Has, ReadyFor, Undisturbed, Calls;
    RunInv(states, steps, j - 1);
    RunInv(states, steps, j);
    if j == i + 1 {
      BeginsDue(states[i], states[j], h, c);
    } else {
      DueUntilCalled(states, steps, i, j - 1, h, c);
      DueKept(states[j - 1], steps[j - 1], states[j], |states[i].stack|, h, c);
    }
  }

  /** Every walk of aio_dispatch visits every handler: one that is ready for a callback it has when the walk
      begins, and whose callbacks and event are left alone, is called back before the walk ends. */
  lemma DispatchVisits(states: seq<State>, steps: seq<Step>, i: nat, j: nat, h: nat, c: Callback)
    requires IsRun(states, steps) && i < j <= |steps| && steps[i] == BeginDispatch
    requires Has(states[i], h, c) && ReadyFor(states[i].heap[h], c)
    requires forall k | i < k < j :: Undisturbed(states[k], steps[k], h, c)
    requires |states[j].stack| <= |states[i].stack|
    ensures exists k :: i < k < j && Calls(states[k], steps[k], h, c)
  {
    hide Next, Has, ReadyFor, Undisturbed, Calls, Promised, Ahead;
    if forall k | i < k < j :: !Calls(states[k], steps[k], h, c) {
      DueUntilCalled(states, steps, i, j, h, c);
    }
  }

  // ---------------------------------------------------------------------------------------

  /** The walk at depth `d` has still to come to the bottom half. */
  ghost predicate BhAhead(s: State, d: nat, b: nat) {
    && d < |s.stack| && s.stack[d].Bottom?
    && ((s.stack[d].bh == b && !s.stack[d].inCallback) ||
        (s.stack[d].next.Some? && (s.stack[d].next.value == b || Before(s.bhList, s.stack[d].next.value, b))))
  }

  predicate BhPending(s: State, b: nat) {
    b in s.bhHeap && s.bhHeap[b].scheduled && !s.bhHeap[b].deleted
  }

  predicate BhUndisturbed(step: Step, b: nat) {
    step != BhCancel(b) && step != BhDelete(b)
  }

  ghost predicate BhDue(s: State, d: nat, b: nat) {
    BhPending(s, b) && BhAhead(s, d, b)
  }

  /** The list of bottom halves is the same, or longer in front. */
  lemma BhQuietDue(s: State, s': State, d: nat, b: nat)
    requires BhDue(s, d, b) && BhPending(s', b) && d < |s'.stack| && s'.stack[d] == s.stack[d]
    requires s'.bhList == s.bhList || s'.bhList == [s.nextId] + s.bhList
    ensures BhDue(s', d, b)
  {
    hide Before;
    if s.stack[d].next.Some? && Before(s.bhList, s.stack[d].next.value, b) {
      BeforeInFront(s.bhList, s.nextId, s.stack[d].next.value, b);
    }
  }

  /** On to the next bottom half: the one that is ahead comes nearer. */
  lemma BhAdvanceDue(s: State, d: nat, b: nat)
    requires s.stack != [] && Top(s).Bottom? && Inv(s) && Inv(BhAdvance(s)) && BhDue(s, d, b)
    requires Top(s).inCallback || Top(s).bh != b
    ensures BhDue(BhAdvance(s), d, b)
  {
    hide NoDuplicates, Before, After, Survivors, OneLivePerFd, ListsOk, FrameOk, FramesOk;
    var s', top := BhAdvance(s), |s.stack| - 1;
    if d < top {
      assert s'.stack[d] == s.stack[d];
      StillWalking(s', d);
      BhQuietDue(s, s', d, b);
    } else {
      var next := Top(s).next.value;
      if next != b {
        BhOrder(s, next, b);
      }
    }
  }

  lemma BhOrder(s: State, x: nat, b: nat)
    requires Inv(s) && Before(s.bhList, x, b)
    ensures After(s.bhList, x).Some? && (After(s.bhList, x).value == b || Before(s.bhList, After(s.bhList, x).value, b))
  {
    BeforeNext(s.bhList, x, b);
  }

  lemma StillWalking(s: State, d: nat)
    requires Inv(s) && d < |s.stack| && s.stack[d].Bottom?
    ensures s.walkingBh > 0
  {
    NoWalks(s.stack);
  }

  lemma BhDueKept(s: State, step: Step, s': State, d: nat, b: nat)
    requires Inv(s) && Inv(s') && Next(s, step, s') && BhDue(s, d, b)
    requires BhUndisturbed(step, b) && BhCalled(s, step) != Some(b)
    ensures BhDue(s', d, b)
  {
    hide Inv, Before, After, SetFdHandler, Leave, BhAdvance, Polled, BhAhead;
    if step.BhSkip? || step.BhReturn? {
      BhTopIsNot(s, step, s', b);
      BhAdvanceDue(s, d, b);
    } else if step.BhCall? {
      BhCallDue(s, s', d, b);
    } else {
      BhElsewhere(s, step, s', d, b);
      BhQuietDue(s, s', d, b);
    }
  }

  lemma BhCallDue(s: State, s': State, d: nat, b: nat)
    requires Next(s, BhCall, s') && BhDue(s, d, b) && BhCalled(s, BhCall) != Some(b)
    ensures BhDue(s', d, b)
  {
    hide Before;
  }

  lemma BhTopIsNot(s: State, step: Step, s': State, b: nat)
    requires Next(s, step, s') && (step.BhSkip? || step.BhReturn?) && BhPending(s, b)
    ensures s.stack != [] && Top(s).Bottom? && (Top(s).inCallback || Top(s).bh != b)
  {
    hide BhAdvance;
  }

  lemma BhElsewhere(s: State, step: Step, s': State, d: nat, b: nat)
    requires Inv(s) && Next(s, step, s') && BhDue(s, d, b) && !step.BhSkip? && !step.BhReturn? && !step.BhCall?
    requires BhUndisturbed(step, b)
    ensures BhPending(s', b) && d < |s'.stack| && s'.stack[d] == s.stack[d]
    ensures s'.bhList == s.bhList || s'.bhList == [s.nextId] + s.bhList
  {
    hide Next, Before, After, NoDuplicates, FramesOk, CountsOk, OneLivePerFd;
    if step.BhNew? || step.BhSchedule? || step.BhCancel? || step.BhDelete? {
      BhListElsewhere(s, step, s', b);
    } else {
      HandlersElsewhere(s, step, s', d);
    }
  }

  lemma BhListElsewhere(s: State, step: Step, s': State, b: nat)
    requires Next(s, step, s') && BhPending(s, b) && b < s.nextId && BhUndisturbed(step, b)
    requires step.BhNew? || step.BhSchedule? || step.BhCancel? || step.BhDelete?
    ensures BhPending(s', b) && s'.stack == s.stack && (s'.bhList == s.bhList || s'.bhList == [s.nextId] + s.bhList)
  {
  }

  /** Steps of walks over the handlers leave the bottom halves and their walks alone. */
  lemma HandlersElsewhere(s: State, step: Step, s': State, d: nat)
    requires Next(s, step, s') && d < |s.stack| && s.stack[d].Bottom?
    requires !step.BhNew? && !step.BhSchedule? && !step.BhCancel? && !step.BhDelete?
    requires !step.BhSkip? && !step.BhReturn? && !step.BhCall?
    ensures s'.bhList == s.bhList && s'.bhHeap == s.bhHeap && d < |s'.stack| && s'.stack[d] == s.stack[d]
  {
    hide After, FindHandler, Without, Polled;
  }

  lemma BeginsBhDue(s: State, s': State, b: nat)
    requires Inv(s) && Next(s, BeginBhPoll, s') && BhPending(s, b)
    ensures BhDue(s', |s.stack|, b)
  {
    assert b in s.bhList;
    var j :| 0 <= j < |s.bhList| && s.bhList[j] == b;
    AfterIsNext(s.bhList, 0);
    hide NoDuplicates, FramesOk, CountsOk, OneLivePerFd, After;
    if j > 1 {
      assert s.bhList[1] == s'.stack[|s.stack|].next.value && s.bhList[j] == b;
      assert Before(s'.bhList, s'.bhList[1], b);
    }
  }

  lemma {:induction false} BhDueUntilCalled(states: seq<State>, steps: seq<Step>, i: nat, j: nat, b: nat)
    requires IsRun(states, steps) && i < j <= |steps| && steps[i] == BeginBhPoll && BhPending(states[i], b)
    requires forall k | i < k < j :: BhUndisturbed(steps[k], b)
    requires forall k | i < k < j :: BhCalled(states[k], steps[k]) != Some(b)
    ensures BhDue(states[j], |states[i].stack|, b)
    decreases j
  {
    hide Inv, Next, BhDue, BhPending, BhUndisturbed, BhCalled;
    RunInv(states, steps, j - 1);
    RunInv(states, steps, j);
    if j == i + 1 {
      BeginsBhDue(states[i], states[j], b);
    } else {
      BhDueUntilCalled(states, steps, i, j - 1, b);
      BhDueKept(states[j - 1], steps[j - 1], states[j], |states[i].stack|, b);
    }
  }

  /** Every walk of aio_bh_poll visits every bottom half: one that is scheduled when the walk begins, and is
      neither cancelled nor deleted, is called back before the walk ends. */
  lemma BhPollVisits(states: seq<State>, steps: seq<Step>, i: nat, j: nat, b: nat)
    requires IsRun(states, steps) && i < j <= |steps| && steps[i] == BeginBhPoll && BhPending(states[i], b)
    requires forall k | i < k < j :: BhUndisturbed(steps[k], b)
    requires |states[j].stack| <= |states[i].stack|
    ensures exists k :: i < k < j && BhCalled(states[k], steps[k]) == Some(b)
  {
    hide Next, BhPending, BhUndisturbed, BhCalled;
    if forall k | i < k < j :: BhCalled(states[k], steps[k]) != Some(b) {
      BhDueUntilCalled(states, steps, i, j, b);
    }
  }

  // ---------------------------------------------------------------------------------------
  // A nested run

  /** A handler whose callback walks the list again and deletes the handler under the feet of both walks. */
  function NestedState(i: nat): State {
    var h := Handler(5, false, true, false, NOT_READY);
    var at := Dispatch(0, AtRead, true, false);
    var again := Dispatch(0, AtRead, false, false);
    var s := State([0], map[0 := h], 0, [], map[], 0, 1, []);
    if i == 0 then State([], map[], 0, [], map[], 0, 0, [])
    else if i == 1 then s
    else if i == 2 then s.(walking := 1, stack := [Poll([0])])
    else if i == 3 then s.(heap := map[0 := h.(ready := Ready(true, false, false))])
    else if i == 4 then s.(walking := 1, stack := [at])
    else if i == 5 then s.(walking := 1, stack := [at.(phase := InRead)])
    else if i == 6 then s.(walking := 2, stack := [at.(phase := InRead), again])
    else if i == 7 then s.(walking := 2, stack := [at.(phase := InRead), again.(phase := AtWrite)])
    else if i == 8 then s.(walking := 2, heap := map[0 := h.(deleted := true)], stack := [at.(phase := InRead), again.(phase := AtWrite)])
    else if i == 9 then s.(walking := 1, heap := map[0 := h.(deleted := true)], stack := [at.(phase := InRead)])
    else if i == 10 then s.(walking := 1, heap := map[0 := h.(deleted := true)], stack := [at.(phase := AtWrite)])
    else s.(handlers := [], heap := map[])
  }

  function NestedStep(i: nat): Step {
    if i == 0 then SetFd(5, true, false)
    else if i == 1 then BeginPoll
    else if i == 2 then EndPoll(map[0 := Ready(true, false, false)])
    else if i == 3 || i == 5 then BeginDispatch
    else if i == 4 then CallRead
    else if i == 6 then SkipRead
    else if i == 7 then SetFd(5, false, false)
    else if i == 9 then ReturnRead
    else SkipWrite
  }

  lemma NestedNext(i: nat)
    requires i < 11
    ensures Next(NestedState(i), NestedStep(i), NestedState(i + 1))
  {
    hide NestedState, NestedStep, Next;
    if i < 6 {
      NestedStart(i);
    } else {
      NestedEnd(i);
    }
  }

  lemma NestedStart(i: nat)
    requires i < 6
    ensures Next(NestedState(i), NestedStep(i), NestedState(i + 1))
  {
    var s := NestedState(i);
    assert s.handlers == [] || s.handlers == [0];
    if i == 0 {
    } else if i == 1 {
      assert s.handlers[1..] == [] && Polled([], s.heap) == [];
      assert Polled(s.handlers, s.heap) == [0];
    } else if i == 2 {
    } else if i == 3 {
    } else if i == 4 {
    } else {
    }
  }

  lemma NestedEnd(i: nat)
    requires 6 <= i < 11
    ensures Next(NestedState(i), NestedStep(i), NestedState(i + 1))
  {
    var s := NestedState(i);
    assert s.handlers == [0];
    if i == 6 {
    } else if i == 7 {
    } else if i == 8 {
    } else if i == 9 {
    } else {
    }
  }

  /** Walks do nest, callbacks do run, and a handler deleted in between is freed by the outer walk. */
  lemma NestedRun() returns (states: seq<State>, steps: seq<Step>)
    ensures IsRun(states, steps) && |states| == 12
    ensures Calls(states[4], steps[4], 0, Reading) && |states[6].stack| == 2
    ensures 0 in states[8].heap && states[8].heap[0].deleted && states[11].heap == map[] && states[11].stack == []
  {
    hide Next;
    states := seq(12, i requires 0 <= i => NestedState(i));
    steps := seq(11, i requires 0 <= i => NestedStep(i));
    forall i | 0 <= i < |steps|
      ensures Next(states[i], steps[i], states[i + 1])
    {
      NestedNext(i);
    }
  }

  // ---------------------------------------------------------------------------------------
  // What is deleted is freed

  /** The walk at depth `d`, the outermost one, has still to pass the deleted handler, if it is not freed yet. */
  ghost predicate ToBeFreed(s: State, d: nat, h: nat) {
    h in s.heap ==>
      && s.heap[h].deleted && d < |s.stack| && s.stack[d].Dispatch? && CountWalks(s.stack[..d]) == 0
      && (s.stack[d].node == h || Before(s.handlers, s.stack[d].node, h))
  }

  lemma QuietFree(s: State, s': State, d: nat, h: nat)
    requires ToBeFreed(s, d, h) && h < s.nextId && OrderKept(s, s', h) && FramesOk(s')
    requires h in s'.heap ==> h in s.heap && s'.heap[h].deleted
    requires h in s.heap ==> d < |s'.stack| && s'.stack[..d] == s.stack[..d] && s'.stack[d].Dispatch? && s'.stack[d].node == s.stack[d].node
    ensures ToBeFreed(s', d, h)
  {
    hide Before, CountWalks;
    if h in s'.heap {
      assert FrameOk(s', s'.stack[d]);
    }
  }

  /** Steps other than the end of an iteration keep the frames of dispatch walks at their handlers. */
  lemma FramesStay(s: State, step: Step, s': State, d: nat)
    requires Next(s, step, s') && d < |s.stack| && s.stack[d].Dispatch? && !step.SkipWrite? && !step.ReturnWrite?
    ensures d < |s'.stack| && s'.stack[..d] == s.stack[..d] && s'.stack[d].Dispatch? && s'.stack[d].node == s.stack[d].node
  {
    hide After, FindHandler, Without, Polled, Survivors;
  }

  lemma OrderStays(s: State, step: Step, s': State, h: nat)
    requires Inv(s) && Inv(s') && Next(s, step, s') && h in s'.heap && !step.SkipWrite? && !step.ReturnWrite?
    ensures OrderKept(s, s', h)
  {
    hide Before, After, FindHandler, Without, Polled, Survivors, NoDuplicates, FramesOk, CountsOk, OneLivePerFd;
    if s'.handlers != s.handlers {
      FindHandlerFinds(s.handlers, s.heap, step.fd);
      var found := FindHandler(s.handlers, s.heap, step.fd);
      forall x | x in s'.heap && Before(s.handlers, x, h)
        ensures Before(s'.handlers, x, h)
      {
        if step.onRead || step.onWrite {
          BeforeInFront(s.handlers, s.nextId, x, h);
        } else {
          BeforeWithout(s.handlers, found.value, x, h);
        }
      }
    }
  }

  lemma StepFree(s: State, step: Step, s': State, d: nat, h: nat)
    requires Inv(s) && Inv(s') && Next(s, step, s') && ToBeFreed(s, d, h) && h < s.nextId
    requires !step.SkipWrite? && !step.ReturnWrite?
    ensures ToBeFreed(s', d, h)
  {
    hide Next, Before, CountWalks, OrderKept, ListsOk, OneLivePerFd, CountsOk;
    GoneStays(s, step, s', h);
    if h in s.heap {
      FramesStay(s, step, s', d);
    }
    if h in s'.heap {
      GoneNotNew(s, step, s', h);
      OrderStays(s, step, s', h);
      QuietFree(s, s', d, h);
    }
  }

  /** An identity that has been given out is not given to a new handler. */
  lemma GoneNotNew(s: State, step: Step, s': State, h: nat)
    requires Next(s, step, s') && h < s.nextId && h in s'.heap
    ensures h in s.heap
  {
    hide After, FindHandler, Without, Polled, Survivors;
  }

  lemma LeaveFree(s: State, s': State, d: nat, h: nat)
    requires Inv(s) && Inv(s') && s.stack != [] && Top(s).Dispatch? && s.walking > 0 && Top(s).node in s.heap && s' == Leave(s)
    requires ToBeFreed(s, d, h) && h < s.nextId
    ensures ToBeFreed(s', d, h)
  {
    hide Before, Inv, Leave, OrderKept, CountWalks;
    if h in s'.heap {
      LeaveKeeps(s, s', h);
      var top := |s.stack| - 1;
      if d < top {
        assert s'.stack[..top][d] == s.stack[..top][d] && s'.stack[..top][..d] == s.stack[..top][..d];
        assert s'.stack[..d] == s'.stack[..top][..d] && s.stack[..d] == s.stack[..top][..d];
        if s.stack[d].node != h {
          StayBefore(s, s', s'.stack[d].node, d, h);
        }
      } else {
        OutermostFrees(s, h);
        LeaveNext(s, h);
        assert s'.stack[..d] == s.stack[..d];
        if Top(s').node != h {
          StayBefore(s, s', s'.stack[d].node, d, h);
        }
      }
    }
  }

  lemma LeaveKeeps(s: State, s': State, h: nat)
    requires Inv(s) && s.stack != [] && Top(s).Dispatch? && s.walking > 0 && Top(s).node in s.heap && s' == Leave(s)
    requires h in s'.heap
    ensures h in s.heap && s'.heap[h].deleted == s.heap[h].deleted && OrderKept(s, s', h)
    ensures |s.stack| - 1 <= |s'.stack| && s'.stack[..|s.stack| - 1] == s.stack[..|s.stack| - 1]
  {
    hide NoDuplicates, Before, After, Without, FramesOk, CountsOk, OneLivePerFd;
    forall x | x in s'.heap && Before(s.handlers, x, h)
      ensures Before(s'.handlers, x, h)
    {
      if s'.handlers != s.handlers {
        BeforeWithout(s.handlers, Top(s).node, x, h);
      }
    }
  }

  /** The outermost walk frees the handler it leaves, if that is deleted. */
  lemma OutermostFrees(s: State, h: nat)
    requires Inv(s) && s.stack != [] && Top(s).Dispatch? && s.walking > 0 && Top(s).node in s.heap
    requires CountWalks(s.stack[..|s.stack| - 1]) == 0 && h in s.heap && s.heap[h].deleted && h in Leave(s).heap
    ensures Top(s).node != h
  {
    AfterNotSelf(s);
    hide NoDuplicates, After, Without, OneLivePerFd, FramesOk;
  }

  lemma AfterNotSelf(s: State)
    requires Inv(s) && s.stack != [] && Top(s).Dispatch?
    ensures var next := After(s.handlers, Top(s).node); next.Some? ==> next.value != Top(s).node
  {
    if After(s.handlers, Top(s).node).Some? {
      AfterInList(s.handlers, Top(s).node);
    }
  }

  lemma {:induction false} FreedOnTheWay(states: seq<State>, steps: seq<Step>, i: nat, j: nat, h: nat)
    requires IsRun(states, steps) && i < j <= |steps| && steps[i] == BeginDispatch
    requires h in states[i].heap && states[i].heap[h].deleted && CountWalks(states[i].stack) == 0
    ensures ToBeFreed(states[j], |states[i].stack|, h) && h < states[j].nextId
    decreases j
  {
    hide Inv, Next, ToBeFreed, CountWalks;
    RunInv(states, steps, j - 1);
    RunInv(states, steps, j);
    if j == i + 1 {
      BeginsToFree(states[i], states[j], h);
    } else {
      FreedOnTheWay(states, steps, i, j - 1, h);
      FreeStep(states[j - 1], steps[j - 1], states[j], |states[i].stack|, h);
    }
  }

  lemma FreeStep(s: State, step: Step, s': State, d: nat, h: nat)
    requires Inv(s) && Inv(s') && Next(s, step, s') && ToBeFreed(s, d, h) && h < s.nextId
    ensures ToBeFreed(s', d, h) && h < s'.nextId
  {
    hide Inv, ToBeFreed, SetFdHandler, Leave, BhAdvance, Polled, After;
    IdsGrow(s, step, s');
    if step.SkipWrite? || step.ReturnWrite? {
      LeaveFree(s, s', d, h);
    } else {
      StepFree(s, step, s', d, h);
    }
  }

  lemma IdsGrow(s: State, step: Step, s': State)
    requires Next(s, step, s')
    ensures s.nextId <= s'.nextId
  {
    hide After, FindHandler, Without, Polled, Survivors;
  }

  lemma BeginsToFree(s: State, s': State, h: nat)
    requires Inv(s) && Next(s, BeginDispatch, s') && h in s.heap && s.heap[h].deleted && CountWalks(s.stack) == 0
    ensures ToBeFreed(s', |s.stack|, h) && h < s'.nextId
  {
    hide NoDuplicates, FramesOk, CountsOk, OneLivePerFd, CountWalks;
    assert h in s.handlers;
    assert s.handlers[0] in s.handlers;
    var j :| 0 <= j < |s.handlers| && s.handlers[j] == h;
    assert s'.stack[..|s.stack|] == s.stack;
    if j > 0 {
      assert s'.handlers[0] == s'.stack[|s.stack|].node && s'.handlers[j] == h;
    }
  }

  /** A walk of aio_dispatch that is not nested in another one frees every handler that was deleted when it
      began. */
  lemma DeletedIsFreed(states: seq<State>, steps: seq<Step>, i: nat, j: nat, h: nat)
    requires IsRun(states, steps) && i < j <= |steps| && steps[i] == BeginDispatch
    requires h in states[i].heap && states[i].heap[h].deleted && CountWalks(states[i].stack) == 0
    requires |states[j].stack| <= |states[i].stack|
    ensures h !in states[j].heap
  {
    hide Next, CountWalks, Before;
    FreedOnTheWay(states, steps, i, j, h);
  }

  /** The end of a walk over the bottom halves that is not nested in another one frees all deleted ones, and no
      others. */
  lemma BhSwept(s: State)
    requires Inv(s) && s.stack != [] && Top(s).Bottom? && Top(s).next.None? && s.walkingBh == 1
    ensures forall b :: b in BhAdvance(s).bhHeap <==> b in s.bhHeap && !s.bhHeap[b].deleted
  {
    hide NoDuplicates, FramesOk, CountsOk, OneLivePerFd;
    SurvivorsAre(s.bhList, s.bhHeap);
  }

  // ---------------------------------------------------------------------------------------
  // Callbacks answer events, each once

  predicate Event(r: Ready, c: Callback) {
    match c
    case Reading => r.input || r.error
    case Writing => r.output || r.error
  }

  /** poll() reports an event of the handler. */
  predicate Reports(step: Step, h: nat, c: Callback) {
    step.EndPoll? && h in step.ready && Event(step.ready[h], c)
  }

  function CountPromises(stack: seq<Frame>, h: nat, c: Callback): nat {
    if stack == [] then 0
    else CountPromises(stack[..|stack| - 1], h, c) + if Promises(stack[|stack| - 1], h, c) then 1 else 0
  }

  /** Events that are still to be answered: at the handler, or taken by a walk. */
  function Unanswered(s: State, h: nat, c: Callback): nat {
    CountPromises(s.stack, h, c) + if h in s.heap && Event(s.heap[h].ready, c) then 1 else 0
  }

  function One(b: bool): nat {
    if b then 1 else 0
  }

  lemma PromisesPushed(stack: seq<Frame>, f: Frame, h: nat, c: Callback)
    ensures CountPromises(stack + [f], h, c) == CountPromises(stack, h, c) + One(Promises(f, h, c))
  {
    assert (stack + [f])[..|stack|] == stack;
  }

  /** The count with the innermost frame taken apart. */
  lemma PromisesTop(s: State, h: nat, c: Callback)
    requires s.stack != []
    ensures CountPromises(s.stack, h, c) == CountPromises(s.stack[..|s.stack| - 1], h, c) + One(Promises(Top(s), h, c))
  {
  }

  lemma EnterTakes(heap: map<nat, Handler>, node: nat, h: nat, c: Callback)
    requires node in heap
    ensures var (heap', f) := Enter(heap, node);
      && One(Promises(f, h, c)) + One(h in heap' && Event(heap'[h].ready, c)) <= One(h in heap && Event(heap[h].ready, c))
  {
  }

  lemma AnswerHandlers(s: State, step: Step, s': State, h: nat, c: Callback)
    requires Next(s, step, s') && (step.SetFd? || step.BeginPoll? || step.EndPoll?)
    ensures Unanswered(s', h, c) <= Unanswered(s, h, c) + One(Reports(step, h, c))
  {
    hide FindHandler, Without, Polled, CountPromises;
    if step.BeginPoll? {
      PromisesPushed(s.stack, Top(s'), h, c);
    } else if step.EndPoll? {
      PromisesTop(s, h, c);
    }
  }

  lemma AnswerBhs(s: State, step: Step, s': State, h: nat, c: Callback)
    requires Next(s, step, s')
    requires step.BhNew? || step.BhSchedule? || step.BhCancel? || step.BhDelete?
             || step.BeginBhPoll? || step.BhCall? || step.BhSkip? || step.BhReturn?
    ensures Unanswered(s', h, c) == Unanswered(s, h, c)
  {
    hide Next, CountPromises, Promises, Event;
    BhWalkOnly(s, step, s');
    if s'.stack != s.stack {
      BottomPromisesNothing(s, h, c);
      BottomPromisesNothing(s', h, c);
    }
  }

  /** The stack without the innermost frame. */
  function Below(s: State): seq<Frame>
    requires s.stack != []
  {
    s.stack[..|s.stack| - 1]
  }

  /** The innermost call is a walk over bottom halves. */
  predicate AtBottom(s: State) {
    s.stack != [] && Top(s).Bottom?
  }

  /** Steps of bottom halves change no handler, and no frame but that of a walk over bottom halves on top. */
  lemma BhWalkOnly(s: State, step: Step, s': State)
    requires Next(s, step, s')
    requires step.BhNew? || step.BhSchedule? || step.BhCancel? || step.BhDelete?
             || step.BeginBhPoll? || step.BhCall? || step.BhSkip? || step.BhReturn?
    ensures s'.heap == s.heap
    ensures || s'.stack == s.stack
            || (AtBottom(s') && Below(s') == s.stack)
            || (AtBottom(s) && s'.stack == Below(s))
            || (AtBottom(s) && AtBottom(s') && Below(s') == Below(s))
  {
    hide After, Survivors;
  }

  lemma BottomPromisesNothing(s: State, h: nat, c: Callback)
    ensures AtBottom(s) ==> CountPromises(Below(s), h, c) == CountPromises(s.stack, h, c)
  {
    hide CountPromises;
    if s.stack != [] {
      PromisesTop(s, h, c);
    }
  }

  lemma AnswerPhase(s: State, step: Step, s': State, h: nat, c: Callback)
    requires Next(s, step, s') && (step.CallRead? || step.SkipRead? || step.ReturnRead? || step.CallWrite?)
    ensures Unanswered(s', h, c) + One(Calls(s, step, h, c)) <= Unanswered(s, h, c)
  {
    hide CountPromises;
    PromisesTop(s, h, c);
    PromisesPushed(s.stack[..|s.stack| - 1], Top(s'), h, c);
  }

  lemma AnswerWalk(s: State, step: Step, s': State, h: nat, c: Callback)
    requires Next(s, step, s') && (step.BeginDispatch? || step.SkipWrite? || step.ReturnWrite?)
    ensures Unanswered(s', h, c) <= Unanswered(s, h, c)
  {
    hide CountPromises, Promises, Event, After, Without;
    if step.BeginDispatch? {
      if s' != s {
        PromisesPushed(s.stack, Top(s'), h, c);
        EnterTakes(s.heap, s.handlers[0], h, c);
      }
    } else {
      PromisesTop(s, h, c);
      var s1 := Reap(s, Top(s).node);
      if |s'.stack| == |s.stack| {
        PromisesPushed(s.stack[..|s.stack| - 1], Top(s'), h, c);
        EnterTakes(s1.heap, Top(s').node, h, c);
      }
    }
  }

  /** A step answers no more events than there are. */
  lemma StepAnswers(s: State, step: Step, s': State, h: nat, c: Callback)
    requires Next(s, step, s')
    ensures Unanswered(s', h, c) + One(Calls(s, step, h, c)) <= Unanswered(s, h, c) + One(Reports(step, h, c))
  {
    hide Next, Unanswered, Reports;
    if step.SetFd? || step.BeginPoll? || step.EndPoll? {
      AnswerHandlers(s, step, s', h, c);
    } else if step.BeginDispatch? || step.SkipWrite? || step.ReturnWrite? {
      AnswerWalk(s, step, s', h, c);
    } else if step.CallRead? || step.SkipRead? || step.ReturnRead? || step.CallWrite? {
      AnswerPhase(s, step, s', h, c);
    } else {
      AnswerBhs(s, step, s', h, c);
    }
  }

  function CountReports(steps: seq<Step>, h: nat, c: Callback): nat {
    if steps == [] then 0
    else CountReports(steps[..|steps| - 1], h, c) + One(Reports(steps[|steps| - 1], h, c))
  }

  function CountCalls(states: seq<State>, steps: seq<Step>, h: nat, c: Callback): nat
    requires |states| >= |steps|
  {
    if steps == [] then 0
    else
      var k := |steps| - 1;
      CountCalls(states, steps[..k], h, c) + One(Calls(states[k], steps[k], h, c))
  }

  /** In every run a callback runs at most once for each time poll() reported an event for it. */
  lemma {:induction false} CallsAnswerReports(states: seq<State>, steps: seq<Step>, i: nat, h: nat, c: Callback)
    requires IsRun(states, steps) && i <= |steps|
    ensures CountCalls(states, steps[..i], h, c) + Unanswered(states[i], h, c) <= CountReports(steps[..i], h, c)
  {
    hide Next, Unanswered, Reports, Calls;
    if i == 0 {
      NothingUnanswered(states[0], h, c);
    } else {
      CallsAnswerReports(states, steps, i - 1, h, c);
      StepAnswers(states[i - 1], steps[i - 1], states[i], h, c);
      assert steps[..i][..i - 1] == steps[..i - 1];
    }
  }

  lemma NothingUnanswered(s: State, h: nat, c: Callback)
    requires Init(s)
    ensures Unanswered(s, h, c) == 0
  {
  }

  function CountSchedules(steps: seq<Step>, b: nat): nat {
    if steps == [] then 0
    else CountSchedules(steps[..|steps| - 1], b) + One(steps[|steps| - 1] == BhSchedule(b))
  }

  function CountBhCalls(states: seq<State>, steps: seq<Step>, b: nat): nat
    requires |states| >= |steps|
  {
    if steps == [] then 0
    else
      var k := |steps| - 1;
      CountBhCalls(states, steps[..k], b) + One(BhCalled(states[k], steps[k]) == Some(b))
  }

  lemma StepRunsBh(s: State, step: Step, s': State, b: nat)
    requires Next(s, step, s')
    ensures One(b in s'.bhHeap && s'.bhHeap[b].scheduled) + One(BhCalled(s, step) == Some(b)) <=
            One(b in s.bhHeap && s.bhHeap[b].scheduled) + One(step == BhSchedule(b))
  {
    hide After, FindHandler, Without, Polled, Survivors;
  }

  /** In every run a bottom half runs at most once for each time it was scheduled. */
  lemma {:induction false} BhCallsAnswerSchedules(states: seq<State>, steps: seq<Step>, i: nat, b: nat)
    requires IsRun(states, steps) && i <= |steps|
    ensures CountBhCalls(states, steps[..i], b) + One(b in states[i].bhHeap && states[i].bhHeap[b].scheduled)
            <= CountSchedules(steps[..i], b)
  {
    hide Next, BhCalled;
    if i > 0 {
      BhCallsAnswerSchedules(states, steps, i - 1, b);
      StepRunsBh(states[i - 1], steps[i - 1], states[i], b);
      assert steps[..i][..i - 1] == steps[..i - 1];
    }
  }
}
