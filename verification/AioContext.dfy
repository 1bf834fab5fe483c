/** The operations on an event loop's lists in place, as the callbacks of a walk call them. */
module AioContext {
  import opened Basics
  import opened SeqFacts
  import opened AioWalk

  lemma SurvivorsStep(list: seq<nat>, i: nat, heap: map<nat, Bh>)
    requires i < |list| && list[i] in heap
    ensures Survivors(list[i..], heap) == (if heap[list[i]].deleted then [] else [list[i]]) + Survivors(list[i + 1..], heap)
  {
    assert list[i..][0] == list[i] && list[i..][1..] == list[i + 1..];
  }

  class EventLoop {
    var handlers: seq<nat>
    var heap: map<nat, Handler>
    var walking: nat
    var bhList: seq<nat>
    var bhHeap: map<nat, Bh>
    var walkingBh: nat
    var nextId: nat
    /** The walks under way. */
    ghost var stack: seq<Frame>

    ghost function View(): State
      reads this
    {
      State(handlers, heap, walking, bhList, bhHeap, walkingBh, nextId, stack)
    }

    constructor ()
      ensures View() == State([], map[], 0, [], map[], 0, 0, []) && Inv(View())
    {
      handlers, heap, walking := [], map[], 0;
      bhList, bhHeap, walkingBh := [], map[], 0;
      nextId := 0;
      stack := [];
    }

    /** find_aio_handler: the first live handler of a descriptor. */
    method FindAioHandler(fd: int) returns (r: Option<nat>)
      requires Inv(View())
      ensures r == FindHandler(handlers, heap, fd)
      ensures r.Some? ==> r.value in handlers && r.value in heap && heap[r.value].fd == fd && !heap[r.value].deleted
      ensures r.None? ==> forall x :: x in heap && heap[x].fd == fd ==> heap[x].deleted
    {
      FindHandlerFinds(handlers, heap, fd);
      var i: nat := 0;
      assert handlers[0..] == handlers;
      while i < |handlers|
        invariant i <= |handlers| && FindHandler(handlers[i..], heap, fd) == FindHandler(handlers, heap, fd)
      {
        var node := handlers[i];
        assert node in handlers;
        assert handlers[i..][0] == node && handlers[i..][1..] == handlers[i + 1..];
        if heap[node].fd == fd && !heap[node].deleted {
          return Some(node);
        }
        i := i + 1;
      }
      return None;
    }

    /** Takes `x` off the handler list. */
    method Unlink(x: nat)
      modifies `handlers
      ensures handlers == Without(old(handlers), x)
    {
      for i := 0 to |handlers|
        invariant handlers == old(handlers) && x !in handlers[..i]
      {
        if handlers[i] == x {
          WithoutFirst(handlers, i, x);
          handlers := handlers[..i] + handlers[i + 1..];
          return;
        }
      }
      WithoutNone(handlers, x);
    }

    /** aio_set_fd_handler: registering, changing or deleting a handler is one of the steps a callback may
        take, so everything that holds in every run of the walks holds here. */
    method SetFd(fd: int, onRead: bool, onWrite: bool)
      requires Inv(View())
      modifies `handlers, `heap, `nextId
      ensures View() == SetFdHandler(old(View()), fd, onRead, onWrite) && Inv(View())
    {
      hide Inv, Without;
      ghost var before := View();
      assert Next(before, Step.SetFd(fd, onRead, onWrite), SetFdHandler(before, fd, onRead, onWrite));
      StepInv(before, Step.SetFd(fd, onRead, onWrite), SetFdHandler(before, fd, onRead, onWrite));
      var found := FindAioHandler(fd);
      if !onRead && !onWrite {
        if found.Some? {
          if walking > 0 {
            heap := heap[found.value := heap[found.value].(deleted := true, ready := NOT_READY)];
          } else {
            Unlink(found.value);
            heap := heap - {found.value};
          }
        }
      } else if found.None? {
        handlers := [nextId] + handlers;
        heap := heap[nextId := Handler(fd, false, onRead, onWrite, NOT_READY)];
        nextId := nextId + 1;
      } else {
        heap := heap[found.value := heap[found.value].(onRead := onRead, onWrite := onWrite)];
      }
    }

    /** The descriptors aio_poll waits for. */
    method PollFds() returns (nodes: seq<nat>)
      requires Inv(View())
      ensures nodes == Polled(handlers, heap)
    {
      nodes := [];
      var i: nat := 0;
      assert handlers[0..] == handlers;
      while i < |handlers|
        invariant i <= |handlers| && nodes + Polled(handlers[i..], heap) == Polled(handlers, heap)
      {
        var node := handlers[i];
        assert node in handlers;
        assert handlers[i..][0] == node && handlers[i..][1..] == handlers[i + 1..];
        if !heap[node].deleted && (heap[node].onRead || heap[node].onWrite) {
          nodes := nodes + [node];
        }
        i := i + 1;
      }
    }

    /** aio_bh_new */
    method NewBh() returns (bh: nat)
      requires Inv(View())
      modifies `bhList, `bhHeap, `nextId
      ensures Next(old(View()), BhNew, View()) && Inv(View()) && bh == old(nextId)
    {
      hide Inv;
      ghost var before := View();
      bh := nextId;
      bhList := [nextId] + bhList;
      bhHeap := bhHeap[nextId := Bh(false, false)];
      nextId := nextId + 1;
      StepInv(before, BhNew, View());
    }

    /** qemu_bh_delete: the bottom half is only marked; a later walk frees it. */
    method DeleteBh(bh: nat)
      requires Inv(View()) && bh in bhHeap
      modifies `bhHeap
      ensures Next(old(View()), BhDelete(bh), View()) && Inv(View())
    {
      hide Inv;
      ghost var before := View();
      bhHeap := bhHeap[bh := Bh(false, true)];
      StepInv(before, BhDelete(bh), View());
    }

    /** The bottom halves left when the deleted ones are taken off the list. */
    method KeptBhs() returns (left: seq<nat>)
      requires Inv(View())
      ensures left == Survivors(bhList, bhHeap)
    {
      assert forall b :: b in bhList ==> b in bhHeap;
      assert Survivors([], bhHeap) == [];
      hide Inv, Survivors;
      left := [];
      var i: nat := 0;
      assert bhList[0..] == bhList;
      while i < |bhList|
        invariant i <= |bhList| && left + Survivors(bhList[i..], bhHeap) == Survivors(bhList, bhHeap)
      {
        assert bhList[i] in bhList;
        SurvivorsStep(bhList, i, bhHeap);
        ghost var rest := Survivors(bhList[i + 1..], bhHeap);
        if !bhHeap[bhList[i]].deleted {
          assert left + ([bhList[i]] + rest) == (left + [bhList[i]]) + rest;
          left := left + [bhList[i]];
        }
        i := i + 1;
      }
      assert bhList[i..] == [];
    }

    /** The end of aio_bh_poll: the walk ends, and if no other is active the deleted bottom halves are freed. */
    method EndBhPoll()
      requires Inv(View()) && stack != [] && Top(View()).Bottom? && Top(View()).next.None?
      modifies `bhList, `bhHeap, `walkingBh, `stack
      ensures View() == BhAdvance(old(View())) && Inv(View())
    {
      hide Inv, After, Survivors;
      BhAdvanceInv(View());
      var left := KeptBhs();
      LastWalk(View());
      stack := stack[..|stack| - 1];
      walkingBh := walkingBh - 1;
      if walkingBh == 0 {
        bhHeap := map b | b in bhHeap && b in left :: bhHeap[b];
        bhList := left;
      }
    }
  }

  /** A walk that is active is counted. */
  lemma LastWalk(s: State)
    requires Inv(s) && s.stack != [] && Top(s).Bottom?
    ensures s.walkingBh > 0
  {
  }
}
