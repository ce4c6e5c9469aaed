/**
 * The replay memory: a deque bounded by a capacity that drops its oldest
 * transition when a push would overflow it.
 */
module Memory {

  /** One (state, action, reward, next_state, done) tuple. */
  datatype Transition = Transition(state: seq<bool>, action: seq<int>, reward: int, nextState: seq<bool>, done: bool)

  /** The most recent (at most) capacity elements of s, oldest first. */
  function Recent<T>(s: seq<T>, capacity: nat): (r: seq<T>)
    ensures |r| <= capacity && |r| <= |s|
    ensures |s| <= capacity ==> r == s
    ensures r == s[|s| - |r|..]
  {
    if |s| <= capacity then s else s[|s| - capacity..]
  }

  /** Pushing onto the window of recent elements: append, then drop the oldest on overflow. */
  lemma RecentPush<T>(s: seq<T>, x: T, capacity: nat)
    ensures var r := Recent(s, capacity);
      Recent(s + [x], capacity) == if |r| + 1 <= capacity then r + [x] else (r + [x])[1..]
  {
    var r := Recent(s, capacity);
    var t := s + [x];
    if |r| + 1 > capacity && |s| + 1 > capacity {
      assert |r| == capacity;
      assert t[|t| - capacity..] == (r + [x])[1..];
    }
  }

  class ReplayMemory {
    const capacity: nat
    var memory: seq<Transition>
    /** Every transition ever pushed, oldest first. */
    ghost var pushed: seq<Transition>

    /** The deque holds exactly the most recent capacity transitions. */
    ghost predicate Valid()
      reads this
    {
      memory == Recent(pushed, capacity)
    }

    constructor (capacity: nat)
      ensures Valid() && this.capacity == capacity && memory == [] && pushed == []
    {
      this.capacity := capacity;
      memory := [];
      pushed := [];
    }

    /**
     * push (and its alias append): append to the right; a deque with maxlen
     * drops the leftmost element when it overflows.
     */
    method Push(t: Transition)
      requires Valid()
      modifies this
      ensures Valid() && pushed == old(pushed) + [t]
      ensures |old(memory)| < capacity ==> memory == old(memory) + [t]
      ensures |old(memory)| == capacity ==> memory == (old(memory) + [t])[1..]
    {
      RecentPush(pushed, t, capacity);
      memory := memory + [t];
      if |memory| > capacity {
        memory := memory[1..];
      }
      pushed := pushed + [t];
    }

    /** __len__: never more than the capacity. */
    function Length(): (n: nat)
      reads this
      requires Valid()
      ensures n <= capacity && (|pushed| <= capacity ==> n == |pushed|)
    {
      |memory|
    }
  }
}
