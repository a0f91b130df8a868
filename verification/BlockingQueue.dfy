/** A bounded queue between one producer and one consumer, as interleaved steps. */
module BlockingQueue {
  import opened Rings

  /** How far a push or a pop has got: it took its semaphore, touched its slot, moved its index. */
  datatype Progress = Idle | Taken | Touched | Moved

  function One(b: bool): (n: nat)
    ensures n <= 1
  {
    if b then 1 else 0
  }

  /**
   * pushed and popped list the items stored and loaded so far.  The semaphores and indexes follow
   * from their lengths and from the two operations in flight.
   */
  ghost predicate Consistent<T(!new)>(n: nat, data: seq<T>, head: nat, tail: nat, semHead: nat, semTail: nat,
                                      producer: Progress, consumer: Progress, pushed: seq<T>, popped: seq<T>)
  {
    && n == |data| > 0 && head < n && tail < n
    && |popped| <= |pushed| <= |popped| + n
    && semTail == |pushed| - One(producer.Touched? || producer.Moved?) - |popped| - One(consumer.Taken?)
    && semHead == n - |pushed| - One(producer.Taken?) + |popped| - One(consumer.Touched? || consumer.Moved?)
    && |pushed| >= One(producer.Touched?) && tail == At(|pushed| - One(producer.Touched?), n)
    && |popped| >= One(consumer.Touched?) && head == At(|popped| - One(consumer.Touched?), n)
    && popped == pushed[..|popped|]
    && forall k :: |popped| <= k < |pushed| ==> InSlot(data, pushed, k)
  }

  ghost predicate InSlot<T(!new)>(data: seq<T>, pushed: seq<T>, k: nat)
    requires |data| > 0 && k < |pushed|
  {
    data[At(k, |data|)] == pushed[k]
  }

  lemma Stored<T(!new)>(data: seq<T>, pushed: seq<T>, c: nat, item: T)
    requires |data| > 0 && c <= |pushed| < c + |data|
    requires forall k :: c <= k < |pushed| ==> InSlot(data, pushed, k)
    ensures var data' := data[At(|pushed|, |data|) := item];
      forall k :: c <= k < |pushed| + 1 ==> InSlot(data', pushed + [item], k)
  {
    var data' := data[At(|pushed|, |data|) := item];
    forall k | c <= k < |pushed| + 1 ensures InSlot(data', pushed + [item], k) {
      if k < |pushed| {
        assert InSlot(data, pushed, k);
        Apart(k, |pushed|, |data|);
      }
    }
  }

  class BlockingQueue<T(!new)> {
    const data: array<T>
    var head: nat
    var tail: nat
    var semHead: nat
    var semTail: nat
    var producer: Progress
    var consumer: Progress
    ghost var pushed: seq<T>
    ghost var popped: seq<T>

    ghost predicate Valid()
      reads this, data
    {
      Consistent(data.Length, data[..], head, tail, semHead, semTail, producer, consumer, pushed, popped)
    }

    constructor (n: nat, zero: T)
      requires n > 0
      ensures Valid() && fresh(data) && data.Length == n && pushed == [] && popped == []
      ensures producer == Idle && consumer == Idle
    {
      data := new T[n](_ => zero);
      head, tail, semHead, semTail, producer, consumer, pushed, popped := 0, 0, n, 0, Idle, Idle, [], [];
    }

    // ----- push -----

    method PushTake()
      requires Valid() && producer == Idle && semHead > 0
      modifies `semHead, `producer
      ensures Valid() && producer == Taken
    {
      semHead, producer := semHead - 1, Taken;
    }

    method PushStore(item: T)
      requires Valid() && producer == Taken
      modifies `producer, `pushed, data
      ensures Valid() && producer == Touched && pushed == old(pushed) + [item]
    {
      Stored(data[..], pushed, |popped|, item);
      ghost var was := data[..];
      data[tail] := item;
      assert data[..] == was[At(|pushed|, data.Length) := item];
      assert (pushed + [item])[..|popped|] == pushed[..|popped|];
      hide InSlot;
      pushed, producer := pushed + [item], Touched;
    }

    method PushMove()
      requires Valid() && producer == Touched
      modifies `producer, `tail
      ensures Valid() && producer == Moved
    {
      Next(|pushed| - 1, data.Length);
      tail, producer := (tail + 1) % data.Length, Moved;
    }

    method PushGive()
      requires Valid() && producer == Moved
      modifies `producer, `semTail
      ensures Valid() && producer == Idle
    {
      semTail, producer := semTail + 1, Idle;
    }

    // ----- pop -----

    method PopTake()
      requires Valid() && consumer == Idle && semTail > 0
      modifies `semTail, `consumer
      ensures Valid() && consumer == Taken
    {
      semTail, consumer := semTail - 1, Taken;
    }

    /** The loaded item is the next one that was pushed. */
    method PopLoad() returns (item: T)
      requires Valid() && consumer == Taken
      modifies `consumer, `popped
      ensures Valid() && consumer == Touched && popped == old(popped) + [item]
      ensures |old(popped)| < |pushed| && item == pushed[|old(popped)|]
    {
      item := data[head];
      assert InSlot(data[..], pushed, |popped|);
      assert pushed[..|popped| + 1] == pushed[..|popped|] + [item];
      hide InSlot;
      popped, consumer := popped + [item], Touched;
    }

    method PopMove()
      requires Valid() && consumer == Touched
      modifies `consumer, `head
      ensures Valid() && consumer == Moved
    {
      Next(|popped| - 1, data.Length);
      head, consumer := (head + 1) % data.Length, Moved;
    }

    method PopGive()
      requires Valid() && consumer == Moved
      modifies `consumer, `semHead
      ensures Valid() && consumer == Idle
    {
      semHead, consumer := semHead + 1, Idle;
    }
  }

  // ----- what every reachable state satisfies -----

  /** The semaphores and the operations in flight always account for all slots. */
  lemma SlotsAccounted<T(!new)>(n: nat, data: seq<T>, head: nat, tail: nat, semHead: nat, semTail: nat,
                                producer: Progress, consumer: Progress, pushed: seq<T>, popped: seq<T>)
    requires Consistent(n, data, head, tail, semHead, semTail, producer, consumer, pushed, popped)
    ensures semHead + semTail + One(!producer.Idle?) + One(!consumer.Idle?) == n
    ensures popped <= pushed && |pushed| - |popped| <= n
  {
  }

  /** A store and a load that are both due go to different slots. */
  lemma NeverSameSlot<T(!new)>(n: nat, data: seq<T>, head: nat, tail: nat, semHead: nat, semTail: nat,
                               producer: Progress, consumer: Progress, pushed: seq<T>, popped: seq<T>)
    requires Consistent(n, data, head, tail, semHead, semTail, producer, consumer, pushed, popped)
    requires producer == Taken && consumer == Taken
    ensures head != tail
  {
    Apart(|popped|, |pushed|, n);
  }

  /** The two sides never wait for each other. */
  lemma NoDeadlock<T(!new)>(n: nat, data: seq<T>, head: nat, tail: nat, semHead: nat, semTail: nat,
                            producer: Progress, consumer: Progress, pushed: seq<T>, popped: seq<T>)
    requires Consistent(n, data, head, tail, semHead, semTail, producer, consumer, pushed, popped)
    ensures !(producer == Idle && semHead == 0 && consumer == Idle && semTail == 0)
    ensures producer == Idle && semHead == 0 && consumer == Idle ==> |pushed| == |popped| + n
    ensures consumer == Idle && semTail == 0 && producer == Idle ==> pushed == popped
  {
  }
}
