/** The packet queue of the mock sockets: a ring buffer guarded by a mutex, on which one consumer
    blocks with a semaphore. Each step is one critical section, or the return of one blocked wait. */
module PacketQueues {

  const MAX_PACKETS := 100
  const SIZE_MAX := 0xFFFF_FFFF_FFFF_FFFF

  /** The fields of the queue. `recvSem` is the value of the semaphore the consumer waits on. */
  datatype Ring<T> = Ring(arr: seq<T>, front: nat, back: nat, numElems: nat, numWaitingForRecv: nat, recvSem: nat)
  {
    predicate WellFormed() {
      && |arr| == MAX_PACKETS
      && front < MAX_PACKETS
      && back == (front + numElems) % MAX_PACKETS
    }

    /** What the consumer gets if nothing more is pushed. A ring that counts more packets than it has
        slots hands some slots out more than once. */
    function Contents(): seq<T>
      requires WellFormed()
    {
      seq(numElems, i requires 0 <= i < numElems => arr[(front + i) % MAX_PACKETS])
    }

    predicate Full() { numElems == MAX_PACKETS }

    function Pushed(packet: T): Ring<T>
      requires back < |arr|
    {
      var r := this.(arr := arr[back := packet], back := if back + 1 == MAX_PACKETS then 0 else back + 1,
                     numElems := numElems + 1);
      if numWaitingForRecv > 0 then r.(numWaitingForRecv := numWaitingForRecv - 1, recvSem := recvSem + 1) else r
    }

    function Popped(): Ring<T> {
      this.(front := if front + 1 == MAX_PACKETS then 0 else front + 1,
            numElems := if numElems == 0 then SIZE_MAX else numElems - 1)
    }

    predicate HasRoom() { numElems < MAX_PACKETS }

    /** There is no room, and the slot to be written holds a different packet. */
    ghost predicate Clobbers(packet: T)
      requires back < |arr|
    {
      !HasRoom() && arr[back] != packet
    }

    /** Pushing appends to the contents, except when it overwrites a different packet. */
    lemma PushAppends(packet: T)
      requires WellFormed()
      ensures Pushed(packet).WellFormed()
      ensures Pushed(packet).Contents() == Contents() + [packet] <==> !Clobbers(packet)
    {
      var q := Pushed(packet);
      assert q.back == (front + numElems + 1) % MAX_PACKETS;
      forall i | 0 <= i < numElems
        ensures q.Contents()[i] == if (front + i) % MAX_PACKETS == back then packet else Contents()[i]
      {
      }
      if HasRoom() {
        forall i | 0 <= i < numElems ensures q.Contents()[i] == Contents()[i] {
          SlotsDiffer(front, i, numElems);
        }
      } else {
        OldestInSlot();
        if arr[back] == packet { assert q.arr == arr; }
      }
    }

    /** Of a ring without room, the first of its contents to lie in the slot to be written. */
    lemma OldestInSlot()
      requires WellFormed() && !HasRoom()
      ensures var k := numElems % MAX_PACKETS;
              k < numElems && (front + k) % MAX_PACKETS == back && Contents()[k] == arr[back]
    {
    }

    lemma PopRemovesFirst()
      requires WellFormed() && numElems > 0
      ensures Popped().WellFormed() && Contents() == [arr[front]] + Popped().Contents()
    {
      var q := Popped();
      forall i | 0 < i < numElems ensures Contents()[i] == q.Contents()[i - 1] {
        assert (q.front + (i - 1)) % MAX_PACKETS == (front + i) % MAX_PACKETS;
      }
    }
  }

  lemma SlotsDiffer(front: nat, i: nat, n: nat)
    requires front < MAX_PACKETS && i < n < MAX_PACKETS
    ensures (front + i) % MAX_PACKETS != (front + n) % MAX_PACKETS
  {
  }

  // ----- the object

  class PacketQueue<T(0)> {
    const arr: array<T>
    var front: nat
    var back: nat
    var numElems: nat
    var numWaitingForRecv: nat
    var recvSem: nat

    function View(): Ring<T>
      reads this, arr
    {
      Ring(arr[..], front, back, numElems, numWaitingForRecv, recvSem)
    }

    constructor Init()
      ensures fresh(arr) && View().WellFormed() && View().Contents() == []
      ensures numWaitingForRecv == 0 && recvSem == 0
    {
      arr := new T[MAX_PACKETS];
      front, back, numElems := 0, 0, 0;
      numWaitingForRecv, recvSem := 0, 0;
    }

    method Empty() returns (isEmpty: bool)
      requires View().WellFormed()
      ensures isEmpty <==> View().Contents() == []
    {
      isEmpty := numElems == 0;
    }

    method Full() returns (isFull: bool)
      requires View().WellFormed()
      ensures isFull <==> |View().Contents()| == MAX_PACKETS
    {
      isFull := numElems == MAX_PACKETS;
    }

    /** Pushing does not look whether there is room. */
    method Push(packet: T)
      requires back < arr.Length == MAX_PACKETS
      modifies this, arr
      ensures View() == old(View()).Pushed(packet)
      ensures old(View()).WellFormed() ==>
                View().WellFormed() &&
                (View().Contents() == old(View().Contents()) + [packet] <==> !old(View().Clobbers(packet)))
      ensures old(numWaitingForRecv) > 0 ==> recvSem == old(recvSem) + 1
    {
      ghost var was := View();
      arr[back] := packet;
      back := back + 1;
      if back == MAX_PACKETS {
        back := 0;
      }
      numElems := numElems + 1;
      if numWaitingForRecv > 0 {
        numWaitingForRecv := numWaitingForRecv - 1;
        recvSem := recvSem + 1;
      }
      if was.WellFormed() { was.PushAppends(packet); }
    }

    /** Neither does popping. */
    method Pop() returns (packet: T)
      requires front < arr.Length == MAX_PACKETS
      modifies `front, `numElems
      ensures View() == old(View()).Popped() && packet == old(arr[front])
      ensures old(View()).WellFormed() && old(numElems) > 0 ==>
                View().WellFormed() && old(View().Contents()) == [packet] + View().Contents()
    {
      ghost var was := View();
      packet := arr[front];
      front := front + 1;
      if front == MAX_PACKETS {
        front := 0;
      }
      numElems := if numElems == 0 then SIZE_MAX else numElems - 1;
      if was.WellFormed() && was.numElems > 0 { was.PopRemovesFirst(); }
    }

    /** The first half of a waiting pop: says whether the consumer now has to wait on the semaphore. */
    method WaitPopEnter() returns (mustWait: bool)
      modifies `numWaitingForRecv
      ensures mustWait <==> numElems == 0
      ensures View() == old(View()).(numWaitingForRecv := old(numWaitingForRecv) + if mustWait then 1 else 0)
    {
      mustWait := numElems == 0;
      if mustWait {
        numWaitingForRecv := numWaitingForRecv + 1;
      }
    }
  }

  // ----- one consumer, any number of producers

  /** Where the consumer stands: not receiving, waiting on the semaphore, about to pop. */
  datatype Consumer = Idle | Waiting | Ready

  /** `cleared` are the producers that have seen room in the queue and not pushed yet. */
  datatype World<T> = World(q: Ring<T>, consumer: Consumer, cleared: set<nat>, pushed: seq<T>, popped: seq<T>)

  datatype Step<T> = Check(producer: nat) | Push(producer: nat, packet: T) | WaitPop | Wake | Pop

  predicate Enabled<T>(w: World<T>, step: Step<T>) {
    match step
    case Check(producer) => producer !in w.cleared
    case Push(producer, _) => producer in w.cleared && w.q.back < |w.q.arr|
    case WaitPop => w.consumer.Idle?
    case Wake => w.consumer.Waiting? && w.q.recvSem > 0
    case Pop => w.consumer.Ready? && w.q.front < |w.q.arr|
  }

  function Next<T>(w: World<T>, step: Step<T>): World<T>
    requires Enabled(w, step)
  {
    match step
    case Check(producer) =>
      if w.q.Full() then w else w.(cleared := w.cleared + {producer})
    case Push(producer, packet) =>
      w.(q := w.q.Pushed(packet), cleared := w.cleared - {producer}, pushed := w.pushed + [packet])
    case WaitPop =>
      if w.q.numElems == 0
      then w.(q := w.q.(numWaitingForRecv := w.q.numWaitingForRecv + 1), consumer := Waiting)
      else w.(consumer := Ready)
    case Wake =>
      w.(q := w.q.(recvSem := w.q.recvSem - 1), consumer := Ready)
    case Pop =>
      w.(q := w.q.Popped(), consumer := Idle, popped := w.popped + [w.q.arr[w.q.front]])
  }

  ghost predicate Fresh<T>(w: World<T>) {
    && w.q.WellFormed() && w.q.front == w.q.numElems == w.q.numWaitingForRecv == w.q.recvSem == 0
    && w.consumer == Idle && w.cleared == {} && w.pushed == [] && w.popped == []
  }

  function After<T>(w: World<T>, step: Step<T>): World<T> {
    if Enabled(w, step) then Next(w, step) else w
  }

  function Play<T>(w: World<T>, steps: seq<Step<T>>): World<T>
    decreases |steps|
  {
    if steps == [] then w else Play(After(w, steps[0]), steps[1..])
  }

  /** First in, first out: what was popped, followed by what is queued, is what was pushed. */
  ghost predicate Fifo<T>(w: World<T>) {
    w.q.WellFormed() && w.popped + w.q.Contents() == w.pushed
  }

  /** A consumer about to pop has something to pop; one that waits is either counted as waiting on an
      empty queue, or has its wake-up pending and a packet to pop. */
  ghost predicate Awake<T>(w: World<T>) {
    && (w.consumer.Ready? ==> w.q.numElems > 0)
    && (w.consumer.Waiting? ==>
          if w.q.numElems == 0 then w.q.numWaitingForRecv == 1 && w.q.recvSem == 0
          else w.q.numWaitingForRecv == 0 && w.q.recvSem == 1)
    && (!w.consumer.Waiting? ==> w.q.numWaitingForRecv == 0 && w.q.recvSem == 0)
  }

  ghost predicate Sound<T>(w: World<T>) {
    Fifo(w) && Awake(w)
  }

  /** A push finds room. */
  ghost predicate Fits<T>(w: World<T>, step: Step<T>) {
    step.Push? && Enabled(w, step) ==> w.q.HasRoom()
  }

  ghost predicate AllFit<T>(w: World<T>, steps: seq<Step<T>>)
    decreases |steps|
  {
    steps == [] || (Fits(w, steps[0]) && AllFit(After(w, steps[0]), steps[1..]))
  }

  /** A push finds room or overwrites a packet equal to its own. */
  ghost predicate Harmless<T>(w: World<T>, step: Step<T>) {
    step.Push? && Enabled(w, step) ==> !w.q.Clobbers(step.packet)
  }

  ghost predicate AllHarmless<T>(w: World<T>, steps: seq<Step<T>>)
    decreases |steps|
  {
    steps == [] || (Harmless(w, steps[0]) && AllHarmless(After(w, steps[0]), steps[1..]))
  }

  lemma StepFifo<T>(w: World<T>, step: Step<T>)
    requires Sound(w) && Enabled(w, step)
    ensures Fifo(Next(w, step)) <==> Harmless(w, step)
  {
    hide Ring.Contents, Ring.Clobbers;
    var q := w.q;
    match step {
      case Check(_) =>
      case Push(_, packet) =>
        q.PushAppends(packet);
        SamePrefix(w.popped, q.Contents() + [packet], q.Pushed(packet).Contents());
        assert w.popped + (q.Contents() + [packet]) == w.popped + q.Contents() + [packet];
      case WaitPop => SameContents(q, Next(w, step).q);
      case Wake => SameContents(q, Next(w, step).q);
      case Pop =>
        q.PopRemovesFirst();
        assert w.popped + ([q.arr[q.front]] + q.Popped().Contents()) ==
               w.popped + [q.arr[q.front]] + q.Popped().Contents();
    }
  }

  lemma SamePrefix<T>(s: seq<T>, a: seq<T>, b: seq<T>)
    ensures s + a == s + b <==> a == b
  {
    if s + a == s + b { assert a == (s + a)[|s|..] && b == (s + b)[|s|..]; }
  }

  lemma SameContents<T>(q: Ring<T>, r: Ring<T>)
    requires q.WellFormed() && r.(numWaitingForRecv := q.numWaitingForRecv, recvSem := q.recvSem) == q
    ensures r.WellFormed() && r.Contents() == q.Contents()
  {
  }

  lemma StepAwake<T>(w: World<T>, step: Step<T>)
    requires Awake(w) && Enabled(w, step)
    ensures Awake(Next(w, step))
  {
  }

  /** A step keeps what was popped and what is queued in line with what was pushed exactly unless it
      overwrites a different packet, and it loses no wake-up in any case. */
  lemma StepSound<T>(w: World<T>, step: Step<T>)
    requires Sound(w)
    ensures Awake(After(w, step)) && (Sound(After(w, step)) <==> Harmless(w, step))
  {
    hide Fifo, Awake;
    if Enabled(w, step) {
      StepFifo(w, step);
      StepAwake(w, step);
    }
  }

  // ----- what the consumer sees

  /** What was popped is the beginning of what was pushed. */
  ghost predicate Honest<T>(w: World<T>) {
    w.popped <= w.pushed
  }

  /** Nothing is sent. */
  ghost predicate OnlyConsumer<T>(steps: seq<Step<T>>) {
    forall i | 0 <= i < |steps| :: !steps[i].Check? && !steps[i].Push?
  }

  /** However much of the queue the consumer takes, it gets what was pushed, in order. */
  ghost predicate DrainsHonestly<T(!new)>(w: World<T>) {
    forall steps | OnlyConsumer(steps) :: Honest(Play(w, steps))
  }

  lemma {:induction false} ConsumerStaysSound<T>(w: World<T>, steps: seq<Step<T>>)
    requires Sound(w) && OnlyConsumer(steps)
    ensures Sound(Play(w, steps))
    decreases |steps|
  {
    hide Sound, After;
    if steps != [] {
      StepSound(w, steps[0]);
      ConsumerStaysSound(After(w, steps[0]), steps[1..]);
    }
  }

  lemma SoundDrainsHonestly<T(!new)>(w: World<T>)
    requires Sound(w)
    ensures DrainsHonestly(w)
  {
    forall steps | OnlyConsumer(steps) ensures Honest(Play(w, steps)) {
      ConsumerStaysSound(w, steps);
    }
  }

  /** The consumer's way to its next packet. */
  function NextPop<T>(w: World<T>): seq<Step<T>> {
    match w.consumer
    case Idle => [WaitPop, Pop]
    case Waiting => [Wake, Pop]
    case Ready => [Pop]
  }

  lemma OnePop<T>(w: World<T>)
    requires w.q.WellFormed() && Awake(w) && w.q.numElems > 0
    ensures var t := Play(w, NextPop(w));
            && t.q.WellFormed() && Awake(t) && t.pushed == w.pushed && t.q.numElems == w.q.numElems - 1
            && w.q.Contents() != [] && t.popped == w.popped + [w.q.Contents()[0]]
            && t.q.Contents() == w.q.Contents()[1..]
  {
    var ready := if w.consumer.Ready? then w else After(w, NextPop(w)[0]);
    assert Play(w, NextPop(w)) == Play(ready, [Pop]) by {
      if !w.consumer.Ready? { assert NextPop(w)[1..] == [Pop]; }
    }
    assert Play(ready, [Pop]) == Play(After(ready, Pop), []);
    hide Ring.Contents;
    SameContents(w.q, ready.q);
    ready.q.PopRemovesFirst();
  }

  /** The consumer can take any number of the packets counted, one after the other. */
  lemma {:induction false} Drain<T>(w: World<T>, k: nat) returns (steps: seq<Step<T>>)
    requires w.q.WellFormed() && Awake(w) && k <= w.q.numElems
    ensures OnlyConsumer(steps) && Play(w, steps).pushed == w.pushed
    ensures Play(w, steps).popped == w.popped + w.q.Contents()[..k]
    decreases k
  {
    if k == 0 {
      steps := [];
    } else {
      OnePop(w);
      var t := Play(w, NextPop(w));
      var rest := Drain(t, k - 1);
      steps := NextPop(w) + rest;
      PlayInTwoParts(w, NextPop(w), rest);
      var c := w.q.Contents();
      assert c[..k] == [c[0]] + c[1..][..k - 1];
    }
  }

  /** A push that overwrites a different packet shows: the consumer can go on to pop something else than
      was pushed. No other push does that. */
  lemma LostPacketShows<T(!new)>(w: World<T>, producer: nat, packet: T)
    requires Sound(w) && Enabled(w, Push(producer, packet))
    ensures w.q.Clobbers(packet) <==> !DrainsHonestly(Next(w, Push(producer, packet)))
  {
    hide Ring.Contents, Sound;
    var t := Next(w, Push(producer, packet));
    StepSound(w, Push(producer, packet));
    if !w.q.Clobbers(packet) {
      SoundDrainsHonestly(t);
    } else {
      SoundParts(w);
      w.q.PushAppends(packet);
      var k := Overwritten(w.q, packet);
      var steps := Drain(t, k + 1);
      ShownAt(w.popped, w.q.Contents(), t.q.Contents(), k, packet);
      assert !Honest(Play(t, steps));
    }
  }

  lemma SoundParts<T>(w: World<T>)
    requires Sound(w)
    ensures w.q.WellFormed() && Awake(w) && w.popped + w.q.Contents() == w.pushed
  {
  }

  lemma Overwritten<T>(q: Ring<T>, packet: T) returns (k: nat)
    requires q.WellFormed() && q.Clobbers(packet)
    ensures q.Pushed(packet).WellFormed()
    ensures k < |q.Contents()| < |q.Pushed(packet).Contents()| == q.Pushed(packet).numElems
    ensures q.Pushed(packet).Contents()[k] == packet != q.Contents()[k]
  {
    q.PushAppends(packet);
    q.OldestInSlot();
    k := q.numElems % MAX_PACKETS;
  }

  lemma ShownAt<T>(popped: seq<T>, before: seq<T>, after: seq<T>, k: nat, packet: T)
    requires k < |before| && k < |after| && after[k] != before[k]
    ensures !(popped + after[..k + 1] <= popped + before + [packet])
  {
    assert (popped + after[..k + 1])[|popped| + k] == after[k];
    assert (popped + before + [packet])[|popped| + k] == before[k];
  }

  ghost predicate AlwaysDrainsHonestly<T(!new)>(w: World<T>, steps: seq<Step<T>>)
    decreases |steps|
  {
    DrainsHonestly(w) && (steps == [] || AlwaysDrainsHonestly(After(w, steps[0]), steps[1..]))
  }

  ghost predicate AlwaysAwake<T>(w: World<T>, steps: seq<Step<T>>)
    decreases |steps|
  {
    Awake(w) && (steps == [] || AlwaysAwake(After(w, steps[0]), steps[1..]))
  }

  /** So what the consumer gets, or can get at any moment of a run, is what was pushed, in order,
      exactly when no push in the run overwrites a different packet. */
  lemma {:induction false} HonestExactlyWhenAllHarmless<T(!new)>(w: World<T>, steps: seq<Step<T>>)
    requires Sound(w)
    ensures AlwaysDrainsHonestly(w, steps) <==> AllHarmless(w, steps)
    ensures AllHarmless(w, steps) ==> Sound(Play(w, steps)) && AlwaysAwake(w, steps)
    decreases |steps|
  {
    hide Sound, After, DrainsHonestly, Harmless, Awake;
    SoundDrainsHonestly(w);
    SoundParts(w);
    if steps != [] {
      StepSound(w, steps[0]);
      if Harmless(w, steps[0]) {
        HonestExactlyWhenAllHarmless(After(w, steps[0]), steps[1..]);
      } else {
        HarmShows(w, steps[0]);
      }
    }
  }

  lemma HarmShows<T(!new)>(w: World<T>, step: Step<T>)
    requires Sound(w) && !Harmless(w, step)
    ensures !DrainsHonestly(After(w, step))
  {
    LostPacketShows(w, step.producer, step.packet);
  }

  // ----- one sender, and two

  /** Only `producer` sends. */
  ghost predicate OnlyProducer<T>(steps: seq<Step<T>>, producer: nat) {
    forall i | 0 <= i < |steps| :: steps[i].Check? || steps[i].Push? ==> steps[i].producer == producer
  }

  ghost predicate RoomIsKept<T>(w: World<T>, producer: nat) {
    Sound(w) && w.q.numElems <= MAX_PACKETS && w.cleared <= {producer} && (producer in w.cleared ==> w.q.HasRoom())
  }

  lemma StepKeepsRoom<T>(w: World<T>, step: Step<T>, producer: nat)
    requires RoomIsKept(w, producer)
    requires step.Check? || step.Push? ==> step.producer == producer
    ensures Fits(w, step) && RoomIsKept(After(w, step), producer)
  {
    hide Ring.Contents;
    StepSound(w, step);
  }

  lemma {:induction false} RoomLasts<T>(w: World<T>, steps: seq<Step<T>>, producer: nat)
    requires RoomIsKept(w, producer) && OnlyProducer(steps, producer)
    ensures AllFit(w, steps) && AllHarmless(w, steps)
    decreases |steps|
  {
    hide RoomIsKept, Fits, After, Harmless;
    if steps != [] {
      StepKeepsRoom(w, steps[0], producer);
      FitsIsHarmless(w, steps[0]);
      RoomLasts(After(w, steps[0]), steps[1..], producer);
    }
  }

  lemma FitsIsHarmless<T>(w: World<T>, step: Step<T>)
    requires Fits(w, step)
    ensures Harmless(w, step)
  {
  }

  lemma FreshKeepsRoom<T>(w: World<T>, producer: nat)
    requires Fresh(w)
    ensures RoomIsKept(w, producer) && Sound(w)
  {
  }

  /** The sender looks for room and pushes in two separate critical sections. With a single producer
      that is enough: on every run from a fresh queue every push finds room, the consumer gets what was
      pushed, in order, and no wake-up is lost. */
  lemma OneProducerAlwaysFits<T(!new)>(w: World<T>, steps: seq<Step<T>>, producer: nat)
    requires Fresh(w) && OnlyProducer(steps, producer)
    ensures AllFit(w, steps) && AlwaysDrainsHonestly(w, steps) && AlwaysAwake(w, steps)
  {
    FreshKeepsRoom(w, producer);
    RoomLasts(w, steps, producer);
    HonestExactlyWhenAllHarmless(w, steps);
  }

  lemma {:induction false} PlayInTwoParts<T>(w: World<T>, first: seq<Step<T>>, second: seq<Step<T>>)
    ensures Play(w, first + second) == Play(Play(w, first), second)
    decreases |first|
  {
    hide After;
    if first == [] {
      assert first + second == second;
    } else {
      assert (first + second)[1..] == first[1..] + second;
      PlayInTwoParts(After(w, first[0]), first[1..], second);
    }
  }

  function Filling<T>(n: nat, packet: T): seq<Step<T>> {
    if n == 0 then [] else Filling(n - 1, packet) + [Check(0), Push(0, packet)]
  }

  /** The queue holds `n` packets, the first of them `packet`, and nobody is in the middle of anything. */
  ghost predicate Holds<T>(w: World<T>, n: nat, packet: T) {
    && Sound(w) && w.q.numElems == n && w.cleared == {} && w.consumer.Idle? && w.popped == []
    && (n > 0 ==> w.pushed != [] && w.pushed[0] == packet)
  }

  lemma OneMore<T>(w: World<T>, n: nat, packet: T)
    requires Holds(w, n, packet) && n < MAX_PACKETS
    ensures Holds(Play(w, [Check(0), Push(0, packet)]), n + 1, packet)
  {
    hide Ring.Contents, Fifo;
    var seen := After(w, Check(0));
    var t := After(seen, Push(0, packet));
    assert [Check(0), Push(0, packet)][1..] == [Push(0, packet)];
    assert Play(w, [Check(0), Push(0, packet)]) == Play(seen, [Push(0, packet)]);
    assert Play(seen, [Push(0, packet)]) == Play(t, []);
    StepSound(w, Check(0));
    FitsIsHarmless(seen, Push(0, packet));
    StepSound(seen, Push(0, packet));
    CountOf(w);
  }

  /** As many packets are queued as were pushed and not popped. */
  lemma CountOf<T>(w: World<T>)
    requires Sound(w)
    ensures w.q.WellFormed() && |w.popped| + w.q.numElems == |w.pushed|
  {
  }

  lemma {:induction false} FillingFills<T>(w: World<T>, n: nat, packet: T)
    requires Holds(w, 0, packet) && n <= MAX_PACKETS
    ensures Holds(Play(w, Filling(n, packet)), n, packet)
  {
    hide Holds, Play;
    if n > 0 {
      FillingFills(w, n - 1, packet);
      PlayInTwoParts(w, Filling(n - 1, packet), [Check(0), Push(0, packet)]);
      OneMore(Play(w, Filling(n - 1, packet)), n - 1, packet);
    } else {
      NothingToPlay(w);
    }
  }

  lemma NothingToPlay<T>(w: World<T>)
    ensures Play(w, []) == w
  {
  }

  function Race<T>(a: T, b: T): seq<Step<T>> {
    [Check(0), Check(1), Push(0, a), Push(1, b), WaitPop, Pop]
  }

  /** With two producers it is not enough: both see the last free slot, both push, and what the consumer
      pops first is what was pushed last. */
  lemma TwoProducersLoseAPacket<T>(w: World<T>, a: T, b: T)
    requires Fresh(w)
    ensures var t := Play(w, Filling(MAX_PACKETS - 1, a) + Race(a, b));
            t.popped == [b] && t.pushed != [] && t.pushed[0] == a && (Honest(t) <==> a == b)
  {
    hide Race, Play;
    FillingFills(w, MAX_PACKETS - 1, a);
    PlayInTwoParts(w, Filling(MAX_PACKETS - 1, a), Race(a, b));
    BothSeeTheLastSlot(Play(w, Filling(MAX_PACKETS - 1, a)), a, b);
  }

  lemma BothSeeTheLastSlot<T>(w: World<T>, a: T, b: T)
    requires Holds(w, MAX_PACKETS - 1, a)
    ensures var t := Play(w, Race(a, b)); t.popped == [b] && t.pushed != [] && t.pushed[0] == a
  {
    hide Ring.Contents;
    CountOf(w);
    var s: seq<Step<T>> := Race(a, b);
    var w1 := After(w, s[0]);
    var w2 := After(w1, s[1]);
    var w3 := After(w2, s[2]);
    var w4 := After(w3, s[3]);
    var w5 := After(w4, s[4]);
    var w6 := After(w5, s[5]);
    assert Play(w, s) == Play(w1, s[1..]);
    assert Play(w1, s[1..]) == Play(w2, s[2..]) by { assert s[1..][1..] == s[2..]; }
    assert Play(w2, s[2..]) == Play(w3, s[3..]) by { assert s[2..][1..] == s[3..]; }
    assert Play(w3, s[3..]) == Play(w4, s[4..]) by { assert s[3..][1..] == s[4..]; }
    assert Play(w4, s[4..]) == Play(w5, s[5..]) by { assert s[4..][1..] == s[5..]; }
    assert Play(w5, s[5..]) == Play(w6, []) by { assert s[5..][1..] == []; }
    assert w3.q.back == w.q.front;
    assert w4.q.arr[w4.q.front] == b;
  }
}
