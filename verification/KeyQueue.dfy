/**
 The key queue of the console-in splitter.  One read of the virtual keyboard either takes a saved key, or asks every
 physical keyboard once, saves what they deliver under one combined key state, and takes the first.
 */
module KeyQueue {
  import opened Common
  import opened Keystrokes

  /** What ReadKeyStrokeEx of one physical keyboard returns; without a key there is still a key state. */
  datatype Poll = Key(data: KeyData) | NotReady(data: KeyData) | DeviceError

  datatype Reply = Delivered(key: KeyData) | NoKey(data: KeyData)

  const NO_STATE := KeyState({}, {})

  // ---------- One poll of all keyboards ----------

  /** Flags count only when their valid bit is set. */
  function ValidPart(s: KeyState): KeyState {
    KeyState(if SHIFT_STATE_VALID in s.shift then s.shift else {},
             if TOGGLE_STATE_VALID in s.toggle then s.toggle else {})
  }

  function Merge(a: KeyState, b: KeyState): KeyState {
    KeyState(a.shift + b.shift, a.toggle + b.toggle)
  }

  /** The key states of the first `n` keyboards that answered, or-ed together where valid. */
  function CombinedOf(polls: seq<Poll>, n: nat): KeyState
    requires n <= |polls|
  {
    if n == 0 then NO_STATE
    else if polls[n - 1].DeviceError? then CombinedOf(polls, n - 1)
    else Merge(CombinedOf(polls, n - 1), ValidPart(polls[n - 1].data.state))
  }

  function Combined(polls: seq<Poll>): KeyState {
    CombinedOf(polls, |polls|)
  }

  /** A key counts when it is more than a change of key state, or when such changes have been asked for. */
  predicate Accepts(p: Poll, exported: bool) {
    p.Key? && (exported || p.data.scanCode != 0 || p.data.unicodeChar != 0)
  }

  /** The keys accepted from the first `n` keyboards. */
  function AcceptedOf(polls: seq<Poll>, exported: bool, n: nat): (keys: seq<KeyData>)
    requires n <= |polls|
    ensures |keys| <= n
  {
    if n == 0 then []
    else AcceptedOf(polls, exported, n - 1) + if Accepts(polls[n - 1], exported) then [polls[n - 1].data] else []
  }

  function Stamped(keys: seq<KeyData>, state: KeyState): (s: seq<KeyData>)
    ensures |s| == |keys| && forall i :: 0 <= i < |s| ==> s[i] == keys[i].(state := state)
  {
    seq(|keys|, i requires 0 <= i < |keys| => keys[i].(state := state))
  }

  /** What one poll adds to the queue. */
  function Batch(polls: seq<Poll>, exported: bool): seq<KeyData> {
    Stamped(AcceptedOf(polls, exported, |polls|), Combined(polls))
  }

  /** One of the first `n` keyboards answered with this shift bit, its shift state marked valid. */
  ghost predicate ShiftFrom(polls: seq<Poll>, n: nat, bit: nat)
    requires n <= |polls|
  {
    exists i :: 0 <= i < n && !polls[i].DeviceError? && {31, bit} <= polls[i].data.state.shift
  }

  ghost predicate ToggleFrom(polls: seq<Poll>, n: nat, bit: nat)
    requires n <= |polls|
  {
    exists i :: 0 <= i < n && !polls[i].DeviceError? && {7, bit} <= polls[i].data.state.toggle
  }

  /** The combined state has exactly the valid bits of the keyboards that answered. */
  lemma {:induction false} CombinedExactly(polls: seq<Poll>, n: nat, bit: nat)
    requires n <= |polls|
    ensures bit in CombinedOf(polls, n).shift <==> ShiftFrom(polls, n, bit)
    ensures bit in CombinedOf(polls, n).toggle <==> ToggleFrom(polls, n, bit)
  {
    if n == 0 {
    } else {
      var p := polls[n - 1];
      CombinedExactly(polls, n - 1, bit);
      assert ShiftFrom(polls, n, bit) <==>
        ShiftFrom(polls, n - 1, bit) || (!p.DeviceError? && {31, bit} <= p.data.state.shift);
      assert ToggleFrom(polls, n, bit) <==>
        ToggleFrom(polls, n - 1, bit) || (!p.DeviceError? && {7, bit} <= p.data.state.toggle);
    }
  }

  /** The keyboard delivered a key, a mere change of key state counting only when such changes have been asked for. */
  ghost predicate Counts(p: Poll, exported: bool) {
    p.Key? && (exported || p.data.scanCode != 0 || p.data.unicodeChar != 0)
  }

  /** The places of the first `n` keyboards whose key counts. */
  ghost function PlacesOf(polls: seq<Poll>, exported: bool, n: nat): (places: seq<nat>)
    requires n <= |polls|
  {
    if n == 0 then []
    else PlacesOf(polls, exported, n - 1) + if Counts(polls[n - 1], exported) then [n - 1] else []
  }

  lemma {:induction false} SameLength(polls: seq<Poll>, exported: bool, n: nat)
    requires n <= |polls|
    ensures |PlacesOf(polls, exported, n)| == |AcceptedOf(polls, exported, n)|
  {
    if n > 0 {
      SameLength(polls, exported, n - 1);
    }
  }

  /** Accepted key `k` comes from place `k`. */
  lemma {:induction false} PlaceHolds(polls: seq<Poll>, exported: bool, n: nat, k: nat)
    requires n <= |polls| && k < |PlacesOf(polls, exported, n)|
    ensures |PlacesOf(polls, exported, n)| == |AcceptedOf(polls, exported, n)|
    ensures var p := PlacesOf(polls, exported, n)[k];
            p < n && Counts(polls[p], exported) && AcceptedOf(polls, exported, n)[k] == polls[p].data
  {
    SameLength(polls, exported, n - 1);
    if k < |PlacesOf(polls, exported, n - 1)| {
      PlaceHolds(polls, exported, n - 1, k);
    }
  }

  lemma {:induction false} PlacesIncrease(polls: seq<Poll>, exported: bool, n: nat, j: nat, k: nat)
    requires n <= |polls| && j < k < |PlacesOf(polls, exported, n)|
    ensures PlacesOf(polls, exported, n)[j] < PlacesOf(polls, exported, n)[k]
  {
    if k < |PlacesOf(polls, exported, n - 1)| {
      PlacesIncrease(polls, exported, n - 1, j, k);
    } else {
      PlaceHolds(polls, exported, n - 1, j);
    }
  }

  lemma {:induction false} PlaceFound(polls: seq<Poll>, exported: bool, n: nat, i: nat)
    requires i < n <= |polls| && Counts(polls[i], exported)
    ensures i in PlacesOf(polls, exported, n)
  {
    if i < n - 1 {
      PlaceFound(polls, exported, n - 1, i);
    }
  }

  /**
   `keys` are, in device order and each under `state`, the keys of exactly those keyboards that delivered one that
   counts.
   */
  ghost predicate Picks(places: seq<nat>, polls: seq<Poll>, exported: bool, state: KeyState, keys: seq<KeyData>) {
    && |places| == |keys|
    && (forall j, k :: 0 <= j < k < |places| ==> places[j] < places[k])
    && (forall k :: 0 <= k < |places| ==>
         places[k] < |polls| && !polls[places[k]].DeviceError? && keys[k] == polls[places[k]].data.(state := state))
    && forall i :: 0 <= i < |polls| ==>
         (i in places <==>
          polls[i].Key? && (exported || polls[i].data.scanCode != 0 || polls[i].data.unicodeChar != 0))
  }

  /** What one poll queues, key by key. */
  lemma BatchPicks(polls: seq<Poll>, exported: bool)
    ensures exists places :: Picks(places, polls, exported, Combined(polls), Batch(polls, exported))
  {
    var n, places := |polls|, PlacesOf(polls, exported, |polls|);
    SameLength(polls, exported, n);
    forall k | 0 <= k < |places|
      ensures places[k] < n && Counts(polls[places[k]], exported) && AcceptedOf(polls, exported, n)[k] == polls[places[k]].data
    {
      PlaceHolds(polls, exported, n, k);
    }
    forall j, k | 0 <= j < k < |places| ensures places[j] < places[k] {
      PlacesIncrease(polls, exported, n, j, k);
    }
    forall i | 0 <= i < n && Counts(polls[i], exported) ensures i in places {
      PlaceFound(polls, exported, n, i);
    }
    assert Picks(places, polls, exported, Combined(polls), Batch(polls, exported));
  }

  // ---------- Whole runs of reads ----------

  /** One call of ReadKeyStrokeEx: what the keyboards would answer, and whether state changes count as keys. */
  datatype Read = Read(polls: seq<Poll>, exported: bool)

  function QueueBefore(queue: seq<KeyData>, r: Read): seq<KeyData> {
    if queue == [] then Batch(r.polls, r.exported) else queue
  }

  function QueueAfter(queue: seq<KeyData>, r: Read): seq<KeyData> {
    var q := QueueBefore(queue, r);
    if q == [] then [] else q[1..]
  }

  function ReplyOf(queue: seq<KeyData>, r: Read): Reply {
    var q := QueueBefore(queue, r);
    if q == [] then NoKey(KeyData(0, 0, Combined(r.polls))) else Delivered(q[0])
  }

  function FinalQueue(queue: seq<KeyData>, calls: seq<Read>): seq<KeyData>
    decreases |calls|
  {
    if calls == [] then queue else FinalQueue(QueueAfter(queue, calls[0]), calls[1..])
  }

  function AllDelivered(queue: seq<KeyData>, calls: seq<Read>): seq<KeyData>
    decreases |calls|
  {
    if calls == [] then [] else
      (match ReplyOf(queue, calls[0]) case Delivered(k) => [k] case NoKey(_) => [])
      + AllDelivered(QueueAfter(queue, calls[0]), calls[1..])
  }

  /** The keys accepted by the polls that took place: only a read that finds the queue empty polls. */
  function AllAccepted(queue: seq<KeyData>, calls: seq<Read>): seq<KeyData>
    decreases |calls|
  {
    if calls == [] then [] else
      (if queue == [] then Batch(calls[0].polls, calls[0].exported) else [])
      + AllAccepted(QueueAfter(queue, calls[0]), calls[1..])
  }

  lemma Regroup<T>(h: seq<T>, d: seq<T>, f: seq<T>, q: seq<T>, acc: seq<T>)
    requires d + f == q + acc
    ensures (h + d) + f == (h + q) + acc
  {
    assert (h + d) + f == h + (d + f);
    assert (h + q) + acc == h + (q + acc);
  }

  /** No key is lost, repeated or reordered by any run of reads. */
  lemma {:induction false} KeysConserved(queue: seq<KeyData>, calls: seq<Read>)
    ensures AllDelivered(queue, calls) + FinalQueue(queue, calls) == queue + AllAccepted(queue, calls)
    decreases |calls|
  {
    if calls == [] {
    } else {
      var q, after := QueueBefore(queue, calls[0]), QueueAfter(queue, calls[0]);
      var d, f, acc := AllDelivered(after, calls[1..]), FinalQueue(after, calls[1..]), AllAccepted(after, calls[1..]);
      KeysConserved(after, calls[1..]);
      var h := if q == [] then [] else [q[0]];
      Regroup(h, d, f, after, acc);
      assert h + after == q;
      assert AllDelivered(queue, calls) == h + d;
      if queue == [] {
        assert AllAccepted(queue, calls) == q + acc;
        assert queue + (q + acc) == q + acc;
      } else {
        assert AllAccepted(queue, calls) == acc;
      }
    }
  }

  // ---------- The splitter ----------

  class Splitter {
    var consoles: nat                 // CurrentNumberOfExConsoles
    var listCount: nat                // TextInExListCount
    var keyQueue: array<KeyData>
    var numberOfKeys: nat
    var exported: bool                // VirtualKeyStateExported

    ghost predicate Valid()
      reads this
    {
      consoles <= listCount <= keyQueue.Length && numberOfKeys <= listCount
    }

    ghost function Queue(): seq<KeyData>
      reads this, keyQueue
      requires numberOfKeys <= keyQueue.Length
    {
      keyQueue[..numberOfKeys]
    }

    constructor ()
      ensures Valid() && Queue() == [] && consoles == 0 && fresh(keyQueue)
    {
      keyQueue := new KeyData[ALLOC_UNIT];
      consoles, listCount, numberOfKeys, exported := 0, ALLOC_UNIT, 0, false;
    }

    /** Takes the first saved key. */
    method Dequeue() returns (r: Option<KeyData>)
      requires Valid()
      modifies this`numberOfKeys, keyQueue
      ensures Valid()
      ensures if old(Queue()) == [] then r == None && Queue() == []
              else r == Some(old(Queue())[0]) && Queue() == old(Queue())[1..]
    {
      if numberOfKeys == 0 {
        return None;
      }
      r := Some(keyQueue[0]);
      numberOfKeys := numberOfKeys - 1;
      ghost var was := keyQueue[..];
      forall i | 0 <= i < numberOfKeys {
        keyQueue[i] := keyQueue[i + 1];
      }
      assert forall i :: 0 <= i < numberOfKeys ==> keyQueue[i] == was[i + 1];
    }

    /** Asks every keyboard once; saves the keys they deliver under one combined state. */
    method PollKeyboards(polls: seq<Poll>) returns (state: KeyState)
      requires Valid() && numberOfKeys == 0 && |polls| == consoles
      modifies this`numberOfKeys, keyQueue
      ensures Valid() && state == Combined(polls) && Queue() == Batch(polls, exported)
      ensures exists places :: Picks(places, polls, exported, state, Queue())
    {
      state := CollectKeys(polls);
      ghost var keys := Queue();
      forall i | 0 <= i < numberOfKeys {
        keyQueue[i] := keyQueue[i].(state := state);
      }
      assert Queue() == Stamped(keys, state);
      BatchPicks(polls, exported);
    }

    /** Queues the keys as the keyboards deliver them. */
    method CollectKeys(polls: seq<Poll>) returns (state: KeyState)
      requires Valid() && numberOfKeys == 0 && |polls| == consoles
      modifies this`numberOfKeys, keyQueue
      ensures Valid() && state == Combined(polls) && Queue() == AcceptedOf(polls, exported, |polls|)
    {
      state := NO_STATE;
      var index: nat := 0;
      while index < consoles
        invariant index <= consoles && numberOfKeys <= index
        invariant state == CombinedOf(polls, index)
        invariant keyQueue[..numberOfKeys] == AcceptedOf(polls, exported, index)
      {
        if !polls[index].DeviceError? {
          state := Merge(state, ValidPart(polls[index].data.state));
          if Accepts(polls[index], exported) {
            keyQueue[numberOfKeys] := polls[index].data;
            numberOfKeys := numberOfKeys + 1;
          }
        }
        index := index + 1;
      }
    }

    /** One read of the virtual keyboard; `polls` is what the physical ones answer if they are asked. */
    method ReadKeyStrokeEx(polls: seq<Poll>) returns (reply: Reply)
      requires Valid() && |polls| == consoles
      modifies this`numberOfKeys, keyQueue
      ensures Valid()
      ensures reply == ReplyOf(old(Queue()), Read(polls, exported))
      ensures Queue() == QueueAfter(old(Queue()), Read(polls, exported))
      ensures old(Queue()) != [] ==> reply == Delivered(old(Queue())[0]) && Queue() == old(Queue())[1..]
      ensures (old(Queue()) == [] ==>
                if reply.Delivered? then exists places :: Picks(places, polls, exported, Combined(polls), [reply.key] + Queue())
                else
                  && reply == NoKey(KeyData(0, 0, Combined(polls))) && Queue() == []
                  && exists places :: Picks(places, polls, exported, Combined(polls), []))
    {
      BatchPicks(polls, exported);
      ghost var batch := Batch(polls, exported);
      assert batch != [] ==> [batch[0]] + batch[1..] == batch;
      var key := Dequeue();
      if key.Some? {
        return Delivered(key.value);
      }
      var state := PollKeyboards(polls);
      key := Dequeue();
      reply := if key.Some? then Delivered(key.value) else NoKey(KeyData(0, 0, state));
    }

    /** Makes room for one more keyboard; each reallocation may fail. */
    method AddExDevice(queueGrows: bool, listGrows: bool) returns (ok: bool)
      requires Valid()
      modifies this`consoles, this`listCount, this`keyQueue
      ensures Valid() && Queue() == old(Queue()) && (keyQueue == old(keyQueue) || fresh(keyQueue))
      ensures consoles == if ok then old(consoles) + 1 else old(consoles)
      ensures ok <==> old(consoles < listCount) || (queueGrows && listGrows)
      ensures keyQueue.Length == old(keyQueue.Length) || (old(consoles == listCount) && queueGrows)
    {
      if consoles >= listCount {
        if !queueGrows {
          return false;
        }
        var grown := new KeyData[listCount + ALLOC_UNIT];
        forall i | 0 <= i < listCount {
          grown[i] := keyQueue[i];
        }
        keyQueue := grown;
        if !listGrows {
          return false;
        }
        listCount := listCount + ALLOC_UNIT;
      }
      consoles := consoles + 1;
      ok := true;
    }

    method DeleteExDevice()
      requires Valid() && 0 < consoles
      modifies this`consoles
      ensures Valid() && Queue() == old(Queue()) && consoles == old(consoles) - 1
    {
      consoles := consoles - 1;
    }
  }
}
