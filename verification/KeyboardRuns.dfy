/** The two-party protocol over whole runs: buffers are never lost or shared, and the characters the
    driver returns are the fold of the event stream, across index wrap-around. */
module KeyboardRuns {
  import opened Keyboard
  import opened KeyboardMeaning

  /** The ids the device has yet to take, and those it published that the driver has yet to read. */
  function Waiting(h: History): seq<nat>
    requires h.taken <= |h.offered|
  {
    h.offered[h.taken..]
  }

  function Unread(h: History): seq<nat>
    requires h.consumed <= |h.ids|
  {
    h.ids[h.consumed..]
  }

  predicate NoDuplicates(s: seq<nat>) {
    forall i, j :: 0 <= i < j < |s| ==> s[i] != s[j]
  }

  /** Counters agree with their 16-bit indices. */
  ghost predicate Indexed(s: State, h: History) {
    && h.taken <= |h.offered| && h.consumed <= |h.ids| == |h.stream|
    && s.availIdx == |h.offered| % WRAP && s.seen == h.taken % WRAP
    && s.usedIdx == |h.ids| % WRAP && s.lastUsed == h.consumed % WRAP
    && |h.offered| == QUEUE + h.consumed
    && (|h.offered| - h.taken) + |s.held| + (|h.ids| - h.consumed) == QUEUE
  }

  /** The rings and buffers hold the live parts of the history. */
  ghost predicate Stored(s: State, h: History)
    requires Shaped(s) && Indexed(s, h)
  {
    && (forall j :: h.taken <= j < |h.offered| ==> s.availRing[j % QUEUE] == h.offered[j])
    && (forall j :: h.consumed <= j < |h.ids| ==> s.usedRing[j % QUEUE] == h.ids[j])
    && (forall j :: h.consumed <= j < |h.ids| ==> h.ids[j] < QUEUE && s.events[h.ids[j]] == h.stream[j])
  }

  /** Every buffer is in exactly one of three places: waiting for the device, published but unread,
      or held by the device. */
  ghost predicate Parts(waiting: seq<nat>, unread: seq<nat>, held: set<nat>) {
    && NoDuplicates(waiting) && NoDuplicates(unread)
    && (forall id :: id in waiting || id in unread || id in held ==> id < QUEUE)
    && (forall id :: id in waiting ==> id !in unread && id !in held)
    && (forall id :: id in unread ==> id !in held)
    && (forall id :: 0 <= id < QUEUE ==> id in waiting || id in unread || id in held)
  }

  ghost predicate Partitioned(s: State, h: History)
    requires Indexed(s, h)
  {
    Parts(Waiting(h), Unread(h), s.held)
  }

  lemma {:induction false} SplitFirst(s: seq<nat>, x: nat)
    requires s != []
    ensures x in s <==> x == s[0] || x in s[1..]
  {
    assert s == [s[0]] + s[1..];
  }

  lemma {:induction false} TakePart(waiting: seq<nat>, unread: seq<nat>, held: set<nat>)
    requires Parts(waiting, unread, held) && waiting != []
    ensures Parts(waiting[1..], unread, held + {waiting[0]})
  {
    forall x
      ensures x in waiting <==> x == waiting[0] || x in waiting[1..]
    {
      SplitFirst(waiting, x);
    }
  }

  lemma {:induction false} PublishPart(waiting: seq<nat>, unread: seq<nat>, held: set<nat>, id: nat)
    requires Parts(waiting, unread, held) && id in held
    ensures Parts(waiting, unread + [id], held - {id})
  {
    assert forall x :: x in unread + [id] <==> x == id || x in unread;
  }

  lemma {:induction false} ReofferPart(waiting: seq<nat>, unread: seq<nat>, held: set<nat>)
    requires Parts(waiting, unread, held) && unread != []
    ensures Parts(waiting + [unread[0]], unread[1..], held)
  {
    assert unread[0] in unread && unread[0] !in waiting;
    forall x
      ensures x in unread <==> x == unread[0] || x in unread[1..]
    {
      SplitFirst(unread, x);
    }
    assert forall x :: x in waiting + [unread[0]] <==> x == unread[0] || x in waiting;
  }

  /** What was typed so far is the fold of what was consumed so far. */
  ghost predicate Faithful(s: State, h: History) {
    && h.consumed <= |h.stream|
    && s.shift == FoldShift(h.stream[..h.consumed])
    && h.output == FoldTyped(h.stream[..h.consumed])
  }

  ghost predicate Inv(s: State, h: History) {
    Shaped(s) && Indexed(s, h) && Stored(s, h) && Partitioned(s, h) && Faithful(s, h)
  }

  function FreshHistory(): History {
    History(seq(QUEUE, i => i), 0, [], [], 0, [])
  }

  lemma {:induction false} InitialInv(events: seq<Event>)
    requires |events| == QUEUE
    ensures Inv(Offered(events), FreshHistory())
  {
    var s, h := Offered(events), FreshHistory();
    assert Waiting(h) == h.offered;
    forall id | 0 <= id < QUEUE
      ensures id in Waiting(h)
    {
      assert h.offered[id] == id;
    }
  }

  /** The 16-bit comparisons decide what the unbounded counters would. */
  lemma {:induction false} ComparisonsExact(s: State, h: History)
    requires Shaped(s) && Indexed(s, h)
    ensures Pending(s) <==> h.consumed < |h.ids|
    ensures s.seen != s.availIdx <==> h.taken < |h.offered|
    ensures (s.availIdx - s.lastUsed) % WRAP == QUEUE
  {
    WrapApart(h.consumed, |h.ids|);
    WrapApart(h.taken, |h.offered|);
    QueueApart(h.consumed);
  }

  lemma {:induction false} QueueApart(c: nat)
    ensures ((QUEUE + c) % WRAP - c % WRAP) % WRAP == QUEUE
  {
    var r := c % WRAP;
    if r + QUEUE < WRAP {
      assert (QUEUE + c) % WRAP == r + QUEUE;
    } else {
      assert (QUEUE + c) % WRAP == r + QUEUE - WRAP;
    }
  }

  lemma {:induction false} WrapApart(a: nat, b: nat)
    requires a <= b <= a + QUEUE
    ensures a % WRAP == b % WRAP <==> a == b
  {
  }

  /** Ring cells of different live positions are different. */
  lemma {:induction false} CellsApart(j: nat, n: nat)
    requires j < n < j + QUEUE
    ensures j % QUEUE != n % QUEUE
  {
  }

  /** A 16-bit index selects the same ring cell as the unbounded counter. */
  lemma {:induction false} CellOf(n: nat)
    ensures n % WRAP % QUEUE == n % QUEUE && (n % WRAP + 1) % WRAP == (n + 1) % WRAP
  {
    var q, r := n / WRAP, n % WRAP;
    assert n == QUEUE * (WRAP / QUEUE * q) + r;
    SameCell(WRAP / QUEUE * q, r);
    NextCell(q, r);
  }

  lemma {:induction false} SameCell(k: nat, r: nat)
    ensures (QUEUE * k + r) % QUEUE == r % QUEUE
  {
  }

  lemma {:induction false} NextCell(q: nat, r: nat)
    requires r < WRAP
    ensures (WRAP * q + r + 1) % WRAP == (r + 1) % WRAP
  {
  }

  lemma {:induction false} HeldIsNatural(s: State, h: History, id: nat)
    requires Inv(s, h) && id in s.held
    ensures id < QUEUE && id !in Waiting(h) && id !in Unread(h) && |h.ids| - h.consumed < QUEUE
  {
    assert |s.held| >= 1 by { assert {id} <= s.held; SubsetSize({id}, s.held); }
  }

  lemma {:induction false} SubsetSize(a: set<nat>, b: set<nat>)
    requires a <= b
    ensures |a| <= |b|
  {
    assert b == a + (b - a);
  }

  lemma {:induction false} TakeKeeps(s: State, h: History)
    requires Inv(s, h) && Enabled(s, Take)
    ensures Inv(Apply(s, Take), Record(s, h, Take))
  {
    var s', h' := Apply(s, Take), Record(s, h, Take);
    ComparisonsExact(s, h);
    CellOf(h.taken);
    var id := h.offered[h.taken];
    assert s.availRing[s.seen % QUEUE] == id;
    assert Waiting(h)[0] == id && Waiting(h') == Waiting(h)[1..];
    TakePart(Waiting(h), Unread(h), s.held);
  }

  lemma {:induction false} FillKeeps(s: State, h: History, id: nat, e: Event)
    requires Inv(s, h) && Enabled(s, Fill(id, e))
    ensures Inv(Apply(s, Fill(id, e)), h)
  {
    forall j | h.consumed <= j < |h.ids|
      ensures h.ids[j] != id
    {
      assert Unread(h)[j - h.consumed] == h.ids[j];
    }
  }

  lemma {:induction false} PublishStores(s: State, h: History, id: nat)
    requires Inv(s, h) && Enabled(s, Publish(id)) && id < QUEUE
    ensures Indexed(Apply(s, Publish(id)), Record(s, h, Publish(id)))
    ensures Stored(Apply(s, Publish(id)), Record(s, h, Publish(id)))
  {
    HeldIsNatural(s, h, id);
    CellOf(|h.ids|);
    forall j | h.consumed <= j < |h.ids|
      ensures j % QUEUE != |h.ids| % QUEUE
    {
      CellsApart(j, |h.ids|);
    }
  }

  lemma {:induction false} PublishKeeps(s: State, h: History, id: nat)
    requires Inv(s, h) && Enabled(s, Publish(id)) && id < QUEUE
    ensures Inv(Apply(s, Publish(id)), Record(s, h, Publish(id)))
  {
    var h' := Record(s, h, Publish(id));
    PublishStores(s, h, id);
    assert Unread(h') == Unread(h) + [id];
    PublishPart(Waiting(h), Unread(h), s.held, id);
    assert h'.stream[..h'.consumed] == h.stream[..h.consumed];
  }

  /** The driver reads the oldest published id and its event, and offers that id again. */
  lemma {:induction false} DriveReads(s: State, h: History)
    requires Inv(s, h) && Enabled(s, Drive)
    ensures h.consumed < |h.ids| && |h.offered| - h.taken < QUEUE
    ensures var s', h', id := Apply(s, Drive), Record(s, h, Drive), h.ids[h.consumed];
      && id < QUEUE && s.usedRing[s.lastUsed % QUEUE] == id && s.events[id] == h.stream[h.consumed]
      && h'.offered == h.offered + [id] && h'.consumed == h.consumed + 1 && h'.ids == h.ids &&
        h'.stream == h.stream && h'.taken == h.taken
      && s'.availRing == s.availRing[|h.offered| % QUEUE := id]
      && s'.usedRing == s.usedRing && s'.events == s.events && s'.held == s.held
      && Indexed(s', h')
  {
    ComparisonsExact(s, h);
    CellOf(h.consumed);
    CellOf(|h.offered|);
  }

  lemma {:induction false} DriveMoves(s: State, h: History)
    requires Inv(s, h) && Enabled(s, Drive)
    ensures Indexed(Apply(s, Drive), Record(s, h, Drive)) && Partitioned(Apply(s, Drive), Record(s, h, Drive))
  {
    DriveReads(s, h);
    var h', id := Record(s, h, Drive), h.ids[h.consumed];
    assert Unread(h)[0] == id && Unread(h') == Unread(h)[1..];
    assert Waiting(h') == Waiting(h) + [id];
    ReofferPart(Waiting(h), Unread(h), s.held);
  }

  lemma {:induction false} DriveKeeps(s: State, h: History)
    requires Inv(s, h) && Enabled(s, Drive)
    ensures Inv(Apply(s, Drive), Record(s, h, Drive))
  {
    DriveReads(s, h);
    forall j | h.taken <= j < |h.offered|
      ensures j % QUEUE != |h.offered| % QUEUE
    {
      CellsApart(j, |h.offered|);
    }
    DriveMoves(s, h);
    DriveFaithful(s, h);
  }

  lemma {:induction false} DriveFaithful(s: State, h: History)
    requires Inv(s, h) && Enabled(s, Drive)
    ensures Faithful(Apply(s, Drive), Record(s, h, Drive))
  {
    ComparisonsExact(s, h);
    CellOf(h.consumed);
    var es := h.stream[..h.consumed + 1];
    assert es[..|es| - 1] == h.stream[..h.consumed];
  }

  /** Every step of either party keeps the invariant. */
  lemma {:induction false} StepKeeps(s: State, h: History, step: Step)
    requires Inv(s, h) && Enabled(s, step)
    ensures step.Publish? ==> step.id < QUEUE
    ensures Inv(Apply(s, step), Record(s, h, step))
  {
    match step
    case Take => TakeKeeps(s, h);
    case Fill(id, e) => FillKeeps(s, h, id, e);
    case Publish(id) => PublishKeeps(s, h, id);
    case Drive => DriveKeeps(s, h);
  }

  /** The state and history after a run in which every step was enabled. */
  ghost predicate Reaches(s: State, h: History, steps: seq<Step>, s': State, h': History)
    requires Inv(s, h)
    decreases |steps|
  {
    if steps == [] then s' == s && h' == h
    else
      Enabled(s, steps[0]) && (StepKeeps(s, h, steps[0]);
      Reaches(Apply(s, steps[0]), Record(s, h, steps[0]), steps[1..], s', h'))
  }

  lemma {:induction false} RunKeeps(s: State, h: History, steps: seq<Step>, s': State, h': History)
    requires Inv(s, h) && Reaches(s, h, steps, s', h')
    ensures Inv(s', h')
    decreases |steps|
  {
    if steps != [] {
      StepKeeps(s, h, steps[0]);
      RunKeeps(Apply(s, steps[0]), Record(s, h, steps[0]), steps[1..], s', h');
    }
  }

  /** Main result, for every interleaving of driver and device from set-up on: the indices stay 16
      apart, each buffer is in exactly one place, and the driver has returned exactly the characters
      of the events it consumed, in order, none lost or repeated. */
  lemma {:induction false} ProtocolSafe(events: seq<Event>, steps: seq<Step>, s: State, h: History, id: nat)
    requires |events| == QUEUE && id < QUEUE
    requires Inv(Offered(events), FreshHistory()) && Reaches(Offered(events), FreshHistory(), steps, s, h)
    ensures Inv(s, h)
    ensures (s.availIdx - s.lastUsed) % WRAP == QUEUE
    ensures (if id in Waiting(h) then 1 else 0) + (if id in s.held then 1 else 0) +
      (if id in Unread(h) then 1 else 0) == 1
    ensures h.output == FoldTyped(h.stream[..h.consumed]) && s.shift == FoldShift(h.stream[..h.consumed])
    ensures s.shift <==> exists i :: LastShift(h.stream[..h.consumed], i) && h.stream[i].value != 0
    ensures !Pending(s) ==> h.output == FoldTyped(h.stream)
  {
    RunKeeps(Offered(events), FreshHistory(), steps, s, h);
    ShiftIff(h.stream[..h.consumed]);
    ComparisonsExact(s, h);
    if !Pending(s) {
      assert h.stream[..h.consumed] == h.stream;
    }
  }

  lemma {:induction false} DriveRecords(s: State, h: History)
    requires Shaped(s) && Pending(s)
    ensures var h' := Record(s, h, Drive);
      h'.stream == h.stream && h'.consumed == h.consumed + 1 && h'.output == h.output + if Poll(s).1 == 0 then []
        else [Poll(s).1]
  {
  }

  lemma {:induction false} NothingUnread(s: State, h: History)
    requires Inv(s, h) && !Pending(s)
    ensures h.output == FoldTyped(h.stream)
  {
    ComparisonsExact(s, h);
    assert h.stream[..h.consumed] == h.stream;
  }

  /** No step takes anything back, and only the driver adds to the output. */
  lemma {:induction false} StepRecords(s: State, h: History, step: Step)
    requires Inv(s, h) && Enabled(s, step) && (step.Publish? ==> step.id < QUEUE)
    ensures var h' := Record(s, h, step);
      && h.stream <= h'.stream && h.consumed <= h'.consumed
      && h'.output == h.output + if step.Drive? && Poll(s).1 != 0 then [Poll(s).1] else []
  {
    if step.Drive? { DriveRecords(s, h); }
  }

  /** A call of virtio_keyboard_read_char while the device goes on working: any device steps may come
      between the turns of its loop. It ends with the first turn that finds a character, or with 0
      at a moment when nothing is pending. */
  ghost predicate Calls(s: State, h: History, steps: seq<Step>, s': State, h': History, c: nat)
    requires Inv(s, h)
    decreases |steps|
  {
    if steps == [] then s' == s && h' == h && c == 0 && !Pending(s)
    else
      Enabled(s, steps[0]) && (StepKeeps(s, h, steps[0]);
      var s1, h1 := Apply(s, steps[0]), Record(s, h, steps[0]);
      if steps[0].Drive? && Poll(s).1 != 0 then steps[1..] == [] && s' == s1 && h' == h1 && c == Poll(s).1
      else Calls(s1, h1, steps[1..], s', h', c))
  }

  /** What a call that returns c makes of the history. */
  ghost predicate Returned(h: History, h': History, c: nat) {
    && h.stream <= h'.stream && h.consumed <= h'.consumed
    && h'.output == h.output + if c == 0 then [] else [c]
  }

  lemma {:induction false} CallProceeds(s: State, h: History, steps: seq<Step>, s': State, h': History, c: nat)
    requires Inv(s, h) && Calls(s, h, steps, s', h', c)
    ensures Inv(s', h') && Returned(h, h', c) && (c == 0 ==> !Pending(s'))
    decreases |steps|
  {
    if steps != [] {
      StepKeeps(s, h, steps[0]);
      var s1, h1 := Apply(s, steps[0]), Record(s, h, steps[0]);
      StepRecords(s, h, steps[0]);
      if !(steps[0].Drive? && Poll(s).1 != 0) {
        CallProceeds(s1, h1, steps[1..], s', h', c);
      }
    }
  }

  /** Whatever the device does during the call: it returns the next character of the published stream
      and consumes no further, or 0 after consuming everything published by then. */
  lemma {:induction false} CallReturnsNext(s: State, h: History, steps: seq<Step>, s': State, h': History, c: nat)
    requires Inv(s, h) && Calls(s, h, steps, s', h', c)
    ensures Inv(s', h') && h.stream <= h'.stream && h.consumed <= h'.consumed
    ensures h'.output == h.output + if c == 0 then [] else [c]
    ensures h'.output == FoldTyped(h'.stream[..h'.consumed]) && (c == 0 ==> h'.output == FoldTyped(h'.stream))
  {
    CallProceeds(s, h, steps, s', h', c);
    if c == 0 { NothingUnread(s', h'); }
  }

  /** The same with the device quiet, where the call is a function of the state. */
  lemma {:induction false} ReadCharReturnsNext(s: State, h: History) returns (h': History)
    requires Inv(s, h)
    ensures Inv(ReadChar(s).0, h') && h'.stream == h.stream && h.consumed <= h'.consumed
    ensures h'.output == h.output + if ReadChar(s).1 == 0 then [] else [ReadChar(s).1]
    ensures ReadChar(s).1 == 0 ==> !Pending(ReadChar(s).0)
    decreases Backlog(s)
  {
    if !Pending(s) {
      h' := h;
    } else {
      ReadCharStep(s);
      DriveKeeps(s, h);
      DriveRecords(s, h);
      h' := Record(s, h, Drive);
      if Poll(s).1 == 0 {
        h' := ReadCharReturnsNext(Poll(s).0, h');
      }
    }
  }
}
