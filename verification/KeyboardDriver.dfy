/** The driver side of drivers/keyboard/keyboard.c as an object over the shared queue memory. */
module KeyboardDriver {
  import opened Keyboard

  const DESC_F_WRITE := 2
  const EVENT_SIZE := 8

  /** A descriptor of the queue: a buffer the device may write. */
  datatype Desc = Desc(addr: nat, len: nat, flags: nat, next: nat)

  /** The descriptor of event buffer `id`, the buffers lying one after another from `base` on. */
  function EventDesc(base: nat, id: nat): Desc {
    Desc(base + id * EVENT_SIZE, EVENT_SIZE, DESC_F_WRITE, 0)
  }

  class VirtioKeyboard {
    const base: nat
    const desc: array<Desc>
    const availRing: array<nat>
    const usedRing: array<nat>
    const events: array<Event>
    var availIdx: nat
    var usedIdx: nat
    var lastUsed: nat
    var shift: bool
    /** How often the device was notified. */
    var notified: nat
    /** The device's own state, which the driver never reads. */
    ghost var seen: nat
    ghost var held: set<nat>

    ghost function View(): (s: State)
      reads this, availRing, usedRing, events
    {
      State(availRing[..], availIdx, usedRing[..], usedIdx, events[..], lastUsed, shift, seen, held)
    }

    ghost predicate Valid()
      reads this, availRing, usedRing, events
    {
      availRing != usedRing && desc.Length == QUEUE && Shaped(View())
    }

    /** Every descriptor leads to its event buffer. */
    ghost predicate Described()
      reads this, desc
    {
      forall i :: 0 <= i < desc.Length ==> desc[i] == EventDesc(base, i)
    }

    /** The queue set-up of virtio_keyboard_finish_modern: cleared memory, sixteen buffers offered. */
    constructor (base: nat)
      ensures Valid() && Described() && notified == QUEUE
      ensures fresh(availRing) && fresh(usedRing) && fresh(events) && fresh(desc)
      ensures View() == Offered(seq(QUEUE, i => Event(0, 0, 0)))
    {
      this.base := base;
      desc := new Desc[QUEUE](i => Desc(0, 0, 0, 0));
      availRing := new nat[QUEUE](i => 0);
      usedRing := new nat[QUEUE](i => 0);
      events := new Event[QUEUE](i => Event(0, 0, 0));
      availIdx, usedIdx, lastUsed, shift, notified := 0, 0, 0, false, 0;
      seen, held := 0, {};
      new;
      for i := 0 to QUEUE
        invariant Valid() && availIdx == i && usedIdx == 0 && lastUsed == 0 && !shift && seen == 0 && held == {}
        invariant usedRing[..] == seq(QUEUE, j => 0) && events[..] == seq(QUEUE, j => Event(0, 0, 0))
        invariant notified == i && forall j :: 0 <= j < i ==> availRing[j] == j && desc[j] == EventDesc(base, j)
        invariant fresh(availRing) && fresh(usedRing) && fresh(events) && fresh(desc)
      {
        Offer(i);
      }
      assert availRing[..] == seq(QUEUE, i => i);
    }

    /** virtio_keyboard_add_buffer. */
    method Offer(id: nat)
      requires Valid() && id < QUEUE
      modifies availRing, desc, `availIdx, `notified
      ensures Valid() && View() == AddBuffer(old(View()), id)
      ensures notified == old(notified) + 1
      ensures forall i :: 0 <= i < QUEUE ==> desc[i] == if i == id then EventDesc(base, id) else old(desc[i])
    {
      desc[id] := EventDesc(base, id);
      availRing[availIdx % QUEUE] := id;
      assert availRing[..] == old(availRing[..])[availIdx % QUEUE := id];
      availIdx := (availIdx + 1) % WRAP;
      notified := notified + 1;
    }

    /** One iteration of virtio_keyboard_read_char. */
    method PollOnce() returns (c: nat)
      requires Valid() && Described() && Pending(View())
      modifies availRing, desc, `availIdx, `lastUsed, `shift, `notified
      ensures Valid() && Described() && (View(), c) == Poll(old(View()))
    {
      var id := usedRing[lastUsed % QUEUE];
      lastUsed := (lastUsed + 1) % WRAP;
      if id >= QUEUE {
        return 0;
      }
      var e := events[id];
      Offer(id);
      if e.kind != EV_KEY {
        return 0;
      }
      if e.code == KEY_LEFTSHIFT || e.code == KEY_RIGHTSHIFT {
        shift := e.value != 0;
        return 0;
      }
      if e.value == 0 {
        return 0;
      }
      c := Ascii(e.code, shift);
    }

    /** virtio_keyboard_read_char while the device adds nothing; 0 when no character is there. */
    method ReadNext() returns (c: nat)
      requires Valid() && Described()
      modifies availRing, desc, `availIdx, `lastUsed, `shift, `notified
      ensures Valid() && Described() && (View(), c) == ReadChar(old(View()))
    {
      c := 0;
      while lastUsed != usedIdx
        invariant Valid() && Described() && c == 0 && ReadChar(View()) == ReadChar(old(View()))
        decreases Backlog(View())
      {
        ghost var before := View();
        c := PollOnce();
        ReadCharStep(before);
        if c != 0 {
          return;
        }
      }
    }
  }
}
