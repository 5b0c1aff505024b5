/** The virtio keyboard of drivers/keyboard/keyboard.c: driver and device share a split virtqueue
    (section 2.6 of VIRTIO 1.1) whose indices wrap at 16 bits. */
module Keyboard {
  const QUEUE := 16
  const WRAP := 65536

  const EV_KEY := 1
  const KEY_BACKSPACE := 14
  const KEY_TAB := 15
  const KEY_ENTER := 28
  const KEY_LEFTSHIFT := 42
  const KEY_RIGHTSHIFT := 54
  const KEY_SPACE := 57

  /** The tables of keycode_to_ascii end at keycode 53. */
  const TABLE_SIZE := 54

  /** They are the rows of the keyboard, one after another: from keycode 0, 14, 28 and 42 on. */
  function TableEntry(code: nat, shift: bool): char
    requires code < TABLE_SIZE
  {
    if code < 14 then (if shift then "\0\0!@#$%^&*()_+" else "\0\01234567890-=")[code]
    else if code < 28 then (if shift then "\0\0QWERTYUIOP{}" else "\0\0qwertyuiop[]")[code - 14]
    else if code < 42 then (if shift then "\0\0ASDFGHJKL:\"~" else "\0\0asdfghjkl;'`")[code - 28]
    else (if shift then "\0|ZXCVBNM<>?" else "\0\\zxcvbnm,./")[code - 42]
  }

  datatype Event = Event(kind: nat, code: nat, value: int)

  /** keycode_to_ascii; 0 stands for "no character". */
  function Ascii(code: nat, shift: bool): (c: nat)
  {
    if code == KEY_ENTER then 10
    else if code == KEY_BACKSPACE then 8
    else if code == KEY_TAB then 9
    else if code == KEY_SPACE then 32
    else if code == 102 then 0x01
    else if code == 103 then 0x03
    else if code == 105 then 0x02
    else if code == 111 then 0x04
    else if code == 107 then 0x05
    else if code == 108 then 0x0e
    else if code == 106 then 0x06
    else if code >= TABLE_SIZE then 0
    else TableEntry(code, shift) as int
  }

  // ---- what an event stream means ----

  predicate IsShift(e: Event) {
    e.kind == EV_KEY && (e.code == KEY_LEFTSHIFT || e.code == KEY_RIGHTSHIFT)
  }

  function ShiftAfter(shift: bool, e: Event): bool {
    if IsShift(e) then e.value != 0 else shift
  }

  /** The character an event types, or 0. */
  function Typed(shift: bool, e: Event): nat {
    if e.kind != EV_KEY || IsShift(e) || e.value == 0 then 0 else Ascii(e.code, shift)
  }

  /** The shift state and the characters of a whole stream of events, oldest first. */
  function FoldShift(es: seq<Event>): bool {
    if es == [] then false else ShiftAfter(FoldShift(es[..|es| - 1]), es[|es| - 1])
  }

  function FoldTyped(es: seq<Event>): (r: seq<nat>) {
    if es == [] then []
    else
      var before := es[..|es| - 1];
      var c := Typed(FoldShift(before), es[|es| - 1]);
      FoldTyped(before) + if c == 0 then [] else [c]
  }

  // ---- the shared memory and the two parties ----

  /** `availRing`, `availIdx`, `usedRing`, `usedIdx` and `events` are shared memory; `lastUsed` and
      `shift` belong to the driver; `seen` and `held` to the device. */
  datatype State = State(
    availRing: seq<nat>,
    availIdx: nat,
    usedRing: seq<nat>,
    usedIdx: nat,
    events: seq<Event>,
    lastUsed: nat,
    shift: bool,
    seen: nat,
    held: set<nat>)

  predicate Shaped(s: State) {
    && |s.availRing| == QUEUE && |s.usedRing| == QUEUE && |s.events| == QUEUE
    && s.availIdx < WRAP && s.usedIdx < WRAP && s.lastUsed < WRAP && s.seen < WRAP
  }

  function Next(idx: nat): (r: nat)
    ensures r < WRAP
  {
    (idx + 1) % WRAP
  }

  /** virtio_keyboard_add_buffer, as far as the available ring goes. */
  function AddBuffer(s: State, id: nat): (r: State)
    requires Shaped(s)
    ensures Shaped(r)
  {
    s.(availRing := s.availRing[s.availIdx % QUEUE := id], availIdx := Next(s.availIdx))
  }

  /** Anything for virtio_keyboard_read_char to look at? */
  predicate Pending(s: State) {
    s.lastUsed != s.usedIdx
  }

  /** One iteration of virtio_keyboard_read_char; the character found, or 0. */
  function Poll(s: State): (r: (State, nat))
    requires Shaped(s) && Pending(s)
    ensures Shaped(r.0)
  {
    var id := s.usedRing[s.lastUsed % QUEUE];
    var s1 := s.(lastUsed := Next(s.lastUsed));
    if id >= QUEUE then (s1, 0)
    else
      var e := s.events[id];
      (AddBuffer(s1, id).(shift := ShiftAfter(s.shift, e)), Typed(s.shift, e))
  }

  /** How many used elements are waiting, as a 16-bit difference. */
  function Backlog(s: State): (n: nat)
    requires Shaped(s)
  {
    if s.usedIdx >= s.lastUsed then s.usedIdx - s.lastUsed else s.usedIdx + WRAP - s.lastUsed
  }

  /** virtio_keyboard_read_char while the device is quiet: poll until a character or the end. */
  function ReadChar(s: State): (r: (State, nat))
    requires Shaped(s)
    ensures Shaped(r.0)
    decreases Backlog(s)
  {
    if !Pending(s) then (s, 0)
    else
      var (s', c) := Poll(s);
      if c != 0 then (s', c) else ReadChar(s')
  }

  lemma {:induction false} ReadCharStep(s: State)
    requires Shaped(s) && Pending(s)
    ensures ReadChar(s) == if Poll(s).1 != 0 then Poll(s) else ReadChar(Poll(s).0)
    ensures Backlog(Poll(s).0) < Backlog(s)
  {
    PollMoves(s);
  }

  lemma {:induction false} PollMoves(s: State)
    requires Shaped(s) && Pending(s)
    ensures Poll(s).0.lastUsed == Next(s.lastUsed) && Poll(s).0.usedIdx == s.usedIdx
    ensures Backlog(Poll(s).0) < Backlog(s)
  {
    NextIs(s.lastUsed);
  }

  lemma NextIs(idx: nat)
    requires idx < WRAP
    ensures Next(idx) == if idx == WRAP - 1 then 0 else idx + 1
  {
  }

  // ---- the device, obeying the split-virtqueue rules ----

  datatype Step = Take | Fill(id: nat, event: Event) | Publish(id: nat) | Drive

  predicate Enabled(s: State, step: Step)
    requires Shaped(s)
  {
    match step
    case Take => s.seen != s.availIdx
    case Fill(id, _) => id in s.held && id < QUEUE
    case Publish(id) => id in s.held
    case Drive => Pending(s)
  }

  function Apply(s: State, step: Step): (r: State)
    requires Shaped(s) && Enabled(s, step)
    ensures Shaped(r)
  {
    match step
    case Take => s.(held := s.held + {s.availRing[s.seen % QUEUE]}, seen := Next(s.seen))
    case Fill(id, event) => s.(events := s.events[id := event])
    case Publish(id) => s.(usedRing := s.usedRing[s.usedIdx % QUEUE := id], usedIdx := Next(s.usedIdx),
      held := s.held - {id})
    case Drive => Poll(s).0
  }

  /** After the set-up loop: all sixteen buffers have been offered. */
  function Offered(events: seq<Event>): (s: State)
    requires |events| == QUEUE
    ensures Shaped(s)
  {
    State(seq(QUEUE, i => i), QUEUE, seq(QUEUE, i => 0), 0, events, 0, false, 0, {})
  }

  // ---- the history a run leaves behind, on unbounded counters ----

  /** Every id ever offered and how many of them the device has taken; every (id, event) ever
      published and how many of them the driver has consumed; every character returned. */
  datatype History = History(offered: seq<nat>, taken: nat, ids: seq<nat>, stream: seq<Event>, consumed: nat,
    output: seq<nat>)

  function Record(s: State, h: History, step: Step): (r: History)
    requires Shaped(s) && Enabled(s, step)
    requires step.Publish? ==> step.id < QUEUE
  {
    match step
    case Take => h.(taken := h.taken + 1)
    case Fill(_, _) => h
    case Publish(id) => h.(ids := h.ids + [id], stream := h.stream + [s.events[id]])
    case Drive =>
      var id, c := s.usedRing[s.lastUsed % QUEUE], Poll(s).1;
      h.(consumed := h.consumed + 1, offered := h.offered + [id], output := h.output + if c == 0 then [] else [c])
  }
}
