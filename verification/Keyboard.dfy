/** The keyboard queue and its handshake with the machine through CSR<5>. */
module Keyboard {
  import opened Words

  const KEY_QUEUE_LEN := 10

  type Slots = s: seq<word> | |s| == KEY_QUEUE_LEN witness seq(10, i => 0)

  /** The ring of queued events, the scan code register, the CSR and how often an
      interrupt was asserted. */
  datatype Kbd = Kbd(queue: Slots, optr: nat, iptr: nat, free: nat, scan: word, csr: word, interrupts: nat)

  predicate ScanReady(csr: word) { (csr / 32) % 2 == 1 }
  predicate InterruptsOn(csr: word) { (csr / 4) % 2 == 1 }
  function SetReady(csr: word): word { if ScanReady(csr) then csr else csr + 32 }
  function ClearReady(csr: word): word { if ScanReady(csr) then csr - 32 else csr }

  lemma ReadyBit(csr: word)
    ensures ScanReady(SetReady(csr)) && !ScanReady(ClearReady(csr))
    ensures InterruptsOn(SetReady(csr)) == InterruptsOn(csr)
    ensures InterruptsOn(ClearReady(csr)) == InterruptsOn(csr)
  {
    if ScanReady(csr) { Bit5Steps(csr - 32); } else { Bit5Steps(csr); }
  }

  /** CSR bit 5 announces a code and bit 2 enables interrupts; setting and clearing the one
      leaves every other bit. */
  lemma CsrBits(csr: word, i: nat)
    ensures (ScanReady(csr) <==> Bit(csr, 5)) && (InterruptsOn(csr) <==> Bit(csr, 2))
    ensures Bit(SetReady(csr), i) == (i == 5 || Bit(csr, i)) && Bit(ClearReady(csr), i) == (i != 5 && Bit(csr, i))
  {
    var low, high := csr % 32, csr / 64;
    var b := (csr / 32) % 2;
    ReadyParts(csr);
    Powers();
    BitIsDigit(csr, 5);
    BitIsDigit(csr, 2);
    hide *;
    ThreeParts(high, low, b, i);
    ThreeParts(high, low, 1, i);
    ThreeParts(high, low, 0, i);
  }

  lemma ReadyParts(csr: word)
    ensures var low, high, b := csr % 32, csr / 64, (csr / 32) % 2;
            && low < 32 && csr == low + (b + 2 * high) * 32 && (ScanReady(csr) <==> b == 1)
            && SetReady(csr) == low + (1 + 2 * high) * 32 && ClearReady(csr) == low + (0 + 2 * high) * 32
            && (InterruptsOn(csr) <==> (csr / 4) % 2 == 1)
  {
    var x := csr / 32;
    assert csr == csr % 32 + x * 32 && x == x % 2 + 2 * (x / 2);
    DivModUnique(csr, 64, x / 2, csr % 32 + (x % 2) * 32);
  }

  lemma ThreeParts(high: nat, low: nat, b: nat, i: nat)
    requires low < 32 && b < 2
    ensures Bit(low + (b + 2 * high) * 32, i) ==
              if i < 5 then Bit(low, i) else if i == 5 then b == 1 else Bit(high, i - 6)
  {
    Powers();
    BitsOfSplit(b + 2 * high, low, 5, i);
    hide Pow2;
    if i >= 5 { LowestAndRest(high, b, i - 5); }
    hide Bit;
  }

  lemma LowestAndRest(high: nat, b: nat, i: nat)
    requires b < 2
    ensures Bit(b + 2 * high, i) == if i == 0 then b == 1 else Bit(high, i - 1)
  {
    assert (b + 2 * high) / 2 == high;
  }

  lemma Bit5Steps(x: nat)
    ensures ((x + 32) / 32) % 2 == 1 - (x / 32) % 2 && ((x + 32) / 4) % 2 == (x / 4) % 2
  {
    DivModUnique(x + 32, 32, x / 32 + 1, x % 32);
    DivModUnique(x + 32, 4, x / 4 + 8, x % 4);
    NextParity(x / 32);
  }

  lemma NextParity(n: nat)
    ensures (n + 1) % 2 == 1 - n % 2
  {
  }

  /** The slot i places after a slot of the ring. */
  function Slot(from: nat, i: nat): nat {
    if from + i < KEY_QUEUE_LEN then from + i else if from + i < 20 then from + i - KEY_QUEUE_LEN else 0
  }

  lemma SlotWraps(from: nat, i: nat)
    requires from < 10 && i <= 10
    ensures Slot(from, i) == (from + i) % 10
  {
  }

  ghost predicate Wf(k: Kbd) {
    && k.free <= KEY_QUEUE_LEN && k.iptr < KEY_QUEUE_LEN && k.optr < KEY_QUEUE_LEN
    && k.optr == Slot(k.iptr, KEY_QUEUE_LEN - k.free)
  }

  type Keys = k: Kbd | Wf(k) ghost witness Kbd(seq(10, i => 0), 0, 0, 10, 0, 0, 0)

  /** Scan codes carry bit 16. */
  function ScanCode(ev: word): word { Or(0x1_0000, ev) }

  /** A key event's value: the code, with bit 8 set when the key goes up. */
  function EventValue(code: word, keydown: bool): word { Or(if keydown then 0 else 0x100, code) }

  /** The scan code of an event: the code's bits, bit 8 when the key goes up, and bit 16. */
  lemma EventBits(code: word, keydown: bool, i: nat)
    ensures Bit(ScanCode(EventValue(code, keydown)), i) <==> Bit(code, i) || (i == 8 && !keydown) || i == 16
  {
    var up := if keydown then 0 else 0x100;
    EventIs(code, keydown);
    hide *;
    BitsOfOr(up, code, i);
    BitsOfOr(0x1_0000, BitOr(up, code), i);
    SingleBit(8, i);
    SingleBit(16, i);
    Powers();
    ZeroBits(i);
  }

  lemma EventIs(code: word, keydown: bool)
    ensures ScanCode(EventValue(code, keydown)) == BitOr(0x1_0000, BitOr(if keydown then 0 else 0x100, code))
  {
    hide BitOr;
  }

  lemma SingleBit(k: nat, i: nat)
    ensures Bit(Pow2(k), i) <==> i == k
  {
    BitsOfMultiple(1, k, i);
    if i >= k { OneBit(true, i - k); }
    hide Bit, Pow2;
  }

  /** As a number, for the codes there are. */
  lemma EventCode(code: word, keydown: bool)
    requires code < 0x100
    ensures ScanCode(EventValue(code, keydown)) == 0x1_0000 + (if keydown then 0 else 0x100) + code
  {
    Powers();
    OrZero(code);
    OrCommutes(code, 0x100);
    OrDisjoint(code, 1, 8);
    OrCommutes(EventValue(code, keydown), 0x1_0000);
    hide BitOr, Pow2;
    assert EventValue(code, keydown) == (if keydown then 0 else 0x100) + code by { OrCommutes(code, 0); }
    AboveCode(EventValue(code, keydown));
  }

  lemma AboveCode(v: nat)
    requires v < 0x1_0000
    ensures BitOr(v, 0x1_0000) == v + 0x1_0000
  {
    Powers();
    OrDisjoint(v, 1, 16);
    hide BitOr, Pow2;
  }

  /** Raise CSR<5> and interrupt, if keyboard interrupts are enabled. */
  function Announce(k: Keys): Keys {
    if InterruptsOn(k.csr) then k.(csr := SetReady(k.csr), interrupts := k.interrupts + 1) else k
  }

  function QueueEvent(k: Keys, ev: word): Keys {
    if k.free > 0 then
      k.(free := k.free - 1, queue := k.queue[k.optr := ScanCode(ev)], optr := Slot(k.optr, 1))
    else if !ScanReady(k.csr) then Announce(k)
    else k
  }

  function Dequeue(k: Keys): Keys {
    if ScanReady(k.csr) || k.free == KEY_QUEUE_LEN then k
    else
      Announce(k.(iptr := Slot(k.iptr, 1), free := k.free + 1, scan := ScanCode(k.queue[k.iptr])))
  }

  function KeyEvent(k: Keys, ev: word): Keys {
    if ScanReady(k.csr) then QueueEvent(k, ev) else Announce(k.(scan := ScanCode(ev)))
  }

  /** The machine reads the scan code register (both halves at once). */
  function ReadScan(k: Keys): Keys { k.(csr := ClearReady(k.csr)) }

  // ---------------------------------------------------------------------
  // The queue's contents

  function Contents(k: Keys): seq<word> {
    seq(KEY_QUEUE_LEN - k.free, i requires 0 <= i < KEY_QUEUE_LEN - k.free => k.queue[Slot(k.iptr, i)])
  }

  lemma QueuedAtEnd(k: Keys, ev: word)
    requires k.free > 0
    ensures Contents(QueueEvent(k, ev)) == Contents(k) + [ScanCode(ev)]
  {
    hide ScanCode;
  }

  lemma ScanCodeTwice(ev: word)
    ensures ScanCode(ScanCode(ev)) == ScanCode(ev)
  {
    OrAssociates(0x1_0000, 0x1_0000, ev);
    OrItself();
  }

  lemma OrItself()
    ensures BitOr(0x1_0000, 0x1_0000) == 0x1_0000
  {
    hide BitOr;
    OrTwice(0x1_0000);
  }

  lemma {:induction false} OrTwice(x: nat)
    ensures BitOr(x, x) == x
  {
    if x > 0 { OrTwice(x / 2); }
  }

  /** Every queued entry is a scan code, so loading it into the register does not
      change it. */
  ghost predicate Coded(k: Keys) {
    forall i :: 0 <= i < |Contents(k)| ==> ScanCode(Contents(k)[i]) == Contents(k)[i]
  }

  lemma AnnounceOnly(k: Keys)
    ensures var a := Announce(k);
            && a.queue == k.queue && a.optr == k.optr && a.iptr == k.iptr && a.free == k.free && a.scan == k.scan
            && a.interrupts == (if InterruptsOn(k.csr) then k.interrupts + 1 else k.interrupts)
    ensures InterruptsOn(k.csr) ==> ScanReady(Announce(k).csr)
    ensures !InterruptsOn(k.csr) ==> Announce(k) == k
    ensures InterruptsOn(Announce(k).csr) == InterruptsOn(k.csr)
  {
    ReadyBit(k.csr);
    hide SetReady, ScanReady, InterruptsOn;
  }

  lemma DequeuedFromFront(k: Keys)
    requires !ScanReady(k.csr) && k.free < KEY_QUEUE_LEN && Coded(k)
    ensures Contents(k) == [Dequeue(k).scan] + Contents(Dequeue(k))
  {
    hide ScanCode, Announce;
    AnnounceOnly(k.(iptr := Slot(k.iptr, 1), free := k.free + 1, scan := ScanCode(k.queue[k.iptr])));
    var rest := Contents(Dequeue(k));
    assert Contents(k)[0] == k.queue[k.iptr];
    assert forall i :: 0 <= i < |rest| ==> rest[i] == Contents(k)[i + 1];
  }

  // ---------------------------------------------------------------------
  // Runs

  /** What happens to the keyboard: the window is polled, with the key events that
      were waiting, or the machine reads. */
  datatype Event = Poll(keys: seq<word>) | Read

  /** The events accepted and dropped, and the codes the machine took, in order. */
  datatype History = History(accepted: seq<word>, dropped: seq<word>, taken: seq<word>)

  datatype Trace = Trace(k: Keys, h: History)

  predicate Full(k: Keys) { ScanReady(k.csr) && k.free == 0 }

  function PressOne(t: Trace, ev: word): Trace {
    Trace(KeyEvent(t.k, ev),
          if Full(t.k) then t.h.(dropped := t.h.dropped + [ScanCode(ev)])
          else t.h.(accepted := t.h.accepted + [ScanCode(ev)]))
  }

  function Press(t: Trace, keys: seq<word>): Trace
    decreases |keys|
  {
    if keys == [] then t else Press(PressOne(t, keys[0]), keys[1..])
  }

  /** A read takes the code only if CSR<5> announces one. */
  function Happen(t: Trace, e: Event): Trace {
    match e
    case Poll(keys) => Press(t.(k := Dequeue(t.k)), keys)
    case Read =>
      Trace(ReadScan(t.k), if ScanReady(t.k.csr) then t.h.(taken := t.h.taken + [t.k.scan]) else t.h)
  }

  function RunEvents(t: Trace, es: seq<Event>): Trace
    decreases |es|
  {
    if es == [] then t else RunEvents(Happen(t, es[0]), es[1..])
  }

  /** The accepted events are those taken, the one announced and those queued. */
  ghost predicate InOrder(t: Trace) {
    && Coded(t.k)
    && t.h.accepted == t.h.taken + (if ScanReady(t.k.csr) then [t.k.scan] else []) + Contents(t.k)
  }

  /** After each dequeue: nothing announced means nothing queued. */
  ghost predicate Settled(t: Trace) { InOrder(t) && (!ScanReady(t.k.csr) ==> Contents(t.k) == []) }

  lemma DequeueSettles(t: Trace)
    requires InOrder(t) && InterruptsOn(t.k.csr)
    ensures Settled(t.(k := Dequeue(t.k))) && InterruptsOn(Dequeue(t.k).csr)
  {
    hide ScanCode, ScanReady, InterruptsOn, Announce;
    var k, k' := t.k, Dequeue(t.k);
    if ScanReady(k.csr) || k.free == KEY_QUEUE_LEN {
      assert k' == k;
      assert k.free == KEY_QUEUE_LEN ==> Contents(k) == [];
    } else {
      AnnounceOnly(k.(iptr := Slot(k.iptr, 1), free := k.free + 1, scan := ScanCode(k.queue[k.iptr])));
      DequeuedFromFront(k);
      assert ScanReady(k'.csr) && InterruptsOn(k'.csr);
      hide Contents, Dequeue;
      FrontTaken(t.h.taken, k'.scan, Contents(k'));
      CodedTail(k, k');
    }
  }

  lemma FrontTaken(taken: seq<word>, first: word, rest: seq<word>)
    ensures taken + [] + ([first] + rest) == taken + [first] + rest
  {
  }

  lemma CodedTail(k: Keys, k': Keys)
    requires Coded(k) && Contents(k) == [k'.scan] + Contents(k')
    ensures Coded(k')
  {
    hide Contents, ScanCode;
    forall i | 0 <= i < |Contents(k')| ensures ScanCode(Contents(k')[i]) == Contents(k')[i] {
      assert Contents(k)[i + 1] == Contents(k')[i];
    }
  }

  /** A key event in a settled state keeps the order exactly when it is queued or
      can be announced: with interrupts off the register is just overwritten. */
  lemma PressKeepsIff(t: Trace, ev: word)
    requires Settled(t)
    ensures Settled(PressOne(t, ev)) <==> ScanReady(t.k.csr) || InterruptsOn(t.k.csr)
    ensures InterruptsOn(PressOne(t, ev).k.csr) == InterruptsOn(t.k.csr)
  {
    hide ScanCode, ScanReady, InterruptsOn, Announce;
    ScanCodeTwice(ev);
    var now := PressOne(t, ev);
    if ScanReady(t.k.csr) && t.k.free > 0 {
      QueuedAtEnd(t.k, ev);
      assert now.h.accepted == now.h.taken + [now.k.scan] + Contents(now.k);
    } else if !ScanReady(t.k.csr) {
      AnnounceOnly(t.k.(scan := ScanCode(ev)));
      assert Contents(now.k) == [] && Contents(t.k) == [];
      assert |t.h.accepted| == |t.h.taken|;
    }
  }

  /** It happens: with interrupts off, the code of a key pressed on an empty queue is in
      the register unannounced, and the next one takes its place. */
  lemma UnannouncedIsLost(k: Keys, first: word, second: word)
    requires k.free == KEY_QUEUE_LEN && k.csr == 0
    ensures var t := Trace(k, History([], [], []));
            Settled(t) && !Settled(PressOne(t, first)) && KeyEvent(KeyEvent(k, first), second) == KeyEvent(k, second)
  {
    var t := Trace(k, History([], [], []));
    hide ScanCode;
    assert Contents(k) == [];
    PressKeepsIff(t, first);
  }

  lemma {:induction false} PressesKeep(t: Trace, keys: seq<word>)
    requires Settled(t) && InterruptsOn(t.k.csr)
    ensures Settled(Press(t, keys)) && InterruptsOn(Press(t, keys).k.csr)
    decreases |keys|
  {
    hide Settled, PressOne;
    if keys != [] {
      PressKeepsIff(t, keys[0]);
      PressesKeep(PressOne(t, keys[0]), keys[1..]);
    }
  }

  lemma ReadKeeps(t: Trace)
    requires InOrder(t)
    ensures InOrder(Happen(t, Read)) && InterruptsOn(Happen(t, Read).k.csr) == InterruptsOn(t.k.csr)
  {
    ReadyBit(t.k.csr);
    hide ScanCode, ClearReady, ScanReady, InterruptsOn;
    assert Contents(ReadScan(t.k)) == Contents(t.k);
  }

  lemma {:induction false} RunInOrder(t: Trace, es: seq<Event>)
    requires InOrder(t) && InterruptsOn(t.k.csr)
    ensures InOrder(RunEvents(t, es))
    decreases |es|
  {
    if es != [] {
      match es[0] {
        case Poll(keys) =>
          DequeueSettles(t);
          PressesKeep(t.(k := Dequeue(t.k)), keys);
        case Read => ReadKeeps(t);
      }
      hide InOrder, Dequeue, Press, ReadScan;
      RunInOrder(Happen(t, es[0]), es[1..]);
    }
  }

  /** With keyboard interrupts enabled, over every interleaving of polls and reads,
      the codes the machine takes are a prefix of the accepted events in arrival
      order; what is missing is announced or queued. */
  lemma TakenIsPrefix(k: Keys, es: seq<Event>)
    requires k.free == KEY_QUEUE_LEN && !ScanReady(k.csr) && InterruptsOn(k.csr)
    ensures var t := RunEvents(Trace(k, History([], [], [])), es);
            && t.h.taken <= t.h.accepted
            && |t.h.accepted| - |t.h.taken| == |Contents(t.k)| + (if ScanReady(t.k.csr) then 1 else 0)
  {
    RunInOrder(Trace(k, History([], [], [])), es);
    hide RunEvents;
  }

  /** The codes the machine has yet to read: the announced one and those queued. */
  function Pending(k: Keys): seq<word> { (if ScanReady(k.csr) then [k.scan] else []) + Contents(k) }

  /** A key event adds its code to what is pending, unless eleven codes are: the one
      announced and ten queued. Then it is lost and nothing changes. */
  lemma DroppedOnlyWhenFull(k: Keys, ev: word)
    requires ScanReady(k.csr) || (InterruptsOn(k.csr) && Contents(k) == [])
    ensures |Pending(k)| <= KEY_QUEUE_LEN + 1
    ensures Pending(KeyEvent(k, ev)) == if |Pending(k)| <= KEY_QUEUE_LEN then Pending(k) + [ScanCode(ev)] else Pending(k)
    ensures |Pending(k)| > KEY_QUEUE_LEN ==> KeyEvent(k, ev) == k
  {
    hide ScanCode, ScanReady, InterruptsOn, Announce;
    if !ScanReady(k.csr) {
      AnnounceOnly(k.(scan := ScanCode(ev)));
      assert Contents(KeyEvent(k, ev)) == [];
    } else if k.free > 0 {
      QueuedAtEnd(k, ev);
    }
  }

  /** The history files an event as dropped exactly when its code was lost. */
  lemma FiledAsLost(t: Trace, ev: word)
    requires Settled(t) && (ScanReady(t.k.csr) || InterruptsOn(t.k.csr))
    ensures var now := PressOne(t, ev);
            if Pending(now.k) == Pending(t.k) then now.h == t.h.(dropped := t.h.dropped + [ScanCode(ev)])
            else Pending(now.k) == Pending(t.k) + [ScanCode(ev)]
                 && now.h == t.h.(accepted := t.h.accepted + [ScanCode(ev)])
  {
    hide KeyEvent, ScanCode, ScanReady, InterruptsOn;
    DroppedOnlyWhenFull(t.k, ev);
    assert |Pending(t.k) + [ScanCode(ev)]| != |Pending(t.k)|;
  }

  /** The codes of all key events, in order. */
  function Pressed(es: seq<Event>): seq<word>
    decreases |es|
  {
    if es == [] then [] else (if es[0].Poll? then Codes(es[0].keys) else []) + Pressed(es[1..])
  }

  function Codes(keys: seq<word>): seq<word>
    decreases |keys|
  {
    if keys == [] then [] else [ScanCode(keys[0])] + Codes(keys[1..])
  }

  /** p is a and d shuffled together, each in its own order. */
  predicate IsShuffle(p: seq<word>, a: seq<word>, d: seq<word>)
    decreases |p|
  {
    if p == [] then a == [] && d == []
    else
      var x, rest := p[|p| - 1], p[..|p| - 1];
      || (a != [] && a[|a| - 1] == x && IsShuffle(rest, a[..|a| - 1], d))
      || (d != [] && d[|d| - 1] == x && IsShuffle(rest, a, d[..|d| - 1]))
  }

  lemma ShuffleGrows(p: seq<word>, a: seq<word>, d: seq<word>, x: word)
    requires IsShuffle(p, a, d)
    ensures IsShuffle(p + [x], a + [x], d) && IsShuffle(p + [x], a, d + [x])
  {
    assert (p + [x])[..|p|] == p && (a + [x])[..|a|] == a && (d + [x])[..|d|] == d;
    var q, b, e := p + [x], a + [x], d + [x];
    assert q[..|q| - 1] == p && b[..|b| - 1] == a && e[..|e| - 1] == d;
  }

  lemma PressShuffles(t: Trace, ev: word, p: seq<word>)
    requires IsShuffle(p, t.h.accepted, t.h.dropped)
    ensures IsShuffle(p + [ScanCode(ev)], PressOne(t, ev).h.accepted, PressOne(t, ev).h.dropped)
  {
    ShuffleGrows(p, t.h.accepted, t.h.dropped, ScanCode(ev));
    hide ScanCode, IsShuffle, KeyEvent, Full;
  }

  lemma {:induction false} PressesShuffle(t: Trace, keys: seq<word>, p: seq<word>)
    requires IsShuffle(p, t.h.accepted, t.h.dropped)
    ensures var t' := Press(t, keys);
            IsShuffle(p + Codes(keys), t'.h.accepted, t'.h.dropped)
    decreases |keys|
  {
    hide ScanCode, PressOne, IsShuffle;
    if keys == [] {
      assert p + Codes(keys) == p;
    } else {
      PressShuffles(t, keys[0], p);
      PressesShuffle(PressOne(t, keys[0]), keys[1..], p + [ScanCode(keys[0])]);
      assert p + Codes(keys) == p + [ScanCode(keys[0])] + Codes(keys[1..]);
    }
  }

  /** Over every run the accepted and the dropped events are together exactly those
      that happened, each in arrival order. */
  lemma {:induction false} EveryEventAccounted(t: Trace, es: seq<Event>, p: seq<word>)
    requires IsShuffle(p, t.h.accepted, t.h.dropped)
    ensures var t' := RunEvents(t, es);
            IsShuffle(p + Pressed(es), t'.h.accepted, t'.h.dropped)
    decreases |es|
  {
    hide Press, IsShuffle, Dequeue, Codes;
    if es == [] {
      assert p + Pressed(es) == p;
    } else if es[0].Poll? {
      PressesShuffle(t.(k := Dequeue(t.k)), es[0].keys, p);
      EveryEventAccounted(Happen(t, es[0]), es[1..], p + Codes(es[0].keys));
      assert p + Pressed(es) == p + Codes(es[0].keys) + Pressed(es[1..]);
    } else {
      EveryEventAccounted(Happen(t, es[0]), es[1..], p);
      assert Pressed(es) == Pressed(es[1..]);
    }
  }

  /** From an empty queue. */
  lemma NothingElseAccepted(k: Keys, es: seq<Event>)
    ensures var t := RunEvents(Trace(k, History([], [], [])), es);
            IsShuffle(Pressed(es), t.h.accepted, t.h.dropped)
  {
    hide RunEvents, Pressed;
    EveryEventAccounted(Trace(k, History([], [], [])), es, []);
    assert [] + Pressed(es) == Pressed(es);
  }

  // ---------------------------------------------------------------------
  // The queue as the emulator keeps it

  class KeyboardUnit {
    const keyQueue: array<word>
    var optr: nat
    var iptr: nat
    var free: nat
    var keyScan: word
    var csr: word
    var interrupts: nat

    ghost predicate Valid()
      reads this, keyQueue
    {
      keyQueue.Length == KEY_QUEUE_LEN && Wf(Kbd(keyQueue[..], optr, iptr, free, keyScan, csr, interrupts))
    }

    ghost function State(): Keys
      reads this, keyQueue
      requires Valid()
    {
      Kbd(keyQueue[..], optr, iptr, free, keyScan, csr, interrupts)
    }

    constructor ()
      ensures Valid() && fresh(keyQueue) && free == KEY_QUEUE_LEN && csr == 0
    {
      keyQueue := new word[KEY_QUEUE_LEN](i => 0);
      optr, iptr, free, keyScan, csr, interrupts := 0, 0, KEY_QUEUE_LEN, 0, 0, 0;
    }

    /** Raise CSR<5> and assert the keyboard interrupt. */
    method Interrupt()
      requires Valid()
      modifies `csr, `interrupts
      ensures Valid() && State() == old(State()).(csr := SetReady(old(csr)), interrupts := old(interrupts) + 1)
    {
      csr := SetReady(csr);
      interrupts := interrupts + 1;
    }

    method QueueKeyEvent(ev: word)
      requires Valid()
      modifies `optr, `free, `csr, `interrupts, keyQueue
      ensures Valid() && State() == QueueEvent(old(State()), ev)
    {
      hide ScanCode, SetReady;
      if free > 0 {
        free := free - 1;
        keyQueue[optr] := ScanCode(ev);
        optr := (optr + 1) % KEY_QUEUE_LEN;
      } else if !ScanReady(csr) && InterruptsOn(csr) {
        Interrupt();
      }
    }

    method DequeueKeyEvent()
      requires Valid()
      modifies `iptr, `free, `keyScan, `csr, `interrupts
      ensures Valid() && State() == Dequeue(old(State()))
    {
      hide ScanCode, SetReady;
      if ScanReady(csr) {
        return;
      }
      if free < KEY_QUEUE_LEN {
        var v := keyQueue[iptr];
        iptr := (iptr + 1) % KEY_QUEUE_LEN;
        free := free + 1;
        keyScan := ScanCode(v);
        if InterruptsOn(csr) {
          Interrupt();
        }
      }
    }

    method KbdKeyEvent(code: word, keydown: bool)
      requires Valid()
      modifies `optr, `free, `keyScan, `csr, `interrupts, keyQueue
      ensures Valid() && State() == KeyEvent(old(State()), EventValue(code, keydown))
    {
      hide ScanCode, SetReady, EventValue;
      var v := EventValue(code, keydown);
      if ScanReady(csr) {
        QueueKeyEvent(v);
      } else {
        keyScan := ScanCode(v);
        if InterruptsOn(csr) {
          Interrupt();
        }
      }
    }

    /** The low half of the scan code register; CSR<5> is cleared. */
    method ReadLow() returns (low: nat)
      requires Valid()
      modifies `csr
      ensures Valid() && State() == ReadScan(old(State())) && low == keyScan % 0x1_0000
    {
      low := keyScan % 0x1_0000;
      csr := ClearReady(csr);
    }

    /** The high half, which clears CSR<5> too. */
    method ReadHigh() returns (high: nat)
      requires Valid()
      modifies `csr
      ensures Valid() && State() == ReadScan(old(State())) && high == keyScan / 0x1_0000
    {
      high := keyScan / 0x1_0000;
      csr := ClearReady(csr);
    }

    /** Both halves with nothing in between: the whole code, read once. */
    method ReadKeyboard() returns (low: nat, high: nat)
      requires Valid()
      modifies `csr
      ensures Valid() && State() == ReadScan(old(State()))
      ensures high * 0x1_0000 + low == keyScan && low < 0x1_0000
    {
      ReadyBit(csr);
      low := ReadLow();
      high := ReadHigh();
    }
  }
}
