/** The sixteen-key keypad.

    The state is a 16-bit mask with bit `i` set while logical key `i` is
    held.  Platform events are abstracted to key-down and key-up events of
    logical keys (the physical-key mapping is part of the host), and to
    events the keypad ignores.
 */
module Keyboard {
  import opened Bits

  type Key = k: int | 0 <= k < 16

  datatype KeyEvent =
    | KeyDown(key: Key)
    | KeyUp(key: Key)
    | Ignored          // an unmapped key, or an event that is not a key event

  datatype Keyboard = Keyboard(keys: Word)

  /** The state before any event. */
  const Released := Keyboard(0)

  /** `uint16(0x1) << i` */
  function KeyMask(i: Key): Word {
    Pow2Below(i);
    Pow2(i)
  }

  /** Key `key & 0x0F` is held.  Only the low nibble of `key` is used. */
  predicate IsPressed(kb: Keyboard, key: Byte)
    ensures IsPressed(kb, key) <==> TestBit(kb.keys, key % 16)
  {
    var k := KeyIndex(key);
    AndSingleBit(kb.keys, k, 16);
    And16(kb.keys, KeyMask(k)) != 0
  }

  /** `key & 0x0F` */
  function KeyIndex(key: Byte): (k: Key)
    ensures k == key % 16
  {
    LowNibble(key);
    And8(key, 0x0F)
  }

  /** A key-down sets the key's bit and keeps every other bit. */
  function Press(kb: Keyboard, i: Key): (kb': Keyboard)
    ensures forall k :: 0 <= k < 16 ==> (TestBit(kb'.keys, k) <==> k == i || TestBit(kb.keys, k))
  {
    forall k | 0 <= k < 16
      ensures TestBit(Or16(kb.keys, KeyMask(i)), k) <==> k == i || TestBit(kb.keys, k)
    {
      ZipBit(OrOp, kb.keys, KeyMask(i), 16, k);
      Pow2Bit(i, k);
    }
    Keyboard(Or16(kb.keys, KeyMask(i)))
  }

  /** A key-up clears the key's bit and keeps every other bit. */
  function Release(kb: Keyboard, i: Key): (kb': Keyboard)
    ensures forall k :: 0 <= k < 16 ==> (TestBit(kb'.keys, k) <==> k != i && TestBit(kb.keys, k))
  {
    forall k | 0 <= k < 16
      ensures TestBit(And16(kb.keys, Not16(KeyMask(i))), k) <==> k != i && TestBit(kb.keys, k)
    {
      ZipBit(AndOp, kb.keys, Not16(KeyMask(i)), 16, k);
      Pow2Values();
      ComplementBit(KeyMask(i), 16, k);
      Pow2Bit(i, k);
    }
    Keyboard(And16(kb.keys, Not16(KeyMask(i))))
  }

  /** What one poll returns: the updated keypad, the key index and whether
      a key-down was seen, and the events left for later polls. */
  datatype Poll = Poll(kb: Keyboard, key: Byte, pressed: bool, rest: seq<KeyEvent>)

  /** The position of the first key-down, or the length if there is none. */
  function FirstKeyDown(events: seq<KeyEvent>): (n: nat)
    ensures n <= |events|
    ensures forall m :: 0 <= m < n ==> !events[m].KeyDown?
    ensures n < |events| ==> events[n].KeyDown?
  {
    if |events| == 0 then 0
    else if events[0].KeyDown? then 0
    else 1 + FirstKeyDown(events[1..])
  }

  /** Key `k` is released somewhere in `events`. */
  predicate ReleasedIn(events: seq<KeyEvent>, k: Key) {
    exists m :: 0 <= m < |events| && events[m] == KeyUp(k)
  }

  /** What a poll of `events` from keypad `kb` must produce: with `n` the
      position of the first key-down, the key-down is reported and the
      events after it are left queued; without one, (0, false) is reported
      and nothing is left.  A key is held afterwards when it is the
      reported key, or it was held and is not released before position
      `n`. */
  predicate PollSpec(kb: Keyboard, events: seq<KeyEvent>, res: Poll) {
    var n := FirstKeyDown(events);
    && (res.pressed <==> n < |events|)
    && (res.pressed ==> res.key == events[n].key && res.rest == events[n + 1..])
    && (!res.pressed ==> res.key == 0 && res.rest == [])
    && forall k: Key :: TestBit(res.kb.keys, k) <==>
         (res.pressed && k == res.key) || (TestBit(kb.keys, k) && !ReleasedIn(events[..n], k))
  }

  /** Consumes queued events up to and including the first key-down.  The
      key-ups before it clear their bits; the key-down sets its bit and is
      returned at once.  Without a key-down, every event is consumed and
      the result is (0, false). */
  function PollEvents(kb: Keyboard, events: seq<KeyEvent>): (res: Poll)
    ensures PollSpec(kb, events, res)
    decreases |events|
  {
    if |events| == 0 then Poll(kb, 0, false, [])
    else
      match events[0]
      case KeyDown(i) =>
        var res := Poll(Press(kb, i), i, true, events[1..]);
        assert events[..0] == [];
        res
      case KeyUp(i) =>
        var res := PollEvents(Release(kb, i), events[1..]);
        PollReleaseStep(kb, events, i, res);
        res
      case Ignored =>
        var res := PollEvents(kb, events[1..]);
        PollIgnoreStep(kb, events, res);
        res
  }

  /** The events before the first key-down, once the head is dropped. */
  lemma FirstKeyDownTail(events: seq<KeyEvent>)
    requires |events| > 0 && !events[0].KeyDown?
    ensures FirstKeyDown(events) == 1 + FirstKeyDown(events[1..])
    ensures events[..FirstKeyDown(events)] == [events[0]] + events[1..][..FirstKeyDown(events[1..])]
    ensures events[FirstKeyDown(events)..] == events[1..][FirstKeyDown(events[1..])..]
  {
  }

  /** A key is released in `[e] + tail` iff `e` releases it or `tail` does. */
  lemma ReleasedInCons(e: KeyEvent, tail: seq<KeyEvent>, k: Key)
    ensures ReleasedIn([e] + tail, k) <==> e == KeyUp(k) || ReleasedIn(tail, k)
  {
    var s := [e] + tail;
    if ReleasedIn(s, k) && e != KeyUp(k) {
      var m :| 0 <= m < |s| && s[m] == KeyUp(k);
      assert tail[m - 1] == KeyUp(k);
    }
    if ReleasedIn(tail, k) {
      var m :| 0 <= m < |tail| && tail[m] == KeyUp(k);
      assert s[m + 1] == KeyUp(k);
    }
    if e == KeyUp(k) {
      assert s[0] == KeyUp(k);
    }
  }

  lemma PollReleaseStep(kb: Keyboard, events: seq<KeyEvent>, i: Key, res: Poll)
    requires |events| > 0 && events[0] == KeyUp(i)
    requires PollSpec(Release(kb, i), events[1..], res)
    ensures PollSpec(kb, events, res)
  {
    FirstKeyDownTail(events);
    var n := FirstKeyDown(events);
    var tail := events[1..][..n - 1];
    forall k: Key
      ensures TestBit(res.kb.keys, k) <==>
        (res.pressed && k == res.key) || (TestBit(kb.keys, k) && !ReleasedIn(events[..n], k))
    {
      ReleasedInCons(events[0], tail, k);
    }
  }

  lemma PollIgnoreStep(kb: Keyboard, events: seq<KeyEvent>, res: Poll)
    requires |events| > 0 && events[0] == Ignored
    requires PollSpec(kb, events[1..], res)
    ensures PollSpec(kb, events, res)
  {
    FirstKeyDownTail(events);
    var n := FirstKeyDown(events);
    var tail := events[1..][..n - 1];
    forall k: Key
      ensures TestBit(res.kb.keys, k) <==>
        (res.pressed && k == res.key) || (TestBit(kb.keys, k) && !ReleasedIn(events[..n], k))
    {
      ReleasedInCons(events[0], tail, k);
    }
  }

  /** Only the low nibble of the key number matters. */
  lemma IsPressedLowNibble(kb: Keyboard, key: Byte)
    ensures IsPressed(kb, key) == IsPressed(kb, And8(key, 0x0F))
  {
    var k := And8(key, 0x0F);
    LowNibble(key);
    ModUnique(k, 16, 0, k);
    assert KeyIndex(k) == KeyIndex(key);
  }

  /** `key & 0x0F` is `key % 16`. */
  lemma LowNibble(key: Byte)
    ensures And8(key, 0x0F) == key % 16
  {
    Pow2Values();
    LowMask(key, 4, 8);
  }

  /** Events that arrive after the first key-down do not change what a poll
      reports; they stay queued behind the ones it left. */
  lemma {:induction false} PollIgnoresLaterEvents(kb: Keyboard, events: seq<KeyEvent>, more: seq<KeyEvent>)
    requires PollEvents(kb, events).pressed
    ensures PollEvents(kb, events + more) == PollEvents(kb, events).(rest := PollEvents(kb, events).rest + more)
    decreases |events|
  {
    assert (events + more)[1..] == events[1..] + more;
    assert (events + more)[0] == events[0];
    match events[0]
    case KeyDown(i) =>
    case KeyUp(i) => PollIgnoresLaterEvents(Release(kb, i), events[1..], more);
    case Ignored => PollIgnoresLaterEvents(kb, events[1..], more);
  }

  /** A poll that sees no key-down applies its key-ups and drains the queue,
      so polling again afterwards is the same as one poll over both event
      sequences. */
  lemma {:induction false} PollsCompose(kb: Keyboard, e1: seq<KeyEvent>, e2: seq<KeyEvent>)
    requires !PollEvents(kb, e1).pressed
    ensures PollEvents(kb, e1 + e2) == PollEvents(PollEvents(kb, e1).kb, e2)
    decreases |e1|
  {
    if |e1| == 0 {
      assert e1 + e2 == e2;
    } else {
      assert (e1 + e2)[1..] == e1[1..] + e2;
      assert (e1 + e2)[0] == e1[0];
      match e1[0]
      case KeyDown(i) => assert false;
      case KeyUp(i) => PollsCompose(Release(kb, i), e1[1..], e2);
      case Ignored => PollsCompose(kb, e1[1..], e2);
    }
  }
}
