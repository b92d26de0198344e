/** The state-diffing reader of src/asynchronous.rs: `AsyncDeviceStateReader` keeps the last
    button and encoder vectors it saw and turns each new input report into edge events.
    The locking and the asynchronous read are left out; the input that `read_input`
    returned is a parameter of `Read`. */
module StateReader {
  import opened Wrappers
  import opened Bytes
  import opened Info
  import Codec

  /** `DeviceStateUpdate`: one edge event. */
  datatype DeviceStateUpdate =
    | ButtonDown(key: byte)
    | ButtonUp(key: byte)
    | EncoderDown(encoder: byte)
    | EncoderUp(encoder: byte)
    | EncoderTwist(encoder: byte, ticks: i8)
    | TouchPointDown(point: byte)
    | TouchPointUp(point: byte)
    | TouchScreenPress(x: u16, y: u16)
    | TouchScreenLongPress(x: u16, y: u16)
    | TouchScreenSwipe(start: (u16, u16), end: (u16, u16))

  /** What the reader asks of the device kind beyond its key and encoder counts:
      `touchpoint_count`, `is_mirabox`, and whether it is one of the kinds whose encoders
      report presses as pulses (the `Akp03E | Akp03R` arm). */
  datatype Quirks = Quirks(touchpointCount: byte, mirabox: bool, pulseEncoders: bool)

  /** `index as u8 - key_count`: the touch-point number of a button slot, with the u8
      truncation and the wrapping subtraction of a release build. */
  function TouchIndex(index: nat, keyCount: byte): (p: byte)
    ensures keyCount <= index < 0x100 ==> p == index - keyCount
  {
    ((index % 0x100) - keyCount) % 0x100
  }

  // ---------------------------------------------------------------- shapes of event lists

  /** Every event speaks of a slot below n, and the slots strictly ascend. */
  ghost predicate SlotsAscendBelow(keyCount: byte, es: seq<DeviceStateUpdate>, n: nat)
  {
    && (forall a :: 0 <= a < |es| ==> 0 <= SlotOf(keyCount, es[a]) < n)
    && (forall a, b :: 0 <= a < b < |es| ==> SlotOf(keyCount, es[a]) < SlotOf(keyCount, es[b]))
  }

  /** Only key events, of keys below n: presses at even positions and releases at odd
      ones, so that the list has even length. */
  ghost predicate PressReleaseKeys(es: seq<DeviceStateUpdate>, n: nat)
  {
    && |es| % 2 == 0
    && (forall a :: 0 <= a < |es| ==>
          (es[a].ButtonDown? || es[a].ButtonUp?) && (es[a].ButtonDown? <==> a % 2 == 0) && es[a].key < n)
  }

  /** Each event at an odd position releases the key pressed just before it. */
  ghost predicate KeyReleasesFollow(es: seq<DeviceStateUpdate>)
  {
    forall a :: 0 < a < |es| && a % 2 == 1 ==> es[a - 1].ButtonDown? && es[a] == ButtonUp(es[a - 1].key)
  }

  /** The events at even positions press strictly ascending keys. */
  ghost predicate PressedKeysAscend(es: seq<DeviceStateUpdate>)
  {
    forall a, b :: 0 <= a < b < |es| && a % 2 == 0 && b % 2 == 0 ==>
      es[a].ButtonDown? && es[b].ButtonDown? && es[a].key < es[b].key
  }

  /** Only encoder events, of encoders below n: presses at even positions and releases at
      odd ones, so that the list has even length. */
  ghost predicate PressReleaseEncoders(es: seq<DeviceStateUpdate>, n: nat)
  {
    && |es| % 2 == 0
    && (forall a :: 0 <= a < |es| ==>
          (es[a].EncoderDown? || es[a].EncoderUp?) && (es[a].EncoderDown? <==> a % 2 == 0) && es[a].encoder < n)
  }

  /** Each event at an odd position releases the encoder pressed just before it. */
  ghost predicate EncoderReleasesFollow(es: seq<DeviceStateUpdate>)
  {
    forall a :: 0 < a < |es| && a % 2 == 1 ==> es[a - 1].EncoderDown? && es[a] == EncoderUp(es[a - 1].encoder)
  }

  /** Only encoder press and release events, of encoders below n, at strictly ascending
      encoders. */
  ghost predicate EncodersAscendBelow(es: seq<DeviceStateUpdate>, n: nat)
  {
    && (forall a :: 0 <= a < |es| ==> (es[a].EncoderDown? || es[a].EncoderUp?) && es[a].encoder < n)
    && (forall a, b :: 0 <= a < b < |es| ==>
          (es[a].EncoderDown? || es[a].EncoderUp?) && (es[b].EncoderDown? || es[b].EncoderUp?) &&
          es[a].encoder < es[b].encoder)
  }

  /** Only twist events, of encoders below n, each carrying that encoder's non-zero change,
      at strictly ascending encoders. */
  ghost predicate NonZeroTwistsAscend(es: seq<DeviceStateUpdate>, twists: seq<i8>, n: nat)
    requires n <= |twists|
  {
    && (forall a :: 0 <= a < |es| ==>
          es[a].EncoderTwist? && es[a].encoder < n && es[a].ticks != 0 && es[a].ticks == twists[es[a].encoder])
    && (forall a, b :: 0 <= a < b < |es| ==>
          es[a].EncoderTwist? && es[b].EncoderTwist? && es[a].encoder < es[b].encoder)
  }

  // ---------------------------------------------------------------- buttons

  /** The event of a button slot that changed to `pressed`: a key below `keyCount`, a touch
      point above. */
  function Transition(keyCount: byte, pressed: bool, index: nat): (e: DeviceStateUpdate)
  {
    if index < keyCount then
      if pressed then ButtonDown(AsByte(index)) else ButtonUp(AsByte(index))
    else if pressed then TouchPointDown(TouchIndex(index, keyCount))
    else TouchPointUp(TouchIndex(index, keyCount))
  }

  /** The events of button slot `index`. A mirabox kind reports a press as a down-up pair
      whatever was stored; the others report a change of state. */
  function ButtonEventsAt(keyCount: byte, mirabox: bool, their: bool, mine: bool, index: nat): (es: seq<DeviceStateUpdate>)
  {
    if mirabox then
      if their then [ButtonDown(AsByte(index)), ButtonUp(AsByte(index))] else []
    else if their != mine then [Transition(keyCount, their, index)]
    else []
  }

  /** The events of the first `n` button slots, in slot order. */
  function ButtonEvents(keyCount: byte, mirabox: bool, theirs: seq<bool>, mines: seq<bool>, n: nat): (es: seq<DeviceStateUpdate>)
    requires n <= |theirs| && n <= |mines|
  {
    if n == 0 then []
    else ButtonEvents(keyCount, mirabox, theirs, mines, n - 1)
         + ButtonEventsAt(keyCount, mirabox, theirs[n - 1], mines[n - 1], n - 1)
  }

  /** The slot a button or touch-point event speaks of. */
  function SlotOf(keyCount: byte, e: DeviceStateUpdate): (slot: int)
  {
    match e
    case ButtonDown(k) => k
    case ButtonUp(k) => k
    case TouchPointDown(p) => keyCount + p
    case TouchPointUp(p) => keyCount + p
    case _ => -1
  }

  lemma TransitionSlot(keyCount: byte, pressed: bool, index: nat)
    requires index < 0x100
    ensures SlotOf(keyCount, Transition(keyCount, pressed, index)) == index
    ensures Transition(keyCount, pressed, index).ButtonDown? || Transition(keyCount, pressed, index).TouchPointDown?
            <==> pressed
  {
  }

  /** Different slots, or different new states, give different events. */
  lemma TransitionInjective(keyCount: byte, p: bool, i: nat, q: bool, j: nat)
    requires i < 0x100 && j < 0x100
    requires Transition(keyCount, p, i) == Transition(keyCount, q, j)
    ensures i == j && p == q
  {
    TransitionSlot(keyCount, p, i);
    TransitionSlot(keyCount, q, j);
  }

  /** A transitioning kind reports slot i exactly when its state changed, as a press when it
      is now down and a release otherwise, and reports nothing else. */
  lemma {:induction false} ButtonEventsAreTransitions(keyCount: byte, theirs: seq<bool>, mines: seq<bool>, n: nat)
    requires n <= |theirs| && n <= |mines| && n <= 0x100
    ensures forall i :: 0 <= i < n ==>
              (theirs[i] != mines[i] <==> Transition(keyCount, theirs[i], i) in ButtonEvents(keyCount, false, theirs, mines, n))
    ensures forall e :: e in ButtonEvents(keyCount, false, theirs, mines, n) ==>
              exists i :: 0 <= i < n && theirs[i] != mines[i] && e == Transition(keyCount, theirs[i], i)
  {
    if n > 0 {
      var prev := ButtonEvents(keyCount, false, theirs, mines, n - 1);
      var last := ButtonEventsAt(keyCount, false, theirs[n - 1], mines[n - 1], n - 1);
      ButtonEventsAreTransitions(keyCount, theirs, mines, n - 1);
      assert ButtonEvents(keyCount, false, theirs, mines, n) == prev + last;
      forall i | 0 <= i < n
        ensures theirs[i] != mines[i] <==> Transition(keyCount, theirs[i], i) in prev + last
      {
        var t := Transition(keyCount, theirs[i], i);
        if t in last {
          TransitionInjective(keyCount, theirs[i], i, theirs[n - 1], n - 1);
        }
        if i < n - 1 && t in prev {
          var j :| 0 <= j < n - 1 && theirs[j] != mines[j] && t == Transition(keyCount, theirs[j], j);
          TransitionInjective(keyCount, theirs[i], i, theirs[j], j);
        }
        if i == n - 1 && t in prev {
          var j :| 0 <= j < n - 1 && theirs[j] != mines[j] && t == Transition(keyCount, theirs[j], j);
          TransitionInjective(keyCount, theirs[i], i, theirs[j], j);
        }
      }
    }
  }

  /** The events of a transitioning kind follow the slots in strictly ascending order. */
  lemma {:induction false} ButtonEventsAscending(keyCount: byte, theirs: seq<bool>, mines: seq<bool>, n: nat)
    requires n <= |theirs| && n <= |mines| && n <= 0x100
    ensures SlotsAscendBelow(keyCount, ButtonEvents(keyCount, false, theirs, mines, n), n)
  {
    if n > 0 {
      var prev := ButtonEvents(keyCount, false, theirs, mines, n - 1);
      var last := ButtonEventsAt(keyCount, false, theirs[n - 1], mines[n - 1], n - 1);
      ButtonEventsAscending(keyCount, theirs, mines, n - 1);
      TransitionSlot(keyCount, theirs[n - 1], n - 1);
      if theirs[n - 1] != mines[n - 1] {
        assert last == [Transition(keyCount, theirs[n - 1], n - 1)];
      } else {
        assert last == [];
      }
      var es := prev + last;
      assert ButtonEvents(keyCount, false, theirs, mines, n) == es;
      forall a | 0 <= a < |es| ensures 0 <= SlotOf(keyCount, es[a]) < n {
        if a >= |prev| {
          assert es[a] == last[a - |prev|];
        } else {
          assert es[a] == prev[a];
        }
      }
      forall a, b | 0 <= a < b < |es| ensures SlotOf(keyCount, es[a]) < SlotOf(keyCount, es[b]) {
        if b >= |prev| {
          assert es[b] == last[b - |prev|];
          assert es[a] == prev[a];
        } else {
          assert es[a] == prev[a] && es[b] == prev[b];
        }
      }
    }
  }

  /** A mirabox kind reports only key events, touch-point slots included: presses at even
      positions, releases at odd ones, all of slots below n. */
  lemma {:induction false} MiraboxShape(keyCount: byte, theirs: seq<bool>, mines: seq<bool>, n: nat)
    requires n <= |theirs| && n <= |mines| && n <= 0x100
    ensures PressReleaseKeys(ButtonEvents(keyCount, true, theirs, mines, n), n)
  {
    if n > 0 {
      var prev := ButtonEvents(keyCount, true, theirs, mines, n - 1);
      var last := ButtonEventsAt(keyCount, true, theirs[n - 1], mines[n - 1], n - 1);
      MiraboxShape(keyCount, theirs, mines, n - 1);
      var es := prev + last;
      assert ButtonEvents(keyCount, true, theirs, mines, n) == es;
      forall a | 0 <= a < |es|
        ensures (es[a].ButtonDown? <==> a % 2 == 0) && (es[a].ButtonDown? || es[a].ButtonUp?) && es[a].key < n
      {
        if a >= |prev| {
          assert es[a] == last[a - |prev|];
        } else {
          assert es[a] == prev[a];
        }
      }
    }
  }

  /** On a mirabox kind each release follows the press of the same key. */
  lemma {:induction false} MiraboxPairs(keyCount: byte, theirs: seq<bool>, mines: seq<bool>, n: nat)
    requires n <= |theirs| && n <= |mines| && n <= 0x100
    ensures KeyReleasesFollow(ButtonEvents(keyCount, true, theirs, mines, n))
  {
    if n > 0 {
      var prev := ButtonEvents(keyCount, true, theirs, mines, n - 1);
      var last := ButtonEventsAt(keyCount, true, theirs[n - 1], mines[n - 1], n - 1);
      MiraboxPairs(keyCount, theirs, mines, n - 1);
      MiraboxShape(keyCount, theirs, mines, n - 1);
      var es := prev + last;
      assert ButtonEvents(keyCount, true, theirs, mines, n) == es;
      forall a | 0 <= a < |es| && a % 2 == 1 ensures es[a] == ButtonUp(es[a - 1].key) {
        if a >= |prev| {
          assert a == |prev| + 1;
          assert es[a] == last[1] && es[a - 1] == last[0];
        } else {
          assert es[a] == prev[a] && es[a - 1] == prev[a - 1];
        }
      }
    }
  }

  /** On a mirabox kind the presses follow the slots in strictly ascending order. */
  lemma {:induction false} MiraboxAscending(keyCount: byte, theirs: seq<bool>, mines: seq<bool>, n: nat)
    requires n <= |theirs| && n <= |mines| && n <= 0x100
    ensures PressedKeysAscend(ButtonEvents(keyCount, true, theirs, mines, n))
  {
    if n > 0 {
      var prev := ButtonEvents(keyCount, true, theirs, mines, n - 1);
      var last := ButtonEventsAt(keyCount, true, theirs[n - 1], mines[n - 1], n - 1);
      MiraboxAscending(keyCount, theirs, mines, n - 1);
      MiraboxShape(keyCount, theirs, mines, n - 1);
      var es := prev + last;
      assert ButtonEvents(keyCount, true, theirs, mines, n) == es;
      forall a, b | 0 <= a < b < |es| && a % 2 == 0 && b % 2 == 0 ensures es[a].key < es[b].key {
        if b >= |prev| {
          assert es[b] == last[b - |prev|];
          assert es[a] == prev[a];
        } else {
          assert es[a] == prev[a] && es[b] == prev[b];
        }
      }
    }
  }

  /** On a mirabox kind slot i is pressed in the events exactly when it is down now. */
  lemma {:induction false} MiraboxMembers(keyCount: byte, theirs: seq<bool>, mines: seq<bool>, n: nat)
    requires n <= |theirs| && n <= |mines| && n <= 0x100
    ensures forall i :: 0 <= i < n ==> (theirs[i] <==> ButtonDown(i) in ButtonEvents(keyCount, true, theirs, mines, n))
  {
    if n > 0 {
      var prev := ButtonEvents(keyCount, true, theirs, mines, n - 1);
      var last := ButtonEventsAt(keyCount, true, theirs[n - 1], mines[n - 1], n - 1);
      MiraboxMembers(keyCount, theirs, mines, n - 1);
      MiraboxShape(keyCount, theirs, mines, n - 1);
      var es := prev + last;
      assert ButtonEvents(keyCount, true, theirs, mines, n) == es;
      forall i | 0 <= i < n ensures theirs[i] <==> ButtonDown(i) in es {
        if i < n - 1 {
          assert ButtonDown(i) !in last;
        }
        if ButtonDown(i) in prev {
          var a :| 0 <= a < |prev| && prev[a] == ButtonDown(i);
        }
      }
    }
  }

  /** The mirabox events do not depend on the stored vector. */
  lemma {:induction false} MiraboxIgnoresState(keyCount: byte, theirs: seq<bool>, mines: seq<bool>, others: seq<bool>, n: nat)
    requires n <= |theirs| && n <= |mines| && n <= |others|
    ensures ButtonEvents(keyCount, true, theirs, mines, n) == ButtonEvents(keyCount, true, theirs, others, n)
  {
    if n > 0 {
      MiraboxIgnoresState(keyCount, theirs, mines, others, n - 1);
    }
  }

  /** On a transitioning kind, slots k .. n-1 that did not change add no events. */
  lemma {:induction false} ButtonEventsSkipUnchanged(keyCount: byte, theirs: seq<bool>, mines: seq<bool>, k: nat, n: nat)
    requires k <= n <= |theirs| && n <= |mines|
    requires forall i :: k <= i < n ==> theirs[i] == mines[i]
    ensures ButtonEvents(keyCount, false, theirs, mines, n) == ButtonEvents(keyCount, false, theirs, mines, k)
    decreases n - k
  {
    if k < n {
      ButtonEventsSkipUnchanged(keyCount, theirs, mines, k, n - 1);
    }
  }

  // ---------------------------------------------------------------- encoders

  /** The events of encoder `index`: a pulse kind reports a press as a down-up pair, the
      others report a change of state. */
  function EncoderEventsAt(pulse: bool, their: bool, mine: bool, index: nat): (es: seq<DeviceStateUpdate>)
  {
    if pulse then
      if their then [EncoderDown(AsByte(index)), EncoderUp(AsByte(index))] else []
    else if their != mine then
      if their then [EncoderDown(AsByte(index))] else [EncoderUp(AsByte(index))]
    else []
  }

  /** The events of the first `n` encoders, in encoder order. */
  function EncoderEvents(pulse: bool, theirs: seq<bool>, mines: seq<bool>, n: nat): (es: seq<DeviceStateUpdate>)
    requires n <= |theirs| && n <= |mines|
  {
    if n == 0 then []
    else EncoderEvents(pulse, theirs, mines, n - 1) + EncoderEventsAt(pulse, theirs[n - 1], mines[n - 1], n - 1)
  }

  /** A transitioning kind reports encoder i exactly when its state changed, as a press when
      it is now down and a release otherwise, in encoder order, and nothing else. */
  lemma {:induction false} EncoderEventsAreTransitions(theirs: seq<bool>, mines: seq<bool>, n: nat)
    requires n <= |theirs| && n <= |mines| && n <= 0x100
    ensures forall i :: 0 <= i < n ==> (theirs[i] != mines[i] && theirs[i] <==> EncoderDown(i) in EncoderEvents(false, theirs, mines, n))
    ensures forall i :: 0 <= i < n ==> (theirs[i] != mines[i] && !theirs[i] <==> EncoderUp(i) in EncoderEvents(false, theirs, mines, n))
    ensures EncodersAscendBelow(EncoderEvents(false, theirs, mines, n), n)
  {
    if n > 0 {
      var prev := EncoderEvents(false, theirs, mines, n - 1);
      var last := EncoderEventsAt(false, theirs[n - 1], mines[n - 1], n - 1);
      EncoderEventsAreTransitions(theirs, mines, n - 1);
      var es := prev + last;
      assert EncoderEvents(false, theirs, mines, n) == es;
      forall a | 0 <= a < |es| ensures (es[a].EncoderDown? || es[a].EncoderUp?) && es[a].encoder < n {
        if a >= |prev| {
          assert es[a] == last[a - |prev|];
        } else {
          assert es[a] == prev[a];
        }
      }
      forall a, b | 0 <= a < b < |es| ensures es[a].encoder < es[b].encoder {
        if b >= |prev| {
          assert es[b] == last[b - |prev|];
          assert es[a] == prev[a];
        } else {
          assert es[a] == prev[a] && es[b] == prev[b];
        }
      }
      forall i | 0 <= i < n
        ensures (theirs[i] != mines[i] && theirs[i] <==> EncoderDown(i) in es)
        ensures (theirs[i] != mines[i] && !theirs[i] <==> EncoderUp(i) in es)
      {
        if EncoderDown(i) in prev {
          var a :| 0 <= a < |prev| && prev[a] == EncoderDown(i);
        }
        if EncoderUp(i) in prev {
          var a :| 0 <= a < |prev| && prev[a] == EncoderUp(i);
        }
      }
    }
  }

  /** A pulse kind reports presses at even positions and releases at odd ones, all of
      encoders below n. */
  lemma {:induction false} PulseShape(theirs: seq<bool>, mines: seq<bool>, n: nat)
    requires n <= |theirs| && n <= |mines| && n <= 0x100
    ensures PressReleaseEncoders(EncoderEvents(true, theirs, mines, n), n)
  {
    if n > 0 {
      var prev := EncoderEvents(true, theirs, mines, n - 1);
      var last := EncoderEventsAt(true, theirs[n - 1], mines[n - 1], n - 1);
      PulseShape(theirs, mines, n - 1);
      var es := prev + last;
      assert EncoderEvents(true, theirs, mines, n) == es;
      forall a | 0 <= a < |es|
        ensures (es[a].EncoderDown? <==> a % 2 == 0) && (es[a].EncoderDown? || es[a].EncoderUp?) && es[a].encoder < n
      {
        if a >= |prev| {
          assert es[a] == last[a - |prev|];
        } else {
          assert es[a] == prev[a];
        }
      }
    }
  }

  /** On a pulse kind each release follows the press of the same encoder. */
  lemma {:induction false} PulsePairs(theirs: seq<bool>, mines: seq<bool>, n: nat)
    requires n <= |theirs| && n <= |mines| && n <= 0x100
    ensures EncoderReleasesFollow(EncoderEvents(true, theirs, mines, n))
  {
    if n > 0 {
      var prev := EncoderEvents(true, theirs, mines, n - 1);
      var last := EncoderEventsAt(true, theirs[n - 1], mines[n - 1], n - 1);
      PulsePairs(theirs, mines, n - 1);
      PulseShape(theirs, mines, n - 1);
      var es := prev + last;
      assert EncoderEvents(true, theirs, mines, n) == es;
      forall a | 0 <= a < |es| && a % 2 == 1 ensures es[a] == EncoderUp(es[a - 1].encoder) {
        if a >= |prev| {
          assert a == |prev| + 1;
          assert es[a] == last[1] && es[a - 1] == last[0];
        } else {
          assert es[a] == prev[a] && es[a - 1] == prev[a - 1];
        }
      }
    }
  }

  /** On a pulse kind encoder i is pressed in the events exactly when it is down now. */
  lemma {:induction false} PulseMembers(theirs: seq<bool>, mines: seq<bool>, n: nat)
    requires n <= |theirs| && n <= |mines| && n <= 0x100
    ensures forall i :: 0 <= i < n ==> (theirs[i] <==> EncoderDown(i) in EncoderEvents(true, theirs, mines, n))
  {
    if n > 0 {
      var prev := EncoderEvents(true, theirs, mines, n - 1);
      var last := EncoderEventsAt(true, theirs[n - 1], mines[n - 1], n - 1);
      PulseMembers(theirs, mines, n - 1);
      PulseShape(theirs, mines, n - 1);
      var es := prev + last;
      assert EncoderEvents(true, theirs, mines, n) == es;
      forall i | 0 <= i < n ensures theirs[i] <==> EncoderDown(i) in es {
        if i < n - 1 {
          assert EncoderDown(i) !in last;
        }
        if EncoderDown(i) in prev {
          var a :| 0 <= a < |prev| && prev[a] == EncoderDown(i);
        }
      }
    }
  }

  /** The pulse events do not depend on the stored vector. */
  lemma {:induction false} PulseIgnoresState(theirs: seq<bool>, mines: seq<bool>, others: seq<bool>, n: nat)
    requires n <= |theirs| && n <= |mines| && n <= |others|
    ensures EncoderEvents(true, theirs, mines, n) == EncoderEvents(true, theirs, others, n)
  {
    if n > 0 {
      PulseIgnoresState(theirs, mines, others, n - 1);
    }
  }

  /** A transitioning kind reports no encoder event when nothing changed. */
  lemma {:induction false} EncoderEventsQuiet(theirs: seq<bool>, mines: seq<bool>, n: nat)
    requires n <= |theirs| && n <= |mines|
    requires forall i :: 0 <= i < n ==> theirs[i] == mines[i]
    ensures EncoderEvents(false, theirs, mines, n) == []
  {
    if n > 0 {
      EncoderEventsQuiet(theirs, mines, n - 1);
    }
  }

  // ---------------------------------------------------------------- twists

  /** The twist events of the first `n` encoders: one per non-zero change, in encoder order. */
  function TwistEvents(twists: seq<i8>, n: nat): (es: seq<DeviceStateUpdate>)
    requires n <= |twists|
  {
    if n == 0 then []
    else TwistEvents(twists, n - 1) + (if twists[n - 1] != 0 then [EncoderTwist(AsByte(n - 1), twists[n - 1])] else [])
  }

  /** Encoder i is reported, with its change, exactly when the change is non-zero; every
      event is a twist by a non-zero amount, in strictly ascending encoder order. */
  lemma {:induction false} TwistEventsNonZero(twists: seq<i8>, n: nat)
    requires n <= |twists| && n <= 0x100
    ensures forall i :: 0 <= i < n ==> (twists[i] != 0 <==> EncoderTwist(i, twists[i]) in TwistEvents(twists, n))
    ensures NonZeroTwistsAscend(TwistEvents(twists, n), twists, n)
  {
    if n > 0 {
      var prev := TwistEvents(twists, n - 1);
      var last := if twists[n - 1] != 0 then [EncoderTwist(AsByte(n - 1), twists[n - 1])] else [];
      TwistEventsNonZero(twists, n - 1);
      var es := prev + last;
      assert TwistEvents(twists, n) == es;
      forall a | 0 <= a < |es|
        ensures es[a].EncoderTwist? && es[a].encoder < n && es[a].ticks != 0 && es[a].ticks == twists[es[a].encoder]
      {
        if a >= |prev| {
          assert es[a] == last[a - |prev|];
        } else {
          assert es[a] == prev[a];
        }
      }
      forall a, b | 0 <= a < b < |es| ensures es[a].encoder < es[b].encoder {
        if b >= |prev| {
          assert es[b] == last[b - |prev|];
          assert es[a] == prev[a];
        } else {
          assert es[a] == prev[a] && es[b] == prev[b];
        }
      }
      forall i | 0 <= i < n ensures twists[i] != 0 <==> EncoderTwist(i, twists[i]) in es {
        if EncoderTwist(i, twists[i]) in prev {
          var a :| 0 <= a < |prev| && prev[a] == EncoderTwist(i, twists[i]);
        }
      }
    }
  }

  // ---------------------------------------------------------------- one read

  /** The events `read` returns for `input` given the stored vectors; the vectors are walked
      together, so only the slots both have are compared. */
  function Updates(keyCount: byte, quirks: Quirks, buttons: seq<bool>, encoders: seq<bool>,
                   input: Codec.StreamDeckInput): seq<DeviceStateUpdate>
  {
    match input
    case ButtonStateChange(theirs) =>
      ButtonEvents(keyCount, quirks.mirabox, theirs, buttons, Min(|theirs|, |buttons|))
    case EncoderStateChange(theirs) =>
      EncoderEvents(quirks.pulseEncoders, theirs, encoders, Min(|theirs|, |encoders|))
    case EncoderTwist(twists) => TwistEvents(twists, |twists|)
    case TouchScreenPress(x, y) => [TouchScreenPress(x, y)]
    case TouchScreenLongPress(x, y) => [TouchScreenLongPress(x, y)]
    case TouchScreenSwipe(s, e) => [TouchScreenSwipe(s, e)]
    case NoData => []
  }

  /** The stored button vector after `input`: replaced by every button report. */
  function NextButtons(buttons: seq<bool>, input: Codec.StreamDeckInput): (next: seq<bool>)
  {
    if input.ButtonStateChange? then input.buttons else buttons
  }

  /** The stored encoder vector after `input`: replaced by every encoder report. */
  function NextEncoders(encoders: seq<bool>, input: Codec.StreamDeckInput): (next: seq<bool>)
  {
    if input.EncoderStateChange? then input.encoders else encoders
  }

  /** Touch-screen reports are forwarded as one identical event, twists and touch reports
      leave the stored vectors alone, and an empty report yields nothing. */
  lemma UpdatesForward(keyCount: byte, quirks: Quirks, buttons: seq<bool>, encoders: seq<bool>, input: Codec.StreamDeckInput)
    ensures input.NoData? ==> Updates(keyCount, quirks, buttons, encoders, input) == []
    ensures input.TouchScreenPress? ==>
              Updates(keyCount, quirks, buttons, encoders, input) == [TouchScreenPress(input.x, input.y)]
    ensures input.TouchScreenLongPress? ==>
              Updates(keyCount, quirks, buttons, encoders, input) == [TouchScreenLongPress(input.x, input.y)]
    ensures input.TouchScreenSwipe? ==>
              Updates(keyCount, quirks, buttons, encoders, input) == [TouchScreenSwipe(input.start, input.end)]
    ensures !input.ButtonStateChange? && !input.EncoderStateChange? ==>
              NextButtons(buttons, input) == buttons && NextEncoders(encoders, input) == encoders
  {
  }

  /** On a kind that reports transitions, reading the same button or encoder snapshot a
      second time yields no events. */
  lemma SecondReadQuiet(keyCount: byte, quirks: Quirks, buttons: seq<bool>, encoders: seq<bool>,
                        input: Codec.StreamDeckInput)
    requires !quirks.mirabox && !quirks.pulseEncoders
    requires input.ButtonStateChange? || input.EncoderStateChange?
    ensures Updates(keyCount, quirks, NextButtons(buttons, input), NextEncoders(encoders, input), input) == []
  {
    if input.ButtonStateChange? {
      ButtonEventsSkipUnchanged(keyCount, input.buttons, input.buttons, 0, |input.buttons|);
    } else {
      EncoderEventsQuiet(input.encoders, input.encoders, |input.encoders|);
    }
  }

  /** From the all-released state, slots 2 and 5 going down give [ButtonDown 2, ButtonDown 5]
      on a transitioning kind and [ButtonDown 2, ButtonUp 2, ButtonDown 5, ButtonUp 5] on a
      mirabox kind. */
  lemma TwoPressesExample()
    ensures var theirs := [false, false, true, false, false, true];
      var mines := [false, false, false, false, false, false];
      && Updates(15, Quirks(0, false, false), mines, [], Codec.ButtonStateChange(theirs))
           == [ButtonDown(2), ButtonDown(5)]
      && Updates(15, Quirks(0, true, false), mines, [], Codec.ButtonStateChange(theirs))
           == [ButtonDown(2), ButtonUp(2), ButtonDown(5), ButtonUp(5)]
  {
    var theirs := [false, false, true, false, false, true];
    var mines := [false, false, false, false, false, false];
    assert ButtonEvents(15, false, theirs, mines, 3) == [ButtonDown(2)];
    assert ButtonEvents(15, false, theirs, mines, 6) == [ButtonDown(2), ButtonDown(5)];
    assert ButtonEvents(15, true, theirs, mines, 3) == [ButtonDown(2), ButtonUp(2)];
    assert ButtonEvents(15, true, theirs, mines, 6) == [ButtonDown(2), ButtonUp(2), ButtonDown(5), ButtonUp(5)];
  }

  /** On a 15-key kind starting all released, a snapshot with only key 7 down yields
      [ButtonDown 7], and an all-released snapshot after it yields [ButtonUp 7]. */
  lemma PressThenReleaseExample()
    ensures var none := seq(15, _ => false);
      var seven := none[7 := true];
      && Updates(15, Quirks(0, false, false), none, [], Codec.ButtonStateChange(seven)) == [ButtonDown(7)]
      && Updates(15, Quirks(0, false, false), NextButtons(none, Codec.ButtonStateChange(seven)), [],
                 Codec.ButtonStateChange(none)) == [ButtonUp(7)]
  {
    var none := seq(15, _ => false);
    var seven := none[7 := true];
    ButtonEventsSkipUnchanged(15, seven, none, 0, 7);
    ButtonEventsSkipUnchanged(15, seven, none, 8, 15);
    ButtonEventsSkipUnchanged(15, none, seven, 0, 7);
    ButtonEventsSkipUnchanged(15, none, seven, 8, 15);
  }

  /** A touch-point slot past the keys is reported as that touch point. */
  lemma TouchPointExample()
    ensures Updates(8, Quirks(2, false, false), [false, false, false, false, false, false, false, false, false, false],
                    [], Codec.ButtonStateChange([false, false, false, false, false, false, false, false, false, true]))
            == [TouchPointDown(1)]
  {
    var theirs := [false, false, false, false, false, false, false, false, false, true];
    var mines := [false, false, false, false, false, false, false, false, false, false];
    assert ButtonEvents(8, false, theirs, mines, 9) == [];
  }

  // ---------------------------------------------------------------- the loops of `read`

  /** The `ButtonStateChange` arm of `read`: walks the reported and the stored button
      vectors together. */
  method CollectButtonUpdates(keyCount: byte, mirabox: bool, theirs: seq<bool>, mines: seq<bool>)
    returns (updates: seq<DeviceStateUpdate>)
    ensures updates == ButtonEvents(keyCount, mirabox, theirs, mines, Min(|theirs|, |mines|))
  {
    updates := [];
    var n := Min(|theirs|, |mines|);
    var index := 0;
    while index < n
      invariant 0 <= index <= n
      invariant updates == ButtonEvents(keyCount, mirabox, theirs, mines, index)
    {
      var their := theirs[index];
      var mine := mines[index];
      if mirabox {
        if their {
          updates := updates + [ButtonDown(AsByte(index)), ButtonUp(AsByte(index))];
        }
      } else if their != mine {
        if index < keyCount {
          if their {
            updates := updates + [ButtonDown(AsByte(index))];
          } else {
            updates := updates + [ButtonUp(AsByte(index))];
          }
        } else if their {
          updates := updates + [TouchPointDown(TouchIndex(index, keyCount))];
        } else {
          updates := updates + [TouchPointUp(TouchIndex(index, keyCount))];
        }
      }
      index := index + 1;
    }
  }

  /** The `EncoderStateChange` arm of `read`. */
  method CollectEncoderUpdates(pulse: bool, theirs: seq<bool>, mines: seq<bool>)
    returns (updates: seq<DeviceStateUpdate>)
    ensures updates == EncoderEvents(pulse, theirs, mines, Min(|theirs|, |mines|))
  {
    updates := [];
    var n := Min(|theirs|, |mines|);
    var index := 0;
    while index < n
      invariant 0 <= index <= n
      invariant updates == EncoderEvents(pulse, theirs, mines, index)
    {
      var their := theirs[index];
      var mine := mines[index];
      if pulse {
        if their {
          updates := updates + [EncoderDown(AsByte(index)), EncoderUp(AsByte(index))];
        }
      } else if their != mine {
        if their {
          updates := updates + [EncoderDown(AsByte(index))];
        } else {
          updates := updates + [EncoderUp(AsByte(index))];
        }
      }
      index := index + 1;
    }
  }

  /** The `EncoderTwist` arm of `read`. */
  method CollectTwistUpdates(twists: seq<i8>) returns (updates: seq<DeviceStateUpdate>)
    ensures updates == TwistEvents(twists, |twists|)
  {
    updates := [];
    var index := 0;
    while index < |twists|
      invariant 0 <= index <= |twists|
      invariant updates == TwistEvents(twists, index)
    {
      var change := twists[index];
      if change != 0 {
        updates := updates + [EncoderTwist(AsByte(index), change)];
      }
      index := index + 1;
    }
  }

  // ---------------------------------------------------------------- the reader

  /** `AsyncDeviceStateReader` with its `DeviceState`. */
  class DeviceStateReader {
    const kind: Kind
    const quirks: Quirks
    var buttons: seq<bool>
    var encoders: seq<bool>

    /** `get_reader`: every key, touch point and encoder starts released. */
    constructor GetReader(kind: Kind, quirks: Quirks)
      ensures this.kind == kind && this.quirks == quirks
      ensures |buttons| == KeyCount(kind) + quirks.touchpointCount && forall i :: 0 <= i < |buttons| ==> !buttons[i]
      ensures |encoders| == EncoderCount(kind) && forall i :: 0 <= i < |encoders| ==> !encoders[i]
    {
      this.kind := kind;
      this.quirks := quirks;
      buttons := seq(KeyCount(kind) as nat + quirks.touchpointCount as nat, _ => false);
      encoders := seq(EncoderCount(kind) as nat, _ => false);
    }

    /** `read`: a failed read is passed on and changes nothing; otherwise the events of the
      report are returned and the vector it carries replaces the stored one. */
    method Read(input: Result<Codec.StreamDeckInput, Codec.StreamDeckError>)
      returns (r: Result<seq<DeviceStateUpdate>, Codec.StreamDeckError>)
      modifies this
      ensures input.Failure? ==> r == Failure(input.error) && buttons == old(buttons) && encoders == old(encoders)
      ensures input.Success? ==>
                && r == Success(Updates(KeyCount(kind), quirks, old(buttons), old(encoders), input.value))
                && buttons == NextButtons(old(buttons), input.value)
                && encoders == NextEncoders(old(encoders), input.value)
    {
      if input.Failure? {
        return Failure(input.error);
      }
      var updates: seq<DeviceStateUpdate>;
      match input.value {
        case ButtonStateChange(theirs) =>
          updates := CollectButtonUpdates(KeyCount(kind), quirks.mirabox, theirs, buttons);
          buttons := theirs;
        case EncoderStateChange(theirs) =>
          updates := CollectEncoderUpdates(quirks.pulseEncoders, theirs, encoders);
          encoders := theirs;
        case EncoderTwist(twists) =>
          updates := CollectTwistUpdates(twists);
        case TouchScreenPress(x, y) =>
          updates := [TouchScreenPress(x, y)];
        case TouchScreenLongPress(x, y) =>
          updates := [TouchScreenLongPress(x, y)];
        case TouchScreenSwipe(st, en) =>
          updates := [TouchScreenSwipe(st, en)];
        case NoData =>
          updates := [];
      }
      return Success(updates);
    }
  }
}
