/**
 The keystroke state machine: a timer polls the pressed keys, and differences to the previous poll
 become key and modifier events. `Valid` is what every run of polls keeps.
 */
module KeyHandler {
  import opened Machine

  const SLOTS: nat := 10
  const CAPS_LOCK: nat := 0x7039

  /** A modifier map as the set of its bits. */
  type Mask = set<nat>

  const MODIFIERS_SHIFT: Mask := {1, 5}

  function Xor(a: Mask, b: Mask): Mask {
    (a - b) + (b - a)
  }

  datatype Slot = Slot(code: nat, strokes: nat, current: bool)

  const EMPTY_SLOT := Slot(0, 0, false)

  datatype Poll = Poll(modifiers: Mask, codes: seq<nat>)

  datatype Event =
    | KeyDown(code: nat, modifiers: Mask)
    | KeyUp(code: nat, modifiers: Mask)
    | ModifierDown(mask: Mask)
    | ModifierUp(mask: Mask)

  // ----- Histories of events -----

  function Front<T>(s: seq<T>): seq<T>
    requires s != []
  {
    s[..|s| - 1]
  }

  function Last<T>(s: seq<T>): T
    requires s != []
  {
    s[|s| - 1]
  }

  /** The key went down and has not come up since. */
  predicate IsDown(queue: seq<Event>, key: nat) {
    if queue == [] then false
    else match Last(queue)
      case KeyDown(code, _) => code == key || IsDown(Front(queue), key)
      case KeyUp(code, _) => code != key && IsDown(Front(queue), key)
      case _ => IsDown(Front(queue), key)
  }

  /** Every KEY_UP of the key comes while the key is down. */
  predicate UpsFollowDowns(queue: seq<Event>, key: nat) {
    queue == [] ||
    (UpsFollowDowns(Front(queue), key) &&
     (Last(queue).KeyUp? && Last(queue).code == key ==> IsDown(Front(queue), key)))
  }

  predicate DownAt(queue: seq<Event>, j: int, key: nat) {
    0 <= j < |queue| && queue[j].KeyDown? && queue[j].code == key
  }

  predicate UpAt(queue: seq<Event>, j: int, key: nat) {
    0 <= j < |queue| && queue[j].KeyUp? && queue[j].code == key
  }

  /** IsDown in terms of positions. */
  lemma {:induction false} IsDownMeans(queue: seq<Event>, key: nat)
    ensures IsDown(queue, key) <==>
            exists j :: DownAt(queue, j, key) && forall i :: j < i ==> !UpAt(queue, i, key)
  {
    if queue != [] {
      var front := Front(queue);
      IsDownMeans(front, key);
      var last := |queue| - 1;
      assert forall j :: j < last ==> (DownAt(queue, j, key) <==> DownAt(front, j, key));
      assert forall j :: j < last ==> (UpAt(queue, j, key) <==> UpAt(front, j, key));
      if IsDown(front, key) && !UpAt(queue, last, key) {
        var j :| DownAt(front, j, key) && forall i :: j < i ==> !UpAt(front, i, key);
        assert DownAt(queue, j, key) && forall i :: j < i ==> !UpAt(queue, i, key);
      }
      if DownAt(queue, last, key) {
        assert forall i :: last < i ==> !UpAt(queue, i, key);
      }
      if j :| DownAt(queue, j, key) && forall i :: j < i ==> !UpAt(queue, i, key) {
        if j < last {
          assert DownAt(front, j, key) && forall i :: j < i ==> !UpAt(front, i, key);
          assert !UpAt(queue, last, key);
        }
      }
    }
  }

  /** Each KEY_UP follows a KEY_DOWN of the same key with no KEY_UP of it in between. */
  lemma {:induction false} UpsFollowDownsMeans(queue: seq<Event>, key: nat, i: nat)
    requires UpsFollowDowns(queue, key) && UpAt(queue, i, key)
    ensures exists j :: j < i && DownAt(queue, j, key) && forall k :: j < k < i ==> !UpAt(queue, k, key)
  {
    var front := Front(queue);
    if i < |queue| - 1 {
      UpsFollowDownsMeans(front, key, i);
      var j :| j < i && DownAt(front, j, key) && forall k :: j < k < i ==> !UpAt(front, k, key);
      assert DownAt(queue, j, key);
      assert forall k :: j < k < i ==> (UpAt(queue, k, key) <==> UpAt(front, k, key));
    } else {
      IsDownMeans(front, key);
      var j :| DownAt(front, j, key) && forall k :: j < k ==> !UpAt(front, k, key);
      assert DownAt(queue, j, key);
      assert forall k :: j < k < i ==> (UpAt(queue, k, key) <==> UpAt(front, k, key));
    }
  }

  /** The mask after one event. */
  function Apply(mask: Mask, e: Event): Mask {
    match e
    case ModifierUp(m) => mask - m
    case ModifierDown(m) => mask + m
    case _ => mask
  }

  /** The modifier mask a listener arrives at. */
  function Replay(queue: seq<Event>): Mask {
    if queue == [] then {} else Apply(Replay(Front(queue)), Last(queue))
  }

  /** What one more event does to the histories. */
  lemma {:induction false} Append(queue: seq<Event>, e: Event)
    ensures forall key :: IsDown(queue + [e], key) <==>
              (e.KeyDown? && e.code == key) || (!(e.KeyUp? && e.code == key) && IsDown(queue, key))
    ensures forall key :: UpsFollowDowns(queue + [e], key) <==>
              UpsFollowDowns(queue, key) && (e.KeyUp? && e.code == key ==> IsDown(queue, key))
  {
    forall key
      ensures IsDown(queue + [e], key) <==>
                (e.KeyDown? && e.code == key) || (!(e.KeyUp? && e.code == key) && IsDown(queue, key))
      ensures UpsFollowDowns(queue + [e], key) <==>
                UpsFollowDowns(queue, key) && (e.KeyUp? && e.code == key ==> IsDown(queue, key))
    {
      AppendKey(queue, e, key);
    }
  }

  lemma {:induction false} AppendReplay(queue: seq<Event>, e: Event)
    ensures Replay(queue + [e]) == Apply(Replay(queue), e)
  {
    AppendSplits(queue, e);
  }

  lemma AppendSplits(queue: seq<Event>, e: Event)
    ensures Front(queue + [e]) == queue && Last(queue + [e]) == e
  {
  }

  lemma {:induction false} AppendKey(queue: seq<Event>, e: Event, key: nat)
    ensures IsDown(queue + [e], key) <==>
              (e.KeyDown? && e.code == key) || (!(e.KeyUp? && e.code == key) && IsDown(queue, key))
    ensures UpsFollowDowns(queue + [e], key) <==>
              UpsFollowDowns(queue, key) && (e.KeyUp? && e.code == key ==> IsDown(queue, key))
  {
    AppendSplits(queue, e);
  }

  // ----- Histories of polls -----

  predicate Pressed(polls: seq<Poll>, key: nat) {
    polls != [] && key in Last(polls).codes
  }

  function LastModifiers(polls: seq<Poll>): Mask {
    if polls == [] then {} else Last(polls).modifiers
  }

  /** How often the key went from absent to present. */
  function Presses(polls: seq<Poll>, key: nat): nat {
    if polls == [] then 0
    else Presses(Front(polls), key) + (if Pressed(polls, key) && !Pressed(Front(polls), key) then 1 else 0)
  }

  lemma PollStep(polls: seq<Poll>, p: Poll)
    ensures LastModifiers(polls + [p]) == p.modifiers
    ensures forall key :: Pressed(polls + [p], key) <==> key in p.codes
  {
    assert Last(polls + [p]) == p;
  }

  lemma {:induction false} PressesStep(polls: seq<Poll>, p: Poll, key: nat)
    ensures Presses(polls + [p], key) ==
              Presses(polls, key) + (if key in p.codes && !Pressed(polls, key) then 1 else 0)
  {
    assert Front(polls + [p]) == polls && Last(polls + [p]) == p;
  }

  // ----- The table -----

  ghost predicate DistinctCodes(s: seq<Slot>) {
    forall i, j :: 0 <= i < j < |s| && s[i].code != 0 ==> s[i].code != s[j].code
  }

  /** At most one slot is the current stroke, and it holds a key. */
  ghost predicate OneCurrent(s: seq<Slot>) {
    && (forall i :: 0 <= i < |s| && s[i].current ==> s[i].code != 0)
    && (forall i, j :: 0 <= i < j < |s| && s[i].current ==> !s[j].current)
  }

  ghost predicate AllIn(s: seq<Slot>, codes: seq<nat>) {
    forall i :: 0 <= i < |s| && s[i].code != 0 ==> s[i].code in codes
  }

  ghost predicate Stored(s: seq<Slot>, key: nat) {
    key != 0 && exists i :: 0 <= i < |s| && s[i].code == key
  }

  /**
   The stored keys are exactly the keys that are down, counting one whose event is still pending, and no
   key but Caps Lock ever came up otherwise.
   */
  ghost predicate QueueMatches(queue: seq<Event>, s: seq<Slot>, pending: Option<nat>) {
    && (forall key: nat :: Stored(s, key) <==> IsDown(queue, key) || pending == Some(key))
    && (forall key :: key != CAPS_LOCK ==> UpsFollowDowns(queue, key))
  }

  /** Codes stored in the first `n` slots that are no longer pressed. */
  function Gone(s: seq<Slot>, codes: seq<nat>, n: nat): (r: seq<nat>)
    requires n <= |s|
    ensures |r| <= n
  {
    if n == 0 then []
    else Gone(s, codes, n - 1) + (if s[n - 1].code != 0 && s[n - 1].code !in codes then [s[n - 1].code] else [])
  }

  /** The keys a poll releases: the stored ones that are no longer pressed, and Caps Lock when its press ended. */
  function Released(s: seq<Slot>, codes: seq<nat>, capsChanged: bool): seq<nat> {
    Gone(s, codes, |s|) + (if capsChanged && CAPS_LOCK !in codes then [CAPS_LOCK] else [])
  }

  lemma {:induction false} GoneByCode(s: seq<Slot>, t: seq<Slot>, codes: seq<nat>, n: nat)
    requires n <= |s| == |t| && forall i :: 0 <= i < |s| ==> s[i].code == t[i].code
    ensures Gone(s, codes, n) == Gone(t, codes, n)
  {
    if n > 0 {
      GoneByCode(s, t, codes, n - 1);
    }
  }

  lemma {:induction false} GoneFrom(s: seq<Slot>, codes: seq<nat>, n: nat)
    requires n <= |s| && DistinctCodes(s)
    ensures forall k :: k in Gone(s, codes, n) ==> k !in codes && k != 0 && exists i :: 0 <= i < n && s[i].code == k
    ensures forall i :: 0 <= i < n && s[i].code != 0 && s[i].code !in codes ==> s[i].code in Gone(s, codes, n)
    ensures forall i, j :: 0 <= i < j < |Gone(s, codes, n)| ==> Gone(s, codes, n)[i] != Gone(s, codes, n)[j]
  {
    if n > 0 {
      GoneFrom(s, codes, n - 1);
    }
  }

  /** After a release every key that is down is still stored or among the released ones, never both. */
  lemma KeptOrGone(queue: seq<Event>, was: seq<Slot>, kept: seq<Slot>, codes: seq<nat>, released: seq<nat>)
    requires DistinctCodes(was) && QueueMatches(queue, was, None) && |kept| == |was|
    requires forall i :: 0 <= i < |was| ==> kept[i] == if was[i].code in codes then was[i] else EMPTY_SLOT
    requires exists caps :: released == Released(was, codes, caps)
    ensures forall key :: Stored(kept, key) ==> IsDown(queue, key) && key !in released
    ensures forall i :: 0 <= i < |released| && released[i] != CAPS_LOCK ==> IsDown(queue, released[i])
    ensures forall i, j :: 0 <= i < j < |released| && released[i] != CAPS_LOCK ==> released[i] != released[j]
    ensures forall key :: IsDown(queue, key) ==> Stored(kept, key) || key in released
  {
    GoneFrom(was, codes, |was|);
    forall i | 0 <= i < |released| && released[i] != CAPS_LOCK ensures IsDown(queue, released[i]) {
      assert released[i] in Gone(was, codes, |was|);
      assert Stored(was, released[i]);
    }
    forall key | Stored(kept, key) ensures IsDown(queue, key) && key !in released {
      var i :| 0 <= i < |kept| && kept[i].code == key;
      assert kept[i] == was[i] && key in codes;
      assert Stored(was, key);
    }
    forall key | IsDown(queue, key) ensures Stored(kept, key) || key in released {
      assert Stored(was, key);
      var i :| 0 <= i < |was| && was[i].code == key;
      assert key in codes ==> kept[i].code == key;
    }
  }

  /** The keys that are down are the kept ones and those whose release is still to be reported. */
  ghost predicate Releasing(queue: seq<Event>, kept: seq<Slot>, rest: seq<nat>) {
    && (forall key :: key != CAPS_LOCK ==> UpsFollowDowns(queue, key))
    && (forall key :: Stored(kept, key) ==> IsDown(queue, key) && key !in rest)
    && (forall i :: 0 <= i < |rest| && rest[i] != CAPS_LOCK ==> IsDown(queue, rest[i]))
    && (forall i, j :: 0 <= i < j < |rest| && rest[i] != CAPS_LOCK ==> rest[i] != rest[j])
    && (forall key :: IsDown(queue, key) ==> Stored(kept, key) || key in rest)
  }

  lemma ReleasingStep(queue: seq<Event>, kept: seq<Slot>, rest: seq<nat>, mods: Mask)
    requires rest != [] && Releasing(queue, kept, rest)
    ensures Releasing(queue + [KeyUp(rest[0], mods)], kept, rest[1..])
  {
    Append(queue, KeyUp(rest[0], mods));
    assert rest == [rest[0]] + rest[1..];
  }

  /** A key put into a free slot is the only new one. */
  lemma StoredStep(before: seq<Slot>, after: seq<Slot>, added: Option<nat>)
    requires |before| == |after|
    requires forall i :: 0 <= i < |before| && added != Some(i) ==> after[i].code == before[i].code
    requires added.Some? ==> added.value < |after| && before[added.value].code == 0 && after[added.value].code != 0
    ensures forall key :: Stored(after, key) <==>
              Stored(before, key) || (added.Some? && key == after[added.value].code)
  {
    forall key
      ensures Stored(after, key) <==> Stored(before, key) || (added.Some? && key == after[added.value].code)
    {
      if Stored(before, key) {
        var i :| 0 <= i < |before| && before[i].code == key;
        assert after[i].code == key;
      }
      if Stored(after, key) {
        var i :| 0 <= i < |after| && after[i].code == key;
        assert added != Some(i) ==> before[i].code == key;
      }
    }
  }

  /**
   A pressed key is missing from the table only when the table is full or another key, which was not
   stored before, just came in and is reported.
   */
  ghost predicate NewKeyReported(before: seq<Slot>, after: seq<Slot>, codes: seq<nat>, key: Option<nat>) {
    || (forall c :: c in codes && c != 0 ==> Stored(after, c))
    || (forall i :: 0 <= i < |after| ==> after[i].code != 0)
    || (key.Some? && key.value in codes && !Stored(before, key.value))
  }

  /** A reported key is stored, and a new one is reported. */
  lemma KeySelected(queue: seq<Event>, kept: seq<Slot>, after: seq<Slot>, codes: seq<nat>, added: Option<nat>, key: Option<nat>)
    requires QueueMatches(queue, kept, None) && |kept| == |after|
    requires forall i :: 0 <= i < |kept| && added != Some(i) ==> after[i].code == kept[i].code
    requires added.Some? ==>
               && added.value < |after| && kept[added.value].code == 0
               && var code := after[added.value].code; code != 0 && key == Some(code) && code in codes && !Stored(kept, code)
    requires added.None? ==>
               (forall c :: c in codes && c != 0 ==> Stored(after, c)) || (forall i :: 0 <= i < |after| ==> after[i].code != 0)
    requires key.Some? ==> Stored(after, key.value)
    ensures QueueMatches(queue, after, key) && NewKeyReported(kept, after, codes, key)
  {
    StoredStep(kept, after, added);
  }

  /** A pressed key that was stored is kept. */
  lemma NewKeyWas(was: seq<Slot>, kept: seq<Slot>, after: seq<Slot>, codes: seq<nat>, key: Option<nat>)
    requires |was| == |kept| && NewKeyReported(kept, after, codes, key)
    requires forall i :: 0 <= i < |was| && was[i].code in codes ==> kept[i].code == was[i].code
    ensures NewKeyReported(was, after, codes, key)
  {
    if key.Some? && key.value in codes && Stored(was, key.value) {
      var i :| 0 <= i < |was| && was[i].code == key.value;
      assert kept[i].code == key.value;
    }
  }

  /** Strokes after the first `n` codes are counted; nothing else changes. */
  ghost predicate Counted(was: seq<Slot>, now: seq<Slot>, codes: seq<nat>, n: nat)
    requires n <= |codes|
  {
    && |now| == |was|
    && (forall i :: 0 <= i < |was| ==> now[i].code == was[i].code && now[i].current == was[i].current)
    && (forall i :: 0 <= i < |was| && was[i].code != 0 ==>
          now[i].strokes == was[i].strokes + Times(codes, n, was[i].code))
  }

  lemma CountedStep(was: seq<Slot>, now: seq<Slot>, codes: seq<nat>, n: nat, k: nat)
    requires DistinctCodes(was) && n < |codes| && Counted(was, now, codes, n)
    requires k < |now| && now[k].code == codes[n]
    ensures Counted(was, now[k := now[k].(strokes := now[k].strokes + 1)], codes, n + 1)
  {
    forall i | 0 <= i < |was| && was[i].code != 0 && i != k ensures was[i].code != codes[n] {
      assert was[k].code == codes[n];
      assert k < i ==> was[k].code != 0 ==> was[k].code != was[i].code;
    }
  }

  // ----- The events of a poll -----

  /** Caps Lock counts as shift in the events of released keys. */
  function ReleaseModifiers(mods: Mask, capsOn: bool): Mask {
    if capsOn then mods + MODIFIERS_SHIFT else mods
  }

  function KeyUps(keys: seq<nat>, mods: Mask): seq<Event> {
    seq(|keys|, i requires 0 <= i < |keys| => KeyUp(keys[i], mods))
  }

  function KeyDowns(key: Option<nat>, mods: Mask): seq<Event> {
    if key.Some? then [KeyDown(key.value, mods)] else []
  }

  function ModifierEvents(from: Mask, to: Mask): seq<Event> {
    (if from - to != {} then [ModifierUp(from - to)] else []) +
    (if to - from != {} then [ModifierDown(to - from)] else [])
  }

  /** What one poll of the key map appends. */
  function PollEvents(released: seq<nat>, key: Option<nat>, before: Mask, mods: Mask, capsOn: bool): seq<Event> {
    KeyUps(released, ReleaseModifiers(mods, capsOn)) + KeyDowns(key, mods) + ModifierEvents(before, mods)
  }

  lemma KeyUpsStep(before: seq<Event>, queue: seq<Event>, released: seq<nat>, mods: Mask, n: nat)
    requires n < |released| && queue == before + KeyUps(released[..n], mods)
    ensures queue + [KeyUp(released[n], mods)] == before + KeyUps(released[..n + 1], mods)
  {
    assert KeyUps(released[..n + 1], mods) == KeyUps(released[..n], mods) + [KeyUp(released[n], mods)];
  }

  lemma NothingChanged(queue: seq<Event>, mods: Mask)
    ensures queue + ModifierEvents(mods, mods) == queue
  {
    assert mods - mods == {};
  }

  lemma EventsJoin(before: seq<Event>, between: seq<Event>, after: seq<Event>,
                   released: seq<nat>, key: Option<nat>, mask: Mask, mods: Mask, capsOn: bool)
    requires between == before + KeyUps(released, ReleaseModifiers(mods, capsOn))
    requires after == between + KeyDowns(key, mods) + ModifierEvents(mask, mods)
    ensures after == before + PollEvents(released, key, mask, mods, capsOn)
  {
  }

  /** How often the code is among the first `n`. */
  function Times(codes: seq<nat>, n: nat, code: nat): nat
    requires n <= |codes|
  {
    if n == 0 then 0 else Times(codes, n - 1, code) + (if codes[n - 1] == code then 1 else 0)
  }

  /** The time of repetition `k` of a held key. */
  function RepeatTime(initialDelay: nat, subsequentDelay: nat, k: nat): nat {
    initialDelay + k * subsequentDelay
  }

  /** A held key reports at once and then at its repetition times, and at no other. */
  lemma ReportTimes(h: Handler, strokes: nat)
    requires h.subsequentDelay > 0
    ensures h.AcceptStroke(strokes) <==>
            strokes == 0 || exists k: nat :: strokes == RepeatTime(h.initialDelay, h.subsequentDelay, k)
  {
    if strokes >= h.initialDelay {
      var q := (strokes - h.initialDelay) / h.subsequentDelay;
      if h.AcceptStroke(strokes) {
        assert strokes == RepeatTime(h.initialDelay, h.subsequentDelay, q);
      }
      forall k: nat | strokes == RepeatTime(h.initialDelay, h.subsequentDelay, k) ensures h.AcceptStroke(strokes) {
        DivModUnique(strokes - h.initialDelay, k, 0, h.subsequentDelay);
      }
    }
  }

  class Handler {
    const initialDelay: nat
    const subsequentDelay: nat
    const slots: array<Slot>
    var modifiers: Mask
    var previousModifiers: Mask
    var capsOn: bool
    var capsChanged: bool
    var queue: seq<Event>
    ghost var polls: seq<Poll>

    /** The invariant over every run of polls. */
    ghost predicate Valid()
      reads this, slots
    {
      && slots.Length == SLOTS
      && subsequentDelay > 0
      && DistinctCodes(slots[..]) && OneCurrent(slots[..])
      && (forall i :: 0 <= i < slots.Length && slots[i].code != 0 ==> Pressed(polls, slots[i].code))
      && QueueMatches(queue, slots[..], None)
      && modifiers == previousModifiers == LastModifiers(polls) == Replay(queue)
      && (capsChanged <==> Pressed(polls, CAPS_LOCK))
      && (capsOn <==> Presses(polls, CAPS_LOCK) % 2 == 1)
    }

    constructor (initialDelay: nat, subsequentDelay: nat)
      ensures Valid() && queue == [] && polls == []
      ensures fresh(slots)
    {
      this.initialDelay := initialDelay;
      this.subsequentDelay := if subsequentDelay == 0 then 1 else subsequentDelay;
      slots := new Slot[SLOTS](_ => EMPTY_SLOT);
      modifiers, previousModifiers, capsOn, capsChanged := {}, {}, false, false;
      queue, polls := [], [];
    }

    /** InternalGetAndRemoveReleasedKeys. */
    method RemoveReleasedKeys(codes: seq<nat>) returns (released: seq<nat>)
      requires slots.Length == SLOTS
      modifies slots, this`capsChanged
      ensures forall i :: 0 <= i < slots.Length ==>
                slots[i] == if old(slots[i]).code in codes then old(slots[i]) else EMPTY_SLOT
      ensures capsChanged == (old(capsChanged) && CAPS_LOCK in codes)
      ensures released == Released(old(slots[..]), codes, old(capsChanged))
      // The source collects them in a buffer of twelve.
      ensures |released| < 12
    {
      ghost var was := slots[..];
      released := [];
      for i := 0 to SLOTS
        invariant released == Gone(was, codes, i)
        invariant forall k :: 0 <= k < i ==> slots[k] == if was[k].code in codes then was[k] else EMPTY_SLOT
        invariant forall k :: i <= k < SLOTS ==> slots[k] == was[k]
        invariant capsChanged == old(capsChanged)
      {
        if slots[i].code !in codes {
          if slots[i].code != 0 {
            released := released + [slots[i].code];
          }
          slots[i] := EMPTY_SLOT;
        }
      }
      if capsChanged {
        if CAPS_LOCK !in codes {
          capsChanged := false;
          released := released + [CAPS_LOCK];
        }
      }
    }

    /** Index of the slot that holds the code. */
    method FindSlot(code: nat) returns (index: Option<nat>)
      requires slots.Length == SLOTS
      ensures index.Some? ==>
                && index.value < SLOTS && slots[index.value].code == code
                && forall i :: 0 <= i < index.value ==> slots[i].code != code
      ensures index.None? ==> forall i :: 0 <= i < SLOTS ==> slots[i].code != code
    {
      for i := 0 to SLOTS
        invariant forall k :: 0 <= k < i ==> slots[k].code != code
      {
        if slots[i].code == code {
          return Some(i);
        }
      }
      return None;
    }

    /** InternalIsCLockOn: a fresh Caps Lock press flips the state. */
    method IsCapsLockOn(codes: seq<nat>) returns (on: bool)
      requires slots.Length == SLOTS
      ensures on == if CAPS_LOCK in codes && !capsChanged && (forall i :: 0 <= i < SLOTS ==> slots[i].code != CAPS_LOCK)
                    then !capsOn else capsOn
    {
      on := capsOn;
      for i := 0 to |codes|
        invariant on == capsOn
        invariant CAPS_LOCK in codes[..i] ==> capsChanged || exists k :: 0 <= k < SLOTS && slots[k].code == CAPS_LOCK
      {
        assert codes[..i + 1] == codes[..i] + [codes[i]];
        var info := FindSlot(codes[i]);
        if info.None? && codes[i] == CAPS_LOCK && !capsChanged {
          return !capsOn;
        }
      }
      assert codes[..|codes|] == codes;
    }

    method ClearCurrent()
      requires slots.Length == SLOTS
      modifies slots
      ensures forall i :: 0 <= i < SLOTS ==> slots[i] == old(slots[i]).(current := false)
    {
      for i := 0 to SLOTS
        invariant forall k :: 0 <= k < i ==> slots[k] == old(slots[k]).(current := false)
        invariant forall k :: i <= k < SLOTS ==> slots[k] == old(slots[k])
      {
        slots[i] := slots[i].(current := false);
      }
    }

    /** An unknown key cancels the current stroke and becomes the new one in the first free slot. */
    method AddStroke(code: nat) returns (added: Option<nat>)
      requires slots.Length == SLOTS
      modifies slots
      ensures forall i :: 0 <= i < SLOTS && added != Some(i) ==> slots[i] == old(slots[i]).(current := false)
      ensures added.Some? ==>
                added.value < SLOTS && old(slots[added.value]).code == 0 && slots[added.value] == Slot(code, 0, true)
      ensures added.None? ==> forall i :: 0 <= i < SLOTS ==> slots[i].code != 0
    {
      ClearCurrent();
      added := FindSlot(0);
      if added.Some? {
        slots[added.value] := Slot(code, 0, true);
      }
    }

    /**
     Strokes of known keys go up; the first unknown key cancels the current stroke, takes a free slot as
     the new one, and ends the loop. `added` is that slot.
     */
    method CountStrokes(codes: seq<nat>) returns (added: Option<nat>, known: nat)
      requires slots.Length == SLOTS && DistinctCodes(slots[..]) && OneCurrent(slots[..])
      requires AllIn(slots[..], codes)
      modifies slots
      ensures DistinctCodes(slots[..]) && OneCurrent(slots[..]) && AllIn(slots[..], codes)
      ensures forall i :: 0 <= i < SLOTS && added != Some(i) ==> slots[i].code == old(slots[i]).code
      ensures forall i :: 0 <= i < SLOTS && added != Some(i) && slots[i].current ==> old(slots[i]).current
      ensures added.None? ==>
                (forall c :: c in codes && c != 0 ==> Stored(slots[..], c)) || (forall i :: 0 <= i < SLOTS ==> slots[i].code != 0)
      // The codes in front of the first unknown one are counted.
      ensures known <= |codes| && (known < |codes| ==> !Stored(old(slots[..]), codes[known]))
      ensures forall i :: 0 <= i < SLOTS && slots[i].code != 0 && added != Some(i) ==>
                slots[i].strokes == old(slots[i]).strokes + Times(codes, known, slots[i].code)
      ensures added.Some? ==>
                && added.value < SLOTS && old(slots[added.value]).code == 0
                && known < |codes| && slots[added.value] == Slot(codes[known], 0, true) && codes[known] != 0
    {
      added := None;
      ghost var was := slots[..];
      known := CountKnown(codes);
      if known < |codes| {
        added := AddStroke(codes[known]);
      } else {
        assert codes[..known] == codes;
        StoredStep(was, slots[..], None);
      }
    }

    /** The loop over known keys, up to the first unknown one. */
    method CountKnown(codes: seq<nat>) returns (known: nat)
      requires slots.Length == SLOTS && DistinctCodes(slots[..])
      modifies slots
      ensures known <= |codes| && Counted(old(slots[..]), slots[..], codes, known)
      ensures known < |codes| ==> forall i :: 0 <= i < SLOTS ==> slots[i].code != codes[known]
      ensures forall c :: c in codes[..known] && c != 0 ==> Stored(old(slots[..]), c)
    {
      ghost var was := slots[..];
      for n := 0 to |codes|
        invariant Counted(was, slots[..], codes, n)
        invariant forall c :: c in codes[..n] && c != 0 ==> Stored(was, c)
      {
        assert codes[..n + 1] == codes[..n] + [codes[n]];
        var info := FindSlot(codes[n]);
        if info.None? {
          return n;
        }
        CountedStep(was, slots[..], codes, n, info.value);
        Increment(info.value);
        assert was[info.value].code == codes[n];
      }
      return |codes|;
    }

    method Increment(k: nat)
      requires k < slots.Length
      modifies slots
      ensures slots[..] == old(slots[..])[k := old(slots[k]).(strokes := old(slots[k]).strokes + 1)]
    {
      slots[k] := slots[k].(strokes := slots[k].strokes + 1);
    }

    /** InternalGetCurrentStroke. */
    method CurrentStroke() returns (index: Option<nat>)
      requires slots.Length == SLOTS
      ensures index.Some? ==> index.value < SLOTS && slots[index.value].current
      ensures index.None? ==> forall i :: 0 <= i < SLOTS ==> !slots[i].current
    {
      for i := 0 to SLOTS
        invariant forall k :: 0 <= k < i ==> !slots[k].current
      {
        if slots[i].current {
          return Some(i);
        }
      }
      return None;
    }

    /** When a held key reports. */
    predicate AcceptStroke(strokes: nat)
      requires subsequentDelay > 0
    {
      if strokes < initialDelay then strokes == 0 else (strokes - initialDelay) % subsequentDelay == 0
    }

    method EmitKeyUps(released: seq<nat>, mods: Mask, ghost kept: seq<Slot>)
      requires Releasing(queue, kept, released)
      modifies this`queue
      ensures QueueMatches(queue, kept, None) && queue == old(queue) + KeyUps(released, mods)
      ensures Replay(queue) == old(Replay(queue))
    {
      for n := 0 to |released|
        invariant Releasing(queue, kept, released[n..])
        invariant Replay(queue) == old(Replay(queue)) && queue == old(queue) + KeyUps(released[..n], mods)
      {
        var e := KeyUp(released[n], mods);
        ReleasingStep(queue, kept, released[n..], mods);
        assert released[n..][1..] == released[n + 1..];
        KeyUpsStep(old(queue), queue, released, mods, n);
        AppendReplay(queue, e);
        queue := queue + [e];
      }
      assert released[..|released|] == released;
    }

    /** The key events of released keys, and the table without them. */
    method ReleaseKeys(codes: seq<nat>, mods: Mask) returns (on: bool)
      requires slots.Length == SLOTS && DistinctCodes(slots[..]) && OneCurrent(slots[..])
      requires QueueMatches(queue, slots[..], None)
      requires capsChanged <==> Pressed(polls, CAPS_LOCK)
      requires forall i :: 0 <= i < SLOTS && slots[i].code != 0 ==> Pressed(polls, slots[i].code)
      modifies slots, this`capsChanged, this`queue
      ensures DistinctCodes(slots[..]) && OneCurrent(slots[..]) && AllIn(slots[..], codes)
      ensures QueueMatches(queue, slots[..], None) && Replay(queue) == old(Replay(queue))
      ensures queue == old(queue) + KeyUps(Released(old(slots[..]), codes, old(capsChanged)), ReleaseModifiers(mods, on))
      ensures forall i :: 0 <= i < SLOTS && slots[i].current ==> old(slots[i]).current
      ensures forall i :: 0 <= i < SLOTS && old(slots[i]).code in codes ==> slots[i].code == old(slots[i]).code
      ensures capsChanged <==> Pressed(polls, CAPS_LOCK) && CAPS_LOCK in codes
      ensures on == if CAPS_LOCK in codes && !Pressed(polls, CAPS_LOCK) then !capsOn else capsOn
    {
      ghost var was := slots[..];
      var released := RemoveReleasedKeys(codes);
      on := IsCapsLockOn(codes);
      var appleModifiers := if on then mods + MODIFIERS_SHIFT else mods;
      ghost var kept := slots[..];
      KeptOrGone(queue, was, kept, codes, released);
      EmitKeyUps(released, appleModifiers, kept);
    }

    /** InternalGetCurrentKeyStroke: `key` is the key to report when the poll succeeds. */
    method GetCurrentKeyStroke(mods: Mask, codes: seq<nat>) returns (ready: bool, key: Option<nat>)
      requires Valid()
      modifies slots, this`modifiers, this`capsOn, this`capsChanged, this`queue
      ensures DistinctCodes(slots[..]) && OneCurrent(slots[..]) && AllIn(slots[..], codes)
      ensures QueueMatches(queue, slots[..], key) && (key.Some? ==> ready)
      ensures NewKeyReported(old(slots[..]), slots[..], codes, key)
      ensures Replay(queue) == old(Replay(queue)) && modifiers == mods
      ensures queue == old(queue) + KeyUps(Released(old(slots[..]), codes, old(capsChanged)), ReleaseModifiers(mods, capsOn))
      ensures KeyIsDue(slots[..], key)
      // A changed modifier mask always makes the poll succeed.
      ensures old(modifiers) != mods ==> ready
      ensures capsChanged <==> CAPS_LOCK in codes
      ensures capsOn == (old(capsOn) != (CAPS_LOCK in codes && !Pressed(polls, CAPS_LOCK)))
    {
      ghost var was := slots[..];
      CancelStroke(mods);
      GoneByCode(was, slots[..], codes, SLOTS);
      var on := ReleaseKeys(codes, mods);
      if on != capsOn {
        capsOn := on;
        capsChanged := true;
      }
      ghost var kept := slots[..];
      ready, key := SelectKey(mods, codes);
      NewKeyWas(was, kept, slots[..], codes, key);
    }

    /** Changed modifiers cancel the current stroke. */
    method CancelStroke(mods: Mask)
      requires slots.Length == SLOTS && DistinctCodes(slots[..]) && OneCurrent(slots[..])
      requires QueueMatches(queue, slots[..], None)
      modifies slots
      ensures DistinctCodes(slots[..]) && OneCurrent(slots[..]) && QueueMatches(queue, slots[..], None)
      ensures forall i :: 0 <= i < SLOTS ==> slots[i].code == old(slots[i]).code
      ensures modifiers != mods ==> forall i :: 0 <= i < SLOTS ==> !slots[i].current
    {
      if modifiers != mods {
        ghost var was := slots[..];
        ClearCurrent();
        StoredStep(was, slots[..], None);
      }
    }

    /** The key is the current stroke at one of its times. */
    ghost predicate KeyIsDue(s: seq<Slot>, key: Option<nat>)
      requires subsequentDelay > 0
    {
      && (forall i :: 0 <= i < |s| && s[i].current ==> key == if AcceptStroke(s[i].strokes) then Some(s[i].code) else None)
      && ((forall i :: 0 <= i < |s| ==> !s[i].current) ==> key == None)
    }

    method SelectKey(mods: Mask, codes: seq<nat>) returns (ready: bool, key: Option<nat>)
      requires slots.Length == SLOTS && subsequentDelay > 0
      requires DistinctCodes(slots[..]) && OneCurrent(slots[..]) && AllIn(slots[..], codes)
      requires QueueMatches(queue, slots[..], None)
      requires modifiers != mods ==> forall i :: 0 <= i < SLOTS ==> !slots[i].current
      modifies slots, this`modifiers
      ensures DistinctCodes(slots[..]) && OneCurrent(slots[..]) && AllIn(slots[..], codes)
      ensures QueueMatches(queue, slots[..], key) && (key.Some? ==> ready)
      ensures NewKeyReported(old(slots[..]), slots[..], codes, key)
      ensures modifiers == mods && (old(modifiers) != mods ==> ready)
      // The current stroke reports at its times; without one a changed mask alone makes the poll ready.
      ensures KeyIsDue(slots[..], key)
      ensures forall i :: 0 <= i < SLOTS && slots[i].current ==> ready == key.Some?
      ensures (forall i :: 0 <= i < SLOTS ==> !slots[i].current) ==> ready == (old(modifiers) != mods)
    {
      ghost var kept := slots[..];
      var added, known := CountStrokes(codes);
      ready, key := Judge(mods);
      assert added.Some? ==> AcceptStroke(0) && slots[added.value].current;
      KeySelected(queue, kept, slots[..], codes, added, key);
    }

    /** Whether the poll has something to report, and which key. */
    method Judge(mods: Mask) returns (ready: bool, key: Option<nat>)
      requires slots.Length == SLOTS && subsequentDelay > 0 && OneCurrent(slots[..])
      modifies this`modifiers
      ensures modifiers == mods
      ensures forall i :: 0 <= i < SLOTS && slots[i].current ==>
                key == (if AcceptStroke(slots[i].strokes) then Some(slots[i].code) else None) && ready == key.Some?
      ensures (forall i :: 0 <= i < SLOTS ==> !slots[i].current) ==> key == None && ready == (old(modifiers) != mods)
      ensures key.Some? ==> Stored(slots[..], key.value)
    {
      var index := CurrentStroke();
      ready, key := false, None;
      if index.Some? || modifiers != mods {
        modifiers := mods;
        if index.Some? {
          if AcceptStroke(slots[index.value].strokes) {
            key := Some(slots[index.value].code);
            assert slots[..][index.value].code == key.value;
            ready := true;
          }
        } else {
          ready := true;
        }
      }
    }

    /**
     InternalKeyStrokePollNotifyFunction, for one poll of the key map. It appends the released keys, the
     current stroke when it is due, and the changed modifiers, in this order.
     */
    method PollKeys(mods: Mask, codes: seq<nat>) returns (key: Option<nat>)
      requires Valid()
      modifies this, slots
      ensures Valid()
      ensures polls == old(polls) + [Poll(mods, codes)]
      ensures queue == old(queue) +
                       PollEvents(Released(old(slots[..]), codes, old(capsChanged)), key, old(modifiers), mods, capsOn)
      ensures KeyIsDue(slots[..], key) && NewKeyReported(old(slots[..]), slots[..], codes, key)
    {
      var ready;
      ghost var before, mask, released := queue, modifiers, Released(slots[..], codes, capsChanged);
      ready, key := GetCurrentKeyStroke(mods, codes);
      ghost var between := queue;
      Report(ready, key, mods);
      EventsJoin(before, between, queue, released, key, mask, mods, capsOn);
      Remember(Poll(mods, codes));
    }

    /** The events of a poll: the key, then the modifiers when they changed. */
    method Report(ready: bool, key: Option<nat>, mods: Mask)
      requires slots.Length == SLOTS && QueueMatches(queue, slots[..], key)
      requires Replay(queue) == previousModifiers && (previousModifiers != mods ==> ready)
      modifies this`queue, this`previousModifiers
      ensures QueueMatches(queue, slots[..], None)
      ensures queue == old(queue) + KeyDowns(key, mods) + ModifierEvents(old(previousModifiers), mods)
      ensures previousModifiers == mods == Replay(queue)
    {
      ReportKey(key, mods);
      if ready && previousModifiers != mods {
        EmitModifiers(mods);
      } else {
        NothingChanged(queue, mods);
      }
    }

    /** The poll becomes history. */
    ghost method Remember(p: Poll)
      requires slots.Length == SLOTS && subsequentDelay > 0
      requires DistinctCodes(slots[..]) && OneCurrent(slots[..]) && AllIn(slots[..], p.codes)
      requires QueueMatches(queue, slots[..], None)
      requires modifiers == previousModifiers == p.modifiers == Replay(queue)
      requires capsChanged <==> CAPS_LOCK in p.codes
      requires capsOn == ((Presses(polls, CAPS_LOCK) % 2 == 1) != (CAPS_LOCK in p.codes && !Pressed(polls, CAPS_LOCK)))
      modifies this`polls
      ensures Valid() && polls == old(polls) + [p]
    {
      PollStep(polls, p);
      PressesStep(polls, p, CAPS_LOCK);
      polls := polls + [p];
    }

    method ReportKey(key: Option<nat>, mods: Mask)
      requires slots.Length == SLOTS
      requires QueueMatches(queue, slots[..], key)
      modifies this`queue
      ensures QueueMatches(queue, slots[..], None) && Replay(queue) == old(Replay(queue))
      ensures queue == old(queue) + KeyDowns(key, mods)
    {
      if key.Some? {
        var e := KeyDown(key.value, mods);
        Append(queue, e);
        AppendReplay(queue, e);
        queue := queue + [e];
      }
    }

    /** The two modifier events of a change bring a listener to the new mask. */
    method EmitModifiers(mods: Mask)
      requires slots.Length == SLOTS && QueueMatches(queue, slots[..], None) && Replay(queue) == previousModifiers
      modifies this`queue, this`previousModifiers
      ensures QueueMatches(queue, slots[..], None) && queue == old(queue) + ModifierEvents(old(previousModifiers), mods)
      ensures previousModifiers == mods == Replay(queue)
    {
      var up := Xor(previousModifiers, mods) * previousModifiers;
      var down := Xor(previousModifiers, mods) * mods;
      UpDownArrives(previousModifiers, mods);
      if up != {} {
        EmitModifier(ModifierUp(up));
      }
      if down != {} {
        EmitModifier(ModifierDown(down));
      }
      previousModifiers := mods;
    }

    method EmitModifier(e: Event)
      requires slots.Length == SLOTS && QueueMatches(queue, slots[..], None)
      requires e.ModifierUp? || e.ModifierDown?
      modifies this`queue
      ensures queue == old(queue) + [e]
      ensures QueueMatches(queue, slots[..], None) && Replay(queue) == Apply(old(Replay(queue)), e)
    {
      Append(queue, e);
      AppendReplay(queue, e);
      queue := queue + [e];
    }
  }

  /** Releasing and pressing the bits that differ leads from one mask to the other. */
  lemma UpDownArrives(from: Mask, to: Mask)
    ensures Xor(from, to) * from == from - to && Xor(from, to) * to == to - from
    ensures from - Xor(from, to) * from + Xor(from, to) * to == to
    ensures Xor(from, to) * from == {} ==> from - Xor(from, to) * from == from
    ensures Xor(from, to) * to == {} ==> from - Xor(from, to) * from == to
  {
    assert from - Xor(from, to) * from == from * to;
  }
}
