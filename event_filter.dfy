/** The event filter of src/main.rs: which decoded `input_event` records the
    read loop forwards to `Database::modify`, and what a run of forwarded
    events does to the counters. */
module EventFilter {
  import opened Outcomes
  import opened InputCodes
  import opened Counters
  import opened Db

  /** A decoded `struct input_event` without its timestamp. */
  datatype InputEvent = InputEvent(type_: u16, code: u16, value: i32)

  /** The keys of the `evts` table. */
  const EventTypes: set<int> := {EV_REL, EV_KEY}

  /** The keys of the `keycodes` table: button and axis codes mixed together. */
  const KeyCodes: set<int> := {BTN_LEFT, BTN_RIGHT, BTN_MIDDLE, BTN_SIDE, BTN_EXTRA, REL_X, REL_Y, REL_WHEEL}

  /** The `continue` test of the read loop. */
  function Skip(e: InputEvent): (skip: bool)
    ensures !skip ==> !Classify(e.type_, e.code, e.value).Untouched?
    ensures !skip ==> e.code in RelCodes || e.code in ButtonCodes
  {
    !(e.type_ in EventTypes && e.code in KeyCodes)
    || (e.type_ == EV_KEY && e.value == 0)
  }

  /** Events of a kind other than EV_REL and EV_KEY never reach `modify`. */
  lemma UnknownKindSkipped(e: InputEvent)
    requires e.type_ != EV_REL && e.type_ != EV_KEY
    ensures Skip(e)
  {
  }

  /** Codes outside the eight of the table never reach `modify`. */
  lemma UnknownCodeSkipped(e: InputEvent)
    requires e.code !in KeyCodes
    ensures Skip(e)
  {
  }

  /** A key release is dropped here, although `modify` would count it as a
      click: the filter is what tells presses from releases. */
  lemma ReleaseSkipped(e: InputEvent)
    requires e.type_ == EV_KEY && e.value == 0
    ensures Skip(e)
    ensures e.code in ButtonCodes ==> Classify(e.type_, e.code, e.value).Bump?
  {
  }

  /** A button press is forwarded. */
  lemma PressForwarded(e: InputEvent)
    requires e.type_ == EV_KEY && e.code in ButtonCodes && e.value != 0
    ensures !Skip(e) && Classify(e.type_, e.code, e.value) == Bump(Classify(e.type_, e.code, e.value).bucket, 1)
  {
  }

  /** Only key events are filtered on their value: relative motion of value 0
      is forwarded, and counts zero dots left or up, or one wheel tick down. */
  lemma ZeroMotionForwarded(e: InputEvent)
    requires e.type_ == EV_REL && e.code in RelCodes && e.value == 0
    ensures !Skip(e)
    ensures e.code == REL_X ==> Classify(e.type_, e.code, e.value) == Bump(SwipeLeft, 0)
    ensures e.code == REL_Y ==> Classify(e.type_, e.code, e.value) == Bump(SwipeUp, 0)
    ensures e.code == REL_WHEEL ==> Classify(e.type_, e.code, e.value) == Bump(WheelDown, 1)
  {
  }

  /** Kind and code are checked separately, so of the forwarded events
      exactly those that pair a kind with a code of the other family reach
      the `unimplemented!()` arms. */
  lemma {:induction false} ForwardedAbortsIffCrossed(e: InputEvent)
    requires !Skip(e)
    ensures Classify(e.type_, e.code, e.value).Unimplemented? <==>
              (e.type_ == EV_REL && e.code in ButtonCodes) || (e.type_ == EV_KEY && e.code in RelCodes)
  {
    assert e.code in RelCodes <==> e.code !in ButtonCodes;
  }

  /** Two such events: a relative event with the left-button code, and a
      press of key code 1 (KEY_ESC, numerically REL_Y). */
  lemma CrossedExamples()
    ensures !Skip(InputEvent(EV_REL as u16, BTN_LEFT as u16, 1))
    ensures Classify(EV_REL, BTN_LEFT, 1).Unimplemented?
    ensures !Skip(InputEvent(EV_KEY as u16, REL_Y as u16, 1))
    ensures Classify(EV_KEY, REL_Y, 1).Unimplemented?
  {
  }

  /** The counters after the loop handles `e`: unchanged if skipped, `None`
      if `modify` aborts. */
  function Step(d: Data, e: InputEvent): (r: Option<Data>)
    ensures Skip(e) ==> r == Some(d)
    ensures r.None? <==> !Skip(e) && Classify(e.type_, e.code, e.value).Unimplemented?
    ensures r.Some? ==> NoneDecreased(d, r.value)
  {
    if Skip(e) then Some(d)
    else
      var eff := Classify(e.type_, e.code, e.value);
      if eff.Unimplemented? then None else Some(Apply(d, eff))
  }

  /** One pass of the read loop after decoding (lines 56-63): skip, or forward
      with the fields widened to `i32` and `i64`. `ok` is false where
      `modify` reaches `unimplemented!()`. */
  method Forward(db: Database, e: InputEvent, now: int) returns (ok: bool)
    requires db.Valid()
    modifies db
    ensures db.Valid()
    ensures ok <==> Step(old(db.data), e).Some?
    ensures ok ==> db.data == Step(old(db.data), e).value
    ensures Skip(e) ==> db.calls == old(db.calls) && db.lastExport == old(db.lastExport) && db.file == old(db.file)
    ensures !Skip(e) && ok ==> db.calls == old(db.calls) + [now]
    ensures !Skip(e) && ok ==> db.lastExport == if Due(old(db.lastExport), now) then Some(now) else old(db.lastExport)
    ensures !Skip(e) && ok ==> db.file == if Due(old(db.lastExport), now) then Holds(db.data) else old(db.file)
    ensures !ok ==> db.data == old(db.data) && db.calls == old(db.calls) && db.file == old(db.file)
  {
    if Skip(e) {
      ok := true;
      return;
    }
    ok := db.Modify(e.type_ as i32, e.code as i32, e.value as i64, now);
  }

  /** The counters after the loop handles `events` in order, or `None` if one
      of them aborts `modify`. */
  function Ingest(d: Data, events: seq<InputEvent>): (r: Option<Data>)
    ensures (forall i :: 0 <= i < |events| ==> Skip(events[i])) ==> r == Some(d)
    decreases |events|
  {
    if events == [] then Some(d)
    else
      match Ingest(d, events[..|events| - 1])
      case None => None
      case Some(prior) => Step(prior, events[|events| - 1])
  }

  /** What the forwarded events of `events` add to bucket `b`. */
  function Total(events: seq<InputEvent>, b: Bucket): (r: nat)
    ensures b !in {SwipeRight, SwipeLeft, SwipeUp, SwipeDown} ==> r <= |events|
    ensures (forall i :: 0 <= i < |events| ==> Skip(events[i])) ==> r == 0
    decreases |events|
  {
    if events == [] then 0
    else
      var e := events[|events| - 1];
      var eff := Classify(e.type_, e.code, e.value);
      Total(events[..|events| - 1], b) + (if Skip(e) || eff.Unimplemented? then 0 else Gain(eff, b))
  }

  /** Every counter equals its starting value plus the deltas that the
      forwarded events assign to it, one event at a time. */
  lemma {:induction false} IngestCountsTotals(d: Data, events: seq<InputEvent>)
    requires Ingest(d, events).Some?
    ensures forall b :: Count(Ingest(d, events).value, b) == Count(d, b) + Total(events, b)
  {
    if events != [] {
      var init := events[..|events| - 1];
      IngestCountsTotals(d, init);
    }
  }

  /** A run aborts exactly when one of its events is forwarded with a code
      `modify` does not know for its kind. */
  lemma {:induction false} IngestAbortsIffCrossed(d: Data, events: seq<InputEvent>)
    ensures Ingest(d, events).None? <==>
              exists i :: 0 <= i < |events| && !Skip(events[i])
                          && Classify(events[i].type_, events[i].code, events[i].value).Unimplemented?
  {
    if events != [] {
      var init := events[..|events| - 1];
      IngestAbortsIffCrossed(d, init);
      var last := |events| - 1;
      if Ingest(d, events).None? {
        if Ingest(d, init).None? {
          var i :| 0 <= i < |init| && !Skip(init[i])
                   && Classify(init[i].type_, init[i].code, init[i].value).Unimplemented?;
          assert events[i] == init[i];
        } else {
          assert !Skip(events[last]);
        }
      } else {
        forall i | 0 <= i < |events|
          ensures !(!Skip(events[i]) && Classify(events[i].type_, events[i].code, events[i].value).Unimplemented?)
        {
          if i < last {
            assert events[i] == init[i];
          }
        }
      }
    }
  }

  /** No counter ever decreases over a run, and non-negative counters stay
      non-negative. */
  lemma IngestMonotone(d: Data, events: seq<InputEvent>)
    requires Ingest(d, events).Some?
    ensures NoneDecreased(d, Ingest(d, events).value)
    ensures NonNegative(d) ==> NonNegative(Ingest(d, events).value)
  {
    IngestCountsTotals(d, events);
  }

  /** From fresh counters, one press of the left button gives left = 1 and
      every other counter 0. */
  lemma LeftPressFromZero()
    ensures Ingest(Zero(), [InputEvent(EV_KEY as u16, BTN_LEFT as u16, 1)])
            == Some(Zero().(left := 1))
  {
    var evs := [InputEvent(EV_KEY as u16, BTN_LEFT as u16, 1)];
    assert evs[..0] == [];
  }

  /** A session: open the statistics file, press the left button at `t`,
      release it at `t + 5` and press it again at `t + 10`, then tear the store
      down. Only the first press and the teardown write the file, and the
      file then holds both clicks. */
  method PressReleasePressThenExit(path: string, f: FileState, t: int) returns (writes: nat, clicks: int)
    requires Load(f).Ok?
    ensures writes == 2
    ensures clicks == Load(f).value.left + 2
  {
    var start := Database.Open(path, f);
    var db := start.value;
    var press := InputEvent(EV_KEY as u16, BTN_LEFT as u16, 1);
    var release := InputEvent(EV_KEY as u16, BTN_LEFT as u16, 0);
    var ok := Forward(db, press, t);
    ExportsSnoc([], t);
    assert [] + [t] == [t];
    ok := Forward(db, release, t + 5);
    ok := Forward(db, press, t + 10);
    db.Drop();
    assert db.file == Holds(db.data);
    writes, clicks := db.exportCount, db.data.left;
  }
}
