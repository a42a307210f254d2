/** The statistics store of src/db.rs: how `Database::modify` classifies an
    input event and updates one counter, when it persists the counters, how
    `Database::new` loads them and how `Drop` writes them out. */
module Db {
  import opened Outcomes
  import opened InputCodes
  import opened Counters

  // ---------------------------------------------------------------------
  // Classification
  // ---------------------------------------------------------------------

  /** What one call of `modify` does to the counters. */
  datatype Effect =
    | Untouched                          // a kind other than EV_REL and EV_KEY
    | Bump(bucket: Bucket, delta: nat)   // one counter grows by delta
    | Unimplemented                      // the `unimplemented!()` arms

  /** The branch of `modify` an event `(type_, code, value)` takes. */
  function Classify(type_: int, code: int, value: int): (e: Effect)
    ensures e.Unimplemented? <==>
              (type_ == EV_REL && code !in RelCodes) || (type_ == EV_KEY && code !in ButtonCodes)
    ensures e.Untouched? <==> type_ != EV_REL && type_ != EV_KEY
    ensures e.Bump? && type_ == EV_REL && code != REL_WHEEL ==> e.delta == Abs(value)
    ensures e.Bump? && (type_ == EV_KEY || code == REL_WHEEL) ==> e.delta == 1
  {
    if type_ == EV_REL then
      if code == REL_X then
        if value > 0 then Bump(SwipeRight, Abs(value)) else Bump(SwipeLeft, Abs(value))
      else if code == REL_Y then
        if value > 0 then Bump(SwipeDown, Abs(value)) else Bump(SwipeUp, Abs(value))
      else if code == REL_WHEEL then
        if value > 0 then Bump(WheelUp, 1) else Bump(WheelDown, 1)
      else
        Unimplemented
    else if type_ == EV_KEY then
      if code == BTN_LEFT then Bump(Left, 1)
      else if code == BTN_RIGHT then Bump(Right, 1)
      else if code == BTN_MIDDLE then Bump(Middle, 1)
      else if code == BTN_SIDE then Bump(Side, 1)
      else if code == BTN_EXTRA then Bump(Extra, 1)
      else Unimplemented
    else
      Untouched
  }

  /** How much bucket `b` grows under effect `e`. */
  function Gain(e: Effect, b: Bucket): nat
  {
    if e.Bump? && e.bucket == b then e.delta else 0
  }

  /** The counters after an effect that does not abort. */
  function Apply(d: Data, e: Effect): (r: Data)
    requires !e.Unimplemented?
    ensures forall b :: Count(r, b) == Count(d, b) + Gain(e, b)
  {
    match e
    case Untouched => d
    case Bump(b, delta) => Add(d, b, delta)
  }

  lemma XMotion(value: int)
    ensures Classify(EV_REL, REL_X, value) ==
              if value > 0 then Bump(SwipeRight, value) else Bump(SwipeLeft, -value)
  {
  }

  lemma YMotion(value: int)
    ensures Classify(EV_REL, REL_Y, value) ==
              if value > 0 then Bump(SwipeDown, value) else Bump(SwipeUp, -value)
  {
  }

  lemma WheelTick(value: int)
    ensures Classify(EV_REL, REL_WHEEL, value) ==
              if value > 0 then Bump(WheelUp, 1) else Bump(WheelDown, 1)
  {
  }

  /** A button event counts one click whatever its value: `modify` itself
      does not tell a press from a release. */
  lemma ButtonClick(code: int, value: int)
    requires code in ButtonCodes
    ensures Classify(EV_KEY, code, value) ==
              Bump(if code == BTN_LEFT then Left
                   else if code == BTN_RIGHT then Right
                   else if code == BTN_MIDDLE then Middle
                   else if code == BTN_SIDE then Side
                   else Extra, 1)
  {
  }

  /** One `modify` changes at most one counter, never lowers any, and an
      unknown kind changes none. */
  lemma {:induction false} ApplyTouchesAtMostOne(d: Data, type_: int, code: int, value: int)
    requires !Classify(type_, code, value).Unimplemented?
    ensures NoneDecreased(d, Apply(d, Classify(type_, code, value)))
    ensures forall b, c :: b != c && Count(Apply(d, Classify(type_, code, value)), b) != Count(d, b)
              ==> Count(Apply(d, Classify(type_, code, value)), c) == Count(d, c)
    ensures type_ != EV_REL && type_ != EV_KEY ==> Apply(d, Classify(type_, code, value)) == d
  {
    var r := Apply(d, Classify(type_, code, value));
    forall b, c | b != c && Count(r, b) != Count(d, b)
      ensures Count(r, c) == Count(d, c)
    {
      assert Gain(Classify(type_, code, value), b) != 0;
    }
  }

  /** Non-negative counters stay non-negative. */
  lemma ApplyKeepsNonNegative(d: Data, e: Effect)
    requires NonNegative(d) && !e.Unimplemented?
    ensures NonNegative(Apply(d, e))
  {
  }

  // ---------------------------------------------------------------------
  // Debounced export
  // ---------------------------------------------------------------------

  /** The minimum spacing, in milliseconds, between two exports of `modify`. */
  const DebounceMs: int := 100

  /** Whether a `modify` at time `now` exports, given the time of the last
      export (`is_none_or(|exp| exp.elapsed().as_millis() >= 100)`). */
  predicate Due(lastExport: Option<int>, now: int)
  {
    lastExport.None? || now - lastExport.value >= DebounceMs
  }

  /** Once an export is due it stays due as time goes on, and for the 100 ms
      after an export at `t` none is due. */
  lemma DueWindow(lastExport: Option<int>, now: int, later: int)
    ensures Due(lastExport, now) && now <= later ==> Due(lastExport, later)
    ensures lastExport.Some? ==>
              forall u :: lastExport.value <= u < lastExport.value + DebounceMs ==> !Due(lastExport, u)
  {
  }

  /** The last element of `s`, if any. */
  function Latest(s: seq<int>): (r: Option<int>)
    ensures r.None? <==> s == []
    ensures r.Some? ==> r.value in s
  {
    if s == [] then None else Some(s[|s| - 1])
  }

  /** The times at which a fresh `Database` exports when its `modify`
      complete at the times `calls`, in order. */
  function Exports(calls: seq<int>): (s: seq<int>)
    ensures forall t :: t in s ==> t in calls
    ensures calls != [] ==> s != []
    decreases |calls|
  {
    if calls == [] then []
    else
      var prior := Exports(calls[..|calls| - 1]);
      assert forall t :: t in calls[..|calls| - 1] ==> t in calls;
      var now := calls[|calls| - 1];
      if Due(Latest(prior), now) then prior + [now] else prior
  }

  /** One more call extends the schedule by that call exactly when it is due. */
  lemma ExportsSnoc(calls: seq<int>, now: int)
    ensures Exports(calls + [now]) ==
              if Due(Latest(Exports(calls)), now) then Exports(calls) + [now] else Exports(calls)
  {
    assert (calls + [now])[..|calls|] == calls;
  }

  /** Any two exports of `modify` are at least 100 ms apart, wherever the
      clock stands; hence there is at most one in any 100 ms window. */
  lemma {:induction false} ExportsSpaced(calls: seq<int>)
    ensures forall i, j :: 0 <= i < j < |Exports(calls)| ==>
              Exports(calls)[i] + DebounceMs <= Exports(calls)[j]
  {
    if calls != [] {
      var init := calls[..|calls| - 1];
      var now := calls[|calls| - 1];
      var prior := Exports(init);
      assert calls == init + [now];
      ExportsSnoc(init, now);
      ExportsSpaced(init);
      if Due(Latest(prior), now) {
        var s := prior + [now];
        forall i, j | 0 <= i < j < |s| ensures s[i] + DebounceMs <= s[j] {
          if j == |s| - 1 && i < j {
            assert prior != [] && prior[|prior| - 1] + DebounceMs <= now;
            if i < |prior| - 1 {
              assert prior[i] + DebounceMs <= prior[|prior| - 1];
            }
          }
        }
      }
    }
  }

  /** The first call always exports (no export happened before it). */
  lemma {:induction false} FirstCallExports(calls: seq<int>)
    requires calls != []
    ensures Exports(calls) != [] && Exports(calls)[0] == calls[0]
  {
    var init := calls[..|calls| - 1];
    var now := calls[|calls| - 1];
    assert calls == init + [now];
    ExportsSnoc(init, now);
    if init != [] {
      FirstCallExports(init);
      assert init[0] == calls[0];
    }
  }

  /** Two calls 10 ms apart on a fresh `Database` export once, at the first. */
  lemma TwoQuickCalls(t: int)
    ensures Exports([t, t + 10]) == [t]
  {
    ExportsSnoc([t], t + 10);
    ExportsSnoc([], t);
    assert [t] == [] + [t];
    assert [t, t + 10] == [t] + [t + 10];
  }

  // ---------------------------------------------------------------------
  // Loading
  // ---------------------------------------------------------------------

  /** What `Database::new` finds at the statistics path: `std::fs::exists`
      fails or says no, `read_to_string` fails, or the text does or does not
      deserialise into `Data`. */
  datatype FileState =
    | Missing
    | Inaccessible
    | Unreadable
    | Malformed
    | Holds(contents: Data)

  /** The fatal conditions of `Database::new` (each a `panic!` or `unwrap`). */
  datatype LoadError = NoFile | ExistsFailed | ReadFailed

  /** The counters `Database::new` starts from. */
  function Load(f: FileState): (r: Result<Data, LoadError>)
    ensures r.Err? <==> f.Missing? || f.Inaccessible? || f.Unreadable?
    ensures f.Missing? ==> r == Err(NoFile)
    ensures r.Ok? && !f.Holds? ==> forall b :: Count(r.value, b) == 0
    ensures f.Holds? ==> r == Ok(f.contents)
  {
    match f
    case Missing => Err(NoFile)
    case Inaccessible => Err(ExistsFailed)
    case Unreadable => Err(ReadFailed)
    case Malformed => Ok(Zero())
    case Holds(d) => Ok(d)
  }

  // ---------------------------------------------------------------------
  // The store
  // ---------------------------------------------------------------------

  /** `struct Database`, with the backing file and the history of calls as
      ghost state. */
  class Database {
    var data: Data
    const path: string
    /** Time, in milliseconds, of the last export by `modify`. */
    var lastExport: Option<int>
    /** What the statistics file at `path` holds. */
    ghost var file: FileState
    /** Times of the calls of `modify` that completed, in order. */
    ghost var calls: seq<int>
    /** Number of writes of the statistics file. */
    var exportCount: nat

    ghost predicate Valid()
      reads this
    {
      && lastExport == Latest(Exports(calls))
      && exportCount == |Exports(calls)|
      && (calls != [] ==> file.Holds?)
    }

    constructor (path: string, data: Data, file: FileState)
      ensures Valid()
      ensures this.path == path && this.data == data && this.file == file
      ensures lastExport == None && calls == [] && exportCount == 0
    {
      this.data := data;
      this.path := path;
      this.lastExport := None;
      this.file := file;
      this.calls := [];
      this.exportCount := 0;
    }

    /** `Database::new`: fatal unless the file exists and reads; a file that
        does not parse gives fresh counters. */
    static method Open(path: string, f: FileState) returns (r: Result<Database, LoadError>)
      ensures r.Err? <==> Load(f).Err?
      ensures r.Err? ==> r.error == Load(f).error
      ensures r.Ok? ==> fresh(r.value) && r.value.Valid()
      ensures r.Ok? ==> r.value.data == Load(f).value && r.value.path == path && r.value.file == f
      ensures r.Ok? ==> r.value.lastExport == None && r.value.calls == []
    {
      match f {
        case Missing => r := Err(NoFile);
        case Inaccessible => r := Err(ExistsFailed);
        case Unreadable => r := Err(ReadFailed);
        case Malformed =>
          var db := new Database(path, Zero(), f);
          r := Ok(db);
        case Holds(d) =>
          var db := new Database(path, d, f);
          r := Ok(db);
      }
    }

    /** `Database::export`: overwrite the statistics file with the counters.
        It neither needs nor keeps `Valid()`: called on its own, outside
        `Modify` and `Drop`, it leaves `exportCount` above `|Exports(calls)|`. */
    method Export()
      modifies this`file, this`exportCount
      ensures file == Holds(data) && Load(file) == Ok(data)
      ensures exportCount == old(exportCount) + 1
    {
      file := Holds(data);
      exportCount := exportCount + 1;
    }

    /** The counter update of `Database::modify`: `ok` is false where the
        Rust code reaches `unimplemented!()`, and the counters are unchanged then. */
    method Tally(type_: i32, code: i32, value: i64) returns (ok: bool)
      modifies this`data
      ensures ok <==> !Classify(type_, code, value).Unimplemented?
      ensures ok ==> data == Apply(old(data), Classify(type_, code, value))
      ensures !ok ==> data == old(data)
    {
      ok := true;
      if type_ == EV_REL {
        if code == REL_X {
          if value > 0 {
            data := data.(swipeRight := data.swipeRight + Abs(value));
          } else {
            data := data.(swipeLeft := data.swipeLeft + Abs(value));
          }
        } else if code == REL_Y {
          if value > 0 {
            data := data.(swipeDown := data.swipeDown + Abs(value));
          } else {
            data := data.(swipeUp := data.swipeUp + Abs(value));
          }
        } else if code == REL_WHEEL {
          if value > 0 {
            data := data.(wheelUp := data.wheelUp + 1);
          } else {
            data := data.(wheelDown := data.wheelDown + 1);
          }
        } else {
          ok := false;
        }
      } else if type_ == EV_KEY {
        if code == BTN_LEFT {
          data := data.(left := data.left + 1);
        } else if code == BTN_RIGHT {
          data := data.(right := data.right + 1);
        } else if code == BTN_MIDDLE {
          data := data.(middle := data.middle + 1);
        } else if code == BTN_SIDE {
          data := data.(side := data.side + 1);
        } else if code == BTN_EXTRA {
          data := data.(extra := data.extra + 1);
        } else {
          ok := false;
        }
      }
    }

    /** `Database::modify` at clock time `now` (ms). `ok` is false where the
        Rust code reaches `unimplemented!()`; nothing has changed then. */
    method Modify(type_: i32, code: i32, value: i64, now: int) returns (ok: bool)
      requires Valid()
      modifies this
      ensures Valid()
      ensures ok <==> !Classify(type_, code, value).Unimplemented?
      ensures ok ==> data == Apply(old(data), Classify(type_, code, value))
      ensures ok ==> calls == old(calls) + [now]
      ensures ok ==> lastExport == if Due(old(lastExport), now) then Some(now) else old(lastExport)
      ensures ok ==> file == if Due(old(lastExport), now) then Holds(data) else old(file)
      ensures !ok ==> data == old(data) && lastExport == old(lastExport) && file == old(file)
      ensures !ok ==> calls == old(calls) && exportCount == old(exportCount)
    {
      ok := Tally(type_, code, value);
      if !ok {
        return;
      }
      ExportsSnoc(calls, now);
      if Due(lastExport, now) {
        Export();
        lastExport := Some(now);
      }
      calls := calls + [now];
    }

    /** `Drop for Database`: export whatever the debounce held back. */
    method Drop()
      requires Valid()
      modifies this`file, this`exportCount
      ensures file == Holds(data) && Load(file) == Ok(data)
      ensures exportCount == |Exports(calls)| + 1
    {
      Export();
    }
  }
}
