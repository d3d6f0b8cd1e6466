/** Any number of threads sharing any number of secret containers. Each call holds
    its container's mutex throughout, so an execution is a schedule of whole calls. */
module Lifecycle {
  import opened Bytes
  import opened Errors
  import opened Effects
  import opened SecureBytes

  // One call by some thread on container number `box`.
  datatype Action =
    | Use(box: nat, fn: bytes -> bytes)
    | Length(box: nat)
    | Destroy(box: nat)
    | Clone(box: nat)

  datatype Observed = Ran(saw: bytes) | Refused | Size(n: nat) | Done | Cloned | NoMemory | NoBox

  // The payloads of the containers (None: destroyed) and the calls to mlock so far.
  datatype Store = Store(cells: seq<Option<bytes>>, tick: nat)

  ghost predicate KeepsLength(a: Action) {
    a.Use? ==> forall b :: |a.fn(b)| == |b|
  }

  function Act(s: Store, faults: nat -> bool, a: Action): (Store, Observed) {
    if a.box >= |s.cells| then (s, NoBox) else
    match (a, s.cells[a.box])
    case (Use(i, fn), Some(b)) => (s.(cells := s.cells[i := Some(fn(b))]), Ran(b))
    case (Use(_, _), None) => (s, Refused)
    case (Length(_), Some(b)) => (s, Size(|b|))
    case (Length(_), None) => (s, Size(0))
    case (Destroy(i), _) => (s.(cells := s.cells[i := None]), Done)
    case (Clone(_), None) => (s, Refused)
    case (Clone(_), Some(b)) =>
      if faults(s.tick) then (s.(tick := s.tick + 1), NoMemory)
      else (Store(s.cells + [Some(b)], s.tick + 1), Cloned)
  }

  function After(s: Store, faults: nat -> bool, schedule: seq<Action>): Store
    decreases |schedule|
  {
    if schedule == [] then s else After(Act(s, faults, schedule[0]).0, faults, schedule[1..])
  }

  function Trace(s: Store, faults: nat -> bool, schedule: seq<Action>): (t: seq<Observed>)
    ensures |t| == |schedule|
    decreases |schedule|
  {
    if schedule == [] then []
    else
      var (s', o) := Act(s, faults, schedule[0]);
      [o] + Trace(s', faults, schedule[1..])
  }

  // What calls on a destroyed container are told.
  predicate AfterDeath(a: Action, o: Observed) {
    match a
    case Use(_, _) => o == Refused
    case Length(_) => o == Size(0)
    case Destroy(_) => o == Done
    case Clone(_) => o == Refused
  }

  // Destruction is final on every schedule: no later callback runs, no clone is
  // made, and the length reads as zero, whichever thread asks.
  lemma {:induction false} DestroyedForever(s: Store, faults: nat -> bool, schedule: seq<Action>, i: nat)
    requires i < |s.cells| && s.cells[i].None?
    ensures i < |After(s, faults, schedule).cells| && After(s, faults, schedule).cells[i].None?
    ensures forall k :: 0 <= k < |schedule| && schedule[k].box == i ==>
      AfterDeath(schedule[k], Trace(s, faults, schedule)[k])
    decreases |schedule|
  {
    if schedule != [] {
      var s' := Act(s, faults, schedule[0]).0;
      DestroyedForever(s', faults, schedule[1..], i);
      var t := Trace(s', faults, schedule[1..]);
      forall k | 0 <= k < |schedule| && schedule[k].box == i
        ensures AfterDeath(schedule[k], Trace(s, faults, schedule)[k])
      {
        if k > 0 { assert schedule[1..][k - 1] == schedule[k] && Trace(s, faults, schedule)[k] == t[k - 1]; }
      }
    }
  }

  // A destruction anywhere in a schedule silences everything after it, also for a
  // container that was cloned on the way.
  lemma {:induction false} AfterDestroyNothingRuns(s: Store, faults: nat -> bool, schedule: seq<Action>, k: nat, l: nat)
    requires k < l < |schedule|
    requires schedule[k].Destroy? && schedule[l].box == schedule[k].box
    requires schedule[k].box < |After(s, faults, schedule[..k]).cells|
    ensures AfterDeath(schedule[l], Trace(s, faults, schedule)[l])
    decreases k
  {
    var s' := Act(s, faults, schedule[0]).0;
    if k == 0 {
      DestroyedForever(s', faults, schedule[1..], schedule[0].box);
    } else {
      assert schedule[..k][0] == schedule[0] && schedule[..k][1..] == schedule[1..][..k - 1];
      AfterDestroyNothingRuns(s', faults, schedule[1..], k - 1, l - 1);
    }
  }

  // A container changes only through calls on itself: however its clones and all
  // others are used or destroyed, its payload stays.
  lemma {:induction false} OthersDoNotInterfere(s: Store, faults: nat -> bool, schedule: seq<Action>, i: nat)
    requires i < |s.cells|
    requires forall k :: 0 <= k < |schedule| && schedule[k].box == i ==> schedule[k].Length? || schedule[k].Clone?
    ensures i < |After(s, faults, schedule).cells| && After(s, faults, schedule).cells[i] == s.cells[i]
    decreases |schedule|
  {
    if schedule != [] {
      forall k | 0 <= k < |schedule[1..]| && schedule[1..][k].box == i
        ensures schedule[1..][k].Length? || schedule[1..][k].Clone?
      {
        assert schedule[1..][k] == schedule[k + 1];
      }
      OthersDoNotInterfere(Act(s, faults, schedule[0]).0, faults, schedule[1..], i);
    }
  }

  // ---- the containers themselves follow this machine ----

  // Distinct containers with distinct storage.
  ghost predicate Apart(boxes: seq<SecureBytes>)
    reads set b | b in boxes
  {
    (forall i :: 0 <= i < |boxes| ==> boxes[i].Valid())
    && forall i, j :: 0 <= i < j < |boxes| ==>
         boxes[i] != boxes[j] && (boxes[i].buf != null ==> boxes[i].buf != boxes[j].buf)
  }

  ghost predicate Shows(boxes: seq<SecureBytes>, s: Store)
    reads set b | b in boxes, set b | b in boxes && b.buf != null :: b.buf
  {
    |boxes| == |s.cells| && forall i :: 0 <= i < |boxes| ==> boxes[i].Contents() == s.cells[i]
  }

  // Old containers keep their storage until they are destroyed, new ones are new throughout.
  twostate predicate Grew(boxes: seq<SecureBytes>, new boxes': seq<SecureBytes>)
    reads set b | b in boxes', set b | b in boxes
  {
    (forall b :: b in boxes ==> b.buf == null || b.buf == old(b.buf))
    && forall b :: b in boxes' ==> b in boxes || (fresh(b) && (b.buf != null ==> fresh(b.buf)))
  }

  // Use on container i: its callback sees and rewrites that payload alone.
  method PerformUse(boxes: seq<SecureBytes>, i: nat, fn: bytes -> bytes, ghost s: Store) returns (o: Observed)
    requires Apart(boxes) && Shows(boxes, s) && i < |boxes| && forall b :: |fn(b)| == |b|
    modifies boxes[i].buf
    ensures Apart(boxes)
    ensures forall faults :: o == Act(s, faults, Use(i, fn)).1 && Shows(boxes, Act(s, faults, Use(i, fn)).0)
  {
    var saw := boxes[i].Use(fn);
    o := if saw.Success? then Ran(saw.value) else Refused;
  }

  method PerformDestroy(w: World, boxes: seq<SecureBytes>, i: nat, ghost s: Store) returns (o: Observed)
    requires w.Valid() && Apart(boxes) && Shows(boxes, s) && i < |boxes|
    modifies w`live, w`unlocks, boxes[i], boxes[i].buf
    ensures w.Valid() && Apart(boxes)
    ensures forall faults :: o == Act(s, faults, Destroy(i)).1 && Shows(boxes, Act(s, faults, Destroy(i)).0)
  {
    var _ := boxes[i].Destroy(w);
    o := Done;
  }

  method PerformClone(w: World, boxes: seq<SecureBytes>, i: nat, ghost s: Store)
    returns (boxes': seq<SecureBytes>, o: Observed)
    requires w.Valid() && Apart(boxes) && Shows(boxes, s) && s.tick == w.tick && i < |boxes|
    modifies w`tick, w`hits, w`fault, w`live, w`residue
    ensures w.Valid() && Apart(boxes') && boxes <= boxes' && Grew(boxes, boxes')
    ensures o == Act(s, w.faults, Clone(i)).1 && Shows(boxes', Act(s, w.faults, Clone(i)).0)
    ensures w.tick == Act(s, w.faults, Clone(i)).0.tick
  {
    hide Failing;
    var r, _ := boxes[i].Clone(w);
    match r {
      case Success(copy) => return boxes + [copy], Cloned;
      case Failure(e) => return boxes, if e == Destroyed then Refused else NoMemory;
    }
  }

  // One call on a shared container. The containers keep their numbers; a clone
  // joins at the end.
  method Perform(w: World, boxes: seq<SecureBytes>, a: Action, ghost s: Store)
    returns (boxes': seq<SecureBytes>, o: Observed)
    requires w.Valid() && Apart(boxes) && Shows(boxes, s) && s.tick == w.tick && KeepsLength(a)
    modifies w`tick, w`hits, w`fault, w`live, w`residue, w`unlocks
    modifies if a.box < |boxes| then {boxes[a.box]} else {}
    modifies if a.box < |boxes| && boxes[a.box].buf != null then {boxes[a.box].buf} else {}
    ensures w.Valid() && Apart(boxes') && boxes <= boxes' && Grew(boxes, boxes')
    ensures o == Act(s, w.faults, a).1 && Shows(boxes', Act(s, w.faults, a).0)
    ensures w.tick == Act(s, w.faults, a).0.tick
  {
    boxes' := boxes;
    if a.box >= |boxes| { return boxes, NoBox; }
    match a {
      case Use(i, fn) =>
        o := PerformUse(boxes, i, fn, s);
      case Length(i) =>
        var n := boxes[i].Len();
        o := Size(n);
      case Destroy(i) =>
        o := PerformDestroy(w, boxes, i, s);
      case Clone(i) =>
        boxes', o := PerformClone(w, boxes, i, s);
    }
  }

  // A whole schedule on shared containers, which stay distinct with distinct storage
  // throughout: what every call observes is the trace, and what is left is the final store.
  method PerformAll(w: World, boxes: seq<SecureBytes>, schedule: seq<Action>, ghost s: Store)
    returns (boxes': seq<SecureBytes>, seen: seq<Observed>)
    requires w.Valid() && Apart(boxes) && Shows(boxes, s) && s.tick == w.tick
    requires forall a :: a in schedule ==> KeepsLength(a)
    modifies w`tick, w`hits, w`fault, w`live, w`residue, w`unlocks
    modifies set b | b in boxes, set b | b in boxes && b.buf != null :: b.buf
    ensures w.Valid() && Apart(boxes') && boxes <= boxes' && Grew(boxes, boxes')
    ensures Shows(boxes', After(s, w.faults, schedule)) && seen == Trace(s, w.faults, schedule)
  {
    hide Act, After, Trace, Shows, Failing;
    boxes', seen := boxes, [];
    ghost var now := s;
    assert schedule[0..] == schedule;
    for k := 0 to |schedule|
      invariant w.Valid() && Apart(boxes') && boxes <= boxes' && Grew(boxes, boxes')
      invariant Shows(boxes', now) && now.tick == w.tick
      invariant After(s, w.faults, schedule) == After(now, w.faults, schedule[k..])
      invariant Trace(s, w.faults, schedule) == seen + Trace(now, w.faults, schedule[k..])
    {
      OneTurn(now, w.faults, schedule, k, seen);
      var o;
      boxes', o := Perform(w, boxes', schedule[k], now);
      now := Act(now, w.faults, schedule[k]).0;
      seen := seen + [o];
    }
    NothingLeft(now, w.faults, schedule);
  }

  lemma OneTurn(s: Store, faults: nat -> bool, schedule: seq<Action>, k: nat, seen: seq<Observed>)
    requires k < |schedule|
    ensures var (s', o) := Act(s, faults, schedule[k]);
      After(s, faults, schedule[k..]) == After(s', faults, schedule[k + 1..])
      && seen + Trace(s, faults, schedule[k..]) == seen + [o] + Trace(s', faults, schedule[k + 1..])
  {
    assert schedule[k..][0] == schedule[k] && schedule[k..][1..] == schedule[k + 1..];
  }

  lemma NothingLeft(s: Store, faults: nat -> bool, schedule: seq<Action>)
    ensures After(s, faults, schedule[|schedule|..]) == s && Trace(s, faults, schedule[|schedule|..]) == []
  {
  }
}
