/** The envelope: enrolling, adding, removing, unlocking, printing and parsing (envelope.go). */
module Envelopes {
  import opened Bytes
  import opened Errors
  import opened Kinds
  import opened Slots
  import opened Primitives
  import opened Effects
  import opened SecureBytes
  import opened Policies
  import M = Methods
  import P = Protocol
  import R = Parser
  import Wire

  // ---- what the operations compute on values ----

  predicate DekFits(dek: Option<bytes>) {
    dek.Some? && 0 < |dek.value| <= MAX_DEK_LEN
  }

  function AddWant(c: Crypto, e: Wire.Image, m: P.Credential, dek: Option<bytes>, coins: nat -> byte,
      at: nat): Result<Wire.Image> {
    if !DekFits(dek) then Failure(DekSize)
    else if |e.slots| >= MAX_SLOT_COUNT then Failure(Malformed)
    else if P.TypeOf(m) != METHOD_RECOVERY && PolicyForMethod(P.TypeOf(m)) != PolicyOf(e.slots)
    then Failure(PolicyMismatch)
    else
      var s :- P.Enroll(c, m, dek, coins, at);
      Success(e.(slots := e.slots + [s]))
  }

  // The sealings AddSlot makes.
  function AddLog(c: Crypto, e: Wire.Image, m: P.Credential, dek: Option<bytes>, coins: nat -> byte,
      at: nat): seq<Sealed> {
    if AddWant(c, e, m, dek, coins, at).Failure? then [] else P.EnrollLog(c, m, dek, coins, at)
  }

  // The position of the first slot with this ID, or the number of slots.
  function Find(slots: seq<Slot>, id: SlotId): (i: nat)
    ensures i <= |slots| && (i < |slots| ==> slots[i].id == id)
    ensures forall j :: 0 <= j < i ==> slots[j].id != id
  {
    if slots == [] then 0
    else if slots[0].id == id then 0
    else 1 + Find(slots[1..], id)
  }

  function RemoveWant(e: Wire.Image, id: SlotId): Result<Wire.Image> {
    var i := Find(e.slots, id);
    if i == |e.slots| then Failure(SlotNotFound)
    else if |e.slots| <= 1 then Failure(PolicyUnsafe)
    else if Primary(e.slots[i]) && PrimaryCount(e.slots) <= 1 then Failure(PolicyUnsafe)
    else Success(e.(slots := e.slots[..i] + e.slots[i + 1..]))
  }

  // Enrolling one slot per method, in order.
  function EnrollAll(c: Crypto, ms: seq<P.Credential>, dek: Option<bytes>, coins: nat -> byte,
      at: nat): Result<seq<Slot>> {
    if ms == [] then Success([]) else
    var s :- P.Enroll(c, ms[0], dek, coins, at);
    var ss :- EnrollAll(c, ms[1..], dek, coins, at + P.CoinsUsed(ms[0]));
    Success([s] + ss)
  }

  // The sealings made on the way, up to the first method that fails.
  function EnrollAllLog(c: Crypto, ms: seq<P.Credential>, dek: Option<bytes>, coins: nat -> byte,
      at: nat): seq<Sealed> {
    if ms == [] || P.Enroll(c, ms[0], dek, coins, at).Failure? then []
    else P.EnrollLog(c, ms[0], dek, coins, at) + EnrollAllLog(c, ms[1..], dek, coins, at + P.CoinsUsed(ms[0]))
  }

  function NewWant(c: Crypto, dek: Option<bytes>, policy: byte, ms: seq<P.Credential>, coins: nat -> byte,
      at: nat): Result<Wire.Image> {
    if ms == [] then Failure(NoMethods)
    else if !PolicyValid(policy) then Failure(PolicyMismatch)
    else if !DekFits(dek) then Failure(DekSize)
    else
      var slots :- EnrollAll(c, ms, dek, coins, at);
      if PolicyOf(slots) != policy then Failure(PolicyMismatch)
      else Success(Wire.Image(FORMAT_VERSION, policy, slots))
  }

  function NewLog(c: Crypto, dek: Option<bytes>, policy: byte, ms: seq<P.Credential>, coins: nat -> byte,
      at: nat): seq<Sealed> {
    if ms == [] || !PolicyValid(policy) || !DekFits(dek) then [] else EnrollAllLog(c, ms, dek, coins, at)
  }

  function CoinsUsedBy(ms: seq<P.Credential>): nat {
    if ms == [] then 0 else P.CoinsUsed(ms[0]) + CoinsUsedBy(ms[1..])
  }

  // One more method after a list whose enrolments all succeeded.
  lemma {:induction false} EnrollAllOneMore(c: Crypto, ms: seq<P.Credential>, m: P.Credential, dek: Option<bytes>,
                                            coins: nat -> byte, at: nat)
    requires EnrollAll(c, ms, dek, coins, at).Success?
    ensures EnrollAll(c, ms + [m], dek, coins, at) ==
      match P.Enroll(c, m, dek, coins, at + CoinsUsedBy(ms))
      case Failure(e) => Failure(e)
      case Success(s) => Success(EnrollAll(c, ms, dek, coins, at).value + [s])
    ensures EnrollAllLog(c, ms + [m], dek, coins, at) == EnrollAllLog(c, ms, dek, coins, at)
      + if P.Enroll(c, m, dek, coins, at + CoinsUsedBy(ms)).Failure? then []
        else P.EnrollLog(c, m, dek, coins, at + CoinsUsedBy(ms))
    ensures CoinsUsedBy(ms + [m]) == CoinsUsedBy(ms) + P.CoinsUsed(m)
    decreases |ms|
  {
    hide P.Enroll, P.EnrollLog, P.CoinsUsed;
    var next := at + CoinsUsedBy(ms);
    var s := P.Enroll(c, m, dek, coins, next);
    if ms == [] {
      assert ms + [m] == [m] && [m][1..] == [];
      if s.Success? { assert [s.value] + [] == [] + [s.value]; }
    } else {
      assert (ms + [m])[1..] == ms[1..] + [m];
      var after := at + P.CoinsUsed(ms[0]);
      EnrollAllOneMore(c, ms[1..], m, dek, coins, after);
      var first := P.Enroll(c, ms[0], dek, coins, at).value;
      var rest := EnrollAll(c, ms[1..], dek, coins, after).value;
      if s.Success? { Assoc([first], rest, [s.value]); }
      Assoc(P.EnrollLog(c, ms[0], dek, coins, at), EnrollAllLog(c, ms[1..], dek, coins, after),
        if s.Failure? then [] else P.EnrollLog(c, m, dek, coins, next));
    }
  }

  // Once an enrolment fails, later methods do not matter.
  lemma {:induction false} EnrollAllStops(c: Crypto, ms: seq<P.Credential>, more: seq<P.Credential>, dek: Option<bytes>,
                                          coins: nat -> byte, at: nat)
    requires EnrollAll(c, ms, dek, coins, at).Failure?
    ensures EnrollAll(c, ms + more, dek, coins, at) == EnrollAll(c, ms, dek, coins, at)
    ensures EnrollAllLog(c, ms + more, dek, coins, at) == EnrollAllLog(c, ms, dek, coins, at)
    decreases |ms|
  {
    hide P.Enroll, P.EnrollLog;
    if P.Enroll(c, ms[0], dek, coins, at).Success? {
      assert (ms + more)[1..] == ms[1..] + more;
      EnrollAllStops(c, ms[1..], more, dek, coins, at + P.CoinsUsed(ms[0]));
    }
  }

  // The policy each kind of credential belongs to; recovery codes belong to any.
  predicate Suits(m: P.Credential, policy: byte) {
    match m
    case Password(_, _, _) => policy == 1
    case TwoFactor(_, _, _, _, _) => policy == 2
    case YubiKey(_, _, _) => policy == 3
    case Recovery(_, _) => true
  }

  // Each slot stands where its method stood, enrolled with the coins behind those of
  // the methods before it.
  lemma {:induction false} EnrollAllInOrder(c: Crypto, ms: seq<P.Credential>, dek: Option<bytes>, coins: nat -> byte,
                                            at: nat, i: nat)
    requires EnrollAll(c, ms, dek, coins, at).Success? && i < |ms|
    ensures |EnrollAll(c, ms, dek, coins, at).value| == |ms|
    ensures P.Enroll(c, ms[i], dek, coins, at + CoinsUsedBy(ms[..i]))
      == Success(EnrollAll(c, ms, dek, coins, at).value[i])
    decreases |ms|
  {
    hide P.Enroll, P.CoinsUsed;
    var next := at + P.CoinsUsed(ms[0]);
    var rest := EnrollAll(c, ms[1..], dek, coins, next).value;
    assert EnrollAll(c, ms, dek, coins, at).value[1..] == rest;
    if i == 0 {
      if |ms| > 1 { EnrollAllInOrder(c, ms[1..], dek, coins, next, 0); }
    } else {
      EnrollAllInOrder(c, ms[1..], dek, coins, next, i - 1);
      assert ms[..i][0] == ms[0] && ms[..i][1..] == ms[1..][..i - 1];
    }
  }

  lemma TypesInNumbers(c: Crypto, m: P.Credential, dek: Option<bytes>, coins: nat -> byte, at: nat)
    requires P.Enroll(c, m, dek, coins, at).Success?
    ensures P.Enroll(c, m, dek, coins, at).value.typ
      == if m.Password? then 1 else if m.YubiKey? then 2 else if m.TwoFactor? then 3 else 4
  {
    hide P.Enroll;
    P.EnrolledFields(c, m, dek, coins, at);
  }

  // Method i cannot enrol, and every method before it can.
  ghost predicate FirstRefused(c: Crypto, ms: seq<P.Credential>, dek: Option<bytes>, i: int) {
    0 <= i < |ms| && P.EnrollRefusal(c, ms[i], dek).Some?
    && forall j :: 0 <= j < i ==> P.EnrollRefusal(c, ms[j], dek).None?
  }

  lemma {:induction false} EnrollAllErrors(c: Crypto, ms: seq<P.Credential>, dek: Option<bytes>, coins: nat -> byte,
                                           at: nat)
    ensures match EnrollAll(c, ms, dek, coins, at)
      case Success(slots) => |slots| == |ms| && forall i :: 0 <= i < |ms| ==> P.EnrollRefusal(c, ms[i], dek).None?
      case Failure(e) => exists i :: FirstRefused(c, ms, dek, i) && Some(e) == P.EnrollRefusal(c, ms[i], dek)
    decreases |ms|
  {
    hide P.Enroll, P.CoinsUsed, P.EnrollRefusal;
    if ms != [] {
      P.EnrollExactly(c, ms[0], dek, coins, at);
      var next := at + P.CoinsUsed(ms[0]);
      EnrollAllErrors(c, ms[1..], dek, coins, next);
      var rest := EnrollAll(c, ms[1..], dek, coins, next);
      if P.EnrollRefusal(c, ms[0], dek).Some? {
        assert FirstRefused(c, ms, dek, 0);
      } else if rest.Failure? {
        var i :| FirstRefused(c, ms[1..], dek, i) && Some(rest.error) == P.EnrollRefusal(c, ms[1..][i], dek);
        forall j | 0 <= j < i + 1 ensures P.EnrollRefusal(c, ms[j], dek).None? {
          if j > 0 { assert ms[j] == ms[1..][j - 1]; }
        }
        assert FirstRefused(c, ms, dek, i + 1);
      }
    }
  }

  // When NewEnvelope makes an envelope: a key of 1 to 240 bytes, methods that all enrol,
  // at least one of them no recovery code, and all others of the declared policy.
  lemma NewExactly(c: Crypto, dek: Option<bytes>, policy: byte, ms: seq<P.Credential>, coins: nat -> byte, at: nat)
    ensures NewWant(c, dek, policy, ms, coins, at).Success? <==>
      1 <= policy <= 3 && dek.Some? && 1 <= |dek.value| <= 240
      && (forall i :: 0 <= i < |ms| ==> P.EnrollRefusal(c, ms[i], dek).None?)
      && (exists i :: 0 <= i < |ms| && !ms[i].Recovery?)
      && forall i :: 0 <= i < |ms| ==> Suits(ms[i], policy)
    ensures NewWant(c, dek, policy, ms, coins, at).Success? ==>
      var e := NewWant(c, dek, policy, ms, coins, at).value;
      e.version == 1 && e.policyHint == policy && |e.slots| == |ms|
  {
    hide P.Enroll, P.CoinsUsed, PolicyOf, EnrollAll, CoinsUsedBy, P.EnrollRefusal;
    EnrollAllErrors(c, ms, dek, coins, at);
    var r := EnrollAll(c, ms, dek, coins, at);
    if r.Success? && 1 <= policy <= 3 {
      forall i | 0 <= i < |ms|
        ensures (r.value[i].typ != 4 <==> !ms[i].Recovery?)
        ensures Suits(ms[i], policy) <==>
          r.value[i].typ == 4 || r.value[i].typ == if policy == 1 then 1 else if policy == 2 then 3 else 2
      {
        EnrollAllInOrder(c, ms, dek, coins, at, i);
        TypesInNumbers(c, ms[i], dek, coins, at + CoinsUsedBy(ms[..i]));
      }
      if ms != [] { EnrollAllInOrder(c, ms, dek, coins, at, 0); }
      PolicyByTypes(r.value, policy);
    }
  }

  // Why NewEnvelope fails, in the order of its checks.
  lemma NewErrors(c: Crypto, dek: Option<bytes>, policy: byte, ms: seq<P.Credential>, coins: nat -> byte, at: nat)
    requires NewWant(c, dek, policy, ms, coins, at).Failure?
    ensures var e := NewWant(c, dek, policy, ms, coins, at).error;
      if ms == [] then e == NoMethods
      else if !(1 <= policy <= 3) then e == PolicyMismatch
      else if dek.None? || !(1 <= |dek.value| <= 240) then e == DekSize
      else if exists i :: 0 <= i < |ms| && P.EnrollRefusal(c, ms[i], dek).Some? then
        exists i :: FirstRefused(c, ms, dek, i) && Some(e) == P.EnrollRefusal(c, ms[i], dek)
      else e == PolicyMismatch
  {
    hide P.Enroll, P.CoinsUsed, PolicyOf, P.EnrollRefusal;
    EnrollAllErrors(c, ms, dek, coins, at);
    NewExactly(c, dek, policy, ms, coins, at);
  }

  // When RemoveSlot removes: the ID is there, it is not the only slot, and another slot
  // that is no recovery slot remains unless the removed one was a recovery slot.
  lemma RemoveExactly(e: Wire.Image, id: SlotId, i: nat)
    requires i < |e.slots| && e.slots[i].id == id && forall j :: 0 <= j < i ==> e.slots[j].id != id
    ensures RemoveWant(e, id) ==
      if |e.slots| > 1
         && (e.slots[i].typ == 4 || exists j :: 0 <= j < |e.slots| && j != i && e.slots[j].typ != 4)
      then Success(e.(slots := e.slots[..i] + e.slots[i + 1..]))
      else Failure(PolicyUnsafe)
  {
    hide Primary, PrimaryCount;
    assert Find(e.slots, id) == i;
    if Primary(e.slots[i]) { OthersPrimary(e.slots, i); }
    PrimaryIsNotRecovery(e.slots[i]);
  }

  lemma PrimaryIsNotRecovery(s: Slot)
    ensures Primary(s) <==> s.typ != 4
  {
  }

  // A primary slot is the only one exactly when all others are recovery slots.
  lemma OthersPrimary(slots: seq<Slot>, i: nat)
    requires i < |slots| && Primary(slots[i])
    ensures PrimaryCount(slots) > 1 <==> exists j :: 0 <= j < |slots| && j != i && slots[j].typ != 4
  {
    hide PrimaryCount;
    var a, s, b := slots[..i], slots[i], slots[i + 1..];
    assert slots == a + [s] + b;
    PrimaryCountSplit(a + [s], b);
    PrimaryCountSplit(a, [s]);
    PrimaryCountSplit(a, b);
    OneCounts(s);
    PrimaryCountPositive(a + b);
    forall j | 0 <= j < |slots| && j != i ensures slots[j] in a + b && (Primary(slots[j]) <==> slots[j].typ != 4) {
      assert slots[j] == (a + b)[if j < i then j else j - 1];
    }
    if t :| t in a + b && Primary(t) { PlaceOf(a, s, b, t); }
  }

  lemma PlaceOf(a: seq<Slot>, s: Slot, b: seq<Slot>, t: Slot)
    requires t in a + b
    ensures exists j :: 0 <= j < |a + [s] + b| && j != |a| && (a + [s] + b)[j] == t
  {
    var k :| 0 <= k < |a + b| && (a + b)[k] == t;
    var j := if k < |a| then k else k + 1;
    assert (a + [s] + b)[j] == t;
  }

  lemma RemoveUnknown(e: Wire.Image, id: SlotId)
    ensures RemoveWant(e, id) == Failure(SlotNotFound) <==> forall j :: 0 <= j < |e.slots| ==> e.slots[j].id != id
  {
    hide PrimaryCount;
  }

  // What AddSlot does to any envelope.
  lemma AddExactly(c: Crypto, e: Wire.Image, m: P.Credential, dek: Option<bytes>, coins: nat -> byte, at: nat)
    ensures AddWant(c, e, m, dek, coins, at) ==
      if dek.None? || !(1 <= |dek.value| <= 240) then Failure(DekSize)
      else if |e.slots| >= 64 then Failure(Malformed)
      else if !Suits(m, PolicyOf(e.slots)) then Failure(PolicyMismatch)
      else match P.EnrollRefusal(c, m, dek)
        case Some(err) => Failure(err)
        case None => Success(e.(slots := e.slots + [P.Enroll(c, m, dek, coins, at).value]))
  {
    hide P.Enroll, PolicyOf, P.EnrollRefusal;
    P.EnrollExactly(c, m, dek, coins, at);
  }

  lemma VerdictStep(c: Crypto, log: seq<Sealed>, a: (Slot, P.Credential), rest: seq<(Slot, P.Credential)>)
    ensures P.Verdict(c, log, [a] + rest)
      == if P.Unlock(c, log, a.1, a.0) == Failure(AuthFailed) then P.Verdict(c, log, rest)
         else P.Unlock(c, log, a.1, a.0)
  {
    hide P.Unlock;
    assert ([a] + rest)[1..] == rest;
  }

  lemma SameType(m: M.Method)
    ensures P.TypeOf(M.View(m)) == M.TypeOf(m)
  {
  }

  class Envelope {
    var version: byte
    var policyHint: byte
    var slots: seq<Slot>

    ghost function View(): Wire.Image
      reads this
    {
      Wire.Image(version, policyHint, slots)
    }

    constructor (version: byte, policyHint: byte, slots: seq<Slot>)
      ensures View() == Wire.Image(version, policyHint, slots)
    {
      this.version := version;
      this.policyHint := policyHint;
      this.slots := slots;
    }

    // The loop of NewEnvelope: one slot per method, in order.
    static method EnrollEach(w: World, dek: SecureBytes, ms: seq<M.Method>,
                             ghost vs: seq<P.Credential>, ghost pt: Option<bytes>) returns (r: Result<seq<Slot>>)
      requires w.Valid() && dek.Valid() && |vs| == |ms| && pt == dek.Contents()
      requires forall j :: 0 <= j < |ms| ==> M.Ready(ms[j]) && vs[j] == M.View(ms[j])
      modifies w`tick, w`hits, w`fault, w`drawn, w`live, w`residue, w`unlocks, w`log
      ensures w.Valid() && w.live == old(w.live) && w.residue == old(w.residue)
      ensures w.hits == old(w.hits) ==>
        r == EnrollAll(w.crypto, vs, pt, w.coins, old(w.drawn))
        && w.log == old(w.log) + EnrollAllLog(w.crypto, vs, pt, w.coins, old(w.drawn))
      ensures w.hits != old(w.hits) ==>
        w.hits == old(w.hits) + 1 && r == Failure(Fault(w.fault))
        && exists n :: 0 <= n <= |vs|
                       && w.log == old(w.log) + EnrollAllLog(w.crypto, vs[..n], pt, w.coins, old(w.drawn))
    {
      hide Failing, Honest, P.Enroll, P.EnrollLog, EnrollAll, EnrollAllLog, CoinsUsedBy, P.CoinsUsed;
      ghost var c, coins, at := w.crypto, w.coins, w.drawn;
      var made: seq<Slot> := [];
      NothingEnrolled(c, vs, pt, coins, at);
      for i := 0 to |ms|
        modifies w`tick, w`hits, w`fault, w`drawn, w`live, w`residue, w`unlocks, w`log
        invariant w.Valid() && w.hits == old(w.hits) && w.live == old(w.live) && w.residue == old(w.residue)
        invariant forall j :: i <= j < |ms| ==> M.Ready(ms[j]) && vs[j] == M.View(ms[j])
        invariant pt == dek.Contents()
        invariant EnrollAll(c, vs[..i], pt, coins, at) == Success(made)
        invariant w.log == old(w.log) + EnrollAllLog(c, vs[..i], pt, coins, at)
        invariant w.drawn == at + CoinsUsedBy(vs[..i])
      {
        EnrollStep(c, vs, i, pt, coins, at);
        var _ :- w.CtxErr();
        var slot := M.Enroll(w, ms[i], dek, vs[i], pt);
        if slot.Failure? { return Failure(slot.error); }
        Assoc(old(w.log), EnrollAllLog(c, vs[..i], pt, coins, at), P.EnrollLog(c, vs[i], pt, coins,
            at + CoinsUsedBy(vs[..i])));
        made := made + [slot.value];
      }
      assert vs[..|ms|] == vs;
      return Success(made);
    }

    // Method i either extends the enrolments made so far, or ends them.
    static lemma EnrollStep(c: Crypto, vs: seq<P.Credential>, i: nat, dek: Option<bytes>, coins: nat -> byte, at: nat)
      requires i < |vs| && EnrollAll(c, vs[..i], dek, coins, at).Success?
      ensures var next := at + CoinsUsedBy(vs[..i]);
        CoinsUsedBy(vs[..i + 1]) == CoinsUsedBy(vs[..i]) + P.CoinsUsed(vs[i])
        && match P.Enroll(c, vs[i], dek, coins, next)
           case Success(s) =>
             EnrollAll(c, vs[..i + 1], dek, coins, at) == Success(EnrollAll(c, vs[..i], dek, coins, at).value + [s])
             && EnrollAllLog(c, vs[..i + 1], dek, coins, at)
                == EnrollAllLog(c, vs[..i], dek, coins, at) + P.EnrollLog(c, vs[i], dek, coins, next)
           case Failure(e) =>
             EnrollAll(c, vs, dek, coins, at) == Failure(e)
             && EnrollAllLog(c, vs, dek, coins, at) == EnrollAllLog(c, vs[..i], dek, coins, at)
             && P.EnrollLog(c, vs[i], dek, coins, next) == []
    {
      hide P.Enroll, P.EnrollLog, EnrollAll, EnrollAllLog, CoinsUsedBy, P.CoinsUsed;
      EnrollAllOneMore(c, vs[..i], vs[i], dek, coins, at);
      assert vs[..i] + [vs[i]] == vs[..i + 1];
      EnrollLogEmpty(c, vs[i], dek, coins, at + CoinsUsedBy(vs[..i]));
      if P.Enroll(c, vs[i], dek, coins, at + CoinsUsedBy(vs[..i])).Failure? {
        EnrollAllStops(c, vs[..i + 1], vs[i + 1..], dek, coins, at);
        assert vs[..i + 1] + vs[i + 1..] == vs;
      }
    }

    // NewEnvelope: the declared policy must be the one the new slots imply.
    static method NewEnvelope(w: World, dek: SecureBytes, policy: byte, ms: seq<M.Method>,
                              ghost vs: seq<P.Credential>, ghost pt: Option<bytes>) returns (r: Result<Envelope>)
      requires w.Valid() && dek.Valid() && |vs| == |ms| && pt == dek.Contents()
      requires forall j :: 0 <= j < |ms| ==> M.Ready(ms[j]) && vs[j] == M.View(ms[j])
      modifies w`tick, w`hits, w`fault, w`drawn, w`live, w`residue, w`unlocks, w`log
      ensures w.Valid() && w.live == old(w.live) && w.residue == old(w.residue)
      ensures w.hits == old(w.hits) ==>
        match NewWant(w.crypto, pt, policy, vs, w.coins, old(w.drawn))
        case Success(e) => r.Success? && fresh(r.value) && r.value.View() == e
        case Failure(e) => r == Failure(e)
      ensures w.hits == old(w.hits) ==>
        w.log == old(w.log) + NewLog(w.crypto, pt, policy, vs, w.coins, old(w.drawn))
      ensures w.hits != old(w.hits) ==>
        w.hits == old(w.hits) + 1 && r == Failure(Fault(w.fault))
        && exists n :: 0 <= n <= |vs|
                       && w.log == old(w.log) + EnrollAllLog(w.crypto, vs[..n], pt, w.coins, old(w.drawn))
    {
      hide Failing, Honest, EnrollAll, EnrollAllLog, PolicyOf;
      if |ms| == 0 { return Failure(NoMethods); }
      if !PolicyValid(policy) { return Failure(PolicyMismatch); }
      var n := dek.Len();
      if n == 0 || n > MAX_DEK_LEN { return Failure(DekSize); }
      var made :- EnrollEach(w, dek, ms, vs, pt);
      var env := new Envelope(FORMAT_VERSION, policy, made);
      var eff := env.EffectivePolicy();
      if eff != policy { return Failure(PolicyMismatch); }
      return Success(env);
    }

    static lemma NothingEnrolled(c: Crypto, vs: seq<P.Credential>, dek: Option<bytes>, coins: nat -> byte, at: nat)
      ensures EnrollAll(c, vs[..0], dek, coins, at) == Success([])
      ensures EnrollAllLog(c, vs[..0], dek, coins, at) == [] && CoinsUsedBy(vs[..0]) == 0
    {
    }

    method EffectivePolicy() returns (p: byte)
      ensures p == PolicyOf(slots)
    {
      var derived := POLICY_INVALID;
      var seen := false;
      for i := 0 to |slots|
        invariant seen <==> exists j :: 0 <= j < i && Primary(slots[j])
        invariant forall j :: 0 <= j < i && Primary(slots[j]) ==> PolicyForMethod(slots[j].typ) == derived
      {
        if slots[i].typ == METHOD_RECOVERY { continue; }
        var q := PolicyForMethod(slots[i].typ);
        if !seen {
          derived, seen := q, true;
          continue;
        }
        if q != derived {
          ghost var j :| 0 <= j < i && Primary(slots[j]);
          assert forall r :: Agree(slots, r) ==>
            PolicyForMethod(slots[j].typ) == r && PolicyForMethod(slots[i].typ) == r;
          return POLICY_INVALID;
        }
      }
      if !seen { return POLICY_INVALID; }
      assert Agree(slots, derived);
      PolicyOfMeaning(slots, derived);
      PolicyOfMeaning(slots, PolicyOf(slots));
      return derived;
    }

    method PrimarySlotCount() returns (n: nat)
      ensures n == PrimaryCount(slots)
    {
      n := 0;
      for i := 0 to |slots|
        invariant n == PrimaryCount(slots[..i])
      {
        assert slots[..i + 1][..i] == slots[..i];
        if slots[i].typ != METHOD_RECOVERY { n := n + 1; }
      }
      assert slots[..|slots|] == slots;
    }

    // AddSlot: appends exactly one slot, or changes nothing.
    method AddSlot(w: World, dek: SecureBytes, m: M.Method, ghost v: P.Credential, ghost pt: Option<bytes>)
      returns (r: Result<()>)
      requires w.Valid() && dek.Valid() && M.Ready(m) && v == M.View(m) && pt == dek.Contents()
      modifies this`slots, w`tick, w`hits, w`fault, w`drawn, w`live, w`residue, w`unlocks, w`log
      ensures w.Valid() && w.live == old(w.live) && w.residue == old(w.residue)
      ensures w.hits == old(w.hits) ==>
        match AddWant(w.crypto, old(View()), v, pt, w.coins, old(w.drawn))
        case Success(e) => r == Success(()) && View() == e
        case Failure(e) => r == Failure(e) && View() == old(View())
      ensures w.hits == old(w.hits) ==>
        w.log == old(w.log) + AddLog(w.crypto, old(View()), v, pt, w.coins, old(w.drawn))
      ensures w.hits != old(w.hits) ==>
        w.hits == old(w.hits) + 1 && r == Failure(Fault(w.fault)) && View() == old(View()) && w.log == old(w.log)
    {
      hide Failing, Honest, P.Enroll, P.EnrollLog, PolicyOf;
      SameType(m);
      var n := dek.Len();
      if n == 0 || n > MAX_DEK_LEN { return Failure(DekSize); }
      if |slots| >= MAX_SLOT_COUNT { return Failure(Malformed); }
      if M.TypeOf(m) != METHOD_RECOVERY {
        var eff := EffectivePolicy();
        if PolicyForMethod(M.TypeOf(m)) != eff { return Failure(PolicyMismatch); }
      }
      var slot := M.Enroll(w, m, dek, v, pt);
      if slot.Failure? {
        EnrollLogEmpty(w.crypto, v, pt, w.coins, old(w.drawn));
        return Failure(slot.error);
      }
      slots := slots + [slot.value];
      return Success(());
    }

    static lemma EnrollLogEmpty(c: Crypto, m: P.Credential, dek: Option<bytes>, coins: nat -> byte, at: nat)
      ensures P.Enroll(c, m, dek, coins, at).Failure? ==> P.EnrollLog(c, m, dek, coins, at) == []
    {
      hide P.Enroll;
    }

    // RemoveSlot: deletes the first slot with this ID, or changes nothing.
    method RemoveSlot(id: SlotId) returns (r: Result<()>)
      modifies this`slots
      ensures match RemoveWant(old(View()), id)
        case Success(e) => r == Success(()) && View() == e
        case Failure(e) => r == Failure(e) && View() == old(View())
    {
      hide PrimaryCount, Find;
      var idx := -1;
      for i := 0 to |slots|
        invariant idx == -1
        invariant forall j :: 0 <= j < i ==> slots[j].id != id
      {
        if slots[i].id == id {
          idx := i;
          break;
        }
      }
      if idx == -1 { return Failure(SlotNotFound); }
      if |slots| <= 1 { return Failure(PolicyUnsafe); }
      if slots[idx].typ != METHOD_RECOVERY {
        var n := PrimarySlotCount();
        if n <= 1 { return Failure(PolicyUnsafe); }
      }
      slots := slots[..idx] + slots[idx + 1..];
      return Success(());
    }

    // The inner loop of Unlock: every method of the slot's type, in order.
    // None means that all of them failed to authenticate.
    static method TrySlot(w: World, slot: Slot, ms: seq<M.Method>, ghost vs: seq<P.Credential>,
                          ghost later: seq<(Slot, P.Credential)>) returns (done: Option<Result<SecureBytes>>)
      requires w.Valid() && |vs| == |ms|
      requires forall j :: 0 <= j < |ms| ==> M.Ready(ms[j]) && vs[j] == M.View(ms[j])
      modifies w`tick, w`hits, w`fault, w`live, w`residue, w`unlocks
      ensures w.Valid()
      ensures done.None? ==> w.hits == old(w.hits) && w.live == old(w.live) && w.residue == old(w.residue)
      ensures done.None? ==> P.Verdict(w.crypto, w.log, P.Row(slot, vs) + later) == P.Verdict(w.crypto, w.log, later)
      ensures done.Some? ==> Delivers(w, done.value, P.Verdict(w.crypto, w.log, P.Row(slot, vs) + later))
    {
      hide Failing, Honest, P.Unlock, P.Verdict, P.Row;
      ghost var c, log := w.crypto, w.log;
      assert vs[0..] == vs;
      for k := 0 to |ms|
        modifies w`tick, w`hits, w`fault, w`live, w`residue, w`unlocks
        invariant w.Valid() && w.hits == old(w.hits) && w.live == old(w.live) && w.residue == old(w.residue)
        invariant forall j :: 0 <= j < |ms| ==> M.Ready(ms[j]) && vs[j] == M.View(ms[j])
        invariant P.Verdict(c, log, P.Row(slot, vs) + later) == P.Verdict(c, log, P.Row(slot, vs[k..]) + later)
      {
        SameType(ms[k]);
        RowStep(slot, vs, k, later);
        if M.TypeOf(ms[k]) != slot.typ { continue; }
        VerdictStep(c, log, (slot, vs[k]), P.Row(slot, vs[k + 1..]) + later);
        var live := w.CtxErr();
        if live.Failure? { return Some(Failure(live.error)); }
        var dek := M.Unlock(w, ms[k], slot, vs[k]);
        if dek.Success? || dek.error != AuthFailed { return Some(dek); }
      }
      RowEnd(slot, vs, later);
      return None;
    }

    // Unlock: the first success in slot order, then method order; wrong secrets
    // are passed over, any other failure is returned at once.
    method Unlock(w: World, ms: seq<M.Method>, ghost vs: seq<P.Credential>) returns (dek: Result<SecureBytes>)
      requires w.Valid() && |vs| == |ms|
      requires forall j :: 0 <= j < |ms| ==> M.Ready(ms[j]) && vs[j] == M.View(ms[j])
      modifies w`tick, w`hits, w`fault, w`live, w`residue, w`unlocks
      ensures w.Valid()
      ensures Delivers(w, dek, P.Search(w.crypto, w.log, slots, vs))
    {
      hide Failing, Honest, P.Verdict, P.Row, P.Attempts;
      if |ms| == 0 { return Failure(NoMethods); }
      ghost var c, log, all := w.crypto, w.log, P.Attempts(slots, vs);
      assert slots[0..] == slots;
      for i := 0 to |slots|
        modifies w`tick, w`hits, w`fault, w`live, w`residue, w`unlocks
        invariant w.Valid() && w.hits == old(w.hits) && w.live == old(w.live) && w.residue == old(w.residue)
        invariant forall j :: 0 <= j < |ms| ==> M.Ready(ms[j]) && vs[j] == M.View(ms[j])
        invariant P.Verdict(c, log, all) == P.Verdict(c, log, P.Attempts(slots[i..], vs))
      {
        AttemptsStep(slots, vs, i);
        var done := TrySlot(w, slots[i], ms, vs, P.Attempts(slots[i + 1..], vs));
        if done.Some? { return done.value; }
      }
      AttemptsEnd(c, log, slots, vs);
      return Failure(AuthFailed);
    }

    static lemma RowStep(s: Slot, vs: seq<P.Credential>, k: nat, later: seq<(Slot, P.Credential)>)
      requires k < |vs|
      ensures P.Row(s, vs[k..]) + later
        == if P.TypeOf(vs[k]) == s.typ then [(s, vs[k])] + (P.Row(s, vs[k + 1..]) + later)
           else P.Row(s, vs[k + 1..]) + later
    {
      assert vs[k..][1..] == vs[k + 1..];
    }

    static lemma AttemptsStep(slots: seq<Slot>, vs: seq<P.Credential>, i: nat)
      requires i < |slots|
      ensures P.Attempts(slots[i..], vs) == P.Row(slots[i], vs) + P.Attempts(slots[i + 1..], vs)
    {
      assert slots[i..][1..] == slots[i + 1..];
    }

    static lemma RowEnd(s: Slot, vs: seq<P.Credential>, later: seq<(Slot, P.Credential)>)
      ensures P.Row(s, vs[|vs|..]) + later == later
    {
    }

    static lemma AttemptsEnd(c: Crypto, log: seq<Sealed>, slots: seq<Slot>, vs: seq<P.Credential>)
      ensures P.Verdict(c, log, P.Attempts(slots[|slots|..], vs)) == Failure(AuthFailed)
    {
    }

    // Marshal
    method Marshal() returns (r: Result<bytes>)
      ensures r == Wire.Marshal(View())
    {
      hide MetaBytes, MetaError;
      if |slots| == 0 { return Failure(Malformed); }
      if |slots| > MAX_SLOT_COUNT { return Failure(Malformed); }
      var out := Wire.MAGIC;
      out := out + [version, policyHint];
      out := out + BE16(|slots|);
      assert slots[0..] == slots;
      for i := 0 to |slots|
        invariant Wire.Marshal(View()) == Wire.MarshalSlots(slots[i..], out)
      {
        assert slots[i..][0] == slots[i] && slots[i..][1..] == slots[i + 1..];
        var s := slots[i];
        if |s.wrapped| == 0 || |s.wrapped| > MAX_WRAPPED_LEN { return Failure(Malformed); }
        var meta: bytes;
        if s.meta.Some? {
          meta := s.meta.value;
        } else {
          meta :- MarshalMeta(s);
        }
        var body := meta + s.wrapped;
        ghost var before := out;
        out := out + BE32(|body|);
        out := out + body;
        Assoc(before, BE32(|body|), body);
        if |out| > MAX_ENVELOPE_LEN { return Failure(Malformed); }
      }
      assert slots[|slots|..] == [];
      return Success(out);
    }

    // ParseEnvelope: the same result whether int has 32 or 64 bits.
    static method ParseEnvelope(b: bytes, wide: bool) returns (r: Result<Envelope>)
      ensures match Wire.Parse(b)
        case Success(e) => r.Success? && fresh(r.value) && r.value.View() == e
        case Failure(e) => r == Failure(e)
    {
      hide Wire.ParseSlot;
      if |b| > MAX_ENVELOPE_LEN { return Failure(Malformed); }
      if |b| < HEADER_LEN { return Failure(ShortData); }
      if b[0] != Wire.MAGIC[0] || b[1] != Wire.MAGIC[1] || b[2] != Wire.MAGIC[2] || b[3] != Wire.MAGIC[3] {
        return Failure(BadMagic);
      }
      if b[4] != FORMAT_VERSION { return Failure(BadVersion); }
      var policy := b[5];
      var slotCount := FromBE16(b[6], b[7]);
      if slotCount == 0 || slotCount > MAX_SLOT_COUNT { return Failure(Malformed); }
      var reader := new R.Reader(b, HEADER_LEN);
      var parsed: seq<Slot> := [];
      assert forall ss: seq<Slot> :: parsed + ss == ss;
      for i := 0 to slotCount
        invariant reader.Valid()
        invariant Wire.ParseSlots(b[HEADER_LEN..], slotCount) ==
          match Wire.ParseSlots(reader.Rest(), slotCount - i)
          case Success((ss, rest)) => Success((parsed + ss, rest))
          case Failure(e) => Failure(e)
      {
        var slot :- R.ParseSlot(reader, wide);
        AppendOne(parsed, slot);
        parsed := parsed + [slot];
      }
      if reader.off != |b| { return Failure(Malformed); }
      assert parsed + [] == parsed;
      var e := new Envelope(b[4], policy, parsed);
      return Success(e);
    }

    static lemma AppendOne(a: seq<Slot>, s: Slot)
      ensures forall ss: seq<Slot> :: a + ([s] + ss) == a + [s] + ss
    {
      forall ss: seq<Slot> ensures a + ([s] + ss) == a + [s] + ss { Assoc(a, [s], ss); }
    }
  }
}
