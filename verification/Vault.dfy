/** Whole runs: an envelope is created, slots are added and removed and the envelope
    is written out and read back, in any order and with any outcome; then it is unlocked. */
module Vault {
  import opened Bytes
  import opened Errors
  import opened Kinds
  import opened Slots
  import opened Primitives
  import opened Policies
  import opened Envelopes
  import opened Records
  import opened Factors
  import opened Searching
  import opened Printing
  import K = Kdf
  import P = Protocol
  import Wire

  datatype State = State(env: Wire.Image, log: seq<Sealed>, book: seq<Record>)

  // A call of AddSlot with any method and any key (drawing coins from `at`, or hit
  // by an outside failure), a call of RemoveSlot, or Marshal and then ParseEnvelope.
  datatype Op =
    | Add(m: P.Credential, dek: Option<bytes>, at: nat, faulty: bool)
    | Remove(id: SlotId)
    | Reload

  // Marshal and then ParseEnvelope.
  function Reread(e: Wire.Image): Result<Wire.Image> {
    var b :- Wire.Marshal(e);
    Wire.Parse(b)
  }

  // What one call does to the envelope and to the record of sealings.
  ghost function Step(c: Crypto, coins: nat -> byte, st: State, op: Op): State {
    match op
    case Add(m, dek, at, faulty) =>
      var r := AddWant(c, st.env, m, dek, coins, at);
      if faulty || r.Failure? || dek.None? || |r.value.slots| == 0 then st else
      var slot := r.value.slots[|r.value.slots| - 1];
      State(r.value, st.log + AddLog(c, st.env, m, dek, coins, at), st.book + [Record(m, dek.value, at, slot)])
    case Remove(id) =>
      var r := RemoveWant(st.env, id);
      if r.Failure? then st else st.(env := r.value)
    case Reload =>
      var r := Reread(st.env);
      if r.Failure? then st else st.(env := r.value)
  }

  ghost function Run(c: Crypto, coins: nat -> byte, st: State, ops: seq<Op>): State
    decreases |ops|
  {
    if ops == [] then st else Run(c, coins, Step(c, coins, st, ops[0]), ops[1..])
  }

  lemma {:induction false} RunOneMore(c: Crypto, coins: nat -> byte, st: State, ops: seq<Op>, op: Op)
    ensures Run(c, coins, st, ops + [op]) == Step(c, coins, Run(c, coins, st, ops), op)
    decreases |ops|
  {
    hide Step;
    if ops == [] {
      assert ops + [op] == [op] && [op][1..] == [];
    } else {
      assert (ops + [op])[1..] == ops[1..] + [op];
      RunOneMore(c, coins, Step(c, coins, st, ops[0]), ops[1..], op);
    }
  }

  // The records of the enrolments NewEnvelope makes, up to the first that fails.
  ghost function BookOf(c: Crypto, ms: seq<P.Credential>, dek: bytes, coins: nat -> byte, at: nat): seq<Record> {
    if ms == [] then [] else
    var s := P.Enroll(c, ms[0], Some(dek), coins, at);
    if s.Failure? then [] else
    [Record(ms[0], dek, at, s.value)] + BookOf(c, ms[1..], dek, coins, at + P.CoinsUsed(ms[0]))
  }

  lemma EnrollLogOfOne(c: Crypto, m: P.Credential, dek: bytes, coins: nat -> byte, at: nat)
    requires P.Enroll(c, m, Some(dek), coins, at).Success?
    ensures |P.EnrollLog(c, m, Some(dek), coins, at)| == 1
    ensures Made(c, coins, Record(m, dek, at, P.Enroll(c, m, Some(dek), coins, at).value),
                 P.EnrollLog(c, m, Some(dek), coins, at)[0])
  {
    hide P.Prepare, P.Wrap, P.SealingOf;
  }

  lemma AuditedAppend(c: Crypto, coins: nat -> byte, log: seq<Sealed>, book: seq<Record>, log': seq<Sealed>,
      book': seq<Record>)
    requires Audited(c, coins, log, book) && Audited(c, coins, log', book')
    ensures Audited(c, coins, log + log', book + book')
  {
    hide Made;
  }

  // The slot was made by a recorded enrolment of a data key that fits.
  ghost predicate OnRecord(book: seq<Record>, s: Slot) {
    exists i :: 0 <= i < |book| && RecordOf(book[i], s)
  }

  ghost predicate RecordOf(r: Record, s: Slot) {
    r.slot == s && DekFits(Some(r.dek))
  }

  // Whatever NewEnvelope sealed, also when it failed half-way, is on record.
  lemma {:induction false} EnrollAllAudited(c: Crypto, ms: seq<P.Credential>, dek: bytes, coins: nat -> byte, at: nat)
    ensures Audited(c, coins, EnrollAllLog(c, ms, Some(dek), coins, at), BookOf(c, ms, dek, coins, at))
    ensures forall r :: r in BookOf(c, ms, dek, coins, at) ==> r.dek == dek && r.m in ms
    decreases |ms|
  {
    hide P.Enroll, P.EnrollLog, Made, P.CoinsUsed, Audited;
    if ms == [] || P.Enroll(c, ms[0], Some(dek), coins, at).Failure? {
      NothingAudited(c, coins);
    } else {
      var next := at + P.CoinsUsed(ms[0]);
      EnrollAllAudited(c, ms[1..], dek, coins, next);
      OneAudited(c, ms[0], dek, coins, at);
      AuditedAppend(c, coins, P.EnrollLog(c, ms[0], Some(dek), coins, at),
        [Record(ms[0], dek, at, P.Enroll(c, ms[0], Some(dek), coins, at).value)],
        EnrollAllLog(c, ms[1..], Some(dek), coins, next), BookOf(c, ms[1..], dek, coins, next));
    }
  }

  lemma NothingAudited(c: Crypto, coins: nat -> byte)
    ensures Audited(c, coins, [], [])
  {
  }

  lemma OneAudited(c: Crypto, m: P.Credential, dek: bytes, coins: nat -> byte, at: nat)
    requires P.Enroll(c, m, Some(dek), coins, at).Success?
    ensures Audited(c, coins, P.EnrollLog(c, m, Some(dek), coins, at),
                    [Record(m, dek, at, P.Enroll(c, m, Some(dek), coins, at).value)])
  {
    hide P.Enroll, P.EnrollLog, Made;
    EnrollLogOfOne(c, m, dek, coins, at);
  }

  lemma {:induction false} EnrollAllOnRecord(c: Crypto, ms: seq<P.Credential>, dek: bytes, coins: nat -> byte, at: nat)
    requires EnrollAll(c, ms, Some(dek), coins, at).Success? && DekFits(Some(dek))
    ensures forall s :: s in EnrollAll(c, ms, Some(dek), coins, at).value ==> OnRecord(BookOf(c, ms, dek, coins, at), s)
    decreases |ms|
  {
    hide P.Enroll, P.CoinsUsed;
    if ms != [] {
      var next := at + P.CoinsUsed(ms[0]);
      EnrollAllOnRecord(c, ms[1..], dek, coins, next);
      var first := P.Enroll(c, ms[0], Some(dek), coins, at).value;
      var book, rest := BookOf(c, ms, dek, coins, at), BookOf(c, ms[1..], dek, coins, next);
      forall s | s in EnrollAll(c, ms, Some(dek), coins, at).value ensures OnRecord(book, s) {
        if s == first {
          assert RecordOf(book[0], s);
        } else {
          var i :| 0 <= i < |rest| && RecordOf(rest[i], s);
          assert book[i + 1] == rest[i];
        }
      }
    }
  }

  // ---- what every step keeps ----

  // Every sealing is on record, and so is every slot.
  ghost predicate Sound(c: Crypto, coins: nat -> byte, st: State) {
    Audited(c, coins, st.log, st.book) && forall s :: s in st.env.slots ==> OnRecord(st.book, s)
  }

  // The header names the policy on which all primary slots agree.
  ghost predicate Policed(e: Wire.Image, policy: byte) {
    e.version == FORMAT_VERSION && e.policyHint == policy && PolicyValid(policy) && PolicyOf(e.slots) == policy
  }

  lemma EnrollType(c: Crypto, m: P.Credential, dek: Option<bytes>, coins: nat -> byte, at: nat)
    ensures P.Enroll(c, m, dek, coins, at).Success? ==> P.Enroll(c, m, dek, coins, at).value.typ == P.TypeOf(m)
  {
    hide P.Prepare, MetaOf, P.KekOf;
    PrepareType(c, m, coins, at);
  }

  // A successful AddSlot leaves the policy of any envelope as it was: in
  // particular it never turns an invalid policy into a valid one.
  lemma AddKeepsPolicy(c: Crypto, e: Wire.Image, m: P.Credential, dek: Option<bytes>, coins: nat -> byte, at: nat)
    requires AddWant(c, e, m, dek, coins, at).Success?
    ensures PolicyOf(AddWant(c, e, m, dek, coins, at).value.slots) == PolicyOf(e.slots)
  {
    hide P.Enroll, PolicyOf;
    EnrollType(c, m, dek, coins, at);
    var s := P.Enroll(c, m, dek, coins, at).value;
    if Primary(s) {
      PolicyOfExtended(e.slots, s);
    } else {
      PolicyOfIgnoresRecovery(e.slots, s, []);
      assert e.slots + [s] + [] == e.slots + [s] && e.slots + [] == e.slots;
    }
  }

  // A successful RemoveSlot keeps a real policy.
  lemma RemoveKeepsPolicy(e: Wire.Image, id: SlotId)
    requires RemoveWant(e, id).Success? && PolicyValid(PolicyOf(e.slots))
    ensures PolicyOf(RemoveWant(e, id).value.slots) == PolicyOf(e.slots)
  {
    hide PolicyOf, PrimaryCount;
    var i := Find(e.slots, id);
    var a, s, b := e.slots[..i], e.slots[i], e.slots[i + 1..];
    assert e.slots == a + [s] + b;
    if Primary(s) {
      PrimaryCountSplit(a + [s], b);
      PrimaryCountSplit(a, [s]);
      PrimaryCountSplit(a, b);
      OneCounts(s);
      PrimaryCountPositive(a + b);
      PolicyOfReduced(a, s, b);
    } else {
      PolicyOfIgnoresRecovery(a, s, b);
    }
  }

  // The enrolment on record of a slot in the envelope.
  lemma SlotRecord(c: Crypto, coins: nat -> byte, st: State, s: Slot) returns (k: nat)
    requires Sound(c, coins, st) && s in st.env.slots
    ensures k < |st.book| == |st.log| && RecordOf(st.book[k], s) && Made(c, coins, st.book[k], st.log[k])
  {
    hide Made;
    k :| 0 <= k < |st.book| && RecordOf(st.book[k], s);
  }

  lemma SlotsCanonical(c: Crypto, coins: nat -> byte, st: State)
    requires Sound(c, coins, st)
    ensures forall s :: s in st.env.slots ==> Wire.Kept(s)
    ensures AllCanonical(st.env.slots) == st.env.slots
  {
    hide Sound, Made, MetaBytes, MetaError;
    forall s | s in st.env.slots ensures Wire.Kept(s) && Canonical(s) == s {
      var k := SlotRecord(c, coins, st, s);
      MadeFacts(c, coins, st.book[k], st.log[k]);
    }
    forall i | 0 <= i < |st.env.slots| ensures AllCanonical(st.env.slots)[i] == st.env.slots[i] {
      assert st.env.slots[i] in st.env.slots;
    }
  }

  // Whatever can be read back is the envelope that was written.
  lemma RereadIsSame(c: Crypto, coins: nat -> byte, st: State)
    requires Sound(c, coins, st) && Reread(st.env).Success?
    ensures Reread(st.env) == Success(st.env)
  {
    hide Sound, Wire.Marshal, Wire.Parse, AllCanonical;
    SlotsCanonical(c, coins, st);
    PrintedReadsBackIff(st.env, Wire.Marshal(st.env).value);
  }

  lemma StepKeeps(c: Crypto, coins: nat -> byte, st: State, op: Op, policy: byte)
    requires Sound(c, coins, st) && Policed(st.env, policy)
    ensures Sound(c, coins, Step(c, coins, st, op)) && Policed(Step(c, coins, st, op).env, policy)
  {
    hide P.Enroll, P.EnrollLog, Made, PolicyOf, PrimaryCount, Reread;
    match op {
      case Add(m, dek, at, faulty) =>
        var r := AddWant(c, st.env, m, dek, coins, at);
        if !faulty && r.Success? {
          AddKeepsPolicy(c, st.env, m, dek, coins, at);
          EnrollLogOfOne(c, m, dek.value, coins, at);
          var s := P.Enroll(c, m, dek, coins, at).value;
          var rec := Record(m, dek.value, at, s);
          AuditedAppend(c, coins, st.log, st.book, P.EnrollLog(c, m, dek, coins, at), [rec]);
          StillOnRecord(st.env.slots, st.book, rec);
        }
      case Remove(id) =>
        if RemoveWant(st.env, id).Success? {
          RemoveKeepsPolicy(st.env, id);
        }
      case Reload =>
        if Reread(st.env).Success? {
          RereadIsSame(c, coins, st);
        }
    }
  }

  lemma StillOnRecord(slots: seq<Slot>, book: seq<Record>, rec: Record)
    requires DekFits(Some(rec.dek))
    requires forall s :: s in slots ==> OnRecord(book, s)
    ensures forall s :: s in slots + [rec.slot] ==> OnRecord(book + [rec], s)
  {
    forall s | s in slots + [rec.slot] ensures OnRecord(book + [rec], s) {
      if s in slots {
        var i :| 0 <= i < |book| && RecordOf(book[i], s);
        assert RecordOf((book + [rec])[i], s);
      } else {
        assert RecordOf((book + [rec])[|book|], s);
      }
    }
  }

  lemma {:induction false} RunKeeps(c: Crypto, coins: nat -> byte, st: State, ops: seq<Op>, policy: byte)
    requires Sound(c, coins, st) && Policed(st.env, policy)
    ensures Sound(c, coins, Run(c, coins, st, ops)) && Policed(Run(c, coins, st, ops).env, policy)
    decreases |ops|
  {
    hide Sound, Policed, Step;
    if ops != [] {
      StepKeeps(c, coins, st, ops[0], policy);
      RunKeeps(c, coins, Step(c, coins, st, ops[0]), ops[1..], policy);
    }
  }

  // The state after a successful NewEnvelope, on top of whatever was sealed before.
  ghost function Start(c: Crypto, coins: nat -> byte, log: seq<Sealed>, book: seq<Record>,
                       dek: bytes, policy: byte, ms: seq<P.Credential>, at: nat): State
    requires NewWant(c, Some(dek), policy, ms, coins, at).Success?
  {
    State(NewWant(c, Some(dek), policy, ms, coins, at).value,
          log + NewLog(c, Some(dek), policy, ms, coins, at), book + BookOf(c, ms, dek, coins, at))
  }

  lemma StartSound(c: Crypto, coins: nat -> byte, log: seq<Sealed>, book: seq<Record>,
                   dek: bytes, policy: byte, ms: seq<P.Credential>, at: nat)
    requires Audited(c, coins, log, book) && NewWant(c, Some(dek), policy, ms, coins, at).Success?
    ensures Sound(c, coins, Start(c, coins, log, book, dek, policy, ms, at))
    ensures Policed(Start(c, coins, log, book, dek, policy, ms, at).env, policy)
  {
    hide Made, EnrollAll, EnrollAllLog, PolicyOf, BookOf;
    EnrollAllAudited(c, ms, dek, coins, at);
    var fresh' := BookOf(c, ms, dek, coins, at);
    AuditedAppend(c, coins, log, book, EnrollAllLog(c, ms, Some(dek), coins, at), fresh');
    var st := Start(c, coins, log, book, dek, policy, ms, at);
    EnrollAllOnRecord(c, ms, dek, coins, at);
    forall s | s in st.env.slots ensures OnRecord(st.book, s) {
      var i :| 0 <= i < |fresh'| && RecordOf(fresh'[i], s);
      assert st.book[|book| + i] == fresh'[i];
    }
  }

  // ---- the main theorems ----

  ghost predicate Leads(c: Crypto, coins: nat -> byte, policy: byte, log: seq<Sealed>, book: seq<Record>,
                        dek: bytes, ms: seq<P.Credential>, at: nat, ops: seq<Op>, st: State)
  {
    Audited(c, coins, log, book)
    && NewWant(c, Some(dek), policy, ms, coins, at).Success?
    && st == Run(c, coins, Start(c, coins, log, book, dek, policy, ms, at), ops)
  }

  // What some use of the library can lead to: any recorded sealings before, any
  // successful NewEnvelope, any calls after it.
  ghost predicate Reachable(c: Crypto, coins: nat -> byte, policy: byte, st: State) {
    exists log, book, dek, ms, at, ops :: Leads(c, coins, policy, log, book, dek, ms, at, ops, st)
  }

  lemma ReachableIsSound(c: Crypto, coins: nat -> byte, policy: byte, st: State)
    requires Reachable(c, coins, policy, st)
    ensures Sound(c, coins, st) && Policed(st.env, policy)
  {
    hide Sound, Policed, Run, Start, NewWant, Audited;
    var log, book, dek, ms, at, ops :| Leads(c, coins, policy, log, book, dek, ms, at, ops, st);
    StartSound(c, coins, log, book, dek, policy, ms, at);
    RunKeeps(c, coins, Start(c, coins, log, book, dek, policy, ms, at), ops, policy);
  }

  // After any run the envelope still has a primary slot, and every primary slot is
  // of the declared policy.
  lemma PolicyKeptByEveryRun(c: Crypto, coins: nat -> byte, policy: byte, st: State)
    requires Reachable(c, coins, policy, st)
    ensures PolicyValid(policy) && st.env.policyHint == policy
    ensures exists s :: s in st.env.slots && Primary(s)
    ensures forall s :: s in st.env.slots && Primary(s) ==> PolicyForMethod(s.typ) == policy
  {
    hide Sound, Reachable, PolicyOf;
    ReachableIsSound(c, coins, policy, st);
    PolicyOfMeaning(st.env.slots, policy);
    var i :| 0 <= i < |st.env.slots| && Primary(st.env.slots[i]);
    assert st.env.slots[i] in st.env.slots;
  }

  // What AddSlot does after any run: it appends the enrolled slot exactly for a key of 1
  // to 240 bytes, fewer than 64 slots, a recovery code or a method of the declared
  // policy, and a method that can enrol.
  lemma DeclaredPolicyStaysAddable(c: Crypto, coins: nat -> byte, policy: byte, st: State, m: P.Credential,
                                   dek: Option<bytes>, at: nat)
    requires Reachable(c, coins, policy, st)
    ensures AddWant(c, st.env, m, dek, coins, at) ==
      if dek.None? || !(1 <= |dek.value| <= 240) then Failure(DekSize)
      else if |st.env.slots| >= 64 then Failure(Malformed)
      else if !Suits(m, policy) then Failure(PolicyMismatch)
      else match P.EnrollRefusal(c, m, dek)
        case Some(err) => Failure(err)
        case None => Success(st.env.(slots := st.env.slots + [P.Enroll(c, m, dek, coins, at).value]))
  {
    hide Sound, Reachable, PolicyOf, P.Enroll, P.EnrollRefusal, AddWant;
    ReachableIsSound(c, coins, policy, st);
    AddExactly(c, st.env, m, dek, coins, at);
  }

  // No envelope, however it came about, opens to anything but a sealed data key:
  // for every byte string the parser accepts and every choice of methods, a
  // returned key was sealed by an enrolment, and the slot that one of the methods
  // opened is that enrolment's slot in every field.
  lemma UnlockIsAuthentic(c: Crypto, coins: nat -> byte, log: seq<Sealed>, book: seq<Record>,
                          b: bytes, e: Wire.Image, ms: seq<P.Credential>, key: bytes)
    requires Audited(c, coins, log, book)
    requires Wire.Parse(b) == Success(e)
    requires P.Search(c, log, e.slots, ms) == Success(key)
    ensures exists i, m :: 0 <= i < |book| && m in ms && Opened(c, log, e, m, book[i], key)
  {
    hide P.Unlock, Made, WellFormed, Wire.Parse, Wire.Marshal;
    Wire.ParseThenPrint(b, e);
    var tries := P.Attempts(e.slots, ms);
    P.VerdictIsFirst(c, log, tries, Success(key));
    var j: nat :| P.FirstAt(c, log, tries, Success(key), j);
    var (s, m) := tries[j];
    assert (s, m) in tries;
    P.AttemptsExact(e.slots, ms, s, m);
    OpenedWasEnrolled(c, coins, log, book, s, m, key);
    var i :| 0 <= i < |book| && book[i].slot == s && book[i].dek == key;
    assert Opened(c, log, e, m, book[i], key);
  }

  // The method opens the recorded slot, which is in the envelope, and gets the recorded key.
  ghost predicate Opened(c: Crypto, log: seq<Sealed>, e: Wire.Image, m: P.Credential, r: Record, key: bytes) {
    r.slot in e.slots && P.TypeOf(m) == r.slot.typ && r.dek == key && P.Unlock(c, log, m, r.slot) == Success(key)
  }

  // If only one data key was ever sealed, tampering cannot yield another one.
  lemma TamperingYieldsNoOtherKey(c: Crypto, coins: nat -> byte, log: seq<Sealed>, book: seq<Record>, dek: bytes,
                                  b: bytes, e: Wire.Image, ms: seq<P.Credential>)
    requires Audited(c, coins, log, book) && OneKey(book, dek)
    requires Wire.Parse(b) == Success(e)
    ensures P.Search(c, log, e.slots, ms).Failure? || P.Search(c, log, e.slots, ms) == Success(dek)
  {
    hide P.Search, Made, Wire.Parse, Opened;
    var r := P.Search(c, log, e.slots, ms);
    if r.Success? {
      UnlockIsAuthentic(c, coins, log, book, b, e, ms, r.value);
      var i, m :| 0 <= i < |book| && m in ms && Opened(c, log, e, m, book[i], r.value);
      assert book[i].dek == r.value by { OpenedKey(c, log, e, m, book[i], r.value); }
    }
  }

  lemma OpenedKey(c: Crypto, log: seq<Sealed>, e: Wire.Image, m: P.Credential, r: Record, key: bytes)
    requires Opened(c, log, e, m, r, key)
    ensures r.dek == key
  {
  }

  // Only one data key was ever enrolled.
  ghost predicate OneKey(book: seq<Record>, dek: bytes) {
    forall r :: r in book ==> r.dek == dek
  }

  lemma OneKeySealed(c: Crypto, coins: nat -> byte, log: seq<Sealed>, book: seq<Record>, dek: bytes)
    requires Audited(c, coins, log, book) && OneKey(book, dek)
    ensures OneSealed(log, dek)
  {
    hide Made;
    forall i | 0 <= i < |log| ensures log[i].pt == dek {
      MadeFacts(c, coins, book[i], log[i]);
      assert book[i] in book;
    }
  }

  lemma SlotFits(c: Crypto, coins: nat -> byte, st: State, s: Slot)
    requires c.Correct() && Sound(c, coins, st) && s in st.env.slots
    ensures Wire.Printable(s) && (Readable(s) <==> WellFormed(s))
  {
    hide Sound, Made, MetaBytes, MetaError, ShapeError, K.ParseKdf;
    var k := SlotRecord(c, coins, st, s);
    MadeFacts(c, coins, st.book[k], st.log[k]);
  }

  // Whatever recorded enrolment made a slot of the envelope, its KDF was within the bounds.
  ghost predicate AllInBounds(st: State) {
    forall k, s :: 0 <= k < |st.book| && s in st.env.slots && RecordOf(st.book[k], s) ==> KdfInBounds(st.book[k].m)
  }

  // After any run the envelope can be written out exactly up to 64 slots, and what
  // is written can be read exactly when every slot was enrolled with a KDF within
  // the bounds; it then reads as the same envelope.
  lemma RunSurvivesDisk(c: Crypto, coins: nat -> byte, policy: byte, st: State)
    requires c.Correct() && Reachable(c, coins, policy, st)
    ensures Wire.Marshal(st.env).Success? <==> |st.env.slots| <= MAX_SLOT_COUNT
    ensures Reread(st.env).Success? <==> |st.env.slots| <= MAX_SLOT_COUNT && AllInBounds(st)
    ensures Reread(st.env).Success? ==> Reread(st.env) == Success(st.env)
  {
    hide Sound, Reachable, Made, WellFormed, Readable, Wire.Parse, Wire.Marshal, KdfInBounds, Wire.Printable;
    ReachableIsSound(c, coins, policy, st);
    PolicyKeptByEveryRun(c, coins, policy, st);
    SlotsCanonical(c, coins, st);
    forall s | s in st.env.slots ensures Wire.Printable(s) {
      SlotFits(c, coins, st, s);
    }
    MarshalExactly(st.env);
    if |st.env.slots| <= MAX_SLOT_COUNT {
      PrintedReadsBackIff(st.env, Wire.Marshal(st.env).value);
      ReadableIffInBounds(c, coins, st);
    }
  }

  lemma ReadableIffInBounds(c: Crypto, coins: nat -> byte, st: State)
    requires c.Correct() && Sound(c, coins, st)
    ensures (forall s :: s in st.env.slots ==> Readable(s)) <==> AllInBounds(st)
  {
    hide Made, WellFormed, Readable, KdfInBounds;
    forall k | 0 <= k < |st.book| && st.book[k].slot in st.env.slots && DekFits(Some(st.book[k].dek))
      ensures Readable(st.book[k].slot) <==> KdfInBounds(st.book[k].m)
    {
      assert Made(c, coins, st.book[k], st.log[k]);
      MadeWellFormed(c, coins, st.book[k], st.log[k]);
      SlotFits(c, coins, st, st.book[k].slot);
    }
    forall s | s in st.env.slots
      ensures exists k :: 0 <= k < |st.book| && RecordOf(st.book[k], s)
    {
    }
  }

  // On a slot of the envelope an attempt can be made exactly when the slot was
  // enrolled with a KDF within the bounds, the secret is live and the device has
  // the OTP slot.
  lemma SlotCanBeTried(c: Crypto, coins: nat -> byte, st: State, m: P.Credential, s: Slot)
    requires c.Correct() && Sound(c, coins, st) && s in st.env.slots && P.TypeOf(m) == s.typ
    ensures CanTry(c, m, s) <==> WellFormed(s) && SecretLive(m) && Answers(m, s)
  {
    hide Sound, Made, WellFormed, CanTry, KdfInBounds;
    var k := SlotRecord(c, coins, st, s);
    MadeWellFormed(c, coins, st.book[k], st.log[k]);
    EnrolledCanTry(c, coins, st.book[k], st.log[k], m);
  }

  // After any run, what Unlock answers to any methods: a key, ErrAuthFailed, or
  // another error, each with its exact condition. If one data key was enrolled, it is that key.
  lemma RunUnlocksExactly(c: Crypto, coins: nat -> byte, policy: byte, st: State, ms: seq<P.Credential>)
    requires c.Correct() && Reachable(c, coins, policy, st) && ms != []
    ensures var tries := P.Attempts(st.env.slots, ms);
      var r := P.Search(c, st.log, st.env.slots, ms);
      (r.Success? <==> exists i: nat :: Reaches(c, st.log, tries, i))
      && (r == Failure(AuthFailed) <==> Hopeless(c, st.log, tries))
      && (r.Success? || r == Failure(AuthFailed) <==> forall j: nat :: !Blocked(c, st.log, tries, j))
      && forall t :: t in tries ==> (CanTry(c, t.1, t.0) <==> WellFormed(t.0) && SecretLive(t.1) && Answers(t.1, t.0))
    ensures P.Search(c, st.log, st.env.slots, ms).Success? ==>
      forall dek :: OneKey(st.book, dek) ==> P.Search(c, st.log, st.env.slots, ms) == Success(dek)
  {
    hide Reachable, Policed, P.Search, P.Attempts, Reaches, Hopeless, Blocked, CanTry, WellFormed, SecretLive,
      Answers, Made, OnRecord, OneKey;
    ReachableIsSound(c, coins, policy, st);
    SearchExactly(c, st.log, st.env.slots, ms);
    forall dek | OneKey(st.book, dek) && P.Search(c, st.log, st.env.slots, ms).Success?
      ensures P.Search(c, st.log, st.env.slots, ms) == Success(dek)
    {
      OneKeySealed(c, coins, st.log, st.book, dek);
      SearchFindsTheKey(c, st.log, dek, st.env.slots, ms);
    }
    var tries := P.Attempts(st.env.slots, ms);
    forall t | t in tries
      ensures CanTry(c, t.1, t.0) <==> WellFormed(t.0) && SecretLive(t.1) && Answers(t.1, t.0)
    {
      assert (t.0, t.1) in tries;
      P.AttemptsExact(st.env.slots, ms, t.0, t.1);
      SlotCanBeTried(c, coins, st, t.1, t.0);
    }
  }

  // After any run, and whatever is sealed later, Unlock finds a key if one of its
  // attempts holds the secret of that attempt's slot and all earlier attempts can be
  // made; it is the slot's data key if no other was sealed. The same holds after
  // writing and reading, when the envelope can be written and read at all.
  lemma SurvivingSecretRecovers(c: Crypto, coins: nat -> byte, policy: byte, st: State,
                                ms: seq<P.Credential>, k: nat, p: nat, more: seq<Sealed>)
    requires c.Correct() && Reachable(c, coins, policy, st)
    requires k < |st.book| && KdfInBounds(st.book[k].m)
    requires p < |P.Attempts(st.env.slots, ms)|
    requires var (s, m) := P.Attempts(st.env.slots, ms)[p]; s == st.book[k].slot && SameSecret(m, st.book[k].m)
    requires forall j :: 0 <= j < p ==>
      var (s, m) := P.Attempts(st.env.slots, ms)[j]; WellFormed(s) && SecretLive(m) && Answers(m, s)
    ensures var dek := st.book[k].dek;
      var r := P.Search(c, st.log + more, st.env.slots, ms);
      r.Success? && (OneKey(st.book, dek) && OneSealed(more, dek) ==> r == Success(dek))
    ensures Reread(st.env).Success? ==>
      P.Search(c, st.log + more, Reread(st.env).value.slots, ms) == P.Search(c, st.log + more, st.env.slots, ms)
  {
    hide Reachable, Policed, P.Unlock, P.Verdict, P.Attempts, CanTry, WellFormed, SecretLive, Answers, Made,
      OnRecord, SameSecret, KdfInBounds, Reread, OneKey;
    ReachableIsSound(c, coins, policy, st);
    var tries := P.Attempts(st.env.slots, ms);
    forall j | 0 <= j < p ensures CanTry(c, tries[j].1, tries[j].0) {
      var (s, m) := tries[j];
      assert (s, m) in tries;
      P.AttemptsExact(st.env.slots, ms, s, m);
      SlotCanBeTried(c, coins, st, m, s);
    }
    SecretOpens(c, coins, st.log, st.book, k, tries[p].1);
    OpensLater(c, st.log, more, tries[p].1, tries[p].0);
    assert Reaches(c, st.log + more, tries, p);
    AttemptsNeedMethods(st.env.slots);
    SearchExactly(c, st.log + more, st.env.slots, ms);
    if OneKey(st.book, st.book[k].dek) && OneSealed(more, st.book[k].dek) {
      OneKeySealed(c, coins, st.log, st.book, st.book[k].dek);
      SearchFindsTheKey(c, st.log + more, st.book[k].dek, st.env.slots, ms);
    }
    if Reread(st.env).Success? { RereadIsSame(c, coins, st); }
  }

  lemma {:induction false} AttemptsNeedMethods(slots: seq<Slot>)
    ensures P.Attempts(slots, []) == []
  {
    if slots != [] { AttemptsNeedMethods(slots[1..]); }
  }

  // A credential with the secret of the slot it is tried on.
  ghost predicate HoldsSecret(book: seq<Record>, t: Try) {
    exists k :: 0 <= k < |book| && book[k].slot == t.0 && SameSecret(t.1, book[k].m)
  }

  // Attempt p holds its slot's secret, and all earlier attempts can be made.
  ghost predicate ComesToBear(book: seq<Record>, tries: seq<Try>, p: nat) {
    p < |tries| && HoldsSecret(book, tries[p])
    && forall j :: 0 <= j <= p ==> WellFormed(tries[j].0) && SecretLive(tries[j].1) && Answers(tries[j].1, tries[j].0)
  }

  // Who gets a key after any run: barring collisions, exactly those whose methods
  // include the secret of a surviving slot, with every attempt up to it fit to be made.
  lemma RunUnlocksForSecrets(c: Crypto, coins: nat -> byte, policy: byte, st: State, ms: seq<P.Credential>)
    requires c.Correct() && Reachable(c, coins, policy, st) && ms != []
    requires forall t :: t in P.Attempts(st.env.slots, ms) ==> NoCollision(c, st.book, t.0, t.1)
    ensures P.Search(c, st.log, st.env.slots, ms).Success? <==>
      exists p: nat :: ComesToBear(st.book, P.Attempts(st.env.slots, ms), p)
  {
    hide Reachable, Policed, P.Search, P.Attempts, P.Unlock, CanTry, WellFormed, SecretLive, Answers, Made, OnRecord,
      NoCollision, HoldsSecret;
    ReachableIsSound(c, coins, policy, st);
    SearchExactly(c, st.log, st.env.slots, ms);
    var tries := P.Attempts(st.env.slots, ms);
    forall j | 0 <= j < |tries|
      ensures CanTry(c, tries[j].1, tries[j].0)
        <==> WellFormed(tries[j].0) && SecretLive(tries[j].1) && Answers(tries[j].1, tries[j].0)
      ensures WellFormed(tries[j].0) ==> (Opens(c, st.log, tries[j]) <==> HoldsSecret(st.book, tries[j]))
      ensures Opens(c, st.log, tries[j]) ==> CanTry(c, tries[j].1, tries[j].0)
    {
      var (s, m) := tries[j];
      assert (s, m) in tries;
      P.AttemptsExact(st.env.slots, ms, s, m);
      SlotCanBeTried(c, coins, st, m, s);
      TryExactly(c, st.log, m, s);
      if WellFormed(s) { OpensForHolder(c, coins, st, (s, m)); }
    }
    forall p: nat ensures Reaches(c, st.log, tries, p) <==> ComesToBear(st.book, tries, p) {
    }
  }

  lemma OpensForHolder(c: Crypto, coins: nat -> byte, st: State, t: Try)
    requires Audited(c, coins, st.log, st.book) && WellFormed(t.0) && NoCollision(c, st.book, t.0, t.1)
    ensures Opens(c, st.log, t) <==> HoldsSecret(st.book, t)
  {
    hide Audited, WellFormed, NoCollision, P.Unlock, SameSecret;
    OpensForItsSecret(c, coins, st.log, st.book, t.0, t.1);
  }
}
