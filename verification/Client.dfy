/** A program that uses the library: it creates an envelope, calls AddSlot, RemoveSlot,
    Marshal and ParseEnvelope in any order, and in the end reads the envelope back and
    unlocks it. What it does is one of the runs of module Vault. */
module Client {
  import opened Bytes
  import opened Errors
  import opened Kinds
  import opened Slots
  import opened Policies
  import opened Primitives
  import opened Effects
  import opened SecureBytes
  import opened Envelopes
  import opened Records
  import opened Vault
  import Combine
  import M = Methods
  import P = Protocol
  import Wire

  datatype Call =
    | AddSlot(dek: SecureBytes, m: M.Method)
    | RemoveSlot(id: SlotId)
    | SaveAndLoad

  ghost predicate Usable(x: Call)
    reads if x.AddSlot? then {x.dek, M.SecretOf(x.m)} else {}
  {
    x.AddSlot? ==> x.dek.Valid() && M.Ready(x.m)
  }

  // The call with its secrets by value.
  ghost function Asked(x: Call): Op
    reads if x.AddSlot? then {x.dek, x.dek.buf, M.SecretOf(x.m)} + Combine.RoleFootprint(M.SecretOf(x.m)) else {}
  {
    match x
    case AddSlot(dek, m) => Add(M.View(m), dek.Contents(), 0, false)
    case RemoveSlot(id) => Remove(id)
    case SaveAndLoad => Reload
  }

  // The step carries out the call, with some randomness and perhaps an outside failure.
  ghost predicate Carries(op: Op, ask: Op) {
    if op.Add? && ask.Add? then op.m == ask.m && op.dek == ask.dek else op == ask
  }

  ghost predicate Faultless(ops: seq<Op>) {
    forall op :: op in ops && op.Add? ==> !op.faulty
  }

  // Marshal and then ParseEnvelope.
  method ReadBack(env: Envelope, wide: bool) returns (r: Result<Envelope>)
    ensures match Reread(env.View())
      case Success(e) => r.Success? && fresh(r.value) && r.value.View() == e
      case Failure(e) => r == Failure(e)
  {
    hide Wire.Marshal, Wire.Parse;
    var b := env.Marshal();
    if b.Failure? { return Failure(b.error); }
    r := Envelope.ParseEnvelope(b.value, wide);
  }

  // One call, which is one step of the run.
  method Do(w: World, env: Envelope, x: Call, wide: bool, ghost ask: Op, ghost st: State)
    returns (env': Envelope, ghost op: Op)
    requires w.Valid() && Usable(x) && ask == Asked(x)
    requires st.env == env.View() && st.log == w.log
    modifies env`slots, w`tick, w`hits, w`fault, w`drawn, w`live, w`residue, w`unlocks, w`log
    ensures w.Valid() && w.live == old(w.live) && w.residue == old(w.residue) && w.hits >= old(w.hits)
    ensures env' == env || fresh(env')
    ensures Carries(op, ask) && (w.hits == old(w.hits) ==> op.Add? ==> !op.faulty)
    ensures Step(w.crypto, w.coins, st, op).env == env'.View() && Step(w.crypto, w.coins, st, op).log == w.log
  {
    hide Failing, Honest, AddLog, AddWant, RemoveWant, Reread;
    env' := env;
    match x
    case AddSlot(dek, m) =>
      ghost var at := w.drawn;
      var r := env.AddSlot(w, dek, m, ask.m, ask.dek);
      op := Add(ask.m, ask.dek, at, w.hits != old(w.hits));
      AddAppends(w.crypto, st.env, ask.m, ask.dek, w.coins, at);
    case RemoveSlot(id) =>
      var r := env.RemoveSlot(id);
      op := Remove(id);
    case SaveAndLoad =>
      op := Reload;
      var back := ReadBack(env, wide);
      if back.Success? { env' := back.value; }
  }

  lemma AddAppends(c: Crypto, e: Wire.Image, m: P.Credential, dek: Option<bytes>, coins: nat -> byte, at: nat)
    ensures var r := AddWant(c, e, m, dek, coins, at);
      if r.Success? then DekFits(dek) && |r.value.slots| > 0 else AddLog(c, e, m, dek, coins, at) == []
  {
    hide P.Enroll;
  }

  // Any sequence of calls is a run.
  method Drive(w: World, env: Envelope, calls: seq<Call>, wide: bool, ghost asks: seq<Op>, ghost start: State)
    returns (last: Envelope, ghost ops: seq<Op>)
    requires w.Valid() && |asks| == |calls|
    requires forall j :: 0 <= j < |calls| ==> Usable(calls[j]) && asks[j] == Asked(calls[j])
    requires start.env == env.View() && start.log == w.log
    modifies env`slots, w`tick, w`hits, w`fault, w`drawn, w`live, w`residue, w`unlocks, w`log
    ensures w.Valid() && w.live == old(w.live) && w.residue == old(w.residue) && w.hits >= old(w.hits)
    ensures last == env || fresh(last)
    ensures |ops| == |asks| && forall j :: 0 <= j < |ops| ==> Carries(ops[j], asks[j])
    ensures w.hits == old(w.hits) ==> Faultless(ops)
    ensures var st := Run(w.crypto, w.coins, start, ops);
      st.env == last.View() && st.log == w.log
  {
    hide Failing, Honest, Step;
    last, ops := env, [];
    for i := 0 to |calls|
      modifies env`slots, w`tick, w`hits, w`fault, w`drawn, w`live, w`residue, w`unlocks, w`log
      invariant w.Valid() && w.live == old(w.live) && w.residue == old(w.residue) && w.hits >= old(w.hits)
      invariant last == env || fresh(last)
      invariant forall j :: i <= j < |calls| ==> Usable(calls[j]) && asks[j] == Asked(calls[j])
      invariant |ops| == i && forall j :: 0 <= j < i ==> Carries(ops[j], asks[j])
      invariant w.hits == old(w.hits) ==> Faultless(ops)
      invariant Run(w.crypto, w.coins, start, ops).env == last.View()
      invariant Run(w.crypto, w.coins, start, ops).log == w.log
    {
      ghost var st := Run(w.crypto, w.coins, start, ops);
      ghost var op;
      last, op := Do(w, last, calls[i], wide, asks[i], st);
      RunOneMore(w.crypto, w.coins, start, ops, op);
      ops := ops + [op];
    }
  }

  // What reading back and unlocking must give after a run.
  ghost function Reopened(c: Crypto, st: State, ms: seq<P.Credential>): Result<bytes> {
    var e :- Reread(st.env);
    P.Search(c, st.log, e.slots, ms)
  }

  method Reopen(w: World, env: Envelope, us: seq<M.Method>, wide: bool, ghost uvs: seq<P.Credential>, ghost st: State)
    returns (r: Result<SecureBytes>, ghost want: Result<bytes>)
    requires w.Valid() && |uvs| == |us|
    requires forall j :: 0 <= j < |us| ==> M.Ready(us[j]) && uvs[j] == M.View(us[j])
    requires st.env == env.View() && st.log == w.log
    modifies w`tick, w`hits, w`fault, w`live, w`residue, w`unlocks
    ensures w.Valid() && Delivers(w, r, want)
    ensures want == Reopened(w.crypto, st, uvs)
  {
    hide Failing, Honest, Reread, P.Search, P.Attempts, P.Verdict, P.Unlock, M.TypeOf;
    var back := ReadBack(env, wide);
    if back.Failure? { return Failure(back.error), Failure(back.error); }
    want := Reopened(w.crypto, st, uvs);
    r := back.value.Unlock(w, us, uvs);
  }

  // A whole session. Either NewEnvelope fails, or the calls after it are a run that
  // begins where NewEnvelope ended, and what is returned is what reopening the last
  // state gives. If nothing outside ever fails, both are exact.
  method Session(w: World, dek: SecureBytes, policy: byte, ms: seq<M.Method>, calls: seq<Call>, us: seq<M.Method>,
                 wide: bool, ghost vs: seq<P.Credential>, ghost pt: Option<bytes>, ghost asks: seq<Op>,
                 ghost uvs: seq<P.Credential>, ghost book: seq<Record>)
    returns (r: Result<SecureBytes>, ghost made: bool, ghost ops: seq<Op>, ghost end: State, ghost want: Result<bytes>)
    requires w.Valid()
    requires dek.Valid() && pt == dek.Contents() && |vs| == |ms| && |uvs| == |us| && |asks| == |calls|
    requires forall j :: 0 <= j < |ms| ==> M.Ready(ms[j]) && vs[j] == M.View(ms[j])
    requires forall j :: 0 <= j < |us| ==> M.Ready(us[j]) && uvs[j] == M.View(us[j])
    requires forall j :: 0 <= j < |calls| ==> Usable(calls[j]) && asks[j] == Asked(calls[j])
    modifies w`tick, w`hits, w`fault, w`drawn, w`live, w`residue, w`unlocks, w`log
    ensures w.Valid() && w.residue == old(w.residue)
    ensures (forall i :: !w.faults(i)) ==> w.hits == old(w.hits)
    ensures !made ==> r.Failure? && w.live == old(w.live)
    ensures !made && w.hits == old(w.hits) ==>
      NewWant(w.crypto, pt, policy, vs, w.coins, old(w.drawn)) == Failure(r.error)
    ensures !made && w.hits != old(w.hits) ==> w.hits == old(w.hits) + 1 && r == Failure(Fault(w.fault))
    ensures made ==> Ends(w, r, want) && end.log == w.log
    ensures made ==> |ops| == |asks| && forall j :: 0 <= j < |ops| ==> Carries(ops[j], asks[j])
    ensures made && w.hits == old(w.hits) ==> Faultless(ops)
    ensures made ==> pt.Some? && NewWant(w.crypto, pt, policy, vs, w.coins, old(w.drawn)).Success?
    ensures made ==>
      end == Run(w.crypto, w.coins, Start(w.crypto, w.coins, old(w.log), book, pt.value, policy, vs, old(w.drawn)), ops)
    ensures made ==> want == Reopened(w.crypto, end, uvs)
  {
    hide Failing, Honest, NewWant, NewLog, Run, Start, Reopened, Faultless;
    ghost var c, coins, at, log := w.crypto, w.coins, w.drawn, w.log;
    NothingFailed(w);
    var created := Envelope.NewEnvelope(w, dek, policy, ms, vs, pt);
    NothingFailed(w);
    if created.Failure? {
      return Failure(created.error), false, [], State(Wire.Image(0, 0, []), [], []), Failure(created.error);
    }
    StartFits(c, coins, log, book, pt, policy, vs, at);
    ghost var start := Start(c, coins, log, book, pt.value, policy, vs, at);
    made := true;
    var last;
    last, ops := Drive(w, created.value, calls, wide, asks, start);
    NothingFailed(w);
    end := Run(c, coins, start, ops);
    r, want := Reopen(w, last, us, wide, uvs, end);
    NothingFailed(w);
  }

  lemma StartFits(c: Crypto, coins: nat -> byte, log: seq<Sealed>, book: seq<Record>, pt: Option<bytes>,
                  policy: byte, vs: seq<P.Credential>, at: nat)
    requires NewWant(c, pt, policy, vs, coins, at).Success?
    ensures pt.Some?
    ensures var start := Start(c, coins, log, book, pt.value, policy, vs, at);
      start.env == NewWant(c, pt, policy, vs, coins, at).value
      && start.log == log + NewLog(c, pt, policy, vs, coins, at)
  {
    hide EnrollAll, EnrollAllLog, PolicyOf;
  }

  // In a world where nothing fails, nothing has failed.
  lemma NothingFailed(w: World)
    requires w.Valid()
    ensures (forall i :: !w.faults(i)) ==> w.hits == 0
  {
    hide Honest;
    if forall i :: !w.faults(i) { ReliableNeverFails(w.faults, w.tick); }
  }

  // The outcome agrees with what was wanted, or an outside failure is returned.
  twostate predicate Ends(w: World, new r: Result<SecureBytes>, new want: Result<bytes>)
    reads w, if r.Success? then {r.value} else {},
      if r.Success? && r.value.buf != null then {r.value.buf} else {}
  {
    match r
    case Success(sb) =>
      fresh(sb) && sb.Valid() && sb.Contents().Some? && want == Success(sb.Contents().value)
      && w.live == old(w.live) + {sb}
    case Failure(e) =>
      w.live == old(w.live) && (want == Failure(e) || (w.hits != old(w.hits) && e == Fault(w.fault)))
  }

  // What a session leaves is a state the theorems about runs speak of.
  lemma SessionReaches(c: Crypto, coins: nat -> byte, policy: byte, log: seq<Sealed>, book: seq<Record>, dek: bytes,
                   vs: seq<P.Credential>, at: nat, ops: seq<Op>, end: State)
    requires Audited(c, coins, log, book) && NewWant(c, Some(dek), policy, vs, coins, at).Success?
    requires end == Run(c, coins, Start(c, coins, log, book, dek, policy, vs, at), ops)
    ensures Reachable(c, coins, policy, end) && DekFits(Some(dek))
  {
    hide Audited, Start, Run, EnrollAll, PolicyOf;
    assert Leads(c, coins, policy, log, book, dek, vs, at, ops, end);
  }

  // A session whose first sealings are on record, with one data key, KDFs within the
  // bounds and at most 64 slots at the end, can be reopened by the secret of any slot
  // that is left: reopening gives the data key if every earlier attempt has a live
  // secret and a device with that slot's OTP slot.
  lemma SecretReopens(c: Crypto, coins: nat -> byte, log: seq<Sealed>, book: seq<Record>, dek: bytes, policy: byte,
                      vs: seq<P.Credential>, at: nat, ops: seq<Op>, end: State, us: seq<P.Credential>, k: nat, p: nat)
    requires c.Correct() && Audited(c, coins, log, book) && NewWant(c, Some(dek), policy, vs, coins, at).Success?
    requires end == Run(c, coins, Start(c, coins, log, book, dek, policy, vs, at), ops)
    requires OneKey(end.book, dek) && AllInBounds(end) && |end.env.slots| <= MAX_SLOT_COUNT
    requires k < |end.book| && p < |P.Attempts(end.env.slots, us)|
    requires var (s, m) := P.Attempts(end.env.slots, us)[p]; s == end.book[k].slot && SameSecret(m, end.book[k].m)
    requires forall j :: 0 <= j < p ==>
      var (s, m) := P.Attempts(end.env.slots, us)[j]; SecretLive(m) && Answers(m, s)
    ensures Reopened(c, end, us) == Success(dek)
  {
    hide Audited, NewWant, Start, Run, Sound, Policed, P.Attempts, P.Search, SameSecret, SecretLive, Answers,
      Reread, AllInBounds, WellFormed, Reachable, P.TypeOf, Wire.Marshal;
    SessionReaches(c, coins, policy, log, book, dek, vs, at, ops, end);
    ReachableIsSound(c, coins, policy, end);
    RunSurvivesDisk(c, coins, policy, end);
    var tries := P.Attempts(end.env.slots, us);
    forall j | 0 <= j < |tries| ensures WellFormed(tries[j].0) {
      var (s, m) := tries[j];
      assert (s, m) in tries;
      P.AttemptsExact(end.env.slots, us, s, m);
      InBoundsFits(c, coins, end, s);
    }
    P.AttemptsExact(end.env.slots, us, tries[p].0, tries[p].1);
    assert (tries[p].0, tries[p].1) in tries;
    InBoundsRecord(end, dek, k);
    SurvivingSecretRecovers(c, coins, policy, end, us, k, p, []);
    assert end.log + [] == end.log && end.book[k] in end.book;
  }

  lemma InBoundsFits(c: Crypto, coins: nat -> byte, st: State, s: Slot)
    requires c.Correct() && Sound(c, coins, st) && AllInBounds(st) && s in st.env.slots
    ensures WellFormed(s)
  {
    hide Sound, Made, WellFormed, KdfInBounds;
    var k := SlotRecord(c, coins, st, s);
    MadeWellFormed(c, coins, st.book[k], st.log[k]);
  }

  lemma InBoundsRecord(st: State, dek: bytes, k: nat)
    requires AllInBounds(st) && OneKey(st.book, dek) && DekFits(Some(dek))
    requires k < |st.book| && st.book[k].slot in st.env.slots
    ensures KdfInBounds(st.book[k].m)
  {
    hide KdfInBounds;
    assert RecordOf(st.book[k], st.book[k].slot);
  }
}
