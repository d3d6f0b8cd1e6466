/** The policy a list of slots implies (envelope.go, tumbler.go). */
module Policies {
  import opened Bytes
  import opened Kinds
  import opened Slots

  predicate Primary(s: Slot) {
    s.typ != METHOD_RECOVERY
  }

  // Some primary slot exists and every primary slot implies p.
  predicate Agree(slots: seq<Slot>, p: byte) {
    (exists i :: 0 <= i < |slots| && Primary(slots[i]))
    && forall i :: 0 <= i < |slots| && Primary(slots[i]) ==> PolicyForMethod(slots[i].typ) == p
  }

  // The real policy on which the primary slots agree, if there is one.
  function PolicyOf(slots: seq<Slot>): byte {
    if Agree(slots, POLICY_PASSWORD_ONLY) then POLICY_PASSWORD_ONLY
    else if Agree(slots, POLICY_PASSWORD_AND_YUBIKEY) then POLICY_PASSWORD_AND_YUBIKEY
    else if Agree(slots, POLICY_YUBIKEY_ONLY) then POLICY_YUBIKEY_ONLY
    else POLICY_INVALID
  }

  lemma PolicyOfMeaning(slots: seq<Slot>, p: byte)
    ensures PolicyValid(p) ==> (PolicyOf(slots) == p <==> Agree(slots, p))
    ensures PolicyOf(slots) == POLICY_INVALID || PolicyValid(PolicyOf(slots))
  {
    if exists i :: 0 <= i < |slots| && Primary(slots[i]) {
      var i :| 0 <= i < |slots| && Primary(slots[i]);
      assert Agree(slots, p) ==> PolicyForMethod(slots[i].typ) == p;
      assert forall q :: Agree(slots, q) ==> PolicyForMethod(slots[i].typ) == q;
    }
  }

  function PrimaryTypes(slots: seq<Slot>): set<byte> {
    set s | s in slots && Primary(s) :: s.typ
  }

  lemma AgreeByTypes(slots: seq<Slot>, p: byte)
    ensures Agree(slots, p) <==>
      PrimaryTypes(slots) != {} && forall t :: t in PrimaryTypes(slots) ==> PolicyForMethod(t) == p
  {
    forall i | 0 <= i < |slots| && Primary(slots[i]) ensures slots[i].typ in PrimaryTypes(slots) {
      assert slots[i] in slots;
    }
  }

  // The policy depends only on which types the primary slots have.
  lemma PolicyOfTypes(a: seq<Slot>, b: seq<Slot>)
    requires PrimaryTypes(a) == PrimaryTypes(b)
    ensures PolicyOf(a) == PolicyOf(b)
  {
    hide Agree, PrimaryTypes;
    forall p ensures Agree(a, p) == Agree(b, p) {
      AgreeByTypes(a, p);
      AgreeByTypes(b, p);
    }
  }

  // Reordering the slots does not change the policy.
  lemma PolicyOfReordered(a: seq<Slot>, b: seq<Slot>)
    requires multiset(a) == multiset(b)
    ensures PolicyOf(a) == PolicyOf(b)
  {
    forall s ensures s in a <==> s in b { assert s in multiset(a) <==> s in multiset(b); }
    assert PrimaryTypes(a) == PrimaryTypes(b);
    PolicyOfTypes(a, b);
  }

  // Inserting or deleting a recovery slot anywhere does not change the policy.
  lemma PolicyOfIgnoresRecovery(a: seq<Slot>, s: Slot, b: seq<Slot>)
    requires !Primary(s)
    ensures PolicyOf(a + [s] + b) == PolicyOf(a + b)
  {
    forall t ensures t in a + [s] + b <==> t == s || t in a + b {
      assert t in a + [s] + b <==> t in a || t in [s] || t in b;
    }
    assert PrimaryTypes(a + [s] + b) == PrimaryTypes(a + b);
    PolicyOfTypes(a + [s] + b, a + b);
  }

  // Adding a primary slot that implies the present policy keeps the policy,
  // real or invalid.
  lemma PolicyOfExtended(slots: seq<Slot>, s: Slot)
    requires Primary(s) && PolicyForMethod(s.typ) == PolicyOf(slots)
    ensures PolicyOf(slots + [s]) == PolicyOf(slots)
  {
    var p := PolicyOf(slots);
    var more := slots + [s];
    assert more[|slots|] == s;
    PolicyOfMeaning(slots, p);
    if PolicyValid(p) {
      var i :| 0 <= i < |slots| && Primary(slots[i]);
      assert more[i] == slots[i];
      forall k | 0 <= k < |more| && Primary(more[k]) ensures PolicyForMethod(more[k].typ) == p {
        if k < |slots| { assert more[k] == slots[k]; }
      }
      assert Agree(more, p);
      PolicyOfMeaning(more, p);
    } else {
      PolicyOfMeaning(more, PolicyOf(more));
      assert PolicyForMethod(s.typ) == POLICY_INVALID;
      assert forall q :: Agree(more, q) ==> PolicyForMethod(more[|slots|].typ) == q;
    }
  }

  // Deleting a slot while another primary remains keeps a real policy.
  lemma PolicyOfReduced(a: seq<Slot>, s: Slot, b: seq<Slot>)
    requires PolicyValid(PolicyOf(a + [s] + b))
    requires exists t :: t in a + b && Primary(t)
    ensures PolicyOf(a + b) == PolicyOf(a + [s] + b)
  {
    var all, less := a + [s] + b, a + b;
    var p := PolicyOf(all);
    PolicyOfMeaning(all, p);
    var t :| t in less && Primary(t);
    var j :| 0 <= j < |less| && less[j] == t;
    assert Primary(less[j]);
    forall k | 0 <= k < |less| && Primary(less[k]) ensures PolicyForMethod(less[k].typ) == p {
      assert less[k] in a || less[k] in b;
      assert less[k] in all;
      var l :| 0 <= l < |all| && all[l] == less[k];
      assert Primary(all[l]);
    }
    assert Agree(less, p);
    PolicyOfMeaning(less, p);
  }

  function PrimaryCount(slots: seq<Slot>): nat {
    if slots == [] then 0 else PrimaryCount(slots[..|slots| - 1]) + if Primary(slots[|slots| - 1]) then 1 else 0
  }

  lemma OneCounts(s: Slot)
    requires Primary(s)
    ensures PrimaryCount([s]) == 1
  {
    assert [s][..0] == [];
  }

  lemma {:induction false} PrimaryCountSplit(a: seq<Slot>, b: seq<Slot>)
    ensures PrimaryCount(a + b) == PrimaryCount(a) + PrimaryCount(b)
  {
    if b == [] {
      assert a + b == a;
    } else {
      assert (a + b)[..|a + b| - 1] == a + b[..|b| - 1];
      PrimaryCountSplit(a, b[..|b| - 1]);
    }
  }

  lemma {:induction false} PrimaryCountPositive(slots: seq<Slot>)
    ensures PrimaryCount(slots) > 0 <==> exists s :: s in slots && Primary(s)
  {
    if slots != [] {
      var init, last := slots[..|slots| - 1], slots[|slots| - 1];
      PrimaryCountPositive(init);
      assert slots == init + [last];
      if s :| s in slots && Primary(s) { assert s in init || s == last; }
      if s :| s in init && Primary(s) { assert s in slots; }
      assert last in slots;
    }
  }

  // The policy of one slot, in numbers: password 1, password and YubiKey 2, YubiKey 3.
  lemma PolicyInNumbers(t: byte)
    ensures PolicyForMethod(t) == if t == 1 then 1 else if t == 3 then 2 else if t == 2 then 3 else 0
  {
  }

  // In those numbers: the policy is p exactly when some slot is no recovery slot and
  // each such slot has the type of p.
  lemma PolicyByTypes(slots: seq<Slot>, p: byte)
    requires 1 <= p <= 3
    ensures PolicyOf(slots) == p <==>
      (exists i :: 0 <= i < |slots| && slots[i].typ != 4)
      && forall i :: 0 <= i < |slots| && slots[i].typ != 4 ==>
           slots[i].typ == if p == 1 then 1 else if p == 2 then 3 else 2
  {
    PolicyOfMeaning(slots, p);
    if i :| 0 <= i < |slots| && slots[i].typ != 4 { assert Primary(slots[i]); }
    forall i | 0 <= i < |slots| ensures Primary(slots[i]) <==> slots[i].typ != 4 {
      PolicyInNumbers(slots[i].typ);
    }
  }
}
