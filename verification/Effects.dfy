/** Everything outside the data: randomness, operations that may fail, the record
    of sealings, and ghost bookkeeping of live secrets. */
module Effects {
  import opened Bytes
  import opened Errors
  import opened Primitives

  // How many of the first n fallible calls fail.
  ghost function Failing(faults: nat -> bool, n: nat): nat {
    if n == 0 then 0 else Failing(faults, n - 1) + if faults(n - 1) then 1 else 0
  }

  // n bytes of the random stream, from position `at`.
  function Draw(coins: nat -> byte, at: nat, n: nat): (b: bytes)
    ensures |b| == n
  {
    seq(n, i requires 0 <= i => coins(at + i))
  }

  class World {
    const crypto: Crypto
    const faults: nat -> bool           // which fallible calls fail
    const unlockFaults: nat -> bool     // which munlock calls fail
    const coins: nat -> byte            // the random stream
    var tick: nat                       // fallible calls made
    var unlocks: nat                    // munlock calls made
    var drawn: nat                      // random bytes drawn
    var log: seq<Sealed>                // sealings made
    ghost var hits: nat                 // fallible calls that failed
    ghost var fault: FaultKind          // which kind of call failed last
    ghost var live: set<object>         // secret containers not yet destroyed
    ghost var residue: set<object>      // raw secret buffers not yet zeroed

    ghost predicate Valid()
      reads this
    {
      hits == Failing(faults, tick) && crypto.Correct() && Honest(crypto, log)
    }

    constructor (crypto: Crypto, faults: nat -> bool, unlockFaults: nat -> bool, coins: nat -> byte)
      requires crypto.Correct()
      ensures Valid() && log == [] && live == {} && residue == {} && hits == 0 && drawn == 0
      ensures this.crypto == crypto && this.faults == faults && this.unlockFaults == unlockFaults && this.coins == coins
    {
      this.crypto := crypto;
      this.faults := faults;
      this.unlockFaults := unlockFaults;
      this.coins := coins;
      tick, unlocks, drawn, log := 0, 0, 0, [];
      hits, fault, live, residue := 0, Rng, {}, {};
    }

    // Makes one fallible call of the given kind.
    method Fails(kind: FaultKind) returns (failed: bool)
      requires Valid()
      modifies this`tick, this`hits, this`fault
      ensures Valid() && failed == faults(old(tick)) && tick == old(tick) + 1
      ensures hits == old(hits) + if failed then 1 else 0
      ensures fault == if failed then kind else old(fault)
    {
      failed := faults(tick);
      hits := hits + if failed then 1 else 0;
      fault := if failed then kind else fault;
      tick := tick + 1;
    }

    // ctx.Err()
    method CtxErr() returns (r: Result<()>)
      requires Valid()
      modifies this`tick, this`hits, this`fault
      ensures Valid()
      ensures hits == old(hits) ==> r == Success(())
      ensures hits != old(hits) ==> hits == old(hits) + 1 && r == Failure(Fault(Cancelled)) && fault == Cancelled
    {
      var f := Fails(Cancelled);
      return if f then Failure(Fault(Cancelled)) else Success(());
    }

    method RandBytes(n: nat) returns (r: Result<bytes>)
      requires Valid()
      modifies this`tick, this`hits, this`fault, this`drawn
      ensures Valid()
      ensures hits == old(hits) ==> r == Success(Draw(coins, old(drawn), n)) && drawn == old(drawn) + n
      ensures hits != old(hits) ==>
        hits == old(hits) + 1 && r == Failure(Fault(Rng)) && fault == Rng && drawn == old(drawn)
    {
      var f := Fails(Rng);
      if f { return Failure(Fault(Rng)); }
      r := Success(Draw(coins, drawn, n));
      drawn := drawn + n;
    }
  }

  // With a reliable environment no call ever fails.
  lemma {:induction false} ReliableNeverFails(faults: nat -> bool, n: nat)
    requires forall i :: !faults(i)
    ensures Failing(faults, n) == 0
  {
    if n > 0 { ReliableNeverFails(faults, n - 1); }
  }

  // Drawn bytes are the coins at their positions.
  lemma DrawnInOrder(coins: nat -> byte, at: nat, n: nat, i: nat)
    requires i < n
    ensures Draw(coins, at, n)[i] == coins(at + i)
  {
  }
}
