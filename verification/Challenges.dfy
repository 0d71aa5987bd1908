/**
 * Single-use challenges over whole runs of the store. `checkReceipt` reads the clock in whole
 * seconds, refuses the challenge from its `exp` on, and later, after the device check, records the
 * nonce as spent for a time to live counted from the spending. In between, time passes; spent
 * nonces are swept; anyone may spend anything.
 */
module Challenges {
  import opened Basics
  import opened BridgeTypes
  import opened StoreSpec
  import opened StoreRuns
  import opened StoreOutcomes

  /** `Math.floor(ms / 1000)`. */
  function Seconds(ms: nat): nat { ms / 1_000 }

  /** How long `checkReceipt` records the nonce of a challenge expiring at `exp`. */
  function SpentTtl(exp: int, nowSeconds: int): int {
    Max(1_000, (exp - nowSeconds + 1) * 1_000)
  }

  /**
   * The run's `i`-th method is the spending by which a `checkReceipt` that read the clock at
   * `readAt` accepted the challenge `(nonce, exp)`, at most `delay` milliseconds later.
   */
  ghost predicate Accepts(h: Run, i: nat, nonce: Id, exp: int, readAt: nat, delay: nat) {
    && i < |h.ops|
    && readAt <= h.ops[i].t <= readAt + delay
    && Seconds(readAt) < exp
    && h.ops[i].op == SpendOp(nonce, SpentTtl(exp, Seconds(readAt)))
    && h.answers[i] == Flag(true)
  }

  /** In every run, whatever else happens in it, one challenge is accepted at most once. */
  ghost predicate SingleUse(delay: nat) {
    forall h: Run, i, j, nonce, exp, r1, r2 |
      Monotone(h.ops) && i < j && Accepts(h, i, nonce, exp, r1, delay) && Accepts(h, j, nonce, exp, r2, delay) ::
      false
  }

  /** A live spent record survives every method run before it expires. */
  lemma SpentStep(s: Store, e: Timed, nonce: Id, until: int)
    requires nonce in s.nonces && s.nonces[nonce] >= until && e.t < until
    ensures nonce in Apply(s, e).0.nonces && Apply(s, e).0.nonces[nonce] >= until
  {
    if e.op.TakeOp? || e.op.RequeueOp? || e.op.WithdrawOp? { QueueStep(s, e); }
  }

  lemma {:induction false} SpentStays(h: Run, i: nat, j: nat, nonce: Id, until: int)
    requires i <= j <= |h.ops| && forall k :: i <= k < j ==> h.ops[k].t < until
    requires nonce in h.states[i].nonces && h.states[i].nonces[nonce] >= until
    ensures nonce in h.states[j].nonces && h.states[j].nonces[nonce] >= until
    decreases j
  {
    if i < j {
      SpentStays(h, i, j - 1, nonce, until);
      assert StepAt(h, j - 1);
      SpentStep(h.states[j - 1], h.ops[j - 1], nonce, until);
    }
  }

  lemma AcceptanceIsRecorded(h: Run, i: nat, nonce: Id, exp: int, readAt: nat, delay: nat)
    requires Accepts(h, i, nonce, exp, readAt, delay)
    ensures nonce in h.states[i].nonces ==> h.states[i].nonces[nonce] <= h.ops[i].t
    ensures nonce in h.states[i + 1].nonces && h.states[i + 1].nonces[nonce] >= (exp + 1) * 1_000
  {
    assert StepAt(h, i);
  }

  /** The spent record of an acceptance lasts past every later acceptance's spending, if that takes at most a second. */
  lemma AcceptedOnce(h: Run, i: nat, j: nat, nonce: Id, exp: int, r1: nat, r2: nat, delay: nat)
    requires Monotone(h.ops) && i < j && delay <= 1_000
    requires Accepts(h, i, nonce, exp, r1, delay)
    ensures !Accepts(h, j, nonce, exp, r2, delay)
  {
    AcceptanceIsRecorded(h, i, nonce, exp, r1, delay);
    if Accepts(h, j, nonce, exp, r2, delay) {
      var until := (exp + 1) * 1_000;
      assert h.ops[j].t < until;
      SpentStays(h, i + 1, j, nonce, until);
      AcceptanceIsRecorded(h, j, nonce, exp, r2, delay);
    }
  }

  /** Two spendings of challenge 7, expiring at second 1: at time 0 and, by a check that read 999 ms, at 2000 ms. */
  ghost function TwoSpendings(): History {
    var ops := [At(0, SpendOp(7, 2_000)), At(2_000, SpendOp(7, 2_000))];
    var (s1, x1) := Apply(EmptyStore, ops[0]);
    var (s2, x2) := Apply(s1, ops[1]);
    History(ops, [EmptyStore, s1, s2], [x1, x2])
  }

  /** With more than a second between reading the clock and spending, one challenge is accepted twice. */
  lemma AcceptedTwice()
    ensures IsHistory(TwoSpendings()) && Monotone(TwoSpendings().ops)
    ensures Accepts(TwoSpendings(), 0, 7, 1, 0, 1_001) && Accepts(TwoSpendings(), 1, 7, 1, 999, 1_001)
  {
    var h := TwoSpendings();
    assert Seconds(0) == 0 && Seconds(999) == 0 && SpentTtl(1, 0) == 2_000;
    assert h.states[1].nonces == map[7 := 2_000];
    assert StepAt(h, 0) && StepAt(h, 1);
  }

  /**
   * A challenge is single-use exactly when no check takes more than one second from reading the
   * clock to spending the nonce.
   */
  lemma SingleUseExactly(delay: nat)
    ensures SingleUse(delay) <==> delay <= 1_000
  {
    if delay <= 1_000 {
      forall h: Run, i, j, nonce, exp, r1, r2 |
        Monotone(h.ops) && i < j && Accepts(h, i, nonce, exp, r1, delay) && Accepts(h, j, nonce, exp, r2, delay)
        ensures false
      {
        AcceptedOnce(h, i, j, nonce, exp, r1, r2, delay);
      }
    } else {
      AcceptedTwice();
      var h: Run := TwoSpendings();
      assert Accepts(h, 0, 7, 1, 0, delay) && Accepts(h, 1, 7, 1, 999, delay);
    }
  }
}
