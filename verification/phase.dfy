/**
 * The migration phase flags: the pre-copy timer of the source and the
 * pre-copy / post-copy phase flag (heca_start_mig_timer, the timer's
 * callback, heca_is_mig_timer_expired, heca_set_post_copy_phase and
 * heca_is_pre_copy_phase). The clock is left out: the callback firing is
 * an operation of its own.
 */
module Phase {
  import opened Types

  /** 2^63: the int64_t values are those in [-2^63, 2^63). */
  const INT64_LIMIT: nat := 0x8000_0000_0000_0000

  /**
   * The expiry time heca_start_mig_timer hands qemu_mod_timer: the int64_t
   * clock reading `now` plus the uint64_t `timeout`, added modulo 2^64 and
   * read back as the int64_t expiry. It is the one int64_t value that is
   * congruent to `now + timeout`.
   */
  function TimerDeadline(now: int, timeout: nat): (t: int)
    requires -(INT64_LIMIT as int) <= now < INT64_LIMIT && timeout < UINT64_MOD
    ensures -(INT64_LIMIT as int) <= t < INT64_LIMIT
    ensures (now + timeout - t) % UINT64_MOD == 0
  {
    var u := (now + timeout) % UINT64_MOD;
    if u < INT64_LIMIT then u else u - UINT64_MOD
  }

  /** A negative timeout of at least -2^63, converted to uint64_t, puts the expiry that many milliseconds before now. */
  lemma DeadlineOfNegative(now: int, timeout: int)
    requires 0 <= now < INT64_LIMIT && -(INT64_LIMIT as int) <= timeout < 0
    ensures TimerDeadline(now, timeout % UINT64_MOD) == now + timeout
  {
    var m := UINT64_MOD as int;
    var w := m + timeout;
    ModInRange(w, 1);
    if now + timeout >= 0 {
      ModInRange(now + timeout, 1);
    } else {
      ModInRange(now + w, 0);
    }
  }

  /** Adding a multiple of 2^64 does not change a value's class modulo 2^64. */
  lemma ModInRange(x: int, k: nat)
    requires 0 <= x < UINT64_MOD
    ensures (x + k * UINT64_MOD) % UINT64_MOD == x
    ensures (x - k * UINT64_MOD) % UINT64_MOD == x
  {
  }

  /** heca_start_mig_timer: a timer is armed; the flags are unchanged. */
  function StartMigTimer(p: PhaseState): (q: PhaseState)
    ensures q.timerPending
    ensures q.timerExpired == p.timerExpired && q.iterativePhase == p.iterativePhase
  {
    p.(timerPending := true)
  }

  /** mig_timer_expired, the callback of an armed timer: records the expiry and deletes the timer. */
  function MigTimerExpired(p: PhaseState): (q: PhaseState)
    requires p.timerPending
    ensures q.timerExpired && !q.timerPending
    ensures q.iterativePhase == p.iterativePhase
  {
    p.(timerExpired := true, timerPending := false)
  }

  /** heca_set_post_copy_phase: leaves the iterative (pre-copy) phase; the timer is unaffected. */
  function SetPostCopyPhase(p: PhaseState): (q: PhaseState)
    ensures !q.iterativePhase
    ensures q.timerPending == p.timerPending && q.timerExpired == p.timerExpired
  {
    p.(iterativePhase := false)
  }

  /** heca_is_mig_timer_expired. */
  function IsMigTimerExpired(p: PhaseState): bool {
    p.timerExpired
  }

  /** heca_is_pre_copy_phase. */
  function IsPreCopyPhase(p: PhaseState): bool {
    p.iterativePhase
  }

  /** The things that can happen to the phase flags. */
  datatype PhaseOp = Start | Fire | PostCopy

  /** One operation; an armed timer's callback only runs while the timer is armed. */
  function Apply(p: PhaseState, op: PhaseOp): PhaseState {
    match op
    case Start => StartMigTimer(p)
    case Fire => if p.timerPending then MigTimerExpired(p) else p
    case PostCopy => SetPostCopyPhase(p)
  }

  /** The flags after a sequence of operations, first to last. */
  function ApplyAll(p: PhaseState, ops: seq<PhaseOp>): PhaseState
    decreases |ops|
  {
    if ops == [] then p else ApplyAll(Apply(p, ops[0]), ops[1..])
  }

  /** Once the timer has expired it stays expired. */
  lemma {:induction false} ExpiryIsSticky(p: PhaseState, ops: seq<PhaseOp>)
    requires IsMigTimerExpired(p)
    ensures IsMigTimerExpired(ApplyAll(p, ops))
    decreases |ops|
  {
    if ops != [] {
      ExpiryIsSticky(Apply(p, ops[0]), ops[1..]);
    }
  }

  /** Nothing returns the glue to the pre-copy phase once it has left it. */
  lemma {:induction false} PostCopyIsFinal(p: PhaseState, ops: seq<PhaseOp>)
    requires !IsPreCopyPhase(p)
    ensures !IsPreCopyPhase(ApplyAll(p, ops))
    decreases |ops|
  {
    if ops != [] {
      PostCopyIsFinal(Apply(p, ops[0]), ops[1..]);
    }
  }

  /**
   * The global starts zeroed and none of the operations here sets the
   * iterative-phase flag, so no sequence of them reports the pre-copy
   * phase. Code outside heca-all.c and heca/qemu-heca.c could still write
   * the extern global; that is not part of this model.
   */
  lemma NeverPreCopy(ops: seq<PhaseOp>)
    ensures !IsPreCopyPhase(ApplyAll(ZeroHeca.phase, ops))
  {
    PostCopyIsFinal(ZeroHeca.phase, ops);
  }

  /** A timer that was neither armed nor expired expires only if it is started and then fires. */
  lemma {:induction false} ExpiryNeedsStartThenFire(p: PhaseState, ops: seq<PhaseOp>)
    requires !p.timerPending && !p.timerExpired
    requires IsMigTimerExpired(ApplyAll(p, ops))
    ensures exists i, j | 0 <= i < j < |ops| :: ops[i] == Start && ops[j] == Fire
    decreases |ops|
  {
    if ops[0] == Start {
      var j := FiresWhileArmed(Apply(p, ops[0]), ops[1..]);
      assert ops[j + 1] == Fire;
    } else {
      var q := Apply(p, ops[0]);
      ExpiryNeedsStartThenFire(q, ops[1..]);
      var i, j :| 0 <= i < j < |ops[1..]| && ops[1..][i] == Start && ops[1..][j] == Fire;
      assert ops[i + 1] == Start && ops[j + 1] == Fire;
    }
  }

  /** A timer that had not expired expires only if its callback runs. */
  lemma {:induction false} FiresWhileArmed(p: PhaseState, ops: seq<PhaseOp>) returns (j: nat)
    requires !p.timerExpired
    requires IsMigTimerExpired(ApplyAll(p, ops))
    ensures j < |ops| && ops[j] == Fire
    decreases |ops|
  {
    if ops[0] == Fire {
      j := 0;
    } else {
      var k := FiresWhileArmed(Apply(p, ops[0]), ops[1..]);
      j := k + 1;
    }
  }
}
