/**
 * The jwt and oBuf globals under several callers: a call stores what malloc returned in the one global pointer and
 * later frees through it. What the ledgers of Mqtt and Gcpjwt take for granted, calls that do not overlap, is shown
 * here to be needed, and how far.
 */
module SharedPointer {
  import opened HeapLedger

  /** What a call does to the global: `p = malloc(..)`, which succeeds or stores NULL, and at last `free(p)`. */
  datatype Op = Allocate | AllocateFails | Release

  /** Whether `free` was ever given a block that is not outstanding is recorded in `fault`. */
  datatype Pointer = Pointer(target: Block, live: set<Block>, next: Block, fault: bool)

  /** Freeing NULL does nothing. */
  function Step(s: Pointer, op: Op): Pointer {
    match op
    case Allocate => s.(target := s.next, live := s.live + {s.next}, next := s.next + 1)
    case AllocateFails => s.(target := NULL)
    case Release =>
      if s.target == NULL then s else s.(live := s.live - {s.target}, fault := s.fault || s.target !in s.live)
  }

  /** The globals start as NULL. */
  const UNUSED := Pointer(NULL, {}, 1, false)

  function Exec(ops: seq<Op>): Pointer {
    if ops == [] then UNUSED else Step(Exec(ops[..|ops| - 1]), ops[|ops| - 1])
  }

  /** How many calls are between their allocation and their release. */
  function Open(ops: seq<Op>): int {
    if ops == [] then 0 else Open(ops[..|ops| - 1]) + if ops[|ops| - 1] == Release then -1 else 1
  }

  /** An interleaving of calls, each of which releases once, after its allocation. */
  predicate Calls(ops: seq<Op>) {
    forall k :: 0 <= k <= |ops| ==> Open(ops[..k]) >= 0
  }

  /** No wrong free so far, and no block outstanding but the one that the global points to. */
  predicate Tidy(s: Pointer) {
    !s.fault && s.live <= {s.target}
  }

  /** Every block freed exactly once, and nothing else freed. */
  predicate Clean(s: Pointer) {
    !s.fault && s.live == {}
  }

  /** The block allocated at k, if one is, is freed before the next allocation is tried, and freed only once. */
  predicate FreedOnce(ops: seq<Op>, k: nat)
    requires k < |ops|
  {
    ops[k] == Allocate ==>
      && (k + 1 < |ops| ==> ops[k + 1] == Release)
      && (k + 2 < |ops| ==> ops[k + 2] != Release)
  }

  predicate Paired(ops: seq<Op>) {
    forall k :: 0 <= k < |ops| ==> FreedOnce(ops, k)
  }

  /** No call begins while another is open. */
  predicate Serial(ops: seq<Op>) {
    forall k :: 0 <= k < |ops| && ops[k] != Release ==> Open(ops[..k]) == 0
  }

  predicate Sound(s: Pointer) {
    NULL < s.next && s.target < s.next && forall b :: b in s.live ==> NULL < b < s.next
  }

  lemma {:induction false} ExecSound(ops: seq<Op>)
    ensures Sound(Exec(ops))
  {
    if ops != [] {
      ExecSound(ops[..|ops| - 1]);
    }
  }

  /** A block the global no longer points to is never freed, and a wrong free is not undone. */
  lemma {:induction false} LostForever(before: seq<Op>, after: seq<Op>, b: Block)
    requires b in Exec(before).live && b != Exec(before).target
    ensures b in Exec(before + after).live && b != Exec(before + after).target
  {
    if after == [] {
      assert before + after == before;
    } else {
      var ops := before + after;
      assert ops[..|ops| - 1] == before + after[..|after| - 1];
      LostForever(before, after[..|after| - 1], b);
      ExecSound(ops[..|ops| - 1]);
    }
  }

  /** The last operation was an allocation that succeeded, or the release after one. */
  predicate EndsHeld(ops: seq<Op>) {
    |ops| >= 1 && ops[|ops| - 1] == Allocate
  }

  predicate EndsFreed(ops: seq<Op>) {
    |ops| >= 2 && ops[|ops| - 2] == Allocate && ops[|ops| - 1] == Release
  }

  lemma PairedSnoc(ops: seq<Op>, op: Op)
    ensures Paired(ops + [op]) <==>
            Paired(ops) && (EndsHeld(ops) ==> op == Release) && (EndsFreed(ops) ==> op != Release)
  {
    var longer, n := ops + [op], |ops|;
    if Paired(longer) {
      forall k | 0 <= k < n ensures FreedOnce(ops, k) {
        assert FreedOnce(longer, k);
      }
      assert n >= 1 ==> FreedOnce(longer, n - 1);
      assert n >= 2 ==> FreedOnce(longer, n - 2);
    }
    if Paired(ops) && (EndsHeld(ops) ==> op == Release) && (EndsFreed(ops) ==> op != Release) {
      forall k | 0 <= k <= n ensures FreedOnce(longer, k) {
        assert k < n ==> FreedOnce(ops, k);
      }
    }
  }

  /** What a paired trace leaves: a block held, a block just freed, or NULL. */
  lemma {:induction false} PairedState(ops: seq<Op>)
    ensures var s := Exec(ops);
            if Paired(ops) then
              && !s.fault
              && s.live == (if EndsHeld(ops) then {s.target} else {})
              && (s.target == NULL <==> !EndsHeld(ops) && !EndsFreed(ops))
            else !Tidy(s)
  {
    if ops != [] {
      var before, op := ops[..|ops| - 1], ops[|ops| - 1];
      assert ops == before + [op];
      PairedState(before);
      PairedSnoc(before, op);
      ExecSound(before);
    }
  }

  /**
   * Whatever the order of the operations: nothing was lost and nothing freed twice exactly when each block is freed
   * before the next allocation is tried, and not again before it.
   */
  lemma TidyExactly(ops: seq<Op>)
    ensures Tidy(Exec(ops)) <==> Paired(ops)
  {
    PairedState(ops);
  }

  /** Over every interleaving of complete calls, failing allocations included, the ledger is clean in just that case. */
  lemma CleanExactly(ops: seq<Op>)
    requires Calls(ops) && Open(ops) == 0
    ensures Clean(Exec(ops)) <==> Paired(ops)
  {
    PairedState(ops);
    assert ops != [] ==> Open(ops[..|ops| - 1]) >= 0;
  }

  lemma SerialSnoc(ops: seq<Op>, op: Op)
    ensures Serial(ops + [op]) <==> Serial(ops) && (op != Release ==> Open(ops) == 0)
  {
    var longer := ops + [op];
    assert longer[..|ops|] == ops;
    assert forall k :: 0 <= k <= |ops| ==> longer[..k] == ops[..k];
    if Serial(longer) {
      forall k | 0 <= k < |ops| && ops[k] != Release ensures Open(ops[..k]) == 0 {
        assert longer[k] == ops[k];
      }
    }
  }

  lemma CallsSnoc(ops: seq<Op>, op: Op)
    ensures Calls(ops + [op]) <==> Calls(ops) && Open(ops + [op]) >= 0
  {
    var longer := ops + [op];
    assert longer[..|longer|] == longer;
    assert forall k :: 0 <= k <= |ops| ==> longer[..k] == ops[..k];
    if Calls(longer) {
      forall k | 0 <= k <= |ops| ensures Open(ops[..k]) >= 0 {
        assert Open(longer[..k]) >= 0;
      }
    }
  }

  /** Calls one after the other: the one that is open is the one whose allocation came last. */
  lemma {:induction false} SerialCalls(ops: seq<Op>)
    requires Calls(ops)
    ensures Serial(ops) ==> Paired(ops) && Open(ops) == if ops == [] || ops[|ops| - 1] == Release then 0 else 1
    ensures AllocateFails !in ops ==> (Serial(ops) <==> Paired(ops))
  {
    if ops != [] {
      var before, op := ops[..|ops| - 1], ops[|ops| - 1];
      assert ops == before + [op];
      CallsSnoc(before, op);
      SerialCalls(before);
      SerialSnoc(before, op);
      PairedSnoc(before, op);
    }
  }

  /** So calls that do not overlap keep the ledger clean, whichever allocations fail. */
  lemma SerialIsClean(ops: seq<Op>)
    requires Calls(ops) && Serial(ops)
    ensures Tidy(Exec(ops)) && (Open(ops) == 0 ==> Clean(Exec(ops)))
  {
    SerialCalls(ops);
    TidyExactly(ops);
    if Open(ops) == 0 {
      CleanExactly(ops);
    }
  }

  /** And where no allocation fails, as for jwt, only they do. */
  lemma CleanIffSerial(ops: seq<Op>)
    requires Calls(ops) && AllocateFails !in ops
    ensures Tidy(Exec(ops)) <==> Serial(ops)
    ensures Open(ops) == 0 ==> (Clean(Exec(ops)) <==> Serial(ops))
  {
    SerialCalls(ops);
    TidyExactly(ops);
    if Open(ops) == 0 {
      CleanExactly(ops);
    }
  }

  /**
   * Failing allocations make the difference: two overlapping calls that both fail, or that overlap a third which is
   * over in between, do no harm; but a failure loses the block of a call that is open.
   */
  lemma FailuresMatter()
    ensures Clean(Exec([AllocateFails, AllocateFails, Release, Release]))
    ensures Clean(Exec([AllocateFails, Allocate, Release, AllocateFails, Release, Release]))
    ensures !Clean(Exec([Allocate, AllocateFails, Release, Release]))
    ensures !Clean(Exec([AllocateFails, Allocate, Release, Release]))
  {
    PairedState([AllocateFails, AllocateFails, Release, Release]);
    PairedState([AllocateFails, Allocate, Release, AllocateFails, Release, Release]);
    PairedState([Allocate, AllocateFails, Release, Release]);
    assert !FreedOnce([Allocate, AllocateFails, Release, Release], 0);
    PairedState([AllocateFails, Allocate, Release, Release]);
    assert !FreedOnce([AllocateFails, Allocate, Release, Release], 1);
  }
}
