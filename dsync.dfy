/** The bookkeeping of the distributed read/write mutex: the quorum rule, the grant
    table with one slot per lock server, the decision loop that collects the
    servers' answers, the release of grants, and the commit of a successful round
    into the mutex's write slot or read queue.

    Goroutines, channels and clocks are replaced by data: the answers arrive in a
    given order and the acquire timeout fires, if at all, before a given answer.
    Every `sendRelease` call is returned as a `Release` entry. */
module DSync {

  /** `isLocked`: a slot or an answer holds a grant iff its uid is non-empty. */
  predicate IsLocked(uid: string): (locked: bool)
    ensures locked <==> uid != ""
  {
    |uid| > 0
  }

  /** An answer of lock server `index`; `lockUID` is empty when it refused. */
  datatype Granted = Granted(index: nat, lockUID: string)

  /** One `sendRelease(ds, restClnts[index], uid, isRead, ...)` call. */
  datatype Release = Release(index: nat, uid: string, isRead: bool)

  /** The quorum and the tolerance that `lock` settles on. */
  datatype QuorumRule = QuorumRule(quorum: int, tolerance: int)

  // ---------------------------------------------------------------------------
  // The quorum rule

  /** `lock`'s arithmetic for n lock servers: a tolerance of 0 means n/2, the quorum
      is what remains, a write lock breaks the tie quorum == tolerance upwards, and
      the tolerance is recomputed from the final quorum. */
  function QuorumFor(n: nat, tolerance: int, isReadLock: bool): (r: QuorumRule)
    ensures r.tolerance == n - r.quorum
    ensures tolerance != 0 && (isReadLock || n != 2 * tolerance) ==> r.quorum == n - tolerance
    ensures tolerance != 0 && !isReadLock && n == 2 * tolerance ==> r.quorum == tolerance + 1
  {
    var t := if tolerance == 0 then n / 2 else tolerance;
    var q := n - t;
    var q' := if !isReadLock && q == t then q + 1 else q;
    QuorumRule(q', n - q')
  }

  /** With the default tolerance a write lock needs n/2 + 1 grants, whatever the
      parity of n, and a read lock needs the larger half. */
  lemma DefaultQuorums(n: nat)
    ensures QuorumFor(n, 0, false).quorum == n / 2 + 1
    ensures QuorumFor(n, 0, true).quorum == n - n / 2
    ensures 2 * QuorumFor(n, 0, true).quorum >= n
  {
    if n % 2 == 0 {
      assert n - n / 2 == n / 2;
    } else {
      assert n - n / 2 == n / 2 + 1;
    }
  }

  /** The split-brain argument: a write quorum under the default tolerance is a
      strict majority, and so is any write quorum whose tolerance is at most half. */
  lemma WriteQuorumIsMajority(n: nat, tolerance: int)
    requires n >= 1
    requires tolerance == 0 || 0 < 2 * tolerance <= n
    ensures 2 * QuorumFor(n, tolerance, false).quorum > n
    ensures QuorumFor(n, tolerance, false).quorum <= n
  {
    DefaultQuorums(n);
  }

  /** For at least one server and a tolerance below n, a lock needs at least one
      grant and can get one: the quorum lies between 1 and n and the tolerance is
      not negative. */
  lemma QuorumInRange(n: nat, tolerance: int, isReadLock: bool)
    requires n >= 1 && 0 <= tolerance < n
    ensures 1 <= QuorumFor(n, tolerance, isReadLock).quorum <= n
    ensures QuorumFor(n, tolerance, isReadLock).tolerance >= 0
  {
    DefaultQuorums(n);
  }

  // ---------------------------------------------------------------------------
  // Grant tables

  /** The number of non-empty slots in a grant table. */
  function CountLocked(locks: seq<string>): (c: nat)
    ensures c <= |locks|
  {
    if |locks| == 0 then 0
    else CountLocked(locks[..|locks| - 1]) + (if IsLocked(locks[|locks| - 1]) then 1 else 0)
  }

  predicate AllEmpty(locks: seq<string>)
  {
    forall i :: 0 <= i < |locks| ==> locks[i] == ""
  }

  /** `make([]string, n)`. */
  function EmptyTable(n: nat): (t: seq<string>)
    ensures |t| == n && AllEmpty(t)
  {
    if n == 0 then [] else EmptyTable(n - 1) + [""]
  }

  lemma {:induction false} CountNone(locks: seq<string>)
    requires AllEmpty(locks)
    ensures CountLocked(locks) == 0
  {
    if |locks| > 0 {
      CountNone(locks[..|locks| - 1]);
    }
  }

  lemma {:induction false} CountAll(locks: seq<string>)
    requires forall i :: 0 <= i < |locks| ==> IsLocked(locks[i])
    ensures CountLocked(locks) == |locks|
  {
    if |locks| > 0 {
      CountAll(locks[..|locks| - 1]);
    }
  }

  lemma AllEmptyIsEmptyTable(locks: seq<string>)
    requires AllEmpty(locks)
    ensures locks == EmptyTable(|locks|)
  {
  }

  /** Filling an empty slot with a grant adds one to the count. */
  lemma {:induction false} CountFill(locks: seq<string>, j: nat, uid: string)
    requires j < |locks| && !IsLocked(locks[j]) && IsLocked(uid)
    ensures CountLocked(locks[j := uid]) == CountLocked(locks) + 1
  {
    var last := |locks| - 1;
    assert locks[j := uid][..last] == if j == last then locks[..last] else locks[..last][j := uid];
    if j < last {
      CountFill(locks[..last], j, uid);
    }
  }

  /** Two tables of the same length whose counts together exceed that length have a
      slot granted in both: two quorums of a strict majority always share a lock
      server, so two write locks cannot both be held. */
  lemma {:induction false} QuorumsIntersect(a: seq<string>, b: seq<string>)
    requires |a| == |b|
    requires CountLocked(a) + CountLocked(b) > |a|
    ensures exists i :: 0 <= i < |a| && IsLocked(a[i]) && IsLocked(b[i])
  {
    var last := |a| - 1;
    if IsLocked(a[last]) && IsLocked(b[last]) {
    } else {
      QuorumsIntersect(a[..last], b[..last]);
      var i :| 0 <= i < last && IsLocked(a[..last][i]) && IsLocked(b[..last][i]);
      assert IsLocked(a[i]) && IsLocked(b[i]);
    }
  }

  /** Two write locks granted under the default tolerance by the same n servers
      overlap in at least one server. */
  lemma WriteLocksOverlap(a: seq<string>, b: seq<string>)
    requires |a| == |b| >= 1
    requires CountLocked(a) >= QuorumFor(|a|, 0, false).quorum
    requires CountLocked(b) >= QuorumFor(|a|, 0, false).quorum
    ensures exists i :: 0 <= i < |a| && IsLocked(a[i]) && IsLocked(b[i])
  {
    WriteQuorumIsMajority(|a|, 0);
    QuorumsIntersect(a, b);
  }

  // ---------------------------------------------------------------------------
  // Releases

  /** The releases that `releaseAll` and `unlock` send for a table: one per
      non-empty slot, in slot order, each with that slot's own uid. */
  function ReleasesOf(locks: seq<string>, isRead: bool): seq<Release>
  {
    if |locks| == 0 then []
    else
      var last := |locks| - 1;
      ReleasesOf(locks[..last], isRead)
        + (if IsLocked(locks[last]) then [Release(last, locks[last], isRead)] else [])
  }

  /** A release is sent for a slot iff the slot is granted, and it carries the slot's uid. */
  lemma {:induction false} ReleasesOfExactly(locks: seq<string>, isRead: bool, r: Release)
    ensures r in ReleasesOf(locks, isRead) <==>
      r.index < |locks| && IsLocked(locks[r.index]) && r.uid == locks[r.index] && r.isRead == isRead
  {
    if |locks| > 0 {
      var last := |locks| - 1;
      ReleasesOfExactly(locks[..last], isRead, r);
    }
  }

  /** One release per granted slot, and the slots come in strictly increasing order,
      so no server is released twice. */
  lemma {:induction false} ReleasesOfOncePerSlot(locks: seq<string>, isRead: bool)
    ensures |ReleasesOf(locks, isRead)| == CountLocked(locks)
    ensures forall a, b :: 0 <= a < b < |ReleasesOf(locks, isRead)| ==>
      ReleasesOf(locks, isRead)[a].index < ReleasesOf(locks, isRead)[b].index
  {
    if |locks| > 0 {
      var last := |locks| - 1;
      ReleasesOfOncePerSlot(locks[..last], isRead);
      forall r | r in ReleasesOf(locks[..last], isRead)
        ensures r.index < last
      {
        ReleasesOfExactly(locks[..last], isRead, r);
      }
    }
  }

  lemma {:induction false} ReleasesOfEmpty(locks: seq<string>, isRead: bool)
    requires AllEmpty(locks)
    ensures ReleasesOf(locks, isRead) == []
  {
    if |locks| > 0 {
      ReleasesOfEmpty(locks[..|locks| - 1], isRead);
    }
  }

  /** The releases for the grants among late answers, in arrival order. */
  function Drain(gs: seq<Granted>, isRead: bool): seq<Release>
  {
    if |gs| == 0 then []
    else
      var g := gs[|gs| - 1];
      Drain(gs[..|gs| - 1], isRead)
        + (if IsLocked(g.lockUID) then [Release(g.index, g.lockUID, isRead)] else [])
  }

  /** A late answer is released iff it is a grant. */
  lemma {:induction false} DrainExactly(gs: seq<Granted>, isRead: bool, r: Release)
    ensures r in Drain(gs, isRead) <==>
      r.isRead == isRead && IsLocked(r.uid) && Granted(r.index, r.uid) in gs
  {
    if |gs| > 0 {
      DrainExactly(gs[..|gs| - 1], isRead, r);
      assert gs == gs[..|gs| - 1] + [gs[|gs| - 1]];
    }
  }

  // ---------------------------------------------------------------------------
  // The answers of one round

  /** Every answer names one of the n servers. */
  predicate IndicesIn(arrivals: seq<Granted>, n: nat)
  {
    forall k :: 0 <= k < |arrivals| ==> arrivals[k].index < n
  }

  /** Each server answers once: the fan-out sends one request per server and each
      goroutine puts exactly one `Granted` for its own index on the channel. */
  predicate OnePerServer(arrivals: seq<Granted>)
  {
    forall a, b :: 0 <= a < b < |arrivals| ==> arrivals[a].index != arrivals[b].index
  }

  /** The table after the first k answers were taken: each grant written into its
      server's slot, refusals ignored. */
  function Fill(init: seq<string>, arrivals: seq<Granted>, k: nat): (t: seq<string>)
    requires k <= |arrivals| && IndicesIn(arrivals, |init|)
    ensures |t| == |init|
  {
    if k == 0 then init
    else
      var t := Fill(init, arrivals, k - 1);
      var g := arrivals[k - 1];
      if IsLocked(g.lockUID) then t[g.index := g.lockUID] else t
  }

  /** The number of refusals among the first k answers. */
  function Failed(arrivals: seq<Granted>, k: nat): (f: nat)
    requires k <= |arrivals|
    ensures f <= k
  {
    if k == 0 then 0
    else Failed(arrivals, k - 1) + (if IsLocked(arrivals[k - 1].lockUID) then 0 else 1)
  }

  /** Starting from an empty table, the k first answers of distinct servers leave
      exactly their grants in the table. */
  lemma {:induction false} FillCount(n: nat, arrivals: seq<Granted>, k: nat)
    requires k <= |arrivals| && IndicesIn(arrivals, n) && OnePerServer(arrivals)
    ensures CountLocked(Fill(EmptyTable(n), arrivals, k)) + Failed(arrivals, k) == k
    ensures forall i :: 0 <= i < n && (forall j :: 0 <= j < k ==> arrivals[j].index != i) ==>
      Fill(EmptyTable(n), arrivals, k)[i] == ""
  {
    if k > 0 {
      FillCount(n, arrivals, k - 1);
      var g := arrivals[k - 1];
      var t := Fill(EmptyTable(n), arrivals, k - 1);
      assert forall j :: 0 <= j < k - 1 ==> arrivals[j].index != g.index;
      assert t[g.index] == "";
      if IsLocked(g.lockUID) {
        CountFill(t, g.index, g.lockUID);
        assert Fill(EmptyTable(n), arrivals, k) == t[g.index := g.lockUID];
      } else {
        assert Fill(EmptyTable(n), arrivals, k) == t;
      }
      forall i | 0 <= i < n && (forall j :: 0 <= j < k ==> arrivals[j].index != i)
        ensures Fill(EmptyTable(n), arrivals, k)[i] == ""
      {
        assert arrivals[k - 1].index != i;
      }
    } else {
      CountNone(EmptyTable(n));
    }
  }

  /** A grant among the first k answers sits in its server's slot. */
  lemma {:induction false} FillHolds(init: seq<string>, arrivals: seq<Granted>, k: nat, j: nat)
    requires k <= |arrivals| && IndicesIn(arrivals, |init|) && OnePerServer(arrivals)
    requires j < k && IsLocked(arrivals[j].lockUID)
    ensures Fill(init, arrivals, k)[arrivals[j].index] == arrivals[j].lockUID
  {
    if j < k - 1 {
      FillHolds(init, arrivals, k - 1, j);
    }
  }

  /** A server that has not answered among the first k keeps its initial slot. */
  lemma {:induction false} FillKeeps(init: seq<string>, arrivals: seq<Granted>, k: nat, i: nat)
    requires k <= |arrivals| && IndicesIn(arrivals, |init|) && i < |init|
    requires forall j :: 0 <= j < k ==> arrivals[j].index != i
    ensures Fill(init, arrivals, k)[i] == init[i]
  {
    if k > 0 {
      FillKeeps(init, arrivals, k - 1, i);
    }
  }

  /** A granted slot of a table filled from empty came from one of the first k answers. */
  lemma {:induction false} FillFrom(n: nat, arrivals: seq<Granted>, k: nat, i: nat)
    requires k <= |arrivals| && IndicesIn(arrivals, n) && i < n
    requires IsLocked(Fill(EmptyTable(n), arrivals, k)[i])
    ensures exists j :: 0 <= j < k && arrivals[j] == Granted(i, Fill(EmptyTable(n), arrivals, k)[i])
  {
    var g := arrivals[k - 1];
    if IsLocked(g.lockUID) && g.index == i {
      assert arrivals[k - 1] == Granted(i, Fill(EmptyTable(n), arrivals, k)[i]);
    } else {
      FillFrom(n, arrivals, k - 1, i);
    }
  }

  /** If every server answered and no more than n - quorum refused, the quorum is met:
      with the tolerance `lock` computes, collecting all answers implies success. */
  lemma AllAnswersMeetQuorum(n: nat, arrivals: seq<Granted>, rule: QuorumRule)
    requires |arrivals| == n && IndicesIn(arrivals, n) && OnePerServer(arrivals)
    requires rule.tolerance == n - rule.quorum && Failed(arrivals, n) <= rule.tolerance
    ensures CountLocked(Fill(EmptyTable(n), arrivals, n)) >= rule.quorum
  {
    FillCount(n, arrivals, n);
  }

  // ---------------------------------------------------------------------------
  // The loops over the grant table

  /** `checkQuorumMet`: counts the non-empty slots. */
  method CheckQuorumMet(locks: array<string>, quorum: int) returns (met: bool)
    ensures met <==> CountLocked(locks[..]) >= quorum
  {
    var count := 0;
    var i := 0;
    while i < locks.Length
      invariant 0 <= i <= locks.Length
      invariant count == CountLocked(locks[..i])
    {
      assert locks[..i + 1][..i] == locks[..i];
      if IsLocked(locks[i]) {
        count := count + 1;
      }
      i := i + 1;
    }
    assert locks[..i] == locks[..];
    met := count >= quorum;
  }

  /** `releaseAll`: one release per granted slot, and each released slot is cleared. */
  method ReleaseAll(locks: array<string>, isRead: bool) returns (sent: seq<Release>)
    modifies locks
    ensures sent == ReleasesOf(old(locks[..]), isRead)
    ensures locks[..] == EmptyTable(locks.Length)
  {
    ghost var before := locks[..];
    sent := [];
    var i := 0;
    while i < locks.Length
      invariant 0 <= i <= locks.Length
      invariant sent == ReleasesOf(before[..i], isRead)
      invariant forall j :: 0 <= j < i ==> locks[j] == ""
      invariant forall j :: i <= j < locks.Length ==> locks[j] == before[j]
    {
      assert before[..i + 1][..i] == before[..i];
      if IsLocked(locks[i]) {
        sent := sent + [Release(i, locks[i], isRead)];
        locks[i] := "";
      }
      i := i + 1;
    }
    assert before[..i] == before;
    assert AllEmpty(locks[..]);
    AllEmptyIsEmptyTable(locks[..]);
  }

  /** `cleanLocks`, run before every attempt. */
  method CleanLocks(locks: array<string>)
    modifies locks
    ensures locks[..] == EmptyTable(locks.Length)
  {
    var i := 0;
    while i < locks.Length
      invariant 0 <= i <= locks.Length
      invariant AllEmpty(locks[..i])
    {
      locks[i] := "";
      i := i + 1;
    }
    AllEmptyIsEmptyTable(locks[..]);
  }

  /** `unlock`: a release for every granted slot of a copied table. */
  method SendReleases(locks: seq<string>, isRead: bool) returns (sent: seq<Release>)
    ensures sent == ReleasesOf(locks, isRead)
  {
    sent := [];
    var index := 0;
    while index < |locks|
      invariant 0 <= index <= |locks|
      invariant sent == ReleasesOf(locks[..index], isRead)
    {
      assert locks[..index + 1][..index] == locks[..index];
      if IsLocked(locks[index]) {
        sent := sent + [Release(index, locks[index], isRead)];
      }
      index := index + 1;
    }
    assert locks[..index] == locks;
  }

  /** The search of `Unlock` for a slot that holds a grant. */
  method AnyLocked(locks: seq<string>) returns (found: bool)
    ensures found <==> exists i :: 0 <= i < |locks| && IsLocked(locks[i])
    ensures found <==> CountLocked(locks) > 0
  {
    found := false;
    var i := 0;
    while i < |locks|
      invariant 0 <= i <= |locks|
      invariant forall j :: 0 <= j < i ==> !IsLocked(locks[j])
    {
      if IsLocked(locks[i]) {
        found := true;
        CountSome(locks, i);
        return;
      }
      i := i + 1;
    }
    assert AllEmpty(locks);
    CountNone(locks);
  }

  lemma {:induction false} CountSome(locks: seq<string>, i: nat)
    requires i < |locks| && IsLocked(locks[i])
    ensures CountLocked(locks) > 0
  {
    var last := |locks| - 1;
    if i < last {
      CountSome(locks[..last], i);
    }
  }

  // ---------------------------------------------------------------------------
  // One round of `lock`

  /** Why the decision loop of `lock` stopped. */
  datatype Exit = AllAnswered | TooManyRefusals | TimedOut

  /** The loop of `lock` gives up only on a refusal that takes the count past the
      tolerance, so a count of 0 is tolerated even when the tolerance is negative. */
  predicate Tolerated(failed: nat, rule: QuorumRule) {
    failed == 0 || failed <= rule.tolerance
  }

  /** The state the decision loop of `lock` leaves behind, from table `init`: the
      answers taken, the table and the releases sent so far.
      - All answers taken: no more refusals than the tolerance, every grant in the
        table, nothing released.
      - A refusal too many: it was the last answer taken, every slot was released
        and the table is empty.
      - Timeout: the answers before it are in the table, which is released and
        cleared iff it does not hold the quorum. */
  ghost predicate Decided(init: seq<string>, arrivals: seq<Granted>, rule: QuorumRule, isRead: bool,
                          exit: Exit, taken: nat, table: seq<string>, released: seq<Release>)
    requires |arrivals| == |init| && IndicesIn(arrivals, |init|)
  {
    var n := |init|;
    taken <= n &&
    var t := Fill(init, arrivals, taken);
    match exit
    case AllAnswered =>
      taken == n && Tolerated(Failed(arrivals, n), rule) && table == t && released == []
    case TooManyRefusals =>
      0 < taken && Tolerated(Failed(arrivals, taken - 1), rule)
      && Failed(arrivals, taken) == Failed(arrivals, taken - 1) + 1 > rule.tolerance
      && table == EmptyTable(n) && released == ReleasesOf(t, isRead)
    case TimedOut =>
      taken < n && Tolerated(Failed(arrivals, taken), rule)
      && (if CountLocked(t) >= rule.quorum then table == t && released == []
          else table == EmptyTable(n) && released == ReleasesOf(t, isRead))
  }

  /** `lock`, for n = locks.Length servers whose answers arrive in the order given;
      the acquire timeout fires before answer `timeoutAt` is taken (never, when
      timeoutAt >= n). Returns whether the quorum was met and every release sent:
      those of the decision loop, then one for each grant that arrived after it
      stopped, which is never written into the table. */
  method LockRound(locks: array<string>, isReadLock: bool, tolerance: int,
              arrivals: seq<Granted>, timeoutAt: nat)
    returns (quorumMet: bool, sent: seq<Release>, ghost exit: Exit, ghost taken: nat, ghost released: seq<Release>)
    requires |arrivals| == locks.Length && IndicesIn(arrivals, locks.Length)
    modifies locks
    ensures Decided(old(locks[..]), arrivals, QuorumFor(locks.Length, tolerance, isReadLock), isReadLock,
                    exit, taken, locks[..], released)
    ensures taken <= timeoutAt && (exit == TimedOut ==> taken == timeoutAt)
    ensures sent == released + Drain(arrivals[taken..], isReadLock)
    ensures quorumMet <==> CountLocked(locks[..]) >= QuorumFor(locks.Length, tolerance, isReadLock).quorum
  {
    var rule := QuorumFor(locks.Length, tolerance, isReadLock);
    var i, decided;
    i, decided, exit := Decide(locks, isReadLock, rule, arrivals, timeoutAt);
    taken, released := i, decided;
    quorumMet := CheckQuorumMet(locks, rule.quorum);
    var late := DrainLate(arrivals, i, isReadLock);
    sent := decided + late;
  }

  /** The decision loop of `lock`: take answers until all are in, the refusals
      exceed the tolerance, or the timeout fires. */
  method Decide(locks: array<string>, isReadLock: bool, rule: QuorumRule,
                arrivals: seq<Granted>, timeoutAt: nat)
    returns (i: nat, sent: seq<Release>, ghost exit: Exit)
    requires |arrivals| == locks.Length && IndicesIn(arrivals, locks.Length)
    modifies locks
    ensures Decided(old(locks[..]), arrivals, rule, isReadLock, exit, i, locks[..], sent)
    ensures i <= timeoutAt && (exit == TimedOut ==> i == timeoutAt)
  {
    var n := locks.Length;
    var quorum, tolerance := rule.quorum, rule.tolerance;
    ghost var init := locks[..];
    var locksFailed := 0;
    i := 0;
    sent := [];
    exit := AllAnswered;
    while i < n
      invariant 0 <= i <= n && i <= timeoutAt
      invariant locksFailed == Failed(arrivals, i) && Tolerated(locksFailed, rule)
      invariant locks[..] == Fill(init, arrivals, i)
      invariant sent == []
    {
      if i == timeoutAt {
        exit := TimedOut;
        var met := CheckQuorumMet(locks, quorum);
        if !met {
          sent := ReleaseAll(locks, isReadLock);
        }
        return;
      }
      var grant := arrivals[i];
      if IsLocked(grant.lockUID) {
        locks[grant.index] := grant.lockUID;
      } else {
        locksFailed := locksFailed + 1;
        if locksFailed > tolerance {
          exit := TooManyRefusals;
          i := i + 1;
          sent := ReleaseAll(locks, isReadLock);
          return;
        }
      }
      i := i + 1;
    }
  }

  /** The loop after the decision: every later grant is released at once. */
  method DrainLate(arrivals: seq<Granted>, from: nat, isReadLock: bool) returns (sent: seq<Release>)
    requires from <= |arrivals|
    ensures sent == Drain(arrivals[from..], isReadLock)
  {
    sent := [];
    var i := from;
    while i < |arrivals|
      invariant from <= i <= |arrivals|
      invariant sent == Drain(arrivals[from..i], isReadLock)
    {
      assert arrivals[from..i + 1][..i - from] == arrivals[from..i];
      var grantToBeReleased := arrivals[i];
      if IsLocked(grantToBeReleased.lockUID) {
        sent := sent + [Release(grantToBeReleased.index, grantToBeReleased.lockUID, isReadLock)];
      }
      i := i + 1;
    }
    assert arrivals[from..i] == arrivals[from..];
  }

  // ---------------------------------------------------------------------------
  // What one round of `lock` guarantees

  /** No grant is lost: after a round that started from a clean table, each
      grant some server gave is either still held in the table or released, and
      it is never both. */
  lemma {:induction false} GrantAccounted(n: nat, arrivals: seq<Granted>, rule: QuorumRule, isRead: bool,
                                          exit: Exit, taken: nat, table: seq<string>, released: seq<Release>, j: nat)
    requires |arrivals| == n && IndicesIn(arrivals, n) && OnePerServer(arrivals)
    requires Decided(EmptyTable(n), arrivals, rule, isRead, exit, taken, table, released)
    requires j < n && IsLocked(arrivals[j].lockUID)
    ensures (table[arrivals[j].index] == arrivals[j].lockUID)
      != (Release(arrivals[j].index, arrivals[j].lockUID, isRead) in released + Drain(arrivals[taken..], isRead))
  {
    var g := arrivals[j];
    var t := Fill(EmptyTable(n), arrivals, taken);
    var r := Release(g.index, g.lockUID, isRead);
    var late := arrivals[taken..];
    DrainExactly(late, isRead, r);
    ReleasesOfExactly(t, isRead, r);
    if j < taken {
      FillHolds(EmptyTable(n), arrivals, taken, j);
      assert g !in late by {
        forall k | 0 <= k < |late|
          ensures late[k] != g
        {
          assert late[k] == arrivals[taken + k];
          assert arrivals[taken + k].index != arrivals[j].index;
        }
      }
    } else {
      FillKeeps(EmptyTable(n), arrivals, taken, g.index);
      assert late[j - taken] == g;
    }
  }

  /** Every release a round sends is for a grant some server gave in it. */
  lemma {:induction false} ReleaseHasGrant(n: nat, arrivals: seq<Granted>, rule: QuorumRule, isRead: bool,
                                           exit: Exit, taken: nat, table: seq<string>, released: seq<Release>, r: Release)
    requires |arrivals| == n && IndicesIn(arrivals, n)
    requires Decided(EmptyTable(n), arrivals, rule, isRead, exit, taken, table, released)
    requires r in released + Drain(arrivals[taken..], isRead)
    ensures r.isRead == isRead && IsLocked(r.uid) && Granted(r.index, r.uid) in arrivals
  {
    var t := Fill(EmptyTable(n), arrivals, taken);
    var late := arrivals[taken..];
    if r in released {
      ReleasesOfExactly(t, isRead, r);
      FillFrom(n, arrivals, taken, r.index);
    } else {
      DrainExactly(late, isRead, r);
      var k :| 0 <= k < |late| && late[k] == Granted(r.index, r.uid);
      assert arrivals[taken + k] == late[k];
    }
  }

  /** How a round ends, against the quorum it needs: with every answer in and a
      tolerance that is not negative, the quorum is met; a round given up on refusals holds nothing, and rightly so,
      since even if every remaining server had granted, the grants could no longer
      reach the quorum. */
  lemma {:induction false} RoundOutcome(n: nat, arrivals: seq<Granted>, rule: QuorumRule, isRead: bool,
                                        exit: Exit, taken: nat, table: seq<string>, released: seq<Release>)
    requires |arrivals| == n && IndicesIn(arrivals, n) && OnePerServer(arrivals)
    requires rule.tolerance == n - rule.quorum
    requires Decided(EmptyTable(n), arrivals, rule, isRead, exit, taken, table, released)
    ensures exit == AllAnswered && rule.tolerance >= 0 ==> CountLocked(table) >= rule.quorum
    ensures exit == TooManyRefusals ==> CountLocked(table) == 0 && n - Failed(arrivals, taken) < rule.quorum
    ensures exit == TimedOut ==> (CountLocked(table) >= rule.quorum || table == EmptyTable(n))
  {
    match exit
    case AllAnswered =>
      FillCount(n, arrivals, n);
    case TooManyRefusals =>
      CountNone(EmptyTable(n));
    case TimedOut =>
  }

  /** Refusals only accumulate: fewer answers taken, no more refusals. */
  lemma {:induction false} FailedMonotone(arrivals: seq<Granted>, j: nat, k: nat)
    requires j <= k <= |arrivals|
    ensures Failed(arrivals, j) <= Failed(arrivals, k)
  {
    if j < k {
      FailedMonotone(arrivals, j, k - 1);
    }
  }

  /** A refusal too many stops the loop first: any other decided state of the same
      round that stops no later than the timeout, and exactly at it on a timeout,
      gave up on the same refusal. */
  lemma {:induction false} RefusalsStopFirst(init: seq<string>, arrivals: seq<Granted>, rule: QuorumRule,
                                             isRead: bool, timeoutAt: nat,
                                             t1: nat, tb1: seq<string>, r1: seq<Release>,
                                             e2: Exit, t2: nat, tb2: seq<string>, r2: seq<Release>)
    requires |arrivals| == |init| && IndicesIn(arrivals, |init|)
    requires Decided(init, arrivals, rule, isRead, TooManyRefusals, t1, tb1, r1) && t1 <= timeoutAt
    requires Decided(init, arrivals, rule, isRead, e2, t2, tb2, r2)
    requires t2 <= timeoutAt && (e2 == TimedOut ==> t2 == timeoutAt)
    ensures e2 == TooManyRefusals && t2 == t1
  {
    if e2 == TooManyRefusals {
      if t1 < t2 {
        FailedMonotone(arrivals, t1, t2 - 1);
      } else if t2 < t1 {
        FailedMonotone(arrivals, t2, t1 - 1);
      }
    } else {
      FailedMonotone(arrivals, t1, t2);
    }
  }

  /** The round is settled by its answers and its timeout: two decided states of
      one round that each stop no later than answer `timeoutAt`, and exactly there
      when the timeout fired, agree on the exit, the answers taken, the table and
      the releases. So `LockRound`'s contract leaves it a single outcome. */
  lemma {:induction false} DecidedDeterministic(init: seq<string>, arrivals: seq<Granted>, rule: QuorumRule,
                                                isRead: bool, timeoutAt: nat,
                                                e1: Exit, t1: nat, tb1: seq<string>, r1: seq<Release>,
                                                e2: Exit, t2: nat, tb2: seq<string>, r2: seq<Release>)
    requires |arrivals| == |init| && IndicesIn(arrivals, |init|)
    requires Decided(init, arrivals, rule, isRead, e1, t1, tb1, r1)
    requires t1 <= timeoutAt && (e1 == TimedOut ==> t1 == timeoutAt)
    requires Decided(init, arrivals, rule, isRead, e2, t2, tb2, r2)
    requires t2 <= timeoutAt && (e2 == TimedOut ==> t2 == timeoutAt)
    ensures e1 == e2 && t1 == t2 && tb1 == tb2 && r1 == r2
  {
    if e1 == TooManyRefusals {
      RefusalsStopFirst(init, arrivals, rule, isRead, timeoutAt, t1, tb1, r1, e2, t2, tb2, r2);
    } else if e2 == TooManyRefusals {
      RefusalsStopFirst(init, arrivals, rule, isRead, timeoutAt, t2, tb2, r2, e1, t1, tb1, r1);
    }
  }

  /** A timeout that fires before as many answers as the quorum were taken fails
      the round, whatever the servers answered: three servers that all grant a
      write lock (quorum 2) with the timeout before the second answer end with
      checkQuorumMet false. */
  lemma {:induction false} EarlyTimeoutFails(n: nat, arrivals: seq<Granted>, rule: QuorumRule, isRead: bool,
                                             timeoutAt: nat, exit: Exit, taken: nat,
                                             table: seq<string>, released: seq<Release>)
    requires |arrivals| == n && IndicesIn(arrivals, n) && OnePerServer(arrivals)
    requires Decided(EmptyTable(n), arrivals, rule, isRead, exit, taken, table, released)
    requires taken <= timeoutAt < rule.quorum
    ensures CountLocked(table) < rule.quorum
  {
    FillCount(n, arrivals, taken);
    CountNone(EmptyTable(n));
  }

  // ---------------------------------------------------------------------------
  // The mutex

  /** One attempt of `lockBlocking`: the order in which the servers answer and the
      answer before which the acquire timeout fires. */
  datatype Round = Round(arrivals: seq<Granted>, timeoutAt: nat)

  /** One attempt of `lockBlocking`, as its round of `lock` left it: why the
      decision loop stopped, the answers it took, the table, the releases of the
      decision loop, and every release the attempt sent. */
  datatype Attempt = Attempt(exit: Exit, taken: nat, table: seq<string>, released: seq<Release>, sent: seq<Release>)

  /** `a` is a run of `lock` on round `r` from a cleaned table of n slots: it
      reached a decided state no later than the round's timeout, and exactly at
      it when the timeout fired, then released every grant that came late. */
  ghost predicate AttemptOf(n: nat, r: Round, rule: QuorumRule, isRead: bool, a: Attempt)
    requires |r.arrivals| == n && IndicesIn(r.arrivals, n)
  {
    a.taken <= n
    && a.taken <= r.timeoutAt && (a.exit == TimedOut ==> a.taken == r.timeoutAt)
    && Decided(EmptyTable(n), r.arrivals, rule, isRead, a.exit, a.taken, a.table, a.released)
    && a.sent == a.released + Drain(r.arrivals[a.taken..], isRead)
  }

  /** The releases of a sequence of attempts, attempt after attempt. */
  function AllSent(attempts: seq<Attempt>): seq<Release>
  {
    if |attempts| == 0 then []
    else AllSent(attempts[..|attempts| - 1]) + attempts[|attempts| - 1].sent
  }

  /** The rounds are well formed for n servers: n answers each, one per slot index. */
  predicate RoundsFor(rounds: seq<Round>, n: nat)
  {
    forall k :: 0 <= k < |rounds| ==> |rounds[k].arrivals| == n && IndicesIn(rounds[k].arrivals, n)
  }

  /** Attempt k is a run of `lock` on round k, for every attempt recorded. */
  ghost predicate AttemptsOf(n: nat, rounds: seq<Round>, rule: QuorumRule, isRead: bool, attempts: seq<Attempt>)
    requires RoundsFor(rounds, n) && |attempts| <= |rounds|
    decreases |attempts|
  {
    |attempts| == 0
    || (AttemptsOf(n, rounds, rule, isRead, attempts[..|attempts| - 1])
        && AttemptOf(n, rounds[|attempts| - 1], rule, isRead, attempts[|attempts| - 1]))
  }

  /** The record read pointwise: attempt k ran `lock` on round k. */
  lemma {:induction false} AttemptsOfAt(n: nat, rounds: seq<Round>, rule: QuorumRule, isRead: bool,
                                        attempts: seq<Attempt>, k: nat)
    requires RoundsFor(rounds, n) && |attempts| <= |rounds| && AttemptsOf(n, rounds, rule, isRead, attempts)
    requires k < |attempts|
    ensures AttemptOf(n, rounds[k], rule, isRead, attempts[k])
  {
    var m := |attempts| - 1;
    if k < m {
      AttemptsOfAt(n, rounds, rule, isRead, attempts[..m], k);
      assert attempts[..m][k] == attempts[k];
    }
  }

  /** `attempts` are the attempts of `lockBlocking` on the first rounds, each a
      run of `lock` from a cleaned table; an attempt meets the quorum iff it is the
      last one and the mutex was locked. */
  ghost predicate Retried(n: nat, rounds: seq<Round>, rule: QuorumRule, isRead: bool,
                          attempts: seq<Attempt>, locked: bool)
    requires RoundsFor(rounds, n)
  {
    |attempts| <= |rounds|
    && AttemptsOf(n, rounds, rule, isRead, attempts)
    && (forall k :: 0 <= k < |attempts| ==>
          (CountLocked(attempts[k].table) >= rule.quorum <==> locked && k == |attempts| - 1))
  }

  /** One more attempt after failed ones: the record grows by it, and so do the
      releases sent. */
  lemma RetriedStep(n: nat, rounds: seq<Round>, rule: QuorumRule, isRead: bool,
                    attempts: seq<Attempt>, a: Attempt, ok: bool)
    requires RoundsFor(rounds, n) && Retried(n, rounds, rule, isRead, attempts, false)
    requires |attempts| < |rounds| && AttemptOf(n, rounds[|attempts|], rule, isRead, a)
    requires ok <==> CountLocked(a.table) >= rule.quorum
    ensures Retried(n, rounds, rule, isRead, attempts + [a], ok)
    ensures AllSent(attempts + [a]) == AllSent(attempts) + a.sent
  {
    var next := attempts + [a];
    assert next[..|attempts|] == attempts;
    assert next[|attempts|] == a;
    forall k | 0 <= k < |next|
      ensures CountLocked(next[k].table) >= rule.quorum <==> ok && k == |next| - 1
    {
      if k < |attempts| {
        assert next[k] == attempts[k];
      }
    }
  }

  /** Every attempt of `lockBlocking` but the one that locked the mutex gave back
      all it was granted: its table is clean and each grant was released. */
  lemma RetriedReleasesFailures(n: nat, rounds: seq<Round>, rule: QuorumRule, isRead: bool,
                                attempts: seq<Attempt>, locked: bool, k: nat, j: nat)
    requires RoundsFor(rounds, n) && Retried(n, rounds, rule, isRead, attempts, locked)
    requires rule.tolerance == n - rule.quorum && rule.tolerance >= 0
    requires k < |attempts| && !(locked && k == |attempts| - 1)
    requires OnePerServer(rounds[k].arrivals)
    ensures attempts[k].table == EmptyTable(n)
    ensures j < n && IsLocked(rounds[k].arrivals[j].lockUID) ==>
      Release(rounds[k].arrivals[j].index, rounds[k].arrivals[j].lockUID, isRead) in attempts[k].sent
  {
    AttemptsOfAt(n, rounds, rule, isRead, attempts, k);
    FailedAttemptReleasesAll(n, rounds[k], rule, isRead, attempts[k], j);
  }

  /** One attempt of the retry loop of `lockBlocking`: `lock` on the next round,
      from the table `cleanLocks` has just cleared. */
  method RunAttempt(locks: array<string>, isReadLock: bool, tolerance: int, r: Round)
    returns (ok: bool, sent: seq<Release>, ghost a: Attempt)
    requires |r.arrivals| == locks.Length && IndicesIn(r.arrivals, locks.Length)
    requires locks[..] == EmptyTable(locks.Length)
    modifies locks
    ensures AttemptOf(locks.Length, r, QuorumFor(locks.Length, tolerance, isReadLock), isReadLock, a)
    ensures a.table == locks[..] && sent == a.sent
    ensures ok <==> CountLocked(a.table) >= QuorumFor(locks.Length, tolerance, isReadLock).quorum
  {
    ghost var exit, taken, released;
    ok, sent, exit, taken, released := LockRound(locks, isReadLock, tolerance, r.arrivals, r.timeoutAt);
    a := Attempt(exit, taken, locks[..], released, sent);
  }

  /** The next attempt of the retry loop of `lockBlocking`, after failed ones:
      `lock` on the next round from a cleaned table, added to the record. */
  method NextAttempt(locks: array<string>, isReadLock: bool, tolerance: int, rounds: seq<Round>,
                     k: nat, ghost attempts: seq<Attempt>)
    returns (ok: bool, sent: seq<Release>, ghost attempts': seq<Attempt>)
    requires RoundsFor(rounds, locks.Length) && k == |attempts| < |rounds|
    requires Retried(locks.Length, rounds, QuorumFor(locks.Length, tolerance, isReadLock), isReadLock, attempts, false)
    requires locks[..] == EmptyTable(locks.Length)
    modifies locks
    ensures Retried(locks.Length, rounds, QuorumFor(locks.Length, tolerance, isReadLock), isReadLock, attempts', ok)
    ensures |attempts'| == |attempts| + 1 && attempts'[|attempts|].table == locks[..]
    ensures AllSent(attempts') == AllSent(attempts) + sent
  {
    ghost var a;
    ok, sent, a := RunAttempt(locks, isReadLock, tolerance, rounds[k]);
    RetriedStep(locks.Length, rounds, QuorumFor(locks.Length, tolerance, isReadLock), isReadLock, attempts, a, ok);
    attempts' := attempts + [a];
  }

  /** An attempt that misses the quorum, under a tolerance that is not negative,
      holds nothing afterwards: its table is clean, and every grant a server gave
      in it was released. So a failed attempt of `lockBlocking` leaks no lock. */
  lemma FailedAttemptReleasesAll(n: nat, r: Round, rule: QuorumRule, isRead: bool, a: Attempt, j: nat)
    requires |r.arrivals| == n && IndicesIn(r.arrivals, n) && OnePerServer(r.arrivals)
    requires rule.tolerance == n - rule.quorum && rule.tolerance >= 0
    requires AttemptOf(n, r, rule, isRead, a) && CountLocked(a.table) < rule.quorum
    ensures a.table == EmptyTable(n)
    ensures j < n && IsLocked(r.arrivals[j].lockUID) ==>
      Release(r.arrivals[j].index, r.arrivals[j].lockUID, isRead) in a.sent
  {
    RoundOutcome(n, r.arrivals, rule, isRead, a.exit, a.taken, a.table, a.released);
    if j < n && IsLocked(r.arrivals[j].lockUID) {
      GrantAccounted(n, r.arrivals, rule, isRead, a.exit, a.taken, a.table, a.released, j);
      assert a.table[r.arrivals[j].index] == "";
    }
  }

  /** What `Unlock` and `RUnlock` do: panic when nothing is held, or send the
      releases of one table. */
  datatype UnlockResult = Misuse | Released(sent: seq<Release>)

  /** A distributed read-write mutex over n lock servers: the table of the write
      lock it holds and the queue of the tables of its read locks. */
  class DRWMutex {
    const names: seq<string>
    const n: nat
    var writeLocks: seq<string>
    var readersLocks: seq<seq<string>>

    ghost predicate Valid()
      reads this
    {
      |writeLocks| == n && forall k :: 0 <= k < |readersLocks| ==> |readersLocks[k]| == n
    }

    /** `NewDRWMutex`: no lock held. */
    constructor (n: nat, names: seq<string>)
      ensures Valid()
      ensures this.n == n && this.names == names
      ensures writeLocks == EmptyTable(n) && readersLocks == []
    {
      this.n := n;
      this.names := names;
      writeLocks := EmptyTable(n);
      readersLocks := [];
    }

    /** `lockBlocking`: attempts one round after another, each on a cleaned table,
        until one meets the quorum; running out of rounds stands for the retry
        context expiring. On success the table is committed: it becomes the write
        table, or is appended to the queue of read tables. `attempts` records every
        attempt made, and `sent` holds the releases of all of them in order. */
    method LockBlocking(isReadLock: bool, tolerance: int, rounds: seq<Round>)
      returns (locked: bool, sent: seq<Release>, ghost attempts: seq<Attempt>)
      requires Valid() && RoundsFor(rounds, n)
      modifies this
      ensures Valid()
      ensures Retried(n, rounds, QuorumFor(n, tolerance, isReadLock), isReadLock, attempts, locked)
      ensures sent == AllSent(attempts)
      ensures !locked ==> |attempts| == |rounds|
      ensures !locked ==> writeLocks == old(writeLocks) && readersLocks == old(readersLocks)
      ensures locked ==> 0 < |attempts|
      ensures locked && isReadLock ==> writeLocks == old(writeLocks)
      ensures locked && isReadLock ==> readersLocks == old(readersLocks) + [attempts[|attempts| - 1].table]
      ensures locked && !isReadLock ==> readersLocks == old(readersLocks)
      ensures locked && !isReadLock ==> writeLocks == attempts[|attempts| - 1].table
    {
      ghost var rule := QuorumFor(n, tolerance, isReadLock);
      var locks := new string[n](_ => "");
      sent := [];
      locked := false;
      attempts := [];
      var k := 0;
      while true
        invariant k <= |rounds| && |attempts| == k && locks.Length == n
        invariant writeLocks == old(writeLocks) && readersLocks == old(readersLocks)
        invariant Retried(n, rounds, rule, isReadLock, attempts, false)
        invariant sent == AllSent(attempts)
        decreases |rounds| - k
      {
        CleanLocks(locks);
        if k == |rounds| {
          return;
        }
        var ok, s;
        ok, s, attempts := NextAttempt(locks, isReadLock, tolerance, rounds, k, attempts);
        sent := sent + s;
        if ok {
          locked := true;
          Commit(locks[..], isReadLock);
          return;
        }
        k := k + 1;
      }
    }

    /** The commit of a successful round: the table becomes the write table, or
        joins the tail of the queue of read tables. */
    method Commit(table: seq<string>, isReadLock: bool)
      requires Valid() && |table| == n
      modifies this
      ensures Valid()
      ensures isReadLock ==> writeLocks == old(writeLocks) && readersLocks == old(readersLocks) + [table]
      ensures !isReadLock ==> writeLocks == table && readersLocks == old(readersLocks)
    {
      if isReadLock {
        readersLocks := readersLocks + [table];
      } else {
        writeLocks := table;
      }
    }

    /** `Unlock`: panics unless some slot of the write table is granted; otherwise
        clears the table and releases every granted slot of the old one. */
    method Unlock() returns (r: UnlockResult)
      requires Valid()
      modifies this
      ensures Valid() && readersLocks == old(readersLocks)
      ensures CountLocked(old(writeLocks)) == 0 ==> r == Misuse && writeLocks == old(writeLocks)
      ensures CountLocked(old(writeLocks)) > 0 ==>
        r == Released(ReleasesOf(old(writeLocks), false)) && writeLocks == EmptyTable(n)
    {
      var lockFound := AnyLocked(writeLocks);
      if !lockFound {
        return Misuse;
      }
      var locks := writeLocks;
      writeLocks := EmptyTable(n);
      var sent := SendReleases(locks, false);
      r := Released(sent);
    }

    /** `RUnlock`: panics on an empty queue; otherwise takes the oldest read table
        off the queue (first in, first out) and releases its granted slots. */
    method RUnlock() returns (r: UnlockResult)
      requires Valid()
      modifies this
      ensures Valid() && writeLocks == old(writeLocks)
      ensures old(readersLocks) == [] ==> r == Misuse && readersLocks == []
      ensures old(readersLocks) != [] ==>
        r == Released(ReleasesOf(old(readersLocks)[0], true)) && readersLocks == old(readersLocks)[1..]
    {
      if |readersLocks| == 0 {
        return Misuse;
      }
      var locks := readersLocks[0];
      readersLocks := readersLocks[1..];
      var sent := SendReleases(locks, true);
      r := Released(sent);
    }
  }
}
