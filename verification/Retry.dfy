/** The bounded deadlock retry around the MySQL backend's own transaction. */
module Retry {
  import opened Common
  import opened Records
  import opened SqlStore

  const LAST_ATTEMPT := 4

  /** What becomes of one attempt: it runs and commits, it is a deadlock victim, or it fails otherwise. */
  datatype Fate = Runs | Deadlocks | Breaks

  /** A deadlock is told apart from other errors by its number. */
  function FateOf<T>(r: Result<T>): Fate {
    match r
    case Ok(_) => Runs
    case Err(Deadlocked) => Deadlocks
    case Err(_) => Breaks
  }

  /** How the loop ends: at which attempt, and why. */
  datatype Verdict =
    | RanAt(attempt: nat)
    | BrokeAt(attempt: nat)
    | GaveUp
    | CancelledBefore(attempt: nat)
    | CancelledWaiting(attempt: nat)

  /** before and during say at which attempts the context is already done, or is done while waiting to retry. */
  function Decide(fate: nat -> Fate, before: nat -> bool, during: nat -> bool, attempt: nat): Verdict
    requires attempt <= LAST_ATTEMPT
    decreases LAST_ATTEMPT - attempt
  {
    if before(attempt) then CancelledBefore(attempt)
    else match fate(attempt)
      case Runs => RanAt(attempt)
      case Breaks => BrokeAt(attempt)
      case Deadlocks =>
        if attempt == LAST_ATTEMPT then GaveUp
        else if during(attempt) then CancelledWaiting(attempt)
        else Decide(fate, before, during, attempt + 1)
  }

  /** All attempts before k are deadlock victims that nobody cancels. */
  predicate OnlyDeadlocksBefore(fate: nat -> Fate, before: nat -> bool, during: nat -> bool, first: nat, k: nat) {
    forall j | first <= j < k :: !before(j) && fate(j) == Deadlocks && !during(j)
  }

  /**
   * The body takes effect at attempt k exactly when it is among the first five, nothing but deadlocks
   * precede it, and the database lets it run.
   */
  lemma {:induction false} RunsExactly(fate: nat -> Fate, before: nat -> bool, during: nat -> bool, attempt: nat,
                                       k: nat)
    requires attempt <= LAST_ATTEMPT && attempt <= k
    ensures Decide(fate, before, during, attempt) == RanAt(k) <==>
            k <= 4 && OnlyDeadlocksBefore(fate, before, during, attempt, k) && !before(k) && fate(k) == Runs
    decreases LAST_ATTEMPT - attempt
  {
    if attempt < k {
      if !before(attempt) && fate(attempt) == Deadlocks && attempt < LAST_ATTEMPT && !during(attempt) {
        RunsExactly(fate, before, during, attempt + 1, k);
        assert OnlyDeadlocksBefore(fate, before, during, attempt, k) <==>
               OnlyDeadlocksBefore(fate, before, during, attempt + 1, k);
      }
    } else if attempt < LAST_ATTEMPT {
      DecideLater(fate, before, during, attempt + 1);
    }
  }

  lemma {:induction false} DecideLater(fate: nat -> Fate, before: nat -> bool, during: nat -> bool, attempt: nat)
    requires attempt <= LAST_ATTEMPT
    ensures var v := Decide(fate, before, during, attempt);
            !v.GaveUp? ==> attempt <= v.attempt <= LAST_ATTEMPT
    decreases LAST_ATTEMPT - attempt
  {
    if !before(attempt) && fate(attempt) == Deadlocks && attempt < LAST_ATTEMPT && !during(attempt) {
      DecideLater(fate, before, during, attempt + 1);
    }
  }

  /**
   * The loop reports a deadlock exactly when every attempt it has is a victim and nothing cancels
   * it before the last.
   */
  lemma {:induction false} GivesUpExactly(fate: nat -> Fate, before: nat -> bool, during: nat -> bool, attempt: nat)
    requires attempt <= LAST_ATTEMPT
    ensures Decide(fate, before, during, attempt) == GaveUp <==>
            OnlyDeadlocksBefore(fate, before, during, attempt, LAST_ATTEMPT) && !before(LAST_ATTEMPT) &&
              fate(LAST_ATTEMPT) == Deadlocks
    decreases LAST_ATTEMPT - attempt
  {
    if attempt < LAST_ATTEMPT {
      GivesUpExactly(fate, before, during, attempt + 1);
      assert OnlyDeadlocksBefore(fate, before, during, attempt, LAST_ATTEMPT) <==>
             !before(attempt) && fate(attempt) == Deadlocks && !during(attempt) &&
             OnlyDeadlocksBefore(fate, before, during, attempt + 1, LAST_ATTEMPT);
    }
  }

  /**
   * The loop returns another error than a deadlock at attempt k, and at once, exactly when nothing but
   * deadlocks precede it and attempt k ends with one.
   */
  lemma {:induction false} BreaksExactly(fate: nat -> Fate, before: nat -> bool, during: nat -> bool, attempt: nat,
                                         k: nat)
    requires attempt <= LAST_ATTEMPT && attempt <= k
    ensures Decide(fate, before, during, attempt) == BrokeAt(k) <==>
            k <= 4 && OnlyDeadlocksBefore(fate, before, during, attempt, k) && !before(k) && fate(k) == Breaks
    decreases LAST_ATTEMPT - attempt
  {
    if attempt < k {
      if !before(attempt) && fate(attempt) == Deadlocks && attempt < LAST_ATTEMPT && !during(attempt) {
        BreaksExactly(fate, before, during, attempt + 1, k);
        OneMore(fate, before, during, attempt, k);
      }
    } else if attempt < LAST_ATTEMPT {
      DecideLater(fate, before, during, attempt + 1);
    }
  }

  /** It is cancelled before attempt k exactly when the context is done by then and only deadlocks precede it. */
  lemma {:induction false} CancelsBeforeExactly(fate: nat -> Fate, before: nat -> bool, during: nat -> bool,
                                                attempt: nat, k: nat)
    requires attempt <= LAST_ATTEMPT && attempt <= k
    ensures Decide(fate, before, during, attempt) == CancelledBefore(k) <==>
            k <= 4 && OnlyDeadlocksBefore(fate, before, during, attempt, k) && before(k)
    decreases LAST_ATTEMPT - attempt
  {
    if attempt < k {
      if !before(attempt) && fate(attempt) == Deadlocks && attempt < LAST_ATTEMPT && !during(attempt) {
        CancelsBeforeExactly(fate, before, during, attempt + 1, k);
        OneMore(fate, before, during, attempt, k);
      }
    } else if attempt < LAST_ATTEMPT {
      DecideLater(fate, before, during, attempt + 1);
    }
  }

  /** It is cancelled while waiting after attempt k exactly when that one is a deadlock victim, but not the last. */
  lemma {:induction false} CancelsWaitingExactly(fate: nat -> Fate, before: nat -> bool, during: nat -> bool,
                                                 attempt: nat, k: nat)
    requires attempt <= LAST_ATTEMPT && attempt <= k
    ensures Decide(fate, before, during, attempt) == CancelledWaiting(k) <==>
            k < 4 && OnlyDeadlocksBefore(fate, before, during, attempt, k) &&
            !before(k) && fate(k) == Deadlocks && during(k)
    decreases LAST_ATTEMPT - attempt
  {
    if attempt < k {
      if !before(attempt) && fate(attempt) == Deadlocks && attempt < LAST_ATTEMPT && !during(attempt) {
        CancelsWaitingExactly(fate, before, during, attempt + 1, k);
        OneMore(fate, before, during, attempt, k);
      }
    } else if attempt < LAST_ATTEMPT {
      DecideLater(fate, before, during, attempt + 1);
    }
  }

  lemma OneMore(fate: nat -> Fate, before: nat -> bool, during: nat -> bool, attempt: nat, k: nat)
    requires attempt < k && !before(attempt) && fate(attempt) == Deadlocks && !during(attempt)
    ensures OnlyDeadlocksBefore(fate, before, during, attempt, k) <==>
            OnlyDeadlocksBefore(fate, before, during, attempt + 1, k)
  {
  }

  // ---------------------------------------------------------------- the retried Put

  /**
   * Everything around the loop: what goes wrong in each attempt, when the context is done, and what
   * other writers make of the tables while the loop waits after attempt n.
   */
  datatype World = World(
    trouble: nat -> nat -> Trouble,
    before: nat -> bool,
    during: nat -> bool,
    others: nat -> Tables -> Tables
  )

  /** The tables attempt n finds, as long as the attempts before it have changed nothing. */
  function Found(w: World, t: Tables, n: nat): Tables {
    if n == 0 then t else w.others(n - 1)(Found(w, t, n - 1))
  }

  function AttemptAt(p: Platform, trusted: seq<string>, namespace: string, t: Tables, r: Record, w: World, n: nat)
    : Result<Tables>
  {
    PutAttempt(p, trusted, namespace, Found(w, t, n), r, w.trouble(n))
  }

  function FatesOf<T>(attempts: nat -> Result<T>): nat -> Fate {
    (n: nat) => FateOf(attempts(n))
  }

  function Attempts(p: Platform, trusted: seq<string>, namespace: string, t: Tables, r: Record, w: World)
    : nat -> Result<Tables>
  {
    (n: nat) => AttemptAt(p, trusted, namespace, t, r, w, n)
  }

  function Fates(p: Platform, trusted: seq<string>, namespace: string, t: Tables, r: Record, w: World): nat -> Fate {
    FatesOf(Attempts(p, trusted, namespace, t, r, w))
  }

  function VerdictOf(p: Platform, trusted: seq<string>, namespace: string, t: Tables, r: Record, w: World): Verdict {
    Decide(Fates(p, trusted, namespace, t, r, w), w.before, w.during, 0)
  }

  /** The tables a retried Put commits, or the error it ends with. */
  function PutRetried(p: Platform, trusted: seq<string>, namespace: string, t: Tables, r: Record, w: World)
    : Result<Tables>
  {
    Conclusion(Attempts(p, trusted, namespace, t, r, w), VerdictOf(p, trusted, namespace, t, r, w))
  }

  /** What a loop around these attempts returns when it ends so. */
  function Conclusion<T>(attempts: nat -> Result<T>, v: Verdict): Result<T> {
    match v
    case RanAt(k) => attempts(k)
    case BrokeAt(k) => attempts(k)
    case GaveUp => Err(Deadlocked)
    case CancelledBefore(_) => Err(Failed)
    case CancelledWaiting(_) => Err(Failed)
  }

  /** The loop succeeds exactly when an attempt runs, and then with its outcome. */
  lemma ConclusionExact<T>(attempts: nat -> Result<T>, before: nat -> bool, during: nat -> bool)
    ensures var v := Decide(FatesOf(attempts), before, during, 0);
            (Conclusion(attempts, v).Ok? <==> v.RanAt?) &&
            (v.RanAt? ==> Conclusion(attempts, v) == attempts(v.attempt) && attempts(v.attempt).Ok?)
  {
    DecidedFate(FatesOf(attempts), before, during, 0);
  }

  /** How many attempts are run before the loop ends so. */
  function RunsOf(v: Verdict): nat {
    match v
    case RanAt(k) => k + 1
    case BrokeAt(k) => k + 1
    case GaveUp => LAST_ATTEMPT + 1
    case CancelledBefore(k) => k
    case CancelledWaiting(k) => k + 1
  }

  /** How often the loop waits, and others may write, before it ends so. */
  function WaitsOf(v: Verdict): nat {
    match v
    case RanAt(k) => k
    case BrokeAt(k) => k
    case GaveUp => LAST_ATTEMPT
    case CancelledBefore(k) => k
    case CancelledWaiting(k) => k + 1
  }

  /** From any attempt on, the loop runs its body at most five times in all, however it ends. */
  lemma {:induction false} AtMostFive(fate: nat -> Fate, before: nat -> bool, during: nat -> bool, attempt: nat)
    requires attempt <= LAST_ATTEMPT
    ensures attempt <= RunsOf(Decide(fate, before, during, attempt)) <= 5
  {
    DecideLater(fate, before, during, attempt);
  }

  /** A mark by which a proof asks for the outcome of attempt n. */
  predicate At(n: nat) { true }

  ghost predicate Models(attempts: nat -> Result<Tables>, p: Platform, trusted: seq<string>, namespace: string,
                         t: Tables,
                         r: Record, w: World)
  {
    forall n: nat {:trigger At(n)} :: At(n) ==> attempts(n) == AttemptAt(p, trusted, namespace, t, r, w, n)
  }

  /** What the loop has answered, left and committed when it ends so. */
  predicate Ends(w: World, t: Tables, attempts: nat -> Result<Tables>, v: Verdict, r: Result<Unit>, left: Tables,
                 commits: int)
  {
    match v
    case RanAt(k) => r == Ok(Unit) && attempts(k) == Ok(left) && commits == 1
    case BrokeAt(k) => r.Err? && attempts(k) == Err(r.error) && left == Found(w, t, k) && commits == 0
    case GaveUp => r == Err(Deadlocked) && left == Found(w, t, LAST_ATTEMPT) && commits == 0
    case CancelledBefore(k) => r == Err(Failed) && left == Found(w, t, k) && commits == 0
    case CancelledWaiting(k) => r == Err(Failed) && left == Found(w, t, k + 1) && commits == 0
  }

  /**
   * The MySQL backend's Put, with a counter of attempts run; the database counts what this store
   * commits.
   */
  class RetryingPut {
    const store: Store
    var runs: nat

    constructor (store: Store)
      ensures this.store == store && runs == 0
    {
      this.store, runs := store, 0;
    }

    /** One attempt in a transaction of its own, which is rolled back unless it commits. */
    method PutOnce(record: Record, trouble: nat -> Trouble) returns (r: Result<Unit>)
      modifies this, store.db
      ensures runs == old(runs) + 1
      ensures match PutAttempt(store.p, store.trusted, store.namespace, old(store.db.tables), record, trouble)
              case Err(e) =>
                r == Err(e) && store.db.tables == old(store.db.tables) && store.db.commits == old(store.db.commits)
              case Ok(t) => r == Ok(Unit) && store.db.tables == t && store.db.commits == old(store.db.commits) + 1
    {
      runs := runs + 1;
      r := store.Put(record, trouble);
    }

    /** What other writers commit while the loop waits. */
    method Wait(others: Tables -> Tables)
      modifies store.db
      ensures store.db.tables == others(old(store.db.tables)) && store.db.commits == old(store.db.commits)
    {
      store.db.tables := others(store.db.tables);
    }

    /**
     * Put succeeds exactly when this store has committed one transaction more, with the effect of one
     * PutTx on the tables its last attempt found; on any error it has committed nothing, and the
     * tables are as the other writers left them.
     */
    method Put(record: Record, w: World) returns (r: Result<Unit>)
      modifies this, store.db
      ensures var v := VerdictOf(store.p, store.trusted, store.namespace, old(store.db.tables), record, w);
              runs == old(runs) + RunsOf(v) &&
              match PutRetried(store.p, store.trusted, store.namespace, old(store.db.tables), record, w)
              case Err(e) =>
                r == Err(e) && store.db.tables == Found(w, old(store.db.tables), WaitsOf(v)) &&
                store.db.commits == old(store.db.commits)
              case Ok(t) => r == Ok(Unit) && store.db.tables == t && store.db.commits == old(store.db.commits) + 1
    {
      ghost var t := store.db.tables;
      ghost var attempts := Attempts(store.p, store.trusted, store.namespace, t, record, w);
      ghost var v;
      r, v := Loop(record, w, t, attempts);
      DecidedFate(Fates(store.p, store.trusted, store.namespace, t, record, w), w.before, w.during, 0);
    }

    /** retryDeadlock, around attempts whose outcomes are known as functions of what they find. */
    method Loop(record: Record, w: World, ghost t: Tables, ghost attempts: nat -> Result<Tables>)
      returns (r: Result<Unit>, ghost v: Verdict)
      requires store.db.tables == t
      requires Models(attempts, store.p, store.trusted, store.namespace, t, record, w)
      modifies this, store.db
      ensures v == Decide(FatesOf(attempts), w.before, w.during, 0) && runs == old(runs) + RunsOf(v)
      ensures Ends(w, t, attempts, v, r, store.db.tables, store.db.commits - old(store.db.commits))
    {
      v := Decide(FatesOf(attempts), w.before, w.during, 0);
      var attempt := 0;
      while true
        invariant 0 <= attempt <= LAST_ATTEMPT && runs == old(runs) + attempt
        invariant store.db.tables == Found(w, t, attempt) && store.db.commits == old(store.db.commits)
        invariant v == Decide(FatesOf(attempts), w.before, w.during, attempt)
        decreases LAST_ATTEMPT - attempt
      {
        var end := Turn(record, w, attempt, t, attempts);
        if end.Some? {
          return end.value, v;
        }
        attempt := attempt + 1;
      }
    }

    /** One turn of the loop: how the loop ends with it, or nothing. */
    method Turn(record: Record, w: World, n: nat, ghost t: Tables, ghost attempts: nat -> Result<Tables>)
      returns (end: Option<Result<Unit>>)
      requires n <= LAST_ATTEMPT && store.db.tables == Found(w, t, n)
      requires Models(attempts, store.p, store.trusted, store.namespace, t, record, w)
      modifies this, store.db
      ensures var v := Decide(FatesOf(attempts), w.before, w.during, n);
              match end
              case None =>
                n < LAST_ATTEMPT && v == Decide(FatesOf(attempts), w.before, w.during, n + 1) &&
                store.db.tables == Found(w, t, n + 1) && store.db.commits == old(store.db.commits) &&
                  runs == old(runs) + 1
              case Some(r) =>
                Ends(w, t, attempts, v, r, store.db.tables, store.db.commits - old(store.db.commits)) &&
                runs == old(runs) + RunsOf(v) - n
    {
      if w.before(n) {
        return Some(Err(Failed));
      }
      var r := Attempt(record, w, n, t, attempts);
      if r != Err(Deadlocked) || n == LAST_ATTEMPT {
        return Some(r);
      }
      Wait(w.others(n));
      end := if w.during(n) then Some(Err(Failed)) else None;
    }

    method Attempt(record: Record, w: World, n: nat, ghost t: Tables, ghost attempts: nat -> Result<Tables>)
      returns (r: Result<Unit>)
      requires store.db.tables == Found(w, t, n)
      requires Models(attempts, store.p, store.trusted, store.namespace, t, record, w)
      modifies this, store.db
      ensures runs == old(runs) + 1
      ensures attempts(n).Ok? ==>
                r == Ok(Unit) && attempts(n) == Ok(store.db.tables) && store.db.commits == old(store.db.commits) + 1
      ensures attempts(n).Err? ==>
                r == Err(attempts(n).error) && store.db.tables == old(store.db.tables) &&
                store.db.commits == old(store.db.commits)
    {
      assert At(n);
      r := PutOnce(record, w.trouble(n));
    }
  }

  /**
   * A retried Put that succeeds has the effect of PutTx on the tables the deciding attempt found, and
   * no other; it succeeds exactly when some attempt runs.
   */
  lemma RetriedEffect(p: Platform, trusted: seq<string>, namespace: string, t: Tables, r: Record, w: World)
    ensures var result, v := PutRetried(p, trusted, namespace, t, r, w), VerdictOf(p, trusted, namespace, t, r, w);
            (result.Ok? <==> v.RanAt?) &&
            (v.RanAt? ==> result == PutRows(p, trusted, namespace, Found(w, t, v.attempt), r))
  {
    var v := VerdictOf(p, trusted, namespace, t, r, w);
    ConclusionExact(Attempts(p, trusted, namespace, t, r, w), w.before, w.during);
    if v.RanAt? {
      AttemptEffect(p, trusted, namespace, t, r, w, v.attempt);
    }
  }

  /**
   * What a retried Put returns: the outcome of attempt k, whatever it is but a deadlock, if only
   * uncancelled deadlocks precede it; a deadlock if all five attempts are victims.
   */
  lemma RetriedAnswer(p: Platform, trusted: seq<string>, namespace: string, t: Tables, r: Record, w: World, k: nat)
    requires k <= 4 && !w.before(k)
    requires forall j | 0 <= j < k ::
               !w.before(j) && AttemptAt(p, trusted, namespace, t, r, w, j) == Err(Deadlocked) && !w.during(j)
    requires AttemptAt(p, trusted, namespace, t, r, w, k) != Err(Deadlocked) || k == 4
    ensures PutRetried(p, trusted, namespace, t, r, w) == AttemptAt(p, trusted, namespace, t, r, w, k)
    ensures AttemptAt(p, trusted, namespace, t, r, w, k).Err? ==>
            WaitsOf(VerdictOf(p, trusted, namespace, t, r, w)) == k
  {
    LoopAnswer(Attempts(p, trusted, namespace, t, r, w), w.before, w.during, k);
  }

  /**
   * A transaction whose first troubled step is a deadlock is one the loop tries again; any other
   * trouble is an error it returns.
   */
  lemma TroubleDecides<T>(trouble: nat -> Trouble, steps: nat, body: Result<T>, n: nat)
    requires n <= steps && (forall j: nat | j < n :: trouble(j) == Fine) && trouble(n) != Fine
    ensures trouble(n) == Deadlock ==>
              Transaction(trouble, steps, body) == Err(Deadlocked) &&
                FateOf(Transaction(trouble, steps, body)) == Deadlocks
    ensures trouble(n) == Broken ==>
              Transaction(trouble, steps, body) == Err(Failed) && FateOf(Transaction(trouble, steps, body)) == Breaks
  {
    Struck(trouble, 0, n, 1 + steps + if body.Ok? then 1 else 0);
  }

  lemma LoopAnswer<T>(attempts: nat -> Result<T>, before: nat -> bool, during: nat -> bool, k: nat)
    requires k <= 4 && !before(k)
    requires forall j | 0 <= j < k :: !before(j) && attempts(j) == Err(Deadlocked) && !during(j)
    requires attempts(k) != Err(Deadlocked) || k == 4
    ensures var v := Decide(FatesOf(attempts), before, during, 0);
            Conclusion(attempts, v) == attempts(k) && (attempts(k).Err? ==> WaitsOf(v) == k)
  {
    var fate := FatesOf(attempts);
    assert OnlyDeadlocksBefore(fate, before, during, 0, k);
    RunsExactly(fate, before, during, 0, k);
    BreaksExactly(fate, before, during, 0, k);
    GivesUpExactly(fate, before, during, 0);
  }

  lemma AttemptEffect(p: Platform, trusted: seq<string>, namespace: string, t: Tables, r: Record, w: World, n: nat)
    requires AttemptAt(p, trusted, namespace, t, r, w, n).Ok?
    ensures AttemptAt(p, trusted, namespace, t, r, w, n) == PutRows(p, trusted, namespace, Found(w, t, n), r)
  {
    var found := Found(w, t, n);
    TransactionExact(w.trouble(n), PutSteps(p, trusted, namespace, found, r), PutRows(p, trusted, namespace, found, r));
  }

  /** The loop ends after the attempt whose fate decides it. */
  lemma {:induction false} DecidedFate(fate: nat -> Fate, before: nat -> bool, during: nat -> bool, attempt: nat)
    requires attempt <= LAST_ATTEMPT
    ensures match Decide(fate, before, during, attempt)
            case RanAt(k) => fate(k) == Runs
            case BrokeAt(k) => fate(k) == Breaks
            case _ => true
    decreases LAST_ATTEMPT - attempt
  {
    if !before(attempt) && fate(attempt) == Deadlocks && attempt < LAST_ATTEMPT && !during(attempt) {
      DecidedFate(fate, before, during, attempt + 1);
    }
  }
}
