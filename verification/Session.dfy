/** The order of what an oven's sessions tell: a session opens, brings reports, and closes. */
module Session {
  datatype Signal = Opened | Closed | StateTold | Other

  /** Whether a session is open before signal `k`. */
  predicate IsOpen(signals: seq<Signal>, k: nat)
    requires k <= |signals|
  {
    k > 0 && (signals[k - 1] == Opened || (signals[k - 1] != Closed && IsOpen(signals, k - 1)))
  }

  /** Reports come only in open sessions. */
  ghost predicate InOrder(signals: seq<Signal>) {
    forall k :: 0 <= k < |signals| && signals[k] == StateTold ==> IsOpen(signals, k)
  }

  /** And sessions come one at a time: each opens when none is open, and closes once. */
  ghost predicate Bracketed(signals: seq<Signal>) {
    && InOrder(signals)
    && (forall k :: 0 <= k < |signals| && signals[k] == Opened ==> !IsOpen(signals, k))
    && (forall k :: 0 <= k < |signals| && signals[k] == Closed ==> IsOpen(signals, k))
  }

  lemma {:induction false} PrefixOpen(signals: seq<Signal>, signal: Signal, k: nat)
    requires k <= |signals|
    ensures IsOpen(signals + [signal], k) == IsOpen(signals, k)
  {
    if k > 0 {
      PrefixOpen(signals, signal, k - 1);
    }
  }

  lemma OneMoreSignal(signals: seq<Signal>, signal: Signal)
    requires Bracketed(signals)
    requires (signal == StateTold || signal == Closed ==> IsOpen(signals, |signals|))
      && (signal == Opened ==> !IsOpen(signals, |signals|))
    ensures Bracketed(signals + [signal])
    ensures IsOpen(signals + [signal], |signals| + 1) <==>
      signal == Opened || (signal != Closed && IsOpen(signals, |signals|))
  {
    forall k: nat | k <= |signals| ensures IsOpen(signals + [signal], k) == IsOpen(signals, k) {
      PrefixOpen(signals, signal, k);
    }
  }
}
