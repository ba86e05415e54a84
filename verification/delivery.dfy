/**
  `safe_say` (slack_bot.py, duplicated in utils.py): sends one message,
  retrying with exponential backoff while Slack answers `ratelimited`, and
  giving up at the first other error. The Slack call is an input: the
  outcome of the n-th attempt. Sleeping is recorded as the list of waits,
  in seconds.
 */
module Delivery {

  /** What one call of `say_func(message)` did. */
  datatype SendOutcome =
    | Delivered      // returned normally
    | RateLimited    // SlackApiError with error "ratelimited"
    | SlackError     // any other SlackApiError
    | OtherError     // any other exception

  function Pow2(n: nat): (r: nat)
    ensures r >= 1
  {
    if n == 0 then 1 else 2 * Pow2(n - 1)
  }

  /** The first attempt below `n` that is not rate limited, or `n` when all
      of them are: the attempt at which a send with `n` tries settles. */
  function Settles(outcome: nat -> SendOutcome, n: nat): (k: nat)
    ensures k <= n
    ensures forall i :: 0 <= i < k ==> outcome(i) == RateLimited
    ensures k < n ==> outcome(k) != RateLimited
    decreases n
  {
    if n == 0 then 0
    else
      var k := Settles(outcome, n - 1);
      if k < n - 1 then k
      else if outcome(n - 1) == RateLimited then n
      else n - 1
  }

  /** `range(max_retries)` runs no attempt for a budget of zero or less. */
  function Budget(maxRetries: int): nat {
    if maxRetries < 0 then 0 else maxRetries
  }

  /** The retry loop. `attempts` counts calls of `say_func`; `waits` are the
      back-off sleeps, one after every rate-limited attempt, the last one
      included. */
  method SafeSay(outcome: nat -> SendOutcome, maxRetries: int) returns (ok: bool, attempts: nat, waits: seq<nat>)
    ensures attempts <= Budget(maxRetries)
    ensures var n := Budget(maxRetries);
            var k := Settles(outcome, n);
            && (ok <==> k < n && outcome(k) == Delivered)
            && attempts == (if k < n then k + 1 else n)
            && |waits| == k
    ensures forall i :: 0 <= i < |waits| ==> waits[i] == Pow2(i)
  {
    ghost var n := Budget(maxRetries);
    attempts := 0;
    waits := [];
    while attempts < maxRetries
      invariant attempts <= n
      invariant forall i :: 0 <= i < attempts ==> outcome(i) == RateLimited
      invariant |waits| == attempts
      invariant forall i :: 0 <= i < |waits| ==> waits[i] == Pow2(i)
    {
      var o := outcome(attempts);
      if o == Delivered {
        SettlesAt(outcome, n, attempts);
        attempts := attempts + 1;
        return true, attempts, waits;
      } else if o == RateLimited {
        waits := waits + [Pow2(attempts)];
        attempts := attempts + 1;
      } else {
        SettlesAt(outcome, n, attempts);
        attempts := attempts + 1;
        return false, attempts, waits;
      }
    }
    SettlesAt(outcome, n, n);
    ok := false;
  }

  /** `Settles` is the first attempt that is not rate limited. */
  lemma {:induction false} SettlesAt(outcome: nat -> SendOutcome, n: nat, k: nat)
    requires k <= n
    requires forall i :: 0 <= i < k ==> outcome(i) == RateLimited
    requires k < n ==> outcome(k) != RateLimited
    ensures Settles(outcome, n) == k
    decreases n
  {
    if n > 0 {
      if k < n {
        if k < n - 1 {
          SettlesAt(outcome, n - 1, k);
        } else {
          SettlesAt(outcome, n - 1, n - 1);
        }
      } else {
        SettlesAt(outcome, n - 1, n - 1);
      }
    }
  }

  /** `safe_say` returns True exactly when some attempt within the budget
      is delivered after nothing but rate limits. */
  lemma SucceedsIff(outcome: nat -> SendOutcome, n: nat)
    ensures (Settles(outcome, n) < n && outcome(Settles(outcome, n)) == Delivered) <==>
            exists j :: 0 <= j < n && outcome(j) == Delivered && forall i :: 0 <= i < j ==> outcome(i) == RateLimited
  {
    var k := Settles(outcome, n);
    if j :| 0 <= j < n && outcome(j) == Delivered && forall i :: 0 <= i < j ==> outcome(i) == RateLimited {
      SettlesAt(outcome, n, j);
    }
  }
}
