/**
  `call_mistral_with_retry` of `mistral_helper.py`: up to `retries` calls of
  the chat client, retrying after a linearly growing wait when the error
  reports a rate limit or lack of capacity, and giving up with the empty
  string on any other error or once the attempts run out.

  The client is a parameter: `client(prompt, k)` is what the `k`-th attempt
  returns -- the reply content, or the text of the exception it raised. The
  sleep is not performed; the method returns the waits it would sleep.
  `random.uniform(0, 3)` is a parameter too: `jitter(k)` is the value drawn
  after the `k`-th attempt.
 */
module MistralRetry {
  import opened Wrappers
  import opened Text

  type Client = (string, nat) -> Result<string, string>

  /** A value `random.uniform(0, 3)` can return. */
  type Jitter = r: real | 0.0 <= r <= 3.0

  /** `"429" in str(e) or "capacity" in str(e)`. */
  predicate IsTransient(message: string)
  {
    Contains(message, "429") || Contains(message, "capacity")
  }

  /** The `k`-th attempt raised a transient error. */
  predicate TransientAt(client: Client, prompt: string, k: nat)
  {
    client(prompt, k).Err? && IsTransient(client(prompt, k).error)
  }

  /** An error is transient exactly when "429" or "capacity" occurs somewhere in its message. */
  lemma TransientIff(message: string)
    ensures IsTransient(message) <==>
            (exists i :: OccursAt(message, "429", i)) || (exists i :: OccursAt(message, "capacity", i))
  {
    ContainsIff(message, "429");
    ContainsIff(message, "capacity");
  }

  /**
    `call_mistral_with_retry(prompt, retries, base_wait)`. `attempts` is the
    number of client calls made and `waits[k - 1]` the wait after the `k`-th.
    Every attempt but the last failed transiently; the loop stops early only
    on a success or a non-transient error. The reply is the stripped content
    of a successful last attempt, and "" otherwise. A negative `base_wait`
    can make `time.sleep` raise, so the wait is required to be non-negative.
   */
  method CallWithRetry(prompt: string, retries: int, baseWait: real, client: Client, jitter: nat -> Jitter)
    returns (reply: string, attempts: nat, waits: seq<real>)
    requires baseWait >= 0.0
    ensures retries <= 0 ==> attempts == 0 && reply == "" && waits == []
    ensures retries > 0 ==> 1 <= attempts <= retries
    ensures forall k :: 1 <= k < attempts ==> TransientAt(client, prompt, k)
    ensures attempts < retries ==> !TransientAt(client, prompt, attempts)
    ensures reply == if attempts >= 1 && client(prompt, attempts).Ok?
                     then Strip(client(prompt, attempts).value) else ""
    ensures |waits| == if attempts >= 1 && !TransientAt(client, prompt, attempts) then attempts - 1 else attempts
    ensures forall i :: 0 <= i < |waits| ==>
              baseWait * (i + 1) as real <= waits[i] <= baseWait * (i + 1) as real + 3.0
    ensures (forall k :: 1 <= k <= retries ==> TransientAt(client, prompt, k)) ==>
              reply == "" && attempts == |waits| == (if retries > 0 then retries else 0)
  {
    waits := [];
    attempts := 0;
    var attempt := 1;
    while attempt <= retries
      invariant 1 <= attempt && (retries >= 1 ==> attempt <= retries + 1) && (retries < 1 ==> attempt == 1)
      invariant attempts == attempt - 1
      invariant forall k :: 1 <= k < attempt ==> TransientAt(client, prompt, k)
      invariant |waits| == attempts
      invariant forall i :: 0 <= i < |waits| ==> waits[i] == baseWait * (i + 1) as real + jitter(i + 1)
    {
      attempts := attempt;
      var response := client(prompt, attempt);
      if response.Ok? {
        reply := Strip(response.value);
        return;
      }
      if IsTransient(response.error) {
        var wait := baseWait * attempt as real + jitter(attempt);
        waits := waits + [wait];
        attempt := attempt + 1;
        continue;
      } else {
        reply := "";
        return;
      }
    }
    assert attempts >= 1 ==> TransientAt(client, prompt, attempts);
    assert retries > 0 ==> attempts == retries;
    reply := "";
  }
}
