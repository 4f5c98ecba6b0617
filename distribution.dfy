/**
 * The sending half of `real_run`: after the pairings are made the operator
 * must answer `SEND`; then every giver is sent one message, a failed message
 * does not stop the others, and the number of messages that went out is
 * reported.
 */
module Distribution {
  import opened Participants
  import opened PairingGenerator
  import opened Text

  /** The answer that confirms sending. */
  const ConfirmToken := "SEND"

  /** The confirmation gate: the answer, stripped of surrounding whitespace, is exactly `SEND`. */
  predicate Confirmed(answer: string)
  {
    Strip(answer) == ConfirmToken
  }

  /** Any whitespace around `SEND` still confirms. */
  lemma ConfirmedWhenPadded(w1: string, w2: string)
    requires AllSpace(w1) && AllSpace(w2)
    ensures Confirmed(w1 + ConfirmToken + w2)
  {
    StripPadded(w1, ConfirmToken, w2);
  }

  /** And nothing else confirms: a confirming answer is `SEND` with whitespace around it. */
  lemma ConfirmedShape(answer: string) returns (w1: string, w2: string)
    requires Confirmed(answer)
    ensures AllSpace(w1) && AllSpace(w2) && answer == w1 + ConfirmToken + w2
  {
    var lo, hi := StripSlice(answer);
    w1, w2 := answer[..lo], answer[hi..];
    assert answer[lo..hi] == ConfirmToken;
    assert answer == w1 + answer[lo..hi] + w2;
  }

  /**
   * The mail transport behind `send_email`. Each call is one attempt, recorded
   * in `attempts`; whether the k-th attempt is delivered or raises is decided
   * by the environment, given here as the oracle `succeeds`.
   */
  class Outbox {
    const succeeds: nat -> bool
    var attempts: seq<Pairing>

    constructor (succeeds: nat -> bool)
      ensures this.succeeds == succeeds && attempts == []
    {
      this.succeeds := succeeds;
      attempts := [];
    }

    /** One call of `send_email(giver, receiver, ...)`; `ok` is false where the call raises. */
    method SendEmail(giver: Participant, receiver: Participant) returns (ok: bool)
      modifies this
      ensures attempts == old(attempts) + [Pairing(giver, receiver)]
      ensures ok == succeeds(|old(attempts)|)
    {
      ok := succeeds(|attempts|);
      attempts := attempts + [Pairing(giver, receiver)];
    }
  }

  /** How many of the `n` attempts numbered `from`, `from + 1`, ... are delivered. */
  function CountSuccesses(succeeds: nat -> bool, from: nat, n: nat): (c: nat)
    ensures c <= n
  {
    if n == 0 then 0
    else CountSuccesses(succeeds, from, n - 1) + (if succeeds(from + n - 1) then 1 else 0)
  }

  /** Every message counts exactly when every attempt is delivered. */
  lemma {:induction false} AllDeliveredIff(succeeds: nat -> bool, from: nat, n: nat)
    ensures CountSuccesses(succeeds, from, n) == n <==> forall k :: from <= k < from + n ==> succeeds(k)
  {
    if n > 0 {
      AllDeliveredIff(succeeds, from, n - 1);
    }
  }

  /** The count is zero exactly when no attempt is delivered. */
  lemma {:induction false} NoneDeliveredIff(succeeds: nat -> bool, from: nat, n: nat)
    ensures CountSuccesses(succeeds, from, n) == 0 <==> forall k :: from <= k < from + n ==> !succeeds(k)
  {
    if n > 0 {
      NoneDeliveredIff(succeeds, from, n - 1);
    }
  }

  /** A single failed attempt among `n` leaves a count of `n - 1`. */
  lemma {:induction false} OneFailure(succeeds: nat -> bool, from: nat, n: nat, failed: nat)
    requires from <= failed < from + n && !succeeds(failed)
    requires forall k :: from <= k < from + n && k != failed ==> succeeds(k)
    ensures CountSuccesses(succeeds, from, n) == n - 1
  {
    if failed < from + n - 1 {
      OneFailure(succeeds, from, n - 1, failed);
    } else {
      AllDeliveredIff(succeeds, from, n - 1);
    }
  }

  /**
   * The send loop: one attempt per pairing, in order, whatever the earlier
   * attempts did; `successCount` is the number delivered.
   */
  method SendAll(pairings: seq<Pairing>, outbox: Outbox) returns (successCount: nat)
    modifies outbox
    ensures outbox.attempts == old(outbox.attempts) + pairings
    ensures successCount == CountSuccesses(outbox.succeeds, |old(outbox.attempts)|, |pairings|)
    ensures successCount <= |pairings|
  {
    successCount := 0;
    for i := 0 to |pairings|
      invariant outbox.attempts == old(outbox.attempts) + pairings[..i]
      invariant successCount == CountSuccesses(outbox.succeeds, |old(outbox.attempts)|, i)
    {
      var ok := outbox.SendEmail(pairings[i].giver, pairings[i].receiver);
      if ok {
        successCount := successCount + 1;
      }
      assert pairings[..i + 1] == pairings[..i] + [pairings[i]];
    }
    assert pairings[..|pairings|] == pairings;
  }

  /** How a real run ends. */
  datatype RunOutcome =
    | PairingFailed(error: PairingError)          // `create_pairings` raised
    | Cancelled                                    // the answer was not `SEND`
    | Completed(successCount: nat, total: nat)     // "Successfully sent successCount/total emails."

  /**
   * `real_run` from the pairing step on. `answer` is what the operator types
   * at the confirmation prompt; `pairings` (ghost) is the assignment that was
   * made, if any. Nothing is sent unless pairing succeeded and the answer
   * confirms, and then every pairing is attempted exactly once, in order.
   */
  method RealRun(participants: array<Participant>, answer: string, outbox: Outbox)
    returns (outcome: RunOutcome, ghost pairings: seq<Pairing>)
    modifies outbox
    ensures outcome == PairingFailed(ValueError(TooFewMessage)) <==> participants.Length < 2
    ensures outcome.PairingFailed? ==>
              outcome.error == ValueError(TooFewMessage) || outcome.error == RuntimeError(ExhaustedMessage)
    ensures outcome.PairingFailed? ==> pairings == []
    ensures !outcome.PairingFailed? ==> IsAssignment(participants[..], pairings)
    ensures outcome == Cancelled <==> !outcome.PairingFailed? && !Confirmed(answer)
    ensures !outcome.Completed? ==> outbox.attempts == old(outbox.attempts)
    ensures outcome.Completed? ==>
              && Confirmed(answer)
              && outbox.attempts == old(outbox.attempts) + pairings
              && outcome.total == |pairings| == participants.Length
              && outcome.successCount == CountSuccesses(outbox.succeeds, |old(outbox.attempts)|, |pairings|)
  {
    ghost var candidates;
    var made;
    made, candidates := CreatePairings(participants);
    if made.Err? {
      return PairingFailed(made.error), [];
    }
    pairings := made.value;
    if !Confirmed(answer) {
      return Cancelled, pairings;
    }
    var successCount := SendAll(made.value, outbox);
    outcome := Completed(successCount, |made.value|);
  }
}
