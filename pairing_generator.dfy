/**
 * `create_pairings`: keep the participants in input order as givers, shuffle a
 * copy of them as receivers until no position pairs two records with the same
 * email, and give up after a fixed number of shuffles.
 */
module PairingGenerator {
  import opened Participants
  import Shuffle

  /** The two exceptions `create_pairings` raises. */
  datatype PairingError =
    | ValueError(message: string)    // fewer than two participants
    | RuntimeError(message: string)  // no shuffle passed the check

  datatype Result<T> = Ok(value: T) | Err(error: PairingError)

  /** Number of shuffles tried before giving up. */
  const MaxAttempts: nat := 1000

  const TooFewMessage := "Need at least 2 participants for Secret Santa"
  const ExhaustedMessage := "Could not create valid pairings. This is very unlikely!"

  /**
   * The acceptance test of one shuffle: at no index do the giver and the
   * receiver have the same email address.
   */
  predicate NoSelfPairing(givers: seq<Participant>, receivers: seq<Participant>)
  {
    forall i :: 0 <= i < |givers| ==> i < |receivers| && givers[i].email != receivers[i].email
  }

  /** `receivers` holds exactly the participants, each as often as in the input. */
  predicate IsPermutationOf(receivers: seq<Participant>, participants: seq<Participant>)
  {
    |receivers| == |participants| && multiset(receivers) == multiset(participants)
  }

  /**
   * What a successful run of `create_pairings` returns: one pairing per
   * participant, the givers being the participants in input order, the
   * receivers a rearrangement of the participants, and nobody paired with
   * their own email address.
   */
  predicate IsAssignment(participants: seq<Participant>, pairings: seq<Pairing>)
  {
    && |pairings| == |participants|
    && Givers(pairings) == participants
    && IsPermutationOf(Receivers(pairings), participants)
    && forall i :: 0 <= i < |pairings| ==> pairings[i].giver.email != pairings[i].receiver.email
  }

  /** Zipping the participants with any accepted receiver order gives a valid assignment. */
  lemma ZipIsAssignment(participants: seq<Participant>, receivers: seq<Participant>)
    requires IsPermutationOf(receivers, participants)
    requires NoSelfPairing(participants, receivers)
    ensures IsAssignment(participants, Zip(participants, receivers))
  {
    UnzipZip(participants, receivers);
  }

  /** Every order in `orders` is a rearrangement of the participants. */
  predicate AllPermutationsOf(orders: seq<seq<Participant>>, participants: seq<Participant>)
  {
    forall k :: 0 <= k < |orders| ==> IsPermutationOf(orders[k], participants)
  }

  /** Every order in `orders` fails the acceptance test against `givers`. */
  predicate AllRejected(givers: seq<Participant>, orders: seq<seq<Participant>>)
  {
    forall k :: 0 <= k < |orders| ==> !NoSelfPairing(givers, orders[k])
  }

  /**
   * The retry loop. `candidates` (ghost) records the receiver order produced
   * by every shuffle, in the order they were made. The run ends in one of
   * three ways: too few participants and no shuffle at all; the last shuffle
   * is the first to pass the test and is zipped with the givers; or all
   * `MaxAttempts` shuffles fail.
   */
  method CreatePairings(participants: array<Participant>)
    returns (r: Result<seq<Pairing>>, ghost candidates: seq<seq<Participant>>)
    ensures r.Ok? || r == Err(ValueError(TooFewMessage)) || r == Err(RuntimeError(ExhaustedMessage))
    ensures r == Err(ValueError(TooFewMessage)) <==> participants.Length < 2
    ensures r == Err(ValueError(TooFewMessage)) ==> candidates == []
    ensures |candidates| <= MaxAttempts
    ensures AllPermutationsOf(candidates, participants[..])
    ensures r.Ok? ==>
              && 1 <= |candidates|
              && AllRejected(participants[..], candidates[..|candidates| - 1])
              && NoSelfPairing(participants[..], candidates[|candidates| - 1])
              && r.value == Zip(participants[..], candidates[|candidates| - 1])
              && IsAssignment(participants[..], r.value)
    ensures r == Err(RuntimeError(ExhaustedMessage)) ==>
              && participants.Length >= 2
              && |candidates| == MaxAttempts
              && AllRejected(participants[..], candidates)
  {
    candidates := [];
    if participants.Length < 2 {
      return Err(ValueError(TooFewMessage)), candidates;
    }
    var givers := participants[..];
    var receivers := new Participant[participants.Length](i requires 0 <= i < participants.Length reads participants => participants[i]);
    assert receivers[..] == givers;
    for attempt := 0 to MaxAttempts
      invariant receivers.Length == |givers| && givers == participants[..]
      invariant IsPermutationOf(receivers[..], givers)
      invariant |candidates| == attempt
      invariant AllPermutationsOf(candidates, givers)
      invariant AllRejected(givers, candidates)
    {
      Shuffle.Shuffle(receivers);
      var order := receivers[..];
      if NoSelfPairing(givers, order) {
        ZipIsAssignment(givers, order);
        assert (candidates + [order])[..attempt] == candidates;
        return Ok(Zip(givers, order)), candidates + [order];
      }
      candidates := candidates + [order];
    }
    r := Err(RuntimeError(ExhaustedMessage));
  }
}
