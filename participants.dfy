/**
 * The records the gift exchange works on: a participant as loaded from the
 * participants file, and a pairing of a giver with the receiver they buy for.
 * Identity of a participant is its email address.
 */
module Participants {

  /** One row of the participants file, with both fields already trimmed. */
  datatype Participant = Participant(name: string, email: string)

  /** A `(giver, receiver)` tuple as produced by `zip`. */
  datatype Pairing = Pairing(giver: Participant, receiver: Participant)

  /** No two participants share an email address. */
  predicate DistinctEmails(ps: seq<Participant>)
  {
    forall i, j :: 0 <= i < j < |ps| ==> ps[i].email != ps[j].email
  }

  /**
   * Python's `zip(givers, receivers)`: pairs elements at the same index and
   * stops at the end of the shorter argument.
   */
  function Zip(givers: seq<Participant>, receivers: seq<Participant>): (r: seq<Pairing>)
    ensures |r| == if |givers| <= |receivers| then |givers| else |receivers|
    ensures forall i :: 0 <= i < |r| ==> r[i].giver == givers[i] && r[i].receiver == receivers[i]
  {
    if givers == [] || receivers == [] then []
    else [Pairing(givers[0], receivers[0])] + Zip(givers[1..], receivers[1..])
  }

  /** The givers of a pairing list, in order. */
  function Givers(pairings: seq<Pairing>): (r: seq<Participant>)
    ensures |r| == |pairings|
    ensures forall i :: 0 <= i < |r| ==> r[i] == pairings[i].giver
  {
    if pairings == [] then [] else [pairings[0].giver] + Givers(pairings[1..])
  }

  /** The receivers of a pairing list, in order. */
  function Receivers(pairings: seq<Pairing>): (r: seq<Participant>)
    ensures |r| == |pairings|
    ensures forall i :: 0 <= i < |r| ==> r[i] == pairings[i].receiver
  {
    if pairings == [] then [] else [pairings[0].receiver] + Receivers(pairings[1..])
  }

  /** Zipping two lists of equal length loses nothing: both can be read back. */
  lemma {:induction false} UnzipZip(givers: seq<Participant>, receivers: seq<Participant>)
    requires |givers| == |receivers|
    ensures Givers(Zip(givers, receivers)) == givers
    ensures Receivers(Zip(givers, receivers)) == receivers
  {
    var z := Zip(givers, receivers);
    assert Givers(z) == givers by {
      assert forall i :: 0 <= i < |givers| ==> Givers(z)[i] == givers[i];
    }
    assert Receivers(z) == receivers by {
      assert forall i :: 0 <= i < |receivers| ==> Receivers(z)[i] == receivers[i];
    }
  }

  /** And a pairing list is the zip of its givers and its receivers. */
  lemma {:induction false} ZipUnzip(pairings: seq<Pairing>)
    ensures Zip(Givers(pairings), Receivers(pairings)) == pairings
  {
    var z := Zip(Givers(pairings), Receivers(pairings));
    assert forall i :: 0 <= i < |pairings| ==> z[i] == pairings[i];
  }
}
