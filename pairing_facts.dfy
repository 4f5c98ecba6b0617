/**
 * What the acceptance test of `create_pairings` does and does not guarantee:
 * with distinct emails an accepted assignment is a bijection and one always
 * exists; with two participants only the swap passes; and when one email is
 * shared by more than half of the records no shuffle can ever pass.
 */
module PairingFacts {
  import opened Participants
  import opened PairingGenerator

  /** How many records in `s` carry the email address `e`. */
  function CountEmail(s: seq<Participant>, e: string): (c: nat)
    ensures c <= |s|
  {
    if s == [] then 0
    else CountEmail(s[..|s| - 1], e) + (if s[|s| - 1].email == e then 1 else 0)
  }

  lemma {:induction false} CountEmailAppend(a: seq<Participant>, b: seq<Participant>, e: string)
    ensures CountEmail(a + b, e) == CountEmail(a, e) + CountEmail(b, e)
    decreases |b|
  {
    if b == [] {
      assert a + b == a;
    } else {
      assert (a + b)[..|a + b| - 1] == a + b[..|b| - 1];
      CountEmailAppend(a, b[..|b| - 1], e);
    }
  }

  /** Taking out the record at index `k` removes it from the multiset and from the count. */
  lemma RemoveAt(b: seq<Participant>, k: nat, e: string)
    requires k < |b|
    ensures multiset(b[..k] + b[k + 1..]) == multiset(b) - multiset{b[k]}
    ensures CountEmail(b, e) == CountEmail(b[..k] + b[k + 1..], e) + (if b[k].email == e then 1 else 0)
  {
    var x := b[k];
    assert b == b[..k] + [x] + b[k + 1..];
    CountEmailAppend(b[..k] + [x], b[k + 1..], e);
    CountEmailAppend(b[..k], [x], e);
    CountEmailAppend(b[..k], b[k + 1..], e);
    assert CountEmail([x], e) == CountEmail([] + [x], e);
  }

  /** Counting emails does not depend on the order of the records. */
  lemma {:induction false} CountEmailPermutation(a: seq<Participant>, b: seq<Participant>, e: string)
    requires multiset(a) == multiset(b)
    ensures CountEmail(a, e) == CountEmail(b, e)
    decreases |a|
  {
    if a != [] {
      var x := a[|a| - 1];
      var a' := a[..|a| - 1];
      assert a == a' + [x];
      assert multiset(a') == multiset(a) - multiset{x};
      assert x in multiset(b);
      var k :| 0 <= k < |b| && b[k] == x;
      RemoveAt(b, k, e);
      CountEmailPermutation(a', b[..k] + b[k + 1..], e);
    }
  }

  lemma {:induction false} CountEmailAtMostOne(s: seq<Participant>, e: string)
    requires DistinctEmails(s)
    ensures CountEmail(s, e) <= 1
  {
    if s != [] {
      var s' := s[..|s| - 1];
      CountEmailAtMostOne(s', e);
      if s[|s| - 1].email == e {
        CountEmailNone(s', e);
      }
    }
  }

  lemma {:induction false} CountEmailNone(s: seq<Participant>, e: string)
    requires forall i :: 0 <= i < |s| ==> s[i].email != e
    ensures CountEmail(s, e) == 0
  {
    if s != [] {
      CountEmailNone(s[..|s| - 1], e);
    }
  }

  lemma {:induction false} CountEmailTwo(s: seq<Participant>, i: nat, j: nat)
    requires i < j < |s| && s[i].email == s[j].email
    ensures CountEmail(s, s[j].email) >= 2
  {
    var e := s[j].email;
    assert s == s[..j] + s[j..];
    CountEmailAppend(s[..j], s[j..], e);
    CountEmailPositive(s[..j], i, e);
    CountEmailPositive(s[j..], 0, e);
  }

  lemma {:induction false} CountEmailPositive(s: seq<Participant>, i: nat, e: string)
    requires i < |s| && s[i].email == e
    ensures CountEmail(s, e) >= 1
  {
    if i < |s| - 1 {
      CountEmailPositive(s[..|s| - 1], i, e);
    }
  }

  /** Rearranging records with distinct emails keeps the emails distinct. */
  lemma PermutationKeepsDistinct(receivers: seq<Participant>, participants: seq<Participant>)
    requires IsPermutationOf(receivers, participants) && DistinctEmails(participants)
    ensures DistinctEmails(receivers)
  {
    forall i, j | 0 <= i < j < |receivers|
      ensures receivers[i].email != receivers[j].email
    {
      if receivers[i].email == receivers[j].email {
        var e := receivers[j].email;
        CountEmailTwo(receivers, i, j);
        CountEmailPermutation(receivers, participants, e);
        CountEmailAtMostOne(participants, e);
        assert false;
      }
    }
  }

  /** In a list with distinct emails every record occurs exactly once. */
  lemma {:induction false} MultiplicityOne(s: seq<Participant>)
    requires DistinctEmails(s)
    ensures forall p :: p in s ==> multiset(s)[p] == 1
  {
    if s != [] {
      var s', x := s[..|s| - 1], s[|s| - 1];
      assert s == s' + [x];
      MultiplicityOne(s');
      assert x !in s' by {
        forall i | 0 <= i < |s'| ensures s'[i] != x {
          assert s[i].email != s[|s| - 1].email;
        }
      }
      forall p | p in s ensures multiset(s)[p] == 1 {
        assert multiset(s)[p] == multiset(s')[p] + multiset{x}[p];
        if p != x {
          assert p in s';
        }
      }
    }
  }

  /**
   * With distinct emails an accepted assignment is a bijection onto the
   * participants: each participant receives exactly once, and nobody gives to
   * themselves.
   */
  lemma AssignmentIsBijection(participants: seq<Participant>, pairings: seq<Pairing>)
    requires DistinctEmails(participants)
    requires IsAssignment(participants, pairings)
    ensures forall i, j :: 0 <= i < j < |pairings| ==> pairings[i].receiver != pairings[j].receiver
    ensures forall p :: p in participants <==> p in Receivers(pairings)
    ensures forall p :: p in participants ==> multiset(Receivers(pairings))[p] == 1
    ensures forall i :: 0 <= i < |pairings| ==> pairings[i].giver == participants[i] != pairings[i].receiver
  {
    MultiplicityOne(participants);
    var rs := Receivers(pairings);
    assert IsPermutationOf(rs, participants);
    PermutationKeepsDistinct(rs, participants);
    forall i, j | 0 <= i < j < |pairings|
      ensures pairings[i].receiver != pairings[j].receiver
    {
      assert rs[i].email != rs[j].email;
    }
    forall p ensures p in participants <==> p in rs {
      assert p in participants <==> p in multiset(participants);
      assert p in rs <==> p in multiset(rs);
    }
    forall i | 0 <= i < |pairings|
      ensures pairings[i].giver == participants[i] != pairings[i].receiver
    {
      assert Givers(pairings)[i] == pairings[i].giver;
    }
  }

  /** Every participant gives to the next one in input order, the last to the first. */
  function Rotate(participants: seq<Participant>): (r: seq<Participant>)
    requires participants != []
    ensures |r| == |participants|
    ensures forall i :: 0 <= i < |r| - 1 ==> r[i] == participants[i + 1]
    ensures r[|r| - 1] == participants[0]
  {
    participants[1..] + [participants[0]]
  }

  /**
   * With at least two participants and distinct emails a valid assignment
   * exists, so running out of attempts is never forced by the input.
   */
  lemma RotationIsAssignment(participants: seq<Participant>)
    requires |participants| >= 2 && DistinctEmails(participants)
    ensures IsPermutationOf(Rotate(participants), participants)
    ensures NoSelfPairing(participants, Rotate(participants))
    ensures IsAssignment(participants, Zip(participants, Rotate(participants)))
  {
    var r := Rotate(participants);
    assert participants == [participants[0]] + participants[1..];
    assert multiset(r) == multiset(participants);
    forall i | 0 <= i < |participants|
      ensures participants[i].email != r[i].email
    {
      if i < |participants| - 1 {
        assert participants[i].email != participants[i + 1].email;
      } else {
        assert participants[0].email != participants[i].email;
      }
    }
    ZipIsAssignment(participants, r);
  }

  /** With two participants of different emails the swap is the one order that passes. */
  lemma TwoParticipantsOnlySwap(participants: seq<Participant>, receivers: seq<Participant>)
    requires |participants| == 2 && participants[0].email != participants[1].email
    ensures IsPermutationOf(receivers, participants) && NoSelfPairing(participants, receivers)
            <==> receivers == [participants[1], participants[0]]
  {
    var a, b := participants[0], participants[1];
    assert participants == [a, b];
    if IsPermutationOf(receivers, participants) && NoSelfPairing(participants, receivers) {
      assert receivers == [receivers[0], receivers[1]];
      assert receivers[0] in multiset(participants);
      assert receivers[0] == b;
      assert multiset{receivers[1]} == multiset(receivers) - multiset{b};
      assert receivers[1] == a;
    }
    if receivers == [b, a] {
      assert multiset(receivers) == multiset(participants);
    }
  }

  /**
   * If more than half of the records share one email, no rearrangement of the
   * records passes the acceptance test: each of those records needs a
   * receiver with another email, and there are too few of them.
   */
  lemma MajorityEmailBlocksPairing(participants: seq<Participant>, receivers: seq<Participant>, e: string)
    requires IsPermutationOf(receivers, participants)
    requires 2 * CountEmail(participants, e) > |participants|
    ensures !NoSelfPairing(participants, receivers)
  {
    if NoSelfPairing(participants, receivers) {
      CountEmailPermutation(participants, receivers, e);
      DisjointCounts(participants, receivers, e);
      assert false;
    }
  }

  lemma {:induction false} DisjointCounts(givers: seq<Participant>, receivers: seq<Participant>, e: string)
    requires |givers| == |receivers| && NoSelfPairing(givers, receivers)
    ensures CountEmail(givers, e) + CountEmail(receivers, e) <= |givers|
  {
    if givers != [] {
      var n := |givers| - 1;
      assert NoSelfPairing(givers[..n], receivers[..n]) by {
        forall i | 0 <= i < n ensures givers[..n][i].email != receivers[..n][i].email {
          assert givers[i].email != receivers[i].email;
        }
      }
      DisjointCounts(givers[..n], receivers[..n], e);
      assert givers[n].email != receivers[n].email;
    }
  }

  /**
   * Consequently, when at least two records are given and one email is held
   * by more than half of them, `create_pairings` cannot succeed: every one of
   * its shuffles is rejected and it raises `RuntimeError`.
   */
  method DominantEmailExhausts(participants: array<Participant>, e: string)
    returns (r: Result<seq<Pairing>>)
    requires participants.Length >= 2
    requires 2 * CountEmail(participants[..], e) > participants.Length
    ensures r == Err(RuntimeError(ExhaustedMessage))
  {
    ghost var candidates;
    r, candidates := CreatePairings(participants);
    if r.Ok? {
      MajorityEmailBlocksPairing(participants[..], candidates[|candidates| - 1], e);
      assert false;
    }
  }
}
