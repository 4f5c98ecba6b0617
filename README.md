# Secret Santa pairing and sending, modelled in Dafny

This project models the core of `secret_santa.py`, a script for a gift
exchange. The script assigns each participant another participant to buy a
gift for, then emails each giver their assignment. Two parts are modelled.

* **`create_pairings`** (module `PairingGenerator`). The participants, in
  input order, are the givers. A copy of the list is shuffled in place, up to
  1000 times. The first shuffle where no index pairs two records with the same
  email is zipped with the givers and returned. Fewer than two participants
  raises `ValueError`. Running out of shuffles raises `RuntimeError`. The
  caller's list is an `array` that the method has no right to modify. The
  receivers are a fresh array, shuffled by `Shuffle.Shuffle`. That method is
  CPython's Fisher–Yates pass with each random index left as an arbitrary
  choice in its range. A ghost out-parameter records every shuffled order, so
  the contract can speak about the rejected attempts.
* **The confirmation gate and send loop of `real_run`** (module
  `Distribution`). The operator's answer is stripped the way Python's
  `str.strip()` does it (module `Text`, using the exact `str.isspace()`
  character set). Nothing is sent unless the stripped answer is `SEND`.
  `send_email` is an `Outbox` object. It records every attempt, and an
  injected oracle `succeeds(k)` decides whether the k-th attempt is delivered
  or raises. The loop makes one attempt per pairing, in order. A failure does
  not stop it, and `success_count` is the number of delivered attempts.

Module `PairingFacts` proves what an accepted assignment means. With distinct
emails it is a bijection, and with at least two participants one always exists
(the rotation). With two participants whose emails differ, only the swap passes
the check. If there are at least two records and one email is held by more
than half of them, no order passes the check, so `create_pairings` can only
raise `RuntimeError`.

Two consequences for the code's own claims:

* The `RuntimeError` message at secret_santa.py:56 calls exhaustion "very
  unlikely". The model proves that a valid order exists when emails are
  distinct and there are at least two participants
  (`PairingFacts.RotationIsAssignment`). It also proves that none exists when
  one email is held by more than half of at least two records
  (`PairingFacts.MajorityEmailBlocksPairing`,
  `PairingFacts.DominantEmailExhausts`). There the error is certain, because
  the code compares participants by email and never checks that emails are
  unique. Repeated emails below that share still allow a valid order. How
  likely 1000 shuffles are to find one is not modelled.
* With two participants whose emails differ, only the swap passes the check
  (`PairingFacts.TwoParticipantsOnlySwap`). Whether one of 1000 random
  shuffles produces it is a question of probability, which is not modelled.

## Model

| member | source | states |
|---|---|---|
| Participants.Zip | secret_santa.py:54 | `zip` pairs the elements at equal indices and stops at the end of the shorter list |
| Participants.UnzipZip | secret_santa.py:54 | zipping two lists of equal length loses nothing: both the givers and the receivers can be read back from the pairs |
| Participants.ZipUnzip | secret_santa.py:54 | every list of pairs is the zip of its givers and its receivers |
| Shuffle.Shuffle | secret_santa.py:51 | `random.shuffle` rearranges the list in place: afterwards it holds the same elements, each as often as before |
| PairingGenerator.ZipIsAssignment | secret_santa.py:53-54 | zipping the participants with a receiver order that is a permutation and passes the email check gives a valid assignment: one pair per participant, givers in input order, receivers a permutation, no pair with equal emails |
| PairingGenerator.CreatePairings | secret_santa.py:37-56 | fewer than 2 participants raises `ValueError` before any shuffle, and 2 or more never does; at most 1000 shuffles, each a permutation of the participants; on success the last shuffle is the first to pass the email check and the result is the givers zipped with it, a valid assignment; `RuntimeError` only after exactly 1000 rejected shuffles; nothing else is returned; the caller's array is not written (empty frame) |
| PairingFacts.PermutationKeepsDistinct | secret_santa.py:46-51 | shuffling records with distinct emails keeps them distinct |
| PairingFacts.AssignmentIsBijection | secret_santa.py:45-54 | with distinct emails, an accepted assignment is a bijection: no two pairs share a receiver, every participant is a receiver exactly once, every receiver is a participant, and no giver is their own receiver |
| PairingFacts.RotationIsAssignment | secret_santa.py:49-56 | with 2 or more participants and distinct emails, the rotated order passes the check, so a valid assignment always exists |
| PairingFacts.TwoParticipantsOnlySwap | secret_santa.py:51-53 | with two participants whose emails differ, a receiver order is a permutation that passes the check if and only if it is the swap |
| PairingFacts.MajorityEmailBlocksPairing | secret_santa.py:53 | if more than half of the records share one email, no permutation of them passes the check |
| PairingFacts.DominantEmailExhausts | secret_santa.py:42-56 | with at least two records, more than half of them sharing one email, `create_pairings` always raises `RuntimeError` |
| Text.StripSlice | secret_santa.py:143 | `strip()` returns a slice of its input with only whitespace cut off on each side, and the result does not start or end with whitespace |
| Text.StripPadded | secret_santa.py:143 | surrounding a word that does not start or end with whitespace by whitespace does not change what `strip()` returns |
| Distribution.ConfirmedWhenPadded | secret_santa.py:143-147 | `SEND` with any whitespace around it passes the gate |
| Distribution.ConfirmedShape | secret_santa.py:143-147 | only such answers pass: an answer that passes the gate is `SEND` with whitespace on each side |
| Distribution.Outbox.SendEmail | secret_santa.py:155-156 | one `send_email` call is exactly one recorded attempt; it succeeds or raises as the environment decides for that attempt |
| Distribution.CountSuccesses | secret_santa.py:151-158 | the number of delivered attempts is at most the number made |
| Distribution.AllDeliveredIff | secret_santa.py:151-162 | the count equals the number of attempts if and only if every attempt is delivered |
| Distribution.NoneDeliveredIff | secret_santa.py:151-162 | the count is zero if and only if no attempt is delivered |
| Distribution.OneFailure | secret_santa.py:151-162 | one failed delivery among n attempts gives a count of n - 1 |
| Distribution.SendAll | secret_santa.py:149-162 | exactly one attempt per pairing, in pairing order, whatever the earlier attempts did; `success_count` is the number delivered and at most the number of pairings |
| Distribution.RealRun | secret_santa.py:137-162 | from the pairing step on: the run fails with `ValueError` exactly when there are fewer than 2 participants, and otherwise can fail only with `RuntimeError`; a failed run sends nothing; a made assignment is valid; if the stripped answer is not `SEND`, the run is cancelled with zero attempts; otherwise every pairing is attempted once in order, and the reported count is the number delivered out of the number of participants |

## Left out

- `load_participants` (secret_santa.py:23-34): it reads a file through `csv.DictReader`. The model starts from the loaded list of participants.
- `send_email` internals (secret_santa.py:59-87): message building and the SMTP, STARTTLS and login steps are library calls. Only their outcome is modelled, as the `Outbox` oracle. The model does not check that the receiver's name appears only in the giver's message.
- The prompts for sender address, password, SMTP server and port (secret_santa.py:119-135), including the defaults and `int(...)` on the port. These are console input. A non-numeric port makes `int(...)` raise `ValueError` at secret_santa.py:135, before pairing; the run then ends with no pairing and no send. That path is not modelled: `RealRun` starts at the pairing step and takes only the confirmation answer.
- `dry_run` (secret_santa.py:90-108) and all printed output in `real_run`: presentation only. `dry_run` calls `create_pairings` and prints, and it has no outbox to send through.
- `main` (secret_santa.py:166-199): argument parsing, the check for conflicting mode flags and the top-level exception handler.
- Shuffle.Shuffle: promises only that the result is a permutation. The random source is an arbitrary choice, so uniformity and the roughly 1/e chance that one shuffle passes are not modelled.
- PairingGenerator.CreatePairings: does not promise that a run with two or more participants succeeds. That depends on the random source. Only the existence of a passing order (`PairingFacts.RotationIsAssignment`) is proved.
- Distribution.RealRun: the ordering of the credential prompts before pairing is not modelled.
