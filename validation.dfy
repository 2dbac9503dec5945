/** The decision `addNewWord` takes on a normalised answer: five guard
    checks in a fixed order, the first failing one chooses the error
    message, and an answer that passes them all is accepted.
    `isReal` (a platform spell-checker) is a parameter: any predicate on
    strings. */
module Validation {
  import opened Possible

  /** The guard checks of addNewWord, named after the one that fails. */
  datatype Reason = SameAsRoot | TooShort | NotOriginal | NotPossible | NotReal

  datatype Outcome = Accepted | Rejected(reason: Reason)

  /** The text put in `errorMessage` when a check fails. */
  function Message(r: Reason): string {
    match r
    case SameAsRoot => "This word is root word"
    case TooShort => "This Not Word"
    case NotOriginal => "This word is not original"
    case NotPossible => "This word is not possible"
    case NotReal => "This word is not real"
  }

  /** Place of each check in the guard chain, first to last. */
  function Rank(r: Reason): nat {
    match r
    case SameAsRoot => 0
    case TooShort => 1
    case NotOriginal => 2
    case NotPossible => 3
    case NotReal => 4
  }

  /** Check r, taken on its own, rejects answer. The possibility check is
      the one the code makes: the answer against a copy of itself. */
  predicate Fails(r: Reason, root: string, used: seq<string>, answer: string, isReal: string -> bool) {
    match r
    case SameAsRoot => answer == root
    case TooShort => |answer| <= 3
    case NotOriginal => answer in used
    case NotPossible => !SubAnagram(answer, answer)
    case NotReal => !isReal(answer)
  }

  /** The guard chain of addNewWord on an already normalised answer. */
  function Evaluate(root: string, used: seq<string>, answer: string, isReal: string -> bool): (o: Outcome)
    ensures answer == root ==> o == Rejected(SameAsRoot)
    ensures answer != root && |answer| <= 3 ==> o == Rejected(TooShort)
    ensures answer != root && |answer| > 3 && answer in used ==> o == Rejected(NotOriginal)
    ensures o != Rejected(NotPossible)
    ensures o == Accepted <==> answer != root && |answer| > 3 && answer !in used && isReal(answer)
  {
    if answer == root then Rejected(SameAsRoot)
    else if |answer| <= 3 then Rejected(TooShort)
    else if answer in used then Rejected(NotOriginal)
    else if !SubAnagram(answer, answer) then Rejected(NotPossible)
    else if !isReal(answer) then Rejected(NotReal)
    else Accepted
  }

  /** Short-circuit: an answer is accepted exactly when no check fails, and
      a rejection names a check that fails and that no earlier check does. */
  lemma {:induction false} FirstFailureWins(root: string, used: seq<string>, answer: string, isReal: string -> bool)
    ensures Evaluate(root, used, answer, isReal) == Accepted
        <==> forall r :: !Fails(r, root, used, answer, isReal)
    ensures Evaluate(root, used, answer, isReal).Rejected? ==>
      var first := Evaluate(root, used, answer, isReal).reason;
      && Fails(first, root, used, answer, isReal)
      && forall r | Rank(r) < Rank(first) :: !Fails(r, root, used, answer, isReal)
  {
    var o := Evaluate(root, used, answer, isReal);
    if o == Accepted {
      forall r ensures !Fails(r, root, used, answer, isReal) {
        match r
        case SameAsRoot =>
        case TooShort =>
        case NotOriginal =>
        case NotPossible =>
        case NotReal =>
      }
    } else {
      forall r | Rank(r) < Rank(o.reason) ensures !Fails(r, root, used, answer, isReal) {
        match r
        case SameAsRoot =>
        case TooShort =>
        case NotOriginal =>
        case NotPossible =>
        case NotReal =>
      }
      assert Fails(o.reason, root, used, answer, isReal);
    }
  }

  /** Each check has its own message, so the message names the check. */
  lemma MessagesDistinct(r: Reason, r': Reason)
    requires r != r'
    ensures Message(r) != Message(r')
  {
  }

  /** The game's invariant for one round: the root word is not among the
      accepted words and no word was accepted twice. */
  predicate RoundInvariant(root: string, used: seq<string>) {
    && root !in used
    && forall i, j | 0 <= i < j < |used| :: used[i] != used[j]
  }

  /** Prepending an accepted answer keeps the round invariant. */
  lemma {:induction false} AcceptKeepsRoundInvariant(root: string, used: seq<string>, answer: string, isReal: string -> bool)
    requires RoundInvariant(root, used)
    requires Evaluate(root, used, answer, isReal) == Accepted
    ensures RoundInvariant(root, [answer] + used)
  {
    var used' := [answer] + used;
    forall i, j | 0 <= i < j < |used'| ensures used'[i] != used'[j] {
      assert used'[j] == used[j - 1];
      if i == 0 {
        assert used[j - 1] in used;
      } else {
        assert used'[i] == used[i - 1];
      }
    }
  }

  /** Once a typed text is accepted, typing the same text again is rejected
      as not original. */
  lemma ResubmissionRejected(root: string, used: seq<string>, answer: string, isReal: string -> bool)
    requires Evaluate(root, used, answer, isReal) == Accepted
    ensures Evaluate(root, [answer] + used, answer, isReal) == Rejected(NotOriginal)
  {
    assert answer in [answer] + used;
  }

  /** Evaluation does not enforce the root-based letter rule: with a
      dictionary that knows "wrist", "wrist" is accepted against the root
      "silkworm" although "silkworm" has no 't'. */
  lemma IntendedRuleNotEnforced(isReal: string -> bool)
    requires isReal("wrist")
    ensures Evaluate("silkworm", [], "wrist", isReal) == Accepted
    ensures !SubAnagram("wrist", "silkworm")
  {
    PossibleIgnoresRoot();
  }
}
