/** The session state machine of internal/session/fsm.go: the table of allowed
    transitions, the Transition operation and what can never be left again. */
module SessionFsm {

  datatype Phase =
    | New
    | EapAuthenticating
    | EapAuthenticated
    | S2bCreateSessionSent
    | S2bAccepted
    | GtpuInstalling
    | DatapathInstalling
    | Active
    | CleaningUp
    | Failed
    | Deleted

  predicate Allowed(from: Phase, to: Phase) {
    match from
    case New => to == EapAuthenticating || to == Failed
    case EapAuthenticating => to == EapAuthenticated || to == Failed || to == CleaningUp
    case EapAuthenticated => to == S2bCreateSessionSent || to == Failed || to == CleaningUp
    case S2bCreateSessionSent => to == S2bAccepted || to == Failed || to == CleaningUp
    case S2bAccepted => to == GtpuInstalling || to == CleaningUp || to == Failed
    case GtpuInstalling => to == DatapathInstalling || to == CleaningUp || to == Failed
    case DatapathInstalling => to == Active || to == CleaningUp || to == Failed
    case Active => to == CleaningUp || to == Failed
    case CleaningUp => to == Deleted || to == Failed
    case Failed => to == CleaningUp || to == Deleted
    case Deleted => false
  }

  /** The state after a Transition call. Every caller drops the returned error, so
      a refused transition leaves the state as it was. */
  function Transition(p: Phase, next: Phase): Phase {
    if Allowed(p, next) then next else p
  }

  predicate Ended(p: Phase) {
    p == CleaningUp || p == Failed || p == Deleted
  }

  function TransitionAll(p: Phase, nexts: seq<Phase>): Phase
    decreases |nexts|
  {
    if nexts == [] then p else TransitionAll(Transition(p, nexts[0]), nexts[1..])
  }

  /** Progress before the session ends: how far along the attach it is. */
  function Rank(p: Phase): nat {
    match p
    case New => 0
    case EapAuthenticating => 1
    case EapAuthenticated => 2
    case S2bCreateSessionSent => 3
    case S2bAccepted => 4
    case GtpuInstalling => 5
    case DatapathInstalling => 6
    case Active => 7
    case CleaningUp | Failed | Deleted => 8
  }

  /** The whole table: one attach phase ahead, to Failed from wherever the session has neither
      failed nor been deleted, to CleaningUp from wherever there is something to clean up, and
      to Deleted from these two. */
  lemma AllowedIff(p: Phase, q: Phase)
    ensures Allowed(p, q) <==>
            || (Rank(p) < 7 && Rank(q) == Rank(p) + 1)
            || (q == Failed && p != Failed && p != Deleted)
            || (q == CleaningUp && p != New && p != CleaningUp && p != Deleted)
            || (q == Deleted && (p == CleaningUp || p == Failed))
  {}

  /** No sequence of Transition calls, in whatever order the goroutines make them,
      brings an ended session back, and a session that is Active after some calls went
      through every attach phase still ahead of it, one at a time. */
  lemma {:induction false} EndedForGood(p: Phase, nexts: seq<Phase>)
    ensures Ended(p) ==> Ended(TransitionAll(p, nexts))
    ensures p == Deleted ==> TransitionAll(p, nexts) == Deleted
    ensures Rank(p) <= Rank(TransitionAll(p, nexts))
    ensures TransitionAll(p, nexts) == Active && p != Active
            ==> Active in nexts && |nexts| >= 7 - Rank(p)
    decreases |nexts|
  {
    if nexts == [] {
    } else {
      EndedForGood(Transition(p, nexts[0]), nexts[1..]);
    }
  }
}
