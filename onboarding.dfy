/**
 * The onboarding dialogue: a per-user session in `userStates` that collects
 * name, e-mail and role from three successive messages, is saved as a user
 * record, and is discarded when it is more than five minutes old.
 */
module Onboarding {
  import opened Common

  /** Sessions older than this many milliseconds are discarded. */
  const SessionTimeoutMs: int := 5 * 60 * 1000

  /** The value of a session's `step` field. */
  datatype Step = Name | Email | Role

  /** One entry of `userStates`; a field that was never assigned is `None`. */
  datatype Session = Session(step: Step, createdAt: int,
                             name: Option<string>, email: Option<string>, role: Option<string>)

  /** The reply the message handler sends while a session is open. */
  datatype Reply =
    | SessionTimedOut                       // the session expired; start over with /start
    | AskEmail                              // prompt for the e-mail address
    | AskRole                               // prompt for the role
    /** The details the session collected; the `User` schema stores neither e-mail nor role. */
    | Completed(name: Option<string>, email: Option<string>, role: Option<string>)
    | SaveFailed                            // the user record could not be saved
    | NotOnboarding                         // no session: the handler goes on to sentiment logging

  /** The field that a message answered at `step` is stored in. */
  function Field(s: Session, step: Step): (f: Option<string>)
  {
    match step
    case Name => s.name
    case Email => s.email
    case Role => s.role
  }

  /** How many answers a session at `step` still needs. */
  function Remaining(step: Step): (n: nat)
  {
    match step
    case Name => 3
    case Email => 2
    case Role => 1
  }

  /** Fields of later steps are not yet filled in. */
  ghost predicate WellFormed(s: Session)
  {
    && (s.step == Name ==> s.name == None)
    && (s.step != Role ==> s.email == None)
    && (s.step != Role ==> s.role == None)
  }

  /** A session whose age at `now` is over the timeout (an age of exactly the timeout is kept). */
  predicate Stale(s: Session, now: int)
  {
    now - s.createdAt > SessionTimeoutMs
  }

  /** The session after an answer, or `None` once it is saved and deleted, and the reply. */
  datatype Outcome = Outcome(next: Option<Session>, reply: Reply)

  /**
   * One message `text` answering session `s`; `saved` is whether saving the
   * new user record succeeded (it is only attempted at the role step).
   */
  function Answer(s: Session, text: Option<string>, saved: bool): (o: Outcome)
    ensures o.next.None? <==> s.step == Role && saved
    ensures o.next.None? ==> o.reply == Completed(s.name, s.email, text)
    ensures o.next.Some? ==>
      && Field(o.next.value, s.step) == text
      && (forall st :: st != s.step ==> Field(o.next.value, st) == Field(s, st))
      && o.next.value.createdAt == s.createdAt
    ensures o.next.Some? ==>
      if s.step == Role then o.reply == SaveFailed && o.next.value.step == Role
      else o.reply == (if s.step == Name then AskEmail else AskRole)
           && Remaining(o.next.value.step) == Remaining(s.step) - 1
    ensures o.reply != SessionTimedOut && o.reply != NotOnboarding
  {
    match s.step
    case Name => Outcome(Some(s.(name := text, step := Email)), AskEmail)
    case Email => Outcome(Some(s.(email := text, step := Role)), AskRole)
    case Role =>
      var filled := s.(role := text);
      if saved then Outcome(None, Completed(filled.name, filled.email, filled.role))
      else Outcome(Some(filled), SaveFailed)
  }

  /** In a well-formed session only the fields of steps already reached can be filled in. */
  lemma FilledFieldsReached(s: Session, st: Step)
    requires WellFormed(s)
    ensures Field(s, st).Some? ==> Remaining(st) >= Remaining(s.step)
  {
  }

  /** An answer keeps a well-formed session well-formed. */
  lemma AnswerKeepsWellFormed(s: Session, text: Option<string>, saved: bool)
    requires WellFormed(s)
    ensures Answer(s, text, saved).next.Some? ==> WellFormed(Answer(s, text, saved).next.value)
  {
  }

  /**
   * A fresh session answered with `n`, `e` and `r`, the save succeeding,
   * asks for e-mail, then role, then completes with exactly those answers;
   * a failed save keeps the session at the role step, and the next answer
   * replaces the role.
   */
  lemma Dialogue(t0: int, n: Option<string>, e: Option<string>, r: Option<string>, r2: Option<string>)
    ensures var s0 := Session(Name, t0, None, None, None);
            var o1 := Answer(s0, n, false);
            var o2 := Answer(o1.next.value, e, false);
            && o1.reply == AskEmail && o2.reply == AskRole
            && Answer(o2.next.value, r, true) == Outcome(None, Completed(n, e, r))
            && Answer(o2.next.value, r, false).reply == SaveFailed
            && Answer(Answer(o2.next.value, r, false).next.value, r2, true) == Outcome(None, Completed(n, e, r2))
  {
  }

  /** The global `userStates` table. */
  class SessionTable {
    var userStates: map<int, Session>

    ghost predicate Valid()
      reads this
    {
      forall id :: id in userStates ==> WellFormed(userStates[id])
    }

    constructor ()
      ensures Valid() && userStates == map[]
    {
      userStates := map[];
    }

    /** Opens a session at step `name`, created at `now`, replacing any previous one. */
    method Begin(telegramId: int, now: int)
      requires Valid()
      modifies this
      ensures Valid()
      ensures userStates == old(userStates)[telegramId := Session(Name, now, None, None, None)]
    {
      userStates := userStates[telegramId := Session(Name, now, None, None, None)];
    }

    /** Deletes the user's session if it is stale at `now`; `expired` says whether it did. */
    method ExpireIfStale(telegramId: int, now: int) returns (expired: bool)
      requires Valid()
      modifies this
      ensures Valid()
      ensures expired <==> telegramId in old(userStates) && Stale(old(userStates)[telegramId], now)
      ensures expired ==> userStates == old(userStates) - {telegramId}
      ensures !expired ==> userStates == old(userStates)
    {
      expired := telegramId in userStates && now - userStates[telegramId].createdAt > SessionTimeoutMs;
      if expired {
        userStates := userStates - {telegramId};
      }
    }

    /** Applies one message to the user's session, if there is one. */
    method Advance(telegramId: int, text: Option<string>, saved: bool) returns (reply: Reply)
      requires Valid()
      modifies this
      ensures Valid()
      ensures telegramId !in old(userStates) ==> reply == NotOnboarding && userStates == old(userStates)
      ensures telegramId in old(userStates) ==>
        var o := Answer(old(userStates)[telegramId], text, saved);
        && reply == o.reply
        && userStates == match o.next
                         case None => old(userStates) - {telegramId}
                         case Some(s) => old(userStates)[telegramId := s]
    {
      if telegramId !in userStates {
        return NotOnboarding;
      }
      AnswerKeepsWellFormed(userStates[telegramId], text, saved);
      var o := Answer(userStates[telegramId], text, saved);
      match o.next {
        case None => userStates := userStates - {telegramId};
        case Some(s) => userStates := userStates[telegramId := s];
      }
      reply := o.reply;
    }

    /**
     * The start of the message handler: a stale session is deleted and the
     * timeout notice is the only reply; otherwise the message is an answer.
     */
    method HandleMessage(telegramId: int, text: Option<string>, now: int, saved: bool)
      returns (reply: Reply)
      requires Valid()
      modifies this
      ensures Valid()
      ensures reply == SessionTimedOut <==>
        telegramId in old(userStates) && Stale(old(userStates)[telegramId], now)
      ensures reply == SessionTimedOut ==> userStates == old(userStates) - {telegramId}
      ensures reply != SessionTimedOut && telegramId in old(userStates) ==>
        var o := Answer(old(userStates)[telegramId], text, saved);
        && reply == o.reply
        && userStates == match o.next
                         case None => old(userStates) - {telegramId}
                         case Some(s) => old(userStates)[telegramId := s]
      ensures telegramId !in old(userStates) ==> reply == NotOnboarding && userStates == old(userStates)
    {
      var expired := ExpireIfStale(telegramId, now);
      if expired {
        return SessionTimedOut;
      }
      reply := Advance(telegramId, text, saved);
    }
  }
}
