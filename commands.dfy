/** The `/event submit` and `/event open` commands: their checks, in the
    order the bot makes them, and their effect on the database and on the
    per-user open cooldowns. Replies are result codes; the posted messages,
    embeds and ledger-channel log lines are not modelled. Time is an integer
    clock passed in as `now`, and the random tier pick is a roll passed in. */
module Commands {

  import opened Ledger
  import opened Submissions
  import opened Store
  import opened Tiers

  const OPEN_COOLDOWN_SECONDS: int := 10
  const ONE_SUBMISSION_PER_DAY: bool := true

  datatype SubmitReply =
    | DayOutOfRange
    | AlreadySubmitted
    | NotAnImage
    | Received(submissionId: int)

  datatype OpenReply =
    | SlowDown(wait: int)
    | NoEnvelopes
    | NoEnvelopesAtDebit
    | Opened(tier: nat, points: int, after: Stats)

  /** `open_cooldowns.get(user, 0)`. */
  function LastOpen(cooldowns: map<UserId, int>, user: UserId): int
  {
    if user in cooldowns then cooldowns[user] else 0
  }

  /** The attachment check: a content type is refused only when it is given
      (non-empty) and does not start with "image/". An absent content type
      is passed as the empty string; both are falsy in the check. */
  predicate ProofAccepted(contentType: string)
  {
    contentType == "" || "image/" <= contentType
  }

  class EventCommands {
    const db: EventDb
    var openCooldowns: map<UserId, int>

    constructor (db: EventDb)
      ensures this.db == db && openCooldowns == map[]
    {
      this.db := db;
      openCooldowns := map[];
    }

    /** `/event submit`: refuse a day outside 1..31, then a (user, day) that
        already has a PENDING or APPROVED submission, then a non-image proof;
        otherwise append one PENDING submission under a fresh id and reply
        with that id. A refusal changes nothing; no path touches balances. */
    method Submit(user: UserId, day: int, proofUrl: string, note: Option<string>, contentType: string,
                  messageId: int, channelId: int, now: int) returns (reply: SubmitReply)
      requires db.Valid()
      modifies db
      ensures db.Valid()
      ensures db.users == old(db.users)
      ensures
        if !(1 <= day <= 31) then
          reply == DayOutOfRange && db.submissions == old(db.submissions)
        else if HasActive(old(db.submissions), user, day) then
          reply == AlreadySubmitted && db.submissions == old(db.submissions)
        else if !ProofAccepted(contentType) then
          reply == NotAnImage && db.submissions == old(db.submissions)
        else
          && reply == Received(|old(db.submissions)| + 1)
          && (forall s :: s in old(db.submissions) ==> s.id != reply.submissionId)
          && db.submissions == old(db.submissions) +
               [Submission(reply.submissionId, user, day, proofUrl, note, Pending, messageId, channelId, now)]
    {
      if day <= 0 || day > 31 {
        return DayOutOfRange;
      }
      if ONE_SUBMISSION_PER_DAY {
        var already := db.UserAlreadySubmittedDay(user, day);
        if already {
          return AlreadySubmitted;
        }
      }
      if contentType != "" && !("image/" <= contentType) {
        return NotAnImage;
      }
      AppendKeepsOneActive(db.submissions,
        Submission(|db.submissions| + 1, user, day, proofUrl, note, Pending, messageId, channelId, now));
      var id := db.InsertSubmission(user, day, proofUrl, note, messageId, channelId, now);
      reply := Received(id);
    }

    /** `/event open`. Within 10 seconds of the user's last recorded attempt it
        replies with the wait and changes nothing. Otherwise it records `now`
        as the user's last attempt before anything else, so an attempt with no
        envelope still restarts the cooldown; with no envelope it stops there.
        With one, the roll picks a tier, and the guarded debit takes the
        envelope and adds the tier's points, and a dragon mark for the tier
        whose name starts with the yellow circle. */
    method Open(user: UserId, now: int, roll: int) returns (reply: OpenReply)
      requires db.Valid()
      requires 0 <= roll < TotalWeight(TIERS)
      modifies this, db
      ensures db.Valid()
      ensures db.submissions == old(db.submissions)
      ensures reply.SlowDown? ==> reply.wait > 0
      ensures
        var last := LastOpen(old(openCooldowns), user);
        var before := StatsOf(old(db.users), user);
        if now - last < OPEN_COOLDOWN_SECONDS then
          && reply == SlowDown(OPEN_COOLDOWN_SECONDS - (now - last))
          && openCooldowns == old(openCooldowns)
          && db.users == old(db.users)
        else if before.envelopes <= 0 then
          && reply == NoEnvelopes
          && openCooldowns == old(openCooldowns)[user := now]
          && db.users == old(db.users)
        else
          var i := Choose(TIERS, roll);
          && openCooldowns == old(openCooldowns)[user := now]
          && db.users == Awarded(old(db.users), user, TIERS[i].points, TierIsDragon(i))
          && reply == Opened(i, TIERS[i].points, db.users[user])
    {
      var last := LastOpen(openCooldowns, user);
      if now - last < OPEN_COOLDOWN_SECONDS {
        return SlowDown(OPEN_COOLDOWN_SECONDS - (now - last));
      }
      openCooldowns := openCooldowns[user := now];

      var envelopes, points, dragon := db.GetUserStats(user);
      if envelopes <= 0 {
        return NoEnvelopes;
      }

      var choice := Choose(TIERS, roll);
      var tier := TIERS[choice];
      var isDragon := IsDragonName(tier.name);

      var ok := db.ConsumeEnvelopeAndAward(user, tier.points, isDragon);
      if !ok {
        return NoEnvelopesAtDebit;
      }
      var envelopes2, points2, dragon2 := db.GetUserStats(user);
      reply := Opened(choice, tier.points, Stats(envelopes2, points2, dragon2));
    }
  }

  /** Two opens by one user less than 10 seconds apart: once the first got
      past the cooldown, the second is told to wait out the rest of it and
      changes nothing, whether or not the first found an envelope. */
  method OpenTwice(commands: EventCommands, user: UserId, now: int, later: int, roll1: int, roll2: int)
    returns (first: OpenReply, second: OpenReply)
    requires commands.db.Valid()
    requires 0 <= roll1 < TotalWeight(TIERS) && 0 <= roll2 < TotalWeight(TIERS)
    requires now <= later < now + OPEN_COOLDOWN_SECONDS
    modifies commands, commands.db
    ensures !first.SlowDown? ==>
      && second == SlowDown(OPEN_COOLDOWN_SECONDS - (later - now))
      && 0 < second.wait <= OPEN_COOLDOWN_SECONDS
      && commands.openCooldowns == old(commands.openCooldowns)[user := now]
      && commands.db.users ==
           if first.Opened? then
             Awarded(old(commands.db.users), user, TIERS[Choose(TIERS, roll1)].points, TierIsDragon(Choose(TIERS, roll1)))
           else old(commands.db.users)
  {
    first := commands.Open(user, now, roll1);
    second := commands.Open(user, later, roll2);
  }
}
