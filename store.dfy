/** The event database: the users table as a map from user id to balances
    and the submissions table as a sequence in insertion order, with the
    helpers the bot runs against them.

    Each helper opens its own connection, and Python's sqlite3 module only
    keeps what a helper commits. `get_user_stats` and the refusing path of
    `consume_envelope_and_award` run `ensure_user`'s INSERT but return before
    any commit, so closing the connection discards that row: in this model
    they leave the tables as they were. */
module Store {

  import opened Ledger
  import opened Submissions

  class EventDb {
    var users: map<UserId, Stats>
    var submissions: seq<Submission>

    /** Balances are never negative, submission ids follow AUTOINCREMENT,
        and each (user, day) has at most one PENDING or APPROVED submission. */
    ghost predicate Valid()
      reads this
    {
      NonNegative(users) && WellNumbered(submissions) && OneActivePerDay(submissions)
    }

    /** `init_db` on a fresh database file: both tables empty. */
    constructor ()
      ensures users == map[] && submissions == []
      ensures Valid()
    {
      users := map[];
      submissions := [];
    }

    /** `add_envelopes`: create the row if needed, then add `amount` envelopes. */
    method AddEnvelopes(user: UserId, amount: int)
      modifies this
      ensures users == Credited(old(users), user, amount)
      ensures submissions == old(submissions)
    {
      users := Credited(users, user, amount);
    }

    /** `get_user_stats`: the user's balances, zeros for a user with no row. */
    method GetUserStats(user: UserId) returns (envelopes: int, points: int, dragon: int)
      ensures user in users ==>
        envelopes == users[user].envelopes && points == users[user].points && dragon == users[user].dragon
      ensures user !in users ==> envelopes == 0 && points == 0 && dragon == 0
      ensures Valid() ==> envelopes >= 0 && points >= 0 && dragon >= 0
    {
      var row := StatsOf(users, user);
      envelopes, points, dragon := row.envelopes, row.points, row.dragon;
    }

    /** `consume_envelope_and_award`: refuse, changing nothing, when the user
        holds no envelope; otherwise take one envelope, add `points`, and add a
        dragon mark when `isDragon`. */
    method ConsumeEnvelopeAndAward(user: UserId, points: int, isDragon: bool) returns (ok: bool)
      modifies this
      ensures ok <==> HasEnvelope(old(users), user)
      ensures users == if ok then Awarded(old(users), user, points, isDragon) else old(users)
      ensures submissions == old(submissions)
    {
      var row := StatsOf(WithUser(users, user), user);
      if row.envelopes <= 0 {
        return false;
      }
      users := Awarded(users, user, points, isDragon);
      ok := true;
    }

    /** `set_submission_status`: every row with this id takes `status`. */
    method SetSubmissionStatus(id: int, status: Status)
      modifies this
      ensures submissions == WithStatus(old(submissions), id, status)
      ensures users == old(users)
    {
      submissions := WithStatus(submissions, id, status);
    }

    /** `get_submission`: the row with this id, or none. */
    method GetSubmission(id: int) returns (row: Option<Submission>)
      ensures row == Find(submissions, id)
      ensures row.Some? ==> row.value in submissions && row.value.id == id
      ensures row.None? <==> forall s :: s in submissions ==> s.id != id
    {
      row := Find(submissions, id);
    }

    /** `user_already_submitted_day`: the user has a PENDING or APPROVED
        submission for `day`. */
    method UserAlreadySubmittedDay(user: UserId, day: int) returns (already: bool)
      ensures already <==> exists i :: 0 <= i < |submissions| && Blocks(submissions[i], user, day)
    {
      var count := CountActive(submissions, user, day);
      already := count > 0;
    }

    /** `insert_submission`: append a PENDING row under the next AUTOINCREMENT
        id and return that id, which no earlier row has. */
    method InsertSubmission(user: UserId, day: int, proofUrl: string, note: Option<string>,
                            messageId: int, channelId: int, now: int) returns (id: int)
      requires WellNumbered(submissions)
      modifies this
      ensures id == |old(submissions)| + 1
      ensures forall s :: s in old(submissions) ==> s.id != id
      ensures submissions ==
        old(submissions) + [Submission(id, user, day, proofUrl, note, Pending, messageId, channelId, now)]
      ensures WellNumbered(submissions)
      ensures users == old(users)
    {
      id := |submissions| + 1;
      submissions := submissions + [Submission(id, user, day, proofUrl, note, Pending, messageId, channelId, now)];
    }
  }
}
