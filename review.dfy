/** The review buttons under a submission message: staff approve (one
    envelope to the submitter) or reject (no ledger change) a PENDING
    submission. Message edits and button disabling are display only and are
    not modelled; the status update that `finalize_message` ends with is. */
module Review {

  import opened Ledger
  import opened Submissions
  import opened Store

  /** Who clicked: a member of the server with role ids, or a plain user
      (an interaction outside a server carries no roles). */
  datatype Actor = GuildMember(id: UserId, roleIds: seq<int>) | PlainUser(id: UserId)

  /** The reply a click gets. */
  datatype ReviewReply = StaffOnly | NotFound | AlreadyReviewed | EnvelopeGranted | RejectionDone

  /** `any(role.id == roleId for role in roles)`. */
  function HasRole(roleIds: seq<int>, roleId: int): (b: bool)
    ensures b <==> roleId in roleIds
  {
    if roleIds == [] then false
    else
      assert roleIds == [roleIds[0]] + roleIds[1..];
      roleIds[0] == roleId || HasRole(roleIds[1..], roleId)
  }

  /** `staff_check`: with no staff role configured (id 0) nobody is staff;
      otherwise only a server member holding that role is. */
  function StaffCheck(staffRoleId: int, actor: Actor): (ok: bool)
    ensures staffRoleId == 0 ==> !ok
    ensures ok <==> staffRoleId != 0 && actor.GuildMember? && staffRoleId in actor.roleIds
  {
    if staffRoleId == 0 then false
    else if !actor.GuildMember? then false
    else HasRole(actor.roleIds, staffRoleId)
  }

  class ReviewView {
    var submissionId: int

    constructor (submissionId: int)
      ensures this.submissionId == submissionId
    {
      this.submissionId := submissionId;
    }

    /** The approve button. Staff only; the submission must exist and be
        PENDING. Then one envelope goes to the submitter and the submission
        becomes APPROVED; in every other case nothing changes. */
    method Approve(db: EventDb, staffRoleId: int, actor: Actor) returns (reply: ReviewReply)
      requires db.Valid()
      modifies db
      ensures db.Valid()
      ensures var found := Find(old(db.submissions), submissionId);
        if !StaffCheck(staffRoleId, actor) then
          reply == StaffOnly && db.users == old(db.users) && db.submissions == old(db.submissions)
        else if found.None? then
          reply == NotFound && db.users == old(db.users) && db.submissions == old(db.submissions)
        else if found.value.status != Pending then
          reply == AlreadyReviewed && db.users == old(db.users) && db.submissions == old(db.submissions)
        else
          && reply == EnvelopeGranted
          && db.users == Credited(old(db.users), found.value.user, 1)
          && db.submissions == WithStatus(old(db.submissions), submissionId, Approved)
    {
      if !StaffCheck(staffRoleId, actor) {
        return StaffOnly;
      }
      var sub := db.GetSubmission(submissionId);
      if sub.None? {
        return NotFound;
      }
      if sub.value.status != Pending {
        return AlreadyReviewed;
      }
      ReviewKeepsInvariants(db.submissions, submissionId, Approved);
      db.AddEnvelopes(sub.value.user, 1);
      db.SetSubmissionStatus(submissionId, Approved);
      reply := EnvelopeGranted;
    }

    /** The reject button: the same checks as approve; then the submission
        becomes REJECTED and no balance changes. */
    method Reject(db: EventDb, staffRoleId: int, actor: Actor) returns (reply: ReviewReply)
      requires db.Valid()
      modifies db
      ensures db.Valid()
      ensures db.users == old(db.users)
      ensures var found := Find(old(db.submissions), submissionId);
        if !StaffCheck(staffRoleId, actor) then
          reply == StaffOnly && db.submissions == old(db.submissions)
        else if found.None? then
          reply == NotFound && db.submissions == old(db.submissions)
        else if found.value.status != Pending then
          reply == AlreadyReviewed && db.submissions == old(db.submissions)
        else
          reply == RejectionDone && db.submissions == WithStatus(old(db.submissions), submissionId, Rejected)
    {
      if !StaffCheck(staffRoleId, actor) {
        return StaffOnly;
      }
      var sub := db.GetSubmission(submissionId);
      if sub.None? {
        return NotFound;
      }
      if sub.value.status != Pending {
        return AlreadyReviewed;
      }
      ReviewKeepsInvariants(db.submissions, submissionId, Rejected);
      db.SetSubmissionStatus(submissionId, Rejected);
      reply := RejectionDone;
    }
  }

  /** In a well-numbered table, every row carrying the id of a PENDING
      submission is that submission, so it is active. */
  lemma ReviewedWasActive(subs: seq<Submission>, id: int)
    requires WellNumbered(subs)
    requires Find(subs, id).Some? && Find(subs, id).value.status == Pending
    ensures forall i :: 0 <= i < |subs| && subs[i].id == id ==> Active(subs[i])
  {
    FindNumbered(subs, id);
  }

  /** Reviewing a PENDING submission keeps the numbering of the ids and at
      most one active submission per (user, day). */
  lemma ReviewKeepsInvariants(subs: seq<Submission>, id: int, st: Status)
    requires WellNumbered(subs) && OneActivePerDay(subs)
    requires Find(subs, id).Some? && Find(subs, id).value.status == Pending
    ensures WellNumbered(WithStatus(subs, id, st)) && OneActivePerDay(WithStatus(subs, id, st))
  {
    ReviewedWasActive(subs, id);
    ReviewKeepsOneActive(subs, id, st);
    StatusKeepsIds(subs, id, st);
  }

  /** A review cannot fire twice: once a click has approved or rejected a
      submission, a second click on either button of the same view gets
      "already reviewed", and the tables are as the first click left them. */
  method ReviewTwice(view: ReviewView, db: EventDb, staffRoleId: int, actor: Actor,
                     approveFirst: bool, approveSecond: bool)
    returns (first: ReviewReply, second: ReviewReply)
    requires db.Valid()
    modifies db
    ensures first == EnvelopeGranted ==>
      && second == AlreadyReviewed
      && Find(old(db.submissions), view.submissionId).Some?
      && db.users == Credited(old(db.users), Find(old(db.submissions), view.submissionId).value.user, 1)
      && db.submissions == WithStatus(old(db.submissions), view.submissionId, Approved)
    ensures first == RejectionDone ==>
      && second == AlreadyReviewed
      && db.users == old(db.users)
      && db.submissions == WithStatus(old(db.submissions), view.submissionId, Rejected)
  {
    if approveFirst {
      first := view.Approve(db, staffRoleId, actor);
    } else {
      first := view.Reject(db, staffRoleId, actor);
    }
    if first == EnvelopeGranted {
      FindAfterStatus(old(db.submissions), view.submissionId, Approved);
    } else if first == RejectionDone {
      FindAfterStatus(old(db.submissions), view.submissionId, Rejected);
    }
    if approveSecond {
      second := view.Approve(db, staffRoleId, actor);
    } else {
      second := view.Reject(db, staffRoleId, actor);
    }
  }
}
