/** The submissions table: rows with an AUTOINCREMENT id, a day number and a
    review status, and the queries and updates the bot runs against it. */
module Submissions {

  import opened Ledger

  datatype Option<T> = None | Some(value: T)

  datatype Status = Pending | Approved | Rejected

  /** One row of the submissions table. */
  datatype Submission = Submission(
    id: int,
    user: UserId,
    day: int,
    proofUrl: string,
    note: Option<string>,
    status: Status,
    messageId: int,
    channelId: int,
    createdAt: int)

  /** `status IN ('PENDING','APPROVED')`: the statuses that block another
      submission for the same day. */
  predicate Active(s: Submission)
  {
    s.status == Pending || s.status == Approved
  }

  /** `s` is an active submission of user `u` for `day`. */
  predicate Blocks(s: Submission, u: UserId, day: int)
  {
    s.user == u && s.day == day && Active(s)
  }

  /** Some active submission of user `u` for `day` exists. */
  predicate HasActive(subs: seq<Submission>, u: UserId, day: int)
  {
    exists i :: 0 <= i < |subs| && Blocks(subs[i], u, day)
  }

  /** AUTOINCREMENT ids in a table no statement deletes from: row i has id i + 1. */
  predicate WellNumbered(subs: seq<Submission>)
  {
    forall i :: 0 <= i < |subs| ==> subs[i].id == i + 1
  }

  /** At most one PENDING or APPROVED submission per (user, day). */
  predicate OneActivePerDay(subs: seq<Submission>)
  {
    forall i, j :: 0 <= i < j < |subs| && Active(subs[i]) && Active(subs[j]) ==>
      subs[i].user != subs[j].user || subs[i].day != subs[j].day
  }

  /** `get_submission`: the first row whose id is `id`, if any. */
  function Find(subs: seq<Submission>, id: int): (r: Option<Submission>)
    ensures r.Some? ==> r.value in subs && r.value.id == id
    ensures r.None? <==> forall s :: s in subs ==> s.id != id
  {
    if subs == [] then None
    else if subs[0].id == id then Some(subs[0])
    else Find(subs[1..], id)
  }

  /** In a well-numbered table the row with id `id` is the one at index `id - 1`. */
  lemma {:induction false} FindNumbered(subs: seq<Submission>, id: int)
    requires WellNumbered(subs)
    ensures Find(subs, id) == if 1 <= id <= |subs| then Some(subs[id - 1]) else None
  {
    if 1 <= id <= |subs| {
      FindFirst(subs, id - 1);
    }
  }

  /** Find returns the row at index k when no earlier row has its id. */
  lemma {:induction false} FindFirst(subs: seq<Submission>, k: nat)
    requires k < |subs|
    requires forall j :: 0 <= j < k ==> subs[j].id != subs[k].id
    ensures Find(subs, subs[k].id) == Some(subs[k])
  {
    if k > 0 {
      assert subs[1..][k - 1] == subs[k];
      FindFirst(subs[1..], k - 1);
    }
  }

  /** `set_submission_status`: UPDATE ... SET status WHERE submission_id = `id`. */
  function WithStatus(subs: seq<Submission>, id: int, st: Status): (r: seq<Submission>)
    ensures |r| == |subs|
    ensures forall i :: 0 <= i < |subs| ==>
      r[i] == if subs[i].id == id then subs[i].(status := st) else subs[i]
  {
    if subs == [] then []
    else [if subs[0].id == id then subs[0].(status := st) else subs[0]] + WithStatus(subs[1..], id, st)
  }

  /** The status update leaves every id where it was. */
  lemma StatusKeepsIds(subs: seq<Submission>, id: int, st: Status)
    requires WellNumbered(subs)
    ensures WellNumbered(WithStatus(subs, id, st))
  {
    var r := WithStatus(subs, id, st);
    forall i | 0 <= i < |r| ensures r[i].id == i + 1 {
      assert r[i].id == subs[i].id;
    }
  }

  /** After the update, reading the submission back gives it with the new
      status: a reviewed submission is no longer PENDING. */
  lemma {:induction false} FindAfterStatus(subs: seq<Submission>, id: int, st: Status)
    requires Find(subs, id).Some?
    ensures Find(WithStatus(subs, id, st), id) == Some(Find(subs, id).value.(status := st))
  {
    if subs[0].id != id {
      assert WithStatus(subs, id, st)[1..] == WithStatus(subs[1..], id, st);
      FindAfterStatus(subs[1..], id, st);
    }
  }

  /** Changing the status of rows that are all active keeps at most one
      active row per (user, day). */
  lemma ReviewKeepsOneActive(subs: seq<Submission>, id: int, st: Status)
    requires OneActivePerDay(subs)
    requires forall i :: 0 <= i < |subs| && subs[i].id == id ==> Active(subs[i])
    ensures OneActivePerDay(WithStatus(subs, id, st))
  {
    var r := WithStatus(subs, id, st);
    forall i, j | 0 <= i < j < |r| && Active(r[i]) && Active(r[j])
      ensures r[i].user != r[j].user || r[i].day != r[j].day
    {
      assert Active(subs[i]) && Active(subs[j]);
    }
  }

  /** `user_already_submitted_day`'s SELECT COUNT(*) of active rows of (u, day). */
  function CountActive(subs: seq<Submission>, u: UserId, day: int): (n: nat)
    ensures n <= |subs|
    ensures n > 0 <==> HasActive(subs, u, day)
  {
    if subs == [] then 0
    else
      var rest := CountActive(subs[1..], u, day);
      assert HasActive(subs, u, day) <==> Blocks(subs[0], u, day) || HasActive(subs[1..], u, day) by {
        if HasActive(subs[1..], u, day) {
          var i :| 0 <= i < |subs[1..]| && Blocks(subs[1..][i], u, day);
          assert subs[i + 1] == subs[1..][i];
        }
        if HasActive(subs, u, day) && !Blocks(subs[0], u, day) {
          var i :| 0 <= i < |subs| && Blocks(subs[i], u, day);
          assert subs[1..][i - 1] == subs[i];
        }
      }
      (if Blocks(subs[0], u, day) then 1 else 0) + rest
  }

  /** Where at most one row per (user, day) is active, the count is 0 or 1. */
  lemma {:induction false} CountAtMostOne(subs: seq<Submission>, u: UserId, day: int)
    requires OneActivePerDay(subs)
    ensures CountActive(subs, u, day) <= 1
  {
    if subs != [] {
      var rest := subs[1..];
      assert OneActivePerDay(rest) by {
        forall i, j | 0 <= i < j < |rest| && Active(rest[i]) && Active(rest[j])
          ensures rest[i].user != rest[j].user || rest[i].day != rest[j].day
        {
          assert rest[i] == subs[i + 1] && rest[j] == subs[j + 1];
        }
      }
      CountAtMostOne(rest, u, day);
      if Blocks(subs[0], u, day) {
        forall i | 0 <= i < |rest|
          ensures !Blocks(rest[i], u, day)
        {
          assert rest[i] == subs[i + 1];
        }
      }
    }
  }

  /** Appending a row for a (user, day) with no active row keeps at most one
      active row per (user, day). */
  lemma AppendKeepsOneActive(subs: seq<Submission>, row: Submission)
    requires OneActivePerDay(subs)
    requires !HasActive(subs, row.user, row.day)
    ensures OneActivePerDay(subs + [row])
  {
    var r := subs + [row];
    forall i, j | 0 <= i < j < |r| && Active(r[i]) && Active(r[j])
      ensures r[i].user != r[j].user || r[i].day != r[j].day
    {
      if j == |subs| {
        assert r[i] == subs[i] && !Blocks(subs[i], row.user, row.day);
      } else {
        assert r[i] == subs[i] && r[j] == subs[j];
      }
    }
  }
}
