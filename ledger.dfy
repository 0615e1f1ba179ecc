/** The users table: one row (envelopes, points, dragon) per user, created
    lazily with zeros. The functions here give the table a statement runs
    against and the table it leaves behind; the class in module Store applies
    them in place. */
module Ledger {

  type UserId = int

  /** One row of the users table. */
  datatype Stats = Stats(envelopes: int, points: int, dragon: int)

  const ZERO: Stats := Stats(0, 0, 0)

  /** No balance of any user is negative. */
  predicate NonNegative(m: map<UserId, Stats>)
  {
    forall u :: u in m ==> m[u].envelopes >= 0 && m[u].points >= 0 && m[u].dragon >= 0
  }

  /** The row of `u` as a statement sees it once `ensure_user` has run. */
  function StatsOf(m: map<UserId, Stats>, u: UserId): Stats
  {
    if u in m then m[u] else ZERO
  }

  /** `ensure_user`: INSERT OR IGNORE of a zeroed row. */
  function WithUser(m: map<UserId, Stats>, u: UserId): (r: map<UserId, Stats>)
    ensures r.Keys == m.Keys + {u}
    ensures forall v :: v in m ==> r[v] == m[v]
    ensures u !in m ==> r[u] == ZERO
    ensures NonNegative(m) ==> NonNegative(r)
  {
    if u in m then m else m[u := ZERO]
  }

  /** `add_envelopes`: ensure the row, then add `amount` to its envelopes. */
  function Credited(m: map<UserId, Stats>, u: UserId, amount: int): (r: map<UserId, Stats>)
    ensures r.Keys == m.Keys + {u}
    ensures r[u].envelopes == StatsOf(m, u).envelopes + amount
    ensures r[u].points == StatsOf(m, u).points && r[u].dragon == StatsOf(m, u).dragon
    ensures forall v :: v in m && v != u ==> r[v] == m[v]
    ensures NonNegative(m) && amount >= 0 ==> NonNegative(r)
  {
    var w := WithUser(m, u);
    w[u := w[u].(envelopes := w[u].envelopes + amount)]
  }

  /** The guard of `consume_envelope_and_award`: the (ensured) row holds an envelope. */
  predicate HasEnvelope(m: map<UserId, Stats>, u: UserId)
  {
    StatsOf(m, u).envelopes > 0
  }

  /** The two UPDATEs `consume_envelope_and_award` runs once its guard passed:
      one envelope off and `points` on, then one dragon mark if `isDragon`. */
  function Awarded(m: map<UserId, Stats>, u: UserId, points: int, isDragon: bool): (r: map<UserId, Stats>)
    ensures r.Keys == m.Keys + {u}
    ensures r[u].envelopes == StatsOf(m, u).envelopes - 1
    ensures r[u].points == StatsOf(m, u).points + points
    ensures r[u].dragon == StatsOf(m, u).dragon + (if isDragon then 1 else 0)
    ensures forall v :: v in m && v != u ==> r[v] == m[v]
    ensures NonNegative(m) && HasEnvelope(m, u) && points >= 0 ==> NonNegative(r)
  {
    var w := WithUser(m, u);
    var debited := w[u].(envelopes := w[u].envelopes - 1, points := w[u].points + points);
    w[u := if isDragon then debited.(dragon := debited.dragon + 1) else debited]
  }

  /** An approval followed by an opening: the envelope the approval credited
      is the one the opening spends, so the user ends with the envelopes they
      started with, the tier's points more, and the tier's dragon mark. */
  lemma ApproveThenOpen(m: map<UserId, Stats>, u: UserId, points: int, isDragon: bool)
    requires NonNegative(m) && points >= 0
    ensures HasEnvelope(Credited(m, u, 1), u)
    ensures var r := Awarded(Credited(m, u, 1), u, points, isDragon);
      && r[u].envelopes == StatsOf(m, u).envelopes
      && r[u].points == StatsOf(m, u).points + points
      && r[u].dragon == StatsOf(m, u).dragon + (if isDragon then 1 else 0)
      && NonNegative(r)
  {
  }
}
