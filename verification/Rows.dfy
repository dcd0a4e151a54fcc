/** The stored rows of a synced resource and their wire form (api/routes/sync.js). */
module Rows {
  datatype Option<+T> = None | Some(value: T)

  type Id = nat
  type UserId = nat

  /** A timestamptz value in microseconds, the resolution the database stores. */
  type Stamp = int

  /** The millisecond that a JavaScript Date keeps of a stored stamp. */
  function Ms(s: Stamp): int { s / 1000 }

  /** A stamp after one trip through a JavaScript Date. */
  function Trunc(s: Stamp): Stamp { Ms(s) * 1000 }

  /** A stamp lies in its millisecond, before 1970 too; truncating it moves it back by less than one. */
  lemma MillisecondOf(s: Stamp, ms: int)
    ensures Ms(s) == ms <==> ms * 1000 <= s < ms * 1000 + 1000
    ensures Trunc(s) <= s < Trunc(s) + 1000 && exists n :: Trunc(s) == n * 1000
  {
    assert Trunc(s) == Ms(s) * 1000;
  }

  predicate Whole(s: Stamp) { Trunc(s) == s }

  /** The columns that an apply request may overwrite. */
  datatype Body = Body(
    customer: Option<string>, description: string,
    startAt: Stamp, endAt: Option<Stamp>,
    taskId: Option<string>, project: Option<string>, contract: Option<string>,
    notes: string, invoiced: bool)

  datatype Row = Row(
    user: UserId, id: Id, body: Body,
    updatedAt: Stamp, deletedAt: Option<Stamp>,
    syncedAt: Option<Stamp>)

  /** An entry on the wire. A None stamp is the empty string, which every schema
      but those of clock entries and projects lets through. */
  datatype Wire = Wire(id: Id, body: Body, updatedAt: Option<Stamp>, deletedAt: Option<Stamp>)

  predicate Stamped(es: seq<Wire>) { forall i :: 0 <= i < |es| ==> es[i].updatedAt.Some? }

  predicate DistinctIds(es: seq<Wire>) {
    forall i, j :: 0 <= i < j < |es| ==> es[i].id != es[j].id
  }

  /** `x || null` on an optional text column. */
  function OrNull(x: Option<string>): Option<string> { if x == Some("") then None else x }

  function TruncOpt(x: Option<Stamp>): Option<Stamp> {
    match x case None => None case Some(s) => Some(Trunc(s))
  }

  function RowToWire(r: Row): Wire {
    Wire(r.id,
         Body(OrNull(r.body.customer), r.body.description,
              Trunc(r.body.startAt), TruncOpt(r.body.endAt),
              OrNull(r.body.taskId), OrNull(r.body.project), OrNull(r.body.contract),
              r.body.notes, r.body.invoiced),
         Some(Trunc(r.updatedAt)), TruncOpt(r.deletedAt))
  }

  /** The row an entry becomes; an entry without a stamp is stamped with the server clock. */
  function WireToRow(e: Wire, user: UserId, now: Stamp): Row {
    Row(user, e.id, e.body, if e.updatedAt.Some? then e.updatedAt.value else now, e.deletedAt, None)
  }

  /** Optional text that is not the empty string, stamps on the whole millisecond. */
  predicate Canonical(e: Wire) {
    && e.updatedAt.Some? && Whole(e.updatedAt.value)
    && Whole(e.body.startAt)
    && (e.body.endAt.Some? ==> Whole(e.body.endAt.value))
    && (e.deletedAt.Some? ==> Whole(e.deletedAt.value))
    && Some("") !in {e.body.customer, e.body.taskId, e.body.project, e.body.contract}
  }

  /** Storing an entry and reading it back gives the entry itself, exactly when it is canonical. */
  lemma StoreThenReadIsIdentity(e: Wire, user: UserId, now: Stamp)
    ensures RowToWire(WireToRow(e, user, now)) == e <==> Canonical(e)
  {
    var w := RowToWire(WireToRow(e, user, now));
    if Canonical(e) {
      assert w.body == e.body;
    }
    if w == e {
      assert w.body == e.body;
      assert e.body.customer != Some("");
    }
  }

  /** An optional text, as a pull delivers it: an empty one is absent. */
  predicate Delivers(stored: Option<string>, sent: Option<string>) {
    (stored == Some("") ==> sent == None) && (stored != Some("") ==> sent == stored)
  }

  /** What a pull delivers of any stored row: its own columns, empty optional texts as absent. */
  lemma PullDelivers(r: Row)
    ensures var w := RowToWire(r);
      && w.id == r.id && w.body.description == r.body.description && w.body.notes == r.body.notes
      && w.body.invoiced == r.body.invoiced && w.body.startAt == Trunc(r.body.startAt)
      && Delivers(r.body.customer, w.body.customer) && Delivers(r.body.taskId, w.body.taskId)
      && Delivers(r.body.project, w.body.project) && Delivers(r.body.contract, w.body.contract)
      && (w.body.endAt.None? <==> r.body.endAt.None?) && (w.deletedAt.None? <==> r.deletedAt.None?)
      && w.updatedAt == Some(Trunc(r.updatedAt))
  {}
}
