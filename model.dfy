/** The stored rows of `src/model.py`: accounts and the forums ("tieba") each
    account follows. Dates are day numbers; the `Log` table is not modelled. */
module Model {
  import opened Common

  type AccountId = int

  /** A calendar day, counted in days. */
  type Date = int

  /** `Account`: the implicit primary key `id` and the declared columns. */
  datatype Account = Account(
    id: AccountId,
    name: string,
    cookie: string,
    paused: bool,
    lastFetchListDate: Option<Date>)

  /** The composite primary key `(account, name)` of `Tieba`. */
  datatype TiebaKey = TiebaKey(account: AccountId, name: string)

  /** The non-key columns of a `Tieba` row. */
  datatype Tieba = Tieba(paused: bool, cancelled: bool, lastSignDate: Option<Date>)

  /** A table of forum rows, keyed as the database keys them. */
  type TiebaTable = map<TiebaKey, Tieba>

  /** The rows of one account (`Tieba.select().where(Tieba.account == account)`). */
  function RowsOf(t: TiebaTable, a: AccountId): (r: TiebaTable)
    ensures forall k :: k in r <==> k in t && k.account == a
    ensures forall k :: k in r ==> r[k] == t[k]
  {
    map k | k in t && k.account == a :: t[k]
  }
}
