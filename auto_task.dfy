/** `src/auto_task.py`: the operator pool, the daily refresh of each
    account's forum list, the daily sign run and the retry loop around both.
    The database tables are in-memory values (`Model`), the clock is a
    parameter (`today`), and an operator's view of the site is the function
    `session(cookie)`. */
module AutoTask {
  import opened Common
  import opened Model
  import opened Operator

  // ---------------------------------------------------------------------
  // Reconciling the forum list (`do_fetch_list_task`).

  /** The row `do_fetch_list_task` inserts for a newly followed forum. */
  const FRESH_ROW := Tieba(false, false, None)

  /** The row stored under `k`, if any (`Tieba.get`). */
  function Lookup(t: TiebaTable, k: TiebaKey): (r: Option<Tieba>)
    ensures r.Some? <==> k in t
    ensures r.Some? ==> r.value == t[k]
  {
    if k in t then Some(t[k]) else None
  }

  /** The first loop's body: a row that is not paused becomes cancelled. */
  function Cancel(row: Tieba): Tieba {
    if row.paused then row else row.(cancelled := true)
  }

  /** The first loop: every row of account `a` goes through `Cancel`. */
  function CancelAll(t: TiebaTable, a: AccountId): (r: TiebaTable)
    ensures r.Keys == t.Keys
  {
    map k | k in t :: if k.account == a then Cancel(t[k]) else t[k]
  }

  /** The second loop's body for one fetched name: the existing row is
      un-cancelled unless it is paused, a missing row is inserted fresh. */
  function Restore(t: TiebaTable, k: TiebaKey): TiebaTable {
    if k !in t then t[k := FRESH_ROW]
    else if t[k].paused then t
    else t[k := t[k].(cancelled := false)]
  }

  /** The second loop run over `names`, first name first. */
  function RestoreAll(t: TiebaTable, a: AccountId, names: seq<string>): TiebaTable
    decreases |names|
  {
    if names == [] then t
    else Restore(RestoreAll(t, a, names[..|names| - 1]), TiebaKey(a, names[|names| - 1]))
  }

  /** The table after both loops of `do_fetch_list_task`. */
  function Reconciled(t: TiebaTable, a: AccountId, names: seq<string>): TiebaTable {
    RestoreAll(CancelAll(t, a), a, names)
  }

  /** The reference definition, one key at a time: what a key of the
      refreshed account holds afterwards, given what it held before and
      whether its name was fetched. */
  function RowAfterFetch(before: Option<Tieba>, listed: bool): Option<Tieba> {
    match before
    case None => if listed then Some(FRESH_ROW) else None
    case Some(row) => Some(if row.paused then row else row.(cancelled := !listed))
  }

  /** The two loops agree with the reference definition at every key. */
  lemma {:induction false} RestoreAllAt(t: TiebaTable, a: AccountId, names: seq<string>, k: TiebaKey)
    ensures Lookup(RestoreAll(CancelAll(t, a), a, names), k) ==
      if k.account == a then RowAfterFetch(Lookup(t, k), k.name in names) else Lookup(t, k)
    decreases |names|
  {
    if names != [] {
      var init := names[..|names| - 1];
      var n := names[|names| - 1];
      RestoreAllAt(t, a, init, k);
      assert names == init + [n];
      assert k.name in names <==> k.name in init || k.name == n;
    }
  }

  /** `do_fetch_list_task` as a whole: rows of other accounts are kept, and
      each key of the account holds what `RowAfterFetch` says. */
  lemma ReconciledRows(t: TiebaTable, a: AccountId, names: seq<string>)
    ensures forall k ::
      Lookup(Reconciled(t, a, names), k) == (if k.account == a then RowAfterFetch(Lookup(t, k), k.name in names) else Lookup(t, k))
  {
    forall k {
      RestoreAllAt(t, a, names, k);
    }
  }

  /** Paused rows are never modified. */
  lemma ReconcileKeepsPaused(t: TiebaTable, a: AccountId, names: seq<string>)
    ensures forall k :: k in t && t[k].paused ==>
      k in Reconciled(t, a, names) && Reconciled(t, a, names)[k] == t[k]
  {
    ReconciledRows(t, a, names);
  }

  /** A row of the account that is not paused ends cancelled exactly when
      its name was not fetched; nothing else about it changes. */
  lemma ReconcileCancelled(t: TiebaTable, a: AccountId, names: seq<string>)
    ensures forall k :: k in t && k.account == a && !t[k].paused ==>
      && k in Reconciled(t, a, names)
      && Reconciled(t, a, names)[k] == t[k].(cancelled := k.name !in names)
  {
    ReconciledRows(t, a, names);
  }

  /** Every fetched name without a row gets a fresh row: not paused, not
      cancelled, never signed. */
  lemma ReconcileInserts(t: TiebaTable, a: AccountId, names: seq<string>)
    ensures forall n :: n in names && TiebaKey(a, n) !in t ==>
      && TiebaKey(a, n) in Reconciled(t, a, names)
      && Reconciled(t, a, names)[TiebaKey(a, n)] == FRESH_ROW
  {
    ReconciledRows(t, a, names);
  }

  /** Rows of other accounts are untouched: each other account's selection
      of rows is the same before and after. */
  lemma ReconcileOtherAccounts(t: TiebaTable, a: AccountId, names: seq<string>)
    ensures forall k: TiebaKey :: k.account != a ==> Lookup(Reconciled(t, a, names), k) == Lookup(t, k)
    ensures forall b :: b != a ==> RowsOf(Reconciled(t, a, names), b) == RowsOf(t, b)
  {
    ReconciledRows(t, a, names);
    var r := Reconciled(t, a, names);
    forall b | b != a ensures RowsOf(r, b) == RowsOf(t, b) {
      forall k: TiebaKey | k.account == b ensures (k in r <==> k in t) && (k in r ==> r[k] == t[k]) {
        assert Lookup(r, k) == Lookup(t, k);
      }
    }
  }

  /** No row is deleted; the rows added are those of the fetched names. */
  lemma ReconcileKeys(t: TiebaTable, a: AccountId, names: seq<string>)
    ensures Reconciled(t, a, names).Keys == t.Keys + (set n | n in names :: TiebaKey(a, n))
  {
    ReconciledRows(t, a, names);
    var r := Reconciled(t, a, names);
    forall k | k in r
      ensures k in t || (k.account == a && k.name in names)
    {
      assert Lookup(r, k).Some?;
    }
    forall n | n in names
      ensures TiebaKey(a, n) in r
    {
      assert Lookup(r, TiebaKey(a, n)).Some?;
    }
  }

  /** Two tables that agree at every key are equal. */
  lemma TablesEqual(t1: TiebaTable, t2: TiebaTable)
    requires forall k :: Lookup(t1, k) == Lookup(t2, k)
    ensures t1 == t2
  {
    assert t1.Keys == t2.Keys by {
      forall k ensures k in t1 <==> k in t2 {
        assert Lookup(t1, k).Some? == Lookup(t2, k).Some?;
      }
    }
    forall k | k in t1 ensures t1[k] == t2[k] {
      assert Lookup(t1, k) == Lookup(t2, k);
    }
  }

  /** Refreshing twice with the same list is refreshing once. */
  lemma ReconcileIdempotent(t: TiebaTable, a: AccountId, names: seq<string>)
    ensures Reconciled(Reconciled(t, a, names), a, names) == Reconciled(t, a, names)
  {
    var once := Reconciled(t, a, names);
    ReconciledRows(t, a, names);
    ReconciledRows(once, a, names);
    TablesEqual(Reconciled(once, a, names), once);
  }

  /** Only the set of fetched names matters, not their order or repetitions. */
  lemma ReconcileOrderFree(t: TiebaTable, a: AccountId, names1: seq<string>, names2: seq<string>)
    requires forall n :: n in names1 <==> n in names2
    ensures Reconciled(t, a, names1) == Reconciled(t, a, names2)
  {
    ReconciledRows(t, a, names1);
    ReconciledRows(t, a, names2);
    TablesEqual(Reconciled(t, a, names1), Reconciled(t, a, names2));
  }

  // ---------------------------------------------------------------------
  // The daily selections.

  /** `fetch_list_task`'s test: not paused, and never refreshed or last
      refreshed before today. */
  predicate NeedsListRefresh(account: Account, today: Date) {
    !account.paused && (account.lastFetchListDate.None? || today > account.lastFetchListDate.value)
  }

  /** The account row after `do_fetch_list_task`. */
  function Refreshed(account: Account, today: Date): Account {
    account.(lastFetchListDate := Some(today))
  }

  /** A refreshed account is not refreshed again the same day, and is
      refreshed on any later day unless paused. */
  lemma RefreshOncePerDay(account: Account, today: Date, later: Date)
    requires NeedsListRefresh(account, today)
    ensures !NeedsListRefresh(Refreshed(account, today), today)
    ensures NeedsListRefresh(Refreshed(account, today), later) <==> later > today
  {
  }

  /** The forums `sign_task` selects: not paused, not cancelled, and never
      signed or last signed before today. */
  predicate NeedsSign(row: Tieba, today: Date) {
    !row.paused && !row.cancelled && (row.lastSignDate.None? || row.lastSignDate.value < today)
  }

  /** The rows of account `a` that `sign_task` signs. */
  function SignSelection(t: TiebaTable, a: AccountId, today: Date): (s: set<TiebaKey>)
    ensures forall k :: k in s <==> k in t && k.account == a && NeedsSign(t[k], today)
  {
    set k | k in t && k.account == a && NeedsSign(t[k], today)
  }

  /** A row after its sign attempt: the date is set on `success` or
      `already_signed`; on `failed` or an exception the row is unchanged. */
  function RowAfterSign(row: Tieba, outcome: Result<SignResult, PyError>, today: Date): Tieba {
    if outcome == Ok(Success) || outcome == Ok(AlreadySigned) then row.(lastSignDate := Some(today)) else row
  }

  /** Signing touches only the date, clears the row from today's selection
      exactly when the attempt succeeded or found the forum signed, and a
      row of a later day is selected again. */
  lemma SignOncePerDay(row: Tieba, outcome: Result<SignResult, PyError>, today: Date, later: Date)
    requires NeedsSign(row, today)
    ensures RowAfterSign(row, outcome, today).paused == row.paused
    ensures RowAfterSign(row, outcome, today).cancelled == row.cancelled
    ensures !NeedsSign(RowAfterSign(row, outcome, today), today) <==>
      outcome == Ok(Success) || outcome == Ok(AlreadySigned)
    ensures later > today ==> NeedsSign(RowAfterSign(row, outcome, today), later)
  {
  }

  // ---------------------------------------------------------------------
  // The tables, the pool and the tasks over them.

  /** Every operator pooled before is still pooled under the same id. */
  predicate PoolGrows(before: map<AccountId, TiebaOperator>, after: map<AccountId, TiebaOperator>) {
    forall a :: a in before ==> a in after && after[a] == before[a]
  }

  /** `names` is the favourites list the site gives through `web`. */
  ghost predicate ListedNames(web: Request -> string, names: seq<string>) {
    exists last :: LastPage(web, last) && names == NamesUpTo(web, last)
  }

  /** The account with id `a` is in the table and not paused. */
  predicate ActiveAccount(accounts: seq<Account>, a: AccountId) {
    exists j :: 0 <= j < |accounts| && accounts[j].id == a && !accounts[j].paused
  }

  /** An account row after `fetch_list_task`. */
  function AfterListTask(account: Account, today: Date): Account {
    if NeedsListRefresh(account, today) then Refreshed(account, today) else account
  }

  /** The row under `k` after the accounts in `fetched` were each
      reconciled with their fetched list. */
  function RowAfterFetches(t: TiebaTable, fetched: map<AccountId, seq<string>>, k: TiebaKey): Option<Tieba> {
    if k.account in fetched then RowAfterFetch(Lookup(t, k), k.name in fetched[k.account]) else Lookup(t, k)
  }

  /** The account table while `fetch_list_task` runs: the first `i` rows
      have had their turn. */
  function AccountsAfter(accounts: seq<Account>, today: Date, i: nat): (r: seq<Account>)
    ensures |r| == |accounts|
    ensures forall j :: 0 <= j < |r| ==> r[j].id == accounts[j].id && r[j].cookie == accounts[j].cookie
  {
    seq(|accounts|, j requires 0 <= j < |accounts| =>
      if j < i then AfterListTask(accounts[j], today) else accounts[j])
  }

  lemma AccountsAfterStep(accounts: seq<Account>, today: Date, i: nat)
    requires i < |accounts|
    ensures AccountsAfter(accounts, today, i)[i] == accounts[i]
    ensures AccountsAfter(accounts, today, i + 1)
      == AccountsAfter(accounts, today, i)[i := AfterListTask(accounts[i], today)]
  {
  }

  /** Some account in `accounts` with id `a` is due for a list refresh. */
  predicate DueAccount(accounts: seq<Account>, a: AccountId, today: Date) {
    exists j :: 0 <= j < |accounts| && accounts[j].id == a && NeedsListRefresh(accounts[j], today)
  }

  lemma DueAccountExtend(accounts: seq<Account>, i: nat, a: AccountId, today: Date)
    requires i < |accounts|
    ensures DueAccount(accounts[..i + 1], a, today) <==>
      DueAccount(accounts[..i], a, today) || (accounts[i].id == a && NeedsListRefresh(accounts[i], today))
  {
    var p := accounts[..i + 1];
    assert p[i] == accounts[i];
    if DueAccount(p, a, today) {
      var j :| 0 <= j < |p| && p[j].id == a && NeedsListRefresh(p[j], today);
      if j < i {
        assert accounts[..i][j] == p[j];
      }
    }
    if DueAccount(accounts[..i], a, today) {
      var j :| 0 <= j < i && accounts[..i][j].id == a && NeedsListRefresh(accounts[..i][j], today);
      assert p[j] == accounts[..i][j];
    }
  }

  lemma ActiveAccountExtend(accounts: seq<Account>, i: nat, a: AccountId)
    requires i < |accounts|
    ensures ActiveAccount(accounts[..i + 1], a) <==>
      ActiveAccount(accounts[..i], a) || (accounts[i].id == a && !accounts[i].paused)
  {
    var p := accounts[..i + 1];
    assert p[i] == accounts[i];
    if ActiveAccount(p, a) {
      var j :| 0 <= j < |p| && p[j].id == a && !p[j].paused;
      if j < i {
        assert accounts[..i][j] == p[j];
      }
    }
    if ActiveAccount(accounts[..i], a) {
      var j :| 0 <= j < i && accounts[..i][j].id == a && !accounts[..i][j].paused;
      assert p[j] == accounts[..i][j];
    }
  }

  class TaskContext {
    /** The site as seen through a session carrying the given cookie string. */
    const session: string -> (Request -> string)
    /** `html.unescape`, shared by every operator. */
    const unescape: string -> string
    /** `tieba_operator_pool`. */
    var pool: map<AccountId, TiebaOperator>
    /** The `Account` table, in the order `Account.select()` yields it. */
    var accounts: seq<Account>
    /** The `Tieba` table. */
    var tiebas: TiebaTable

    /** Every pooled operator is consistent, and account ids are unique. */
    ghost predicate Valid()
      reads this, pool.Values
    {
      && (forall a :: a in pool ==> pool[a].Valid())
      && (forall j1, j2 :: 0 <= j1 < j2 < |accounts| ==> accounts[j1].id != accounts[j2].id)
    }

    /** The site the account's operator sees: the pooled operator's, or
        the one `get_operator` would create. */
    ghost function OperatorSite(account: Account): Request -> string
      reads this, pool.Values
    {
      if account.id in pool then pool[account.id].web else session(account.cookie)
    }

    /** The favourites listing of every account from index `from` on that
        is due for a refresh on `today` ends, as its operator sees it. */
    ghost predicate DueListsEnd(today: Date, from: nat)
      reads this, pool.Values
    {
      forall j :: from <= j < |accounts| && NeedsListRefresh(accounts[j], today) ==> ListEnds(OperatorSite(accounts[j]))
    }

    constructor (session: string -> (Request -> string), unescape: string -> string,
                 accounts: seq<Account>, tiebas: TiebaTable)
      requires forall j1, j2 :: 0 <= j1 < j2 < |accounts| ==> accounts[j1].id != accounts[j2].id
      ensures Valid()
      ensures this.session == session && this.unescape == unescape
      ensures this.accounts == accounts && this.tiebas == tiebas && pool == map[]
    {
      this.session := session;
      this.unescape := unescape;
      this.accounts := accounts;
      this.tiebas := tiebas;
      pool := map[];
    }

    /** `get_operator`: the pooled operator of the account, created and
        pooled on first use. */
    method GetOperator(account: Account) returns (op: TiebaOperator)
      requires Valid()
      requires !account.paused
      modifies this
      ensures Valid()
      ensures account.id in pool && op == pool[account.id]
      ensures PoolGrows(old(pool), pool) && pool.Keys == old(pool).Keys + {account.id}
      ensures account.id in old(pool) ==> pool == old(pool)
      ensures account.id !in old(pool) ==>
        && fresh(op) && pool == old(pool)[account.id := op]
        && op.web == session(account.cookie) && op.unescape == unescape
        && op.signUrlPrefix == None && op.requests == []
      ensures forall o :: o in pool.Values ==> o in old(pool.Values) || fresh(o)
      ensures accounts == old(accounts) && tiebas == old(tiebas)
    {
      if account.id in pool {
        op := pool[account.id];
      } else {
        op := new TiebaOperator(session(account.cookie), unescape);
        pool := pool[account.id := op];
      }
    }

    /** The first loop of `do_fetch_list_task`: every row of account `a`
        that is not paused is marked cancelled. */
    method CancelRows(a: AccountId)
      modifies this
      ensures tiebas == CancelAll(old(tiebas), a)
      ensures pool == old(pool) && accounts == old(accounts)
    {
      var rows := set k | k in tiebas && k.account == a;
      while rows != {}
        invariant pool == old(pool) && accounts == old(accounts)
        invariant tiebas.Keys == old(tiebas).Keys
        invariant forall k :: k in tiebas ==>
          tiebas[k] == if k.account == a && k !in rows then Cancel(old(tiebas)[k]) else old(tiebas)[k]
        decreases rows
      {
        var k :| k in rows;
        if !tiebas[k].paused {
          tiebas := tiebas[k := tiebas[k].(cancelled := true)];
        }
        rows := rows - {k};
      }
    }

    /** The second loop of `do_fetch_list_task`: for each fetched name in
        turn, un-cancel its row unless paused, or insert a fresh one. */
    method RestoreRows(a: AccountId, names: seq<string>)
      modifies this
      ensures tiebas == RestoreAll(old(tiebas), a, names)
      ensures pool == old(pool) && accounts == old(accounts)
    {
      for j := 0 to |names|
        invariant pool == old(pool) && accounts == old(accounts)
        invariant tiebas == RestoreAll(old(tiebas), a, names[..j])
      {
        var key := TiebaKey(a, names[j]);
        if key in tiebas {
          if !tiebas[key].paused {
            tiebas := tiebas[key := tiebas[key].(cancelled := false)];
          }
        } else {
          tiebas := tiebas[key := FRESH_ROW];
        }
        assert names[..j + 1][..j] == names[..j];
      }
      assert names[..|names|] == names;
    }

    /** The body of `do_fetch_list_task` once the operator `op` of account
        `a` is at hand: cancel the account's rows, read its favourites list
        through `op`, restore the rows listed. */
    method ReconcileWith(op: TiebaOperator, a: AccountId) returns (names: seq<string>)
      requires ListEnds(op.web)
      modifies this, op
      ensures pool == old(pool) && accounts == old(accounts)
      ensures op.signUrlPrefix == old(op.signUrlPrefix)
      ensures ListedNames(op.web, names)
      ensures tiebas == Reconciled(old(tiebas), a, names)
      ensures forall k ::
        Lookup(tiebas, k)
          == (if k.account == a then RowAfterFetch(Lookup(old(tiebas), k), k.name in names)
              else Lookup(old(tiebas), k))
    {
      CancelRows(a);
      names := op.FetchFavoriteTiebaList();
      RestoreRows(a, names);
      ReconciledRows(old(tiebas), a, names);
    }

    /** `do_fetch_list_task(accounts[i])`: cancel the account's rows that
        are not paused, fetch the favourites list, restore or insert a row
        per fetched name, and stamp the account with today. */
    method DoFetchListTask(i: nat, today: Date) returns (ghost fetched: seq<string>)
      requires Valid()
      requires i < |accounts| && !accounts[i].paused
      requires ListEnds(OperatorSite(accounts[i]))
      modifies this, pool.Values
      ensures Valid()
      ensures accounts == old(accounts)[i := Refreshed(old(accounts)[i], today)]
      ensures PoolGrows(old(pool), pool) && pool.Keys == old(pool).Keys + {accounts[i].id}
      ensures forall o :: o in pool.Values ==> o in old(pool.Values) || fresh(o)
      ensures old(DueListsEnd(today, i + 1)) ==> DueListsEnd(today, i + 1)
      ensures ListedNames(pool[accounts[i].id].web, fetched)
      ensures tiebas == Reconciled(old(tiebas), accounts[i].id, fetched)
      ensures forall k ::
        Lookup(tiebas, k)
          == (if k.account == accounts[i].id then RowAfterFetch(Lookup(old(tiebas), k), k.name in fetched)
              else Lookup(old(tiebas), k))
    {
      var account := accounts[i];
      var op := GetOperator(account);
      label pooled:
      fetched := ReconcileWith(op, account.id);
      forall a | a in pool ensures pool[a].Valid() {
        if pool[a] != op {
          assert pool[a].signUrlPrefix == old@pooled(pool[a].signUrlPrefix);
        }
      }
      accounts := accounts[i := Refreshed(account, today)];
      if old(DueListsEnd(today, i + 1)) {
        forall j | i + 1 <= j < |accounts| && NeedsListRefresh(accounts[j], today)
          ensures ListEnds(OperatorSite(accounts[j]))
        {
          assert old(ListEnds(OperatorSite(accounts[j])));
          assert accounts[j].id != account.id;
        }
      }
    }

    /** One turn of `fetch_list_task`'s loop: `do_fetch_list_task` on
        `accounts[i]` when it is due. `fetched` holds the lists read so far
        and `t0` the table before the run. */
    method RefreshIfDue(i: nat, today: Date, ghost t0: TiebaTable, ghost fetched: map<AccountId, seq<string>>)
      returns (ghost fetched': map<AccountId, seq<string>>)
      requires Valid() && DueListsEnd(today, i) && i < |accounts|
      requires accounts[i].id !in fetched
      requires forall a :: a in fetched ==> a in pool && ListedNames(pool[a].web, fetched[a])
      requires forall k :: Lookup(tiebas, k) == RowAfterFetches(t0, fetched, k)
      modifies this, pool.Values
      ensures Valid() && DueListsEnd(today, i + 1) && PoolGrows(old(pool), pool)
      ensures forall o :: o in pool.Values ==> o in old(pool.Values) || fresh(o)
      ensures accounts == old(accounts)[i := AfterListTask(old(accounts)[i], today)]
      ensures forall a :: a in fetched' <==>
        a in fetched || (a == old(accounts)[i].id && NeedsListRefresh(old(accounts)[i], today))
      ensures forall a :: a in fetched' ==> a in pool && ListedNames(pool[a].web, fetched'[a])
      ensures forall k :: Lookup(tiebas, k) == RowAfterFetches(t0, fetched', k)
    {
      fetched' := fetched;
      var account := accounts[i];
      if NeedsListRefresh(account, today) {
        ghost var before := tiebas;
        ghost var names := DoFetchListTask(i, today);
        fetched' := fetched[account.id := names];
        forall k ensures Lookup(tiebas, k) == RowAfterFetches(t0, fetched', k) {
          if k.account == account.id {
            assert Lookup(before, k) == Lookup(t0, k);
          } else {
            assert Lookup(before, k) == RowAfterFetches(t0, fetched, k);
          }
        }
      }
    }

    /** `fetch_list_task`: every account due for a refresh, in table order,
        goes through `do_fetch_list_task`; `fetched` records the list each
        one's operator read. */
    method FetchListTask(today: Date) returns (ghost fetched: map<AccountId, seq<string>>)
      requires Valid()
      requires DueListsEnd(today, 0)
      modifies this, pool.Values
      ensures Valid()
      ensures PoolGrows(old(pool), pool)
      ensures |accounts| == |old(accounts)|
      ensures accounts == AccountsAfter(old(accounts), today, |old(accounts)|)
      ensures forall a :: a in fetched <==> DueAccount(old(accounts), a, today)
      ensures forall a :: a in fetched ==> a in pool && ListedNames(pool[a].web, fetched[a])
      ensures forall k :: Lookup(tiebas, k) == RowAfterFetches(old(tiebas), fetched, k)
    {
      fetched := map[];
      for i := 0 to |accounts|
        invariant Valid() && PoolGrows(old(pool), pool)
        invariant forall o :: o in pool.Values ==> o in old(pool.Values) || fresh(o)
        invariant |accounts| == |old(accounts)|
        invariant DueListsEnd(today, i)
        invariant accounts == AccountsAfter(old(accounts), today, i)
        invariant forall a :: a in fetched <==> DueAccount(old(accounts)[..i], a, today)
        invariant forall a :: a in fetched ==> a in pool && ListedNames(pool[a].web, fetched[a])
        invariant forall k :: Lookup(tiebas, k) == RowAfterFetches(old(tiebas), fetched, k)
      {
        var account := accounts[i];
        assert account == old(accounts)[i];
        AccountsAfterStep(old(accounts), today, i);
        fetched := RefreshIfDue(i, today, old(tiebas), fetched);
        forall a ensures DueAccount(old(accounts)[..i + 1], a, today) <==>
          DueAccount(old(accounts)[..i], a, today) || (account.id == a && NeedsListRefresh(account, today))
        {
          DueAccountExtend(old(accounts), i, a, today);
        }
      }
      assert old(accounts)[..|accounts|] == old(accounts);
    }

    /** The row under `k` is as `before` had it, or is `before`'s row after
        a sign attempt by its account's pooled operator. */
    ghost predicate SignedOrKept(before: TiebaTable, k: TiebaKey, today: Date)
      reads this
      requires k in tiebas && k in before
    {
      || tiebas[k] == before[k]
      || (k.account in pool && NeedsSign(before[k], today) && tiebas[k] == SignedRow(before[k], k, today))
    }

    /** `row` after its account's pooled operator signs forum `k.name`. */
    ghost function SignedRow(row: Tieba, k: TiebaKey, today: Date): Tieba
      reads this
      requires k.account in pool
    {
      RowAfterSign(row, pool[k.account].SignOutcome(k.name), today)
    }

    /** One account's turn in `sign_task`: sign every selected forum with
        the account's operator, stamping the row after `success` or
        `already_signed`; an exception from `sign_tieba` ends the run. */
    method SignAccount(i: nat, today: Date) returns (r: Outcome<PyError>)
      requires Valid()
      requires i < |accounts| && !accounts[i].paused
      modifies this, pool.Values
      ensures Valid()
      ensures accounts == old(accounts)
      ensures PoolGrows(old(pool), pool) && pool.Keys == old(pool).Keys + {accounts[i].id}
      ensures forall o :: o in pool.Values ==> o in old(pool.Values) || fresh(o)
      ensures tiebas.Keys == old(tiebas).Keys
      ensures forall k :: k in tiebas && k.account != accounts[i].id ==> tiebas[k] == old(tiebas)[k]
      ensures forall k :: k in tiebas ==> SignedOrKept(old(tiebas), k, today)
      ensures r.Pass? ==> forall k :: k in tiebas ==>
        tiebas[k] == (if k in SignSelection(old(tiebas), accounts[i].id, today)
                      then SignedRow(old(tiebas)[k], k, today) else old(tiebas)[k])
      ensures r.Pass? ==> forall k :: k in SignSelection(old(tiebas), accounts[i].id, today) ==>
        pool[k.account].SignOutcome(k.name).Ok?
      ensures r.Fail? ==> exists k ::
        k in SignSelection(old(tiebas), accounts[i].id, today)
          && pool[k.account].SignOutcome(k.name) == Err(r.error)
    {
      var account := accounts[i];
      var op := GetOperator(account);
      label pooled:
      var needSignList := SignSelection(tiebas, account.id, today);
      r := SignRows(op, needSignList, today);
      forall a | a in pool ensures pool[a].Valid() {
        if pool[a] != op {
          assert pool[a].signUrlPrefix == old@pooled(pool[a].signUrlPrefix);
        }
      }
    }

    /** One forum of `need_sign_list`, inside its transaction: sign it and
        stamp its row after `success` or `already_signed`. */
    method SignOne(op: TiebaOperator, k: TiebaKey, today: Date) returns (result: Result<SignResult, PyError>)
      requires op.Valid() && k in tiebas
      modifies this, op
      ensures op.Valid()
      ensures pool == old(pool) && accounts == old(accounts)
      ensures result == op.SignOutcome(k.name)
      ensures tiebas == old(tiebas)[k := RowAfterSign(old(tiebas)[k], result, today)]
    {
      result := op.SignTieba(k.name);
      if result == Ok(Success) || result == Ok(AlreadySigned) {
        tiebas := tiebas[k := tiebas[k].(lastSignDate := Some(today))];
      }
    }

    /** The loop over `need_sign_list`, in whatever order the query yields
        it: sign each forum, stamp its row after `success` or
        `already_signed`, and stop at the first exception. */
    method SignRows(op: TiebaOperator, selected: set<TiebaKey>, today: Date) returns (r: Outcome<PyError>)
      requires op.Valid() && selected <= tiebas.Keys
      modifies this, op
      ensures op.Valid()
      ensures pool == old(pool) && accounts == old(accounts)
      ensures tiebas.Keys == old(tiebas).Keys
      ensures forall k :: k in tiebas ==>
        || tiebas[k] == old(tiebas)[k]
        || (k in selected && tiebas[k] == RowAfterSign(old(tiebas)[k], op.SignOutcome(k.name), today))
      ensures r.Pass? ==> forall k :: k in tiebas ==>
        tiebas[k] == (if k in selected then RowAfterSign(old(tiebas)[k], op.SignOutcome(k.name), today)
                      else old(tiebas)[k])
      ensures r.Pass? ==> forall k :: k in selected ==> op.SignOutcome(k.name).Ok?
      ensures r.Fail? ==> exists k :: k in selected && op.SignOutcome(k.name) == Err(r.error)
    {
      var todo := selected;
      while todo != {}
        invariant op.Valid() && pool == old(pool) && accounts == old(accounts)
        invariant todo <= selected
        invariant tiebas.Keys == old(tiebas).Keys
        invariant forall k :: k in tiebas ==>
          tiebas[k] == (if k in selected && k !in todo
                        then RowAfterSign(old(tiebas)[k], op.SignOutcome(k.name), today) else old(tiebas)[k])
        invariant forall k :: k in selected && k !in todo ==> op.SignOutcome(k.name).Ok?
        decreases todo
      {
        var k :| k in todo;
        var result := SignOne(op, k, today);
        if result.Err? {
          return Fail(result.error);
        }
        todo := todo - {k};
      }
      r := Pass;
    }

    /** `sign_task`: each account that is not paused, in table order, signs
        its selected forums; the first exception from `sign_tieba` ends the
        run, leaving the rows signed so far stamped. */
    method SignTask(today: Date) returns (r: Outcome<PyError>)
      requires Valid()
      modifies this, pool.Values
      ensures Valid()
      ensures accounts == old(accounts) && PoolGrows(old(pool), pool)
      ensures tiebas.Keys == old(tiebas).Keys
      ensures forall k :: k in tiebas ==> SignedOrKept(old(tiebas), k, today)
      ensures r.Pass? ==> forall a :: ActiveAccount(accounts, a) ==> a in pool
      ensures r.Pass? ==> forall k :: k in tiebas ==>
        tiebas[k] == (if ActiveAccount(accounts, k.account) && NeedsSign(old(tiebas)[k], today)
                      then SignedRow(old(tiebas)[k], k, today) else old(tiebas)[k])
    {
      for i := 0 to |accounts|
        invariant Valid() && accounts == old(accounts) && PoolGrows(old(pool), pool)
        invariant forall o :: o in pool.Values ==> o in old(pool.Values) || fresh(o)
        invariant tiebas.Keys == old(tiebas).Keys
        invariant forall a :: ActiveAccount(accounts[..i], a) ==> a in pool
        invariant forall k :: k in tiebas ==>
          tiebas[k] == (if ActiveAccount(accounts[..i], k.account) && NeedsSign(old(tiebas)[k], today)
                        then SignedRow(old(tiebas)[k], k, today) else old(tiebas)[k])
      {
        var account := accounts[i];
        forall a ensures ActiveAccount(accounts[..i + 1], a) <==>
          ActiveAccount(accounts[..i], a) || (account.id == a && !account.paused)
        {
          ActiveAccountExtend(accounts, i, a);
        }
        if !account.paused {
          ghost var before := tiebas;
          var signed := SignAccount(i, today);
          if signed.Fail? {
            return signed;
          }
        }
      }
      assert accounts[..|accounts|] == accounts;
      r := Pass;
    }
  }

  // ---------------------------------------------------------------------
  // `limit_retry`. The task is given by how each of its calls ends:
  // `attempt(j)` is the outcome of call number `j`, counting from 0. An
  // exception the task raises is caught; the log line of the handler
  // concatenates a `str` with the `int` counter, which raises `TypeError`
  // out of the handler and so out of `limit_retry`.

  /** `limit_retry(task, retry_limit)` as written: the task is called at most
      once, and a failing first call makes `limit_retry` raise `TypeError`. */
  method LimitRetry(attempt: nat -> Outcome<PyError>, retryLimit: int) returns (r: Outcome<PyError>, calls: nat)
    ensures calls == (if retryLimit <= 0 then 0 else 1)
    ensures r.Fail? <==> retryLimit > 0 && attempt(0).Fail?
    ensures r.Fail? ==> r.error == TypeError
  {
    var counter := 0;
    calls := 0;
    r := Pass;
    // `done`: the loop was left by `break` or by the exception of the handler
    var done := false;
    while counter < retryLimit && !done
      invariant !done ==> counter == 0 && calls == 0 && r == Pass
      invariant done ==> retryLimit > 0 && calls == 1 && (r.Fail? <==> attempt(0).Fail?) && (r.Fail? ==> r.error == TypeError)
      decreases 1 - calls
    {
      var outcome := attempt(calls);
      calls := calls + 1;
      if outcome.Pass? {
        done := true;
      } else {
        counter := counter + 1;
        // '...' + counter + '...': str + int
        r := Fail(TypeError);
        done := true;
      }
    }
  }

  /** The number of calls the intended retry loop makes once `counter`
      calls have failed: it stops at the first call that completes or
      when `limit` calls have been made. */
  function RetryCalls(attempt: nat -> Outcome<PyError>, limit: int, counter: nat): nat
    decreases limit - counter
  {
    if counter >= limit then 0
    else if attempt(counter).Pass? then 1
    else 1 + RetryCalls(attempt, limit, counter + 1)
  }

  /** What the intended loop promises: it makes no more than `limit` calls,
      none at all only when `limit <= 0`, every call but the last failed,
      and the last one completed unless the limit was reached. */
  lemma {:induction false} RetryCallsFacts(attempt: nat -> Outcome<PyError>, limit: int, counter: nat)
    requires counter <= limit
    ensures counter + RetryCalls(attempt, limit, counter) <= limit
    ensures RetryCalls(attempt, limit, counter) == 0 <==> counter == limit
    ensures forall j :: counter <= j < counter + RetryCalls(attempt, limit, counter) - 1 ==> attempt(j).Fail?
    ensures counter + RetryCalls(attempt, limit, counter) < limit ==>
      attempt(counter + RetryCalls(attempt, limit, counter) - 1).Pass?
    decreases limit - counter
  {
    if counter < limit && attempt(counter).Fail? {
      RetryCallsFacts(attempt, limit, counter + 1);
    }
  }

  /** `limit_retry` with the counter formatted by `str(counter)`: failures
      are retried until a call completes or `retryLimit` calls were made,
      and `limit_retry` itself always returns normally. */
  method LimitRetryIntended(attempt: nat -> Outcome<PyError>, retryLimit: int) returns (r: Outcome<PyError>, calls: nat)
    ensures r == Pass
    ensures calls == RetryCalls(attempt, retryLimit, 0)
  {
    var counter := 0;
    calls := 0;
    while counter < retryLimit
      invariant counter == calls
      invariant counter <= retryLimit || counter == 0
      invariant calls + RetryCalls(attempt, retryLimit, counter) == RetryCalls(attempt, retryLimit, 0)
      decreases retryLimit - counter
    {
      var outcome := attempt(calls);
      calls := calls + 1;
      if outcome.Pass? {
        break;
      }
      counter := counter + 1;
    }
    r := Pass;
  }

  /** The two differ as soon as the first call fails and a retry is allowed:
      the loop as written raises after one call where the intended one
      retries. */
  lemma RetryDiffers(attempt: nat -> Outcome<PyError>, retryLimit: int)
    requires retryLimit >= 2 && attempt(0).Fail?
    ensures RetryCalls(attempt, retryLimit, 0) >= 2
  {
    assert RetryCalls(attempt, retryLimit, 0) == 1 + RetryCalls(attempt, retryLimit, 1);
  }
}
