/**
 * The bot's two SQLite tables, `users` and `generations`, as in-memory
 * state, with the helper functions that read and write them. Each helper
 * is one short transaction; timestamps (`datetime.utcnow()` in the bot)
 * are given as integer parameters.
 */
module Tables {
  import opened Wrappers

  /** A row of `users`, keyed by the Telegram user id. */
  datatype UserRow = UserRow(username: string, balance: int, totalGenerations: int, lastActive: int)

  /** A row of `generations`. Row ids are the positions in the table, which
      is only ever appended to. */
  datatype Generation = Generation(userId: int, prompt: string, kind: string, resultUrl: string, createdAt: int)

  /** Column defaults of `users`: a new user has no credit and no generations. */
  const DefaultBalance := 0
  const DefaultTotalGenerations := 0

  /** The number of rows of `gs` that belong to `userId`. */
  function RowsOf(gs: seq<Generation>, userId: int): (n: nat)
    ensures n <= |gs|
  {
    if gs == [] then 0
    else RowsOf(gs[..|gs| - 1], userId) + (if gs[|gs| - 1].userId == userId then 1 else 0)
  }

  /** Appending a row adds one to its owner's row count and nothing to anyone else's. */
  lemma RowsOfAppend(gs: seq<Generation>, g: Generation, userId: int)
    ensures RowsOf(gs + [g], userId) == RowsOf(gs, userId) + (if g.userId == userId then 1 else 0)
  {
    assert (gs + [g])[..|gs|] == gs;
  }

  /** A user's `total_generations` starts at zero and grows only with a row
      of that user, so it never exceeds the user's rows (rows logged before
      the user existed are not counted). */
  ghost predicate Consistent(users: map<int, UserRow>, generations: seq<Generation>) {
    forall uid :: uid in users ==> 0 <= users[uid].totalGenerations <= RowsOf(generations, uid)
  }

  class Database {
    var users: map<int, UserRow>
    var generations: seq<Generation>

    ghost predicate Valid()
      reads this
    {
      Consistent(users, generations)
    }

    /** `init_db` on a fresh database file: both tables exist and are empty.
        On an existing file `CREATE TABLE IF NOT EXISTS` keeps its rows; the
        methods below accept any database that satisfies `Valid()`, so they
        cover that case too. */
    constructor ()
      ensures Valid()
      ensures users == map[] && generations == []
    {
      users := map[];
      generations := [];
    }

    /** `_get_user_sync`: the user's row, if there is one. */
    function GetUser(userId: int): (r: Option<UserRow>)
      reads this
      ensures r.Some? <==> userId in users
      ensures r.Some? ==> r.value == users[userId]
    {
      if userId in users then Some(users[userId]) else None
    }

    /** `_create_user_sync`: `INSERT OR IGNORE`. An existing row is left as
        it is; a new row gets the column defaults. */
    method CreateUser(userId: int, username: string, now: int)
      requires Valid()
      modifies this
      ensures Valid()
      ensures generations == old(generations)
      ensures users == if userId in old(users) then old(users)
                       else old(users)[userId := UserRow(username, DefaultBalance, DefaultTotalGenerations, now)]
    {
      if userId !in users {
        users := users[userId := UserRow(username, DefaultBalance, DefaultTotalGenerations, now)];
      }
    }

    /** `_update_last_active_sync`: touches an existing row only. */
    method UpdateLastActive(userId: int, now: int)
      requires Valid()
      modifies this
      ensures Valid()
      ensures generations == old(generations)
      ensures users == if userId in old(users) then old(users)[userId := old(users)[userId].(lastActive := now)]
                       else old(users)
    {
      if userId in users {
        users := users[userId := users[userId].(lastActive := now)];
      }
    }

    /** `_adjust_balance_sync`: `balance = balance + delta`, then the new
        balance is read back; `None` when there is no such user, in which
        case nothing changes. */
    method AdjustBalance(userId: int, delta: int) returns (newBalance: Option<int>)
      requires Valid()
      modifies this
      ensures Valid()
      ensures generations == old(generations)
      ensures userId in old(users) ==>
        && newBalance == Some(old(users)[userId].balance + delta)
        && users == old(users)[userId := old(users)[userId].(balance := old(users)[userId].balance + delta)]
      ensures userId !in old(users) ==> newBalance == None && users == old(users)
    {
      if userId in users {
        var row := users[userId];
        users := users[userId := row.(balance := row.balance + delta)];
      }
      newBalance := if userId in users then Some(users[userId].balance) else None;
    }

    /** `_log_generation_sync`: appends one row and bumps the owner's counter.
        Foreign keys are not enforced on the helper's connection, so a row
        for an unknown user is still inserted, and no counter moves. */
    method LogGeneration(userId: int, prompt: string, kind: string, resultUrl: string, now: int)
      requires Valid()
      modifies this
      ensures Valid()
      ensures generations == old(generations) + [Generation(userId, prompt, kind, resultUrl, now)]
      ensures users == if userId in old(users)
                       then old(users)[userId := old(users)[userId].(totalGenerations := old(users)[userId].totalGenerations + 1, lastActive := now)]
                       else old(users)
    {
      var g := Generation(userId, prompt, kind, resultUrl, now);
      forall uid | uid in users ensures RowsOf(generations + [g], uid) == RowsOf(generations, uid) + (if uid == userId then 1 else 0) {
        RowsOfAppend(generations, g, uid);
      }
      generations := generations + [g];
      if userId in users {
        var row := users[userId];
        users := users[userId := row.(totalGenerations := row.totalGenerations + 1, lastActive := now)];
      }
    }
  }
}
