/**
 * The chirps table as the handlers see it through the generated queries
 * `GetChirp`, `GetChirps`, `GetChirpByAuthor` and `DeleteChirp`. The SQL is
 * not part of this model: the table is a map from chirp id to row, and each
 * query takes the database's failure, if any, as an input.
 */
module Store {
  import opened Go

  /** A `uuid.UUID`, identified by a number; the 128-bit bound is not kept, since ids are only compared. */
  datatype Uuid = Uuid(value: nat)

  /**
   * A chirp row. The handlers copy `database.Chirp` field by field into a
   * response `Chirp` with the same five fields, so one type serves both.
   * Timestamps are instants as integers, so `Before`/`After` are `<`/`>`.
   */
  datatype Chirp = Chirp(id: Uuid, createdAt: int, updatedAt: int, userId: Uuid, body: string)

  const ErrNoRows := Error("sql: no rows in result set")

  /** Keeps a row when no author is asked for, or when it is that author's. */
  predicate ByAuthor(c: Chirp, author: Option<Uuid>) {
    author.None? || c.userId == author.value
  }

  /** The rows of `m` a listing query returns: all of them, or one author's. */
  ghost function Selection(m: map<Uuid, Chirp>, author: Option<Uuid>): set<Chirp> {
    set id | id in m && ByAuthor(m[id], author) :: m[id]
  }

  /** `GetChirp`: the row with that id; no row, or a failing database, is an error. */
  function Lookup(m: map<Uuid, Chirp>, id: Uuid, fault: Option<string>): (r: Result<Chirp>)
    ensures r.Ok? <==> fault.None? && id in m
    ensures r.Ok? ==> r.value == m[id]
    ensures fault.None? && id !in m ==> r == Failure(ErrNoRows)
    ensures fault.Some? ==> r == Failure(Error(fault.value))
  {
    if fault.Some? then Failure(Error(fault.value))
    else if id !in m then Failure(ErrNoRows)
    else Ok(m[id])
  }

  class ChirpStore {
    var chirps: map<Uuid, Chirp>

    /** Every row is stored under its own id. */
    ghost predicate Valid()
      reads this
    {
      forall id :: id in chirps ==> chirps[id].id == id
    }

    constructor (rows: map<Uuid, Chirp>)
      requires forall id :: id in rows ==> rows[id].id == id
      ensures Valid() && chirps == rows
    {
      chirps := rows;
    }

    /** `DeleteChirp`: removes the row with that id (if any) and nothing else. */
    method DeleteChirp(id: Uuid, fault: Option<string>) returns (err: Error)
      requires Valid()
      modifies this
      ensures Valid()
      ensures fault.None? ==> err == Nil && chirps == old(chirps) - {id}
      ensures fault.Some? ==> err == Error(fault.value) && chirps == old(chirps)
    {
      if fault.Some? {
        return Error(fault.value);
      }
      chirps := chirps - {id};
      err := Nil;
    }

    /**
     * The body of both listing queries: every selected row exactly once, in
     * an order the store chooses (the order the database returns is not part
     * of this model).
     */
    method Select(author: Option<Uuid>) returns (rows: seq<Chirp>)
      requires Valid()
      ensures multiset(rows) == multiset(Selection(chirps, author))
    {
      var pending := chirps.Keys;
      rows := [];
      while pending != {}
        invariant pending <= chirps.Keys
        invariant multiset(rows) == multiset(Picked(chirps, chirps.Keys - pending, author))
        decreases pending
      {
        var id :| id in pending;
        PickOne(chirps, chirps.Keys - pending, id, author);
        if ByAuthor(chirps[id], author) {
          rows := rows + [chirps[id]];
        }
        pending := pending - {id};
        assert chirps.Keys - pending == (chirps.Keys - (pending + {id})) + {id};
      }
      assert Picked(chirps, chirps.Keys, author) == Selection(chirps, author);
    }

    /** `GetChirps`: every row. */
    method GetChirps(fault: Option<string>) returns (rows: seq<Chirp>, err: Error)
      requires Valid()
      ensures fault.None? ==> err == Nil && multiset(rows) == multiset(Selection(chirps, None))
      ensures fault.Some? ==> err == Error(fault.value) && rows == []
    {
      if fault.Some? {
        return [], Error(fault.value);
      }
      rows := Select(None);
      err := Nil;
    }

    /** `GetChirpByAuthor`: the rows whose `userId` is `author`. */
    method GetChirpByAuthor(author: Uuid, fault: Option<string>) returns (rows: seq<Chirp>, err: Error)
      requires Valid()
      ensures fault.None? ==> err == Nil && multiset(rows) == multiset(Selection(chirps, Some(author)))
      ensures fault.Some? ==> err == Error(fault.value) && rows == []
    {
      if fault.Some? {
        return [], Error(fault.value);
      }
      rows := Select(Some(author));
      err := Nil;
    }
  }

  /** The selected rows among the keys in `done`. */
  ghost function Picked(m: map<Uuid, Chirp>, done: set<Uuid>, author: Option<Uuid>): set<Chirp> {
    set id | id in done && id in m && ByAuthor(m[id], author) :: m[id]
  }

  /** Visiting one more key adds its row, if selected, and that row was not yet there. */
  lemma PickOne(m: map<Uuid, Chirp>, done: set<Uuid>, id: Uuid, author: Option<Uuid>)
    requires forall k :: k in m ==> m[k].id == k
    requires id in m && id !in done
    ensures multiset(Picked(m, done + {id}, author))
      == multiset(Picked(m, done, author)) + (if ByAuthor(m[id], author) then multiset{m[id]} else multiset{})
  {
    var before, after := Picked(m, done, author), Picked(m, done + {id}, author);
    if ByAuthor(m[id], author) {
      assert after == before + {m[id]};
      assert m[id] !in before;
    } else {
      assert after == before;
    }
  }

  /** Every row a listing selects is a stored row, and the author filter holds of it. */
  lemma SelectionMembers(m: map<Uuid, Chirp>, author: Option<Uuid>, c: Chirp)
    ensures c in Selection(m, author) <==> c in m.Values && ByAuthor(c, author)
  {
    if c in m.Values {
      var id :| id in m && m[id] == c;
      assert ByAuthor(c, author) ==> c in Selection(m, author);
    }
  }
}
