/** The storage port the registration use case depends on, implemented
    in memory: person rows keyed by id, a schema that must be created
    before rows can be touched, and a backing store that may be
    unreachable, in which case every operation fails. */
module Repository {

  import opened Wrappers
  import opened Domain

  datatype StorageError =
    | ConnectionFailed     // the backing store cannot be reached
    | MissingSchema        // the person table has not been created yet
    | DuplicateKey(id: int) // an insert would overwrite a stored row

  /** A database state as storage can leave it: every row sits under its
      own id, and there are no rows without a table. */
  ghost predicate Consistent(schemaReady: bool, rows: map<int, Person>)
  {
    (forall k :: k in rows ==> rows[k].id == k) &&
    (!schemaReady ==> rows == map[])
  }

  class RegistryRepository {
    /** Whether the backing store can be reached at all. */
    const reachable: bool
    /** Whether `InitSchema` has created the person table. */
    var schemaReady: bool
    /** The stored rows, keyed by person id. */
    var rows: map<int, Person>

    /** The repository's view of the database is a consistent one. */
    ghost predicate Valid()
      reads this
    {
      Consistent(schemaReady, rows)
    }

    /** Whether the rows can be used: the store must be reachable and the
        table created. */
    function Health(): (h: Outcome<StorageError>)
      reads this
      ensures h == Pass <==> reachable && schemaReady
      ensures h == Fail(ConnectionFailed) <==> !reachable
      ensures h == Fail(MissingSchema) <==> reachable && !schemaReady
    {
      if !reachable then Fail(ConnectionFailed)
      else if !schemaReady then Fail(MissingSchema)
      else Pass
    }

    /** Opens a repository on a database that lives on beyond any one
        repository: it may already hold the table and rows stored earlier. */
    constructor (reachable: bool, schemaReady: bool, rows: map<int, Person>)
      requires Consistent(schemaReady, rows)
      ensures Valid()
      ensures this.reachable == reachable && this.schemaReady == schemaReady && this.rows == rows
    {
      this.reachable := reachable;
      this.schemaReady := schemaReady;
      this.rows := rows;
    }

    /** Creates the table if it is not there yet; idempotent, and it keeps
        any rows already stored. Fails only when the store is unreachable. */
    method InitSchema() returns (o: Outcome<StorageError>)
      requires Valid()
      modifies this
      ensures Valid()
      ensures o == if reachable then Pass else Fail(ConnectionFailed)
      ensures schemaReady == (old(schemaReady) || reachable)
      ensures rows == old(rows)
    {
      if !reachable {
        return Fail(ConnectionFailed);
      }
      schemaReady := true;
      o := Pass;
    }

    /** Removes every row. */
    method DeleteAll() returns (o: Outcome<StorageError>)
      requires Valid()
      modifies this`rows
      ensures Valid()
      ensures o == old(Health())
      ensures rows == if o == Pass then map[] else old(rows)
    {
      o := Health();
      if o == Pass {
        rows := map[];
      }
    }

    /** Whether a row is stored under `id`. An absent id is `false`, not an error. */
    method ExistsById(id: int) returns (r: Result<bool, StorageError>)
      ensures Health().Fail? ==> r == Failure(Health().error)
      ensures Health() == Pass ==> r == Success(id in rows)
    {
      var h := Health();
      if h.Fail? {
        return Failure(h.error);
      }
      r := Success(id in rows);
    }

    /** Stores `p` under its id. Refuses to overwrite a stored row. */
    method Insert(p: Person) returns (o: Outcome<StorageError>)
      requires Valid()
      modifies this`rows
      ensures Valid()
      ensures old(Health()).Fail? ==> o == old(Health())
      ensures old(Health()) == Pass ==>
                o == if p.id in old(rows) then Fail(DuplicateKey(p.id)) else Pass
      ensures rows == if o == Pass then old(rows)[p.id := p] else old(rows)
    {
      o := Health();
      if o == Pass {
        if p.id in rows {
          o := Fail(DuplicateKey(p.id));
        } else {
          rows := rows[p.id := p];
        }
      }
    }
  }
}
