/** The registration use case: the decision applied to a store, first as
    functions over the stored rows (one call, then a sequence of calls on
    the same store), then as the `Registry` class that runs it against a
    `RegistryRepository`. */
module Registration {

  import opened Wrappers
  import opened Domain
  import opened Repository

  /** The result of one registration attempt on a reachable store with a
      schema, and the rows afterwards. */
  datatype Attempt = Attempt(result: RegisterResult, rows: map<int, Person>)

  /** One `registerVoter` call on `rows`: only a VALID outcome adds a row,
      exactly the person's own, and no stored row is ever replaced. */
  function Register(rows: map<int, Person>, p: Person): (a: Attempt)
    ensures a.result == Classify(p, p.id in rows)
    ensures a.rows.Keys == if a.result == VALID then rows.Keys + {p.id} else rows.Keys
    ensures forall k :: k in rows ==> a.rows[k] == rows[k]
    ensures a.result == VALID ==> p.id !in rows && a.rows[p.id] == p
  {
    var verdict := Classify(p, p.id in rows);
    if verdict == VALID then Attempt(VALID, rows[p.id := p]) else Attempt(verdict, rows)
  }

  /** The results of registering `ps` one after another, and the final rows. */
  datatype History = History(rows: map<int, Person>, results: seq<RegisterResult>)

  /** Consecutive `registerVoter` calls on one store. One result per
      attempt; the store only grows, and what it held stays as it was. */
  function Replay(rows: map<int, Person>, ps: seq<Person>): (h: History)
    ensures |h.results| == |ps|
    ensures rows.Keys <= h.rows.Keys
    ensures forall k :: k in rows ==> h.rows[k] == rows[k]
    decreases |ps|
  {
    if ps == [] then History(rows, [])
    else
      var first := Register(rows, ps[0]);
      var rest := Replay(first.rows, ps[1..]);
      History(rest.rows, [first.result] + rest.results)
  }

  /** Rows as only registration produces them: each under its own id, and
      each person eligible. */
  ghost predicate Registered(rows: map<int, Person>)
  {
    forall k :: k in rows ==> rows[k].id == k && Eligible(rows[k])
  }

  function CountValid(results: seq<RegisterResult>): nat
  {
    if results == [] then 0
    else (if results[0] == VALID then 1 else 0) + CountValid(results[1..])
  }

  function Repeat<T>(x: T, n: nat): (s: seq<T>)
    ensures |s| == n
    ensures forall i :: 0 <= i < n ==> s[i] == x
  {
    if n == 0 then [] else [x] + Repeat(x, n - 1)
  }

  /** Registration keeps the store in the shape it produces. */
  lemma {:induction false} ReplayKeepsRegistered(rows: map<int, Person>, ps: seq<Person>)
    requires Registered(rows)
    ensures Registered(Replay(rows, ps).rows)
    decreases |ps|
  {
    if ps != [] {
      ReplayKeepsRegistered(Register(rows, ps[0]).rows, ps[1..]);
    }
  }

  /** Every attempt that returned VALID left its person stored under its id. */
  lemma {:induction false} ValidAttemptsAreStored(rows: map<int, Person>, ps: seq<Person>, i: nat)
    requires i < |ps| && Replay(rows, ps).results[i] == VALID
    ensures ps[i].id in Replay(rows, ps).rows
    ensures Replay(rows, ps).rows[ps[i].id] == ps[i]
    decreases |ps|
  {
    var first := Register(rows, ps[0]);
    if i > 0 {
      ValidAttemptsAreStored(first.rows, ps[1..], i - 1);
    }
  }

  /** Conversely, every row that was not there before comes from an
      attempt that returned VALID. */
  lemma {:induction false} NewRowsComeFromValidAttempts(rows: map<int, Person>, ps: seq<Person>, k: int)
    requires k in Replay(rows, ps).rows && k !in rows
    ensures exists i :: 0 <= i < |ps| && Replay(rows, ps).results[i] == VALID &&
                        ps[i].id == k && Replay(rows, ps).rows[k] == ps[i]
    decreases |ps|
  {
    var h := Replay(rows, ps);
    var first := Register(rows, ps[0]);
    var rest := Replay(first.rows, ps[1..]);
    if k in first.rows {
      assert first.result == VALID && ps[0].id == k && h.results[0] == VALID;
    } else {
      NewRowsComeFromValidAttempts(first.rows, ps[1..], k);
      var j :| 0 <= j < |ps[1..]| && rest.results[j] == VALID &&
               ps[1..][j].id == k && rest.rows[k] == ps[1..][j];
      assert h.results[j + 1] == VALID && ps[j + 1] == ps[1..][j];
    }
  }

  /** The store grows by exactly one row per VALID outcome. */
  lemma {:induction false} RowsCountValidOutcomes(rows: map<int, Person>, ps: seq<Person>)
    ensures |Replay(rows, ps).rows| == |rows| + CountValid(Replay(rows, ps).results)
    decreases |ps|
  {
    if ps != [] {
      var first := Register(rows, ps[0]);
      RowsCountValidOutcomes(first.rows, ps[1..]);
      var h := Replay(rows, ps);
      assert h.results[1..] == Replay(first.rows, ps[1..]).results;
      if first.result == VALID {
        assert |first.rows| == |rows| + 1 by {
          assert first.rows.Keys == rows.Keys + {ps[0].id};
          assert ps[0].id !in rows.Keys;
        }
      }
    }
  }

  /** Registering an ineligible person any number of times gives the same
      rejection every time and never stores anything. */
  lemma {:induction false} RepeatedRejection(rows: map<int, Person>, p: Person, n: nat)
    requires !Eligible(p)
    ensures Replay(rows, Repeat(p, n)) == History(rows, Repeat(Classify(p, false), n))
    decreases n
  {
    if n > 0 {
      RepeatedRejection(rows, p, n - 1);
      assert Repeat(p, n)[1..] == Repeat(p, n - 1);
    }
  }

  /** Once a person's id is stored, registering that person again, any
      number of times, changes nothing and gives the same answer each time
      (DUPLICATED if eligible). */
  lemma {:induction false} RepeatedStoredId(rows: map<int, Person>, p: Person, n: nat)
    requires p.id in rows
    ensures Replay(rows, Repeat(p, n)) == History(rows, Repeat(Classify(p, true), n))
    decreases n
  {
    if n > 0 {
      RepeatedStoredId(rows, p, n - 1);
      assert Repeat(p, n)[1..] == Repeat(p, n - 1);
    }
  }

  /** Two eligible persons with one id: the first is VALID, the second
      DUPLICATED, and the stored row is the first person's. */
  lemma {:induction false} SecondWithSameIdIsDuplicated(rows: map<int, Person>, p1: Person, p2: Person)
    requires Eligible(p1) && Eligible(p2) && p1.id == p2.id && p1.id !in rows
    ensures Replay(rows, [p1, p2]) == History(rows[p1.id := p1], [VALID, DUPLICATED])
  {
    var first := Register(rows, p1);
    assert [p1, p2][1..] == [p2];
    assert Replay(first.rows, [p2]) == History(first.rows, [DUPLICATED]) by {
      assert [p2][1..] == [];
    }
  }

  /** The registration use case, holding the repository it was given. */
  class Registry {
    const repo: RegistryRepository

    constructor (repo: RegistryRepository)
      ensures this.repo == repo
    {
      this.repo := repo;
    }

    /** Decides on `p` and stores it when, and only when, the outcome is
        VALID. A person rejected by the checks that need no storage gets
        that rejection without any storage call, so even an unusable store
        cannot turn it into an error; past those checks a storage error is
        passed on unchanged. */
    method RegisterVoter(p: Person) returns (r: Result<RegisterResult, StorageError>)
      requires repo.Valid()
      modifies repo`rows
      ensures repo.Valid()
      ensures !Eligible(p) ==> r == Success(Rejection(p).value) && repo.rows == old(repo.rows)
      ensures Eligible(p) && repo.Health().Fail? ==>
                r == Failure(repo.Health().error) && repo.rows == old(repo.rows)
      ensures Eligible(p) && repo.Health() == Pass ==>
                r == Success(Register(old(repo.rows), p).result) &&
                repo.rows == Register(old(repo.rows), p).rows
    {
      var rejected := Rejection(p);
      if rejected.Some? {
        return Success(rejected.value);
      }
      var stored := repo.ExistsById(p.id);
      if stored.Failure? {
        return Failure(stored.error);
      }
      var verdict := Classify(p, stored.value);
      if verdict == VALID {
        var inserted := repo.Insert(p);
        assert inserted == Pass;
      }
      r := Success(verdict);
    }
  }
}
