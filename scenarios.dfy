/** The integration scenarios of the registry. Each opens a repository on
    a database that earlier runs may have left with a table and rows, sets
    it up (schema created, previous rows deleted) and states as
    postconditions what the scenario asserts. */
module Scenarios {

  import opened Wrappers
  import opened Domain
  import opened Repository
  import opened Registration

  /** The common arrangement: a repository on a reachable database that
      may still hold the table and the rows of earlier runs, its schema
      created and its rows deleted, and a registry using it. */
  method SetUp(tableExists: bool, earlier: map<int, Person>)
    returns (repo: RegistryRepository, registry: Registry)
    requires Consistent(tableExists, earlier)
    ensures fresh(repo) && repo.Valid()
    ensures repo.reachable && repo.schemaReady && repo.rows == map[]
    ensures registry.repo == repo
  {
    repo := new RegistryRepository(true, tableExists, earlier);
    var created := repo.InitSchema();
    var cleared := repo.DeleteAll();
    assert created == Pass && cleared == Pass;
    registry := new Registry(repo);
  }

  /** After set-up no id is stored, whatever id is asked about. */
  method SetUpLeavesNoIds(tableExists: bool, earlier: map<int, Person>, id: int)
    returns (found: Result<bool, StorageError>)
    requires Consistent(tableExists, earlier)
    ensures found == Success(false)
  {
    var repo, registry := SetUp(tableExists, earlier);
    found := repo.ExistsById(id);
  }

  method ShouldRegisterValidPerson(tableExists: bool, earlier: map<int, Person>)
    returns (result: Result<RegisterResult, StorageError>,
             found: Result<bool, StorageError>)
    requires Consistent(tableExists, earlier)
    ensures result == Success(VALID)
    ensures found == Success(true)
  {
    var repo, registry := SetUp(tableExists, earlier);
    var ana := Person("Ana", 100, 30, FEMALE, true);
    result := registry.RegisterVoter(ana);
    found := repo.ExistsById(100);
  }

  method ShouldPersistValidVoterAndRejectDuplicates(tableExists: bool, earlier: map<int, Person>)
    returns (result1: Result<RegisterResult, StorageError>,
             found: Result<bool, StorageError>,
             result2: Result<RegisterResult, StorageError>,
             kept: Person)
    requires Consistent(tableExists, earlier)
    ensures result1 == Success(VALID)
    ensures found == Success(true)
    ensures result2 == Success(DUPLICATED)
    ensures kept.name == "Ana" && kept.age == 30
  {
    var repo, registry := SetUp(tableExists, earlier);
    var ana := Person("Ana", 100, 30, FEMALE, true);
    var anaDos := Person("AnaDos", 100, 40, FEMALE, true);
    result1 := registry.RegisterVoter(ana);
    found := repo.ExistsById(100);
    result2 := registry.RegisterVoter(anaDos);
    kept := repo.rows[100];
  }

  method ShouldRejectUnderagePerson(tableExists: bool, earlier: map<int, Person>)
    returns (result: Result<RegisterResult, StorageError>,
             found: Result<bool, StorageError>)
    requires Consistent(tableExists, earlier)
    ensures result == Success(UNDERAGE)
    ensures found == Success(false)
  {
    var repo, registry := SetUp(tableExists, earlier);
    var minor := Person("Luis", 102, 16, MALE, true);
    result := registry.RegisterVoter(minor);
    found := repo.ExistsById(102);
  }

  method ShouldRejectDeceasedPerson(tableExists: bool, earlier: map<int, Person>)
    returns (result: Result<RegisterResult, StorageError>,
             found: Result<bool, StorageError>)
    requires Consistent(tableExists, earlier)
    ensures result == Success(DEAD)
    ensures found == Success(false)
  {
    var repo, registry := SetUp(tableExists, earlier);
    var deceased := Person("Maria", 103, 45, FEMALE, false);
    result := registry.RegisterVoter(deceased);
    found := repo.ExistsById(103);
  }

  method ShouldRejectInvalidIdPerson(tableExists: bool, earlier: map<int, Person>)
    returns (result: Result<RegisterResult, StorageError>,
             found: Result<bool, StorageError>)
    requires Consistent(tableExists, earlier)
    ensures result == Success(INVALID)
    ensures found == Success(false)
  {
    var repo, registry := SetUp(tableExists, earlier);
    var invalid := Person("Pedro", -1, 30, MALE, true);
    result := registry.RegisterVoter(invalid);
    found := repo.ExistsById(-1);
  }

  /** A store that cannot be reached fails at schema creation with a
      storage error, which is not a registration outcome. */
  method ShouldHandleDatabaseConnectionError() returns (created: Outcome<StorageError>)
    ensures created == Fail(ConnectionFailed)
  {
    var faulty := new RegistryRepository(false, false, map[]);
    created := faulty.InitSchema();
  }

  /** On an unreachable store an eligible person gets the storage error,
      an ineligible one still gets the domain rejection. */
  method RegisterOnUnreachableStore(p: Person) returns (result: Result<RegisterResult, StorageError>)
    ensures Eligible(p) <==> result == Failure(ConnectionFailed)
    ensures !Eligible(p) ==> result == Success(Classify(p, false))
  {
    var faulty := new RegistryRepository(false, false, map[]);
    var registry := new Registry(faulty);
    result := registry.RegisterVoter(p);
  }
}
