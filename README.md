# Voter registry (registraduria) — a Dafny model

This project models the voter-registration core of the registraduria
application: the use case `Registry.registerVoter(Person)`, which decides
whether a person may be registered and stores accepted persons, and the
storage port `RegistryRepositoryPort` it is built on (`initSchema`,
`deleteAll`, `existsById`, and the insert made on success), implemented
here in memory.

The model follows what the integration test `RegistryTest.java` asserts
about `registerVoter` and the repository port. The test leaves two things
open, and the model fixes them as follows:

- The decision rules run in a fixed order, first failure wins: an id below
  0 is `INVALID`, then an age below the legal voting age is `UNDERAGE`,
  then a person not alive is `DEAD`, then an id already stored is
  `DUPLICATED`; otherwise the person is inserted and the result is
  `VALID`. The test exercises each rejection on its own; the model checks
  identity first, then age and alive status, and only then asks storage.
- The legal voting age is the constant `Domain.MinVotingAge = 18`. The test
  fixes only that 16 is rejected and 30, 40 and 45 are accepted.

Files and modules:

- `wrappers.dfy` (`Wrappers`): `Option`, `Result` and `Outcome` values.
- `domain.dfy` (`Domain`): `Person`, `Gender`, `RegisterResult`, the
  reference predicate `Eligible`, and the decision as the functions
  `Rejection` (the checks that need no storage) and `Classify`.
- `repository.dfy` (`Repository`): the class `RegistryRepository`, the
  in-memory store. Its fields are `reachable` (whether the backing store
  can be reached at all; it stands for the JDBC connection), `schemaReady`
  (whether the person table exists) and `rows` (the stored persons, keyed by
  id). `Valid()` says every row sits under its own id and there are no rows
  before the table exists. The test's database is a named in-memory
  database that outlives any one repository, so a repository is opened on
  a database that may already hold the table and rows left by earlier runs. Every operation fails with `ConnectionFailed`
  on an unreachable store. `DeleteAll`, `ExistsById` and `Insert` fail with
  `MissingSchema` before `InitSchema`. `Insert` refuses to overwrite a
  stored id (`DuplicateKey`).
- `registration.dfy` (`Registration`): `Register`, one `registerVoter`
  call as a function of the stored rows; `Replay`, a sequence of such calls
  on one store, as the test performs them (a first and a second
  registration on the same repository); the lemmas about both; and the
  class `Registry`, whose method `RegisterVoter` runs the decision against
  a `RegistryRepository` and is proved against `Register`.
- `scenarios.dfy` (`Scenarios`): the test's `setup` and its six scenarios
  as methods. Each starts from whatever table and rows earlier runs left,
  and its postconditions include the test's assertions; the duplicate
  scenario also states that the stored row is still the first person's.
  The module adds two methods that are not test scenarios:
  `SetUpLeavesNoIds` (after set-up no id exists) and
  `RegisterOnUnreachableStore` (a registration on the failing store).

Storage faults are values (`StorageError`), not exceptions. A fault is a
failure of the storage operation and is never a `RegisterResult`.
`RegisterVoter` passes a storage error on unchanged (`Failure(...)`).
Persons rejected by the checks that need no storage get their rejection
before any storage call, so these persons get that rejection even when the
store is unusable.

## Model

| member | source | states |
|---|---|---|
| `Domain.Rejection` | registraduria/src/test/java/edu/unisabana/tyvs/registry/application/usecase/RegistryTest.java:93-133 | the checks that need no storage reject exactly the persons that are not `Eligible`: `INVALID` iff the id is negative, `UNDERAGE` iff the id is valid and the age is below 18, `DEAD` iff id and age are valid and the person is not alive |
| `Domain.Classify` | registraduria/src/test/java/edu/unisabana/tyvs/registry/application/usecase/RegistryTest.java:52-133 | each of the five outcomes characterised by an if-and-only-if on the person's fields and on whether the id is stored: `VALID` iff eligible and not stored, `DUPLICATED` iff eligible and stored |
| `Domain.RejectionIgnoresStore` | registraduria/src/test/java/edu/unisabana/tyvs/registry/application/usecase/RegistryTest.java:97-132 | an ineligible person gets the same rejection (one of `INVALID`, `UNDERAGE`, `DEAD`) whatever the store holds |
| `Domain.NameAndGenderIrrelevant` | registraduria/src/test/java/edu/unisabana/tyvs/registry/application/usecase/RegistryTest.java:76-77 | changing a person's name or gender never changes the outcome |
| `Repository.RegistryRepository.Health` | registraduria/src/test/java/edu/unisabana/tyvs/registry/application/usecase/RegistryTest.java:138-146 | the rows are usable iff the store is reachable and the schema exists; an unreachable store is reported as `ConnectionFailed`, a reachable one without the table as `MissingSchema` |
| `Repository.RegistryRepository.constructor` | registraduria/src/test/java/edu/unisabana/tyvs/registry/application/usecase/RegistryTest.java:39-40 | a repository opened on a consistent database state (a table or none, rows under their own ids) holds exactly that state and the given reachability |
| `Repository.RegistryRepository.InitSchema` | registraduria/src/test/java/edu/unisabana/tyvs/registry/application/usecase/RegistryTest.java:42 | creates the table when the store is reachable (idempotently, keeping the rows), otherwise fails with `ConnectionFailed` and changes nothing |
| `Repository.RegistryRepository.DeleteAll` | registraduria/src/test/java/edu/unisabana/tyvs/registry/application/usecase/RegistryTest.java:43 | on a usable store leaves no rows; on an unusable one reports the storage error and keeps the rows |
| `Repository.RegistryRepository.ExistsById` | registraduria/src/test/java/edu/unisabana/tyvs/registry/application/usecase/RegistryTest.java:62 | on a usable store answers whether a row is stored under the id (an absent id is `false`, not an error); otherwise the storage error |
| `Repository.RegistryRepository.Insert` | registraduria/src/test/java/edu/unisabana/tyvs/registry/application/usecase/RegistryTest.java:58-62 | adds exactly the person under its id when the store is usable and the id is free; refuses a stored id with `DuplicateKey` and never overwrites |
| `Registration.Register` | registraduria/src/test/java/edu/unisabana/tyvs/registry/application/usecase/RegistryTest.java:55-62 | one registration: the outcome is `Classify` on whether the id is stored; only `VALID` adds a row, exactly the person's own id, mapped to that person; no stored row is replaced |
| `Registration.Replay` | registraduria/src/test/java/edu/unisabana/tyvs/registry/application/usecase/RegistryTest.java:79-90 | consecutive registrations on one store give one result per attempt; the store only grows and rows stored earlier keep their person |
| `Registration.ReplayKeepsRegistered` | registraduria/src/test/java/edu/unisabana/tyvs/registry/application/usecase/RegistryTest.java:55-62 | if every stored row is an eligible person under its own id, that stays true after any sequence of registrations |
| `Registration.ValidAttemptsAreStored` | registraduria/src/test/java/edu/unisabana/tyvs/registry/application/usecase/RegistryTest.java:80-84 | every attempt in a sequence that returned `VALID` left that person stored under its id at the end |
| `Registration.NewRowsComeFromValidAttempts` | registraduria/src/test/java/edu/unisabana/tyvs/registry/application/usecase/RegistryTest.java:100-132 | every row added by a sequence of registrations comes from an attempt with that id that returned `VALID`: rejected attempts store nothing |
| `Registration.RowsCountValidOutcomes` | registraduria/src/test/java/edu/unisabana/tyvs/registry/application/usecase/RegistryTest.java:58-62 | the store grows by exactly one row per `VALID` outcome |
| `Registration.RepeatedRejection` | registraduria/src/test/java/edu/unisabana/tyvs/registry/application/usecase/RegistryTest.java:97-104 | an ineligible person registered any number of times gets the same rejection every time and the store is unchanged |
| `Registration.RepeatedStoredId` | registraduria/src/test/java/edu/unisabana/tyvs/registry/application/usecase/RegistryTest.java:86-90 | once an id is stored, registering a person with it again any number of times changes nothing and gives the same answer each time (`DUPLICATED` for an eligible person) |
| `Registration.SecondWithSameIdIsDuplicated` | registraduria/src/test/java/edu/unisabana/tyvs/registry/application/usecase/RegistryTest.java:76-90 | two eligible persons with one unstored id: the first is `VALID`, the second `DUPLICATED`, and the store holds only the first person |
| `Registration.Registry.constructor` | registraduria/src/test/java/edu/unisabana/tyvs/registry/application/usecase/RegistryTest.java:45 | the registry uses the repository it is given |
| `Registration.Registry.RegisterVoter` | registraduria/src/test/java/edu/unisabana/tyvs/registry/application/usecase/RegistryTest.java:58 | an ineligible person gets its rejection and the store is untouched; an eligible person on an unusable store gets the storage error and the store is untouched; otherwise result and new rows are those of `Register` on the old rows |
| `Scenarios.SetUp` | registraduria/src/test/java/edu/unisabana/tyvs/registry/application/usecase/RegistryTest.java:37-46 | whatever table and rows earlier runs left, after schema creation and deletion the repository is reachable, has its table and holds no rows |
| `Scenarios.SetUpLeavesNoIds` | registraduria/src/test/java/edu/unisabana/tyvs/registry/application/usecase/RegistryTest.java:42-45 | whatever earlier runs left, after set-up `existsById` is `false` for every id |
| `Scenarios.ShouldRegisterValidPerson` | registraduria/src/test/java/edu/unisabana/tyvs/registry/application/usecase/RegistryTest.java:52-63 | (Ana, 100, 30, alive) is `VALID` and afterwards id 100 exists |
| `Scenarios.ShouldPersistValidVoterAndRejectDuplicates` | registraduria/src/test/java/edu/unisabana/tyvs/registry/application/usecase/RegistryTest.java:73-91 | Ana (100, 30) is `VALID`, id 100 then exists, AnaDos (100, 40) is `DUPLICATED`, and the stored row is still Ana's |
| `Scenarios.ShouldRejectUnderagePerson` | registraduria/src/test/java/edu/unisabana/tyvs/registry/application/usecase/RegistryTest.java:94-105 | (Luis, 102, 16, alive) is `UNDERAGE` and id 102 does not exist afterwards |
| `Scenarios.ShouldRejectDeceasedPerson` | registraduria/src/test/java/edu/unisabana/tyvs/registry/application/usecase/RegistryTest.java:108-119 | (Maria, 103, 45, not alive) is `DEAD` and id 103 does not exist afterwards |
| `Scenarios.ShouldRejectInvalidIdPerson` | registraduria/src/test/java/edu/unisabana/tyvs/registry/application/usecase/RegistryTest.java:122-133 | (Pedro, -1, 30, alive) is `INVALID` and id -1 does not exist afterwards |
| `Scenarios.ShouldHandleDatabaseConnectionError` | registraduria/src/test/java/edu/unisabana/tyvs/registry/application/usecase/RegistryTest.java:136-147 | schema creation on an unreachable store fails with the storage error `ConnectionFailed`, not with a registration outcome |
| `Scenarios.RegisterOnUnreachableStore` | registraduria/src/test/java/edu/unisabana/tyvs/registry/application/usecase/RegistryTest.java:138-139 | not run by the test, which only calls `initSchema` on its failing store: on that store an eligible person gets `ConnectionFailed` passed on by the use case, and an ineligible person still gets its domain rejection |

## Left out

- The H2 JDBC connection string and the SQL behind the repository
  (RegistryTest.java:39-40): replaced by the in-memory map `rows`; a
  connection that cannot be made is the `reachable` flag given at
  construction.
- Mockito's mock and `doThrow` (RegistryTest.java:138-139): the failing
  repository is a `RegistryRepository` built unreachable; the exception
  mechanism and its message text ("Connection failed") are not modelled.
  Faults are `StorageError` values.
- JUnit's annotations and assertions: they become the postconditions of
  the methods in `Scenarios`.
- Concurrent registrations and the read-then-insert race between
  `existsById` and the insert: the modelled flow is sequential. For the same
  reason the insert made by `RegisterVoter` is proved to succeed, so the
  insert-failure path that the use case would pass on never happens in the
  model.
- `Gender`: only the two values the test uses, `MALE` and `FEMALE`, are
  modelled; any further values of the Java enum are not visible.
- Integer width: ids and ages are unbounded integers. The Java fields are
  presumably 32-bit `int`s, but nothing here does arithmetic on them, so
  wrap-around cannot arise.
- The behaviour of `existsById`, `deleteAll` and the insert before
  `initSchema` is not shown by the test; the model makes them fail with
  `MissingSchema`, as a database without the person table would.
