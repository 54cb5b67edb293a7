/** The domain model of voter registration: the person submitted for
    registration, the closed set of outcomes, and the eligibility rules
    that decide between them. */
module Domain {

  import opened Wrappers

  datatype Gender = MALE | FEMALE

  /** A candidate voter. The constructor validates nothing; `name` and
      `gender` are carried along but take no part in any decision. */
  datatype Person = Person(name: string, id: int, age: int, gender: Gender, alive: bool)

  datatype RegisterResult = VALID | INVALID | UNDERAGE | DEAD | DUPLICATED

  /** The legal voting age: a person younger than this is UNDERAGE. */
  const MinVotingAge: int := 18

  /** Reference definition of eligibility, independent of the rule order:
      a usable identifier, of legal age, and alive. */
  predicate Eligible(p: Person)
  {
    p.id >= 0 && p.age >= MinVotingAge && p.alive
  }

  /** The checks that need no storage, applied in order, first failure
      wins: a negative id, then the age, then the alive flag. `None` means
      that the person passed all three. */
  function Rejection(p: Person): (r: Option<RegisterResult>)
    ensures r.None? <==> Eligible(p)
    ensures r == Some(INVALID) <==> p.id < 0
    ensures r == Some(UNDERAGE) <==> p.id >= 0 && p.age < MinVotingAge
    ensures r == Some(DEAD) <==> p.id >= 0 && p.age >= MinVotingAge && !p.alive
  {
    if p.id < 0 then Some(INVALID)
    else if p.age < MinVotingAge then Some(UNDERAGE)
    else if !p.alive then Some(DEAD)
    else None
  }

  /** The full decision for `p`, given whether its id is already stored.
      Exactly one outcome holds, characterised field by field. */
  function Classify(p: Person, alreadyStored: bool): (r: RegisterResult)
    ensures r == INVALID <==> p.id < 0
    ensures r == UNDERAGE <==> p.id >= 0 && p.age < MinVotingAge
    ensures r == DEAD <==> p.id >= 0 && p.age >= MinVotingAge && !p.alive
    ensures r == DUPLICATED <==> Eligible(p) && alreadyStored
    ensures r == VALID <==> Eligible(p) && !alreadyStored
  {
    match Rejection(p)
    case Some(rejected) => rejected
    case None => if alreadyStored then DUPLICATED else VALID
  }

  /** A rejected person is rejected whatever the store holds: the storage
      lookup cannot change a domain rejection. */
  lemma RejectionIgnoresStore(p: Person, stored1: bool, stored2: bool)
    requires !Eligible(p)
    ensures Classify(p, stored1) == Classify(p, stored2)
    ensures Classify(p, stored1) in {INVALID, UNDERAGE, DEAD}
  {
  }

  /** `name` and `gender` never influence the decision. */
  lemma NameAndGenderIrrelevant(p: Person, name: string, gender: Gender, stored: bool)
    ensures Classify(p.(name := name, gender := gender), stored) == Classify(p, stored)
  {
  }
}
