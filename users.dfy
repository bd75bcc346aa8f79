/** `UserInput`: the dataclass that turns the operator's raw input into a validated user,
    deriving the birthdate and the age. */
module Users {
  import opened Wrappers
  import opened Dates
  import opened IsoDates
  import opened Email

  /** The `ValueError`s `__post_init__` raises, one per check. */
  datatype ValidationError = InvalidBirthdate | InvalidGender | InvalidEmail | InvalidHeight

  /** The order in which `__post_init__` runs its checks. */
  function Rank(e: ValidationError): (rank: nat)
  {
    match e
    case InvalidBirthdate => 0
    case InvalidGender => 1
    case InvalidEmail => 2
    case InvalidHeight => 3
  }

  /** `gender == "Male" or gender == "Female"`, case-sensitive. */
  predicate ValidGender(gender: string)
  {
    gender == "Male" || gender == "Female"
  }

  /** Not `height <= 0 or height > 2.50`. */
  predicate ValidHeight(height: real)
  {
    0.0 < height <= 2.5
  }

  /** `e` is a ground for rejecting the input: for the birthdate, a raw birthdate is given in
      place of a date and is not a valid ISO date; for the email, the address does not
      match the pattern. */
  ghost predicate Violates(e: ValidationError, gender: string, email: string, height: real,
                           birthdate: Option<Date>, birthdateRaw: Option<string>)
  {
    match e
    case InvalidBirthdate => birthdate.None? && birthdateRaw.Some? && ParseIsoDate(birthdateRaw.value).None?
    case InvalidGender => !ValidGender(gender)
    case InvalidEmail => !MatchesPattern(email)
    case InvalidHeight => !ValidHeight(height)
  }

  /** The error `__post_init__` raises: the first check, in Rank order, that the input
      violates; `None` when it violates none. */
  function FirstViolation(gender: string, email: string, height: real,
                          birthdate: Option<Date>, birthdateRaw: Option<string>): (r: Option<ValidationError>)
    ensures r.None? <==> forall e :: !Violates(e, gender, email, height, birthdate, birthdateRaw)
    ensures r.Some? ==> Violates(r.value, gender, email, height, birthdate, birthdateRaw)
    ensures r.Some? ==> forall e :: Rank(e) < Rank(r.value) ==> !Violates(e, gender, email, height, birthdate, birthdateRaw)
  {
    CheckEmailMatchesPattern(email);
    if birthdate.None? && birthdateRaw.Some? && ParseIsoDate(birthdateRaw.value).None? then
      assert Violates(InvalidBirthdate, gender, email, height, birthdate, birthdateRaw);
      Some(InvalidBirthdate)
    else if !ValidGender(gender) then
      assert Violates(InvalidGender, gender, email, height, birthdate, birthdateRaw);
      Some(InvalidGender)
    else if !CheckEmail(email) then
      assert Violates(InvalidEmail, gender, email, height, birthdate, birthdateRaw);
      Some(InvalidEmail)
    else if !ValidHeight(height) then
      assert Violates(InvalidHeight, gender, email, height, birthdate, birthdateRaw);
      Some(InvalidHeight)
    else
      None
  }

  class UserInput {
    var firstName: string
    var lastName: string
    var gender: string
    var email: string
    var height: real
    var birthdate: Option<Date>
    var age: Option<int>

    /** What every user the program stores satisfies. */
    ghost predicate Valid()
      reads this
    {
      ValidGender(gender) && MatchesPattern(email) && ValidHeight(height)
    }

    /** The dataclass-generated `__init__`: it stores the fields as given (`birthdate` and
        `age` default to `None`). */
    constructor (firstName: string, lastName: string, gender: string, email: string, height: real,
                 birthdate: Option<Date>, age: Option<int>)
      ensures this.firstName == firstName && this.lastName == lastName
      ensures this.gender == gender && this.email == email && this.height == height
      ensures this.birthdate == birthdate && this.age == age
    {
      this.firstName := firstName;
      this.lastName := lastName;
      this.gender := gender;
      this.email := email;
      this.height := height;
      this.birthdate := birthdate;
      this.age := age;
    }

    /** `__post_init__(birthdate_raw)`, with `today` standing for `date.today()`.  When no
        birthdate is given but a raw one is, it parses the raw one and derives the age;
        then it checks the gender, the email and the height.  It returns the error it
        raises, if any; on success the user is Valid(). */
    method PostInit(birthdateRaw: Option<string>, today: Date) returns (error: Option<ValidationError>)
      modifies this
      ensures error == FirstViolation(gender, email, height, old(birthdate), birthdateRaw)
      ensures error.None? ==> Valid()
      ensures firstName == old(firstName) && lastName == old(lastName)
      ensures gender == old(gender) && email == old(email) && height == old(height)
      ensures old(birthdate).None? && birthdateRaw.Some? ==>
                birthdate == ParseIsoDate(birthdateRaw.value)
                && age == (if birthdate.Some? then Some(Age(birthdate.value, today)) else old(age))
      ensures !(old(birthdate).None? && birthdateRaw.Some?) ==> birthdate == old(birthdate) && age == old(age)
    {
      if birthdate.None? && birthdateRaw.Some? {
        var parsed := ParseIsoDate(birthdateRaw.value);
        if parsed.None? {
          return Some(InvalidBirthdate);
        }
        birthdate := parsed;
        age := Some(Age(parsed.value, today));
      }
      if !(gender == "Male" || gender == "Female") {
        return Some(InvalidGender);
      }
      if !CheckEmail(email) {
        return Some(InvalidEmail);
      }
      CheckEmailMatchesPattern(email);
      if height <= 0.0 || height > 2.5 {
        return Some(InvalidHeight);
      }
      return None;
    }

    /** `UserInput(first_name, last_name, gender, email, height, birthdate, age,
        birthdate_raw)`: the new object, or the `ValueError` raised while building it. */
    static method Create(firstName: string, lastName: string, gender: string, email: string, height: real,
                         birthdate: Option<Date>, age: Option<int>, birthdateRaw: Option<string>, today: Date)
      returns (r: Result<UserInput, ValidationError>)
      ensures r.Err? <==> FirstViolation(gender, email, height, birthdate, birthdateRaw).Some?
      ensures r.Err? ==> r.error == FirstViolation(gender, email, height, birthdate, birthdateRaw).value
      ensures r.Ok? ==> fresh(r.value) && r.value.Valid()
      ensures r.Ok? ==> r.value.firstName == firstName && r.value.lastName == lastName
      ensures r.Ok? ==> r.value.gender == gender && r.value.email == email && r.value.height == height
      ensures r.Ok? && birthdate.None? && birthdateRaw.Some? ==>
                r.value.birthdate == ParseIsoDate(birthdateRaw.value)
                && r.value.age == Some(Age(r.value.birthdate.value, today))
      ensures r.Ok? && !(birthdate.None? && birthdateRaw.Some?) ==>
                r.value.birthdate == birthdate && r.value.age == age
    {
      var u := new UserInput(firstName, lastName, gender, email, height, birthdate, age);
      var error := u.PostInit(birthdateRaw, today);
      if error.Some? {
        return Err(error.value);
      }
      return Ok(u);
    }
  }

  /** A raw birthdate that is not a valid ISO date is reported before anything else is
      looked at, whatever the other fields hold. */
  lemma BadRawBirthdateReportedFirst(gender: string, email: string, height: real, raw: string)
    requires ParseIsoDate(raw).None?
    ensures FirstViolation(gender, email, height, None, Some(raw)) == Some(InvalidBirthdate)
  {
  }

  /** A birthdate given as a date is not parsed, so a raw birthdate beside it is never
      reported. */
  lemma GivenBirthdateNotParsed(gender: string, email: string, height: real, d: Date, raw: Option<string>)
    ensures FirstViolation(gender, email, height, Some(d), raw) != Some(InvalidBirthdate)
  {
  }

  /** The height bounds: 2.50 is accepted; zero and negative heights, and anything above
      2.50, are rejected. The gender check is case-sensitive. */
  lemma BoundaryExamples()
    ensures ValidHeight(2.5) && !ValidHeight(0.0) && !ValidHeight(-1.0) && !ValidHeight(2.51)
    ensures !ValidGender("male") && !ValidGender("FEMALE") && ValidGender("Female")
  {
  }
}
