/** The athlete reference table and the three counts of `query_athelete`. */
module Athletes {
  import opened Wrappers
  import opened Seqs

  /** A row of the `athelete` table.  Every column but the key may be NULL (`None`). */
  datatype Athlete = Athlete(
    id: int,
    age: Option<int>,
    birthdate: Option<string>,
    gender: Option<string>,
    height: Option<real>,
    name: Option<string>,
    weight: Option<int>,
    goldMedals: Option<int>,
    silverMedals: Option<int>,
    totalMedals: Option<int>,
    sport: Option<string>,
    country: Option<string>)

  // SQL comparisons with NULL are unknown, and a filter keeps only rows where it is true,
  // so a NULL column fails every comparison on it.

  /** `Athelete.gender == "Female"` */
  predicate IsFemale(a: Athlete)
  {
    a.gender == Some("Female")
  }

  /** `Athelete.gender == "Male"` */
  predicate IsMale(a: Athlete)
  {
    a.gender == Some("Male")
  }

  /** `Athelete.age > n` */
  predicate IsOlderThan(a: Athlete, n: int)
  {
    a.age.Some? && a.age.value > n
  }

  predicate IsOver30(a: Athlete)
  {
    IsOlderThan(a, 30)
  }

  /** `Athelete.gender == "Male", Athelete.age > 25, Athelete.gold_medals >= 2` */
  predicate IsSeniorMaleChampion(a: Athlete)
  {
    IsMale(a) && IsOlderThan(a, 25) && a.goldMedals.Some? && a.goldMedals.value >= 2
  }

  /** `len(q1)`: the number of female athletes. */
  function CountFemale(athletes: seq<Athlete>): (n: nat)
    ensures n <= |athletes|
    ensures n == 0 <==> forall a :: a in athletes ==> !IsFemale(a)
  {
    FilterMembers(athletes, IsFemale);
    var passed := Filter(athletes, IsFemale);
    assert passed != [] ==> passed[0] in passed;
    |passed|
  }

  /** `len(q2)`: the number of athletes older than 30. */
  function CountOver30(athletes: seq<Athlete>): (n: nat)
    ensures n <= |athletes|
    ensures n == 0 <==> forall a :: a in athletes ==> !IsOver30(a)
  {
    FilterMembers(athletes, IsOver30);
    var passed := Filter(athletes, IsOver30);
    assert passed != [] ==> passed[0] in passed;
    |passed|
  }

  /** `len(q3)`: the number of male athletes older than 25 with at least two gold medals. */
  function CountSeniorMaleChampions(athletes: seq<Athlete>): (n: nat)
    ensures n <= |athletes|
    ensures n == 0 <==> forall a :: a in athletes ==> !IsSeniorMaleChampion(a)
  {
    FilterMembers(athletes, IsSeniorMaleChampion);
    var passed := Filter(athletes, IsSeniorMaleChampion);
    assert passed != [] ==> passed[0] in passed;
    |passed|
  }

  /** The third count never exceeds the number of male athletes, nor the number of athletes
      older than 25; a row whose gender is NULL is counted by neither the first nor the
      third query. */
  lemma SeniorMaleChampionsBounds(athletes: seq<Athlete>)
    ensures CountSeniorMaleChampions(athletes) <= |Filter(athletes, IsMale)|
    ensures CountSeniorMaleChampions(athletes) <= |Filter(athletes, a => IsOlderThan(a, 25))|
  {
    FilterCountMonotone(athletes, IsSeniorMaleChampion, IsMale);
    FilterCountMonotone(athletes, IsSeniorMaleChampion, a => IsOlderThan(a, 25));
  }

  /** The female and the senior-male-champion counts are of disjoint sets of rows, so they
      add up to at most the table size. */
  lemma {:induction false} FemaleAndMaleChampionsDisjoint(athletes: seq<Athlete>)
    ensures CountFemale(athletes) + CountSeniorMaleChampions(athletes) <= |athletes|
  {
    if athletes != [] {
      FemaleAndMaleChampionsDisjoint(athletes[1..]);
      var a := athletes[0];
      assert !(IsFemale(a) && IsSeniorMaleChampion(a));
      assert Filter(athletes, IsFemale) == (if IsFemale(a) then [a] else []) + Filter(athletes[1..], IsFemale);
      assert Filter(athletes, IsSeniorMaleChampion)
        == (if IsSeniorMaleChampion(a) then [a] else []) + Filter(athletes[1..], IsSeniorMaleChampion);
    }
  }

  /** The table is a set of rows: the counts do not depend on the order rows are read in. */
  lemma CountsIgnoreOrder(s: seq<Athlete>, t: seq<Athlete>)
    requires multiset(s) == multiset(t)
    ensures CountFemale(s) == CountFemale(t)
    ensures CountOver30(s) == CountOver30(t)
    ensures CountSeniorMaleChampions(s) == CountSeniorMaleChampions(t)
  {
    FilterCountIgnoresOrder(s, t, IsFemale);
    FilterCountIgnoresOrder(s, t, IsOver30);
    FilterCountIgnoresOrder(s, t, IsSeniorMaleChampion);
  }

  /** Each count adds up over a split of the table. */
  lemma CountsAdd(s: seq<Athlete>, t: seq<Athlete>)
    ensures CountFemale(s + t) == CountFemale(s) + CountFemale(t)
    ensures CountOver30(s + t) == CountOver30(s) + CountOver30(t)
    ensures CountSeniorMaleChampions(s + t) == CountSeniorMaleChampions(s) + CountSeniorMaleChampions(t)
  {
    FilterAppend(s, t, IsFemale);
    FilterAppend(s, t, IsOver30);
    FilterAppend(s, t, IsSeniorMaleChampion);
  }
}
