/** `AtheleteDb.nearest_height` and `AtheleteDb.nearest_birthdate`: left folds (`reduce`)
    over the athlete table, which here is a sequence of rows. */
module Nearest {
  import opened Wrappers
  import opened Dates
  import opened IsoDates
  import opened Athletes
  import opened Seqs
  import Strings

  /** Why a nearest-match lookup raises instead of returning an athlete. */
  datatype NearestError =
    | EmptySequence            // `reduce` of an empty sequence with no initial value
    | InvalidIsoDate(raw: string)  // `date.fromisoformat` rejects a stored birthdate

  // ---- nearest_height ----

  /** `x.height` is truthy: present and not zero. */
  predicate HasHeight(a: Athlete)
  {
    a.height.Some? && a.height.value != 0.0
  }

  function Abs(x: real): (y: real)
  {
    if x < 0.0 then -x else x
  }

  /** `abs(a.height - target)`; it is only ever taken of athletes whose height is present. */
  function Distance(a: Athlete, target: real): (d: real)
  {
    if a.height.Some? then Abs(a.height.value - target) else 0.0
  }

  /** `reduce(lambda x, y: y if abs(y.height - target) < abs(x.height - target) else x, ...)`
      with `acc` the first item and `rest` the others: an item replaces the accumulator only
      when it is strictly closer. */
  function NearestHeightFold(acc: Athlete, rest: seq<Athlete>, target: real): (nearest: Athlete)
    decreases |rest|
  {
    if rest == [] then acc
    else
      var y := rest[0];
      NearestHeightFold(if Distance(y, target) < Distance(acc, target) then y else acc, rest[1..], target)
  }

  /** Position `i` of `xs` holds an element at the least distance from `target`, and every
      earlier element is strictly farther: the first of the closest. */
  ghost predicate IsFirstNearest(xs: seq<Athlete>, i: int, target: real)
  {
    && 0 <= i < |xs|
    && (forall j :: 0 <= j < |xs| ==> Distance(xs[i], target) <= Distance(xs[j], target))
    && (forall j :: 0 <= j < i ==> Distance(xs[i], target) < Distance(xs[j], target))
  }

  /** One step of the fold: if the first of the closest of `acc'` and `tail` is at `i'`, and
      `acc'` is the closer of `acc` and `y` (`acc` on a tie), then the first of the closest
      of `acc`, `y` and `tail` is the same element. */
  lemma FoldStepKeepsFirstNearest(acc: Athlete, y: Athlete, tail: seq<Athlete>, target: real, i': int)
    requires IsFirstNearest([if Distance(y, target) < Distance(acc, target) then y else acc] + tail, i', target)
    ensures var acc' := if Distance(y, target) < Distance(acc, target) then y else acc;
            var xs := [acc, y] + tail;
            var i := if i' > 0 then i' + 1 else if acc' == y && Distance(y, target) < Distance(acc, target) then 1 else 0;
            IsFirstNearest(xs, i, target) && xs[i] == ([acc'] + tail)[i']
  {
    var replaced := Distance(y, target) < Distance(acc, target);
    var acc' := if replaced then y else acc;
    var xs' := [acc'] + tail;
    var xs := [acc, y] + tail;
    var dr := Distance(xs'[i'], target);
    assert xs'[0] == acc';
    assert dr <= Distance(acc', target);
    assert Distance(acc', target) <= Distance(acc, target) && Distance(acc', target) <= Distance(y, target);
    assert forall m :: 2 <= m < |xs| ==> xs[m] == xs'[m - 1];
    assert forall m :: 0 <= m < |xs| ==> dr <= Distance(xs[m], target) by {
      forall m | 0 <= m < |xs| ensures dr <= Distance(xs[m], target) {
        if m >= 2 {
          assert xs[m] == xs'[m - 1];
        }
      }
    }
    if i' > 0 {
      assert dr < Distance(acc', target);
      forall m | 0 <= m < i' + 1 ensures dr < Distance(xs[m], target) {
        if m >= 2 {
          assert xs[m] == xs'[m - 1];
        }
      }
      assert xs[i' + 1] == xs'[i'];
      assert IsFirstNearest(xs, i' + 1, target);
    } else if replaced {
      assert xs[1] == xs'[0];
      assert IsFirstNearest(xs, 1, target);
    } else {
      assert xs[0] == xs'[0];
      assert IsFirstNearest(xs, 0, target);
    }
  }

  /** The fold returns the first of the elements closest to `target`. */
  lemma {:induction false} NearestHeightFoldIsFirstNearest(acc: Athlete, rest: seq<Athlete>, target: real)
    ensures exists i :: IsFirstNearest([acc] + rest, i, target)
                     && ([acc] + rest)[i] == NearestHeightFold(acc, rest, target)
    decreases |rest|
  {
    if rest == [] {
      assert [acc] + rest == [acc];
      assert IsFirstNearest([acc], 0, target);
      assert NearestHeightFold(acc, rest, target) == acc;
    } else {
      var y := rest[0];
      var acc' := if Distance(y, target) < Distance(acc, target) then y else acc;
      NearestHeightFoldIsFirstNearest(acc', rest[1..], target);
      var i' :| IsFirstNearest([acc'] + rest[1..], i', target)
                && ([acc'] + rest[1..])[i'] == NearestHeightFold(acc', rest[1..], target);
      FoldStepKeepsFirstNearest(acc, y, rest[1..], target, i');
      var i := if i' > 0 then i' + 1 else if acc' == y && Distance(y, target) < Distance(acc, target) then 1 else 0;
      assert [acc] + rest == [acc, y] + rest[1..];
      assert NearestHeightFold(acc, rest, target) == NearestHeightFold(acc', rest[1..], target);
      assert IsFirstNearest([acc] + rest, i, target);
      assert ([acc] + rest)[i] == NearestHeightFold(acc, rest, target);
    }
  }

  /** `AtheleteDb.nearest_height(target)`: among the athletes whose height is truthy, the
      first of those closest to `target`; `EmptySequence` when there are none. */
  function NearestHeight(athletes: seq<Athlete>, target: real): (r: Result<Athlete, NearestError>)
    ensures r.Err? <==> forall a :: a in athletes ==> !HasHeight(a)
    ensures r.Err? ==> r.error == EmptySequence
    ensures r.Ok? ==> r.value in athletes && HasHeight(r.value)
    ensures r.Ok? ==> forall a :: a in athletes && HasHeight(a) ==> Distance(r.value, target) <= Distance(a, target)
    ensures r.Ok? ==> exists i :: IsFirstNearest(Filter(athletes, HasHeight), i, target)
                               && Filter(athletes, HasHeight)[i] == r.value
  {
    FilterMembers(athletes, HasHeight);
    var c := Filter(athletes, HasHeight);
    if c == [] then
      Err(EmptySequence)
    else
      assert c[0] in c;
      assert c == [c[0]] + c[1..];
      NearestHeightFoldIsFirstNearest(c[0], c[1..], target);
      var r := NearestHeightFold(c[0], c[1..], target);
      assert forall a :: a in athletes && HasHeight(a) ==> Distance(r, target) <= Distance(a, target) by {
        forall a | a in athletes && HasHeight(a) ensures Distance(r, target) <= Distance(a, target) {
          var j :| 0 <= j < |c| && c[j] == a;
        }
      }
      Ok(r)
  }

  /** An athlete of the given height with every other column NULL. */
  function Measured(id: int, height: real): (a: Athlete)
  {
    Athlete(id, None, None, None, Some(height), None, None, None, None, None, None, None)
  }

  /** Heights 1.60, 1.75 and 1.90 with target 1.80 give the 1.75 athlete. */
  lemma NearestHeightExample()
    ensures NearestHeight([Measured(1, 1.60), Measured(2, 1.75), Measured(3, 1.90)], 1.80) == Ok(Measured(2, 1.75))
  {
    var s := [Measured(1, 1.60), Measured(2, 1.75), Measured(3, 1.90)];
    var r := NearestHeight(s, 1.80);
    assert HasHeight(s[1]);
    assert Distance(r.value, 1.80) <= Distance(s[1], 1.80) == 0.05;
  }

  /** On a tie the earlier athlete wins, and an athlete of height zero is not considered.
      Heights 1.5 and 2.0 are both 0.25 from 1.75, and all three values are exact in binary
      floating point, so the tie is one in the program's arithmetic too. */
  lemma NearestHeightTieExample()
    ensures NearestHeight([Measured(1, 0.0), Measured(2, 1.5), Measured(3, 2.0)], 1.75) == Ok(Measured(2, 1.5))
  {
    var s := [Measured(1, 0.0), Measured(2, 1.5), Measured(3, 2.0)];
    var r := NearestHeight(s, 1.75);
    assert HasHeight(s[1]);
    assert Filter(s, HasHeight) == [s[1], s[2]] by {
      assert s[1..] == [s[1], s[2]] && s[1..][1..] == [s[2]] && s[1..][1..][1..] == [];
    }
    var i :| IsFirstNearest([s[1], s[2]], i, 1.75) && [s[1], s[2]][i] == r.value;
    assert Distance(s[1], 1.75) == Distance(s[2], 1.75) == 0.25;
  }


  // ---- nearest_birthdate ----

  /** `x.birthdate` is truthy: present and not the empty string. */
  predicate HasBirthdate(a: Athlete)
  {
    a.birthdate.Some? && a.birthdate.value != ""
  }

  /** The sort key `x.birthdate`. */
  function Key(a: Athlete): (key: string)
  {
    if a.birthdate.Some? then a.birthdate.value else ""
  }

  /** No element sorts before an earlier one. */
  ghost predicate SortedByKey(s: seq<Athlete>)
  {
    forall i, j :: 0 <= i < j < |s| ==> !Strings.Less(Key(s[j]), Key(s[i]))
  }

  /** Put `x` in front of the first element whose key is not smaller than its own. */
  function Insert(x: Athlete, s: seq<Athlete>): (r: seq<Athlete>)
    ensures multiset(r) == multiset(s) + multiset{x}
    ensures SortedByKey(s) ==> SortedByKey(r)
  {
    if s == [] || !Strings.Less(Key(s[0]), Key(x)) then
      InsertInFront(x, s);
      [x] + s
    else
      var rest := Insert(x, s[1..]);
      assert s == [s[0]] + s[1..];
      assert multiset(s[1..]) <= multiset(s);
      InsertBehind(x, s, rest);
      [s[0]] + rest
  }

  lemma InsertInFront(x: Athlete, s: seq<Athlete>)
    requires s == [] || !Strings.Less(Key(s[0]), Key(x))
    ensures SortedByKey(s) ==> SortedByKey([x] + s)
  {
    if SortedByKey(s) && s != [] {
      forall j | 0 <= j < |s| ensures !Strings.Less(Key(s[j]), Key(x)) {
        if Strings.Less(Key(s[j]), Key(x)) {
          Strings.LessTotal(Key(x), Key(s[0]));
          if Key(x) != Key(s[0]) {
            Strings.LessTransitive(Key(s[j]), Key(x), Key(s[0]));
          }
        }
      }
    }
  }

  lemma InsertBehind(x: Athlete, s: seq<Athlete>, rest: seq<Athlete>)
    requires s != [] && Strings.Less(Key(s[0]), Key(x))
    requires multiset(rest) == multiset(s[1..]) + multiset{x}
    requires SortedByKey(s[1..]) ==> SortedByKey(rest)
    ensures SortedByKey(s) ==> SortedByKey([s[0]] + rest)
  {
    if SortedByKey(s) {
      assert SortedByKey(s[1..]);
      forall j | 0 <= j < |rest| ensures !Strings.Less(Key(rest[j]), Key(s[0])) {
        assert rest[j] in multiset(rest);
        if rest[j] == x {
          if Strings.Less(Key(x), Key(s[0])) {
            Strings.LessTransitive(Key(x), Key(s[0]), Key(x));
            Strings.LessIrreflexive(Key(x));
          }
        } else {
          assert rest[j] in multiset(s[1..]);
          var m :| 0 <= m < |s[1..]| && s[1..][m] == rest[j];
          assert s[m + 1] == rest[j];
        }
      }
    }
  }

  /** `sorted(items, key=lambda x: x.birthdate)`: a stable sort by birthdate string.  The
      result is a permutation of the input, ordered by key (lemma SortIsStable: equal keys
      keep their input order). */
  function SortByBirthdate(s: seq<Athlete>): (r: seq<Athlete>)
    ensures multiset(r) == multiset(s)
    ensures SortedByKey(r)
  {
    if s == [] then []
    else
      assert s == [s[0]] + s[1..];
      Insert(s[0], SortByBirthdate(s[1..]))
  }

  /** The elements whose key is `k`, in order. */
  function WithKey(s: seq<Athlete>, k: string): (r: seq<Athlete>)
  {
    if s == [] then [] else (if Key(s[0]) == k then [s[0]] else []) + WithKey(s[1..], k)
  }

  /** Unfolding WithKey over a sequence with a known first element. */
  lemma WithKeyCons(a: Athlete, s: seq<Athlete>, k: string)
    ensures WithKey([a] + s, k) == (if Key(a) == k then [a] else []) + WithKey(s, k)
  {
    assert ([a] + s)[0] == a && ([a] + s)[1..] == s;
  }

  /** Placing an element with another key in front keeps the elements with key `k`. */
  lemma WithKeyBehind(x: Athlete, s: seq<Athlete>, rest: seq<Athlete>, k: string)
    requires s != [] && Key(s[0]) != Key(x)
    requires WithKey(rest, k) == (if Key(x) == k then [x] else []) + WithKey(s[1..], k)
    ensures WithKey([s[0]] + rest, k) == (if Key(x) == k then [x] else []) + WithKey(s, k)
  {
    WithKeyCons(s[0], rest, k);
    if Key(x) == k {
      assert WithKey(s, k) == WithKey(s[1..], k);
      assert WithKey([s[0]] + rest, k) == WithKey(rest, k);
    } else {
      assert WithKey(rest, k) == WithKey(s[1..], k);
    }
  }

  lemma {:induction false} InsertWithKey(x: Athlete, s: seq<Athlete>, k: string)
    ensures WithKey(Insert(x, s), k) == (if Key(x) == k then [x] else []) + WithKey(s, k)
  {
    if s == [] || !Strings.Less(Key(s[0]), Key(x)) {
      WithKeyCons(x, s, k);
    } else {
      InsertWithKey(x, s[1..], k);
      Strings.LessIrreflexive(Key(x));
      WithKeyBehind(x, s, Insert(x, s[1..]), k);
    }
  }

  /** The sort is stable: for every key, the elements with that key come out in the order
      they went in. */
  lemma {:induction false} SortIsStable(s: seq<Athlete>, k: string)
    ensures WithKey(SortByBirthdate(s), k) == WithKey(s, k)
  {
    if s != [] {
      SortIsStable(s[1..], k);
      InsertWithKey(s[0], SortByBirthdate(s[1..]), k);
    }
  }

  /** The athletes `nearest_birthdate` folds over: those with a birthdate, sorted by it. */
  function BirthdateCandidates(athletes: seq<Athlete>): (c: seq<Athlete>)
    ensures SortedByKey(c)
    ensures multiset(c) == multiset(Filter(athletes, HasBirthdate))
    ensures forall a :: a in c <==> a in athletes && HasBirthdate(a)
  {
    FilterMembers(athletes, HasBirthdate);
    var c := SortByBirthdate(Filter(athletes, HasBirthdate));
    assert forall a :: a in c <==> a in multiset(c);
    c
  }

  /** `date.fromisoformat(a.birthdate) < target` */
  predicate BornBefore(a: Athlete, target: Date)
  {
    ParseIsoDate(Key(a)).Some? && Before(ParseIsoDate(Key(a)).value, target)
  }

  /** `a`'s birthdate parses and is not before `target`. */
  predicate BornOnOrAfter(a: Athlete, target: Date)
  {
    ParseIsoDate(Key(a)).Some? && !Before(ParseIsoDate(Key(a)).value, target)
  }

  /** `reduce(lambda x, y: y if date.fromisoformat(x.birthdate) < target else x, ...)` with
      `acc` the first item and `rest` the others: the accumulator advances to the next item
      only while its own date is before `target`. */
  function NearestBirthdateFold(acc: Athlete, rest: seq<Athlete>, target: Date): (r: Result<Athlete, NearestError>)
    decreases |rest|
  {
    if rest == [] then Ok(acc)
    else
      match ParseIsoDate(Key(acc))
      case None => Err(InvalidIsoDate(Key(acc)))
      case Some(d) => NearestBirthdateFold(if Before(d, target) then rest[0] else acc, rest[1..], target)
  }

  /** Every element before position `k` of `xs` was born before `target`. */
  predicate AllBornBefore(xs: seq<Athlete>, k: int, target: Date)
  {
    forall j :: 0 <= j < k && j < |xs| ==> BornBefore(xs[j], target)
  }

  /** The fold stops at position `k`: all earlier elements were born before `target`, and the
      element at `k` was born on or after it, unless `k` is the last position. */
  predicate StopsAt(xs: seq<Athlete>, k: int, target: Date)
  {
    0 <= k < |xs| && AllBornBefore(xs, k, target) && (k < |xs| - 1 ==> BornOnOrAfter(xs[k], target))
  }

  /** Once the accumulator is on or after the target it never moves again. */
  lemma {:induction false} FoldStaysPut(acc: Athlete, rest: seq<Athlete>, target: Date)
    requires BornOnOrAfter(acc, target)
    ensures NearestBirthdateFold(acc, rest, target) == Ok(acc)
    decreases |rest|
  {
    if rest != [] {
      FoldStaysPut(acc, rest[1..], target);
    }
  }

  /** Putting an element born before `target` in front extends a prefix born before it by
      one. */
  lemma AllBornBeforeShift(acc: Athlete, rest: seq<Athlete>, k: int, target: Date)
    requires BornBefore(acc, target) && AllBornBefore(rest, k, target) && 0 <= k <= |rest|
    ensures AllBornBefore([acc] + rest, k + 1, target)
  {
    var xs := [acc] + rest;
    forall j | 0 <= j < k + 1 && j < |xs|
      ensures BornBefore(xs[j], target)
    {
      if j > 0 {
        assert xs[j] == rest[j - 1];
      }
    }
  }

  /** Putting an element born before `target` in front moves the stopping point by one. */
  lemma StopsAtShift(acc: Athlete, rest: seq<Athlete>, k: int, target: Date)
    requires BornBefore(acc, target) && StopsAt(rest, k, target)
    ensures StopsAt([acc] + rest, k + 1, target) && ([acc] + rest)[k + 1] == rest[k]
  {
    AllBornBeforeShift(acc, rest, k, target);
    assert ([acc] + rest)[k + 1] == rest[k];
  }

  /** The fold returns the first element born on or after `target`, or the last element when
      every other one was born before it. */
  lemma {:induction false} NearestBirthdateFoldStops(acc: Athlete, rest: seq<Athlete>, target: Date)
    requires NearestBirthdateFold(acc, rest, target).Ok?
    ensures exists k :: StopsAt([acc] + rest, k, target) && ([acc] + rest)[k] == NearestBirthdateFold(acc, rest, target).value
    decreases |rest|
  {
    var xs := [acc] + rest;
    if rest == [] {
      assert StopsAt(xs, 0, target) && xs[0] == acc;
    } else if !BornBefore(acc, target) {
      FoldStaysPut(acc, rest, target);
      assert StopsAt(xs, 0, target) && xs[0] == acc;
    } else {
      var r := NearestBirthdateFold(rest[0], rest[1..], target);
      assert NearestBirthdateFold(acc, rest, target) == r;
      NearestBirthdateFoldStops(rest[0], rest[1..], target);
      assert [rest[0]] + rest[1..] == rest;
      var k :| StopsAt(rest, k, target) && rest[k] == r.value;
      StopsAtShift(acc, rest, k, target);
    }
  }

  /** The fold raises for a stored birthdate that does not parse only when the accumulator
      reaches that element before the last position. */
  lemma {:induction false} NearestBirthdateFoldFails(acc: Athlete, rest: seq<Athlete>, target: Date)
    requires NearestBirthdateFold(acc, rest, target).Err?
    ensures exists k :: 0 <= k < |rest| && AllBornBefore([acc] + rest, k, target)
                     && ParseIsoDate(Key(([acc] + rest)[k])).None?
                     && NearestBirthdateFold(acc, rest, target).error == InvalidIsoDate(Key(([acc] + rest)[k]))
    decreases |rest|
  {
    var xs := [acc] + rest;
    var parsed := ParseIsoDate(Key(acc));
    if parsed.None? {
      assert AllBornBefore(xs, 0, target);
    } else if !Before(parsed.value, target) {
      FoldStaysPut(acc, rest, target);
    } else {
      assert NearestBirthdateFold(acc, rest, target) == NearestBirthdateFold(rest[0], rest[1..], target);
      NearestBirthdateFoldFails(rest[0], rest[1..], target);
      assert rest == [rest[0]] + rest[1..];
      var k :| 0 <= k < |rest| - 1 && AllBornBefore(rest, k, target) && ParseIsoDate(Key(rest[k])).None?
               && NearestBirthdateFold(rest[0], rest[1..], target).error == InvalidIsoDate(Key(rest[k]));
      AllBornBeforeShift(acc, rest, k, target);
      assert xs[k + 1] == rest[k];
    }
  }

  /** `AtheleteDb.nearest_birthdate(target)`: folds over the athletes with a birthdate,
      sorted by it, and returns the first born on or after `target`, or the last one when
      all others were born before it. */
  function NearestBirthdate(athletes: seq<Athlete>, target: Date): (r: Result<Athlete, NearestError>)
    ensures r == Err(EmptySequence) <==> forall a :: a in athletes ==> !HasBirthdate(a)
    ensures r.Ok? ==> exists k :: StopsAt(BirthdateCandidates(athletes), k, target)
                               && BirthdateCandidates(athletes)[k] == r.value
    ensures r.Err? && r != Err(EmptySequence) ==>
      exists k :: 0 <= k < |BirthdateCandidates(athletes)| - 1
               && AllBornBefore(BirthdateCandidates(athletes), k, target)
               && ParseIsoDate(Key(BirthdateCandidates(athletes)[k])).None?
  {
    var c := BirthdateCandidates(athletes);
    if c == [] then
      Err(EmptySequence)
    else
      assert c[0] in c;
      assert c == [c[0]] + c[1..];
      var r := NearestBirthdateFold(c[0], c[1..], target);
      if r.Ok? then
        NearestBirthdateFoldStops(c[0], c[1..], target);
        r
      else
        NearestBirthdateFoldFails(c[0], c[1..], target);
        r
  }

  /** The date of an athlete whose stored birthdate parses. */
  function BirthDate(a: Athlete): (d: Date)
    requires ParseIsoDate(Key(a)).Some?
  {
    ParseIsoDate(Key(a)).value
  }

  /** Sorting by birthdate string sorts by date, for birthdates that parse. */
  lemma SortedCandidatesByDate(c: seq<Athlete>, i: int, j: int)
    requires SortedByKey(c) && 0 <= i <= j < |c|
    requires ParseIsoDate(Key(c[i])).Some? && ParseIsoDate(Key(c[j])).Some?
    ensures !Before(BirthDate(c[j]), BirthDate(c[i]))
  {
    ParsedFormatsBack(Key(c[i]));
    ParsedFormatsBack(Key(c[j]));
    FormatOrderIsDateOrder(BirthDate(c[j]), BirthDate(c[i]));
  }

  /** A position of `x` in `c`. */
  lemma PositionOf(c: seq<Athlete>, x: Athlete) returns (m: int)
    requires x in c
    ensures 0 <= m < |c| && c[m] == x
  {
    m :| 0 <= m < |c| && c[m] == x;
  }

  /** Every stored birthdate that is present parses as an ISO date. */
  predicate AllBirthdatesParse(athletes: seq<Athlete>)
  {
    forall a :: a in athletes && HasBirthdate(a) ==> ParseIsoDate(Key(a)).Some?
  }

  /** When every stored birthdate is a valid ISO date and at least one athlete has one,
      `nearest_birthdate` succeeds, with an athlete that has a birthdate, found at the
      position where the fold over the sorted candidates stops. */
  lemma NearestBirthdateSucceeds(athletes: seq<Athlete>, target: Date) returns (k: int)
    requires exists a :: a in athletes && HasBirthdate(a)
    requires AllBirthdatesParse(athletes)
    ensures NearestBirthdate(athletes, target).Ok?
    ensures NearestBirthdate(athletes, target).value in athletes
    ensures HasBirthdate(NearestBirthdate(athletes, target).value)
    ensures StopsAt(BirthdateCandidates(athletes), k, target)
    ensures BirthdateCandidates(athletes)[k] == NearestBirthdate(athletes, target).value
  {
    var c := BirthdateCandidates(athletes);
    var res := NearestBirthdate(athletes, target);
    if res.Err? {
      assert false;
    }
    k :| StopsAt(c, k, target) && c[k] == res.value;
    assert c[k] in c;
  }

  /** If some athlete was born on or after `target`, `nearest_birthdate` returns one born on
      or after `target`, and no athlete born on or after `target` was born earlier than it. */
  lemma NearestBirthdateIsEarliestOnOrAfter(athletes: seq<Athlete>, target: Date, b: Athlete)
    requires b in athletes && HasBirthdate(b) && BornOnOrAfter(b, target)
    requires AllBirthdatesParse(athletes)
    ensures NearestBirthdate(athletes, target).Ok?
    ensures BornOnOrAfter(NearestBirthdate(athletes, target).value, target)
    ensures forall b' :: b' in athletes && HasBirthdate(b') && BornOnOrAfter(b', target) ==>
              !Before(BirthDate(b'), BirthDate(NearestBirthdate(athletes, target).value))
  {
    var k := NearestBirthdateSucceeds(athletes, target);
    var c := BirthdateCandidates(athletes);
    var r := NearestBirthdate(athletes, target).value;
    assert b in c;
    var m := PositionOf(c, b);
    assert BornOnOrAfter(r, target) by {
      if k == |c| - 1 {
        assert m == k;
      }
    }
    forall b' | b' in athletes && HasBirthdate(b') && BornOnOrAfter(b', target)
      ensures !Before(BirthDate(b'), BirthDate(r))
    {
      assert b' in c;
      var m' := PositionOf(c, b');
      assert m' >= k;
      SortedCandidatesByDate(c, k, m');
    }
  }

  /** If every athlete with a birthdate was born before `target`, `nearest_birthdate`
      returns one that no athlete was born after: the latest born. */
  lemma NearestBirthdateIsLatestWhenAllBefore(athletes: seq<Athlete>, target: Date)
    requires exists a :: a in athletes && HasBirthdate(a)
    requires AllBirthdatesParse(athletes)
    requires forall b :: b in athletes && HasBirthdate(b) ==> BornBefore(b, target)
    ensures NearestBirthdate(athletes, target).Ok?
    ensures forall b :: b in athletes && HasBirthdate(b) ==>
              !Before(BirthDate(NearestBirthdate(athletes, target).value), BirthDate(b))
  {
    var k := NearestBirthdateSucceeds(athletes, target);
    var c := BirthdateCandidates(athletes);
    var r := NearestBirthdate(athletes, target).value;
    assert c[k] in c;
    assert k == |c| - 1;
    forall b | b in athletes && HasBirthdate(b) ensures !Before(BirthDate(r), BirthDate(b)) {
      assert b in c;
      var m := PositionOf(c, b);
      SortedCandidatesByDate(c, m, k);
    }
  }
}
