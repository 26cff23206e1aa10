/** What it means to pick the wanted elements of a sequence, each of them and no other, in order. */
module Selections {
  /** The places of the wanted elements, ascending. */
  ghost predicate Places<T>(places: seq<nat>, s: seq<T>, wanted: T -> bool) {
    && (forall j, k :: 0 <= j < k < |places| ==> places[j] < places[k])
    && (forall j :: 0 <= j < |places| ==> places[j] < |s| && wanted(s[places[j]]))
    && forall i :: 0 <= i < |s| && wanted(s[i]) ==> i in places
  }

  /** The picked elements stand at these places. */
  ghost predicate Stand<T>(picked: seq<T>, places: seq<nat>, s: seq<T>) {
    |picked| == |places| && forall j :: 0 <= j < |places| ==> places[j] < |s| && picked[j] == s[places[j]]
  }

  ghost predicate IsSelection<T>(picked: seq<T>, s: seq<T>, wanted: T -> bool) {
    exists places: seq<nat> :: Places(places, s, wanted) && Stand(picked, places, s)
  }

  /** How many elements are wanted. */
  function Count<T>(s: seq<T>, wanted: T -> bool): nat {
    if s == [] then 0 else (if wanted(s[0]) then 1 else 0) + Count(s[1..], wanted)
  }

  function Shifted(places: seq<nat>): seq<nat> {
    seq(|places|, j requires 0 <= j < |places| => places[j] + 1)
  }

  lemma ShiftedPlaces<T>(places: seq<nat>, s: seq<T>, wanted: T -> bool)
    requires s != [] && Places(places, s[1..], wanted)
    ensures Places(if wanted(s[0]) then [0] + Shifted(places) else Shifted(places), s, wanted)
  {
    var shifted := Shifted(places);
    var all := if wanted(s[0]) then [0] + shifted else shifted;
    forall i | 0 <= i < |s| && wanted(s[i])
      ensures i in all
    {
      if i > 0 {
        assert s[1..][i - 1] == s[i];
        var j :| 0 <= j < |places| && places[j] == i - 1;
        assert shifted[j] == i;
      }
    }
  }

  lemma ShiftedStand<T>(picked: seq<T>, places: seq<nat>, head: T, rest: seq<T>)
    requires Stand(picked, places, rest)
    ensures Stand(picked, Shifted(places), [head] + rest)
  {
    var s, shifted := [head] + rest, Shifted(places);
    forall j | 0 <= j < |places|
      ensures shifted[j] < |s| && picked[j] == s[shifted[j]]
    {
      assert s[places[j] + 1] == rest[places[j]];
    }
  }

  lemma StandCons<T>(picked: seq<T>, places: seq<nat>, s: seq<T>)
    requires s != [] && Stand(picked, places, s)
    ensures Stand([s[0]] + picked, [0] + places, s)
  {
  }

  /** Picking from the rest, and the head if it is wanted. */
  lemma SelectionOfCons<T>(head: T, rest: seq<T>, wanted: T -> bool, picked: seq<T>)
    requires IsSelection(picked, rest, wanted)
    ensures IsSelection(if wanted(head) then [head] + picked else picked, [head] + rest, wanted)
  {
    var s := [head] + rest;
    var places: seq<nat> :| Places(places, rest, wanted) && Stand(picked, places, rest);
    assert s[1..] == rest;
    ShiftedPlaces(places, s, wanted);
    ShiftedStand(picked, places, head, rest);
    StandCons(picked, Shifted(places), s);
  }

  /** The places so far, and the next one if its element is wanted. */
  lemma PlacesSnoc<T>(places: seq<nat>, s: seq<T>, n: nat, wanted: T -> bool)
    requires n < |s| && Places(places, s[..n], wanted)
    ensures Places(if wanted(s[n]) then places + [n] else places, s[..n + 1], wanted)
  {
    var more, now := if wanted(s[n]) then places + [n] else places, s[..n + 1];
    forall i | 0 <= i < |now| && wanted(now[i])
      ensures i in more
    {
      if i < n {
        PlaceOf(places, s, n, wanted, i);
      }
    }
    forall j | 0 <= j < |more|
      ensures more[j] < |now| && wanted(now[more[j]])
    {
      if j < |places| {
        PlaceStays(places, s, n, wanted, j);
      }
    }
  }

  lemma PlaceOf<T>(places: seq<nat>, s: seq<T>, n: nat, wanted: T -> bool, i: nat)
    requires n <= |s| && Places(places, s[..n], wanted) && i < n && wanted(s[i])
    ensures i in places
  {
    assert s[..n][i] == s[i];
  }

  lemma PlaceStays<T>(places: seq<nat>, s: seq<T>, n: nat, wanted: T -> bool, j: nat)
    requires n <= |s| && Places(places, s[..n], wanted) && j < |places|
    ensures places[j] < n && wanted(s[places[j]])
  {
    assert s[..n][places[j]] == s[places[j]];
  }

  /** One answer for each wanted element, in order, and it is one that the element can have. */
  ghost predicate Answers<T, U>(s: seq<T>, given: seq<U>, wanted: T -> bool, fits: (T, U) -> bool) {
    exists places: seq<nat> :: Places(places, s, wanted) && AnswersAt(s, places, given, fits)
  }

  ghost predicate AnswersAt<T, U>(s: seq<T>, places: seq<nat>, given: seq<U>, fits: (T, U) -> bool) {
    |given| == |places| && forall j :: 0 <= j < |given| ==> places[j] < |s| && fits(s[places[j]], given[j])
  }

  lemma AnswersNone<T, U>(wanted: T -> bool, fits: (T, U) -> bool)
    ensures Answers([], [], wanted, fits)
  {
    assert Places<T>([], [], wanted) && AnswersAt<T, U>([], [], [], fits);
  }

  /** An answer more if the last element is wanted. */
  lemma AnswersSnoc<T, U>(s: seq<T>, given: seq<U>, more: seq<U>, wanted: T -> bool, fits: (T, U) -> bool)
    requires s != [] && Answers(s[..|s| - 1], given, wanted, fits)
    requires if wanted(s[|s| - 1]) then |more| == 1 && fits(s[|s| - 1], more[0]) else more == []
    ensures Answers(s, given + more, wanted, fits)
  {
    if wanted(s[|s| - 1]) {
      assert more == [more[0]];
      AnswersAdd(s, given, more[0], wanted, fits);
    } else {
      assert given + more == given;
      AnswersSkip(s, given, wanted, fits);
    }
  }

  lemma AnswersAdd<T, U>(s: seq<T>, given: seq<U>, x: U, wanted: T -> bool, fits: (T, U) -> bool)
    requires s != [] && Answers(s[..|s| - 1], given, wanted, fits)
    requires wanted(s[|s| - 1]) && fits(s[|s| - 1], x)
    ensures Answers(s, given + [x], wanted, fits)
  {
    var places := PlacesOfAnswers(s, given, wanted, fits);
    PlacesSnoc(places, s, |s| - 1, wanted);
    assert s[..|s| - 1 + 1] == s;
    AnswersAtSnoc(s, places, given, x, fits);
  }

  lemma AnswersSkip<T, U>(s: seq<T>, given: seq<U>, wanted: T -> bool, fits: (T, U) -> bool)
    requires s != [] && Answers(s[..|s| - 1], given, wanted, fits) && !wanted(s[|s| - 1])
    ensures Answers(s, given, wanted, fits)
  {
    var places := PlacesOfAnswers(s, given, wanted, fits);
    PlacesSnoc(places, s, |s| - 1, wanted);
    assert s[..|s| - 1 + 1] == s;
  }

  lemma PlacesOfAnswers<T, U>(s: seq<T>, given: seq<U>, wanted: T -> bool, fits: (T, U) -> bool)
    returns (places: seq<nat>)
    requires s != [] && Answers(s[..|s| - 1], given, wanted, fits)
    ensures Places(places, s[..|s| - 1], wanted) && AnswersAt(s, places, given, fits)
  {
    places :| Places(places, s[..|s| - 1], wanted) && AnswersAt(s[..|s| - 1], places, given, fits);
    AnswersAtMore(s, places, given, fits);
  }

  lemma AnswersAtSnoc<T, U>(s: seq<T>, places: seq<nat>, given: seq<U>, x: U, fits: (T, U) -> bool)
    requires s != [] && AnswersAt(s, places, given, fits) && fits(s[|s| - 1], x)
    ensures AnswersAt(s, places + [|s| - 1], given + [x], fits)
  {
  }

  lemma AnswersAtMore<T, U>(s: seq<T>, places: seq<nat>, given: seq<U>, fits: (T, U) -> bool)
    requires s != [] && AnswersAt(s[..|s| - 1], places, given, fits)
    ensures AnswersAt(s, places, given, fits)
  {
    assert forall i :: 0 <= i < |s| - 1 ==> s[..|s| - 1][i] == s[i];
  }

  lemma SelectionOfNone<T>(wanted: T -> bool)
    ensures IsSelection([], [], wanted)
  {
    assert Places<T>([], [], wanted) && Stand<T>([], [], []);
  }
}
