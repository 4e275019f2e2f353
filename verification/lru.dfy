/** The age-based replacement of one cache set, as the two macros of lru.h
    compute it. Ages are listed by way; both macros walk the ways in order
    0 .. WAYS - 1 and update the ages in place. */
module Lru {

  /** An age that has not reached the cap WAYS - 1 grows by one. */
  function Bumped(age: nat, ways: nat): nat
  {
    if age < ways - 1 then age + 1 else age
  }

  /** LRU_age_increase after its loop has handled ways 0 .. k - 1. */
  function IncreaseLoop(ages: seq<nat>, chosen: nat, k: nat): (r: seq<nat>)
    requires chosen < |ages| && k <= |ages|
    ensures |r| == |ages|
    ensures forall j :: 0 <= j < k ==> r[j] == (if j == chosen then 0 else Bumped(ages[j], |ages|))
    ensures forall j :: k <= j < |ages| ==> r[j] == ages[j]
    decreases k
  {
    if k == 0 then ages
    else
      var s := IncreaseLoop(ages, chosen, k - 1);
      var way := k - 1;
      if way != chosen then
        (if s[way] < |ages| - 1 then s[way := s[way] + 1] else s)
      else s[way := 0]
  }

  /** LRU_age_increase: the chosen way becomes the youngest, every other way
      grows one older up to the cap. */
  function AgeIncrease(ages: seq<nat>, chosen: nat): (r: seq<nat>)
    requires chosen < |ages|
    ensures |r| == |ages| && r[chosen] == 0
    ensures forall j :: 0 <= j < |ages| && j != chosen ==> r[j] == Bumped(ages[j], |ages|)
  {
    IncreaseLoop(ages, chosen, |ages|)
  }

  /** LRU_age_update after its loop has handled ways 0 .. k - 1. The
      comparison reads the chosen way's age from the array being updated, so
      once the loop has passed the chosen way it reads 0. */
  function UpdateLoop(ages: seq<nat>, chosen: nat, k: nat): (r: seq<nat>)
    requires chosen < |ages| && k <= |ages|
    ensures |r| == |ages|
    ensures forall j :: 0 <= j < k ==>
              r[j] == (if j == chosen then 0
                       else if j < chosen && ages[j] < |ages| - 1 && ages[j] < ages[chosen] then ages[j] + 1
                       else ages[j])
    ensures forall j :: k <= j < |ages| ==> r[j] == ages[j]
    decreases k
  {
    if k == 0 then ages
    else
      var s := UpdateLoop(ages, chosen, k - 1);
      var way := k - 1;
      if way != chosen then
        (if s[way] < |ages| - 1 && s[way] < s[chosen] then s[way := s[way] + 1] else s)
      else s[way := 0]
  }

  /** LRU_age_update: the chosen way becomes the youngest; a way before it
      grows older when it was younger than the chosen way and below the cap;
      a way after it keeps its age. */
  function AgeUpdate(ages: seq<nat>, chosen: nat): (r: seq<nat>)
    requires chosen < |ages|
    ensures |r| == |ages| && r[chosen] == 0
    ensures forall j :: 0 <= j < chosen ==>
              r[j] == (if ages[j] < |ages| - 1 && ages[j] < ages[chosen] then ages[j] + 1 else ages[j])
    ensures forall j :: chosen < j < |ages| ==> r[j] == ages[j]
  {
    UpdateLoop(ages, chosen, |ages|)
  }

  /** Reference rule of an LRU update: every way younger than the chosen one
      grows one older, wherever it sits in the set. */
  function AgeUpdatePrior(ages: seq<nat>, chosen: nat): (r: seq<nat>)
    requires chosen < |ages|
    ensures |r| == |ages|
  {
    seq(|ages|, j requires 0 <= j < |ages| =>
      if j == chosen then 0
      else if ages[j] < |ages| - 1 && ages[j] < ages[chosen] then ages[j] + 1
      else ages[j])
  }

  /** The written update agrees with the reference up to the chosen way and
      differs after it exactly on the ways the reference ages. */
  lemma UpdateAgainstPrior(ages: seq<nat>, chosen: nat, j: nat)
    requires chosen < |ages| && j < |ages|
    ensures j <= chosen ==> AgeUpdate(ages, chosen)[j] == AgeUpdatePrior(ages, chosen)[j]
    ensures j > chosen ==>
              (AgeUpdate(ages, chosen)[j] != AgeUpdatePrior(ages, chosen)[j]
               <==> ages[j] < |ages| - 1 && ages[j] < ages[chosen])
  {
  }

  /** Every age is at most WAYS - 1. */
  predicate AgesCapped(ages: seq<nat>)
  {
    forall j :: 0 <= j < |ages| ==> ages[j] <= |ages| - 1
  }

  /** Both macros keep the ages within the cap. */
  lemma AgesStayCapped(ages: seq<nat>, chosen: nat)
    requires chosen < |ages| && AgesCapped(ages)
    ensures AgesCapped(AgeIncrease(ages, chosen))
    ensures AgesCapped(AgeUpdate(ages, chosen))
  {
  }

  /** A hit on the youngest way changes no age. */
  lemma UpdateOfYoungestIsIdentity(ages: seq<nat>, chosen: nat)
    requires chosen < |ages| && ages[chosen] == 0
    ensures AgeUpdate(ages, chosen) == ages
  {
  }

  /** No two ways share an age. */
  predicate DistinctAges(ages: seq<nat>)
  {
    forall i, j :: 0 <= i < j < |ages| ==> ages[i] != ages[j]
  }

  /** The reference update keeps the ages of a set distinct, as an LRU
      order should. */
  lemma PriorKeepsDistinct(ages: seq<nat>, chosen: nat)
    requires chosen < |ages| && DistinctAges(ages) && AgesCapped(ages)
    ensures DistinctAges(AgeUpdatePrior(ages, chosen))
  {
  }

  /** The written update does not: a hit on way 0 aged 1 leaves way 1 at age
      0 next to it. */
  lemma LiveReadLosesOrder()
    ensures DistinctAges([1, 0]) && AgeUpdate([1, 0], 0) == [0, 0]
    ensures AgeUpdatePrior([1, 0], 0) == [0, 1]
  {
  }
}
