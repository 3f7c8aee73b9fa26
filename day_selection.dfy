/** The day multi-select of the "new recurring task" conversation: tapping a day adds
    it to the selection when it is absent and removes it when it is present. */
module DaySelection {
  import opened Storage

  /** The position of the first occurrence of `d`. */
  function FirstIndex(days: seq<string>, d: string): (k: nat)
    requires d in days
    ensures k < |days| && days[k] == d && d !in days[..k]
  {
    if days[0] == d then 0
    else
      var k := FirstIndex(days[1..], d);
      assert days[..k + 1] == [days[0]] + days[1..][..k];
      k + 1
  }

  /** `list.remove(x)`: drops the first occurrence of `d`, the other days keep their order. */
  function RemoveFirst(days: seq<string>, d: string): (r: seq<string>)
    requires d in days
    ensures |r| == |days| - 1
    ensures multiset(r) == multiset(days) - multiset{d}
    ensures forall x :: x in r ==> x in days
  {
    assert days == [days[0]] + days[1..];
    if days[0] == d then days[1..]
    else
      var rest := RemoveFirst(days[1..], d);
      assert multiset([days[0]] + rest) == multiset{days[0]} + multiset(rest);
      [days[0]] + rest
  }

  /** The days `remove` keeps stay in their order: the selection is cut at the first
      occurrence of `d` and closed up. */
  lemma {:induction false} RemoveFirstKeepsOrder(days: seq<string>, d: string)
    requires d in days
    ensures RemoveFirst(days, d) == days[..FirstIndex(days, d)] + days[FirstIndex(days, d) + 1..]
  {
    if days[0] != d {
      RemoveFirstKeepsOrder(days[1..], d);
      var k := FirstIndex(days[1..], d);
      assert days[..k + 1] == [days[0]] + days[1..][..k];
      assert days[k + 2..] == days[1..][k + 1..];
    }
  }

  lemma DistinctTail(days: seq<string>)
    requires days != [] && Distinct(days)
    ensures Distinct(days[1..]) && days[0] !in days[1..]
  {
  }

  /** On a selection without repeats, removing a day leaves no copy of it behind. */
  lemma {:induction false} RemoveFirstDistinct(days: seq<string>, d: string)
    requires d in days && Distinct(days)
    ensures Distinct(RemoveFirst(days, d)) && d !in RemoveFirst(days, d)
  {
    DistinctTail(days);
    if days[0] != d {
      RemoveFirstDistinct(days[1..], d);
      var rest := RemoveFirst(days[1..], d);
      var r := [days[0]] + rest;
      assert days[0] !in rest;
      forall i, j | 0 <= i < j < |r| ensures r[i] != r[j] {
        if i == 0 { assert r[j] == rest[j - 1]; } else { assert r[i] == rest[i - 1] && r[j] == rest[j - 1]; }
      }
    }
  }

  lemma RemoveFirstKeepsOthers(days: seq<string>, d: string)
    requires d in days
    ensures forall x :: x != d ==> (x in RemoveFirst(days, d) <==> x in days)
  {
    var r := RemoveFirst(days, d);
    forall x | x != d ensures x in r <==> x in days {
      assert x in r <==> x in multiset(r);
      assert x in days <==> x in multiset(days);
    }
  }

  /** One tap on day `d`. */
  function ToggleDay(days: seq<string>, d: string): (r: seq<string>)
    ensures d !in days ==> r == days + [d]
    ensures d in days ==> multiset(r) == multiset(days) - multiset{d}
    ensures d in days ==> r == days[..FirstIndex(days, d)] + days[FirstIndex(days, d) + 1..]
    ensures forall x :: x != d ==> (x in r <==> x in days)
    ensures Distinct(days) ==> Distinct(r) && (d in r <==> d !in days)
  {
    if d in days then
      var r := RemoveFirst(days, d);
      RemoveFirstKeepsOrder(days, d);
      assert Distinct(days) ==> Distinct(r) && d !in r by {
        if Distinct(days) { RemoveFirstDistinct(days, d); }
      }
      RemoveFirstKeepsOthers(days, d);
      r
    else
      AppendFreshDistinct(days, d);
      days + [d]
  }

  lemma AppendFreshDistinct(days: seq<string>, d: string)
    requires d !in days
    ensures Distinct(days) ==> Distinct(days + [d])
  {
    if Distinct(days) {
      forall i, j | 0 <= i < j < |days + [d]| ensures (days + [d])[i] != (days + [d])[j] {
        if j == |days| { assert (days + [d])[i] == days[i]; }
      }
    }
  }

  /** Tapping an unselected day twice restores the selection. */
  lemma ToggleTwiceRestores(days: seq<string>, d: string)
    requires d !in days
    ensures ToggleDay(ToggleDay(days, d), d) == days
  {
    assert (days + [d])[|days|] == d;
    assert forall i :: 0 <= i < |days| ==> (days + [d])[i] == days[i];
    RemoveLast(days, d);
  }

  lemma {:induction false} RemoveLast(days: seq<string>, d: string)
    requires d !in days
    ensures RemoveFirst(days + [d], d) == days
  {
    if days != [] {
      assert (days + [d])[0] == days[0] && (days + [d])[1..] == days[1..] + [d];
      RemoveLast(days[1..], d);
      assert days == [days[0]] + days[1..];
    }
  }
}
