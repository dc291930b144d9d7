/** Counting and adding up along a sequence. */
module Counting {
  import opened Saturating

  /** How many of the flags are set. */
  function HowMany(flags: seq<bool>): (r: nat) {
    multiset(flags)[true]
  }

  lemma HowManyCons(flag: bool, flags: seq<bool>)
    ensures HowMany([flag] + flags) == (if flag then 1 else 0) + HowMany(flags)
    ensures HowMany([]) == 0
  {
  }

  lemma SumSnoc(xs: seq<nat>, x: nat)
    ensures Sum(xs + [x]) == Sum(xs) + x
  {
    assert (xs + [x])[..|xs|] == xs;
  }

  lemma {:induction false} SumCons(x: nat, xs: seq<nat>)
    ensures Sum([x] + xs) == x + Sum(xs) && Sum([]) == 0
    decreases |xs|
  {
    if xs == [] {
      assert ([x] + xs)[..0] == [];
    } else {
      var n := |xs| - 1;
      SumCons(x, xs[..n]);
      assert ([x] + xs)[..n + 1] == [x] + xs[..n];
    }
  }
}
