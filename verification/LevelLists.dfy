/** The price ladder as a value: one list per tick, and its reading order from the best price on. */
module LevelLists {
  import opened OrderTypes

  function Drop<T>(s: seq<T>, k: nat): (r: seq<T>)
    requires k < |s|
    ensures |r| == |s| - 1
  {
    s[..k] + s[k + 1..]
  }

  lemma DropFront<T>(s: seq<T>)
    requires s != []
    ensures Drop(s, 0) == s[1..]
  {
  }

  /** All levels in matching order: asks from the lowest tick up, bids from the highest tick down. */
  function Flat<T>(side: Side, lv: seq<seq<T>>): seq<T> {
    if lv == [] then []
    else if side == ASK then lv[0] + Flat(side, lv[1..])
    else lv[|lv| - 1] + Flat(side, lv[..|lv| - 1])
  }

  function Ahead<T>(side: Side, lv: seq<seq<T>>, i: nat): seq<seq<T>>
    requires i < |lv|
  {
    if side == ASK then lv[..i] else lv[i + 1..]
  }

  function Behind<T>(side: Side, lv: seq<seq<T>>, i: nat): seq<seq<T>>
    requires i < |lv|
  {
    if side == ASK then lv[i + 1..] else lv[..i]
  }

  lemma {:induction false} FlatSplitAsks<T>(lv: seq<seq<T>>, i: nat)
    requires i < |lv|
    ensures Flat(ASK, lv) == Flat(ASK, lv[..i]) + lv[i] + Flat(ASK, lv[i + 1..])
  {
    if i > 0 {
      FlatSplitAsks(lv[1..], i - 1);
      assert lv[..i][1..] == lv[1..][..i - 1];
      assert lv[1..][i..] == lv[i + 1..];
    }
  }

  lemma {:induction false} FlatSplitBids<T>(lv: seq<seq<T>>, i: nat)
    requires i < |lv|
    ensures Flat(BID, lv) == Flat(BID, lv[i + 1..]) + lv[i] + Flat(BID, lv[..i])
  {
    var n := |lv|;
    if i < n - 1 {
      FlatSplitBids(lv[..n - 1], i);
      var a := lv[i + 1..];
      assert a[|a| - 1] == lv[n - 1];
      assert a[..|a| - 1] == lv[..n - 1][i + 1..];
      assert lv[..n - 1][..i] == lv[..i];
    }
  }

  lemma FlatSplit<T>(side: Side, lv: seq<seq<T>>, i: nat)
    requires i < |lv|
    ensures Flat(side, lv) == Flat(side, Ahead(side, lv, i)) + lv[i] + Flat(side, Behind(side, lv, i))
  {
    if side == ASK {
      FlatSplitAsks(lv, i);
    } else {
      FlatSplitBids(lv, i);
    }
  }

  /** Replacing one level replaces one stretch of the reading order. */
  lemma FlatUpdate<T>(side: Side, lv: seq<seq<T>>, i: nat, level: seq<T>)
    requires i < |lv|
    ensures Flat(side, lv[i := level]) == Flat(side, Ahead(side, lv, i)) + level + Flat(side, Behind(side, lv, i))
  {
    FlatSplit(side, lv[i := level], i);
    assert Ahead(side, lv[i := level], i) == Ahead(side, lv, i);
    assert Behind(side, lv[i := level], i) == Behind(side, lv, i);
  }

  lemma {:induction false} FlatEmpty<T>(side: Side, lv: seq<seq<T>>)
    requires forall i :: 0 <= i < |lv| ==> lv[i] == []
    ensures Flat(side, lv) == []
  {
    if lv != [] {
      FlatEmpty(side, if side == ASK then lv[1..] else lv[..|lv| - 1]);
    }
  }

  /** Everything in the reading order comes from some level. */
  lemma {:induction false} FlatMember<T>(side: Side, lv: seq<seq<T>>, k: nat) returns (i: nat)
    requires k < |Flat(side, lv)|
    ensures i < |lv| && Flat(side, lv)[k] in lv[i]
  {
    var n := |lv|;
    if side == ASK {
      if k < |lv[0]| {
        i := 0;
      } else {
        i := FlatMember(side, lv[1..], k - |lv[0]|);
        i := i + 1;
      }
    } else {
      if k < |lv[n - 1]| {
        i := n - 1;
      } else {
        i := FlatMember(side, lv[..n - 1], k - |lv[n - 1]|);
      }
    }
  }

  function NonEmptyCount<T>(lv: seq<seq<T>>): nat {
    if lv == [] then 0 else (if lv[0] == [] then 0 else 1) + NonEmptyCount(lv[1..])
  }

  lemma {:induction false} CountUpdate<T>(lv: seq<seq<T>>, i: nat, level: seq<T>)
    requires i < |lv|
    ensures NonEmptyCount(lv[i := level]) ==
            NonEmptyCount(lv) - (if lv[i] == [] then 0 else 1) + (if level == [] then 0 else 1)
  {
    if i == 0 {
      assert lv[i := level][1..] == lv[1..];
    } else {
      assert lv[i := level][1..] == lv[1..][i - 1 := level];
      CountUpdate(lv[1..], i - 1, level);
    }
  }

  lemma {:induction false} CountZero<T>(lv: seq<seq<T>>)
    ensures NonEmptyCount(lv) == 0 <==> forall i :: 0 <= i < |lv| ==> lv[i] == []
  {
    if lv != [] {
      CountZero(lv[1..]);
      if NonEmptyCount(lv) == 0 {
        assert forall i :: 0 < i < |lv| ==> lv[i] == lv[1..][i - 1];
      }
      if forall i :: 0 <= i < |lv| ==> lv[i] == [] {
        assert forall i :: 0 <= i < |lv[1..]| ==> lv[1..][i] == lv[i + 1];
      }
    }
  }
}
