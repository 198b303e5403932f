// pkg/dragonfly/metrics.go, updateLatency: the minimum and maximum that a sequence of latencies
// leaves behind. A recorded 0 means unset.
module Extrema {
  function NextMin(current: int, x: int): int {
    if current != 0 && current <= x then current else x
  }

  function NextMax(current: int, x: int): int {
    if current >= x then current else x
  }

  function FoldMin(d: seq<int>): int {
    if d == [] then 0 else NextMin(FoldMin(d[..|d| - 1]), d[|d| - 1])
  }

  function FoldMax(d: seq<int>): int {
    if d == [] then 0 else NextMax(FoldMax(d[..|d| - 1]), d[|d| - 1])
  }

  function Least(d: seq<int>): (m: int)
    requires d != []
    ensures m in d && forall x | x in d :: m <= x
  {
    if |d| == 1 then d[0]
    else
      var m := Least(d[..|d| - 1]);
      assert d == d[..|d| - 1] + [d[|d| - 1]];
      if m <= d[|d| - 1] then m else d[|d| - 1]
  }

  function Greatest(d: seq<int>): (m: int)
    requires d != []
    ensures m in d && forall x | x in d :: x <= m
  {
    if |d| == 1 then d[0]
    else
      var m := Greatest(d[..|d| - 1]);
      assert d == d[..|d| - 1] + [d[|d| - 1]];
      if m >= d[|d| - 1] then m else d[|d| - 1]
  }

  // The recorded minimum is right unless the true one is 0 and something was recorded after it:
  // a zero reads as "unset" and the next positive duration replaces it.
  lemma {:induction false} MinRightIff(d: seq<int>)
    requires d != []
    ensures FoldMin(d) == Least(d) <==> Least(d) != 0 || d[|d| - 1] == 0
    ensures Least(d) == 0 ==> FoldMin(d) >= 0
  {
    if |d| == 1 {
      assert FoldMin(d[..0]) == 0;
    } else {
      MinRightIff(d[..|d| - 1]);
    }
  }

  // The recorded maximum is right exactly when some duration is not negative.
  lemma {:induction false} MaxRightIff(d: seq<int>)
    requires d != []
    ensures FoldMax(d) == if Greatest(d) >= 0 then Greatest(d) else 0
    ensures FoldMax(d) == Greatest(d) <==> Greatest(d) >= 0
  {
    if |d| == 1 {
      assert FoldMax(d[..0]) == 0;
    } else {
      MaxRightIff(d[..|d| - 1]);
    }
  }

  // The position of the last zero, or -1.
  function LastZero(d: seq<int>): (z: int)
    ensures -1 <= z < |d|
    ensures z >= 0 ==> d[z] == 0
    ensures forall i | z < i < |d| :: d[i] != 0
  {
    if d == [] then -1 else if d[|d| - 1] == 0 then |d| - 1 else LastZero(d[..|d| - 1])
  }

  // What the recorded minimum is: the true one unless a zero was forgotten, and then the least
  // duration after the last zero.
  lemma {:induction false} FoldMinIs(d: seq<int>)
    requires d != []
    ensures Least(d) == 0 ==> LastZero(d) >= 0
    ensures FoldMin(d) == if Least(d) != 0 || d[|d| - 1] == 0 then Least(d) else Least(d[LastZero(d) + 1..])
  {
    MinRightIff(d);
    assert Least(d) == 0 ==> LastZero(d) >= 0 by {
      assert Least(d) in d;
    }
    if Least(d) == 0 && d[|d| - 1] != 0 {
      var front, last, z := d[..|d| - 1], d[|d| - 1], LastZero(d);
      assert d == front + [last];
      assert Least(front) == 0 by {
        assert 0 in front && forall x | x in front :: x in d;
      }
      assert z == LastZero(front);
      var tail := d[z + 1..];
      assert tail[|tail| - 1] == last && tail[..|tail| - 1] == front[z + 1..];
      if z + 1 < |front| {
        FoldMinIs(front);
      } else {
        MinRightIff(front);
      }
    }
  }

  // A zero followed by a positive duration is forgotten.
  lemma ForgottenZeroExample(d: seq<int>)
    requires d == [0, 5]
    ensures FoldMin(d) == 5 && Least(d) == 0
  {
    assert FoldMin(d[..1][..0]) == 0;
    assert FoldMin(d[..1]) == 0;
    assert d[0] in d && Least(d) in d;
  }
}
