/**
 The 7-bag randomizer of class `game` (src/tetris.cpp:285-287, 291-297,
 352-362, 411-412, 459, 506). Pieces are popped from the back of the current
 bag; when it runs out, the lookahead bag takes its place and a new shuffle
 becomes the lookahead. Each shuffle is supplied by the caller, standing for
 whatever permutation the random generator picks.
 */
module Randomizer {
  import opened Kinds

  /** `M_minos` and `M_minos_next`. */
  datatype Bag = Bag(current: seq<Kind>, next: seq<Kind>)

  function Reverse(s: seq<Kind>): (r: seq<Kind>)
    ensures |r| == |s|
    ensures forall n :: 0 <= n < |s| ==> r[n] == s[|s| - 1 - n]
  {
    if |s| == 0 then [] else [s[|s| - 1]] + Reverse(s[..|s| - 1])
  }

  lemma {:induction false} ReverseKeepsMultiset(s: seq<Kind>)
    ensures multiset(Reverse(s)) == multiset(s)
  {
    if |s| > 0 {
      ReverseKeepsMultiset(s[..|s| - 1]);
      assert s == s[..|s| - 1] + [s[|s| - 1]];
    }
  }

  /** The order in which pieces will be spawned if nothing is held: the
      current bag read from its back, then the lookahead bag from its back. */
  function Upcoming(b: Bag): (u: seq<Kind>)
    ensures |u| == |b.current| + |b.next|
    ensures forall n :: 0 <= n < |b.current| ==> u[n] == b.current[|b.current| - 1 - n]
    ensures forall n :: |b.current| <= n < |u| ==> u[n] == b.next[|u| - 1 - n]
  {
    Reverse(b.current) + Reverse(b.next)
  }

  /** `M_init_minos`: both bags are fresh shuffles. */
  function Init(first: seq<Kind>, second: seq<Kind>): (b: Bag)
    requires IsShuffle(first) && IsShuffle(second)
    ensures IsShuffle(b.next)
    ensures multiset(Upcoming(b)[..7]) == multiset(AllKinds)
    ensures multiset(Upcoming(b)[7..]) == multiset(AllKinds)
  {
    var b := Bag(first, second);
    ReverseKeepsMultiset(first);
    ReverseKeepsMultiset(second);
    assert Upcoming(b)[..7] == Reverse(first) && Upcoming(b)[7..] == Reverse(second);
    b
  }

  /** `M_reset_minos`: the lookahead bag becomes current, a fresh shuffle the lookahead. */
  function Reset(b: Bag, shuffle: seq<Kind>): (b': Bag)
    ensures Upcoming(b') == Reverse(b.next) + Reverse(shuffle)
  {
    Bag(b.next, shuffle)
  }

  /**
   One spawn's worth of bag handling: refill when the current bag is empty
   (src/tetris.cpp:506), then take `M_minos.back()` and pop it
   (src/tetris.cpp:411-412). The kind drawn is the head of the upcoming order,
   and the rest of that order is kept, extended by the new shuffle exactly
   when a refill happened.
   */
  function Draw(b: Bag, shuffle: seq<Kind>): (res: (Kind, Bag))
    requires |b.current| > 0 || |b.next| > 0
    ensures res.1.next == if |b.current| == 0 then shuffle else b.next
    ensures |Upcoming(b)| > 0 && res.0 == Upcoming(b)[0]
    ensures Upcoming(res.1) == Upcoming(b)[1..] + (if |b.current| == 0 then Reverse(shuffle) else [])
  {
    var b1 := if |b.current| == 0 then Reset(b, shuffle) else b;
    var n := |b1.current|;
    assert Reverse(b1.current) == [b1.current[n - 1]] + Reverse(b1.current[..n - 1]);
    (b1.current[n - 1], Bag(b1.current[..n - 1], b1.next))
  }

  /** The hold command's `M_minos.push_back(M_hold)`: the held kind becomes the very next draw. */
  function PushBack(b: Bag, k: Kind): (b': Bag)
    ensures b'.next == b.next
    ensures Upcoming(b') == [k] + Upcoming(b)
  {
    var b' := Bag(b.current + [k], b.next);
    assert (b.current + [k])[..|b.current|] == b.current;
    b'
  }

  /** The "next:" preview of `M_show_next`: the first three upcoming kinds. */
  function Preview(b: Bag): (r: seq<Kind>)
    requires |b.next| >= 3
  {
    (Reverse(b.current) + Reverse(b.next))[..3]
  }

  /** The kinds drawn by consecutive spawns with no hold in between, the n-th
      draw using shuffles[n] should it need a refill. */
  function Draws(b: Bag, shuffles: seq<seq<Kind>>): seq<Kind>
    requires |b.next| > 0
    requires forall n :: 0 <= n < |shuffles| ==> |shuffles[n]| > 0
    decreases |shuffles|
  {
    if |shuffles| == 0 then []
    else
      var (k, b') := Draw(b, shuffles[0]);
      [k] + Draws(b', shuffles[1..])
  }

  /** Taking the head of `u` and then n-1 elements of its tail, however that
      tail was extended, gives the first n elements of `u`. */
  lemma HeadThenPrefix(u: seq<Kind>, extra: seq<Kind>, n: nat)
    requires 0 < n <= |u|
    ensures [u[0]] + (u[1..] + extra)[..n - 1] == u[..n]
  {
    assert (u[1..] + extra)[..n - 1] == u[1..n];
  }

  /**
   Without holds, spawns follow the upcoming order, whatever the later
   shuffles turn out to be.
   */
  lemma {:induction false} DrawsFollowUpcoming(b: Bag, shuffles: seq<seq<Kind>>)
    requires |b.next| > 0
    requires forall n :: 0 <= n < |shuffles| ==> |shuffles[n]| > 0
    requires |shuffles| <= |Upcoming(b)|
    ensures Draws(b, shuffles) == Upcoming(b)[..|shuffles|]
    decreases |shuffles|
  {
    if |shuffles| > 0 {
      var (k, b') := Draw(b, shuffles[0]);
      DrawsFollowUpcoming(b', shuffles[1..]);
      HeadThenPrefix(Upcoming(b), if |b.current| == 0 then Reverse(shuffles[0]) else [], |shuffles|);
    }
  }

  /** The preview shows exactly the next three spawns, and showing it consumes nothing. */
  lemma PreviewShowsNextDraws(b: Bag, shuffles: seq<seq<Kind>>)
    requires |b.next| >= 3
    requires forall n :: 0 <= n < |shuffles| ==> |shuffles[n]| > 0
    requires |shuffles| == 3
    ensures Draws(b, shuffles) == Preview(b)
  {
    DrawsFollowUpcoming(b, shuffles);
  }

  /**
   Bag fairness: once the current bag is used up, the next seven spawns
   without holds are the seven kinds, each exactly once.
   */
  lemma NextSevenDrawsAreABag(b: Bag, shuffles: seq<seq<Kind>>)
    requires IsShuffle(b.next) && |b.current| == 0
    requires forall n :: 0 <= n < |shuffles| ==> |shuffles[n]| > 0
    requires |shuffles| == 7
    ensures multiset(Draws(b, shuffles)) == multiset(AllKinds)
  {
    ShuffleHoldsEachKindOnce(b.next, I);
    var u := Upcoming(b);
    assert u == Reverse(b.next) && u[..7] == u;
    DrawsFollowUpcoming(b, shuffles);
    ReverseKeepsMultiset(b.next);
  }
}
