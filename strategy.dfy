/**
 * The ordered fallback chain that every part of the scraper uses: try a
 * fixed list of strategies in order and stop at the first that produces a
 * value. Strategies after the winner are not consulted.
 */
module Strategy {
  import opened Wrappers

  /** Position of the first strategy that produces a value, or `|xs|` if none does. */
  function FirstSomeIndex<A, B>(xs: seq<A>, f: A -> Option<B>): (k: nat)
    ensures k <= |xs|
    ensures forall j :: 0 <= j < k ==> f(xs[j]).None?
    ensures k < |xs| ==> f(xs[k]).Some?
  {
    if |xs| == 0 then 0
    else if f(xs[0]).Some? then 0
    else 1 + FirstSomeIndex(xs[1..], f)
  }

  /** The value of the first strategy that produces one. */
  function FirstSome<A, B>(xs: seq<A>, f: A -> Option<B>): (r: Option<B>)
    ensures r.None? <==> forall j :: 0 <= j < |xs| ==> f(xs[j]).None?
  {
    var k := FirstSomeIndex(xs, f);
    if k < |xs| then f(xs[k]) else None
  }

  /** The winner is the only position that produces a value with nothing
      before it: first-match-wins pins the result down completely. */
  lemma FirstSomeAt<A, B>(xs: seq<A>, f: A -> Option<B>, k: nat)
    requires k < |xs| && f(xs[k]).Some?
    requires forall j :: 0 <= j < k ==> f(xs[j]).None?
    ensures FirstSomeIndex(xs, f) == k
    ensures FirstSome(xs, f) == f(xs[k])
  {
  }

  /** The second strategy wins when the first produces nothing. */
  lemma SecondWins<A, B>(xs: seq<A>, f: A -> Option<B>)
    requires |xs| >= 2 && f(xs[0]).None? && f(xs[1]).Some?
    ensures FirstSome(xs, f) == f(xs[1])
  {
    FirstSomeAt(xs, f, 1);
  }

  /** The third strategy wins when the first two produce nothing. */
  lemma ThirdWins<A, B>(xs: seq<A>, f: A -> Option<B>)
    requires |xs| >= 3 && f(xs[0]).None? && f(xs[1]).None? && f(xs[2]).Some?
    ensures FirstSome(xs, f) == f(xs[2])
  {
    FirstSomeAt(xs, f, 2);
  }

  /** When no strategy after the first produces anything, the first decides. */
  lemma OnlyFirstCounts<A, B>(xs: seq<A>, f: A -> Option<B>)
    requires |xs| >= 1
    requires forall j :: 1 <= j < |xs| ==> f(xs[j]).None?
    ensures FirstSome(xs, f) == f(xs[0])
  {
    if f(xs[0]).Some? {
      FirstSomeAt(xs, f, 0);
    }
  }

  /** Three strategies that all produce nothing give nothing. */
  lemma NoneOfThree<A, B>(xs: seq<A>, f: A -> Option<B>)
    requires |xs| == 3 && f(xs[0]).None? && f(xs[1]).None? && f(xs[2]).None?
    ensures FirstSome(xs, f).None?
  {
  }

  /** Strategies after the winner are never consulted: two strategy tables
      that agree up to and including the winner give the same result. */
  lemma {:induction false} FirstSomeIgnoresLater<A, B>(xs: seq<A>, f: A -> Option<B>, g: A -> Option<B>)
    requires forall j :: 0 <= j < |xs| && j <= FirstSomeIndex(xs, f) ==> f(xs[j]) == g(xs[j])
    ensures FirstSomeIndex(xs, g) == FirstSomeIndex(xs, f)
    ensures FirstSome(xs, g) == FirstSome(xs, f)
  {
    if |xs| > 0 {
      assert f(xs[0]) == g(xs[0]);
      if f(xs[0]).None? {
        forall j | 0 <= j < |xs[1..]| && j <= FirstSomeIndex(xs[1..], f)
          ensures f(xs[1..][j]) == g(xs[1..][j])
        {
          assert xs[1..][j] == xs[j + 1];
        }
        FirstSomeIgnoresLater(xs[1..], f, g);
      }
    }
  }

  /** The loop shared by every selector list: try each strategy in order and
      return the first value produced (`for ...: try ... break except: continue`). */
  method SearchInOrder<A, B>(xs: seq<A>, f: A -> Option<B>) returns (r: Option<B>)
    ensures r == FirstSome(xs, f)
  {
    var i := 0;
    while i < |xs|
      invariant 0 <= i <= |xs|
      invariant forall j :: 0 <= j < i ==> f(xs[j]).None?
    {
      var v := f(xs[i]);
      if v.Some? {
        FirstSomeAt(xs, f, i);
        return v;
      }
      i := i + 1;
    }
    assert FirstSomeIndex(xs, f) == |xs|;
    r := None;
  }
}
