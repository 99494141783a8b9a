/**
 * The home page's carousel state: an index into a fixed list of built-in
 * facts and an optional search result that overrides it.
 */
module Home {
  import opened Wrappers

  /** The built-in facts; the page never replaces this list. */
  const DefaultFacts: seq<string> := [
    "The Great Wall of China is not visible from space with the naked eye.",
    "Honey never spoils. Archaeologists have found pots of honey in ancient Egyptian tombs that are over 3,000 years old.",
    "A day on Venus is longer than its year. It takes Venus 243 Earth days to rotate on its axis but only 225 Earth days to orbit the Sun."
  ]

  /** JavaScript's `%` on integers: the remainder keeps the sign of the dividend. */
  function JsRem(a: int, n: int): (r: int)
    requires n > 0
    ensures 0 <= a ==> 0 <= r < n
    ensures a <= 0 ==> -n < r <= 0
    ensures 0 <= a < n ==> r == a
    ensures n <= a < 2 * n ==> r == a - n
  {
    if a >= 0 then
      ModBelowTwice(a, n);
      a % n
    else -((-a) % n)
  }

  /** Euclidean remainder of a number below twice the divisor. */
  lemma ModBelowTwice(a: int, n: int)
    requires n > 0 && 0 <= a
    ensures a < n ==> a % n == a
    ensures n <= a < 2 * n ==> a % n == a - n
  {
  }

  /** The index `handleNext` moves to: one on, the last wrapping to the first. */
  function NextIndex(i: int, n: int): (r: int)
    requires n > 0
    ensures 0 <= i < n ==> 0 <= r < n && r == (if i == n - 1 then 0 else i + 1)
  {
    JsRem(i + 1, n)
  }

  /** The index `handlePrev` moves to: one back, the first wrapping to the last. */
  function PrevIndex(i: int, n: int): (r: int)
    requires n > 0
    ensures 0 <= i < n ==> 0 <= r < n && r == (if i == 0 then n - 1 else i - 1)
  {
    JsRem(i - 1 + n, n)
  }

  /** `handleNext` applied `k` times. */
  function NextTimes(i: int, n: int, k: nat): int
    requires n > 0
    decreases k
  {
    if k == 0 then i else NextTimes(NextIndex(i, n), n, k - 1)
  }

  /** Prev undoes Next and Next undoes Prev. */
  lemma NextPrevInverse(i: int, n: int)
    requires 0 <= i < n
    ensures PrevIndex(NextIndex(i, n), n) == i
    ensures NextIndex(PrevIndex(i, n), n) == i
  {
  }

  lemma {:induction false} NextTimesAdd(i: int, n: int, a: nat, b: nat)
    requires n > 0
    ensures NextTimes(i, n, a + b) == NextTimes(NextTimes(i, n, a), n, b)
    decreases a
  {
    if a > 0 {
      NextTimesAdd(NextIndex(i, n), n, a - 1, b);
    }
  }

  /** Going on from index `i` reaches `i + k` as long as the end is not passed. */
  lemma {:induction false} NextTimesStraight(i: int, n: int, k: nat)
    requires 0 <= i && i + k < n
    ensures NextTimes(i, n, k) == i + k
    decreases k
  {
    if k > 0 {
      NextTimesStraight(i + 1, n, k - 1);
    }
  }

  /** Going on `n` times from any index of a list of `n` comes back to it. */
  lemma NextCycle(i: int, n: int)
    requires 0 <= i < n
    ensures NextTimes(i, n, n) == i
  {
    NextTimesAdd(i, n, n - 1 - i, 1 + i);
    NextTimesStraight(i, n, n - 1 - i);
    assert NextTimes(n - 1, n, 1 + i) == NextTimes(0, n, i);
    if i > 0 {
      NextTimesStraight(0, n, i);
    }
  }

  /** The `Home` page component's state. */
  class Home {
    const facts: seq<string>
    var currentIndex: int
    var searchResult: Option<string>

    ghost predicate Valid()
      reads this
    {
      |facts| > 0 && 0 <= currentIndex < |facts|
    }

    constructor ()
      ensures Valid()
      ensures facts == DefaultFacts && |facts| == 3
      ensures currentIndex == 0 && searchResult == None
    {
      facts := DefaultFacts;
      currentIndex := 0;
      searchResult := None;
    }

    /** `handleNext`: one fact on, wrapping, and back to the built-in rotation. */
    method HandleNext()
      requires Valid()
      modifies this
      ensures Valid()
      ensures currentIndex == NextIndex(old(currentIndex), |facts|)
      ensures searchResult == None
    {
      currentIndex := JsRem(currentIndex + 1, |facts|);
      searchResult := None;
    }

    /** `handlePrev`: one fact back, wrapping, and back to the built-in rotation. */
    method HandlePrev()
      requires Valid()
      modifies this
      ensures Valid()
      ensures currentIndex == PrevIndex(old(currentIndex), |facts|)
      ensures searchResult == None
    {
      currentIndex := JsRem(currentIndex - 1 + |facts|, |facts|);
      searchResult := None;
    }

    /** `handleSearch`: show `result` instead of the current built-in fact. */
    method HandleSearch(result: string)
      requires Valid()
      modifies this
      ensures Valid()
      ensures searchResult == Some(result)
      ensures currentIndex == old(currentIndex)
    {
      searchResult := Some(result);
    }

    /** `!!searchResult`: the display is paused while a non-empty override is set. */
    predicate IsPaused()
      reads this
    {
      searchResult.Some? && searchResult.value != []
    }

    /** `searchResult || facts[currentIndex]`: the fact handed to the display. */
    function Shown(): (f: string)
      reads this
      requires Valid()
      ensures IsPaused() ==> f == searchResult.value
      ensures !IsPaused() ==> f == facts[currentIndex]
      ensures f in facts || IsPaused()
    {
      if IsPaused() then searchResult.value else facts[currentIndex]
    }
  }
}
