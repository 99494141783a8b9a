/**
 * The home page put together: the search box hands its announced fact to
 * `handleSearch`, the display shows `searchResult || facts[currentIndex]`,
 * is paused by `!!searchResult`, and its `onNext` / `onPrev` are
 * `handleNext` / `handlePrev`.
 */
module App {
  import opened Wrappers
  import SB = SearchBox
  import H = Home
  import FD = FactDisplay

  class Page {
    const home: H.Home
    const display: FD.FactDisplay
    const box: SB.SearchBox

    ghost predicate Valid()
      reads this, home, display
    {
      home.Valid() && display.Valid()
    }

    constructor ()
      ensures Valid()
      ensures home.facts == H.DefaultFacts && home.currentIndex == 0 && home.searchResult == None
      ensures display.progress == FD.Full
      ensures box.query == [] && !box.loading
    {
      home := new H.Home();
      display := new FD.FactDisplay();
      box := new SB.SearchBox();
    }

    /**
     * One tick period of the display's interval. Paused, nothing changes;
     * otherwise progress follows the updater and, when it calls `onNext`,
     * the carousel moves one fact on and drops the override.
     */
    method Tick() returns (callsNext: bool)
      requires Valid()
      modifies home, display
      ensures Valid()
      ensures old(home.IsPaused()) ==> !callsNext && display.progress == old(display.progress)
      ensures !old(home.IsPaused()) ==> FD.Tick(display.progress, callsNext) == FD.Update(old(display.progress))
      ensures callsNext ==> home.currentIndex == H.NextIndex(old(home.currentIndex), |home.facts|)
                            && home.searchResult == None
      ensures !callsNext ==> home.currentIndex == old(home.currentIndex)
                             && home.searchResult == old(home.searchResult)
    {
      callsNext := display.Elapse(home.IsPaused());
      if callsNext {
        home.HandleNext();
      }
    }

    /** The display's right button: only `onNext`; progress is left as it is. */
    method ClickNext()
      requires Valid()
      modifies home
      ensures Valid()
      ensures home.currentIndex == H.NextIndex(old(home.currentIndex), |home.facts|)
      ensures home.searchResult == None
      ensures display.progress == old(display.progress)
    {
      home.HandleNext();
    }

    /** The display's left button: only `onPrev`; progress is left as it is. */
    method ClickPrev()
      requires Valid()
      modifies home
      ensures Valid()
      ensures home.currentIndex == H.PrevIndex(old(home.currentIndex), |home.facts|)
      ensures home.searchResult == None
      ensures display.progress == old(display.progress)
    {
      home.HandlePrev();
    }

    /**
     * A search from the search box. A delivered fact becomes the override:
     * it is what the display shows and the display is paused; on every
     * other path the carousel is left as it was.
     */
    method Search(search: SB.Reply<seq<SB.Hit>>) returns (run: SB.Run, pick: nat)
      requires Valid()
      modifies box, home
      ensures Valid()
      ensures SB.PickInRange(search, pick) && run == SB.Respond(box.query, search, pick)
      ensures box.query == old(box.query)
      ensures SB.Blank(box.query) ==> box.loading == old(box.loading)
      ensures !SB.Blank(box.query) ==> !box.loading
      ensures home.currentIndex == old(home.currentIndex)
      ensures display.progress == old(display.progress)
      ensures run.outcome.Delivered? ==>
        home.searchResult == Some(run.outcome.fact) && home.IsPaused() && home.Shown() == run.outcome.fact
      ensures !run.outcome.Delivered? ==> home.searchResult == old(home.searchResult)
    {
      run, pick := box.HandleSearch(search);
      if run.outcome.Delivered? {
        home.HandleSearch(run.outcome.fact);
      }
    }
  }
}
