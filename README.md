# RandomFacts: a verified model of its client logic and in-memory store

RandomFacts shows a carousel of built-in facts, lets the user search an
online encyclopedia for a fact, and keeps submitted facts in a server-side
in-memory store. This Dafny project models the parts of it with behaviour
worth stating:

- **Extract cleaning** (`cleaning.dfy`, module `Cleaning`): the chain
  `replace(/\([^)]*\)/g, '')`, `replace(/\s+/g, ' ')`, `trim()` that the
  search box applies to an encyclopedia extract, and the lead-in
  `"Did you know? "`. Each step is a recursive function over `string`;
  `IsWs` is JavaScript's `\s` class (the same set `trim` removes).
- **Search** (`search_box.dfy`, module `SearchBox`): `handleSearch` as a
  class method over the component's `query` and `loading` state. The two
  requests' replies are inputs. `Respond` is the function that specifies the
  method, its lemmas state what each path ends in, and the method makes the
  random pick as a nondeterministic choice.
- **Carousel** (`home.dfy`, module `Home`): the page's `currentIndex` and
  `searchResult` state. It has `handleNext`, `handlePrev` and `handleSearch`
  with JavaScript's truncating `%`, plus the derived shown fact and pause flag.
- **Countdown** (`fact_display.dfy`, module `FactDisplay`): the `progress`
  state and the interval tick's updater, on integers.
- **Page wiring** (`app.dfy`, module `App`): how home.tsx connects the three
  components. The display's ticks and buttons call `handleNext`/`handlePrev`,
  and a delivered search result becomes the override.
- **Store** (`storage.dfy`, module `Storage`): `MemStorage` as a class with a
  `map<int, Fact>`, the map's keys in insertion order, and the `currentId`
  counter.

Behaviour worth noting:

- An unpaused display calls `onNext` once every **101** ticks, not 100. From
  100, a hundred ticks bring progress to 0, and the next tick resets it.
  This is `FactDisplay.FullCycle` and `FactDisplay.Periodic`.
- Manual Next/Prev do **not** reset progress. The buttons only call the
  callbacks (`App.Page.ClickNext`, `App.Page.ClickPrev`).
- The store does not reject empty `content` or `source`. Nothing in the
  modelled code checks them.
- The cleaning is only parenthetical removal, whitespace collapse and trim.
  There is no sentence splitting and no 150-character truncation.

## Model

| member | source | states |
|---|---|---|
| `Cleaning.IsWs` | client/src/components/SearchBox.tsx:47-48 | JavaScript's `\s` class: TAB through CR, the Zs spaces, LS, PS and BOM, the same set `trim` removes |
| `Cleaning.TrimStart` | client/src/components/SearchBox.tsx:48 | the result is the suffix left after a run of whitespace, and it does not start with whitespace |
| `Cleaning.TrimEnd` | client/src/components/SearchBox.tsx:48 | the result is the prefix left before a run of whitespace, and it does not end with whitespace |
| `Cleaning.Trim` | client/src/components/SearchBox.tsx:48 | the result has no leading or trailing whitespace and is no longer than the input |
| `Cleaning.TrimBlank` | client/src/components/SearchBox.tsx:17 | a string trims to nothing exactly when every character is whitespace |
| `Cleaning.TrimKeepsNonWs` | client/src/components/SearchBox.tsx:48 | trimming removes no non-whitespace character and keeps their order |
| `Cleaning.TrimKeepsShape` | client/src/components/SearchBox.tsx:48 | trimming keeps "only plain spaces", "no double whitespace" and "no closable `(`" |
| `Cleaning.AfterClose` | client/src/components/SearchBox.tsx:46 | the result is the suffix after the first `)`; no `)` comes before that one |
| `Cleaning.Collapse` | client/src/components/SearchBox.tsx:47 | each maximal whitespace run becomes one space, scanning left to right; its properties are the lemmas below |
| `Cleaning.CollapseShape` | client/src/components/SearchBox.tsx:47 | every whitespace character in the result is a space and no two are adjacent; it is no longer than the input, empty only for empty input, and starts with whitespace exactly when the input does |
| `Cleaning.CollapseAppend` | client/src/components/SearchBox.tsx:47 | collapsing splits across a boundary that follows a non-whitespace character |
| `Cleaning.CollapseRun` | client/src/components/SearchBox.tsx:47 | a whitespace run before a non-whitespace character, or at the end, becomes exactly one space |
| `Cleaning.CollapseBetweenWords` | client/src/components/SearchBox.tsx:47 | two words separated by a whitespace run come out as the two words with one space between them |
| `Cleaning.CollapseKeepsNonWs` | client/src/components/SearchBox.tsx:47 | collapsing keeps exactly the non-whitespace characters, in order |
| `Cleaning.CollapseFixes` | client/src/components/SearchBox.tsx:47 | text that already has only single plain spaces is unchanged |
| `Cleaning.StripParens` | client/src/components/SearchBox.tsx:46 | the left-to-right scan of the regex: a `(` with a `)` after it is removed through the first such `)`, any other character is kept; its properties are the lemmas below |
| `Cleaning.StripParensKeepsOpen` | client/src/components/SearchBox.tsx:46 | a `(` survives exactly when the input has a `(` with no `)` anywhere after it |
| `Cleaning.StripParensPlain` | client/src/components/SearchBox.tsx:46 | text with no `(` is kept as it is, in front of whatever the rest becomes |
| `Cleaning.StripParensGroup` | client/src/components/SearchBox.tsx:46 | a group `(m)` with no `)` inside, after text with no `(`, is removed whole and the text before it is kept |
| `Cleaning.StripParensLeavesNoClosableOpen` | client/src/components/SearchBox.tsx:46 | after removal, no surviving `(` has a `)` after it, and no character is introduced |
| `Cleaning.StripParensSubseq` | client/src/components/SearchBox.tsx:46 | what the removal keeps, and its non-whitespace part, are order-preserving subsequences of the input |
| `Cleaning.StripParensShrinks` | client/src/components/SearchBox.tsx:46 | removal never lengthens the text, and it strictly shortens text that has a `(` followed somewhere by a `)` |
| `Cleaning.StripParensFixes` | client/src/components/SearchBox.tsx:46 | removal leaves the text unchanged exactly when no `(` has a `)` after it |
| `Cleaning.Clean` | client/src/components/SearchBox.tsx:45-48 | the three steps in the source's order; its properties are the lemmas below |
| `Cleaning.CleanShape` | client/src/components/SearchBox.tsx:45-48 | the cleaned fact has no leading or trailing whitespace, every whitespace character is a space, and no two are adjacent |
| `Cleaning.CleanNoClosableOpen` | client/src/components/SearchBox.tsx:45-48 | the cleaned fact has no `(` with a `)` after it |
| `Cleaning.CleanSubseq` | client/src/components/SearchBox.tsx:45-48 | the non-whitespace characters of the cleaned fact are an order-preserving subsequence of the extract |
| `Cleaning.CleanIdempotent` | client/src/components/SearchBox.tsx:45-48 | cleaning a cleaned fact returns it unchanged |
| `Cleaning.Announce` | client/src/components/SearchBox.tsx:50 | the lead-in phrase followed by the cleaned extract |
| `Cleaning.AnnounceNonEmpty` | client/src/components/SearchBox.tsx:50 | an announced fact holds at least the lead-in, so it is never empty |
| `Cleaning.AnnounceShape` | client/src/components/SearchBox.tsx:43-50 | an announced fact starts with "Did you know? ", and the rest is trimmed, single-spaced, free of closable parentheticals, idempotent under cleaning, and its visible characters come from the extract in order |
| `SearchBox.Blank` | client/src/components/SearchBox.tsx:17 | the query is made of whitespace only; `BlankMeansTrimmedEmpty` ties this to `!query.trim()` |
| `SearchBox.Truthy` | client/src/components/SearchBox.tsx:43 | JavaScript truthiness of the extract: present and not the empty string |
| `SearchBox.Describe` | client/src/components/SearchBox.tsx:57 | the toast description: the error's message, or the fixed fallback text for a non-`Error` throw |
| `SearchBox.PickInRange` | client/src/components/SearchBox.tsx:32 | with at least one hit, the pick lies below min(hits, 5) |
| `SearchBox.Respond` | client/src/components/SearchBox.tsx:16-62 | at most two requests are sent, and none exactly on the path that ends silently |
| `SearchBox.Attempt` | client/src/components/SearchBox.tsx:20-59 | the `try` block with its `catch` sends one or two requests and never ends silently |
| `SearchBox.SkipsExactlyBlank` | client/src/components/SearchBox.tsx:17 | a search ends silently exactly when the trimmed query is empty |
| `SearchBox.DeliversExactly` | client/src/components/SearchBox.tsx:26-50 | a fact is delivered exactly when the query is not blank, the search has a hit, the picked page's reply succeeds and its extract is truthy; the fact is then the lead-in followed by the cleaned extract, after two requests |
| `SearchBox.NoHitsFails` | client/src/components/SearchBox.tsx:27-29 | zero hits end in the "No results found" toast after one request |
| `SearchBox.FalsyExtractFails` | client/src/components/SearchBox.tsx:43-53 | a missing or empty extract ends in the "No fact found" toast after both requests |
| `SearchBox.BlankMeansTrimmedEmpty` | client/src/components/SearchBox.tsx:17 | a query is blank, made only of whitespace, exactly when it trims to the empty string, which is the guard `!query.trim()` |
| `SearchBox.SearchBox.constructor` | client/src/components/SearchBox.tsx:12-13 | the query starts empty and nothing is loading |
| `SearchBox.SearchBox.SetQuery` | client/src/components/SearchBox.tsx:70 | typing replaces the query and leaves `loading` alone |
| `SearchBox.SearchBox.Try` | client/src/components/SearchBox.tsx:20-59 | the outcome is `Attempt` for the pick; the pick lies below `min(hits, 5)`; a delivered fact is non-empty |
| `SearchBox.SearchBox.HandleSearch` | client/src/components/SearchBox.tsx:16-63 | the result is `Respond` for the query and the pick; a blank query leaves `loading` unchanged and every other path ends with `loading` false; the pick lies below `min(hits, 5)`; a delivered fact is non-empty; the query is unchanged |
| `Home.JsRem` | client/src/pages/home.tsx:18-23 | JavaScript's remainder: it has the dividend's sign and is smaller than the divisor in size; it is the identity below the divisor and subtracts the divisor once below twice it |
| `Home.NextIndex` | client/src/pages/home.tsx:18 | for a valid index the result is valid: the next index, or 0 after the last |
| `Home.PrevIndex` | client/src/pages/home.tsx:23 | for a valid index the result is valid: the previous index, or the last before 0 |
| `Home.NextPrevInverse` | client/src/pages/home.tsx:17-25 | Prev after Next and Next after Prev give back the original index |
| `Home.NextCycle` | client/src/pages/home.tsx:18 | applying Next `n` times to a valid index of an `n`-fact list gives the same index |
| `Home.Home.constructor` | client/src/pages/home.tsx:6-15 | the list is the three built-in facts, the index is 0 and there is no override |
| `Home.Home.HandleNext` | client/src/pages/home.tsx:17-20 | the index moves to `NextIndex` and stays valid; the override is cleared |
| `Home.Home.HandlePrev` | client/src/pages/home.tsx:22-25 | the index moves to `PrevIndex` and stays valid; the override is cleared |
| `Home.Home.HandleSearch` | client/src/pages/home.tsx:27-29 | the override becomes the result; the index is unchanged |
| `Home.Home.IsPaused` | client/src/pages/home.tsx:47 | `!!searchResult`: an override is set and is not the empty string |
| `Home.Home.Shown` | client/src/pages/home.tsx:44-47 | while paused (a non-empty override) the override is shown; otherwise the list's fact at the index is shown |
| `FactDisplay.Step` | client/src/components/FactDisplay.tsx:16-28 | the tick's decrement `interval / duration * 100` is exactly the integer 1 |
| `FactDisplay.Update` | client/src/components/FactDisplay.tsx:23-29 | a tick calls `onNext` exactly when progress is at or below 0, and then resets it to 100; otherwise it lowers progress by 1; progress in `[0, 100]` stays there |
| `FactDisplay.Advance` | client/src/components/FactDisplay.tsx:22-30 | any number of unpaused ticks keep progress in `[0, 100]` |
| `FactDisplay.CountDown` | client/src/components/FactDisplay.tsx:23-29 | up to `p` ticks from `p` lower it one per tick without calling `onNext` |
| `FactDisplay.FullCycle` | client/src/components/FactDisplay.tsx:15-29 | from 100, 100 ticks reach 0 with no `onNext`, and the 101st calls it once and refills |
| `FactDisplay.Periodic` | client/src/components/FactDisplay.tsx:15-30 | `101 * m` unpaused ticks from 100 call `onNext` exactly `m` times and end at 100 |
| `FactDisplay.FactDisplay.constructor` | client/src/components/FactDisplay.tsx:15 | progress starts at 100 |
| `FactDisplay.FactDisplay.Elapse` | client/src/components/FactDisplay.tsx:19-33 | while paused, progress is frozen and `onNext` is not called; otherwise the state follows `Update` |
| `App.Page.constructor` | client/src/pages/home.tsx:12-15 | the page starts at the first built-in fact, with no override, a full bar and an idle search box |
| `App.Page.Tick` | client/src/components/FactDisplay.tsx:19-33 | a paused page does not change; unpaused, progress follows `Update`, and when `onNext` fires the carousel moves on and drops the override; otherwise the carousel is unchanged |
| `App.Page.ClickNext` | client/src/components/FactDisplay.tsx:52-58 | the right button moves the carousel on and clears the override; progress is unchanged |
| `App.Page.ClickPrev` | client/src/components/FactDisplay.tsx:42-48 | the left button moves the carousel back and clears the override; progress is unchanged |
| `App.Page.Search` | client/src/pages/home.tsx:41-47 | the search follows `Respond`; the box's query is unchanged, and `loading` is unchanged for a blank query and false after any other; a delivered fact becomes the override, is shown, and pauses the display; otherwise the override is unchanged; neither the index nor progress changes |
| `Storage.MemStorage.constructor` | server/storage.ts:12-15 | a fresh store is empty and its counter is 1 |
| `Storage.MemStorage.GetFacts` | server/storage.ts:17-19 | every stored record in insertion order, with ids 1, 2, …; its length is the number of facts added; the state is unchanged |
| `Storage.MemStorage.AddFact` | server/storage.ts:21-30 | the record has the counter's old value as id and the given content and source; the counter grows by one; the id was not in use; exactly one entry is added and none changes; the key goes last in insertion order |
| `Storage.TwoAdds` | server/storage.ts:12-30 | a fresh store gives two added facts ids 1 and 2, keeps their content and source, and lists them in that order |

## Left out

- The two requests to the encyclopedia API, their URLs, `encodeURIComponent` and the JSON bodies are not modelled. What each request comes back with is an input: the list of hits (or a throw) for the search, each hit carrying the optional extract (or a throw) that the content request for its page comes back with.
- A body that is not valid JSON makes `.json()` throw a `SyntaxError`. A well-formed body of an unexpected shape makes `searchData.query.search` or `contentData.query.pages[pageId]` throw a `TypeError`. The model covers both only as a reply that throws an error value (`Throws(ErrorValue(_))`).
- `Math.random()` and its float arithmetic are not modelled. The pick is a nondeterministic choice of an index below `min(hits, 5)`.
- `setInterval`/`clearInterval`, React re-rendering, effect restarts (the effect depends on `onNext`, which is recreated on every render), StrictMode double-invocation of updaters, and unmount cleanup are not modelled. One call of `Elapse`/`Tick` is one interval period.
- Toasts are modelled only as the `Failed(description)` outcome. The `title` and `variant` fields are not modelled.
- `ThemeToggle`, JSX layout, the Enter-key handler, and the button's `disabled={loading}` are not modelled. Calls are one at a time, so overlapping searches are not modelled.
- `timestamp: new Date()` is not read from a clock. The time is a parameter `now` of `AddFact`.
- The Express routes in server/routes.ts and the ZodError-to-400 / other-to-500 mapping are not part of this model. They are HTTP plumbing over libraries that are not shown.
- The drizzle and zod schema in shared/schema.ts is not part of this model. Only the record shape `{id, content, source, timestamp}` is used.
- JavaScript strings are UTF-16 code units, and Dafny's `char` is a Unicode scalar value. Lone surrogates cannot be represented, and other text is treated character by character.
- The store's interface `IStorage` and its `async`/`Promise` wrapping are not modelled. The methods return their values directly.
- `Storage.MemStorage.AddFact`: the id counter is an unbounded integer. In the source it is a JavaScript number, and from 2^53 on `currentId++` no longer changes it, so later additions would overwrite the same record. The model's freshness and counter-step promises hold only below that bound.
- `SearchBox.SearchBox.HandleSearch`: an `onSearch` callback that throws is not modelled. Its throw would be caught and shown as a toast.
