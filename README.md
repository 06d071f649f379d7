# Character filter core, modelled in Dafny

The `App` component of a small React application keeps a list of characters
from an external character API and three filter fields: a name query, a
species selector and a list of selected statuses. It renders the characters
that pass all three filters. It also computes the distinct status values and
passes them to its `Filters` child, and it resolves the route `/character/:id` to one character or to a
not-found view.

This project models that core in three modules:

- `Text` (`text.dfy`) models the two string operations the name filter
  uses. `Upper` is `toUpperCase` restricted to ASCII letters. `Includes` is
  `String.prototype.includes`, proved equal to "the needle occurs at some
  position".
- `Arrays` (`arrays.dfy`) models the array built-ins the component calls:
  `indexOf`, `splice(i, 1)`, `filter`, `find` and `[...new Set(xs)]`, each as
  a function over sequences, with the lemmas the core needs about them.
- `App` (`app.dfy`) models the component itself. `Character` is a record
  datatype. `FilterState` is a class whose three fields are the three
  filter `useState` variables. Its methods `HandleFilter` and `HandleReset` are the
  two event handlers. `FilteredCharacters`, `GetStatus` and
  `RenderCharacterDetail` are pure functions over `seq<Character>`.

The status handler works as the source does. It looks the value up with
`indexOf`, then either appends the value or splices out the found index.
Its contract ties the new list to `Toggle`, a specification stated by
membership: append when absent, remove the first occurrence when present.
The lemma `SpliceAtIndexOf` connects the two.

Two consequences of the code are worth stating plainly:

- The status filter is a list, not a set. Toggling an absent value twice
  gives back the original list (`ToggleTwiceAbsent`). Toggling a present
  value twice keeps the same members but moves that value to the end of the
  list (`ToggleTwicePresent`). So "double toggle is the identity" holds only
  for absent values, or as equality of members.
- `getStatus` returns a list in first-seen order, not an unordered set
  (`GetStatusFirstSeenOrder`).

## Model

| member | source | states |
|---|---|---|
| `Text.Upper` | src/components/App.js:59 | upper-casing keeps the length of the string |
| `Text.UpperAt` | src/components/App.js:59 | upper-casing maps each position separately, ASCII `a`-`z` to `A`-`Z` |
| `Text.UpperEmpty` | src/components/App.js:17 | the default query `''` upper-cases to `''` |
| `Text.UpperIdempotent` | src/components/App.js:59 | upper-casing twice equals upper-casing once |
| `Text.Includes` | src/components/App.js:59 | `includes` with an empty needle is always true, and a true result means the needle is no longer than the haystack; `IncludesIff` gives the full meaning |
| `Text.IncludesWitness` | src/components/App.js:59 | when `includes` holds, the needle occurs at the position the proof yields |
| `Text.IncludesFromOccurrence` | src/components/App.js:59 | an occurrence of the needle at any position makes `includes` hold |
| `Text.IncludesIff` | src/components/App.js:59 | `includes` holds exactly when the needle occurs at some start position of the haystack |
| `Text.IncludesEmpty` | src/components/App.js:59 | the empty query is contained in every name |
| `Arrays.IndexOf` | src/components/App.js:37-38 | `indexOf` is -1 exactly when the value is absent; otherwise it is a position holding the value with no earlier occurrence |
| `Arrays.Splice` | src/components/App.js:42-43 | `splice(i, 1)` on the copy leaves one element fewer |
| `Arrays.SpliceEffect` | src/components/App.js:42-43 | `splice(i, 1)` removes exactly one copy of the element at `i`; the elements before `i` stay put and those after it move down by one |
| `Arrays.SpliceAtIndexOf` | src/components/App.js:42-43 | splicing one element at the `indexOf` position removes the first occurrence and keeps the order of the others |
| `Arrays.RemoveFirstMultiset` | src/components/App.js:42-43 | removing a present value takes exactly one copy of it out of the multiset of elements |
| `Arrays.RemoveFirstNoDup` | src/components/App.js:42-43 | in a duplicate-free list, removal keeps the list duplicate-free and removes exactly that value from its members |
| `Arrays.AppendAbsentNoDup` | src/components/App.js:38-39 | appending a value that `indexOf` reported absent keeps the list duplicate-free |
| `Arrays.Filter` | src/components/App.js:57-74 | the result of `filter` is no longer than its input, and each of its elements comes from the input and satisfies the callback |
| `Arrays.FilterCount` | src/components/App.js:57-74 | `filter` keeps every copy of an element that satisfies the callback and no copy of one that does not |
| `Arrays.FilterIsSubsequence` | src/components/App.js:57-74 | the result of `filter` is a subsequence of its input, so the original order is kept |
| `Arrays.FilterMembership` | src/components/App.js:57-74 | an element is in the result of `filter` exactly when it is in the input and satisfies the callback |
| `Arrays.FilterFusion` | src/components/App.js:57-74 | two chained `filter` calls equal one `filter` by the conjunction of the callbacks |
| `Arrays.FilterExtensional` | src/components/App.js:57-74 | callbacks that agree on every element give the same `filter` result |
| `Arrays.FilterAll` | src/components/App.js:57-74 | a callback true on every element returns the input unchanged |
| `Arrays.Find` | src/components/App.js:82-84 | `find` returns `undefined` exactly when no element satisfies the callback; otherwise it returns an element that satisfies it, and no earlier element does |
| `Arrays.Distinct` | src/components/App.js:77 | the spread of a `Set` has no duplicates, and its members are exactly the members of the input |
| `Arrays.DistinctOrder` | src/components/App.js:77 | the deduplicated values come in the order of their first occurrence in the input |
| `App.FilterState.constructor` | src/components/App.js:17-19 | the initial state is `''`, `'All'` and `[]`, and the status list is duplicate-free |
| `App.FilterState.HandleFilter` | src/components/App.js:30-47 | a `'name'` or `'specie'` event replaces only its own field; a `'status'` event changes only the status list, to the toggled list; any other key changes nothing; a duplicate-free status list stays duplicate-free |
| `App.FilterState.HandleReset` | src/components/App.js:50-54 | reset sets the state to exactly `''`, `'All'` and `[]`, whatever it was before |
| `App.FilterState.Filtered` | src/components/App.js:57-74 | the list rendered for the current state is an order-preserving subsequence of the characters, holding exactly those that pass all three conditions, each with as many copies as in the characters |
| `App.MatchesName` | src/components/App.js:58-60 | the name callback holds exactly when the upper-cased query occurs at some position of the upper-cased name |
| `App.MatchesSpecie` | src/components/App.js:61-67 | the species callback: true for `'All'`, otherwise species equality; no contract of its own, its meaning is stated in `FilteredMembership` |
| `App.MatchesStatus` | src/components/App.js:68-74 | the status callback: true for an empty list, otherwise membership; no contract of its own, its meaning is stated in `FilteredMembership` |
| `App.FilteredCharacters` | src/components/App.js:57-74 | `filteredCharacters` is no longer than the characters, and each of its elements is a character that passes all three callbacks |
| `App.FilteredCount` | src/components/App.js:57-74 | every copy of a character that passes all three conditions is kept, and no copy of any other |
| `App.FilteredIsOneFilter` | src/components/App.js:57-74 | the three chained filters equal one filter by the conjunction of the name, species and status conditions |
| `App.FilteredIsSubsequence` | src/components/App.js:57-74 | the filtered list is a subsequence of the characters, in their original relative order |
| `App.FilteredMembership` | src/components/App.js:58-74 | a character is in the filtered list exactly when it is a character, its upper-cased name contains the upper-cased query, the species filter is `'All'` or equals its species, and the status list is empty or contains its status |
| `App.FilteredDefaultIsIdentity` | src/components/App.js:17-19 | with the state `''`, `'All'`, `[]` the filtered list is the character list unchanged |
| `App.FilteredIgnoresQueryCase` | src/components/App.js:59 | upper-casing the query first does not change the filtered list |
| `App.NameFilterExample` | src/components/App.js:59 | for a character named "Rick", the queries "rick" and "RICK" match and "Morty" does not |
| `App.FilteredExampleHumanDead` | src/components/App.js:57-74 | of a living human, a dead human and a dead alien, species `'Human'` with statuses `['Dead']` keeps only the dead human |
| `App.Toggle` | src/components/App.js:36-45 | the status branch: a present value loses one copy and the list shrinks by one, an absent value gains one copy and the list grows by one |
| `App.ToggleKeepsNoDup` | src/components/App.js:36-45 | toggling keeps a duplicate-free status list duplicate-free and flips the membership of exactly the toggled value |
| `App.ToggleEffect` | src/components/App.js:37-44 | an absent value is appended at the end; a present value loses exactly its first occurrence, and the others keep their order |
| `App.ToggleTwiceAbsent` | src/components/App.js:36-45 | toggling an absent value twice gives back the original list |
| `App.ToggleTwicePresent` | src/components/App.js:36-45 | toggling a present value twice in a duplicate-free list keeps the same members and moves that value to the end |
| `App.FieldOf` | src/components/App.js:77 | `character[key]` for the four string-valued fields; no contract of its own, `GetStatus` states what is collected from it |
| `App.GetStatus` | src/components/App.js:76-78 | the result is duplicate-free, and its elements are exactly the values of the chosen field that occur among the characters |
| `App.GetStatusFirstSeenOrder` | src/components/App.js:76-78 | the values come in the order in which each value first occurs among the characters |
| `App.RenderCharacterDetail` | src/components/App.js:82-91 | the detail view shows a character whose id equals the parsed route id, and no earlier character has that id; the view is not-found exactly when no character's id equals the parsed route id, which is always so when the id does not parse |
| `App.DetailFindsUnique` | src/components/App.js:82-85 | an id held by exactly one character resolves to that character |
| `App.DetailBeforeLoad` | src/components/App.js:82-91 | while the character list is still empty, every route is not-found |

## Left out

- The fetch in `useEffect` and the `isLoading` flag are left out, because they are asynchronous I/O against an API whose client is not part of this model. The character list is a parameter of every function instead.
- The JSX rendering, the router's `Switch`/`Route`/`Link`, `Header`, `Footer`, `Loader`, `PropTypes` and `console.log` are left out. They are display and framework glue. The top-level list/detail/not-found navigation is the router's job and is not modelled either.
- `CharacterCard`, `FilterByName` and `Filters` are presentational components and are not part of this model. A filter event is taken as the pair `(key, value)` that `FilterByName` builds.
- Text.Upper: only ASCII letters are upper-cased. Full Unicode `toUpperCase` (including mappings that change the length, such as `ß` to `SS`) is not modelled.
- App.RenderCharacterDetail: `parseInt` is not modelled. The route id arrives already parsed as `Option<int>`, where `None` stands for `NaN`. `NaN` equals no id, so it leads to the not-found view, as in the source.
- App.GetStatus: the key is one of the four string-valued fields. The number-valued `id` and unknown keys (which read `undefined`) are not modelled; the component only ever asks for `'status'`.
