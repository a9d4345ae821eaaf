# Move-to-front table over a directed list, in Dafny

This project models the two layers of Bjnygren/ou4 and proves what they do.

- **`dlist.h`: the directed (singly linked) list.** The list record holds a sentinel `head` link. A
  position is a link, and the value "at" position `p` is stored in `p->next`. The last link is the
  end position, so the head of an empty list is already the end.
  - `dlist.dfy` (module `DirectedList`) keeps a real heap chain of `Link` objects in a `DList`
    class.
  - Ghost fields describe the chain: `Spine` holds the links in order, `Contents` the values, and
    `Freed` every value handed to the free function. A position's index is `IndexOf(p)`, from
    `0` to `|Contents|`; `|Contents|` is the end.
  - `Insert` and `Remove` relink the chain in place.
- **`mtftable.c`: the move-to-front table.**
  - Every `table_insert` puts a new key/value `TableElement` at the front of the list.
  - `table_lookup` moves the first entry whose key the comparator calls equal to the front.
  - `table_remove` deletes every entry with an equal key.
  - `table_free` drains the table.
  - The key and value memory handlers are modelled as "is set" flags plus ghost logs of the keys
    and values they are called on.
- **Files.**
  - `mtf_spec.dfy` (module `MtfSpec`) states each table operation as a function of the entry
    sequence, and proves its properties as lemmas.
  - `mtftable.dfy` (module `MtfTable`) is the `Table` class. Its methods mirror the C loops and
    splices, and are proved against those functions.
  - `mtf_findings.dfy` (module `MtfFindings`) models the duplicate-key walk of `table_MTF` as
    written (see "## Findings").
  - `mtf_scenarios.dfy` (module `MtfScenarios`) restates the correctness tests of
    `testprogram.c` on the model. Each test's expected outcome is a postcondition.
- **Conventions.**
  - The comparator is a function `(K, K) -> int`; zero means "equal". In lookups and removes it
    is called as `cf(stored key, searched key)`, as in the C code. The duplicate-key walk of
    `table_MTF` compares two stored keys, the matched one first (mtftable.c:39, 46).
  - `table_create` installs `free` as the list's memory handler (mtftable.c:90). So in
    `Table.Valid()` the list always logs each entry wrapper it releases in `values.Freed`.
  - `table_lookup` returns NULL on a miss. Here a lookup returns `Option`, and a miss is
    `None`.
- **No overwrite on insert:** `table_insert` never looks at existing keys, so inserting under an
  equal key hands nothing to `keyFree`/`valueFree`.

## Model

| member | source | states |
|---|---|---|
| DirectedList.DList.Empty | dlist.h:48-54 | a new list is well formed, holds no values, has freed nothing and has no free function |
| DirectedList.DList.SetMemHandler | dlist.h:56-70 | installs or clears the free function; the values, the links and the free log are unchanged |
| DirectedList.DList.First | dlist.h:72-78 | the first position is index 0 (the end position when the list is empty) |
| DirectedList.DList.Next | dlist.h:80-87 | defined only before the end position; advances the index by exactly one |
| DirectedList.DList.IsEmpty | dlist.h:89-95 | true exactly when the list holds no values |
| DirectedList.DList.Insert | dlist.h:97-105 | d becomes the value at p; the values before p are unchanged and the values previously from p on follow d in their old order; the returned position is p's index (now holding d); the positions before it keep their links; nothing is freed |
| DirectedList.DList.Remove | dlist.h:107-115 | deletes exactly the value at p, keeping the order of the others; the returned position holds its successor; the removed value is logged as freed exactly when a free function is installed |
| DirectedList.DList.Free | dlist.h:117-125 | every remaining value is handed to the free function, front to back, when one is installed, and the list ends empty |
| DirectedList.DList.Inspect | dlist.h:127-134 | the value at p, read without changing the list |
| DirectedList.DList.IsEnd | dlist.h:136-143 | true exactly when p is the position after the last value |
| DirectedList.InsertThenRemove | dlist.h:97-115 | removing at the position an insert returns gives back the original values; exactly the inserted value is freed, when a free function was installed, and the free function stays as it was |
| MtfSpec.FirstMatch | mtftable.c:141-149 | the index of the first entry, from the front, whose key compares equal; None exactly when no key matches |
| MtfSpec.MovedToFrontProperties | mtftable.c:59-66 | the relocated entry is first; the length and multiset are kept; the other entries keep their relative order |
| MtfSpec.MovedToFrontAtFront | mtftable.c:28 | moving the first entry to the front changes nothing |
| MtfSpec.LookupProperties | mtftable.c:137-151 | a lookup finds a value exactly when some key matches; a hit leaves a matching entry holding the returned value in front and keeps the length and multiset; a miss changes nothing |
| MtfSpec.LookupAt | mtftable.c:141-147 | when index i is the first match, a lookup returns its value and moves exactly that entry to the front |
| MtfSpec.LookupTwice | mtftable.c:28 | a repeated lookup of the same key returns the same value and leaves the order unchanged |
| MtfSpec.LookupAfterInsert | mtftable.c:128-135 | an entry just inserted is what a lookup of an equal key finds, without reordering |
| MtfSpec.LastInsertWins | mtftable.c:133 | after three inserts under equal keys, a lookup returns the value inserted last |
| MtfSpec.RemoveAll | mtftable.c:159-170 | the entries a remove keeps, in order; never more than there were |
| MtfSpec.Matching | mtftable.c:161-166 | the entries a remove deletes, in order; never more than there were |
| MtfSpec.RemoveAllAppend | mtftable.c:159-170 | the scan handles the entries one after another: kept and deleted entries of a concatenation are the concatenations |
| MtfSpec.RemoveAllFilters | mtftable.c:161-169 | no kept entry has an equal key, and every deleted entry has one |
| MtfSpec.RemovePartition | mtftable.c:154-172 | kept and deleted entries together are exactly the entries there were (length and multiset) |
| MtfSpec.RemoveThenLookup | mtftable.c:154-172 | after a remove by a key, a lookup of that key misses and changes nothing |
| MtfSpec.RemoveNoMatch | mtftable.c:168-169 | with no matching key, a remove keeps everything and deletes nothing |
| MtfSpec.RemoveAllMatch | mtftable.c:161-166 | with every key matching, a remove deletes all entries, duplicates included |
| MtfSpec.RemoveTwice | mtftable.c:154-172 | removing twice by the same key is removing once |
| MtfSpec.RemoveKeepsOthers | mtftable.c:168-169 | an entry with a non-matching key survives with its multiplicity |
| MtfTable.ChainMoveToFront | mtftable.c:59-66 | after the three-pointer splice, the links form the chain of the moved-to-front values |
| MtfTable.DistinctMoveToFront | mtftable.c:59-66 | the splice only reorders links: none is duplicated or lost |
| MtfTable.Table.Create | mtftable.c:84-94 | a new table is empty, uses the given comparator, has neither key nor value handler, and its list frees the entry wrappers |
| MtfTable.Table.SetKeyMemHandler | mtftable.c:99-103 | sets or clears the key handler only |
| MtfTable.Table.SetValueMemHandler | mtftable.c:107-110 | sets or clears the value handler only |
| MtfTable.Table.IsEmpty | mtftable.c:115-118 | true exactly when the table holds no entries |
| MtfTable.Table.Insert | mtftable.c:128-135 | the new entry is first and all earlier entries follow in their old order, even with an equal key present; nothing is freed |
| MtfTable.Table.MoveToFront | mtftable.c:25-73 | relinks the entry at pos after the head: the entries become the moved-to-front sequence; no link is allocated or freed |
| MtfTable.Table.Lookup | mtftable.c:137-151 | returns the value of the first matching entry, or None; the entries end as the lookup specification says |
| MtfTable.Table.Release | mtftable.c:161-166 | the entry at p goes to each handler that is set, and its wrapper to the list's free function; it is deleted; the returned position holds its successor |
| MtfTable.Table.Remove | mtftable.c:154-172 | deletes every entry with an equal key, keeping the survivors in order; each deleted key and value is logged once, front to back, exactly when its handler is set |
| MtfTable.Table.Free | mtftable.c:175-190 | every entry's key and value go to the handlers that are set, front to back, each wrapper is freed once, and the table ends empty |
| MtfFindings.EqualRunEnd | mtftable.c:39-52 | where the walk over keys equal to the moved entry's key stops: the first differing index, or None when it reaches the end position |
| MtfFindings.WrittenMoveToFront | mtftable.c:25-73 | the entries `table_MTF` as written leaves: when there is a result, it starts with the matched entry and is no longer than the table; there is no result (the walk runs off the end) exactly when the matched entry is not first, has a successor, and every later key equals its key |
| MtfFindings.WrittenInventsNothing | mtftable.c:59-66 | whatever the code as written leaves in the list was there before: no entry is duplicated or invented |
| MtfFindings.WalkEqualRun | mtftable.c:39-52 | the loop of the walk computes exactly that stopping point |
| MtfFindings.WrittenAgreesWithoutDuplicate | mtftable.c:39 | without an equal key right after the matched entry, the code as written moves exactly that entry to the front |
| MtfFindings.WrittenLosesEntries | mtftable.c:39-66 | with an equal key right after the matched entry (not first), the code as written never gives the moved-to-front sequence: it loses at least two entries, or runs off the end exactly when all later keys are equal |
| MtfFindings.WrittenDropExample | mtftable.c:59-66 | on A(1), B(2), b(2), C(3), a lookup of 2 leaves only B, A instead of B, A, b, C |
| MtfFindings.WrittenUndefinedExample | mtftable.c:42-44 | on A(3), B(2), b(2), a lookup of 2 inspects the end position |
| MtfScenarios.CompareInt | testprogram.c:98-100 | the integer comparator is zero exactly for equal keys |
| MtfScenarios.CompareString | testprogram.c:107-109 | the string comparator is zero exactly for equal strings |
| MtfScenarios.KeysDiffer | testprogram.c:344-367 | the three test keys are different strings |
| MtfScenarios.LookupLastOfThree | testprogram.c:344-367 | a lookup matching only the last of three entries returns its value and moves it in front |
| MtfScenarios.RemoveLast | testprogram.c:444-479 | removing the key of only the last entry deletes just that entry |
| MtfScenarios.NewTestTable | testprogram.c:266-268 | a string table with both handlers set starts empty |
| MtfScenarios.TestTableOfThree | testprogram.c:357-359 | three inserts leave the entries newest first |
| MtfScenarios.IsEmptyAfterCreate | testprogram.c:251-260 | a new table is empty |
| MtfScenarios.InsertSingleElement | testprogram.c:265-280 | a table with one entry is not empty |
| MtfScenarios.LookupSingleElement | testprogram.c:310-333 | a missing key gives None and the inserted key gives its value |
| MtfScenarios.InsertLookupDifferentKeys | testprogram.c:344-367 | each of three keys gives its own value, whatever the earlier lookups reordered |
| MtfScenarios.InsertLookupSameKeys | testprogram.c:379-406 | with three equal keys, the value inserted last is found |
| MtfScenarios.RemoveSingleElement | testprogram.c:415-433 | removing the only key empties the table |
| MtfScenarios.RemoveElementsDifferentKeys | testprogram.c:444-479 | the table is non-empty after the first and second removes and empty after the third |
| MtfScenarios.RemoveElementsSameKeys | testprogram.c:490-522 | one remove deletes all three equal-key entries and empties the table; the key handler receives key1 three times and the value handler value3, value2, value1, once each |

## Left out

- Allocation: `malloc`, `calloc` and their failure (the NULL return of `table_create`) are not modelled. New links are Dafny objects.
- Deallocation: `free` and `dlist_free` releasing memory is not modelled. The list's and the table's
  handlers are logs of the values they receive, and `free(t)` in `table_free` has no counterpart.
- Memory-handler identity: the handlers are flags saying whether the function pointer is set. Which
  function is called is not modelled.
- Comparator order: only whether the comparator returns zero matters to the table. Its sign is not
  modelled. `MtfScenarios.CompareInt` does not model the 32-bit wrap-around of the subtraction in
  `compareInt`.
- The NULL value: `table_lookup` returning NULL cannot be told apart from a stored NULL value in the C
  code. In the model, a miss is `None`.
- `table_MTF` temporaries: it allocates two scratch links with `malloc(sizeof(dlist_position))`
  (mtftable.c:30, 60). That is the size of a pointer, not of a link, so writing `->next` through them
  is out of bounds. `Table.MoveToFront` performs the same three-pointer splice without scratch links.
- The list's bodies: the bodies of the `dlist.h` functions are not part of this model. The sentinel
  convention is taken from the way `mtftable.c` uses the list. `DList.Free` empties the list by
  removing from the front.
- `MtfFindings.WrittenMoveToFront`: models the walk of `table_MTF` as written on the entry sequence,
  not on the links, so it records which entries stay linked and not which link objects leak.
- `MtfSpec.RemoveAll` and `MtfSpec.Matching` state only a length bound in their own contracts. What they
  keep and delete is proved in `RemoveAllFilters`, `RemovePartition`, `RemoveNoMatch` and `RemoveAllMatch`.
- The test harness: the timing and random-order parts of `testprogram.c` (`gettimeofday`, `rand`, `printf`,
  `exit`) are I/O. The array-backed tables under `testprogram_table_as_array/` are another back
  end, over an array API whose source is not part of this model.

## Findings

| source | as written | input that shows it | evidently intended | confidence | as-written member | corrected member |
|---|---|---|---|---|---|---|
| mtftable.c:39-66 | When the entry after the matched one has an equal key, `table_MTF` walks `temp` forward over the run of equal keys. It then splices with `temp->next->next` instead of the link after `pos`. Line 59 unlinks the link after the walk's stopping point, and line 66 relinks `pos` past it. This drops every entry from the one after the matched entry up to and including the first entry whose key differs. If the run reaches the end of the list, the walk inspects the end position, which dereferences NULL. | Front to back A(1), B(2), b(2), C(3) with integer keys; `table_lookup(2)` leaves B, A. When the table is A(3), B(2), b(2), the walk runs off the end. | Relocate exactly the matched entry to the front and keep every other entry in order: B, A, b, C. | not executed | MtfFindings.WrittenLosesEntries | MtfTable.Table.MoveToFront |

The as-written half also includes `MtfFindings.WrittenMoveToFront`, `MtfFindings.WrittenDropExample` and
`MtfFindings.WrittenUndefinedExample`. The corrected splice `MtfTable.Table.MoveToFront` is what
`Table.Lookup` calls. `MtfSpec.MovedToFrontProperties` and `MtfSpec.LookupProperties` prove the
intended properties about it. The tests of `testprogram.c` never reach the walk: in their scenarios
with equal keys, the first match is already the front entry.
