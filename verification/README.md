# A verified model of the compact sparse hash tables

This project models the Cleary-style compact hash tables of the repository and proves that they behave
like a mathematical map and a mathematical set.  A table of `2^k` positions stores only quotients: a key
is hashed by a bijection, the low `k` bits of the hash value are the home of the key, and only the
remaining bits are stored.  The key is recovered from position and quotient alone, so everything depends
on a placement from which the home of every entry can be read off.

The layers, from the bottom up:

- `Bits`, `Sizing`, `PrimeTable`, `HashFunctions`: 64-bit words as numbers, the size manager, and the
  bijective hash functions.
- `Entries`, `Layouts`: what a table means.  A layout gives every position its entry and the displacement
  from its home; `Groups` lists the entries of every home.  Both placements are specified by their groups.
- `SparseStorage`: buckets with a bitmap and a dense array, the backward iterator, and the freeing of
  buckets during a walk.  It refines an array of optional slots.
- `CvLayout`, `CvInsert`, `CvResult`, `CvPlacement`: the placement with the bits `v` (some entry has its
  home here) and `c` (a group starts here).
- `GammaCode`, `EliasGamma`, `EliasTable`, `DisplacementTables`, `TableRuns`: the ways to store
  displacements.  Each refines a plain array of numbers.
- `ProbeLayout`, `Displacement`: the placement by linear probing with stored displacements.
- `PlacementRuns`: the two placements cannot be told apart.
- `Keys`: keys as pairs of home and quotient, and the replay of everything drained from a table.
- `Placements`: the two placements behind one contract, and the ids of entries.
- `SparseHashMap`, `MapRuns`: the hash map over either placement and any displacement table, and its runs.
- `SparseHashSet`, `SetRuns`: the hash set over either placement and any displacement table, its runs, and the
  record of ids that a client keeps with the help of the observer.

State that the code updates in place is a class here: loops, shifts, allocations and moves are those of the
code.  Ghost fields (`slots`, `layout`, `values`, `dict`, `keys`) hold the simple thing each class stands
for, and every method says what it does to that.

What the code relies on appears as a precondition: keys fit into the key width, key and value widths are
between 1 and 64, bucket sizes are positive, capacities are powers of two, and a 64-bit machine can index a
table that is large enough (`CanHold`); the last one is exactly the condition under which the growth loop
ends (`Sizing.GrowthEnds`).
`Sizing.RoomLeft` and the size manager keep one position free, on which the end of every probe rests.

## Where code and documentation differ

- The growth loop (`set/hashset_t.hpp:239-245`) doubles a 64-bit word.  With a tiny load factor that
  `max_load_factor` accepts, no doubling suffices, and the capacity becomes zero: `Sizing.TinyLoadFactor`.
  With debug checks on, `grown_capacity` then aborts (`size_manager_t.hpp:103`); without them the loop never
  ends.  The loop ends exactly under the condition of `Sizing.GrowthEnds`.
- `max_load_factor` documents values below 1.0; its assertions accept 1.0 as well, and so does the model.
- The multipliers of the prime multiplication hash are described as primes (`hash_functions.hpp:9`).  The rows of
  width 1 and 2 also have the multiplier 1: `PrimeTable.PrimeRowShape`.  The hash only needs that they are invertible,
  which all are: `PrimeTable.PrimeRowOk`.
- `move_into` says that the target grows as needed.  It grows in capacity only: keys are inserted with the
  key width of the target.  With debug checks on, a key that does not fit aborts (`set/hashset_t.hpp:350`);
  without them it is taken for another key: `Keys.WideKeyLost`.  A table gives back exactly the keys that
  fit into its width: `Keys.KeySurvives`.  `MoveInto` therefore asks that the keys moved fit.

## Model

| member | source | states |
|---|---|---|
| `MapRuns.Run` | include/tudocomp/util/compact_hash/map/hashmap_t.hpp:174-186 | For every placement and every sequence of insertions, accesses, assignments through the reference of an access, searches, width changes and load factor changes on a new map: a search finds the value last written (the default value if the key was only accessed, nothing if it was neither), and insertions, accesses and assignments know whether the key was there, across all rehashes |
| `MapRuns.Call` | include/tudocomp/util/compact_hash/map/hashmap_t.hpp:238-288 | Each public call changes the map exactly as it changes a mathematical map with key width, value width and load factor |
| `MapRuns.DictLeft` | include/tudocomp/util/compact_hash/map/hashmap_t.hpp:174-252 | The contents after any number of calls are what the last insertion or assignment, or else an access, left behind for each key |
| `MapRuns.LookupIdLater` | include/tudocomp/util/compact_hash/map/hashmap_t.hpp:298-303 | An id stays good over any run of calls that do not rehash the table: although these may move the entry, the id leads to the entry of its key, with the value the key has by then |
| `SetRuns.LookupIdLater` | include/tudocomp/util/compact_hash/set/hashset_t.hpp:185-190 | An id stays good over any run of calls that do not rehash the table, although with `v`/`c` bits these move entries: it leads to the slot that stores the quotient of its key |
| `MapRuns.LeftBehindOnce` | include/tudocomp/util/compact_hash/map/hashmap_t.hpp:174-252 | "Last written" determines one answer |
| `SetRuns.Run` | include/tudocomp/util/compact_hash/set/hashset_t.hpp:139-179 | For every placement and every run of `lookup_insert_key_width`, `lookup`, `grow_key_width` and `max_load_factor` on a new set: `key_already_exist` and `found` hold exactly if the key was inserted before, and the final `size` is the number of different keys inserted.  A client that writes down the ids returned and those reported by `on_reinsert` has, after every call, an id for exactly the keys inserted, no id twice, and the one that leads to the key; whenever a call finds its key it returns the id on record |
| `SetRuns.ReportNoted` | include/tudocomp/util/compact_hash/set/hashset_t.hpp:146-148 | The report of a rehash alone brings the record of a client up to date, whatever ids it held before |
| `SetRuns.MovesComplete` | include/tudocomp/util/compact_hash/set/hashset_t.hpp:200-209 | The report names every key, because it has as many moves as there are keys and none twice |
| `SetRuns.RecordNext` | include/tudocomp/util/compact_hash/set/hashset_t.hpp:139-148 | The id returned by a call that finds its key is the one on record, and writing down the id of a key inserted keeps the record up to date |
| `SetRuns.TracksInjective` | include/tudocomp/util/compact_hash/entry_t.hpp:17-22 | A record of current ids has no id twice |
| `SetRuns.Call` | include/tudocomp/util/compact_hash/set/hashset_t.hpp:152-179 | Each public call changes the set exactly as it changes a mathematical set with key width and load factor, reports a complete rehash or nothing at all, returns the current id of the key, and leaves the record of a client up to date |
| `SetRuns.KeysInserted` | include/tudocomp/util/compact_hash/set/hashset_t.hpp:152-156 | The set contains a key if and only if an earlier call inserted it |
| `PlacementRuns.Compare` | include/tudocomp/util/compact_hash/index_structure/cv_bvs_t.hpp:304-475 | Any run of insertions and searches on both placements gives the same answers, which tell for every request whether its entry was there, and draining either delivers for every home exactly the quotients inserted there, in order |
| `PlacementRuns.CvWhole` | include/tudocomp/util/compact_hash/index_structure/cv_bvs_t.hpp:304-475 | A run on a new `v`/`c` placement gives true answers, and draining it gives back what was inserted |
| `PlacementRuns.DispWhole` | include/tudocomp/util/compact_hash/index_structure/displacement_t.hpp:68-183 | A run on a new displacement placement gives true answers, and draining it gives back what was inserted |
| `PlacementRuns.CvRun` | include/tudocomp/util/compact_hash/index_structure/cv_bvs_t.hpp:304-475 | The `v`/`c` placement answers any run like a list of quotients per home |
| `PlacementRuns.DispRun` | include/tudocomp/util/compact_hash/index_structure/displacement_t.hpp:68-183 | The displacement placement answers any run like a list of quotients per home |
| `TableRuns.Run` | include/tudocomp/util/compact_hash/index_structure/elias_gamma_displacement_table_t.hpp:470-495 | A displacement table of any kind and configuration reads the value last set, or zero, after any sequence of calls |
| `TableRuns.Compare` | include/tudocomp/util/compact_hash/index_structure/naive_displacement_table_t.hpp:34-39 | Displacement tables of different kinds or configurations cannot be told apart by any sequence of calls |
| `CvPlacement.CvBvs.SearchExistingGroup` | include/tudocomp/util/compact_hash/index_structure/cv_bvs_t.hpp:94-129 | In every state with `v` set at the address, even before the group of that address exists: the result is one whole group, the last one whose home is not behind the address, together with the free position that ends the cluster; so its end is where a new entry belongs |
| `CvPlacement.LocatedOnce` | include/tudocomp/util/compact_hash/index_structure/cv_bvs_t.hpp:94-129 | The block described is unique, so the result of the search is determined |
| `CvPlacement.GroupLocated` | include/tudocomp/util/compact_hash/index_structure/cv_bvs_t.hpp:119-126 | If the group of the address exists, the block found is the complete list of its entries, in order |
| `CvPlacement.LocatedPoint` | include/tudocomp/util/compact_hash/index_structure/cv_bvs_t.hpp:151-165 | The end of the block found is where a new entry of the address belongs, whether or not its group exists, and everything from there to the free position is occupied |
| `CvPlacement.CvBvs.CountForward` | include/tudocomp/util/compact_hash/index_structure/cv_bvs_t.hpp:101-113 | The first loop stops at the first free position and has counted the `v` bits on the way |
| `CvPlacement.CvBvs.BackToEnd` | include/tudocomp/util/compact_hash/index_structure/cv_bvs_t.hpp:115-121 | Counting `c` bits back ends exactly at the boundary between the groups |
| `CvPlacement.CvBvs.BackToStart` | include/tudocomp/util/compact_hash/index_structure/cv_bvs_t.hpp:123-128 | The last loop ends at the start of the group |
| `CvPlacement.CvBvs.SearchInGroup` | include/tudocomp/util/compact_hash/index_structure/cv_bvs_t.hpp:135-147 | Finds the entry with the quotient in the group, with its index, or there is none |
| `CvPlacement.CvBvs.InsertValueAfterGroup` | include/tudocomp/util/compact_hash/index_structure/cv_bvs_t.hpp:151-165 | Opens the position behind the group, by allocation or by shifting up to the free position; everything else keeps its order |
| `CvPlacement.CvBvs.ShiftGroupsAndInsert` | include/tudocomp/util/compact_hash/index_structure/cv_bvs_t.hpp:172-187 | The circular range of slots and of `c` bits moves exactly one to the right, also across the end of the table |
| `CvPlacement.CvBvs.ShiftElementsAndInsert` | include/tudocomp/util/compact_hash/index_structure/cv_bvs_t.hpp:194-236 | The circular range of slots moves exactly one to the right, every other slot stays, and the pointer returned is that of the opened position |
| `CvPlacement.CvBvs.SparseShift` | include/tudocomp/util/compact_hash/index_structure/cv_bvs_t.hpp:241-283 | The range is rotated by one over sparse buckets, walked by two backward iterators |
| `CvPlacement.CvBvs.LookupInsert` | include/tudocomp/util/compact_hash/index_structure/cv_bvs_t.hpp:304-378 | Keeps the whole invariant in every case, and changes the contents by exactly the requested pair, appended to its home, or not at all if it is present; pointer and id belong to that entry |
| `CvPlacement.CvBvs.InsertFresh` | include/tudocomp/util/compact_hash/index_structure/cv_bvs_t.hpp:311-328 | The case of a free home: the pair starts a group at its own address, and merges with the neighbouring clusters |
| `CvPlacement.CvBvs.InsertIntoGroup` | include/tudocomp/util/compact_hash/index_structure/cv_bvs_t.hpp:332-359 | The case of an existing group: the entry is found, or appended behind the group with all later groups shifted |
| `CvPlacement.CvBvs.AppendToGroup` | include/tudocomp/util/compact_hash/index_structure/cv_bvs_t.hpp:346-359 | A new entry goes behind the group found: the invariant is kept, and one home gains one entry |
| `CvPlacement.InsertionDone` | include/tudocomp/util/compact_hash/index_structure/cv_bvs_t.hpp:346-375 | Opened slots and bits together with the new entry make the table whole again, with one entry appended |
| `CvPlacement.CvBvs.InsertNewGroup` | include/tudocomp/util/compact_hash/index_structure/cv_bvs_t.hpp:360-376 | The case of a new group inside a cluster: `v` is set first, and the `c` bit repaired afterwards |
| `CvPlacement.CvBvs.Search` | include/tudocomp/util/compact_hash/index_structure/cv_bvs_t.hpp:461-475 | Finds a pair if and only if it is stored, with the pointer and id of its entry |
| `CvPlacement.CvBvs.LookupId` | include/tudocomp/util/compact_hash/index_structure/cv_bvs_t.hpp:291-302 | An id made from home and index leads to the entry with that index, wherever insertions have moved it, for every entry of every table |
| `CvPlacement.CvBvs.SetValue` | include/tudocomp/util/compact_hash/map/hashmap_t.hpp:180-184 | Writing through the pointer of an entry changes the value of that entry and nothing else |
| `CvPlacement.CvBvs.DrainAll` | include/tudocomp/util/compact_hash/index_structure/cv_bvs_t.hpp:380-459 | Delivers the entries of every home exactly once, in order and with the correct home, around the circle from the first free position on; in the end only the buckets of the first and of the last entry are not freed |
| `CvPlacement.CvBvs.HandOut` | include/tudocomp/util/compact_hash/index_structure/cv_bvs_t.hpp:411-424 | One step of the walk: a `c` bit moves on to the next `v` bit, which is the home of the entry |
| `CvPlacement.CvBvs.NextHome` | include/tudocomp/util/compact_hash/index_structure/cv_bvs_t.hpp:413-420 | From one home with entries to the next one |
| `CvPlacement.CvBvs.LocalFits` | include/tudocomp/util/compact_hash/index_structure/cv_bvs_t.hpp:285-289 | The index of an entry in its group fits into the bits of a word that the home leaves, in every table with quotients of that size: the shift never drops a bit |
| `Layouts.GroupSize` | include/tudocomp/util/compact_hash/index_structure/cv_bvs_t.hpp:285-289 | A group has at most as many entries as there are quotients, because they differ |
| `CvPlacement.GlobalIdParts` | include/tudocomp/util/compact_hash/index_structure/cv_bvs_t.hpp:285-293 | `lookup_id` takes an id apart into the home and index it was made of, for every index that fits |
| `CvLayout.BitsMatch` | include/tudocomp/util/compact_hash/index_structure/cv_bvs_t.hpp:105-128 | The number of homes with entries behind an address is the number of groups behind the boundary: the matching of `v` and `c` bits |
| `CvLayout.GroupBefore` | include/tudocomp/util/compact_hash/index_structure/cv_bvs_t.hpp:91-129 | The group in front of the boundary is that of the last home not behind the address |
| `CvLayout.HomesOrdered` | include/tudocomp/util/compact_hash/index_structure/cv_bvs_t.hpp:94-129 | Inside a cluster the homes do not decrease |
| `CvLayout.NoGap` | include/tudocomp/util/compact_hash/index_structure/cv_bvs_t.hpp:94-129 | No position between the home of an entry and the entry is free |
| `CvLayout.ToLinear` | include/tudocomp/util/compact_hash/index_structure/cv_bvs_t.hpp:94-129 | The local conditions on neighbours give the linear picture from any free position on |
| `CvLayout.FromLinear` | include/tudocomp/util/compact_hash/index_structure/cv_bvs_t.hpp:304-378 | The linear picture gives back the local conditions |
| `CvInsert.InsertKeepsLinear` | include/tudocomp/util/compact_hash/index_structure/cv_bvs_t.hpp:151-187 | Inserting at the end of the group keeps the order of homes and the meaning of all `c` bits |
| `CvInsert.InsertAppends` | include/tudocomp/util/compact_hash/index_structure/cv_bvs_t.hpp:151-187 | Inserting at the end of the group appends to the entries of that home and changes those of no other |
| `CvInsert.BlockIsGroup` | include/tudocomp/util/compact_hash/index_structure/cv_bvs_t.hpp:123-128 | The block found is the complete list of entries of the home |
| `CvResult.InsertionKeeps` | include/tudocomp/util/compact_hash/index_structure/cv_bvs_t.hpp:304-378 | From shifted slots and bits to the invariant of the whole circle, with all groups unchanged but one |
| `Displacement.DisplacementPlacement.LookupInsert` | include/tudocomp/util/compact_hash/index_structure/displacement_t.hpp:68-97 | Finds the pair, or places it at the first free position behind its home; no entry moves, the contents change by exactly that pair, and the id is the position |
| `Displacement.DisplacementPlacement.InsertAt` | include/tudocomp/util/compact_hash/index_structure/displacement_t.hpp:77-82 | The step at the free position: allocation, displacement and quotient together keep the invariant |
| `Displacement.DisplacementPlacement.Matches` | include/tudocomp/util/compact_hash/index_structure/displacement_t.hpp:84-89 | Displacement and quotient decide whether a position holds the pair |
| `Displacement.DisplacementPlacement.Search` | include/tudocomp/util/compact_hash/index_structure/displacement_t.hpp:159-183 | Finds a pair if and only if it is stored; the probe ends |
| `Displacement.DisplacementPlacement.LookupId` | include/tudocomp/util/compact_hash/index_structure/displacement_t.hpp:59-66 | The id is the position of the entry |
| `Displacement.DisplacementPlacement.DrainAll` | include/tudocomp/util/compact_hash/index_structure/displacement_t.hpp:99-157 | Delivers the entries of every home exactly once with the correct home, around the circle from the first free position on; in the end only the buckets of the first and of the last entry are not freed |
| `ProbeLayout.PlacedOk` | include/tudocomp/util/compact_hash/index_structure/displacement_t.hpp:77-82 | Placing an entry at the first free position keeps the invariant that no position between home and entry is free, and appends to one home |
| `ProbeLayout.ProbeMisses` | include/tudocomp/util/compact_hash/index_structure/displacement_t.hpp:159-183 | A probe that reaches a free position has seen every entry of the home |
| `ProbeLayout.ProbeHits` | include/tudocomp/util/compact_hash/index_structure/displacement_t.hpp:84-89 | A match on the probe path is the entry |
| `ProbeLayout.FreeUncrossed` | include/tudocomp/util/compact_hash/index_structure/displacement_t.hpp:99-137 | No displacement leads back across a free position, so the walk may start there |
| `Placements.IdsApart` | include/tudocomp/util/compact_hash/entry_t.hpp:17-22 | In every table, with either placement, two entries have the same id if and only if they are the same entry |
| `Placements.KeyIdsApart` | include/tudocomp/util/compact_hash/entry_t.hpp:17-22 | Two keys have the same id if and only if they are equal |
| `Placements.SomeId` | include/tudocomp/util/compact_hash/entry_t.hpp:17-22 | Every stored quotient has an id |
| `Placements.IdsKeptCvAppend` | include/tudocomp/util/compact_hash/index_structure/cv_bvs_t.hpp:346-375 | Shifting and appending leave the ids of all other entries as they are, although entries move |
| `Placements.IdsKeptWrite` | include/tudocomp/util/compact_hash/map/hashmap_t.hpp:180-184 | Writing a value leaves all ids as they are |
| `Placements.Placement.constructor` | include/tudocomp/util/compact_hash/set/hashset_t.hpp:64-73 | An empty table of the chosen placement |
| `Placements.Placement.LookupInsert` | include/tudocomp/util/compact_hash/set/hashset_t.hpp:375-390 | Either placement finds the pair, or appends exactly that pair to its home; every id given out before stays good, and the new id belongs to the pair |
| `Placements.Placement.Search` | include/tudocomp/util/compact_hash/set/hashset_t.hpp:175-179 | Either placement finds a pair if and only if it is stored, with its id and the pointer of its slot |
| `Placements.Placement.LookupId` | include/tudocomp/util/compact_hash/set/hashset_t.hpp:185-190 | The id of a pair leads to the slot that stores it, wherever insertions have moved it |
| `Placements.Placement.SetValue` | include/tudocomp/util/compact_hash/map/hashmap_t.hpp:180-184 | One value changes, and all ids stay |
| `Placements.Placement.DrainAll` | include/tudocomp/util/compact_hash/set/hashset_t.hpp:210-221 | Either placement delivers the entries of every home exactly once, in order, and frees all buckets but those of the first and of the last entry |
| `EliasGamma.Bucket.Set` | include/tudocomp/util/compact_hash/index_structure/elias_gamma_displacement_table_t.hpp:225-285 | Refines the update of a plain array, for shorter, longer and equal codes; the cursor stays coherent |
| `EliasGamma.Bucket.Replace` | include/tudocomp/util/compact_hash/index_structure/elias_gamma_displacement_table_t.hpp:239-276 | Shifting, reallocating and writing replaces the code of one element and loses no bit of any other |
| `EliasGamma.Bucket.Resize` | include/tudocomp/util/compact_hash/index_structure/elias_gamma_displacement_table_t.hpp:253-271 | Shift left and shrink, or grow and shift right: everything before and behind the code is kept |
| `EliasGamma.Bucket.Get` | include/tudocomp/util/compact_hash/index_structure/elias_gamma_displacement_table_t.hpp:172-175 | Reads the element of the plain array; the cursor stays coherent |
| `EliasGamma.Bucket.Seek` | include/tudocomp/util/compact_hash/index_structure/elias_gamma_displacement_table_t.hpp:154-162 | Moves the cursor to the wanted element, restarting if it is already behind it |
| `EliasGamma.Bucket.Read` | include/tudocomp/util/compact_hash/index_structure/elias_gamma_displacement_table_t.hpp:99-105 | Reads one code and moves the cursor behind it |
| `EliasGamma.Bucket.ReallocBits` | include/tudocomp/util/compact_hash/index_structure/elias_gamma_displacement_table_t.hpp:145-170 | A new allocation keeps all common bits |
| `EliasGamma.Bucket.constructor` | include/tudocomp/util/compact_hash/index_structure/elias_gamma_displacement_table_t.hpp:307-324 | A new bucket stands for zeros |
| `EliasGamma.ShiftBits` | include/tudocomp/util/compact_hash/index_structure/elias_gamma_displacement_table_t.hpp:177-223 | Moves a block of bits within the array, correct for overlapping places in both directions |
| `EliasGamma.ReadGamma` | include/tudocomp/util/compact_hash/index_structure/elias_gamma_displacement_table_t.hpp:99-105 | Reading a code bit by bit gives back the number written |
| `EliasGamma.WriteGamma` | include/tudocomp/util/compact_hash/index_structure/elias_gamma_displacement_table_t.hpp:107-114 | Writes exactly the bits of the code |
| `EliasGamma.EncodedBitSize` | include/tudocomp/util/compact_hash/index_structure/elias_gamma_displacement_table_t.hpp:116-132 | The number of bits that writing would take |
| `EliasTable.EliasGammaTable.Get` | include/tudocomp/util/compact_hash/index_structure/elias_gamma_displacement_table_t.hpp:470-482 | Agrees with the plain array for any positive bucket size, and the cursor triple stays coherent |
| `EliasTable.EliasGammaTable.Set` | include/tudocomp/util/compact_hash/index_structure/elias_gamma_displacement_table_t.hpp:483-495 | Agrees with the plain array for any positive bucket size, and the cursor triple stays coherent |
| `EliasTable.EliasGammaTable.Turn` | include/tudocomp/util/compact_hash/index_structure/elias_gamma_displacement_table_t.hpp:470-477 | A change of the bucket resets the cursor coherently |
| `EliasTable.EliasGammaTable.constructor` | include/tudocomp/util/compact_hash/index_structure/elias_gamma_displacement_table_t.hpp:453-469 | A new table stands for zeros |
| `EliasTable.MakeBuckets` | include/tudocomp/util/compact_hash/index_structure/elias_gamma_displacement_table_t.hpp:420-468 | Full buckets and a remainder cover the table, each in memory of its own |
| `EliasTable.ChunkUpdate` | include/tudocomp/util/compact_hash/index_structure/elias_gamma_displacement_table_t.hpp:483-495 | Changing one position changes one bucket |
| `GammaCode.PrefixFree` | include/tudocomp/util/compact_hash/index_structure/elias_gamma_displacement_table_t.hpp:99-114 | No code is the beginning of another one, so a code is read without knowing its length |
| `GammaCode.EncodeInjective` | include/tudocomp/util/compact_hash/index_structure/elias_gamma_displacement_table_t.hpp:391-400 | The values can be told from the bit string |
| `GammaCode.ValueOfDigits` | include/tudocomp/util/compact_hash/index_structure/elias_gamma_displacement_table_t.hpp:99-114 | The digits of a number determine it |
| `DisplacementTables.LayeredTable.Get` | include/tudocomp/util/compact_hash/index_structure/layered_displacement_table_t.hpp:92-100 | Reads the plain array, also past stale entries of the spill map and for the smallest maximum; the map gets an entry only where a marker has none |
| `DisplacementTables.LayeredTable.Set` | include/tudocomp/util/compact_hash/index_structure/layered_displacement_table_t.hpp:101-109 | Updates the plain array, for values that are spilled, come back, and are spilled again; exactly the values from the maximum on go into the map |
| `DisplacementTables.LayeredTable.constructor` | include/tudocomp/util/compact_hash/index_structure/layered_displacement_table_t.hpp:84-91 | A new table stands for zeros |
| `DisplacementTables.DisplacementTable.Get` | include/tudocomp/util/compact_hash/index_structure/naive_displacement_table_t.hpp:34-36 | The three kinds of tables behind one interface read the plain array |
| `DisplacementTables.DisplacementTable.Set` | include/tudocomp/util/compact_hash/index_structure/naive_displacement_table_t.hpp:37-39 | The three kinds of tables behind one interface update the plain array |
| `SparseStorage.BucketsBv.AllocatePos` | include/tudocomp/util/compact_hash/storage/buckets_bv_t.hpp:126-134 | After allocation the position is occupied and every other slot reads as before |
| `SparseStorage.BucketsBv.Write` | include/tudocomp/util/compact_hash/storage/buckets_bv_t.hpp:135-142 | Writing through the pointer of a slot changes that slot only |
| `SparseStorage.BucketsBv.Read` | include/tudocomp/util/compact_hash/storage/buckets_bv_t.hpp:135-142 | Reading through the pointer of a slot gives its entry |
| `SparseStorage.BucketsBv.At` | include/tudocomp/util/compact_hash/storage/buckets_bv_t.hpp:135-142 | The pointer of an occupied position: its bucket and the rank of its bit |
| `SparseStorage.BucketsBv.PosIsEmpty` | include/tudocomp/util/compact_hash/storage/buckets_bv_t.hpp:143-145 | Empty if and only if the slot is |
| `SparseStorage.BucketsBv.OffsetInBucket` | include/tudocomp/util/compact_hash/storage/sparse_pos_t.hpp:57-62 | The number of set bits below the position |
| `SparseStorage.BucketsBv.MakeIter` | include/tudocomp/util/compact_hash/storage/buckets_bv_t.hpp:62-78 | An iterator at any position, also one past the end |
| `SparseStorage.BucketsBv.Decrement` | include/tudocomp/util/compact_hash/storage/buckets_bv_t.hpp:84-93 | Moves to the closest occupied position before, across any number of empty buckets |
| `SparseStorage.BucketsBv.DropBucket` | include/tudocomp/util/compact_hash/storage/buckets_bv_t.hpp:108-112 | Empties exactly the positions of one bucket |
| `SparseStorage.BucketsBv.TrimStorage` | include/tudocomp/util/compact_hash/storage/buckets_bv_t.hpp:150-171 | If both positions are the first occupied ones of their buckets, frees exactly the buckets from the first to the second, around the circle, and otherwise nothing; the start moves on exactly if the second position is the first of its bucket |
| `SparseStorage.BucketsBv.LeadsByRank` | include/tudocomp/util/compact_hash/storage/sparse_pos_t.hpp:57-62 | The rank of a position is zero exactly if nothing is stored before it in its bucket |
| `SparseStorage.BucketsBv.Visit` | include/tudocomp/util/compact_hash/index_structure/cv_bvs_t.hpp:447-458 | Trims the storage, and reads an entry: no bucket that holds an entry still to be visited is freed |
| `Layouts.EntersLeading` | include/tudocomp/util/compact_hash/storage/buckets_bv_t.hpp:150-171 | A walk that enters a bucket finds nothing stored before the position it reaches |
| `Layouts.TrailVisit` | include/tudocomp/util/compact_hash/storage/buckets_bv_t.hpp:150-171 | Whenever the walk enters another bucket the one left behind is freed, unless it is the one in which the walk began |
| `Layouts.TrailEnd` | include/tudocomp/util/compact_hash/storage/buckets_bv_t.hpp:150-171 | In the end only the buckets of the first and of the last entry visited are still in use |
| `SparseStorage.BucketsBv.FirstEmpty` | include/tudocomp/util/compact_hash/index_structure/cv_bvs_t.hpp:384-394 | The walk starts at the first empty position |
| `SparseStorage.InsertAt` | include/tudocomp/util/compact_hash/storage/bucket_t.hpp:129-177 | The new dense array holds the old elements around the new one |
| `SparseStorage.RepresentsInsert` | include/tudocomp/util/compact_hash/storage/bucket_t.hpp:129-177 | A set bit raises exactly the ranks above it, so the two halves copied fit the new bitmap |
| `SparseStorage.RepresentsWrite` | include/tudocomp/util/compact_hash/storage/bucket_t.hpp:108-110 | One rank is one slot |
| `SparseStorage.PtrInjective` | include/tudocomp/util/compact_hash/storage/sparse_pos_t.hpp:57-62 | Occupied positions have different pointers |
| `SparseStorage.IterDistinct` | include/tudocomp/util/compact_hash/storage/buckets_bv_t.hpp:95-97 | Iterators at occupied positions are told apart by the comparison of their pointers |
| `Bits.RankOfOr` | include/tudocomp/util/compact_hash/storage/sparse_pos_t.hpp:57-62 | Setting a clear bit raises the ranks above it by one |
| `Bits.PopcountBelow` | include/tudocomp/util/compact_hash/storage/sparse_pos_t.hpp:57-62 | The population count under the mask is the rank |
| `HashFunctions.HashBijective` | include/tudocomp/util/compact_hash/hash_functions.hpp:97-111 | `hash_inv` inverts `hash` and `hash` inverts `hash_inv` on all `w`-bit numbers, for every `w` from 1 to 64 and both hash functions |
| `HashFunctions.PoplarBijective` | include/tudocomp/util/compact_hash/hash_functions.hpp:97-154 | The three rounds of the prime multiplication hash and their inverses |
| `HashFunctions.RoundBothWays` | include/tudocomp/util/compact_hash/hash_functions.hpp:142-154 | One round: the shift is an involution and the multiplication is inverted modulo 2^w |
| `HashFunctions.ShiftXorInvolution` | include/tudocomp/util/compact_hash/hash_functions.hpp:145-145 | Xoring with a shift by more than half of the width is its own inverse |
| `HashFunctions.XorShiftInvolution` | include/tudocomp/util/compact_hash/hash_functions.hpp:194-205 | The plain xorshift is its own inverse on `w`-bit numbers |
| `PrimeTable.PrimeRowOk` | include/tudocomp/util/compact_hash/hash_functions.hpp:10-76 | Every multiplier of the table is inverted by the number given for it |
| `PrimeTable.PrimeRowShape` | include/tudocomp/util/compact_hash/hash_functions.hpp:9-76 | Inverses are reduced; the multipliers are odd, have no smaller prime factor below 32, fall from the first to the third and lie right below the modulus; the rows of width 1, 2 and 64 are the exceptions they are in the table |
| `Sizing.DecomposeCompose` | include/tudocomp/util/compact_hash/size_manager_t.hpp:110-124 | A hash value is recovered from address and quotient |
| `Sizing.ComposeDecompose` | include/tudocomp/util/compact_hash/size_manager_t.hpp:110-124 | Every pair of an address and a quotient in range belongs to one hash value |
| `Keys.KeyRoundTrip` | include/tudocomp/util/compact_hash/map/hashmap_t.hpp:450-469 | A key is recovered from its home and quotient |
| `Keys.QuotientFits` | include/tudocomp/util/compact_hash/size_manager_t.hpp:110-116 | The quotient of a key fits into the bits of a word that the home leaves |
| `Keys.KeySurvives` | include/tudocomp/util/compact_hash/set/hashset_t.hpp:348-366 | A table gives back a key if and only if the key fits into its width, for every number as a key |
| `Keys.WideKeyLost` | include/tudocomp/util/compact_hash/map/hashmap_t.hpp:314-321 | A concrete key too wide for its table, which takes the place of another key |
| `HashFunctions.PoplarValue` | include/tudocomp/util/compact_hash/hash_functions.hpp:97-103 | The value of the prime multiplication hash: three times, the number is combined with its own upper bits, from place w/2+1, w/2+2 and w/2+3 on, and multiplied by the next multiplier of the row modulo 2^w |
| `HashFunctions.HashValue` | include/tudocomp/util/compact_hash/hash_functions.hpp:97-205 | The value of either hash function on `w`-bit numbers |
| `HashFunctions.ShiftXorBit` | include/tudocomp/util/compact_hash/hash_functions.hpp:145-145 | Every bit is flipped if the bit w/2+1+i places above it is set |
| `HashFunctions.PoplarSample` | include/tudocomp/util/compact_hash/hash_functions.hpp:97-147 | For four-bit numbers, 1 becomes 13, 15 and 9 |
| `HashFunctions.HashBounded` | include/tudocomp/util/compact_hash/hash_functions.hpp:97-111 | The hash value of any number, of whatever width, has at most `w` bits |
| `Keys.PartsRoundTrip` | include/tudocomp/util/compact_hash/map/hashmap_t.hpp:450-469 | Every home and quotient in range belong to one key |
| `Keys.HoldsLookup` | include/tudocomp/util/compact_hash/map/hashmap_t.hpp:283-292 | Looking for the quotient among the entries of the home decides whether the key is in the map, and gives its value |
| `Keys.HoldsInsert` | include/tudocomp/util/compact_hash/map/hashmap_t.hpp:493-507 | Appending the pair of a new key adds the key to the map |
| `Keys.HoldsUpdate` | include/tudocomp/util/compact_hash/map/hashmap_t.hpp:180-184 | Replacing the value of an entry replaces it in the map |
| `Keys.DeliveredOnce` | include/tudocomp/util/compact_hash/map/hashmap_t.hpp:314-321 | No key is delivered twice |
| `Keys.ReplayAll` | include/tudocomp/util/compact_hash/map/hashmap_t.hpp:314-321 | Replaying everything that was drained gives the whole map |
| `Sizing.GrowsIff` | include/tudocomp/util/compact_hash/size_manager_t.hpp:90-99 | A table is grown exactly when the new size would fill every position or exceed the load factor times the capacity, for every capacity of a 64-bit machine |
| `Sizing.GrowthSteps` | include/tudocomp/util/compact_hash/set/hashset_t.hpp:239-245 | The growth loop in the same terms: the first doubling that is not too full |
| `Sizing.GrownNext` | include/tudocomp/util/compact_hash/set/hashset_t.hpp:210-221 | Several growth steps in a row go no further than the largest size asked for demands |
| `Sizing.Max` | include/tudocomp/util/compact_hash/set/hashset_t.hpp:155-155 | The larger of the width asked for and the present one |
| `Keys.RealWidth` | include/tudocomp/util/compact_hash/set/hashset_t.hpp:322-334 | Wide enough for the key and for one bit of quotient, and no wider |
| `SetRuns.WidthAfter` | include/tudocomp/util/compact_hash/set/hashset_t.hpp:152-169 | After any run the key width is the largest one some call asked for, or the one the set began with |
| `MapRuns.WidthsAfter` | include/tudocomp/util/compact_hash/map/hashmap_t.hpp:174-277 | After any run the key and value widths are the largest ones some calls asked for, or those the map began with |
| `Sizing.GrowthEnds` | include/tudocomp/util/compact_hash/set/hashset_t.hpp:239-245 | The growth loop ends if and only if the largest table of a 64-bit machine takes the new size |
| `Sizing.TinyLoadFactor` | include/tudocomp/util/compact_hash/size_manager_t.hpp:144-148 | A load factor that `max_load_factor` accepts, and for which the growth loop never ends |
| `Sizing.DoubledValue` | include/tudocomp/util/compact_hash/size_manager_t.hpp:102-105 | The capacity runs through the powers of two and sticks at zero when it leaves the word |
| `Sizing.RoomLeft` | include/tudocomp/util/compact_hash/size_manager_t.hpp:90-99 | A table that need not grow keeps a position free, for any load factor |
| `Sizing.TriggerMonotone` | include/tudocomp/util/compact_hash/size_manager_t.hpp:90-99 | A larger table takes at least as many elements |
| `Sizing.SizeManager.GrownCapacity` | include/tudocomp/util/compact_hash/set/hashset_t.hpp:239-245 | The least doubling for which the new size leaves a position free and does not exceed the load factor times the capacity |
| `Sizing.SizeManager.constructor` | include/tudocomp/util/compact_hash/size_manager_t.hpp:57-64 | Empty, with the given number of positions, which must be a power of two, or with two positions if fewer were asked for |
| `Sizing.SizeManager.SetSize` | include/tudocomp/util/compact_hash/size_manager_t.hpp:72-75 | The size stays below the capacity |
| `Sizing.SizeManager.MaxLoadFactor` | include/tudocomp/util/compact_hash/size_manager_t.hpp:144-148 | Any load factor in the range may be set at any time |
| `Sizing.ModAddIsMasked` | include/tudocomp/util/compact_hash/size_manager_t.hpp:126-131 | Masked addition of words wraps around the capacity |
| `Sizing.ModSubIsMasked` | include/tudocomp/util/compact_hash/size_manager_t.hpp:133-138 | Masked subtraction of words wraps around the capacity, also when the word wraps around |
| `Sizing.Log2Upper` | include/tudocomp/util/compact_hash/util.hpp:12-21 | The position of the highest set bit |
| `Sizing.IsPotIff` | include/tudocomp/util/compact_hash/util.hpp:23-25 | The bit test accepts exactly the powers of two |
| `SparseHashMap.HashMap.constructor` | include/tudocomp/util/compact_hash/map/hashmap_t.hpp:83-94 | An empty map with the given number of positions, or two if fewer were asked for |
| `SparseHashMap.HashMap.Insert` | include/tudocomp/util/compact_hash/map/hashmap_t.hpp:174-186 | Sets the value of the key in the mathematical map, and returns its id and the pointer of its entry; the table grows to the least doubling that is not too full, and without a rehash all ids stay as they are |
| `SparseHashMap.HashMap.AccessEntry` | include/tudocomp/util/compact_hash/map/hashmap_t.hpp:238-252 | Adds the default value if the key is new, and nothing else; the pointer returned is that of the entry of the key, so a caller may write through it |
| `SparseHashMap.HashMap.SetValue` | include/tudocomp/util/compact_hash/map/hashmap_t.hpp:201-205 | Writing through the pointer of a key sets its value in the mathematical map; the pointer and all ids stay good |
| `SparseHashMap.HashMap.Search` | include/tudocomp/util/compact_hash/map/hashmap_t.hpp:283-292 | The value of the key, if it is in the map |
| `SparseHashMap.HashMap.GrowWidths` | include/tudocomp/util/compact_hash/map/hashmap_t.hpp:273-277 | Changes the widths and keeps the contents |
| `SparseHashMap.HashMap.MaxLoadFactor` | include/tudocomp/util/compact_hash/map/hashmap_t.hpp:141-143 | Changes the load factor and keeps the contents |
| `SparseHashMap.HashMap.GrowAndInsert` | include/tudocomp/util/compact_hash/map/hashmap_t.hpp:493-507 | Finds the key, or adds it with an uninitialized value, after growing as needed |
| `SparseHashMap.HashMap.GrowIfNeeded` | include/tudocomp/util/compact_hash/map/hashmap_t.hpp:512-547 | Afterwards no reallocation is needed; the contents are the same, and the capacity is the least doubling that is not too full |
| `SparseHashMap.HashMap.Rehashed` | include/tudocomp/util/compact_hash/map/hashmap_t.hpp:526-542 | The new table takes all entries without reallocating itself |
| `SparseHashMap.HashMap.Adopt` | include/tudocomp/util/compact_hash/map/hashmap_t.hpp:544-544 | The table takes over the state of the new one |
| `SparseHashMap.HashMap.MoveInto` | include/tudocomp/util/compact_hash/map/hashmap_t.hpp:314-321 | The target gets exactly the entries of this table on top of its own, each key recovered from position and quotient; room is asked for the union, and for one more if the tables share a key, and the target grows no further than that demands |
| `SparseHashMap.HashMap.LookupId` | include/tudocomp/util/compact_hash/map/hashmap_t.hpp:298-303 | The id of a key leads to the entry of that key, for every key and id of every table |
| `SparseHashMap.HashMap.IdsUnique` | include/tudocomp/util/compact_hash/entry_t.hpp:17-22 | Keys and ids belong together one to one, in tables of every capacity and width |
| `SparseHashMap.HashMap.SomeIdOf` | include/tudocomp/util/compact_hash/entry_t.hpp:17-22 | Every key has an id |
| `SparseHashSet.HashSet.constructor` | include/tudocomp/util/compact_hash/set/hashset_t.hpp:64-73 | An empty set with the given number of positions, or two if fewer were asked for |
| `SparseHashSet.HashSet.LookupInsert` | include/tudocomp/util/compact_hash/set/hashset_t.hpp:152-157 | Adds the key to the mathematical set, and tells whether it was there; without a rehash nothing is reported and all ids stay, with a rehash every key is reported once |
| `SparseHashSet.HashSet.GrowKeyWidth` | include/tudocomp/util/compact_hash/set/hashset_t.hpp:164-169 | Changes the key width and keeps the keys, with the same promise about reports and ids |
| `SparseHashSet.HashSet.Lookup` | include/tudocomp/util/compact_hash/set/hashset_t.hpp:175-179 | Found if and only if the key is in the set, with its id |
| `SparseHashSet.HashSet.LookupId` | include/tudocomp/util/compact_hash/set/hashset_t.hpp:185-190 | The id of a key leads to the slot that stores its quotient, with the pointer of that slot |
| `SparseHashSet.HashSet.MaxLoadFactor` | include/tudocomp/util/compact_hash/set/hashset_t.hpp:108-110 | Changes the load factor and keeps the keys |
| `SparseHashSet.HashSet.GrowAndInsert` | include/tudocomp/util/compact_hash/set/hashset_t.hpp:375-390 | Grows as needed, then finds or adds the key |
| `SparseHashSet.HashSet.GrowIfNeeded` | include/tudocomp/util/compact_hash/set/hashset_t.hpp:395-433 | Afterwards no reallocation is needed; the keys are the same, the capacity is the least doubling that is not too full, and the report names every key exactly once with ids that differ and resolve |
| `SparseHashSet.HashSet.Rehashed` | include/tudocomp/util/compact_hash/set/hashset_t.hpp:409-428 | The new table takes all keys without reallocating itself |
| `SparseHashSet.HashSet.MoveInto` | include/tudocomp/util/compact_hash/set/hashset_t.hpp:210-221 | The target gets all keys and grows no further than they demand; the ids reported differ, and hold at the end if the target need not grow |
| `SparseHashSet.HashSet.IdsUnique` | include/tudocomp/util/compact_hash/entry_t.hpp:17-22 | Keys and ids belong together one to one |
| `SparseHashSet.HashSet.SomeIdOf` | include/tudocomp/util/compact_hash/entry_t.hpp:17-22 | Every key has an id |

## Left out

- `plain_sentinel_t` storage: it takes a stored value equal to its sentinel for an empty slot.
- Serialization, `heap_size`, printing and debug functions.
- The bit-packed layout of entries and pointers: quotients and values are stored as numbers and values, so the truncation of values of a dynamic width to that width is not modelled; quotients are proved to fit.
- The bit layout of the external integer coder, which is not part of this model: the code used is the usual Elias gamma code, written and read bit by bit.
- Floating point: the load factor is a real number and the product with the capacity is rounded down exactly; the bucket size computed from a logarithm is any function of the table size with positive values.
- Words are natural numbers, with wrap-around, masks and shifts written out; `mod_add` and `mod_sub` are proved equal to their masked forms, and the modulus in them is not repeated in every caller.
- Constructors, destructors and moves of C++ objects, alignment, and the validity of pointers after a change of the table.
- The callback of `drain_all` is called in the middle of the walk; the model hands out the complete list of deliveries, and the caller goes through it afterwards.  What the callback sees of a table that is half freed is not modelled.
- A table that was moved into another one is not usable any more, since freed positions keep their `v` bits and displacements; nothing is promised about it.
- MoveInto: of the set promises the ids it reports, at the end of the move, for a target that need not grow; a rehash of the target voids ids reported before, as the documentation of ids says.
- A reference or pointer that is kept beyond the next call: runs write through the reference of an access right away (`MapRuns.MapOp.Assign`), since later calls may move the entry.
- PrimeRowShape: excludes small factors of the multipliers, but does not prove that those above 1 are primes; nothing rests on that.
- The special member functions, `swap`, `find`, `count` and the other names for the same operations.
