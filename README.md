# Markovian: linear-probing table and k-order Markov model

This project models the core of the `markovian` speaker-identification package in Dafny:

- **`LPHashtable`**: an open-addressed map from strings to integers.
  - It keeps one list of slots. Each slot is empty or holds a (key, value) pair.
  - It hashes a key with a Horner fold `h := (37 * h + ord(ch)) mod capacity`.
  - `__setitem__` probes linearly for at most `capacity` slots. It stops at the first slot that is empty or holds the key.
  - `__getitem__` probes the whole table and passes over empty slots. It returns a default value when the key is missing.
  - Once the table is half full, it rehashes in place. It appends `capacity` empty slots to the same list and doubles the capacity. It then walks the list by index: every occupied slot it meets is cleared and its pair is set again.
- **`Markov`**: a k-order character model.
  - Its constructor cuts a k-window and a (k+1)-window from every start index of the training text. It wraps past the end by slicing, as the code does.
  - It counts all 2n windows into one `LPHashtable` with 57 slots and default 0. It records `S`, the number of distinct symbols.
  - `log_probability(s)` looks up the same windows of `s`. It adds `ln((M + 1) / (N + S))` per position.

## Layout

The modules follow the two source files.

- `probing.dfy` (`Probing`): the slot list as a value.
  - The hash.
  - The probe orders of set and get as pure functions (`FindSlot`, `FindKey`).
  - `Put` (the probe loop of `__setitem__`) and `Lookup` (`__getitem__`).
  - The pair count `Occupied` and the set of stored pairs `Entries`.
  - `Keyed`: keys are distinct and every pair is reachable from its hash without crossing an empty slot.
- `growth.dfy` (`Growth`): the in-place rehash as a pure walk (`RehashFrom`, `RehashSpec`) and `SetSpec`, which is set followed by the rehash it may trigger. This module also holds the theorem that the walk leaves every pair reachable (`RehashCorrect`). Its loop invariant is `RehashInv`.
- `lp_hashtable.dfy` (`LPHashtables`): the class `LPHashtable`.
  - Fields: `capacity`, `items`, `default` and `size`.
  - Methods for `__init__`, `_hash`, `__setitem__`, `__getitem__`, `__len__` and `rehash`, each with the source's loops.
  - Each method is proved against the pure definitions above.
- `windows.dfy` (`NGrams`): the windows as sliced and the ideal circular windows, the training counts, the symbol count, and the smoothed score.
- `markov.dfy` (`Models`): the class `Markov`, its construction loops and `log_probability`.
- `modular.dfy` (`Modular`): remainder facts shared by both. The pure definitions of the hash and the window write `mod` as `Reduce`, which is repeated subtraction. `Modular.ReduceIsMod` proves that it equals `%`. `Probing.HashSnoc` restates the hash with `%`. `LPHashtable`'s methods use `%` as the source does. The Markov methods cut their windows with `NGrams.Window`, and `NGrams.WindowIsCircularPrefix` restates that function with `%`.

## Model

| member | source | states |
|---|---|---|
| Probing.HashFrom | markovian/collections/lp_hashtable.py:53-55 | The accumulator loop of the hash from a given start: each character replaces the accumulator by (37 * acc + its code point) mod n. The result lies in [0, n). |
| Probing.Hash | markovian/collections/lp_hashtable.py:51-56 | The hash of a key is that fold started from 0, and lies in [0, capacity). |
| Probing.FindSlotFrom | markovian/collections/lp_hashtable.py:68-79 | The probe of __setitem__ from offset d: the first slot at offsets d, d + 1, ... up to capacity - 1 from the hash, wrapping, that is empty or holds the key. Any slot it returns is such a slot. |
| Probing.FindSlot | markovian/collections/lp_hashtable.py:67-79 | Where the probe of __setitem__ stops, searched from offset 0: the first empty-or-matching slot within capacity probes, or none. |
| Probing.Put | markovian/collections/lp_hashtable.py:66-79 | The slot list after the probe loop of __setitem__, before any rehash. The pair is written at the stopping slot, or the list is unchanged when the probe never stops. The length is unchanged. |
| Probing.Inserts | markovian/collections/lp_hashtable.py:69-71 | The probe stops at an empty slot: the branch that grows size and may rehash. |
| Probing.FindKeyFrom | markovian/collections/lp_hashtable.py:90-96 | The probe of __getitem__ from offset d: the first slot at offsets d, d + 1, ... from the hash, wrapping, that holds the key, passing over empty slots. Any slot it returns holds the key. |
| Probing.FindKey | markovian/collections/lp_hashtable.py:88-96 | The probe of __getitem__ from the hash over all capacity slots. |
| Probing.Lookup | markovian/collections/lp_hashtable.py:88-96 | What __getitem__ returns: the value of the slot the probe finds, else the default. |
| Probing.Occupied | markovian/collections/lp_hashtable.py:98-104 | The number of occupied slots, which the size field tracks; it is at most the list length. |
| Probing.HashSnoc | markovian/collections/lp_hashtable.py:51-56 | The hash of the empty key is 0; appending a character gives (37 * h + its code point) mod capacity. |
| Probing.FindSlotSpec | markovian/collections/lp_hashtable.py:66-79 | The probe of __setitem__ stops at a slot that is empty or holds the key. Every slot before it in probe order from the hash holds another key. It never stops only when every slot holds another key. |
| Probing.FindKeySpec | markovian/collections/lp_hashtable.py:88-96 | The probe of __getitem__ finds the first slot in probe order from the hash that holds the key, passing over empty slots; it finds nothing only when no slot holds the key. |
| Probing.FindKeyUnique | markovian/collections/lp_hashtable.py:88-96 | A slot holding the key with no such slot before it in probe order is the one the lookup finds. |
| Probing.LookupSpec | markovian/collections/lp_hashtable.py:88-96 | The lookup's probe finds nothing exactly when no slot holds the key, and the lookup then returns the default. Otherwise the pair it reads is stored. With distinct keys, it returns the value in the slot that holds the key. |
| Probing.LookupEntries | markovian/collections/lp_hashtable.py:88-96 | With distinct keys, a lookup returns v when (key, v) is stored and the default when no pair has the key. |
| Probing.LookupByEntries | markovian/collections/lp_hashtable.py:88-96 | Two lists with distinct keys that store the same pairs answer every lookup alike, whatever their layout. |
| Probing.PutSpec | markovian/collections/lp_hashtable.py:66-79 | A list with an empty slot always has a stopping slot. The pair is written there and every other slot is untouched. The size grows by exactly 1 when that slot was empty. When the slot held the key, only its value changes and the size stays the same. |
| Probing.LookupAfterPut | markovian/collections/lp_hashtable.py:66-96 | After a set whose probe stopped, a lookup of the key returns the value just set. |
| Probing.LookupOtherAfterPut | markovian/collections/lp_hashtable.py:66-96 | A set leaves the lookup of every other key unchanged. |
| Probing.PutUpdates | markovian/collections/lp_hashtable.py:66-96 | On a list that is not full, a set is a map update: the key answers the new value and every other key answers as before. |
| Probing.PutKeyed | markovian/collections/lp_hashtable.py:66-79 | A set keeps keys distinct and every pair reachable from its hash. |
| Probing.PutEntries | markovian/collections/lp_hashtable.py:66-79 | A set adds at most the new pair. On a kept list whose probe stops, the stored pairs become the old pairs under other keys plus the new pair. |
| Probing.OccupiedEntries | markovian/collections/lp_hashtable.py:98-104 | With distinct keys, the number of occupied slots is the number of stored pairs. |
| Probing.OccupiedUpdate | markovian/collections/lp_hashtable.py:70-71 | Writing one slot changes the pair count by exactly the change in that slot's occupancy. |
| Probing.WrapMod | markovian/collections/lp_hashtable.py:78-79 | Probe step d from h lands on slot (h + d) mod capacity. |
| Growth.TooFull | markovian/collections/lp_hashtable.py:72 | The load test size / capacity >= 0.5, written in integers as 2 * size >= capacity. |
| Growth.TooFullIsLoadTest | markovian/collections/lp_hashtable.py:72 | For a positive capacity, the integer test holds exactly when the ratio size / capacity is at least 0.5. |
| Growth.Extend | markovian/collections/lp_hashtable.py:111-112 | The list after rehash appends capacity empty slots: twice as long, with the old slots as its first half. |
| Growth.ReinsertAt | markovian/collections/lp_hashtable.py:115-118 | One turn of the rehash loop at index i. An empty slot is left alone. An occupied one is cleared and its pair set again by the probe loop. The length is unchanged. |
| Growth.RehashFrom | markovian/collections/lp_hashtable.py:114-118 | The rehash loop from index i to the end, reading the live slot at each index. The length is unchanged. |
| Growth.RehashSpec | markovian/collections/lp_hashtable.py:106-118 | rehash: extend, then run the loop from index 0; the result is twice as long. |
| Growth.SetSpec | markovian/collections/lp_hashtable.py:58-79 | __setitem__: the probe loop's put, then a rehash when the put filled an empty slot and the table is at least half full. The result keeps or doubles the length. |
| Growth.ExtendCount | markovian/collections/lp_hashtable.py:111-113 | The appended slots are empty and the pair count is unchanged. |
| Growth.ExtendKeeps | markovian/collections/lp_hashtable.py:111-113 | Extending keeps the stored pairs and their distinct keys. |
| Growth.ReinsertLands | markovian/collections/lp_hashtable.py:114-118 | With distinct keys, re-setting the pair of a cleared slot finds an empty slot for it and writes it there. |
| Growth.ReinsertKeeps | markovian/collections/lp_hashtable.py:114-118 | One turn of the rehash walk keeps the stored pairs, their number and their distinct keys. |
| Growth.RehashBase | markovian/collections/lp_hashtable.py:111-113 | After extension, the walk's invariant holds at index 0. |
| Growth.RehashStep | markovian/collections/lp_hashtable.py:114-118 | One turn of the walk, reading the live slot i, keeps the invariant, including when a pair moves to a slot the walk has not reached yet. |
| Growth.RehashFromInv | markovian/collections/lp_hashtable.py:114-118 | The walk from any index where the invariant holds leaves a kept list: distinct keys, each reachable from its hash. |
| Growth.RehashCorrect | markovian/collections/lp_hashtable.py:106-118 | Rehash of a list with distinct keys and fewer pairs than slots doubles it, keeps exactly its pairs and their number, leaves every pair reachable, and answers every lookup as before. |
| Growth.SetSpecUpdates | markovian/collections/lp_hashtable.py:58-79 | On a kept, less than half full table, set (with its rehash) is a map update. The table stays kept and less than half full. It doubles exactly when the insertion made it half full. |
| Growth.SetSpecEntries | markovian/collections/lp_hashtable.py:58-79 | On a kept table that is less than half full, set stores exactly the new pair plus the old pairs under other keys. |
| LPHashtables.WrapNext | markovian/collections/lp_hashtable.py:78-79 | Advancing the index by one mod capacity is the next probe step, and it returns to the start exactly after capacity steps. |
| LPHashtables.LPHashtable.constructor | markovian/collections/lp_hashtable.py:39-42 | A new table has capacity slots, all empty, size 0 and the given default. It is kept, and every key looks up the default. |
| LPHashtables.LPHashtable.HashKey | markovian/collections/lp_hashtable.py:51-56 | The hash loop computes the Horner fold, which lies in [0, capacity). |
| LPHashtables.LPHashtable.Get | markovian/collections/lp_hashtable.py:88-96 | The while loop returns the lookup: the value of the first slot in probe order holding the key, or the default after a full wrap. |
| LPHashtables.LPHashtable.Len | markovian/collections/lp_hashtable.py:98-104 | len returns the number of occupied slots, which is below half the capacity. |
| LPHashtables.LPHashtable.Set | markovian/collections/lp_hashtable.py:58-79 | The probe loop with its insert, overwrite and rehash leaves the slot list SetSpec describes and the table less than half full. If the table was kept before the call, it stays kept and set is a map update: get of the key returns the new value and every other key answers as before, across a rehash too. |
| LPHashtables.LPHashtable.Rehash | markovian/collections/lp_hashtable.py:106-118 | Rehash doubles the capacity and leaves the list RehashSpec describes. Its size is the pair count and never grows. |
| LPHashtables.LPHashtable.Reinsert | markovian/collections/lp_hashtable.py:114-118 | One loop turn clears an occupied slot, decrements size and sets the pair again without a nested rehash, as ReinsertAt describes. |
| Modular.Reduce | markovian/collections/lp_hashtable.py:55 | The remainder a mod n as repeated subtraction, used for the hash step and the window slice; it lies in [0, n). |
| Modular.ReduceIsMod | markovian/models/markov.py:40 | Repeated subtraction equals Euclidean `%`, the remainder that the wrap-around slice and the hash step take. |
| NGrams.Window | markovian/models/markov.py:37-44 | The window of length len at start i, sliced as the code does: text[i:i+len] when it fits, else text[i:] + text[:(i+len) mod n]. |
| NGrams.Windows | markovian/models/markov.py:36-44 | The windows of one length, one per start index, so exactly len(text) of them. |
| NGrams.TrainingWindows | markovian/models/markov.py:36-47 | What the constructor counts: the k-windows followed by the (k+1)-windows, 2 * len(text) strings. |
| NGrams.CharSet | markovian/models/markov.py:31 | The set of distinct characters of the text, whose size is S. |
| NGrams.WindowIsCircularPrefix | markovian/models/markov.py:37-44 | The sliced window is a prefix of the circular window: its length is len when it fits, else n - i + (i + len) mod n. It is the whole circular window exactly when i + len < 2n. |
| NGrams.CharSetSize | markovian/models/markov.py:31 | S is at most the text's length and is 0 exactly for the empty text. |
| NGrams.Occurrences | markovian/models/markov.py:49-53 | How many entries of a window list equal a string; at most the list length. |
| NGrams.Count | markovian/models/markov.py:49-53 | How many of the 2n training windows equal a string. |
| NGrams.OccurrencesMultiplicity | markovian/models/markov.py:49-53 | The occurrence count is the multiplicity in the window multiset; it is positive exactly for windows present. |
| NGrams.CountSpec | markovian/models/markov.py:36-53 | A string's training count is positive exactly when it is one of the 2n windows. An empty text counts nothing. |
| NGrams.Ratio | markovian/models/markov.py:82 | The smoothed ratio (M + 1) / (N + S) is strictly positive where defined. |
| NGrams.ScoreUpTo | markovian/models/markov.py:66-83 | log_probability over the first positions of s: each adds ln((M + 1) / (N + S)) for the counts of its k-window and (k+1)-window, and a zero denominator stops the sum with a division by zero. |
| NGrams.Counts | markovian/models/markov.py:46-53 | The lookup a trained table answers: every string maps to its training count. |
| NGrams.Score | markovian/models/markov.py:56-83 | log_probability of s under the model trained on text with order k. |
| NGrams.ZeroDivisionSticks | markovian/models/markov.py:82 | Once a division by zero has occurred, the score stays a division by zero. |
| NGrams.ScoreUpToAgree | markovian/models/markov.py:80-82 | Tables that answer every lookup alike produce the same score. |
| NGrams.ScoreOfCounts | markovian/models/markov.py:80-82 | A table answering the training counts scores as the model trained on the text. |
| NGrams.ScoreUpToDefined | markovian/models/markov.py:69-82 | With S >= 1 the sum is defined. With S = 0 and all counts 0 it fails at the first position. Zero positions sum to 0. |
| NGrams.ScoreDefined | markovian/models/markov.py:56-83 | log_probability is defined exactly when the training text is non-empty or s is empty. An empty s scores 0. |
| NGrams.TermsPositive | markovian/models/markov.py:80-82 | With a non-empty training text every denominator N + S is at least 1 and every ratio is positive. |
| Models.NothingTallied | markovian/models/markov.py:46 | The fresh table with default 0 has counted no windows. |
| Models.CountOne | markovian/models/markov.py:50-53 | Setting a window to its lookup plus one counts one more occurrence of it, keeps the table kept and less than half full, and keeps every stored count positive. |
| Models.PositiveAfterSet | markovian/models/markov.py:50-53 | Setting a positive count keeps every stored count at least 1. |
| Models.StoredCounts | markovian/models/markov.py:46-53 | After counting, every lookup is the training count. The table holds exactly one pair per distinct window, paired with its count, and stays empty for an empty text. |
| Models.CountWindow | markovian/models/markov.py:50-53 | The get-then-set turn counts the window once more, with 0 read as absent; the table stays valid and never shrinks. |
| Models.CutWindows | markovian/models/markov.py:33-47 | The slicing loop and the extend produce exactly the k-windows followed by the (k+1)-windows of every start index. |
| Models.CountWindows | markovian/models/markov.py:46-53 | Counting into a fresh table of 57 slots with default 0 leaves every lookup equal to the number of occurrences among the windows. |
| Models.Markov.constructor | markovian/models/markov.py:23-53 | S is the number of distinct symbols, and the table answers every string with its training count. The table holds exactly the windows paired with their positive counts, is empty for an empty text and has at least 57 slots. |
| Models.Markov.PositionCounts | markovian/models/markov.py:70-81 | The two lookups of a position return the training counts of its k-window and (k+1)-window. |
| Models.Markov.LogProbability | markovian/models/markov.py:56-83 | The accumulator loop returns the score of s under the model trained on the text, or a division by zero at the first zero denominator. |

## Left out

- `math.log` and floating point: the logarithm is a parameter `ln: real -> real`, and the sum is exact over `real`. Rounding is not modelled.
- Python's `ZeroDivisionError` is modelled as the `ZeroDivision` case of the `Outcome` result, not as an exception.
- `markovian/app.py` (reading files, printing, and the comparison of two scores in `identify_speaker`) is not part of this model. It is I/O and glue.
- `markovian/collections/hashtaple.py`, the `MutableMapping` base with `__delitem__` and `__iter__`, is not part of this model. Its methods only raise, and deletion and iteration are never used.
- LPHashtables.LPHashtable.constructor: requires capacity >= 2. Capacity 0 divides by zero in `_hash`. With capacity 1 the first insertion rehashes, and a set inside that rehash rehashes again.
- LPHashtables.LPHashtable.Set: the map-update promise holds when the table was kept before the call, meaning distinct keys, each reachable from its hash. The class invariant `Valid` does not include that condition. rehash calls `__setitem__` on a list it is part way through walking, and there a cleared slot can lie on another key's probe path. The constructor establishes a kept table, and `Set` keeps it kept.
- Growth.RehashCorrect: proved for lists with distinct keys and fewer pairs than slots, which is the only way `__setitem__` calls rehash in a kept table.
- The load test `size / capacity >= 0.5` is written in integers as `2 * size >= capacity`. `Growth.TooFullIsLoadTest` proves that it is the same test over exact reals. Floating-point division is not modelled.
- The helper methods `LPHashtable.Reinsert`, `Models.CutWindows`, `Models.CountWindows`, `Models.CountWindow` and `Markov.PositionCounts` split out loops and loop bodies that the source writes inline in `rehash`, `__init__` and `log_probability`. The loops and their order of operations are the source's.
- The ghost fields `Markov.text` and `Markov.counts` exist only to state what the table holds. The Python object has no such fields.
- The rehash grows the same list in place and can move a pair twice: a pair set again at an index the walk has not reached is cleared and set once more when the walk gets there. The model follows this walk; it does not model rehash as building a fresh list.
- A window whose start i and length satisfy i + length >= 2 * len(text) is shorter than k (or k + 1). The model keeps the code's slicing, and `NGrams.WindowIsCircularPrefix` states how it relates to the true circular window.
- k = 0 is accepted, as the code accepts it. A negative k is outside the model, because k is a natural number.
