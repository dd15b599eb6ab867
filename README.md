# map_with_indifferent_access, modelled in Dafny

This project models the Ruby library `map_with_indifferent_access`:

- `MapWithIndifferentAccess::Map` wraps a host `Hash`. String and Symbol keys are treated indifferently: `map["a"]` and `map[:a]` reach the same entry.
- `MapWithIndifferentAccess::List` wraps a host `Array`.
- `Values.externalize` / `Values.internalize` move values between the raw and the wrapped form at the boundary.
- The deep key normalizers are `DeepNormalizer`, with the symbolization and stringification strategies.
- The older deep key coercers are `KeyCoercion::DeepCoercer` and `KeyCoercion#deeply_symbolize`.
- The early `MapWithIndifferentAccess` class stores under the exact key and falls back to the other String/Symbol form on reads.

Modules:

- `Keys` — the keys: String, Symbol and Integer. `Alternate` gives a key's other String/Symbol form; `ToS` is `to_s`.
- `OrderedHash` and `NativeArray` — the host `Hash` and `Array` behaviour the wrappers rely on.
  - `OrderedHash`: an insertion-ordered sequence of pairs with distinct keys. Storing replaces in place or appends. It also holds delete, filter and building from pairs.
  - `NativeArray`: reading, slicing, splicing, storing, inserting, fetching and deleting. This includes negative indices, nil padding past the end, and `nil` answers for out-of-range spans.
  - These two modules are helpers. Their contracts are what the wrapper proofs build on.
- `Values` — host objects and conversions.
  - Mutable host objects are the classes `HashBox` and `ArrayBox`.
  - A Ruby value is the datatype `Val`. Its wrapper variants `MapView` / `ListView` point to the wrapped box.
  - Duck-typed objects answering `to_hash` / `to_ary` are the variants `HashLike` / `ArrayLike`.
- `Conformance` — `conform_key` and `key?`.
- `IndifferentMap` — every Map operation in the core. A method that changes the inner Hash `modifies` its `HashBox`.
- `IndifferentList` — every List operation in the core, over `ArrayBox`.
- `Equality` — the deep `==` of Map and List.
- `Trees`, `KeyStrategy`, `DeepNormalizer`, `Normalization`, `DeepCoercer`, `KeyCoercion` — the deep normalizers and coercers.
  - They work over an immutable `Tree` of scalars, Hash-like nodes and Array-like nodes.
  - Each source method that loops is a Dafny method with a loop. It is proved equal to a specification function, and the properties are lemmas about that function.
- `EarlyMap` — the early class, as a Dafny class over its own entries.

Modelling choices:

- Ruby blocks are pure function parameters.
- Host `nil` is `Val.Nil`.
- Exceptions the code raises or lets through are `Failure(ArgumentError | KeyError | IndexError | RangeError | TypeError | NoMethodError)`.

## Model

| member | source | states |
|---|---|---|
| Keys.Alternate | lib/map_with_indifferent_access/map.rb:107-118 | A String or Symbol has exactly one other form, a different key with the same text; an Integer has none |
| Keys.AlternateInvolution | lib/map_with_indifferent_access/map.rb:107-118 | The other form of the other form is the key itself |
| Keys.ToS | lib/map_with_indifferent_access/normalization.rb:46-48 | `to_s` is a String's or Symbol's text, and a non-empty decimal text for an Integer |
| Keys.DigitsStep | lib/map_with_indifferent_access/normalization.rb:46-48 | A number below ten is written as one digit; any larger number is its leading digits followed by its last digit |
| Keys.DigitsInjective | lib/map_with_indifferent_access/normalization.rb:46-48 | Different non-negative numbers have different digit texts |
| Keys.DecimalInjective | lib/map_with_indifferent_access/normalization.rb:46-48 | Integer#to_s is one-to-one: different Integers have different texts |
| Values.MapTryConvert | lib/map_with_indifferent_access/map.rb:14-21 | Converts exactly Hashes, Maps and `to_hash` objects; the result is a Map; a Map converts to itself |
| Values.MapTryDeconstruct | lib/map_with_indifferent_access/map.rb:30-39 | Deconstructs exactly what try_convert converts, and gives the Hash the converted Map wraps |
| Values.ListTryConvert | lib/map_with_indifferent_access/list.rb:15-22 | Converts exactly Arrays, Lists and `to_ary` objects; the result is a List; a List converts to itself |
| Values.ListTryDeconstruct | lib/map_with_indifferent_access/list.rb:24-33 | Deconstructs exactly what try_convert converts, and gives the Array the converted List wraps |
| Values.Externalize | lib/map_with_indifferent_access/values.rb:8-14 | The result is a Map, a List or a plain value; Hash-like values become the Map over their Hash, Array-like ones the List over their Array, and everything else is itself |
| Values.Internalize | lib/map_with_indifferent_access/values.rb:18-24 | The result is a raw Hash, a raw Array or a plain value; a wrapper gives its inner collection, and raw and plain values are themselves |
| Values.ConversionsIdempotent | lib/map_with_indifferent_access/values.rb:8-24 | Externalizing twice is externalizing once; the same holds for internalizing |
| Values.ConversionsRoundTrip | lib/map_with_indifferent_access/values.rb:8-24 | Externalize and internalize undo each other: raw values survive a round trip through the wrapped form, and wrapped ones through the raw form |
| Conformance.ConformKey | lib/map_with_indifferent_access/map.rb:107-118 | A held key conforms to itself; an absent String/Symbol whose other form is held conforms to that form; otherwise the key is kept as given |
| Conformance.KeyPresent | lib/map_with_indifferent_access/map.rb:183-192 | `key?` holds exactly when the conformed key is a key of the inner Hash |
| Conformance.ConformIdempotent | lib/map_with_indifferent_access/map.rb:107-118 | Conforming an already conformed key changes nothing |
| Conformance.ConformIndifferent | lib/map_with_indifferent_access/map.rb:107-118 | When exactly one form is held, both forms of a String/Symbol key conform to the same stored key |
| IndifferentMap.Construct | lib/map_with_indifferent_access/map.rb:86-92 | Succeeds exactly on a Hash-like basis, and then wraps the Hash the basis converts to; anything else is an ArgumentError |
| IndifferentMap.NewEmpty | lib/map_with_indifferent_access/map.rb:86-92 | Map.new with no basis wraps a new, empty Hash |
| IndifferentMap.Dup | lib/map_with_indifferent_access/map.rb:678-681 | A dup wraps a new Hash holding the same entries |
| IndifferentMap.Lookup | lib/map_with_indifferent_access/map.rb:154-158 | `[]` gives the externalized value of the conformed entry, or nil when no entry conforms; the answer is always externalized |
| IndifferentMap.Fetch | lib/map_with_indifferent_access/map.rb:160-177 | More than one default is an ArgumentError; a present key gives its value; otherwise the block's externalized answer wins over the default; with neither it is a KeyError, and it fails in no other case |
| IndifferentMap.EachPair | lib/map_with_indifferent_access/map.rb:258-266 | Yields every entry in order, with the same keys and each value externalized |
| IndifferentMap.Assoc | lib/map_with_indifferent_access/map.rb:503-511 | Answers exactly when the key is present: the stored key, which names the same entry indifferently, with `[]`'s value |
| IndifferentMap.HasValuePlain | lib/map_with_indifferent_access/map.rb:519-522 | For nil or an atom, has_value? (stored value as receiver of `==`) holds exactly when that very value is stored, and agrees with rassoc's scan (argument as receiver) |
| IndifferentMap.PlainEqualsOnlyItself | lib/map_with_indifferent_access/map.rb:519-539 | Nil or an atom is `==` to a value only when it is that value, whichever side of `==` it is on |
| IndifferentMap.StoredHasValue | lib/map_with_indifferent_access/map.rb:135-140 | After `m[k] = v` with a plain v, `has_value?(v)` holds |
| IndifferentMap.FirstMatch | lib/map_with_indifferent_access/map.rb:534-539 | None exactly when the argument is `==` to no externalized value; otherwise the first position whose value it is `==` to |
| IndifferentMap.FirstMatchIsFirst | lib/map_with_indifferent_access/map.rb:534-546 | A matching position with no match before it is the one FirstMatch finds |
| IndifferentMap.Rassoc | lib/map_with_indifferent_access/map.rb:534-546 | The scan gives the key and externalized value of the first entry whose value equals the argument, or nil when none does |
| IndifferentMap.KeyOf | lib/map_with_indifferent_access/map.rb:205-208 | Answers a key exactly when some value equals the argument, and that key is the first matching entry's key |
| IndifferentMap.Equals | lib/map_with_indifferent_access/map.rb:229-242 | The entry-by-entry loop answers exactly the deep Map equality MapEq |
| IndifferentMap.Stored | lib/map_with_indifferent_access/map.rb:135-140 | After a store the conformed key holds the internalized value, and keys stay distinct |
| IndifferentMap.Store | lib/map_with_indifferent_access/map.rb:135-140 | The inner Hash becomes Stored, its keys stay distinct, and the given value itself is answered |
| IndifferentMap.StoreExisting | lib/map_with_indifferent_access/map.rb:107-140 | Storing through a present key keeps the size and the key order, and leaves every other key's value alone |
| IndifferentMap.StoreNew | lib/map_with_indifferent_access/map.rb:107-140 | Storing through an absent key appends exactly one entry under the key as given |
| IndifferentMap.StoreThenLookupEitherForm | lib/map_with_indifferent_access/map.rb:107-158 | After `m[k] = v`, both `m[k]` and the other form `m[k']` give the externalized v |
| IndifferentMap.Delete | lib/map_with_indifferent_access/map.rb:324-332 | Removes the conformed entry and answers its externalized value; for an absent key the Hash is unchanged, and the answer is the block's externalized answer or nil |
| IndifferentMap.Kept | lib/map_with_indifferent_access/map.rb:397-480 | Every kept entry passes the test; keys stay distinct; when every entry passes, all are kept |
| IndifferentMap.KeptExactly | lib/map_with_indifferent_access/map.rb:397-480 | Each kept entry is an entry, and each entry that passes is kept |
| IndifferentMap.DeleteIf | lib/map_with_indifferent_access/map.rb:397-406 | Removes exactly the entries whose key and externalized value make the block true, and answers the Map |
| IndifferentMap.KeepIf | lib/map_with_indifferent_access/map.rb:471-480 | Removes exactly the entries for which the block is false, and answers the Map |
| IndifferentMap.FilterTracking | lib/map_with_indifferent_access/map.rb:369-380 | The in-place pass leaves Kept, and reports "nothing removed" exactly when every entry passed |
| IndifferentMap.RejectBang | lib/map_with_indifferent_access/map.rb:369-380 | Same as delete_if, and answers nil exactly when no entry made the block true |
| IndifferentMap.SelectBang | lib/map_with_indifferent_access/map.rb:443-454 | Same as keep_if, and answers nil exactly when every entry made the block true |
| IndifferentMap.Reject | lib/map_with_indifferent_access/map.rb:349-355 | A new Map over the entries the block rejects; the receiver is unchanged |
| IndifferentMap.Select | lib/map_with_indifferent_access/map.rb:423-429 | A new Map over the entries the block selects; the receiver is unchanged |
| IndifferentMap.Replace | lib/map_with_indifferent_access/map.rb:488-492 | A Hash-like argument's entries replace the inner Hash's and keys stay distinct; anything else is a TypeError and nothing changes |
| IndifferentMap.Shift | lib/map_with_indifferent_access/map.rb:649-659 | Removes the first entry and gives its key and externalized value; an empty Map gives nothing and stays empty |
| IndifferentMap.ValuesOf | lib/map_with_indifferent_access/map.rb:305-307 | A new List holding the stored values in entry order |
| IndifferentMap.MergeSource | lib/map_with_indifferent_access/map.rb:623-633 | Merge takes its pairs from a Hash as stored, from a Map through its externalized each_pair, and from a hash-like object as it yields them; anything without each_pair is a NoMethodError |
| IndifferentMap.MergeStep | lib/map_with_indifferent_access/map.rb:623-633 | One incoming pair stored through conform_key keeps the keys distinct |
| IndifferentMap.MergeAll | lib/map_with_indifferent_access/map.rb:623-633 | Merging all incoming pairs in order keeps the keys distinct |
| IndifferentMap.MergeAllCons | lib/map_with_indifferent_access/map.rb:623-633 | Merging from position i on is merging pair i and then the rest |
| IndifferentMap.MergeBang | lib/map_with_indifferent_access/map.rb:623-633 | The loop leaves MergeAll of the incoming pairs and answers the Map, for a Hash, a Map or a hash-like argument; an argument without each_pair is a NoMethodError and nothing changes |
| IndifferentMap.Merge | lib/map_with_indifferent_access/map.rb:582-588 | merge! on a new Map over a copy, for the same arguments as merge!; the receiver is unchanged |
| IndifferentMap.MergeStepNewKey | lib/map_with_indifferent_access/map.rb:623-633 | An incoming key that conforms to nothing is appended as given, and the block is not consulted |
| IndifferentMap.MergeStepCollision | lib/map_with_indifferent_access/map.rb:623-633 | A colliding key keeps the receiver's key form and order and changes only that entry: without a block to the incoming value, with one to the block's answer |
| IndifferentMap.MergeKeepsReceiverKeys | lib/map_with_indifferent_access/map.rb:623-633 | The receiver's keys stay, in order, as a prefix of the merged keys |
| IndifferentMap.MergeCoversIncomingKeys | lib/map_with_indifferent_access/map.rb:623-633 | After merging, every incoming key is present in the form it was given |
| IndifferentMap.MergeCoversKey | lib/map_with_indifferent_access/map.rb:623-633 | The incoming key at any one position is present after the whole merge |
| IndifferentMap.MergeStepCovers | lib/map_with_indifferent_access/map.rb:623-633 | One merge step makes its own key present |
| IndifferentMap.MergeStepKeeps | lib/map_with_indifferent_access/map.rb:623-633 | One merge step keeps every present key present |
| IndifferentMap.MergeKeepsPresence | lib/map_with_indifferent_access/map.rb:623-633 | A key present before the merge is present after it |
| IndifferentMap.Inverted | lib/map_with_indifferent_access/map.rb:666-668 | Inversion is defined exactly when every value can be a key, and its keys are distinct |
| IndifferentMap.Invert | lib/map_with_indifferent_access/map.rb:666-668 | A new Map over the inverted Hash |
| IndifferentMap.InvertTwice | lib/map_with_indifferent_access/map.rb:666-668 | When the values are distinct atoms, inverting twice gives back the original entries |
| IndifferentMap.EqualsIndifferentFlip | lib/map_with_indifferent_access/map.rb:229-242 | A Map equals a Hash holding the same entries with every String/Symbol key in its other form |
| IndifferentMap.FlipMatches | lib/map_with_indifferent_access/map.rb:229-242 | Each entry of such a Map finds its partner in the flipped Hash |
| IndifferentMap.EqualsDetectsDifference | lib/map_with_indifferent_access/map.rb:229-242 | A plain value that differs under the conformed key makes the Map unequal to that Hash, and to the Map over it |
| IndifferentMap.ValEqMonotone | lib/map_with_indifferent_access/map.rb:229-242 | A deep comparison that succeeds at some depth also succeeds with more depth |
| IndifferentMap.MapEqMonotone | lib/map_with_indifferent_access/map.rb:229-242 | The same for Map equality |
| IndifferentMap.ListEqMonotone | lib/map_with_indifferent_access/list.rb:444-455 | The same for List equality |
| IndifferentList.Construct | lib/map_with_indifferent_access/list.rb:52-58 | Succeeds exactly on an Array-like basis, and then wraps the Array the basis converts to; anything else is an ArgumentError |
| IndifferentList.NewList | lib/map_with_indifferent_access/list.rb:52-58 | A new List over a new Array holding the items |
| IndifferentList.ItemAt | lib/map_with_indifferent_access/list.rb:174-177 | The externalized item at a position counted from the front, or from the end for a negative index; nil out of range |
| IndifferentList.Each | lib/map_with_indifferent_access/list.rb:469-474 | Yields every item externalized, in order |
| IndifferentList.SpanRead | lib/map_with_indifferent_access/list.rb:150-164 | A span read gives the host's slice, or no slice out of range; a non-integer length, or a range with a length, is a TypeError |
| IndifferentList.Slice | lib/map_with_indifferent_access/list.rb:150-164 | `[]` / `slice` is an ArgumentError for more than two arguments and the externalized item for one index; a span gives a new List of the externalized items, or nil out of range |
| IndifferentList.SliceAsWritten | lib/map_with_indifferent_access/list.rb:150-164 | The code as written: the same, except that an out-of-range span raises NoMethodError |
| IndifferentList.SliceAsWrittenRaisesPastEnd | lib/map_with_indifferent_access/list.rb:150-164 | On a three-item List, `list[4, 1]`, `list[-4, 1]`, `list[0, -1]` and `list[4..5]` reach the host's nil |
| IndifferentList.SliceFailsOnlyOnArguments | lib/map_with_indifferent_access/list.rb:150-164 | The corrected span read fails only with TypeError, and answers no slice exactly in the out-of-range cases |
| IndifferentList.Fetch | lib/map_with_indifferent_access/list.rb:280-288 | More than one default is an ArgumentError; an index in range gives its item; otherwise the block wins over the default; with neither it is an IndexError |
| IndifferentList.Equals | lib/map_with_indifferent_access/list.rb:444-455 | The item-by-item loop answers exactly the deep List equality ListEq |
| IndifferentList.Assigned | lib/map_with_indifferent_access/list.rb:85-109 | A wrong argument count is an ArgumentError; one index stores the internalized value; a range with a length, or a non-integer length, is a TypeError; the span replacement is the helper SpanItems, whose cases AssignSpanSplices and AssignSpanCollapses state |
| IndifferentList.Assign | lib/map_with_indifferent_access/list.rb:85-109 | The inner Array becomes Assigned, or is unchanged when there is an error |
| IndifferentList.AssignIndexStores | lib/map_with_indifferent_access/list.rb:85-109 | `list[i] = v` pads with nil past the end and stores the internalized v, which reads back externalized |
| IndifferentList.AssignSpanSplices | lib/map_with_indifferent_access/list.rb:85-109 | `list[s, n] = array_like` replaces exactly those n items with the internalized items, and the length changes by the difference |
| IndifferentList.AssignSpanCollapses | lib/map_with_indifferent_access/list.rb:85-109 | `list[s, n] = value` for a value that is not Array-like replaces the span with that one value |
| IndifferentList.SpliceWithin | lib/map_with_indifferent_access/list.rb:85-109 | A splice within bounds replaces exactly the span |
| IndifferentList.AssignRangeIsStartLength | lib/map_with_indifferent_access/list.rb:85-109 | Assigning to `a..b` within bounds is assigning to `a, b - a + 1` |
| IndifferentList.Append | lib/map_with_indifferent_access/list.rb:188-192 | `<<` appends the internalized value and answers the List |
| IndifferentList.Push | lib/map_with_indifferent_access/list.rb:206-210 | Appends the internalized values in argument order, and answers the List |
| IndifferentList.Unshift | lib/map_with_indifferent_access/list.rb:219-223 | Prepends the internalized values in argument order, and answers the List |
| IndifferentList.PushReadsBack | lib/map_with_indifferent_access/list.rb:206-210 | After a push the old items read as before, and the new ones read back externalized |
| IndifferentList.UnshiftReadsBack | lib/map_with_indifferent_access/list.rb:219-223 | After an unshift the new values read back at the front, and the old items follow, shifted by the count |
| IndifferentList.Insert | lib/map_with_indifferent_access/list.rb:237-241 | The host insert of the internalized values, answering the List; on the host's IndexError nothing changes |
| IndifferentList.CountArg | lib/map_with_indifferent_access/list.rb:314-361 | A count is a non-negative Integer; a negative one is an ArgumentError, and anything else a TypeError |
| IndifferentList.TakeFront | lib/map_with_indifferent_access/list.rb:314-325 | The first min(n, size) items and the rest, which together make the original |
| IndifferentList.TakeBack | lib/map_with_indifferent_access/list.rb:350-361 | The last min(n, size) items and the rest, which together make the original |
| IndifferentList.Shift | lib/map_with_indifferent_access/list.rb:314-325 | With no count, removes and gives the externalized first item, or nil when empty; with a count, a new List of the front items; bad arguments leave the List unchanged |
| IndifferentList.Pop | lib/map_with_indifferent_access/list.rb:350-361 | The mirror of Shift at the back |
| IndifferentList.DeleteAt | lib/map_with_indifferent_access/list.rb:371-374 | Removes the item at the (possibly negative) index and gives it externalized; out of range, nil and no change |
| IndifferentList.Survivors | lib/map_with_indifferent_access/list.rb:391-407 | The items delete keeps are never more than the items |
| IndifferentList.LastMatchNone | lib/map_with_indifferent_access/list.rb:391-407 | There is no last match exactly when no item matches |
| IndifferentList.LastMatchIsLast | lib/map_with_indifferent_access/list.rb:391-407 | The last match is the externalized form of a matching item, and no item after it matches |
| IndifferentList.SurvivorsFrom | lib/map_with_indifferent_access/list.rb:391-407 | Every survivor is an item, and none matches |
| IndifferentList.SurvivorsKeep | lib/map_with_indifferent_access/list.rb:391-407 | Every item that does not match survives |
| IndifferentList.SurvivorsAll | lib/map_with_indifferent_access/list.rb:391-407 | When nothing matches, every item survives in place |
| IndifferentList.ScanStep | lib/map_with_indifferent_access/list.rb:391-407 | One more scanned item survives unless it matches, and becomes the last match when it matches |
| IndifferentList.ScanForDelete | lib/map_with_indifferent_access/list.rb:391-407 | The loop over a snapshot gives the survivors and the last match |
| IndifferentList.Delete | lib/map_with_indifferent_access/list.rb:391-407 | Keeps exactly the survivors and answers the last match; with no match, the block's externalized answer or nil |
| EarlyMap.Lookup | lib/map_with_indifferent_access.rb:14-22 | A held key gives its value; an absent String/Symbol falls back to its other form; anything else is nil |
| EarlyMap.GetOrNil | lib/map_with_indifferent_access.rb:14-22 | The host Hash read: the value, or nil when absent |
| EarlyMap.MapWithIndifferentAccess.constructor | lib/map_with_indifferent_access.rb:6-8 | A new wrapper over an empty Hash |
| EarlyMap.MapWithIndifferentAccess.Store | lib/map_with_indifferent_access.rb:10-12 | Stores under exactly the key given, and answers the value |
| EarlyMap.StoreIsExact | lib/map_with_indifferent_access.rb:10-22 | A stored key reads back, and the entry of its other form is untouched |
| EarlyMap.ReadsBackIndifferently | lib/map_with_indifferent_access.rb:10-22 | A stored String reads back through its Symbol, and the reverse, while the other form is not itself stored |
| EarlyMap.BothFormsStored | lib/map_with_indifferent_access.rb:14-22 | When both forms are stored, each form reads its own entry |
| EarlyMap.AbsentReadsNil | lib/map_with_indifferent_access.rb:14-22 | An absent key with no stored other form reads nil |
| Normalization.SymbolizationKey | lib/map_with_indifferent_access/normalization.rb:42-48 | Symbolization coerces exactly the non-Symbols, turning each key into the Symbol of its text (3 becomes :"3"); the key a normalizer stores is the helper KeyStrategy.CoerceKey |
| Normalization.StringificationKey | lib/map_with_indifferent_access/normalization.rb:58-64 | Stringification coerces exactly the non-Strings, turning each key into its text |
| Normalization.StrategiesSettled | lib/map_with_indifferent_access/normalization.rb:42-64 | A key either strategy has coerced needs no further coercion |
| Normalization.DeeplySymbolizeKeys | lib/map_with_indifferent_access/normalization.rb:12-14 | The deep normalizer run with the symbolization strategy |
| Normalization.DeeplyStringifyKeys | lib/map_with_indifferent_access/normalization.rb:19-21 | The deep normalizer run with the stringification strategy |
| Normalization.SymbolizedKeysAreSymbols | lib/map_with_indifferent_access/normalization.rb:12-14 | After deeply_symbolize_keys every key at every depth is a Symbol |
| Normalization.StringifiedKeysAreStrings | lib/map_with_indifferent_access/normalization.rb:19-21 | After deeply_stringify_keys every key at every depth is a String |
| Normalization.StringifyKeepsOrder | lib/map_with_indifferent_access/normalization.rb:19-21 | On a Hash whose keys have distinct texts, entry i of the result is key i's text with value i normalized |
| Normalization.SymbolizeKeepsOrder | lib/map_with_indifferent_access/normalization.rb:12-14 | The same for symbolization, with the Symbol of each key's text |
| DeepNormalizer.Coerced | lib/map_with_indifferent_access/normalization/deep_normalizer.rb:48-97 | An unchanged result is the input itself; scalars are untouched; Hash-like nodes become raw Hashes and Array-like nodes raw Arrays of the same length; a wrapper or duck-typed node always counts as changed; the helpers AnyKeyNeedsCoercion, CoercedPairs, Revalued, HashKids and ArrayKids are its definition, and its properties are UnchangedIffNormal, ResultIsRaw, ResultKeysSettled, ResultWellFormed, Idempotent, HashEntriesInOrder, HashKeysCoerced and ArrayPositions |
| DeepNormalizer.Called | lib/map_with_indifferent_access/normalization/deep_normalizer.rb:37-44 | A Map or List input comes back re-wrapped over its normalized contents; any other input is the normalized result itself; the re-wrapping is the helper Wrap, and CalledKeysSettled states its property |
| DeepNormalizer.Call | lib/map_with_indifferent_access/normalization/deep_normalizer.rb:37-44 | The method computes Called |
| DeepNormalizer.RecursivelyCoerce | lib/map_with_indifferent_access/normalization/deep_normalizer.rb:48-64 | Dispatches on the kind of node and computes Coerced, including the changed flag |
| DeepNormalizer.CoerceHash | lib/map_with_indifferent_access/normalization/deep_normalizer.rb:66-85 | A fresh Hash of coerced pairs when some key needs coercion; otherwise copy-on-write of the changed values |
| DeepNormalizer.FillCoerced | lib/map_with_indifferent_access/normalization/deep_normalizer.rb:66-85 | The loop into the fresh Hash stores each coerced key with its normalized value, in entry order |
| DeepNormalizer.CopyOnWrite | lib/map_with_indifferent_access/normalization/deep_normalizer.rb:66-85 | The loop that writes only changed values leaves the revalued entries, and reports whether anything changed |
| DeepNormalizer.CoerceArray | lib/map_with_indifferent_access/normalization/deep_normalizer.rb:87-97 | Copy-on-write over the items: the normalized items, and whether any changed |
| DeepNormalizer.ResultPairsFrom | lib/map_with_indifferent_access/normalization/deep_normalizer.rb:66-85 | Every entry of a Hash's result is some coerced key with its normalized value; without coercion, entry m is key m with value m normalized |
| DeepNormalizer.UnchangedIffNormal | lib/map_with_indifferent_access/normalization/deep_normalizer.rb:20-36 | The very input comes back exactly when it is already normal: raw containers only, with no key needing coercion |
| DeepNormalizer.ResultIsRaw | lib/map_with_indifferent_access/normalization/deep_normalizer.rb:20-36 | Every Map, List and duck-typed container, at every depth, is replaced by a raw Hash or Array |
| DeepNormalizer.ResultKeysSettled | lib/map_with_indifferent_access/normalization/deep_normalizer.rb:20-36 | With a settled strategy, no key of the result at any depth needs coercion |
| DeepNormalizer.ResultWellFormed | lib/map_with_indifferent_access/normalization/deep_normalizer.rb:66-85 | Every Hash in the result has distinct keys |
| DeepNormalizer.Idempotent | lib/map_with_indifferent_access/normalization/deep_normalizer.rb:20-36 | With a settled strategy, normalizing the result again returns it unchanged |
| DeepNormalizer.HashEntriesInOrder | lib/map_with_indifferent_access/normalization/deep_normalizer.rb:66-85 | When coerced keys do not collide, entry i of the result is key i coerced with value i normalized |
| DeepNormalizer.HashKeysCoerced | lib/map_with_indifferent_access/normalization/deep_normalizer.rb:66-85 | The result's keys are exactly the coerced keys of the entries, whether or not two collide |
| DeepNormalizer.ArrayPositions | lib/map_with_indifferent_access/normalization/deep_normalizer.rb:87-97 | Same length; item i is normalized, and it is the very item when that did not change |
| DeepNormalizer.CalledKeysSettled | lib/map_with_indifferent_access/normalization/deep_normalizer.rb:37-44 | A settled strategy leaves no key anywhere in `call`'s result that needs coercion |
| DeepCoercer.Copied | lib/map_with_indifferent_access/key_coercion/deep_coercer.rb:13-29 | Scalars are themselves; a Map stays a Map and the array wrapper stays a wrapper; every other Hash-like or Array-like node becomes raw, and Arrays keep their length; the helpers CopiedPairs and CopiedItems are its definition, and its properties are HashEntriesInOrder, ArrayPositions and AgreesWithNormalizer |
| DeepCoercer.Call | lib/map_with_indifferent_access/key_coercion/deep_coercer.rb:13-29 | The dispatching method computes Copied |
| DeepCoercer.CoerceHash | lib/map_with_indifferent_access/key_coercion/deep_coercer.rb:33-40 | The loop stores the coerced pairs into a fresh Hash, in order |
| DeepCoercer.PairsStep | lib/map_with_indifferent_access/key_coercion/deep_coercer.rb:33-40 | Storing one more pair extends the Hash built so far by that coerced pair |
| DeepCoercer.CopiedPairsAppend | lib/map_with_indifferent_access/key_coercion/deep_coercer.rb:33-40 | Coercing the pairs of a longer Hash extends the coerced pairs by one |
| DeepCoercer.CoerceMwia | lib/map_with_indifferent_access/key_coercion/deep_coercer.rb:42-45 | A new Map over the coerced Hash |
| DeepCoercer.CoerceArray | lib/map_with_indifferent_access/key_coercion/deep_coercer.rb:47-51 | The loop over the copy replaces every item by its coerced form |
| DeepCoercer.CoerceMwiaArray | lib/map_with_indifferent_access/key_coercion/deep_coercer.rb:53-56 | A new wrapper over the coerced copy |
| DeepCoercer.HashEntriesInOrder | lib/map_with_indifferent_access/key_coercion/deep_coercer.rb:33-40 | When coerced keys do not collide, entry i of the result is key i coerced with value i coerced |
| DeepCoercer.ArrayPositions | lib/map_with_indifferent_access/key_coercion/deep_coercer.rb:47-51 | Same length, and item i is item i coerced |
| DeepCoercer.AgreesWithNormalizer | lib/map_with_indifferent_access/key_coercion/deep_coercer.rb:13-29 | On raw data the coercer builds the same tree as the copy-on-write normalizer |
| KeyCoercion.SymbolKey | lib/map_with_indifferent_access/key_coercion.rb:25-32 | The key becomes the Symbol of its text, and a Symbol stays itself |
| KeyCoercion.Symbolized | lib/map_with_indifferent_access/key_coercion.rb:7-23 | Scalars are themselves; a Map and the array wrapper keep their kind; other containers become raw; Arrays keep their length; the helpers SymbolizedPairs and SymbolizedItems are its definition, and its properties are SameAsDeepCoercer, AllKeysSymbols and KeepsOrder |
| KeyCoercion.DeeplySymbolize | lib/map_with_indifferent_access/key_coercion.rb:7-23 | The dispatching method computes Symbolized |
| KeyCoercion.DeeplySymbolizeHash | lib/map_with_indifferent_access/key_coercion.rb:25-32 | The loop stores the symbolized pairs into a fresh Hash, in order |
| KeyCoercion.PairsStep | lib/map_with_indifferent_access/key_coercion.rb:25-32 | Storing one more pair extends the Hash built so far by that symbolized pair |
| KeyCoercion.DeeplySymbolizeMwia | lib/map_with_indifferent_access/key_coercion.rb:34-37 | A new Map over the symbolized Hash |
| KeyCoercion.DeeplySymbolizeArray | lib/map_with_indifferent_access/key_coercion.rb:39-43 | The loop over the copy replaces every item by its symbolized form |
| KeyCoercion.DeeplySymbolizeMwiaArray | lib/map_with_indifferent_access/key_coercion.rb:45-48 | A new wrapper over the symbolized copy |
| KeyCoercion.SameAsDeepCoercer | lib/map_with_indifferent_access/key_coercion.rb:7-48 | deeply_symbolize is the deep coercer run with the symbolization strategy |
| KeyCoercion.AllKeysSymbols | lib/map_with_indifferent_access/key_coercion.rb:7-48 | After deeply_symbolize every key at every depth is a Symbol |
| KeyCoercion.KeepsOrder | lib/map_with_indifferent_access/key_coercion.rb:25-32 | When keys have distinct texts, entry i is the Symbol of key i's text with value i symbolized |

## Left out

- `wraps_collection.rb` (the shared wrapper mixin) and `array.rb` (an older wrapper) are not part of this model.
- Enumerators (a method called without a block) are not modelled. `each_key` and `each_value` are not modelled; they are projections of `each`.
- `default` and `default_proc` are not modelled. An absent key reads the host Hash's ordinary default, nil.
- `values_at`, `uniq`, `keys`, `eql?`/`hash` and `rehash` are not modelled.
- `fetch` writing a warning to `$stderr` for a block plus a default: that is output; the block still wins and is modelled.
- Floats, Ranges with Float ends, and Integer arguments converted with `to_int` are not modelled. Keys are Strings, Symbols and Integers; an index is an Integer or an Integer Range.
- Ruby blocks are modelled as pure functions. A block that mutates the receiver, raises, or breaks out of the loop is not modelled.
- Duck typing (`to_hash`, `to_ary`) is explicit variants of `Val`. A conversion method that answers something unexpected or raises is not modelled.
- IndifferentMap.MergeSource: an object that answers only `each_pair` is the `HashLike` variant, whose pairs are the entries of the Hash it stands for; an `each_pair` that yields something other than key/value pairs is not modelled.
- Object identity of wrappers is not modelled. `Externalize` and the wrapper constructors give a wrapper handle equal to any other over the same inner collection; the `equal?` distinctions the source's `dup`/`clone` make are left out.
- `initialize_clone` is not modelled; it copies frozen state, which the model does not have.
- The deep normalizers and coercers work on an immutable `Tree`.
  - "Returns the very same object when nothing changed" becomes the `changed` flag: an unchanged result is the input value itself.
  - "Never mutates its argument" holds by construction.
  - Sharing of sub-objects between input and output is not modelled.
- KeyStrategy's abstract `needs_coercion?` / `coerce`, which raise NotImplementedError, are not modelled. A strategy is a pair of functions.
- The key coercer walks a Map with `Map#each_pair`. The model takes it to yield the stored (raw) values, as the host Hash does.
- DeepNormalizer.CoerceHash: the source's single loop is two loop methods, `FillCoerced` and `CopyOnWrite`; the branch on "some key needs coercion" is fixed before the loop, so the behaviour is the same.
- DeepNormalizer.CopyOnWrite: it writes one entry in place by position, where the source stores by key; `OrderedHash.PutAt` proves that the two agree.
- KeyCoercion.DeeplySymbolizeHash: the guard `Symbol == k` compares the class Symbol with the key, so it never holds. Every key is converted; a Symbol converts to itself, so the outcome is the same.
- IndifferentMap.Equals: deep equality is bounded by a nesting-depth parameter, and a comparison that would go deeper answers false; `*Monotone` shows more depth never turns true into false. Cyclic structures are not modelled.
- IndifferentList.Equals: the same depth bound as IndifferentMap.Equals.
- IndifferentList.Survivors: its own contract states only the size bound; membership is stated by the lemmas SurvivorsFrom, SurvivorsKeep and SurvivorsAll.
- IndifferentMap.Invert: keys are atoms, so inversion is modelled only when every value is an atom. A Map whose values are collections is not inverted.
- Integer width is not modelled: Ruby Integers are unbounded, as Dafny's are.

## Findings

| source | as written | input that shows it | evidently intended | confidence | as-written member | corrected member |
|---|---|---|---|---|---|---|
| lib/map_with_indifferent_access/list.rb:150-164 | With a length or a Range, `[]` / `slice` calls `map!` on what the host Array answers. The host answers nil for a start past the end or a negative length, so `nil.map!` raises NoMethodError | `List.new([1, 2, 3])[4, 1]`, `[-4, 1]`, `[0, -1]` or `[4..5]` | answer nil as `Array#[]` does | not executed | IndifferentList.SliceAsWritten (IndifferentList.SliceAsWrittenRaisesPastEnd) | IndifferentList.Slice (IndifferentList.SliceFailsOnlyOnArguments) |
