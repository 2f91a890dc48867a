# Kernel object runtime: symbols, reference counts, serialization

A Dafny model of four pieces of a C++ kernel object runtime, with proofs
about each of them.

- **The symbol intern table** (`OSSymbolPool`, OSSymbol.cpp) holds every
  symbol.
  - It is an array of buckets, indexed by `hashSymbol(text) % nBuckets`.
  - It grows to `2n + 1` buckets and shrinks to `(n - 1) / 2` buckets.
  - It starts at, and never shrinks below, `INITIAL_POOL_SIZE`, which is
    `exp2ml(1 + log2(16)) = 31`.
  - A resize re-inserts every entry through the `initHashState` /
    `nextHashState` cursor.
  - On top of the pool, `OSSymbol::withCString` and `withCStringNoCopy`
    make equal texts share one object. `OSSymbol::free` unpools a symbol,
    and `checkForPageUnload` moves symbols off storage that is about to go
    away.
- **The packed reference count** (OSObject.cpp) is one 32-bit word.
  - The low half is the total count; the high half counts retains made by
    collections.
  - Two total values are reserved: `0xfffe` (pegged) and `0xffff` (being
    freed).
  - A release takes a threshold `when`, detects the "corrupted registry"
    state, and reports when the object must be freed.
- **The serialization buffer** (`OSSerialize`, OSSerialize.cpp) is a byte
  buffer that stays NUL-terminated.
  - It grows in multiples of `capacityIncrement`.
  - A map from object identity to tag text turns the second serialization
    of an object into `<reference IDREF="n"/>`.
- **The string object** (`OSString`, OSString.cpp) stores `length` bytes,
  the NUL included, in either owned or borrowed ("no copy") storage.
  - It offers bounds-checked `getChar`/`setChar` and the `isEqualTo`
    overloads.
  - Its `serialize` escapes the three markup characters `<`, `>` and `&`.

## Modules

| file | module | models |
|---|---|---|
| cstrings.dfy | `CStrings` | bytes (`CChar`), `strlen`, `strncmp` |
| osobject.dfy | `OSObjects` | the `OSObject` class: retain word, retain/release, `free`, `serialize` |
| osserialize.dfy | `Serializers` | the `OSSerialize` class: buffer, growth, tags, XML tags |
| osstring.dfy | `OSStrings` | the `OSString` class, XML escaping and its inverse |
| symbolpool.dfy | `SymbolPool` | `hashSymbol`, `log2`/`exp2ml`, and the `OSSymbolPool` class: buckets, cursor, find/insert/remove, rebuild |
| symbols.dfy | `Symbols` | `OSSymbol`: interning lookups, `free`, `checkForPageUnload`, identity equality |

### How the model represents the source

- **Classes.** Every class whose fields the source updates is a Dafny
  `class` with those fields.
  - `OSObject` holds `retainCount` as a `u32` newtype.
  - `OSString` holds `length`, `str`, `noCopy`, and its `OSObject` part as
    `base`.
  - `OSSerialize` holds `data`, `length`, `capacity`, `capacityIncrement`,
    `tag` and `tags`.
  - `OSSymbolPool` holds `buckets`, `nBuckets` and `count`.
- **Ghost state.** Each class keeps ghost state that its specification is
  written in:
  - the serializer's emitted `text` and the order in which objects were
    tagged;
  - the pool's `table`, from each text to its symbol;
  - counters of how often `free` ran and how often storage was given back.
- **Symbols.** `OSSymbol` adds no state to `OSString`, so a symbol is an
  `OSString` object that sits in the pool.
- **Buckets.** A pool bucket is a sequence of entries, the front entry
  first. Each `Entry` pairs a symbol with the text it was pooled under.
- **The interning invariant.** `Symbols.Interned` says a pooled symbol's
  content is its key. Given that invariant, the entry's text is the
  symbol's own.
- **Free.** A release reports `MustFree`. Each class's release wrapper
  then runs its own `free` chain, which stands for the virtual `free()`
  call: `OSObject.Release`, `OSString.Release`, and `Symbols.ReleaseSymbol`
  for a symbol, whose `free` leaves the pool first.
- **Allocation.** Where the source branches on it (`ensureCapacity`,
  `initWithCString`, `new OSSymbol`), allocation is a nondeterministic
  choice.
- **Unloaded storage.** The address range of `checkForPageUnload` is the
  set of storage arrays that lie inside it.

## Model

| member | source | states |
|---|---|---|
| CStrings.CStr | OSString.cpp:74 | the bytes before the first NUL: a prefix of the input with no NUL in it, followed in the input by a NUL unless it is the whole input |
| CStrings.StrNEqMeansSameCString | OSString.cpp:180-183 | `strncmp(x, y, n) == 0`, for `x` terminated at `n - 1`, holds exactly when the C string in `y` equals the text of `x` |
| OSObjects.OSObject.constructor | OSObject.cpp:47-48 | a new object has retain word 1: total 1, no collection retains, never freed |
| OSObjects.OSObject.GetRetainCount | OSObject.cpp:102-105 | the result is the low 16 bits of the word; the word is the collection half times 2^16 plus the result |
| OSObjects.RetainWord | OSObject.cpp:107-147 | below the sentinels a retain adds one to the total, and one (mod 2^16) to the collection half exactly when the retain is a collection's; at `0xfffe`/`0xffff` the word is unchanged |
| OSObjects.OSObject.TaggedRetain | OSObject.cpp:107-147 | the new word is `RetainWord` of the old; the result is false exactly for the "retain of a freed object" case, total `0xffff` |
| OSObjects.OSObject.Retain | OSObject.cpp:226-229 | an untagged `TaggedRetain` |
| OSObjects.Decremented | OSObject.cpp:157-191 | `origCount - dec` in 32 bits: a non-zero total drops by one and the collection half by the tag's share; a zero total borrows to `0xffff` |
| OSObjects.ReleaseWord | OSObject.cpp:154-219 | sentinel totals are ignored and unchanged; otherwise the word is the decremented one, or `0xffff` when its total falls below `when`; the outcome is corruption exactly when the decremented collection half exceeds its total, and must-free exactly when the stored word is `0xffff` |
| OSObjects.OSObject.TaggedRelease | OSObject.cpp:154-214 | the new word and the outcome are `ReleaseWord` of the old word |
| OSObjects.OSObject.ReleaseWhen | OSObject.cpp:231-234 | an untagged release with threshold `when`; `free` runs once when the outcome is must-free and not otherwise |
| OSObjects.OSObject.Release | OSObject.cpp:221-224 | `release()` is the release with `when == 1` |
| OSObjects.OSObject.Free | OSObject.cpp:92-99 | `free` is counted once per call |
| OSObjects.RetainsCount | OSObject.cpp:145 | `k` plain retains of a new object give the word `1 + k` while below the pegged value |
| OSObjects.ReleasesAfterFree | OSObject.cpp:169-176 | once the total is `0xffff` every further release is ignored |
| OSObjects.ReleasesCount | OSObject.cpp:191-218 | an object of total `c` without collection retains survives `c - 1` plain releases, must be freed at the next one, and ignores every one after |
| OSObjects.FreedOnLastRelease | OSObject.cpp:149-218 | after `k` retains of a new object the `(k + 1)`-th release, and only that one, asks for `free` |
| OSObjects.FreeOnlyAt | OSObject.cpp:216-218 | in `k` releases, one free and any ignored ones, the free is at position `k` and nowhere else |
| OSObjects.ReleaseUndoesRetain | OSObject.cpp:114-195 | a release with the same tag after a retain gives back the original word and reports a plain decrement |
| OSObjects.OSObject.Serialize | OSObject.cpp:236-246 | an object serialized before gets a reference with its old tag and true; otherwise it gets the next tag and the `string` element naming its class, with true exactly when all of it was written and a prefix of it otherwise; the serializer's capacity increment is kept |
| OSObjects.OSObject.EmitNotSerializable | OSObject.cpp:240-245 | the four appends write `<string ID="t">`, the class name, ` is not serializable` and `</string>`, stopping at the first failure |
| Serializers.Decimal | OSSerialize.cpp:87 | `%u` formatting: at least one digit, only digits, no leading zero |
| Serializers.DecimalRoundTrip | OSSerialize.cpp:87 | reading the digits back gives the number |
| Serializers.DecimalInjective | OSSerialize.cpp:87 | distinct numbers have distinct tag texts |
| Serializers.DecimalHasNoNul | OSSerialize.cpp:81-88 | a tag text has no NUL, so appending it as a C string appends all of it |
| Serializers.RoundUp | OSSerialize.cpp:200-201 | `((n - 1) / inc + 1) * inc` is a multiple of `inc`, at least `n` and less than `n + inc` |
| Serializers.TagsNumberedExtend | OSSerialize.cpp:86-91 | tagging a new object with the counter keeps tags 0, 1, 2, ... in first-seen order |
| Serializers.StartTagText | OSSerialize.cpp:97-108 | a start tag is `<`, the name, ` ID="`, the tag, `"` and `>` |
| Serializers.EndTagText | OSSerialize.cpp:110-118 | an end tag is `<`, `/`, the name and `>` |
| Serializers.Step | OSSerialize.cpp:97-118 | one append in a chain: on success the text so far grows by the piece; on failure it is a strict prefix of the whole chain's text |
| Serializers.PiecesChain | OSSerialize.cpp:79-83 | three appends that may each stop short leave the three pieces' prefixes in order |
| Serializers.OSSerialize.TagsDistinct | OSSerialize.cpp:86-91 | every recorded tag is the decimal of a number below the counter, and distinct objects have distinct tags |
| Serializers.OSSerialize.InitWithCapacity | OSSerialize.cpp:141-168 | `length` 1, no tags, counter 0, capacity as requested or 100 for 0, increment equal to the capacity, an all-zero buffer, empty text |
| Serializers.OSSerialize.SetCapacityIncrement | OSSerialize.cpp:185-189 | 0 stores 256, any other value is stored; the stored value is returned |
| Serializers.OSSerialize.EnsureCapacity | OSSerialize.cpp:191-221 | no change when the request fits; otherwise either nothing changes (allocation refused) or the capacity becomes the smallest multiple of the increment that holds the request, the old bytes kept and the new ones zero; the result is the capacity |
| Serializers.OSSerialize.AddChar | OSSerialize.cpp:120-130 | on success the text gains `c` and `length` grows by one; on failure the buffer was full and nothing changed; the buffer stays NUL-terminated |
| Serializers.OSSerialize.AddString | OSSerialize.cpp:132-139 | appends the C string byte by byte and stops at the first failure; true exactly when the string is non-empty and all of it was appended |
| Serializers.OSSerialize.PreviouslySerialized | OSSerialize.cpp:69-95 | true exactly for an object already tagged, which gets the reference marker with its tag and keeps the tags; otherwise the object gets the decimal of the counter, the counter goes up, and no text is written: buffer, capacity and length stay as they were |
| Serializers.OSSerialize.AddXMLStartTag | OSSerialize.cpp:97-108 | writes `<name ID="tag">` with the object's tag; true exactly when all of it was written, a prefix of it otherwise |
| Serializers.OSSerialize.AddXMLEndTag | OSSerialize.cpp:110-118 | writes `</name>`; true exactly when all of it was written, a prefix of it otherwise |
| Serializers.OSSerialize.ClearText | OSSerialize.cpp:61-67 | the whole buffer zeroed, `length` 1, counter 0, no tags, capacity kept |
| OSStrings.Escape | OSString.cpp:204-212 | `<`, `>` and `&` become their entities, every other byte stays itself; never empty |
| OSStrings.EscapedPrefix | OSString.cpp:203-214 | escaping a prefix of a string gives a prefix of the escaped string |
| OSStrings.UnescapeOne | OSString.cpp:204-212 | reading one escaped byte back gives the byte |
| OSStrings.UnescapeEscaped | OSString.cpp:203-214 | the escaped bytes read back give the original bytes |
| OSStrings.OSString.ContentIsCString | OSString.cpp:145 | the content of a terminated string is the C string in its storage |
| OSStrings.OSString.InitWithCString | OSString.cpp:70-82 | fails on null; otherwise `length` is `strlen + 1`, and on success the storage is a fresh exact copy, NUL included, whose content is the input's C string |
| OSStrings.OSString.InitWithCStringNoCopy | OSString.cpp:84-94 | fails exactly on null; otherwise `length` is `strlen + 1`, the no-copy flag is set and the storage is the caller's array |
| OSStrings.OSString.GetLength | OSString.cpp:145 | `length - 1` as an unsigned value (`0xffffffff` for 0), for a terminated string the content's length and `strlen` |
| OSStrings.OSString.GetChar | OSString.cpp:163-169 | the content's byte before the end, NUL at `length - 1`, NUL beyond |
| OSStrings.OSString.SetChar | OSString.cpp:152-161 | succeeds exactly for owned storage and an index before the NUL, writing that one byte; otherwise nothing changes |
| OSStrings.OSString.IsEqualTo | OSString.cpp:172-178 | for terminated strings, true exactly when the contents are equal |
| OSStrings.OSString.SameLengthEquality | OSString.cpp:176-183 | at equal lengths `strncmp` over `length` bytes compares the contents |
| OSStrings.OSString.IsEqualToCString | OSString.cpp:180-183 | for a terminated string, true exactly when its content is the C string given |
| OSStrings.OSString.IsEqualToObject | OSString.cpp:185-189 | always false |
| OSStrings.OSString.IsEqualToData | OSString.cpp:191-194 | always false |
| OSStrings.OSString.Free | OSString.cpp:135-143 | storage is given back once if it is owned and present, never if it is borrowed; the object part is freed once |
| OSStrings.OSString.Release | OSString.cpp:135-143 | the release of a string: the word as `ReleaseWord`, and `OSString::free` exactly on must-free |
| OSStrings.OSString.Serialize | OSString.cpp:196-217 | a string serialized before gets a reference; otherwise a new tag and the `string` element holding the escaped bytes before the first NUL, true exactly when all of it was written, a prefix otherwise; the serializer's capacity increment is kept |
| OSStrings.OSString.EmitString | OSString.cpp:202-216 | start tag, escaped bytes, end tag, stopping at the first failure |
| OSStrings.OSString.EmitEscaped | OSString.cpp:203-214 | the loop over the bytes: on success the whole escaped text has been written; on failure a strict prefix of the element |
| OSStrings.AddEscape | OSString.cpp:204-212 | one byte written as its entity or as itself, all or a prefix of it |
| OSStrings.EscapeStep | OSString.cpp:203-214 | a successful pass extends the escaped prefix by one byte; a failed one leaves a strict prefix of the escaped whole |
| SymbolPool.Promote | OSSymbol.cpp:84-87 | a byte as a signed `char` promoted and taken as 32-bit unsigned, below 2^32 |
| SymbolPool.XorBound | OSSymbol.cpp:84-87 | exclusive or keeps `k`-bit values within `k` bits |
| SymbolPool.HashSymbol | OSSymbol.cpp:75-91 | `len` is `strlen(s)` and `hash` is the exclusive or of the bytes shifted by 0, 8, 16, 24 bits by position mod 4, a function of the C string's bytes only |
| SymbolPool.Slot | OSSymbol.cpp:263 | `hash % nBuckets` is a bucket index |
| SymbolPool.Log2 | OSSymbol.cpp:178-185 | the number of halvings: `2^r <= x < 2^(r+1)` for positive `x`, 0 for 0 |
| SymbolPool.Exp2ml | OSSymbol.cpp:187-190 | `(1 << x) - 1` is `2^x - 1` |
| SymbolPool.ShiftIsPow2 | OSSymbol.cpp:189 | the 32-bit shift `1 << x` is `2^x` below bit 31 |
| SymbolPool.ComputeInitialPoolSize | OSSymbol.cpp:45 | `exp2ml(1 + log2(16))` is 31 |
| SymbolPool.EnumerationVisitsAll | OSSymbol.cpp:198-215 | the cursor's order visits each stored entry exactly once, and nothing else |
| SymbolPool.OSSymbolPool.Init | OSSymbol.cpp:136-156 | `count` 0, 31 buckets, every bucket empty, an empty table |
| SymbolPool.OSSymbolPool.Copy | OSSymbol.cpp:158-165 | the copy shares the old pool's buckets, size and count |
| SymbolPool.OSSymbolPool.InitHashState | OSSymbol.cpp:192-196 | a cursor before the whole enumeration |
| SymbolPool.OSSymbolPool.NextHashState | OSSymbol.cpp:198-215 | the next entry of the enumeration (buckets from the last, each bucket from its last entry) and the shorter rest; none exactly when nothing is left |
| SymbolPool.OSSymbolPool.FindSymbol | OSSymbol.cpp:256-286 | a symbol exactly when the text is pooled, and then the text's own symbol |
| SymbolPool.SameText | OSSymbol.cpp:272-282 | the probe's length check plus `strncmp` holds exactly when the probe's text is the C string |
| SymbolPool.OSSymbolPool.InsertEntry | OSSymbol.cpp:288-342 | a pooled text gives its existing symbol and changes nothing; a new one is put at the front of its bucket, `count` goes up by one, and `nonEmpty` says whether the bucket held entries |
| SymbolPool.OSSymbolPool.InsertSymbol | OSSymbol.cpp:288-346 | as `InsertEntry`, and the pool rebuilds to `2n + 1` buckets exactly when a new text went into a non-empty bucket and `count` exceeds `nBuckets` |
| SymbolPool.GrowLevel | OSSymbol.cpp:228-229 | `2n + 1` buckets keep the bucket count one below a power of two |
| SymbolPool.ShrinkLevel | OSSymbol.cpp:233-236 | `(n - 1) / 2` of a pool above 31 buckets is at least 31 and one below a power of two |
| SymbolPool.OSSymbolPool.ReconstructSymbols | OSSymbol.cpp:222-254 | the same table and `count` in `2n + 1` buckets, or `(n - 1) / 2`, or unchanged at the initial size; never below 31 |
| SymbolPool.OSSymbolPool.Reset | OSSymbol.cpp:244-249 | fresh empty buckets of the new size; `count` 0 |
| SymbolPool.OSSymbolPool.Refill | OSSymbol.cpp:251-253 | re-inserting the old pool's enumeration gives back its table and `count`, every entry in its new bucket |
| SymbolPool.RefillStep | OSSymbol.cpp:252-253 | each re-inserted entry is new to the refilled table |
| SymbolPool.OSSymbolPool.Locate | OSSymbol.cpp:354-402 | the bucket of the text and the first position holding `sym`, or the bucket's length |
| SymbolPool.MatchesIn | OSSymbol.cpp:359-421 | the identity search finds `sym`'s own entry or none, and dropping it keeps the others in order |
| SymbolPool.Drop | OSSymbol.cpp:359-421 | the bucket without the entries of `sym`: every remaining entry was there and is not `sym`'s, every other entry remains |
| SymbolPool.DropAt | OSSymbol.cpp:402-418 | taking out the one entry of `sym` at `k` keeps the entries before and after it in order |
| SymbolPool.OSSymbolPool.RemoveEntry | OSSymbol.cpp:348-421 | exactly the entry identical to `sym` goes, `count` drops by one if it was there, nothing changes otherwise; `small` says whether the bucket held one or two entries |
| SymbolPool.OSSymbolPool.TakeOut | OSSymbol.cpp:365-418 | entry `k` of bucket `b` taken out of buckets, table and `count` |
| SymbolPool.OSSymbolPool.RemoveSymbol | OSSymbol.cpp:348-422 | as `RemoveEntry`, and the pool shrinks to `(n - 1) / 2` buckets exactly after removal from a one- or two-entry bucket with `3 * count < nBuckets` and `nBuckets > 31` |
| SymbolPool.MatchesOne | OSSymbol.cpp:348-422 | an identity search meets at most one text |
| Symbols.SymbolIsEqualTo | OSSymbol.cpp:573-576 | `isEqualTo(const OSSymbol *)` is identity |
| Symbols.IdentityIsContent | OSSymbol.cpp:573-576 | for pooled symbols identity and `OSString` equality agree: equal text means the same object |
| Symbols.WithCString | OSSymbol.cpp:470-498 | a pooled text gives its symbol with one more retain and the pool unchanged; otherwise null and no change, or a fresh owned copy with retain count 1 added to the pool; the result is pooled under the C string's text; no other pooled symbol's retain count changes, and no free count or storage changes at all |
| Symbols.AddCopy | OSSymbol.cpp:475-491 | the not-found half of `withCString`: no pooled symbol's retain count changes |
| Symbols.RetainSymbol | OSSymbol.cpp:494 | the retain of the found symbol: the retain word of a plain retain, pool unchanged, and every other pooled object's retain count as it was |
| Symbols.NewCopy | OSSymbol.cpp:476-491 | a fresh symbol with a fresh owned copy of the C string, or null |
| Symbols.WithCStringNoCopy | OSSymbol.cpp:500-528 | as `WithCString`, with a new symbol borrowing the caller's array and marked no-copy; only the found symbol's retain count changes |
| Symbols.AddNoCopy | OSSymbol.cpp:505-521 | the not-found half of `withCStringNoCopy`: no pooled symbol's retain count changes |
| Symbols.NewNoCopy | OSSymbol.cpp:506-512 | a fresh no-copy symbol over the caller's array, or null |
| Symbols.Intern | OSSymbol.cpp:483 | inserting a symbol of a text just searched for adds exactly it |
| Symbols.EndingAsWritten | OSSymbol.cpp:470-498 | the code as written retains a null symbol exactly when the symbol was made but its string was not |
| Symbols.InitFailureRetainsNull | OSSymbol.cpp:482-494 | an initialisation failure leads to `retain` on null |
| Symbols.NotFoundAsWritten | OSSymbol.cpp:476-494 | on the not-found path as written, the ending is a retain on null exactly when the new symbol was made and `initWithCString` left it without storage; otherwise it is a new terminated symbol holding the text, or null |
| Symbols.EndingCorrected | OSSymbol.cpp:470-498 | with the failure path returning null, nothing is retained that was not found |
| Symbols.MoveStorage | OSSymbol.cpp:539-544 | fresh owned storage with the same `length` bytes, the flag cleared, the content kept |
| Symbols.CheckForPageUnload | OSSymbol.cpp:530-548 | every pooled symbol whose storage is being unloaded gets fresh storage and loses the no-copy flag; every other keeps storage and flag; only storage and flag change, so no storage is given back and no retain count moves; the pool stays interned |
| Symbols.UnloadAll | OSSymbol.cpp:536-546 | the scan over the pool's enumeration, with the same contract, changing only the symbols' storage and flag |
| Symbols.UnloadScan | OSSymbol.cpp:537-546 | the loop: every visited symbol moved off the storage or kept, and nothing but storage and flag changed |
| Symbols.UnloadNext | OSSymbol.cpp:537-545 | one step of the cursor and the visit of the entry it yields |
| Symbols.UnloadVisit | OSSymbol.cpp:538-544 | a symbol on unloaded storage is moved, any other is left alone; its text is kept |
| Symbols.ScanStart | OSSymbol.cpp:536 | before the scan every symbol is unchanged and every key is its symbol's text |
| Symbols.ScanEnd | OSSymbol.cpp:546 | after the scan the pool is interned, moved symbols are owned, the rest unchanged |
| Symbols.ReleaseSymbol | OSSymbol.cpp:555-566 | the release word of a plain release; on the last release the symbol leaves the pool, its owned storage is given back and the object is freed once; on any other the pool table, the storage and the free count stay as they were |
| Symbols.FreeSymbol | OSSymbol.cpp:562-566 | `OSSymbol::free`: the symbol leaves the pool, its owned storage is given back, the object is freed once |
| Symbols.Unpool | OSSymbol.cpp:564 | the table loses the symbol's text if it was pooled and nothing else |
| Symbols.InternedMatches | OSSymbol.cpp:354-421 | in an interned pool the identity search for a symbol meets its own text or nothing |

## Left out

- Atomics and locking. The compare-and-swap retry loops are one sequential update. The pool gate (`closeGate` and `openGate`) is empty, and so is the gate around `OSSymbol::taggedRelease`.
- Raw memory. `kalloc`, `kfree`, `bzero`, `bcopy`, `operator new` and `delete`, and the `ACCUMSIZE` counters are left out. Given-back storage is a ghost counter.
- The fatal and unchecked allocations are left out, because they have no recovery path. These are `assert(buckets)`, `assert(data)` and the unchecked `kalloc`s of bucket lists.
- Buckets are never freed. `reconstructSymbols` leaks its per-bucket lists, and the model keeps no account of that.
- The bucket layout is left out. The source stores a one-entry bucket inline and longer buckets as heap lists. The model keeps every bucket as a sequence, front first, so the one-entry and two-entry special cases of the source are the same scan.
- Runtime types are left out. `OSMetaClass`, `OSDynamicCast`, `getClassName` and `OSTypeID(OSCollection)` are external. The collection tag is a boolean, and the class name is a parameter.
- The tag dictionary is a Dafny map. `OSDictionary` is an external collection, and the source's `flushCollection` becomes an empty map.
- `snprintf("%u")` is the `Decimal` function.
- `OSSerializer::forTarget` and `OSSerializer::serialize` are callbacks into foreign code and are not part of this model.
- DEBUG-only panics are left out; only the non-DEBUG behaviour is modelled.
- `OSSymbol::withString`, `OSSymbol::initialize`, `OSString::withString`, and the other `OSSymbol::isEqualTo` overloads are not part of this model.
- The pool is a parameter of the symbol operations. In the source it is a file-level static.
- Unsigned wrap-around of `count`, `nBuckets`, `length`, `capacity` and the serializer's `tag` counter is not modelled. These are unbounded naturals in the model, and the source evidently never gets near 2^32 of them. `Serializers.OSSerialize.TagsDistinct` and `Serializers.DecimalInjective` rely on the tag counter never wrapping: after 2^32 tags the source's `tag++` would hand out a tag a second time.
- OSObjects.OSObject.TaggedRetain: the "retain of a freed object" panic becomes a false result, with no change to the word.
- OSObjects.OSObject.TaggedRelease: the corrupted-registry panic becomes the `Corrupted` outcome, with the new word stored as the source stores it before panicking.
- SymbolPool.Exp2ml: requires `x < 31`, because the source's `1 << x` on an `int` is undefined from bit 31 on.
- SymbolPool.OSSymbolPool.InsertSymbol: requires a symbol not already in the pool. Every caller passes a new symbol.
- SymbolPool.OSSymbolPool.ReconstructSymbols: requires the bounds on `count` that the `GROW_POOL` and `SHRINK_POOL` checks establish before they call it. Those are its only callers.
- SymbolPool.OSSymbolPool.RemoveSymbol: takes the symbol's text as a parameter, where the source hashes `sym->string`. `Symbols.Unpool` passes the symbol's content.
- Symbols.WithCString: takes a non-null array holding a NUL. The source has no null path: `findSymbol` (OSSymbol.cpp:474) hashes the text first, and `hashSymbol` reads `*s` at OSSymbol.cpp:84.
- Symbols.WithCStringNoCopy: takes a non-null array holding a NUL, because its `findSymbol` call (OSSymbol.cpp:504) reads the text the same way.
- Symbols.CheckForPageUnload: the address range is modelled as the set of storage arrays inside it. The address comparison itself is not modelled.
- Serializers.OSSerialize.PreviouslySerialized: the source does not check the three appends of the reference marker, and the model follows the code. Each append may stop short, and the result is still true. The failure of `OSString::withCString` and of `setObject` for the new tag is not modelled.
- OSStrings.OSString.Serialize: requires that the serializer's buffer is not the string's own storage.
- OSStrings.OSString.GetChar: requires an initialised string, one with storage and a NUL at `length - 1`.
- OSStrings.OSString.SetChar: requires an initialised string, for the same reason. A `setChar` on a pooled symbol would break the interning invariant. The model leaves it to callers, as the source does.
- OSStrings.OSString.IsEqualTo: requires both strings initialised.
- A symbol's text in the pool is recorded with its entry when the symbol is inserted. `Symbols.Interned` ties that recorded text to the symbol's current content.

## Findings

| source | as written | input that shows it | evidently intended | confidence | as-written member | corrected member |
|---|---|---|---|---|---|---|
| OSSymbol.cpp:482-494 | when `initWithCString` of the new symbol fails, `oldSymb` is still null, the new symbol is freed, and control falls through to `oldSymb->retain()` | a text not yet pooled, with `new OSSymbol` succeeding and the allocation of its copy failing | free the half-made symbol and return null | not executed | Symbols.EndingAsWritten, Symbols.InitFailureRetainsNull, Symbols.NotFoundAsWritten | Symbols.EndingCorrected, Symbols.WithCString |
