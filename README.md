# mini_chromium core, modelled in Dafny

This project models nine small, sequential pieces of the mini_chromium base
libraries (the `winbase` and `crbase` ports) and proves properties of them:

- **Reference counting** (`ref_counted.dfy`, module `RefCounting`). It covers:
  - `RefCountedBase`, whose counter is a `uint32_t` and wraps like one.
  - The atomic `RefCountedThreadSafeBase`.
  - The `RefCounted` / `RefCountedThreadSafe` wrappers. They call `Traits::Destruct` on the release that reaches zero.
  - `RefCountedData`.
  - A pure trace model (`Life`, `Step`, `Run`, `Legal`) of any sequence of AddRef / Release calls. The `RefCounted` class is proved to follow it step by step. Lemmas over whole traces show that an object is destroyed at most once, on the release that takes its count from 1 to 0.
- **Type-erased callback handles, winbase port** (`callback_internal.dfy`, module `CallbackInternal`).
  - `BindStateBase` holds a reference count, the invoke / destructor / is-cancelled function pointers, and a ghost record of which destructor ran.
  - `CallbackBase` holds a nullable reference to a bind state. It supports copy (the state is shared), move (the state is transferred), `Reset`, `IsCancelled` and identity equality.
  - `scoped_refptr` is written out as count updates on the bind state.
  - A ghost multiset `holders` records which handles own the counted references. A valid handle is one of them, and the count equals their number; so a bind state is destroyed exactly when its last holder lets go.
- **Callback internals, crbase port** (`cr_callback_internal.dfy`, module `CrCallbackInternal`).
  - `BindStateBase` and `CallbackBase::is_null`.
  - The compile-time traits `IsMoveOnlyType` and `CallbackParamTraits`, as functions over a small `TypeDesc` datatype of C++ types.
  - `CallbackForward`, as a method on a stored argument: it copies, or moves and leaves the source moved-from.
- **`ObserverList`** (`observer_list.dfy`, module `ObserverLists`).
  - The `observers_` vector is a `seq<Option<O>>` field; a null slot is `None`.
  - While iterators are live, removal writes a null slot; otherwise it erases the entry. Compaction runs when the last iterator dies.
  - `ObserverList::Iter` is a class with the list reference, `index_` and `max_index_`. `EnsureValidIndex` is a loop with its invariants.
- **Unicode helpers** (`utf_string_conversion_utils.dfy`, module `UtfStringConversionUtils`).
  - `IsValidCodepoint` and `IsValidCharacter`.
  - UTF-8 encoding and well-formed decoding per section 3 of RFC 3629 (the byte table of section 4).
  - UTF-16 surrogate pairs per sections 2.1 and 2.2 of RFC 2781.
  - The documented contracts of `ReadUnicodeCharacter` and `WriteUnicodeCharacter`.
- **UTF-8 / UTF-16 conversion** (`utf_string_conversions.dfy`, module `UtfStringConversions`).
  - Both `DoUTFConversion` loops write into a preallocated `array` and are proved against recursive specification functions. Invalid input is replaced by U+FFFD and clears the success flag.
  - `UTFConversion`, with its ASCII fast path and its size coefficients.
  - `UTF8ToUTF16` / `UTF16ToUTF8` in both overloads, `ASCIIToUTF16` and `UTF16ToASCII`.
  - Round trips between the two encodings on well-formed input.
- **`File`** (`file.dfy`, module `Files`):
  - The `File` fields, constructors, move construction and move assignment.
  - The parent-path guard of `Initialize`.
  - `File::Info`.
  - The total mapping `ErrorToString`, proved injective through an inverse.
- **`ScopedTempDir`** (`scoped_temp_dir.dfy`, module `ScopedTempDirs`): a state machine over its single `path_` field.
- **`AtomicSequenceNumber`** (`atomic_sequence_num.dfy`, module `AtomicSequenceNumbers`). `GetNext` returns 0, 1, 2, … as a 32-bit `int` that wraps from `INT_MAX` to `INT_MIN`.

`wrappers.dfy` holds the `Option` datatype the modules share.

What a file system or the operating system answers becomes a parameter of the operation that asks it:

- `DoInitialize`'s open outcome.
- `CreateNewTempDirectory`, `CreateDirectory`, `CreateTemporaryDirInDir`, `DirectoryExists` and `DeleteFile`.
- Whether file tracing is enabled.
- The result of a bind state's cancellation predicate.

The ICU macro `CBU8_NEXT` is not part of this model. How it consumes a malformed UTF-8 sequence is the parameter `policy: MalformedPolicy`: a function giving, for each malformed input, how many bytes (at least one) are consumed. Every result about UTF-8 decoding holds for every such policy.

## Model

| member | source | states |
|---|---|---|
| RefCounting.Repeat | win/winbase/memory/ref_counted.h:52-92 | n repetitions of one operation: length n, every element that operation |
| RefCounting.ReleaseDestructsOnlyFromOne | win/winbase/memory/ref_counted.h:71-92 | an allowed Release lowers the count by one and destructs exactly when the count was 1 |
| RefCounting.AddRefRaisesByOne | win/winbase/memory/ref_counted.h:52-69 | an allowed AddRef raises the count by exactly one and changes nothing else |
| RefCounting.RunAppend | win/winbase/memory/ref_counted.h:52-92 | running two traces one after the other is running their concatenation |
| RefCounting.LegalAppend | win/winbase/memory/ref_counted.h:52-92 | a concatenated trace is legal iff its first part is legal and the second is legal from where the first ends |
| RefCounting.LegalTraceLife | win/winbase/memory/ref_counted.h:71-92 | over any legal trace: count = start + AddRefs − Releases; destroyed at most once; destroyed iff the last operation is a Release that reaches 0 |
| RefCounting.AdoptedCopiesDestroyOnLastRelease | win/winbase/memory/ref_counted.h:36-41 | an adopted object (count 1) given n more references survives n releases and is destroyed exactly by the (n+1)-th |
| RefCounting.AddRefsFrom | win/winbase/memory/ref_counted.h:52-69 | n AddRefs from count c are legal and reach c + n without destruction |
| RefCounting.ReleasesFrom | win/winbase/memory/ref_counted.h:71-92 | k ≤ c Releases from count c are legal; they destroy the object exactly when they take it to 0 |
| RefCounting.RefCountedBase.constructor | win/winbase/memory/ref_counted.h:30-41 | the count starts at 0 for the zero tag and at 1 for the one tag |
| RefCounting.RefCountedBase.HasOneRef | win/winbase/memory/ref_counted.h:27 | true iff releasing now would bring the uint32 count to 0, that is iff the count is 1 |
| RefCounting.RefCountedBase.AddRef | win/winbase/memory/ref_counted.h:52-69 | the uint32 count goes up by one, wrapping after 0xFFFFFFFF |
| RefCounting.RefCountedBase.Release | win/winbase/memory/ref_counted.h:71-92 | the uint32 count goes down by one; the result says "delete" iff the count was 1 |
| RefCounting.RefCountedBase.IsOnValidSequence | win/winbase/memory/ref_counted.h:107-113 | always true with the sequence checker compiled out |
| RefCounting.RefCounted.constructor | win/winbase/memory/ref_counted.h:313 | the object starts at the count of its preference tag, not destroyed |
| RefCounting.RefCounted.Destruct | win/winbase/memory/ref_counted.h:301-305 | DefaultRefCountedTraits::Destruct deletes the object: a live object becomes destroyed, once |
| RefCounting.RefCounted.AddRef | win/winbase/memory/ref_counted.h:318-320 | the new state is one trace-model AddRef step from the old |
| RefCounting.RefCounted.Release | win/winbase/memory/ref_counted.h:322-331 | the new state is one trace-model Release step from the old; Traits::Destruct ran iff the count was 1 |
| RefCounting.RefCountedThreadSafeBase.constructor | win/winbase/memory/ref_counted.h:152-158 | the count starts at 0 or 1 according to the tag |
| RefCounting.RefCountedThreadSafeBase.AddRef | win/winbase/memory/ref_counted.h:175-202 | the count goes up by one |
| RefCounting.RefCountedThreadSafeBase.Release | win/winbase/memory/ref_counted.h:204-216 | the count goes down by one; true iff it reached zero |
| RefCounting.RefCountedThreadSafe.constructor | win/winbase/memory/ref_counted.h:382-383 | the count starts at the preference tag's value, not destroyed |
| RefCounting.RefCountedThreadSafe.AddRef | win/winbase/memory/ref_counted.h:388-390 | the count goes up by one |
| RefCounting.RefCountedThreadSafe.Release | win/winbase/memory/ref_counted.h:392-397 | the count goes down by one; Traits::Destruct ran iff it reached zero |
| RefCounting.RefCountedData.Default | win/winbase/memory/ref_counted.h:418 | holds the value-initialised T, in a fresh box counted from zero |
| RefCounting.RefCountedData.constructor | win/winbase/memory/ref_counted.h:419-420 | holds the given value, in a fresh box counted from zero |
| CallbackInternal.Evaluate | win/winbase/functional/callback_internal.cc:14-16 | the ReturnFalse predicate never cancels; any other predicate answers what its function answers |
| CallbackInternal.BindStateBase.constructor | win/winbase/functional/callback_internal.cc:24-27 | keeps invoke and destructor; the cancellation predicate is ReturnFalse; count 0 and no holders |
| CallbackInternal.BindStateBase.WithCancellation | win/winbase/functional/callback_internal.cc:29-34 | keeps the invoke, destructor and is-cancelled pointers unchanged; count 0 and no holders |
| CallbackInternal.BindStateBase.AddRef | win/winbase/functional/callback_internal.cc:37-43 | taking a reference (scoped_refptr copy) raises the count by one and adds the taking handle to the holders, keeping count == number of holders |
| CallbackInternal.BindStateBase.Release | win/winbase/functional/callback_internal.cc:20-22 | dropping a handle's reference lowers the count and removes that holder; the state's own destructor runs exactly when no holder is left |
| CallbackInternal.Destruct | win/winbase/functional/callback_internal.cc:20-22 | runs the bind state's stored destructor_ and nothing else |
| CallbackInternal.CallbackBase.Null | win/winbase/functional/callback_internal.cc:53-57 | a handle that holds no bind state |
| CallbackInternal.CallbackBase.constructor | win/winbase/functional/callback_internal.cc:37-38 | a valid handle holding the given bind state, which gains one reference held by the new handle |
| CallbackInternal.CallbackBase.Copy | win/winbase/functional/callback_internal.cc:70-72 | copying a copyable handle shares its bind state and adds one reference, held by the copy; both handles stay valid |
| CallbackInternal.CallbackBase.Move | win/winbase/functional/callback_internal.cc:45-46 | moving transfers the bind state and its reference to the new handle and leaves the source null, with the count unchanged |
| CallbackInternal.CallbackBase.AssignCopy | win/winbase/functional/callback_internal.cc:74-78 | the target shares the source's state; that state gains a reference held by the target and the target's old state loses the target's one, destroyed when no holder is left; self-assignment changes no count |
| CallbackInternal.CallbackBase.AssignMove | win/winbase/functional/callback_internal.cc:48-51 | the target takes the source's state and reference and the source becomes null; the target's old state loses one reference and is destroyed when no holder is left, also when both shared one state |
| CallbackInternal.CallbackBase.Reset | win/winbase/functional/callback_internal.cc:53-57 | the handle holds no bind state; the old state loses this handle's reference and is destroyed exactly when no holder is left |
| CallbackInternal.CallbackBase.IsCancelled | win/winbase/functional/callback_internal.cc:59-62 | needs a bind state; returns that state's predicate result (false for ReturnFalse) |
| CallbackInternal.CallbackBase.EqualsInternal | win/winbase/functional/callback_internal.cc:64-66 | two null handles are equal, a null and a non-null handle are not, and two non-null handles are equal iff they hold the same bind state |
| CallbackInternal.SharerSurvivesReset | win/winbase/functional/callback_internal.cc:53-57 | for any two distinct handles sharing a bind state, resetting one leaves the other valid and the state alive with one reference fewer |
| CallbackInternal.ResetAll | win/winbase/functional/callback_internal.cc:53-57 | resetting, one by one, every handle that holds a bind state runs its destructor, at the last Reset and not before, leaving the count 0 |
| CrCallbackInternal.BindStateBase.constructor | win/crbase/callback_internal.h:47-48 | count 0 and the destructor it was given |
| CrCallbackInternal.CallbackBase.IsNull | win/crbase/callback_internal.h:76 | true iff the handle holds no bind state |
| CrCallbackInternal.AddConst | win/crbase/callback_internal.h:190-206 | adding const keeps a type well formed and not a reference |
| CrCallbackInternal.IsMoveOnlyType | win/crbase/callback_internal.h:129-143 | a type is move-only exactly when it is a std::unique_ptr or a non-const class with the MoveOnlyTypeForCPP03 sentinel |
| CrCallbackInternal.CallbackParamTraits | win/crbase/callback_internal.h:120-225 | storage is never a reference; move-only types are stored and forwarded by value; T& is stored as T and forwarded as T&; T[n] and T[] become const T*; other types are stored as T and forwarded as const T& |
| CrCallbackInternal.ArraysDecayAlike | win/crbase/callback_internal.h:190-206 | T[n] and T[] get the same traits, both a pointer |
| CrCallbackInternal.ConstRemovesMoveOnly | win/crbase/callback_internal.h:129-177 | a const type is never move-only and is forwarded as a const reference |
| CrCallbackInternal.StoredArg.constructor | win/crbase/callback_internal.h:173-225 | a stored argument of the given type holds the given value |
| CrCallbackInternal.CallbackForward | win/crbase/callback_internal.h:243-253 | returns the stored object; a move-only source is left moved-from, any other source untouched |
| CrCallbackInternal.ForwardTwice | win/crbase/callback_internal.h:243-253 | forwarding twice yields the same value for a copyable type and a moved-from value for a move-only one |
| ObserverLists.IndexOf | winlib/winbase/observer_list.h:251 | std::find: the first position holding the element |
| ObserverLists.WithoutNulls | winlib/winbase/observer_list.h:282-285 | the erase/remove result: no null slots, never longer |
| ObserverLists.WithoutNullsKeepsObservers | winlib/winbase/observer_list.h:282-285 | compaction keeps exactly the observers that were present |
| ObserverLists.WithoutNullsAppend | winlib/winbase/observer_list.h:282-285 | compaction works slot by slot and keeps the order of the rest |
| ObserverLists.WithoutNullsOfNoNulls | winlib/winbase/observer_list.h:282-285 | compacting a list without null slots changes nothing |
| ObserverLists.WithoutNullsLength | winlib/winbase/observer_list.h:282-285 | compaction removes exactly the null entries |
| ObserverLists.WithoutNullsNoDuplicates | winlib/winbase/observer_list.h:282-285 | compaction keeps the "added once" invariant |
| ObserverLists.ObserverList.constructor | winlib/winbase/observer_list.h:221-222 | an empty list with no live iterators and the given policy and template flags |
| ObserverLists.ObserverList.HasObserver | winlib/winbase/observer_list.h:264-266 | true iff the observer occurs in the vector |
| ObserverLists.ObserverList.MightHaveObservers | winlib/winbase/observer_list.h:278 | true whenever an observer is present, and exactly then when no iterator is live |
| ObserverLists.ObserverList.AddObserver | winlib/winbase/observer_list.h:238-245 | appends at the end only if absent; adding a present observer changes nothing |
| ObserverLists.ObserverList.RemoveObserver | winlib/winbase/observer_list.h:249-261 | absent: no change; with live iterators the slot becomes null and the length is kept; otherwise the entry is erased and the order of the others kept |
| ObserverLists.ObserverList.Clear | winlib/winbase/observer_list.h:269-276 | with live iterators every slot becomes null and the length is kept; otherwise the vector is emptied |
| ObserverLists.ObserverList.Compact | winlib/winbase/observer_list.h:282-285 | the vector becomes the compaction of its old value |
| ObserverLists.ObserverList.Destroy | winlib/winbase/observer_list.h:226-231 | with check_empty the list is compacted, otherwise left as is |
| ObserverLists.ObserverList.Begin | winlib/winbase/observer_list.h:214-217 | an empty list gives an end iterator with no list; otherwise a new iterator over this list (one more live iterator) whose max index follows the policy, positioned at the first non-null slot or the clamped end, so it is an end iterator iff every slot below the clamp is null |
| ObserverLists.ObserverList.End | winlib/winbase/observer_list.h:219 | an iterator with no list, which is at the end |
| ObserverLists.Iter.Default | winlib/winbase/observer_list.h:110 | no list, index 0, max index 0 |
| ObserverLists.Iter.constructor | winlib/winbase/observer_list.h:112-122 | max index is SIZE_MAX under ALL and the current size under EXISTING_ONLY; the index is at the first non-null slot or the clamped end; one more live iterator |
| ObserverLists.Iter.Copy | winlib/winbase/observer_list.h:133-139 | same list, index and max index; one more live iterator on the list |
| ObserverLists.Iter.Dispose | winlib/winbase/observer_list.h:124-131 | one less live iterator; the last one compacts the list |
| ObserverLists.Iter.ClampedMaxIndex | winlib/winbase/observer_list.h:196-198 | the smaller of max index and the list size |
| ObserverLists.Iter.IsEnd | winlib/winbase/observer_list.h:200 | true without a list, else iff the index is the clamped max index |
| ObserverLists.Iter.Current | winlib/winbase/observer_list.h:183-187 | needs a list and an index below the clamp; the slot read is one of the list's, a non-null one names a registered observer, and a null one can only be seen while an iterator is live |
| ObserverLists.Iter.Equals | winlib/winbase/observer_list.h:149-152 | two end iterators are equal; otherwise equal iff same list and same index |
| ObserverLists.Iter.EnsureValidIndex | winlib/winbase/observer_list.h:189-194 | skips exactly the null slots and stops at a non-null slot or the clamped end |
| ObserverLists.Iter.Increment | winlib/winbase/observer_list.h:156-162 | with a list, moves past the current slot to the next non-null slot or the clamped end; without one, does nothing |
| ObserverLists.Iter.PostIncrement | winlib/winbase/observer_list.h:164-168 | returns a copy at the old position (one more live iterator) and advances this one |
| UtfStringConversionUtils.ToUint32 | win/winbase/strings/utf_string_conversions.cc:68-71 | the int32 to uint32 conversion: identity on non-negative values, adds 2^32 to negative ones |
| UtfStringConversionUtils.LastTwoOfPlane | winlib/winbase/strings/utf_string_conversion_utils.h:32 | (c & 0xFFFE) == 0xFFFE iff the low 16 bits are FFFE or FFFF |
| UtfStringConversionUtils.IsValidCodepoint | winlib/winbase/strings/utf_string_conversion_utils.h:19-25 | a valid code point is exactly one at most 0x10FFFF that is not a surrogate (a Unicode scalar value) |
| UtfStringConversionUtils.IsValidCharacter | winlib/winbase/strings/utf_string_conversion_utils.h:27-33 | a valid character is exactly a valid code point that is not a noncharacter (U+FDD0..U+FDEF or the last two of a plane) |
| UtfStringConversionUtils.NoncharactersAreValidCodepoints | winlib/winbase/strings/utf_string_conversion_utils.h:22-32 | U+FFFE, U+10FFFF and U+FDD0..U+FDEF are valid code points but not valid characters |
| UtfStringConversionUtils.Utf8Encode | win/winbase/strings/utf_string_conversions.cc:48-50 | one to four bytes, at most three below U+10000 |
| UtfStringConversionUtils.WellFormedLength | win/winbase/strings/utf_string_conversions.cc:69 | the length of a well-formed sequence at the head (0 if none), given by its lead byte |
| UtfStringConversionUtils.NextUtf8 | win/winbase/strings/utf_string_conversions.cc:69 | consumes at least one and at most all remaining bytes |
| UtfStringConversionUtils.WellFormedLengthIntro | win/winbase/strings/utf_string_conversions.cc:69 | a lead byte with the right trail bytes starts a well-formed sequence of its length |
| UtfStringConversionUtils.Utf8EncodeThenDecode | win/winbase/strings/utf_string_conversions.cc:48-69 | the encoding of a scalar value is well formed and decodes back to it |
| UtfStringConversionUtils.Utf8DecodeThenEncode | win/winbase/strings/utf_string_conversions.cc:48-69 | a well-formed sequence decodes to a scalar value whose encoding is that sequence |
| UtfStringConversionUtils.Supplementary | win/winbase/strings/utf_string_conversions.cc:104-105 | a lead/trail pair gives a code point in U+10000..U+10FFFF |
| UtfStringConversionUtils.Utf16Encode | win/winbase/strings/utf_string_conversions.cc:52-54 | one unit below U+10000, two above |
| UtfStringConversionUtils.Utf16PairRoundTrip | win/winbase/strings/utf_string_conversions.cc:104-105 | encoding a supplementary code point gives a lead and a trail that combine back to it |
| UtfStringConversionUtils.Utf16PairEncodes | win/winbase/strings/utf_string_conversions.cc:104-105 | combining a lead and a trail and encoding the result gives the same pair |
| UtfStringConversionUtils.NextUtf16 | winlib/winbase/strings/utf_string_conversion_utils.h:49-53 | consumes one or two units and yields a code point at most 0x10FFFF |
| UtfStringConversionUtils.ReadUnicodeCharacter8 | winlib/winbase/strings/utf_string_conversion_utils.h:37-47 | the index is left on the last byte read; success iff the bytes there are well formed; on success the bytes read are the code point's encoding |
| UtfStringConversionUtils.ReadUnicodeCharacter16 | winlib/winbase/strings/utf_string_conversion_utils.h:49-53 | the index is left on the last unit read; success iff a non-surrogate or a lead followed by a trail; on success the units read are the code point's encoding |
| UtfStringConversionUtils.WriteUnicodeCharacter8 | winlib/winbase/strings/utf_string_conversion_utils.h:57-60 | appends one to four bytes, keeps the old output, returns the count |
| UtfStringConversionUtils.WriteUnicodeCharacter16 | winlib/winbase/strings/utf_string_conversion_utils.h:62-64 | appends one unit below U+10000 and two above, keeps the old output, returns the count |
| UtfStringConversionUtils.ReadAfterWrite8 | winlib/winbase/strings/utf_string_conversion_utils.h:37-60 | reading back where a valid code point was written yields it, ending on the last byte written |
| UtfStringConversionUtils.ReadAfterWrite16 | winlib/winbase/strings/utf_string_conversion_utils.h:49-64 | reading back where a valid code point was written yields it, ending on the last unit written |
| UtfStringConversions.Utf8NextIsValidIffWellFormed | win/winbase/strings/utf_string_conversions.cc:69-74 | the decoded code point passes IsValidCodepoint iff the bytes are well formed |
| UtfStringConversions.Utf8Step | win/winbase/strings/utf_string_conversions.cc:69-74 | one loop step: consumes at least one byte and yields a scalar value, U+FFFD when invalid, four bytes for a supplementary one |
| UtfStringConversions.Utf8StepValidIffWellFormed | win/winbase/strings/utf_string_conversions.cc:69-74 | a step is valid iff the bytes are well formed |
| UtfStringConversions.Utf8StepEncodes | win/winbase/strings/utf_string_conversions.cc:69-76 | a valid step consumed exactly the encoding of its code point |
| UtfStringConversions.Utf8ToUtf16Spec | win/winbase/strings/utf_string_conversions.cc:60-80 | the whole conversion: never more UTF-16 units than input bytes |
| UtfStringConversions.Utf8ToUtf16OkIffWellFormed | win/winbase/strings/utf_string_conversions.cc:65-79 | the result is true iff the input is a sequence of well-formed UTF-8 characters, that is iff no substitution happened |
| UtfStringConversions.AppendUtf16 | win/winbase/strings/utf_string_conversions.cc:52-54 | writes the code point's UTF-16 encoding after the first size units and advances size by its length |
| UtfStringConversions.DoUtf8Conversion | win/winbase/strings/utf_string_conversions.cc:60-80 | the buffer holds exactly the in-order UTF-16 encodings of the decoded code points (U+FFFD for invalid ones); success iff no substitution |
| UtfStringConversions.ConvertSingleChar | win/winbase/strings/utf_string_conversions.cc:89-95 | a non-surrogate passes through; a surrogate becomes U+FFFD and is invalid |
| UtfStringConversions.Utf16Step | win/winbase/strings/utf_string_conversions.cc:101-120 | consumes two units iff a lead is followed by a trail; invalid iff an unpaired surrogate, then U+FFFD |
| UtfStringConversions.Utf16StepEncodes | win/winbase/strings/utf_string_conversions.cc:101-120 | a valid step consumed exactly the UTF-16 encoding of its code point |
| UtfStringConversions.Utf16ToUtf8Spec | win/winbase/strings/utf_string_conversions.cc:83-123 | the whole conversion: at most three bytes per input unit |
| UtfStringConversions.WellFormedUtf16Tail | win/winbase/strings/utf_string_conversions.cc:89-95 | a string starting with a non-lead unit is well formed iff that unit is not a trail and the rest is well formed |
| UtfStringConversions.Utf16ToUtf8OkIffWellFormed | win/winbase/strings/utf_string_conversions.cc:87-123 | the result is true iff every surrogate is paired, including a lone final unit |
| UtfStringConversions.AppendUtf8 | win/winbase/strings/utf_string_conversions.cc:48-50 | writes the code point's UTF-8 encoding after the first size bytes and advances size by its length |
| UtfStringConversions.DoUtf16Conversion | win/winbase/strings/utf_string_conversions.cc:83-123 | the buffer holds exactly the in-order UTF-8 encodings of the decoded code points (U+FFFD for unpaired surrogates); success iff no substitution |
| UtfStringConversions.Widen | win/winbase/strings/utf_string_conversions.cc:131 | copies each byte to a UTF-16 unit of the same value |
| UtfStringConversions.Narrow | win/winbase/strings/utf_string_conversions.cc:131 | copies each unit below 0x100 to a byte of the same value |
| UtfStringConversions.Utf8AsciiFastPathAgrees | win/winbase/strings/utf_string_conversions.cc:129-133 | on ASCII input the fast path's copy equals the full conversion, which succeeds |
| UtfStringConversions.IsStringAscii | win/winbase/strings/utf_string_conversions.cc:130 | a string is ASCII exactly when every unit is a code point whose UTF-8 encoding is one byte |
| UtfStringConversions.SizeCoefficient | win/winbase/strings/utf_string_conversions.cc:20-37 | the coefficient bounds, for every code point, how many destination units its encoding takes per source unit (also for U+FFFD replacing one UTF-16 unit), and the bound is reached |
| UtfStringConversions.Utf16AsciiFastPathAgrees | win/winbase/strings/utf_string_conversions.cc:129-133 | on ASCII input the fast path's copy equals the full conversion, which succeeds |
| UtfStringConversions.Utf8ToUtf16Conversion | win/winbase/strings/utf_string_conversions.cc:128-152 | result and output are the conversion's; ASCII is copied unit for unit; the output is at most one unit per input byte |
| UtfStringConversions.Utf16ToUtf8Conversion | win/winbase/strings/utf_string_conversions.cc:128-152 | result and output are the conversion's; ASCII is copied unit for unit; the output is at most three bytes per input unit |
| UtfStringConversions.UTF8ToUTF16 | win/winbase/strings/utf_string_conversions.cc:158-160 | true iff the input is well-formed UTF-8; the output is the conversion |
| UtfStringConversions.UTF8ToUTF16Piece | win/winbase/strings/utf_string_conversions.cc:162-168 | the conversion's output, the flag ignored |
| UtfStringConversions.UTF16ToUTF8 | win/winbase/strings/utf_string_conversions.cc:170-172 | true iff the input is well-formed UTF-16; the output is the conversion |
| UtfStringConversions.UTF16ToUTF8Piece | win/winbase/strings/utf_string_conversions.cc:174-180 | the conversion's output, the flag ignored |
| UtfStringConversions.Utf8ToUtf16OfEncoding | win/winbase/strings/utf_string_conversions.cc:60-80 | converting an encoded scalar value followed by more bytes emits its UTF-16 encoding and then the conversion of the rest |
| UtfStringConversions.Utf16ToUtf8OfEncoding | win/winbase/strings/utf_string_conversions.cc:83-123 | converting an encoded scalar value followed by more units emits its UTF-8 encoding and then the conversion of the rest |
| UtfStringConversions.Utf16ToUtf8ToUtf16 | win/winbase/strings/utf_string_conversions.cc:158-180 | well-formed UTF-16 converted to UTF-8 and back is unchanged, and both conversions succeed |
| UtfStringConversions.Utf8ToUtf16ToUtf8 | win/winbase/strings/utf_string_conversions.cc:158-180 | well-formed UTF-8 converted to UTF-16 and back is unchanged, and both conversions succeed |
| UtfStringConversions.ASCIIToUTF16 | win/winbase/strings/utf_string_conversions.cc:182-192 | one unit per byte, same length |
| UtfStringConversions.UTF16ToASCII | win/winbase/strings/utf_string_conversions.cc:194-204 | one byte per unit, same length |
| UtfStringConversions.AsciiToUtf16AgreesWithUtf8 | win/winbase/strings/utf_string_conversions.cc:182-192 | on ASCII input ASCIIToUTF16 equals the UTF-8 conversion |
| UtfStringConversions.Utf16ToAsciiAgreesWithUtf8 | win/winbase/strings/utf_string_conversions.cc:194-204 | on ASCII input UTF16ToASCII equals the UTF-16 conversion |
| UtfStringConversions.AsciiRoundTrip | win/winbase/strings/utf_string_conversions.cc:182-204 | UTF16ToASCII undoes ASCIIToUTF16 on every byte string, including bytes of 0x80 and above |
| UtfStringConversions.Utf16AsciiRoundTrip | win/winbase/strings/utf_string_conversions.cc:182-204 | ASCIIToUTF16 undoes UTF16ToASCII exactly on units below 0x80 or at least 0xFF80 |
| Files.ErrorToString | winlib/winbase/files/file.cc:83-125 | empty exactly for FILE_ERROR_MAX; every other name starts with "FILE_" |
| Files.ErrorNamed | winlib/winbase/files/file.cc:83-125 | reading a name never gives FILE_ERROR_MAX |
| Files.ErrorNameRoundTrip | winlib/winbase/files/file.cc:83-125 | every error except FILE_ERROR_MAX is recovered from its name, and the empty string names nothing |
| Files.ErrorNamesDistinct | winlib/winbase/files/file.cc:83-118 | the names of two errors other than FILE_ERROR_MAX are equal iff the errors are |
| Files.ReferencesParent | winlib/winbase/files/file.cc:72 | a path that references its parent has at least two characters and contains a dot |
| Files.ParentComponentIsReferenced | winlib/winbase/files/file.cc:72 | `..` alone, as the last component, or between two others references the parent |
| Files.Info.constructor | winlib/winbase/files/file.cc:15-19 | size 0, not a directory, not a symbolic link |
| Files.File.IsValid | winlib/winbase/files/file.cc:37 | true iff a platform file is held in `file_` (the accessor is declared in file.h, which is not part of this model) |
| Files.File.constructor | winlib/winbase/files/file.cc:23-27 | no platform file, so not valid; FILE_ERROR_FAILED; created and async false |
| Files.File.Open | winlib/winbase/files/file.cc:29-32 | a parent-referencing path gives FILE_ERROR_ACCESS_DENIED without opening; otherwise the open outcome is recorded and the tracing path set if tracing is on; the file is valid iff the path was accepted and the open succeeded |
| Files.File.FromPlatformFile | winlib/winbase/files/file.cc:34 | holds the platform file, so valid iff one was given; FILE_OK; created and async false |
| Files.File.FromPlatformFileAsync | winlib/winbase/files/file.cc:36-41 | holds the platform file, so valid iff one was given; FILE_OK; created false and async as given |
| Files.File.FromError | winlib/winbase/files/file.cc:43-47 | records the error; no platform file, so not valid; created and async false |
| Files.File.Move | winlib/winbase/files/file.cc:49-54 | takes the source's platform file and validity, leaving the source invalid, and copies its tracing path, error, created and async |
| Files.File.Close | winlib/winbase/files/file.cc:58 | no platform file afterwards, so not valid; nothing else changes |
| Files.File.Destroy | winlib/winbase/files/file.cc:56-59 | closes the file, leaving it invalid; nothing else changes |
| Files.File.TakePlatformFile | winlib/winbase/files/file.cc:50 | returns the platform file (some handle iff the file was valid) and leaves none; nothing else changes |
| Files.File.SetPlatformFile | winlib/winbase/files/file.cc:63 | holds the given platform file, so valid iff one was given; nothing else changes |
| Files.File.MoveAssign | winlib/winbase/files/file.cc:61-69 | closes the target, then takes the source's platform file and validity, leaving the source invalid, and copies its fields; self-assignment closes the file |
| Files.File.DoInitialize | winlib/winbase/files/file.cc:80 | an opened outcome sets the handle, FILE_OK, created and async; a failed one sets the error and no handle |
| Files.File.Initialize | winlib/winbase/files/file.cc:71-81 | a parent-referencing path sets FILE_ERROR_ACCESS_DENIED and changes nothing else; otherwise it sets the tracing path when tracing is on and records the open outcome |
| ScopedTempDirs.ScopedTempDir.constructor | win/crbase/files/scoped_temp_dir.cc:12-13 | holds no directory |
| ScopedTempDirs.ScopedTempDir.CreateUniqueTempDir | win/crbase/files/scoped_temp_dir.cc:20-31 | refused and unchanged while a directory is held; otherwise succeeds iff a directory was made, and then holds it |
| ScopedTempDirs.ScopedTempDir.CreateUniqueTempDirUnderPath | win/crbase/files/scoped_temp_dir.cc:33-48 | the same guard; fails if the base cannot be created; otherwise succeeds iff a directory was made under it, and then holds it |
| ScopedTempDirs.ScopedTempDir.Set | win/crbase/files/scoped_temp_dir.cc:50-59 | succeeds iff nothing is held and the directory exists or can be created; then holds the given path, else unchanged |
| ScopedTempDirs.ScopedTempDir.Delete | win/crbase/files/scoped_temp_dir.cc:61-72 | false when nothing is held; otherwise the deletion's answer, and the path is cleared iff it succeeded |
| ScopedTempDirs.ScopedTempDir.Take | win/crbase/files/scoped_temp_dir.cc:74-78 | returns the held path and holds nothing |
| ScopedTempDirs.ScopedTempDir.IsValid | win/crbase/files/scoped_temp_dir.cc:80-82 | true only while a path is held |
| ScopedTempDirs.ScopedTempDir.Destroy | win/crbase/files/scoped_temp_dir.cc:15-18 | deletion is attempted iff a path is held; the path is cleared iff that deletion succeeded |
| AtomicSequenceNumbers.Int32Wrap | win/winbase/atomic/atomic_sequence_num.h:26-29 | the int value after counting k from 0: in the int32 range and congruent to k modulo 2^32 |
| AtomicSequenceNumbers.FirstIsZero | win/winbase/atomic/atomic_sequence_num.h:24-29 | the first number is 0 |
| AtomicSequenceNumbers.NthIsN | win/winbase/atomic/atomic_sequence_num.h:24-26 | before the counter wraps, the k-th number (0-based) is k |
| AtomicSequenceNumbers.Increasing | win/winbase/atomic/atomic_sequence_num.h:14-26 | before the counter wraps, the numbers strictly increase |
| AtomicSequenceNumbers.Distinct | win/winbase/atomic/atomic_sequence_num.h:14-26 | any 2^32 consecutive calls return pairwise distinct numbers |
| AtomicSequenceNumbers.WrapStep | win/winbase/atomic/atomic_sequence_num.h:26 | one more call moves to the next int, and from INT_MAX to INT_MIN |
| AtomicSequenceNumbers.AtomicSequenceNumber.constructor | win/winbase/atomic/atomic_sequence_num.h:19-29 | the counter starts at 0 |
| AtomicSequenceNumbers.AtomicSequenceNumber.GetNext | win/winbase/atomic/atomic_sequence_num.h:26 | returns the current counter, which is the wrapped count of earlier calls, and advances it by one |

## Left out

- Concurrency: the atomics of `AtomicRefCount`, `RefCountedThreadSafeBase` and `AtomicSequenceNumber::GetNext` are modelled as sequential steps. Memory ordering is not modelled.
- `RefCountedThreadSafeBase`: `AtomicRefCount` is not part of this model, so its count is an unbounded integer. `RefCountedThreadSafeBase::HasOneRef` is only declared in the source and is not modelled.
- The DCHECK-only state of `RefCountedBase` (`needs_adopt_ref_`, `in_dtor_`, the sequence checker) and `Adopted` are compiled out in the source and are not modelled.
- RefCounting.RefCounted.Release and RefCounting.RefCountedThreadSafe.Release: they require that the object was not already destroyed. A call after destruction is a use-after-free in the source.
- RefCounting.RefCountedData.Default: Dafny has no value-initialisation of an arbitrary `T`, so the caller supplies `T()`.
- Invocation through `polymorphic_invoke_` is not modelled: a function pointer is an opaque `FuncId`. The cancellation predicate's answer is a parameter of `IsCancelled`.
- `holders` is ghost bookkeeping, with no counterpart in the source. A valid handle is counted in its own bind state's holders; that it is counted in no other state is not stated.
- The C++ template machinery of `IsMoveOnlyType` / `CallbackParamTraits` is not modelled. They are functions over `TypeDesc`, and whether a class carries the `MoveOnlyTypeForCPP03` sentinel is a flag of the type description.
- `scoped_refptr`, `WeakPtr` and `SupportsWeakPtr` are not part of this model. The iterator's list reference is a plain reference that stays live; a list destroyed under a live iterator is not modelled.
- `ObserverList::Iter::operator*` and `operator->` are not modelled separately: they are the read `Current`.
- `ObserverList::Iter::operator=` is not modelled. It is a copy-and-swap, which amounts to `Copy` of the source followed by `Dispose` of the old target.
- ObserverLists.ObserverList.Compact: it accepts a list in the middle of a removal (the same observers, not yet valid). The `DCHECK`s on the policy (`allow_reentrancy`) are preconditions of `Begin` and of the iterator constructor.
- `size_t` overflow of `index_` is not modelled; `SIZE_MAX` is a constant.
- `CBU8_NEXT` is not part of this model. Which bytes a malformed UTF-8 sequence consumes is the abstract `MalformedPolicy`. The model therefore does not say how many U+FFFD a malformed run produces.
- `ReadUnicodeCharacter` and `WriteUnicodeCharacter` are only declared in the header. They are modelled from their documented contracts on top of the same decoders, and their int32 index arithmetic is not modelled.
- `PrepareForUTF8Output` and `PrepareForUTF16Output` are not modelled: they only reserve capacity.
- `UTFConversion` truncates the source length to `int32_t`. Inputs of 2^31 units or more are not modelled.
- `shrink_to_fit` and `std::string` capacity are not modelled.
- Files.ReferencesParent: `FilePath::ReferencesParent` is not part of this model. It is approximated as "some component separated by `\` or `/` is exactly `..`", without the trimming of trailing spaces and dots that Windows applies.
- `::SetLastError`, the file-tracing scope and `FileTracing::IsCategoryEnabled` are not modelled; the latter is a parameter.
- The platform calls behind `DoInitialize`, `Close` and `TakePlatformFile` are not modelled. Their outcome is a parameter, or only their effect on the fields.
- The `flags` argument of `File(path, flags)` is passed on to `DoInitialize` unread.
- The time fields of `File::Info` are not modelled.
- ScopedTempDirs.ScopedTempDir.CreateUniqueTempDir and ScopedTempDirs.ScopedTempDir.CreateUniqueTempDirUnderPath: the helpers that create directories are not part of this model. A failed creation is modelled as leaving `path_` empty. The name prefixes (`scoped_dir`, `scoped_dir_`) are not modelled.
- `ScopedTempDir`'s warning log on a failed deletion in the destructor is not modelled.
