# mart-common core in Dafny

This project models the value and state logic of the mart-common C++ library and proves properties about it:

- `StringView`, a non-owning character view. The model covers `substr`, `split`, `find`, `find_if`, `substr_sentinel`, `compare` and the relational operators, and the decimal parsers `to_integral` and `to_integral_unsafe`.
- The checked narrowing cast `narrow` in `utils.h`, together with `narrow_cast`, its sign check and `toUType`.
- `Optional<T>`, a value plus a validity flag.
- `EnumIdxArray<T, ENUM, N>`, an array indexed by enumerators.
- The counting iterator `IIterator`, the `irange` builders and `EndAwareIterator` from `ranges.h`.
- The TCP `Socket` and `Acceptor` wrappers of `experimental/network/tcp.h`. Every operating-system call becomes a parameter that holds the call's result.

Modules:

| module | file | models |
|---|---|---|
| `Wrappers` | `wrappers.dfy` | the exceptions the core throws (`out_of_range`, `invalid_argument`, `narrowing_error`) and a `Result` type that carries them |
| `Arithmetic` | `arithmetic.dfy` | powers of two and Euclidean remainders, used for the fixed-width arithmetic |
| `StringViews` | `string_view.dfy` | `StringView` as a start address plus the characters covered, with `size_t` taken as 64 bits |
| `ToIntegral` | `to_integral.dfy` | `details_to_integral::core`/`base`, `to_integral`, `to_integral_unsafe` |
| `Utils` | `utils.dfy` | integer types of any width and signedness, `static_cast` as modular conversion, `narrow`, `toUType` |
| `Optionals` | `optional.dfy` | `class Optional` with the fields `data` and `flag` |
| `EnumIdxArrays` | `enum_idx_array.dfy` | `class EnumIdxArray` over an `array<T>` |
| `Ranges` | `ranges.dfy` | `class IIterator`, `irange_t`, `irange`, `EndAwareIterator` |
| `Tcp` | `tcp.dfy` | `class Socket` and `class Acceptor`, specified by pure step functions on their fields |

Methods that change state are proved against pure functions. For example, `Acceptor.ListenOn` ensures that its new fields and its return value are those of `ListenOnStep` applied to the old fields. The lemmas are then proved about the functions. The split of a `StringView` follows the code, not its doc comment: the character at `pos` belongs to neither half.

## Model

| member | source | states |
|---|---|---|
| `StringViews.Substr` | StringView.h:78-87 | succeeds exactly when `[offset, offset+count)` is inside the view, or when count is npos and offset is at most the size; the result starts at `start+offset` and holds the characters `[offset, offset+min(count, size-offset))`; every other request throws out_of_range |
| `StringViews.SubstrAsWritten` | StringView.h:78-87 | the source's arithmetic: throws exactly when the wrapped `offset + count` exceeds the size and count is not npos; on success the view starts at offset and its wrapped end is within the size |
| `StringViews.SubstrAsWrittenAgrees` | StringView.h:80-83 | when `offset + count` does not wrap in `size_t`, the source's arithmetic gives the same success and the same offset and size as `Substr` |
| `StringViews.SubstrAsWrittenWraps` | StringView.h:80-83 | with count npos and offset above 0, the source's arithmetic never throws and builds a view that reaches past the end of the original |
| `StringViews.Split` | StringView.h:98-108 | below the size: halves of lengths `pos` and `size-pos-1` which, with the character at pos between them, make up the view, and start at `start` and `start+pos+1`; at the size or at npos: the whole view and an empty one; otherwise out_of_range |
| `StringViews.FirstFrom` | StringView.h:118 | `std::find_if` from index i: the least index at or after i whose character satisfies p, or the end |
| `StringViews.FindIf` | StringView.h:122-131 | the least index at or after startPos whose character satisfies p; npos exactly when no such index exists, which includes every startPos at or past the size |
| `StringViews.Find` | StringView.h:112-120 | the least index at or after startPos holding c; npos exactly when startPos is at or past the size or c does not occur from startPos on |
| `StringViews.SubstrSentinelAsWritten` | StringView.h:133-136 | `substr(offset, find(sentinel, offset))` over the corrected `Substr`: the intended result when the sentinel is absent or offset is 0 |
| `StringViews.SubstrSentinelAsWrittenMiscounts` | StringView.h:133-136 | when offset is above 0 and the sentinel is found at p, the source throws unless `offset+p` fits; when it does not throw, the view has length p and contains the sentinel; in both cases it differs from the intended result |
| `StringViews.SubstrSentinel` | StringView.h:133-136 | succeeds exactly when offset is at most the size; the result starts at offset, holds no sentinel, and ends at the end of the view or just before a sentinel |
| `StringViews.TraitsCompare` | StringView.h:167 | `char_traits::compare` over n characters: 0 exactly when the first n characters agree, normalised to -1, 0 or 1 |
| `StringViews.CompareCharsIsLexicographic` | StringView.h:167-177 | comparing the common prefix and then the sizes is negative, zero or positive exactly when the contents are lexicographically less, equal or greater |
| `StringViews.CompareAsWritten` | StringView.h:162-178 | the source's compare: 0 for any two views with one start, whatever their sizes; otherwise the same as the corrected `Compare` |
| `StringViews.CompareAsWrittenIgnoresSize` | StringView.h:164-166 | two coherent views with one start, where one is a proper prefix of the other, compare equal as written but -1 when corrected |
| `StringViews.Compare` | StringView.h:162-178 | -1, 0 or 1; on coherent views, negative, zero and positive mean lexicographically less, equal and greater contents |
| `StringViews.Equal` | StringView.h:182 | `==` over the corrected compare: on coherent views, exactly when the contents are equal |
| `StringViews.NotEqual` | StringView.h:183 | `!=`: on coherent views, exactly when the contents differ |
| `StringViews.Less` | StringView.h:184 | `<` over the corrected compare: on coherent views, exactly when the contents are lexicographically less |
| `StringViews.Greater` | StringView.h:185 | `>`: on coherent views, exactly when the contents are lexicographically greater |
| `StringViews.LessEq` | StringView.h:186 | `<=`: on coherent views, exactly when the contents are lexicographically less or equal |
| `StringViews.GreaterEq` | StringView.h:187 | `>=`: on coherent views, exactly when the contents are lexicographically greater or equal |
| `StringViews.OperatorsAsWrittenMisorder` | StringView.h:162-187 | over the source's compare, `==` holds between "a" and "ab" at one address, and `<` is not transitive on the pairwise coherent views "a"@1, "aa"@2, "ab"@1 |
| `StringViews.LessIsStrictTotalOrder` | StringView.h:184 | `<` over the corrected compare is irreflexive, transitive and total on pairwise coherent views |
| `ToIntegral.DigitPrefix` | StringView.h:218-222 | the prefix that `core` reads: all digits, and followed by the end or a non-digit |
| `ToIntegral.DigitPrefixIs` | StringView.h:218-222 | a digit prefix that stops at the end or at a non-digit is the one `core` reads |
| `ToIntegral.Core` | StringView.h:214-232 | the value of the longest leading digit prefix, or out_of_range exactly when that value exceeds `numeric_limits<T>::max()`; the loop's quick check never lets an overflow through |
| `ToIntegral.Parse` | StringView.h:234-265 | 0 for the empty view; any error is out_of_range; a result lies within ±max, and is negative only for a signed T and a leading '-' |
| `ToIntegral.ParseAsWritten` | StringView.h:234-256 | after a sign, `core` reads on past the view into the characters that follow it in memory; without a sign, and on the empty view, the same as `Parse` |
| `ToIntegral.ParseAsWrittenAgrees` | StringView.h:234-256 | when the view is followed in memory by the end or a non-digit, the over-read changes nothing and the result is `Parse` |
| `ToIntegral.ParseAsWrittenOverReads` | StringView.h:240 | the view "+1" followed in memory by "2\0" parses as 12 as written, and as 1 intended |
| `ToIntegral.CoreOfRest` | StringView.h:240 | `core` on the corrected `substr(1)`: the same result as on the characters after the first |
| `ToIntegral.Base` | StringView.h:234-256 | on a non-empty view: a leading '+' is skipped, and for a signed T a leading '-' negates the result of `core`; otherwise `core` on the whole view |
| `ToIntegral.ToIntegral` | StringView.h:259-265 | is `Parse`: 0 for the empty view, otherwise `base` |
| `ToIntegral.DecimalStringValue` | StringView.h:228 | the digits `core` accumulates, read back from the decimal text of n, give n |
| `ToIntegral.ParseDecimalString` | StringView.h:214-265 | parsing the decimal text of n, optionally signed and followed by a non-digit, gives n or -n when n fits in T and out_of_range otherwise; an unsigned T does not accept '-' and gives 0 |
| `ToIntegral.WrapSigned` | StringView.h:271 | storing an int into a signed T narrower than int: a value in `[-(max+1), max]` |
| `ToIntegral.UnsafeIsDecimal` | StringView.h:268-272 | folding `sum*10 + c - '0'` over digits and storing each step in T gives the decimal value as T holds it: modulo max+1 for an unsigned T, wrapped into range for a signed T narrower than int, exact for int and wider |
| `ToIntegral.ToIntegralUnsafe` | StringView.h:268-272 | `to_integral_unsafe` on an all-digit view is its decimal value as T holds it |
| `ToIntegral.UnsafeWrapsNarrowSigned` | StringView.h:268-272 | for a signed char, "200" gives -56 |
| `Utils.Cast` | utils.h:16 | `static_cast` between integer types: a value of the target type, congruent to x modulo 2^bits, and x itself when x fits |
| `Utils.NarrowCast` | utils.h:12-17 | `narrow_cast` is that cast: congruent modulo 2^bits, and the same value when it fits |
| `Utils.SignCheck` | utils.h:27-43 | does not throw for types of the same signedness; for different signedness, throws exactly when one of t and u is negative and the other is not |
| `Utils.Narrow` | utils.h:50-64 | succeeds exactly when x is representable in T, returning x itself; otherwise throws narrowing_error |
| `Utils.NarrowIsExact` | utils.h:27-43 | the sign check and the round trip back to U together reject exactly the values T cannot represent |
| `Utils.SignCheckIsNeeded` | utils.h:32-33 | narrowing -1 from int8 to uint16 survives the round trip (65535 casts back to -1); only the sign check throws |
| `Utils.ToUType` | utils.h:71-72 | the enumerator's value, in range of its underlying type and unchanged by a cast to that type |
| `Optionals.Optional.Empty` | experimental/Optional.h:37 | a default-constructed Optional is invalid and `getData` throws |
| `Optionals.Optional.Of` | experimental/Optional.h:38-39 | constructed from v: valid, and `getData` returns v |
| `Optionals.Optional.CopyOf` | experimental/Optional.h:41-42 | the copy has the same data, flag and `getData` result |
| `Optionals.Optional.AssignFrom` | experimental/Optional.h:43-44 | after assignment both fields and `getData` are those of the source |
| `Optionals.Optional.GetData` | experimental/Optional.h:30-34 | returns data exactly when valid, and throws invalid_argument otherwise |
| `Optionals.Optional.SetData` | experimental/Optional.h:51-54 | afterwards valid, holding v, and `getData` returns v |
| `Optionals.Optional.Value` | experimental/Optional.h:56-57 | `operator*` returns data unchecked, which when valid is what `getData` returns |
| `Optionals.Optional.IsValid` | experimental/Optional.h:63 | `isValid()` exactly when `getState()` is Valid |
| `Optionals.Optional.ToBool` | experimental/Optional.h:61-63 | `operator bool`, `isValid()` and `getState() == Valid` agree |
| `EnumIdxArrays.ToIdx` | include/mart-common/enum/EnumIdxArray.h:61-63 | the underlying value converted to `size_t`: itself when it is in `[0, 2^64)`, plus 2^64 when it is negative |
| `EnumIdxArrays.ToIdxInjective` | include/mart-common/enum/EnumIdxArray.h:61-63 | distinct enumerators of one enum, whose underlying type is at most 64 bits wide, get distinct indexes |
| `EnumIdxArrays.NegativeEnumeratorIndex` | include/mart-common/enum/EnumIdxArray.h:61-63 | a negative enumerator gets an index of at least 2^63 |
| `EnumIdxArrays.EnumIdxArray.constructor` | include/mart-common/enum/EnumIdxArray.h:46 | N elements, each value-initialised |
| `EnumIdxArrays.EnumIdxArray.FromElements` | include/mart-common/enum/EnumIdxArray.h:54-58 | the arguments in order as elements 0, 1, …, and the remaining elements value-initialised |
| `EnumIdxArrays.EnumIdxArray.CopyOf` | include/mart-common/enum/EnumIdxArray.h:47-48 | a new array with the same elements |
| `EnumIdxArrays.EnumIdxArray.AssignFrom` | include/mart-common/enum/EnumIdxArray.h:49-50 | the elements become those of the source |
| `EnumIdxArrays.EnumIdxArray.At` | include/mart-common/enum/EnumIdxArray.h:68-69 | the element at `toIdx(e)`, or out_of_range exactly when `toIdx(e) >= N` |
| `EnumIdxArrays.EnumIdxArray.Get` | include/mart-common/enum/EnumIdxArray.h:72 | for an index below N, the element `at` returns |
| `EnumIdxArrays.EnumIdxArray.Set` | include/mart-common/enum/EnumIdxArray.h:71 | writing through `operator[]` changes slot `toIdx(e)` and no other, and `at(e)` then returns the new value |
| `EnumIdxArrays.EnumIdxArray.SetAt` | include/mart-common/enum/EnumIdxArray.h:68 | writing through `at` changes only slot `toIdx(e)`, or throws out_of_range and changes nothing |
| `EnumIdxArrays.SetLeavesOthers` | include/mart-common/enum/EnumIdxArray.h:71 | after a write through one enumerator, every other enumerator of the enum reads what it read before |
| `Ranges.IIterator.constructor` | include/mart-common/ranges.h:99-100 | holds the given value |
| `Ranges.IIterator.Default` | include/mart-common/ranges.h:99-100 | holds T(), that is, 0 |
| `Ranges.IIterator.Increment` | include/mart-common/ranges.h:105-109 | one more, and returns the iterator itself |
| `Ranges.IIterator.PostIncrement` | include/mart-common/ranges.h:110 | one more, and returns a new iterator holding the old value |
| `Ranges.IIterator.Decrement` | include/mart-common/ranges.h:112-116 | one less, and returns the iterator itself |
| `Ranges.IIterator.PostDecrement` | include/mart-common/ranges.h:117 | one less, and returns a new iterator holding the old value |
| `Ranges.IIterator.AddAssign` | include/mart-common/ranges.h:119-123 | shifted by diff, and returns the iterator itself |
| `Ranges.IIterator.SubAssign` | include/mart-common/ranges.h:124-128 | shifted back by diff, and returns the iterator itself |
| `Ranges.IIterator.Index` | include/mart-common/ranges.h:130 | diff beyond the iterator's value, read without moving it |
| `Ranges.Equal` | include/mart-common/ranges.h:133 | `==` exactly when the iterators dereference to the same value |
| `Ranges.NotEqual` | include/mart-common/ranges.h:132 | `!=` exactly when they dereference to different values |
| `Ranges.Less` | include/mart-common/ranges.h:134 | `<` exactly when l dereferences to the smaller value |
| `Ranges.LessEq` | include/mart-common/ranges.h:135 | `<=` exactly when l's value is at most r's |
| `Ranges.Greater` | include/mart-common/ranges.h:136 | `>` exactly when l dereferences to the larger value |
| `Ranges.GreaterEq` | include/mart-common/ranges.h:137 | `>=` exactly when l's value is at least r's |
| `Ranges.ComparisonsFollowValues` | include/mart-common/ranges.h:132-137 | the six comparisons order iterators as their integers: trichotomy, with `!=`, `<=`, `>=` and `>` as negations and swaps |
| `Ranges.Distance` | include/mart-common/ranges.h:142 | zero exactly for equal iterators, positive exactly when l is greater |
| `Ranges.Plus` | include/mart-common/ranges.h:139-140 | a new iterator whose distance from l is n |
| `Ranges.Minus` | include/mart-common/ranges.h:143 | a new iterator from which l is n steps away |
| `Ranges.IRange.Begin` | include/mart-common/ranges.h:176 | a new iterator at the start |
| `Ranges.IRange.End` | include/mart-common/ranges.h:177 | a new iterator one past the last value |
| `Ranges.Values` | include/mart-common/ranges.h:171-181 | the values a range covers: `pastEnd - start` of them, the k-th being `start + k` |
| `Ranges.ValuesAreInterval` | include/mart-common/ranges.h:171-181 | an integer is among the values exactly when it lies in `[start, pastEnd)` |
| `Ranges.Iterate` | include/mart-common/ranges.h:171-181 | the loop `for (it = begin(); it != end(); ++it)` visits exactly the values of the range, in order |
| `Ranges.IRangeFromTo` | include/mart-common/ranges.h:204-208 | begins at start and ends at end, covering `start, start+1, …, end-1` |
| `Ranges.IRangeTo` | include/mart-common/ranges.h:210-214 | begins at 0 and ends at end, covering `0, …, end-1` |
| `Ranges.IRangeOfContainer` | include/mart-common/ranges.h:216-223 | spans `[0, size())`: covers exactly the container's indexes |
| `Ranges.IRangeOfArray` | include/mart-common/ranges.h:225-229 | spans `[0, N)`: covers exactly the array's indexes |
| `Ranges.MakeEndAware` | include/mart-common/ranges.h:152-158 | keeps the iterator; `is_end()` exactly when it equals `c.end()`, and `operator bool` is its negation |
| `Ranges.EndAwareOverRange` | include/mart-common/ranges.h:149-162 | over an irange, an end-aware iterator constructed at a position converts to true exactly when that position is one of the range's values; `_is_end` is fixed at construction and `++` does not update it |
| `Tcp.OpenedIfNecessary` | include/mart-common/experimental/network/tcp.h:100-103 | a valid handle is kept; otherwise the newly created one is installed |
| `Tcp.OpenIfNecessaryValid` | include/mart-common/experimental/network/tcp.h:100-103 | after opening if necessary, and so after connect or bind, the handle is valid exactly when it was before or the new one is; opening twice is opening once |
| `Tcp.ConnectStep` | include/mart-common/experimental/network/tcp.h:65-73 | connect always records ep as the remote endpoint, takes the local endpoint from getsockname only when that is valid, and succeeds exactly when the connect call returns 0 |
| `Tcp.SocketBindStep` | include/mart-common/experimental/network/tcp.h:74-79 | Socket::bind records ep as the local endpoint before, and whatever the result of, the bind call, and succeeds exactly when that call returns 0 |
| `Tcp.Unsent` | include/mart-common/experimental/network/tcp.h:80-88 | after ret bytes are sent, the rest of the data, of length `len - ret`, that follows the sent bytes; nothing when ret is negative |
| `Tcp.UnsentTwice` | include/mart-common/experimental/network/tcp.h:80-88 | two partial sends leave what one send of both counts leaves, and the sent bytes followed by the rest are the data |
| `Tcp.Socket.constructor` | include/mart-common/experimental/network/tcp.h:44 | no handle and default endpoints |
| `Tcp.Socket.FromEndpoint` | include/mart-common/experimental/network/tcp.h:46-50 | a default socket after bind(ep) |
| `Tcp.Socket.MoveFrom` | include/mart-common/experimental/network/tcp.h:51-57 | takes the three fields and resets the source to `Socket{}` |
| `Tcp.Socket.MoveAssign` | include/mart-common/experimental/network/tcp.h:58-64 | takes the three fields and leaves the source with no handle and default endpoints |
| `Tcp.Socket.OpenIfNecessary` | include/mart-common/experimental/network/tcp.h:100-103 | the fields become `OpenedIfNecessary` of the old ones |
| `Tcp.Socket.Connect` | include/mart-common/experimental/network/tcp.h:65-73 | the fields and the result are those of `ConnectStep` |
| `Tcp.Socket.Bind` | include/mart-common/experimental/network/tcp.h:74-79 | the fields and the result are those of `SocketBindStep` |
| `Tcp.Socket.Send` | include/mart-common/experimental/network/tcp.h:80-88 | returns `Unsent(data, ret)` |
| `Tcp.OpenStep` | include/mart-common/experimental/network/tcp.h:148-158 | from any state, replaces the handle; open when the new handle is valid, closed otherwise; the endpoint stays |
| `Tcp.BindStep` | include/mart-common/experimental/network/tcp.h:159-169 | refused without any change unless open; from open, records ep and becomes bound when the bind call returns 0, and otherwise changes nothing |
| `Tcp.ListenStep` | include/mart-common/experimental/network/tcp.h:170-179 | refused without any change unless bound; from bound, listening when the listen call returns 0 and still bound otherwise |
| `Tcp.ListenFromBound` | include/mart-common/experimental/network/tcp.h:195-197 | the tail from `case bound`: succeeds exactly when the acceptor is bound and listen returns 0, then listening; otherwise unchanged |
| `Tcp.ListenFromOpen` | include/mart-common/experimental/network/tcp.h:192-197 | the tail from `case open`: succeeds exactly when open and both calls return 0; unchanged unless the bind succeeds, then on ep and bound or listening |
| `Tcp.ListenFromClosed` | include/mart-common/experimental/network/tcp.h:189-197 | the tail from `case closed`: the new handle is installed; closed, open, bound or listening according to the first call that fails; on ep once the bind succeeds; true exactly when all three calls succeed |
| `Tcp.ListenOnStep` | include/mart-common/experimental/network/tcp.h:181-201 | listen_on returns true exactly when the acceptor ends in the listening state |
| `Tcp.ListenOnFromListeningReplays` | include/mart-common/experimental/network/tcp.h:184-197 | from listening, the outcome is that of a closed, default acceptor, whatever the old fields; it succeeds exactly when open, bind and listen all do |
| `Tcp.ListenOnFromBoundKeepsEndpoint` | include/mart-common/experimental/network/tcp.h:195-197 | from bound, listen_on does not rebind to ep: the handle and endpoint stay and only the listen call decides |
| `Tcp.ListenOnSucceeds` | include/mart-common/experimental/network/tcp.h:181-201 | when every system call succeeds, listen_on ends listening with a valid handle, on ep unless it was already bound |
| `Tcp.OperationsKeepConsistent` | include/mart-common/experimental/network/tcp.h:148-201 | open, bind, listen and listen_on keep the invariant that only a closed acceptor lacks a valid handle |
| `Tcp.AcceptStep` | include/mart-common/experimental/network/tcp.h:206-219 | a default socket unless the acceptor's handle and the accepted handle are both valid; then the accepted handle, the acceptor's local endpoint and the peer as remote endpoint |
| `Tcp.MoveAssignAsWritten` | include/mart-common/experimental/network/tcp.h:140-146 | the handle and local endpoint move and the source's endpoint is reset, while both states stay where they were |
| `Tcp.MoveConstructAsWritten` | include/mart-common/experimental/network/tcp.h:133-146 | the target takes all three fields; `other = Acceptor{}` then resets the source's handle and endpoint and leaves its state |
| `Tcp.MoveConstructAsWrittenLosesState` | include/mart-common/experimental/network/tcp.h:133-146 | move-constructing from a listening acceptor leaves the source listening with no handle, which breaks the invariant; a full reset to `Acceptor{}` keeps it |
| `Tcp.MoveAssignAsWrittenLosesState` | include/mart-common/experimental/network/tcp.h:140-146 | moving a listening acceptor onto a default one leaves the target closed while it holds the listening handle, and leaves the source listening with no handle, which breaks the invariant |
| `Tcp.MoveAssignStep` | include/mart-common/experimental/network/tcp.h:133-146 | the target becomes the source and the source becomes `Acceptor{}`, which keeps both consistent |
| `Tcp.Acceptor.constructor` | include/mart-common/experimental/network/tcp.h:125 | closed, with no handle and the default endpoint |
| `Tcp.Acceptor.FromEndpoint` | include/mart-common/experimental/network/tcp.h:127-132 | records ep and then does listen_on(ep); the acceptor is consistent |
| `Tcp.Acceptor.MoveFrom` | include/mart-common/experimental/network/tcp.h:133-139 | takes all three fields and leaves the source as `Acceptor{}`, resetting it with the corrected move assignment |
| `Tcp.Acceptor.MoveAssign` | include/mart-common/experimental/network/tcp.h:140-146 | the fields become those of `MoveAssignStep`, so consistency carries over |
| `Tcp.Acceptor.Open` | include/mart-common/experimental/network/tcp.h:148-158 | the fields and the result are those of `OpenStep`, and the acceptor is consistent |
| `Tcp.Acceptor.Bind` | include/mart-common/experimental/network/tcp.h:159-169 | the fields and the result are those of `BindStep` |
| `Tcp.Acceptor.Listen` | include/mart-common/experimental/network/tcp.h:170-179 | the fields and the result are those of `ListenStep` |
| `Tcp.Acceptor.ListenOn` | include/mart-common/experimental/network/tcp.h:181-201 | the case fall-through gives the fields and the result of `ListenOnStep`; true exactly when listening |
| `Tcp.Acceptor.TryAcceptImpl` | include/mart-common/experimental/network/tcp.h:206-219 | a new socket whose fields are `AcceptStep` of the acceptor's |
| `Tcp.Acceptor.Accept` | include/mart-common/experimental/network/tcp.h:222-227 | the socket `try_accept_impl` returns |
| `Tcp.Acceptor.TryAccept` | include/mart-common/experimental/network/tcp.h:229-233 | the socket `try_accept_impl` returns |

## Left out

- Operating-system calls become parameters holding their results. These are socket creation, `connect`, `bind`, `listen`, `getsockname` (`getSockAddress`), `send` and `accept`. Nothing about the kernel's behaviour is modelled.
- `recv`, `setTxTimeout`, `setRxTimeout`, `setBlocking`, `getSocket` and the blocking and timeout semantics of `accept`/`try_accept`: OS calls and timing.
- Closing and ownership of native handles. `nw::socks::Socket` lives in `Socket.h`, which is not part of this model. A default-constructed or moved-from handle is taken as invalid, and a replaced handle simply disappears.
- Endpoint internals (`toSockAddr_in`, construction from `sockaddr_in`, `parse_v4_endpoint`). `ip.h` is not part of this model. An endpoint is an address, a port and a validity flag, and `endpoint{}` is taken as invalid.
- Tcp.Socket.MoveAssign: self-move is excluded (requires `other != this`), because what a self-moved `nw::socks::Socket` holds depends on `Socket.h`.
- Tcp.Acceptor.MoveAssign: self-move is excluded for the same reason. Its state is moved as the corrected move assignment does (see Findings).
- Tcp.Acceptor.MoveFrom: resets the source with the corrected move assignment, to closed. As written the source keeps its state (see `Tcp.MoveConstructAsWritten`).
- Tcp.Socket.Send: the byte count the OS reports is required to be at most the length of the data; the view's address is not modelled, only its bytes.
- `port_layer.h` and `port_layer.hpp`: platform macros and declarations of native-call wrappers, foreign OS calls only.
- `StringView` `to_string`, `operator<<`, `fromZString`, `isValid`, the `std::hash` specialisation and `substr_predicate`. They are output, C-string length or a hash mixing function with no stated property, and `substr_predicate` has the same shape as `substr_sentinel`.
- StringViews.Substr: computes `offset + count` without wrap-around. The source's wrapping arithmetic is modelled separately (see Findings).
- StringViews.SubstrSentinelAsWritten: passes find's position to the corrected `Substr`, so it is the source's behaviour only where `offset + count` does not wrap; with a found sentinel both are below the size, which holds for views shorter than 2^63.
- StringViews.TraitsCompare, StringViews.Compare: the result is normalised to -1, 0 or 1. `char_traits::compare` promises only the sign, and the source passes its value through unchanged.
- StringViews.Equal, StringViews.NotEqual, StringViews.Less, StringViews.Greater, StringViews.LessEq, StringViews.GreaterEq, StringViews.LessIsStrictTotalOrder: operators over the corrected compare. Over the source's compare `==` and `<` are not equality and order of the contents (see `StringViews.OperatorsAsWrittenMisorder`).
- ToIntegral.CoreOfRest, ToIntegral.Base, ToIntegral.ToIntegral, ToIntegral.ParseDecimalString: use the corrected `substr(1)`, which stops at the end of the view. As written, `core` reads on past the view after a sign (see `ToIntegral.ParseAsWritten`).
- ToIntegral.UnsafeIsDecimal, ToIntegral.ToIntegralUnsafe: for `int` and wider signed types the fold is exact. Their overflow is undefined behaviour in the source and is not modelled. Narrower signed types are computed in `int` and wrapped on every store into T; C++20 defines that wrap, earlier standards leave it implementation-defined. `int` is taken as 32 bits.
- `to_integral` for `bool` and character types, and `narrow` for floating-point types: only integer types other than bool are modelled.
- Utils random helpers (`getRandomEngine`, `getRandomInt`, `getRandomFloat`, `getRandomBool`) and `make_with_capacity`: thread-local randomness, floating point and a call to `reserve`.
- `algorithm.h`: thin wrappers over standard algorithms, not part of this model.
- `Pointer<T>` and `EndAwareIterator<T*>` in `ranges.h`: raw pointer arithmetic, and `Pointer::operator[]` does not type-check as written. `operator->` of IIterator and Optional returns an address and is not modelled.
- Ranges.IIterator.Increment, Ranges.IIterator.PostIncrement, Ranges.IIterator.Decrement, Ranges.IIterator.PostDecrement, Ranges.IIterator.AddAssign, Ranges.IIterator.SubAssign, Ranges.IIterator.Index, Ranges.Distance, Ranges.Plus and Ranges.Minus work on unbounded integers. They do not model wrap-around at the limits of T.
- Ranges.Iterate: requires `start <= end`. With unbounded integers an inverted range never reaches its end; in the source it runs until T wraps.
- EnumIdxArrays.EnumIdxArray.FromElements: requires between 1 and N initialisers, because more do not compile. The value-initialised element T{} is passed as a parameter, as it is for the default constructor.
- The `size_type`, `reference` and iterator typedefs and the rest of the `std::array` interface that EnumIdxArray inherits.

## Findings

| source | as written | input that shows it | evidently intended | confidence | as-written member | corrected member |
|---|---|---|---|---|---|---|
| StringView.h:80 | `offset + count` is computed in `size_t` and wraps when count is npos (`StringViews.SubstrAsWritten`) | `substr(1, npos)` on a view of size 2: `1 + npos` wraps to 0, so the first branch builds a view of npos characters from offset 1; `base` calls `substr(1)` this way for every '+' or '-', so `core` reads past the view: "+1" followed in memory by "2\0" parses as 12 (`ToIntegral.ParseAsWritten`) | the characters from offset to the end of the view | high, not executed | `StringViews.SubstrAsWrittenWraps`, `ToIntegral.ParseAsWrittenOverReads` | `StringViews.Substr` |
| StringView.h:135 | find's absolute position is passed to substr as a count (`StringViews.SubstrSentinelAsWritten`) | `substr_sentinel(1, ',')` on "ab,c": find gives 2, so the result is "b," instead of "b" | count `find(...) - offset`, or to the end when there is no sentinel | high, not executed | `StringViews.SubstrSentinelAsWrittenMiscounts` | `StringViews.SubstrSentinel` |
| StringView.h:164 | the shortcut tests `l.size() == l.size()` (`StringViews.CompareAsWritten`) | "ab" and "abc" viewed from the same address compare equal, so `==` holds between views of different contents | `l.size() == r.size()` | high, not executed | `StringViews.CompareAsWrittenIgnoresSize`, `StringViews.OperatorsAsWrittenMisorder` | `StringViews.Compare` |
| include/mart-common/experimental/network/tcp.h:140-146 | the move assignment moves the handle and the endpoint but not `_state` (`Tcp.MoveAssignAsWritten`); the move constructor resets its source through it, so the source also keeps its state (`Tcp.MoveConstructAsWritten`) | moving a listening acceptor onto `Acceptor{}`: the target is closed while holding the listening handle, and the source is listening with no handle | move `_state` as the move constructor does, and reset the source to closed | high, not executed | `Tcp.MoveAssignAsWrittenLosesState`, `Tcp.MoveConstructAsWrittenLosesState` | `Tcp.MoveAssignStep` |
