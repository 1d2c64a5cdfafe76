# A verified model of the networking exercises' core code

The repository holds course exercises together with the C++ libraries they use: Simple-Web-Server, the buffer classes of asio, a frame simulator, and a quicksort in C. This project models the parts of it that carry real logic and proves what they promise, for every input, every run and every interleaving. Objects that the code updates in place are classes here, loops are loops, and every such method is proved against a function of the values before it; the lemmas are about those functions.

| file | what it models |
|---|---|
| `QuickSort.dfy` | the in-place Lomuto quicksort and its number of comparisons |
| `CrcTable.dfy`, `PolynomialDivision.dfy`, `FrameChecksum.dfy` | the table-driven frame checksum, against polynomial division as clause 3.2.9 of IEEE 802.3-2018 defines it |
| `ScopeRunner.dfy` | the lock-free `ScopeRunner`, as interleavings of atomic steps |
| `SendQueue.dfy` | the send queue of an HTTP response, and runs of sends, completions and callbacks |
| `BufferCopy.dfy` | all overloads of `buffer_copy` over an array of memory |
| `StreamBuffer.dfy` | `basic_streambuf`, a window that slides over a growable array |
| `DynamicBuffers.dfy` | `dynamic_vector_buffer` and `dynamic_string_buffer`, and their equivalence with `basic_streambuf` |
| `HexNumbers.dfy`, `Percent.dfy`, `QueryString.dfy`, `HttpHeader.dfy` | the codecs and parsers of `utility.hpp`, the header printer, and the C library's reading of hexadecimal numbers |
| `HeaderEndMatch.dfy` | the client's resumable matcher for the end of a header |
| `AsioReads.dfy` | `async_read_until` and `async_read` over a connection that delivers octets in pieces of any size |
| `ChunkedReader.dfy`, `ChunkedBody.dfy` | the server's reader of chunked bodies, and what it makes of bodies in the format of section 7.1 of RFC 9112 |
| `Bytes.dfy` | octets, optional values and lines of text |

## Where the code falls short of its promise

Each of these is proved as an exact condition, for all inputs.

- **A `prepare` that throws can damage a streambuf.** `reserve` moves the contents before it throws and leaves the pointers. The contents survive a `prepare` exactly when it succeeds or they repeat with the distance of the move (`StreamBuffer.StreamBuf.Prepare`); `FailedPrepareDamages` is a run in which they do not. `overflow` has no such fault.
- **The header-end matcher misses some header ends.** It stops at the first header end exactly when that is LFLF, or CRLFCRLF whose first CR is the last of an odd number of consecutive CRs (`HeaderEndMatch.StopsAtFirstIff`). CR CR LF CR LF is missed (`MissedHeaderEnd`).
- **Not every field list survives printing and parsing.** Query strings need names that are not empty and free of `&` and `=` (`QueryString.RoundTripIffClean`); header lines need names free of colons and line feeds and values free of line feeds and leading spaces (`HttpHeader.HeaderRoundTripIffClean`). Both conditions are necessary as well as sufficient.
- **Arrival timing can change how a chunk is read.** It makes no difference to a chunk what has arrived if and only if the chunk is refused as too large, or CRLF ended its line, or the connection ends before the chunk does (`ChunkedReader.SteadyAtIff`). A line that a line feed on its own has ended makes the reader lose count: 5 LF 0 CR LF hello CR LF 0 CR LF CR LF is read as hello, or refused as malformed, depending on timing (`ChunkedBody.LoneLineFeed`). The statement covers all inputs, so it has a further case for sizes so large that the sum compared with the maximum wraps around.
- **What came along with the header can change how a body is read.** The octets that came along raise the limit on a chunk's line. A well-formed body within the maximum is read alike whatever came along, up to the room that the header left, if and only if no line has more than 16 octets or some line does not fit even if that much came along (`ChunkedBody.ReadAlikeIff`); `SeventeenDigits` is a body that is refused unless at least 19 of its octets came along.
- **Data can be sent in a different order than it was streamed.** `send` takes the stream buffer before it locks the mutex. The data is written in order, whatever it is, if and only if all calls enqueue in the order in which they took (`SendQueue.DataInOrderIff`); `CrossedSends` is a run in which two calls cross. Taking the buffer is not synchronised, so calls that cross are a data race; clients without one always meet the condition (`SerialisedInOrder`), and their data is written in order (`SerialisedWritesInOrder`).
- **The two dynamic buffers differ** in a `consume` before the first `prepare`, when both the storage and the amount exceed the maximum size (`DynamicBuffers.UnpreparedConsumeAgrees`).

The reader of chunked bodies takes nothing after the last chunk's line: trailers and the final CRLF stay where they are. Any two octets are accepted as the line end after a chunk's data.

## Model

| member | source | states |
|---|---|---|
| QuickSort.Swap | task-2b/qsort.c:3-8 | the array afterwards, also when both indices are the same |
| QuickSort.Partition | task-2b/qsort.c:11-34 | the array and index of the scan that `ScanPartitions` is about, after exactly r - l comparisons |
| QuickSort.ScanPartitions | task-2b/qsort.c:11-34 | from any point of the scan: the pivot ends at the returned index, smaller values are left of it, not smaller ones right, nothing outside l..r changes, and the result is a rearrangement |
| QuickSort.Qsort | task-2b/qsort.c:37-47 | for every array and range: l..r is sorted, a permutation of its old contents, all else unchanged; at most n(n-1)/2 comparisons; termination |
| QuickSort.QsortParts | task-2b/qsort.c:44-45 | the second call sorts what the first has left; the comparisons of each |
| QuickSort.SortingSorts | task-2b/qsort.c:37-47 | the sorting function that `Qsort` is equal to sorts, whatever split each partition returns |
| QuickSort.GlueParts | task-2b/qsort.c:43-45 | sorting the two parts of a partition separately sorts the whole range |
| QuickSort.SortingPairs | task-2b/qsort.c:16-46 | the comparisons never exceed the number of pairs, for every split |
| QuickSort.SortingComparisons | task-2b/qsort.c:16-46 | the same bound in closed form |
| QuickSort.IncreasingIsWorstCase | task-2b/qsort.c:16-46 | the bound is attained on every strictly increasing range |
| QuickSort.WholeArraySorted | task-2b/qsort.c:37-47 | sorting a whole array has one possible result: any sorted rearrangement is that one |
| CrcTable.Entry | task-3a/framework/control.cpp:100-143 | each of the 256 table entries is eight shifts of its index through the reflected polynomial 0xEDB88320 |
| FrameChecksum.RegisterIsRemainder | task-3a/framework/control.cpp:145-155 | feeding bits to the shift register is long division: it holds the remainder by the generator polynomial |
| FrameChecksum.TableStepReadsOctet | task-3a/framework/control.cpp:145-148 | one table lookup equals feeding the eight bits of the octet one by one |
| FrameChecksum.Crc32Step | task-3a/framework/control.cpp:145-148 | the loop body equals the bitwise CRC of one octet |
| FrameChecksum.Crc32Steps | task-3a/framework/control.cpp:150-155 | the loop equals the bitwise CRC of all the octets |
| FrameChecksum.ChecksumIsFrameCheckSequence | task-3a/framework/control.cpp:157-170 | the complemented register is the frame check sequence of clause 3.2.9 of IEEE 802.3-2018, for every frame |
| FrameChecksum.CalculateFrameChecksum | task-3a/framework/control.cpp:157-170 | the function computes that sequence over destination, source, type (high octet first) and data of any length |
| FrameChecksum.FrameLayout | task-3a/framework/control.cpp:160-167 | where destination, source, the two octets of the type (high, then low) and the data lie in what is checked |
| PolynomialDivision.BurstChangesRemainder | task-3a/framework/control.cpp:145-155 | dividends that differ only within as many consecutive coefficients as the generator's degree have different remainders |
| FrameChecksum.BurstDetected | task-3a/framework/control.cpp:145-170 | messages that differ only within 32 consecutive transmitted bits never share a checksum |
| FrameChecksum.FourOctetsDetected | task-3a/framework/control.cpp:145-170 | replacing up to four consecutive octets always changes the checksum, in messages of every length |
| FrameChecksum.ReceiverAcceptsOnlyChecksum | task-3a/framework/control.cpp:157-170 | dividing a frame together with a trailer by the generator leaves all ones if and only if the trailer is what this function computes, so a receiver may check by dividing as well as by computing and comparing |
| ScopeRunner.StepKeepsInv | task-3a/framework/dep/Simple-Web-Server/utility.hpp:434-477 | every atomic step keeps: `count` is the number of live locks, or -1 with none alive; local negative values imply closed |
| ScopeRunner.RunKeepsInv | task-3a/framework/dep/Simple-Web-Server/utility.hpp:434-477 | so does every interleaving of any number of calls, with stale values and spurious failures |
| ScopeRunner.ClosedForever | task-3a/framework/dep/Simple-Web-Server/utility.hpp:456-476 | -1 is absorbing |
| ScopeRunner.AfterStop | task-3a/framework/dep/Simple-Web-Server/utility.hpp:467-476 | once any `stop` has returned no lock is alive and none is granted again |
| ScopeRunner.ReturnsAreJustified | task-3a/framework/dep/Simple-Web-Server/utility.hpp:456-476 | `stop` can close exactly when open with no lock alive; nullptr and an early return of `stop` only after closing |
| ScopeRunner.FailureMeansProgress | task-3a/framework/dep/Simple-Web-Server/utility.hpp:456-466 | a genuine failure of a compare-exchange means another call has written `count` since the value was read |
| ScopeRunner.RunRefinesScope | task-3a/framework/dep/Simple-Web-Server/utility.hpp:434-477 | every run refines a set of locks with an open or closed flag and no counter |
| ScopeRunner.GrantedIff | task-3a/framework/dep/Simple-Web-Server/utility.hpp:456-466 | in every reachable state, an exchange of `continue_lock` succeeds if and only if its value is current and the scope is open |
| ScopeRunner.CanGoOn | task-3a/framework/dep/Simple-Web-Server/utility.hpp:456-476 | a call that has not returned has exactly one genuine action, in every state that satisfies the invariant of `RunKeepsInv` |
| ScopeRunner.ContinueAlone | task-3a/framework/dep/Simple-Web-Server/utility.hpp:456-466 | `continue_lock` running alone from any such state returns within three actions, with a lock exactly if the scope is open |
| ScopeRunner.StopAlone | task-3a/framework/dep/Simple-Web-Server/utility.hpp:468-476 | `stop` running alone with no lock alive returns within three actions and leaves the scope closed |
| SendQueue.StepKeepsInv | task-3a/framework/dep/Simple-Web-Server/server_http.hpp:75-139 | in every step, a take or a critical section, at most one write is in flight, exactly one while the queue is not empty, and it writes the front |
| SendQueue.Response.Write | task-3a/framework/dep/Simple-Web-Server/server_http.hpp:45-55 | streaming appends to the current buffer and to nothing else |
| SendQueue.Response.SendFromQueue | task-3a/framework/dep/Simple-Web-Server/server_http.hpp:75-77 | starts a write of the front |
| SendQueue.Response.Take | task-3a/framework/dep/Simple-Web-Server/server_http.hpp:131-133 | what was streamed is in the entry and no longer in the response; the queue is untouched |
| SendQueue.Response.Enqueue | task-3a/framework/dep/Simple-Web-Server/server_http.hpp:135-138 | the whole new state; a write is started exactly if the queue was empty; the invariant is kept |
| SendQueue.Response.Send | task-3a/framework/dep/Simple-Web-Server/server_http.hpp:130-139 | the whole new state when no other call gets in between; the invariant is kept |
| SendQueue.Response.SelectAll | task-3a/framework/dep/Simple-Web-Server/server_http.hpp:95-101 | all callbacks of the queue that are not null, in order, each for a call with an error |
| SendQueue.Response.OnWriteComplete | task-3a/framework/dep/Simple-Web-Server/server_http.hpp:77-108 | the whole new state; on success the front leaves and its callback is told success, on failure all leave and all callbacks are told failure; the invariant is kept |
| SendQueue.RunIsGood | task-3a/framework/dep/Simple-Web-Server/server_http.hpp:75-139 | in every interleaving of takes, critical sections and callbacks: each call enqueues what it took, once; entries leave in the order of enqueuing and none is lost; writes start in that order; each leaving entry's callback is selected once, is told the result of the completion that selected it, and is called at most once; taking loses no data |
| SendQueue.EveryCallbackOnce | task-3a/framework/dep/Simple-Web-Server/server_http.hpp:75-139 | once the queue has drained, the callbacks selected are exactly those enqueued, in order |
| SendQueue.EverythingWritten | task-3a/framework/dep/Simple-Web-Server/server_http.hpp:75-139 | without failures the writes carried what the calls took, in the order of enqueuing; what was streamed is the same in the order of taking, and what nobody has taken |
| SendQueue.DataInOrderIff | task-3a/framework/dep/Simple-Web-Server/server_http.hpp:131-138 | these two are equal for all data if and only if all calls enqueue in the order in which they took |
| SendQueue.CrossedSends | task-3a/framework/dep/Simple-Web-Server/server_http.hpp:131-138 | a run, for any two pieces of data, that writes them in the wrong order |
| SendQueue.SerialisedInOrder | task-3a/framework/dep/Simple-Web-Server/server_http.hpp:130-139 | if no call takes between another's take and enqueue, calls enqueue in the order in which they took, whatever else happens in between |
| SendQueue.SerialisedWritesInOrder | task-3a/framework/dep/Simple-Web-Server/server_http.hpp:130-139 | then, without failures, the writes carried exactly the data streamed into the response, in order |
| HttpHeader.WriteHeader | task-3a/framework/dep/Simple-Web-Server/server_http.hpp:57-73 | prints every field's line and the blank line; a Content-Length line with the decimal digits of the size is there if and only if the connection stays open, no name is content-length and no field is transfer-encoding: chunked, in any mix of cases |
| HttpHeader.FieldLineIs | task-3a/framework/dep/Simple-Web-Server/server_http.hpp:67 | name, colon, space, value, CRLF |
| HttpHeader.DecimalIsRead | task-3a/framework/dep/Simple-Web-Server/server_http.hpp:70 | the digits printed for a number, read from the left, are that number, without a leading zero |
| BufferCopy.BufferCopy1 | task-3a/framework/dep/asio/include/asio/buffer.hpp:2173-2183 | copies the smaller size; equal to an octet-by-octet copy |
| BufferCopy.CopyOneToOne | task-3a/framework/dep/asio/include/asio/buffer.hpp:2185-2201 | as below, for one buffer on both sides |
| BufferCopy.CopyOneToMany | task-3a/framework/dep/asio/include/asio/buffer.hpp:2203-2224 | as below, for one target buffer |
| BufferCopy.CopyManyToOne | task-3a/framework/dep/asio/include/asio/buffer.hpp:2226-2247 | as below, for one source buffer |
| BufferCopy.CopyManyToMany | task-3a/framework/dep/asio/include/asio/buffer.hpp:2249-2290 | as below, without a maximum; it terminates even with empty buffers |
| BufferCopy.CopyManyToManyMax | task-3a/framework/dep/asio/include/asio/buffer.hpp:2293-2339 | returns the least of both total sizes and the maximum; memory is that of one copy of so many octets between the flattened sequences; it terminates even with empty buffers |
| BufferCopy.BufferCopyMax | task-3a/framework/dep/asio/include/asio/buffer.hpp:2399-2410 | all overloads with a maximum give that same result and memory |
| BufferCopy.BufferCopy | task-3a/framework/dep/asio/include/asio/buffer.hpp:2362-2372 | so do all overloads without one |
| BufferCopy.CopyFrame | task-3a/framework/dep/asio/include/asio/buffer.hpp:2173-2339 | octets that are not in the target's prefix are unchanged |
| BufferCopy.CopyReads | task-3a/framework/dep/asio/include/asio/buffer.hpp:2173-2339 | octets of the target's prefix become those of the source's prefix; where buffers of the target repeat an address the last copy counts |
| BufferCopy.CopyCompose | task-3a/framework/dep/asio/include/asio/buffer.hpp:2250-2290 | copying in pieces is copying once |
| BufferCopy.ChunkCopied | task-3a/framework/dep/asio/include/asio/buffer.hpp:2262-2287 | one pass of the loop extends the copy and moves both cursors to the new position |
| BufferCopy.AddressesAfter | task-3a/framework/dep/asio/include/asio/buffer.hpp:650-683 | `b + n` denotes what is left of the buffer after n octets |
| BufferCopy.OneIsManyOfOne | task-3a/framework/dep/asio/include/asio/buffer.hpp:2362-2410 | choosing the overload for one buffer or for a range of one makes no difference |
| StreamBuffer.StreamBuf.constructor | task-3a/framework/dep/asio/include/asio/basic_streambuf.hpp:131-142 | an empty input sequence and an output sequence of 128 octets, or of the maximum size if that is less |
| StreamBuffer.StreamBuf.Reserve | task-3a/framework/dep/asio/include/asio/basic_streambuf.hpp:308-346 | throws exactly when size() + n > max_size(); otherwise the contents are kept through shift and growth, and the array grows to just what is needed or not at all |
| StreamBuffer.StreamBuf.Prepare | task-3a/framework/dep/asio/include/asio/basic_streambuf.hpp:214-219 | a step of the queue of octets if it does not throw; the contents are the same afterwards if and only if it does not throw or they repeat with the distance of the move |
| StreamBuffer.StreamBuf.Commit | task-3a/framework/dep/asio/include/asio/basic_streambuf.hpp:233-238 | a step of the queue: as much of the output sequence as there is moves behind the input sequence |
| StreamBuffer.StreamBuf.Consume | task-3a/framework/dep/asio/include/asio/basic_streambuf.hpp:247-254 | a step of the queue: as much of the front as there is leaves |
| StreamBuffer.StreamBuf.Underflow | task-3a/framework/dep/asio/include/asio/basic_streambuf.hpp:263-274 | eof exactly when nothing is there; the queue is unchanged |
| StreamBuffer.StreamBuf.Bump | task-3a/framework/dep/asio/include/asio/basic_streambuf.hpp:263-274 | reading a character takes the front octet, also when the get area lags behind what was committed |
| StreamBuffer.StreamBuf.Overflow | task-3a/framework/dep/asio/include/asio/basic_streambuf.hpp:283-306 | throws exactly when size() == max_size(), so the room that shifting gives is always found; the contents then stay as they were |
| StreamBuffer.StreamBuf.ReadSizeHelper | task-3a/framework/dep/asio/include/asio/basic_streambuf.hpp:353-359 | the exact number for some capacity that the vector may have; at least 512 unless less is wanted or possible; it can always be prepared |
| StreamBuffer.TornIffNotPeriodic | task-3a/framework/dep/asio/include/asio/basic_streambuf.hpp:318-326 | what the move leaves in place of the contents equals them if and only if they repeat with its distance |
| StreamBuffer.FailedPrepareDamages | task-3a/framework/dep/asio/include/asio/basic_streambuf.hpp:322-340 | a run in which they are damaged |
| StreamBuffer.RunConserves | task-3a/framework/dep/asio/include/asio/basic_streambuf.hpp:214-346 | in every run: everything committed or put is everything consumed, in order, followed by data() |
| StreamBuffer.RunUpTo | task-3a/framework/dep/asio/include/asio/basic_streambuf.hpp:214-346 | the class itself, driven through any operations up to the first that throws, makes such a run; it stops only at a `prepare` or `overflow` for which there is no room, or at a write beyond what was prepared |
| StreamBuffer.RunAll | task-3a/framework/dep/asio/include/asio/basic_streambuf.hpp:214-346 | so everything that went into it is everything that came out, followed by what it holds |
| DynamicBuffers.DynamicBuffer.Prepare | task-3a/framework/dep/asio/include/asio/buffer.hpp:1987-2001 | throws exactly when the maximum is exceeded, leaving the buffer as it was; otherwise the contents are kept and n octets of room are there |
| DynamicBuffers.DynamicBuffer.Commit | task-3a/framework/dep/asio/include/asio/buffer.hpp:2016-2020 | as much of the prepared room as there is joins the contents, and the rest of it is gone |
| DynamicBuffers.DynamicBuffer.Consume | task-3a/framework/dep/asio/include/asio/buffer.hpp:2065-2077 | as much of the front as there is leaves; before the first `prepare`, exactly which octets are left |
| DynamicBuffers.UnpreparedConsumeAgrees | task-3a/framework/dep/asio/include/asio/buffer.hpp:1792-1804 | before the first `prepare` both kinds consume alike if and only if the storage or the amount is within the maximum |
| DynamicBuffers.ServeFromStreamBuf | task-3a/framework/dep/asio/include/asio/basic_streambuf.hpp:214-254 | for every sequence of prepare, writing into buffers that are still valid, commit and consume in which each commit follows a prepare and commits no more than was written: data(), size() and whether a `prepare` was rejected are those of the common specification |
| DynamicBuffers.ServeFromDynamicBuffer | task-3a/framework/dep/asio/include/asio/buffer.hpp:1987-2077 | the same specification holds of both dynamic buffers, so clients that keep these rules cannot tell them and the streambuf apart |
| HexNumbers.StoulReads | task-3a/framework/dep/Simple-Web-Server/server_http.hpp:628 | every number in every spelling, with digits of either case, leading zeros, white space, a sign or 0x before and anything after, is read as that number, or as out of range from 2^64 on, or as the sum with 2^64 of a negative one |
| HexNumbers.StoulRefuses | task-3a/framework/dep/Simple-Web-Server/server_http.hpp:627-634 | without digits there is no number |
| HexNumbers.StrtolReads | task-3a/framework/dep/Simple-Web-Server/utility.hpp:95-98 | two digits of either case are read as the octet that they spell |
| HexNumbers.StrtolReadsSigned | task-3a/framework/dep/Simple-Web-Server/utility.hpp:96-97 | what else the cast makes of white space, signs and 0x before the digits |
| HexNumbers.StrtolRefuses | task-3a/framework/dep/Simple-Web-Server/utility.hpp:96-97 | without digits the octet is 0 |
| Percent.Encode | task-3a/framework/dep/Simple-Web-Server/utility.hpp:72-86 | the loop computes the encoding that the lemmas below are about |
| Percent.Decode | task-3a/framework/dep/Simple-Web-Server/utility.hpp:89-108 | the loop computes the decoding, of malformed input too |
| Percent.DecodeEncode | task-3a/framework/dep/Simple-Web-Server/utility.hpp:72-108 | decoding undoes encoding, for every octet string |
| Percent.EncodedIsCanonical | task-3a/framework/dep/Simple-Web-Server/utility.hpp:72-86 | encoding emits only unreserved characters (section 2.3 of RFC 3986) and upper-case triplets of others (section 2.1) |
| Percent.EncodeDecode | task-3a/framework/dep/Simple-Web-Server/utility.hpp:72-108 | on such strings encoding undoes decoding, so encoding is a bijection onto them |
| Percent.EncodedLength | task-3a/framework/dep/Simple-Web-Server/utility.hpp:72-86 | the length grows by two for each reserved octet, between the original and three times that |
| Percent.EncodedAlphabet | task-3a/framework/dep/Simple-Web-Server/utility.hpp:72-86 | no delimiter survives encoding, at any position |
| Percent.EncodedCharacter | task-3a/framework/dep/Simple-Web-Server/utility.hpp:72-86 | each character is encoded on its own: letters, digits and - . _ ~ stay, others become % and two upper-case digits |
| Percent.DecodedTriplet | task-3a/framework/dep/Simple-Web-Server/utility.hpp:95-99 | % and two digits of either case are decoded to the octet that they spell |
| Percent.DecodedShort | task-3a/framework/dep/Simple-Web-Server/utility.hpp:95-104 | % without two characters after it stands for itself |
| Percent.DecodedPlus | task-3a/framework/dep/Simple-Web-Server/utility.hpp:101-104 | without %, every plus becomes a space and nothing else changes |
| QueryString.Create | task-3a/framework/dep/Simple-Web-Server/utility.hpp:115-125 | the loop computes the string that the lemmas below are about |
| QueryString.Parse | task-3a/framework/dep/Simple-Web-Server/utility.hpp:128-161 | the scan with its three positions finds the fields of the segments between ampersands |
| QueryString.SegmentsAppend | task-3a/framework/dep/Simple-Web-Server/utility.hpp:128-161 | parsing is compositional: joined strings have the segments of both |
| QueryString.CleanFieldsRoundTrip | task-3a/framework/dep/Simple-Web-Server/utility.hpp:115-161 | fields with clean names come back in order, with arbitrary octets in their values |
| QueryString.RoundTripIffClean | task-3a/framework/dep/Simple-Web-Server/utility.hpp:115-161 | a field list survives as a multiset if and only if every name is non-empty and free of ampersands and equals signs |
| QueryString.CreatedJoins | task-3a/framework/dep/Simple-Web-Server/utility.hpp:119-122 | the fields of two lists are joined by one ampersand, and nothing else is written |
| QueryString.CreatedOne | task-3a/framework/dep/Simple-Web-Server/utility.hpp:120 | one field is its name, an equals sign and its encoded value |
| QueryString.ParsedField | task-3a/framework/dep/Simple-Web-Server/utility.hpp:148-151 | a name ends at the first equals sign; further ones belong to the value, which is decoded |
| QueryString.ParsedName | task-3a/framework/dep/Simple-Web-Server/utility.hpp:139-143 | a name alone has an empty value, and an empty name is no field |
| QueryString.ParsedJoins | task-3a/framework/dep/Simple-Web-Server/utility.hpp:138-147 | ampersands separate fields |
| HttpHeader.InputStream.GetLine | task-3a/framework/dep/Simple-Web-Server/utility.hpp:172 | the line up to LF or the end, and what is left |
| HttpHeader.Parse | task-3a/framework/dep/Simple-Web-Server/utility.hpp:168-182 | the loop computes the fields up to the first line without a colon, and where the stream is left |
| HttpHeader.PrintedFieldsParse | task-3a/framework/dep/Simple-Web-Server/utility.hpp:168-182 | printed lines are parsed as the same names with values stripped of leading spaces, empty values included, leaving the stream after the blank line |
| HttpHeader.ParsedLine | task-3a/framework/dep/Simple-Web-Server/utility.hpp:172 | lines are parsed one after the other, and the first without a colon is the last that is taken |
| HttpHeader.FieldWithoutCr | task-3a/framework/dep/Simple-Web-Server/utility.hpp:173-177 | a line that ends without CR gives its whole value, after any number of spaces |
| HttpHeader.OnlySpaces | task-3a/framework/dep/Simple-Web-Server/utility.hpp:174-177 | of nothing but spaces after the colon, the last is the value |
| HttpHeader.NothingAfterColon | task-3a/framework/dep/Simple-Web-Server/utility.hpp:176 | a line that ends at its colon gives no field |
| HttpHeader.HeaderRoundTripIffClean | task-3a/framework/dep/Simple-Web-Server/server_http.hpp:57-73 | what `write_header` prints is parsed as the same fields and the Content-Length it added if and only if names and values are clean |
| HeaderEndMatch.HeaderEndMatch.Match | task-3a/framework/dep/Simple-Web-Server/client_http.hpp:20-50 | a call returns and keeps what the scan of its piece from the kept counters gives |
| HeaderEndMatch.PiecesDoNotMatter | task-3a/framework/dep/Simple-Web-Server/client_http.hpp:14-51 | however a stream is cut into calls, answer and position are those of one call |
| HeaderEndMatch.MatchIsHeaderEnd | task-3a/framework/dep/Simple-Web-Server/client_http.hpp:14-51 | soundness: a match ends in CRLFCRLF or LFLF |
| HeaderEndMatch.CountersAreRight | task-3a/framework/dep/Simple-Web-Server/client_http.hpp:15-17 | what the two counters say about the characters read is true after every prefix |
| HeaderEndMatch.StopsAtFirstIff | task-3a/framework/dep/Simple-Web-Server/client_http.hpp:14-51 | exactly which first header ends are found |
| HeaderEndMatch.StopsAtFirst | task-3a/framework/dep/Simple-Web-Server/client_http.hpp:14-51 | completeness where every CR is followed by LF |
| HeaderEndMatch.MissedHeaderEnd | task-3a/framework/dep/Simple-Web-Server/client_http.hpp:40-41 | a stream whose only header end is missed |
| AsioReads.PartialSearch | task-3a/framework/dep/asio/include/asio/impl/read_until.hpp:48-72 | no match can begin before the returned position, whatever follows the data; a full match is one, and otherwise the data from there on is the beginning of one |
| AsioReads.FirstEndIsFirst | task-3a/framework/dep/asio/include/asio/impl/read_until.hpp:48-72 | the end that reads look for is that of the first occurrence, if and only if there is one |
| AsioReads.FoundIffFirst | task-3a/framework/dep/asio/include/asio/impl/read_until.hpp:1132-1180 | the delimiter is found at its first occurrence, if and only if that ends within the maximum |
| AsioReads.NotFoundIffFull | task-3a/framework/dep/asio/include/asio/impl/read_until.hpp:1132-1180 | otherwise it is not found if the streambuf becomes full, and end of file if the connection ends before that |
| AsioReads.AsyncReadUntil | task-3a/framework/dep/asio/include/asio/impl/read_until.hpp:1117-1200 | the result depends on the octets alone, not on the pieces in which they come, although each search resumes where the last left off; no octet is lost |
| AsioReads.AsyncReadExactly | task-3a/framework/dep/asio/include/asio/impl/read.hpp:642-677 | exactly n octets, or as many as fit, move from the connection to the streambuf; end of file exactly when there are too few, and then all there are have moved |
| ChunkedReader.GetLine | task-3a/framework/dep/Simple-Web-Server/server_http.hpp:622-624 | reading characters one by one takes the line and its LF from the streambuf |
| ChunkedReader.Move | task-3a/framework/dep/Simple-Web-Server/server_http.hpp:651-655 | moves octets between two streambufs, in order and without loss |
| ChunkedReader.ReadChunkData | task-3a/framework/dep/Simple-Web-Server/server_http.hpp:646-704 | the body, the small streambuf and the connection afterwards, in all three arrival cases and for every count of what has arrived |
| ChunkedReader.TakeCounted | task-3a/framework/dep/Simple-Web-Server/server_http.hpp:646-704 | when the line is counted right, exactly the chunk's data is stored and exactly the two octets after it are dropped, for every split between arrived and pending octets |
| ChunkedReader.SteadyIff | task-3a/framework/dep/Simple-Web-Server/server_http.hpp:625-704 | exactly when all splits store and leave the same, for every chunk, every room and every number of octets left behind that end in CRLF |
| ChunkedReader.LineLeavesCrlf | task-3a/framework/dep/Simple-Web-Server/server_http.hpp:615-625 | what a line leaves behind does end in CRLF, for every input |
| ChunkedReader.SteadyAtIff | task-3a/framework/dep/Simple-Web-Server/server_http.hpp:615-704 | so, for all octets on the wire and all limits, when it makes no difference to the next chunk what has arrived |
| ChunkedReader.ArrivalsDoNotMatter | task-3a/framework/dep/Simple-Web-Server/server_http.hpp:615-709 | if that is so at every chunk that is reached, all arrivals lead to the same body, error and rest |
| ChunkedReader.ReadLine | task-3a/framework/dep/Simple-Web-Server/server_http.hpp:615-639 | the line's outcome or size, the octets after it and how many of them are left behind, by the octets alone |
| ChunkedReader.ReadChunk | task-3a/framework/dep/Simple-Web-Server/server_http.hpp:615-704 | one chunk is stored and what is left is as specified for what had arrived, or the outcome is final |
| ChunkedReader.ReadChunked | task-3a/framework/dep/Simple-Web-Server/server_http.hpp:615-709 | terminates, for all inputs; outcome, body and what is left are those of decoding the octets with what had arrived at each chunk |
| ChunkedReader.ReadBody | task-3a/framework/dep/Simple-Web-Server/server_http.hpp:594-606 | the same from the end of the header on, with the leftover octets moved |
| ChunkedBody.SizeIsRead | task-3a/framework/dep/Simple-Web-Server/server_http.hpp:626-634 | the number of a line in the format of section 7.1 of RFC 9112, with extensions or without, is read as it is, or as out of range |
| ChunkedBody.UnendedLine | task-3a/framework/dep/Simple-Web-Server/server_http.hpp:616-621 | a line that does not end before the connection does is an error, and so is one that fills the streambuf |
| ChunkedBody.ChunksThenTail | task-3a/framework/dep/Simple-Web-Server/server_http.hpp:615-709 | whatever follows well-formed chunks, decoding them all is their data and then decoding what follows |
| ChunkedBody.BodyIsReadIffItFits | task-3a/framework/dep/Simple-Web-Server/server_http.hpp:615-709 | a body in that format is decoded as exactly the concatenation of its chunks' data, leaving exactly what follows the last line, if and only if lines and data fit, whatever had arrived |
| ChunkedBody.CutShort | task-3a/framework/dep/Simple-Web-Server/server_http.hpp:615-709 | a body in that format that ends early, at any octet, is never decoded as complete but as a closed connection |
| ChunkedBody.BadLine | task-3a/framework/dep/Simple-Web-Server/server_http.hpp:626-644 | after well-formed chunks, a line that is too long, is no number or announces too much is that error |
| ChunkedBody.CompleteNeedsZero | task-3a/framework/dep/Simple-Web-Server/server_http.hpp:636-639 | for all inputs and arrivals, a body is complete only after a line that CRLF has ended within the limit and whose number is zero |
| ChunkedBody.ReadAlikeIff | task-3a/framework/dep/Simple-Web-Server/server_http.hpp:594-601 | such a body within the maximum is read alike, whatever came along with the header, up to any bound, or arrived later, if and only if no line has more than 16 octets or some line is too long even with that bound |
| ChunkedBody.SeventeenDigits | task-3a/framework/dep/Simple-Web-Server/server_http.hpp:594-596 | a body with a 17-octet line, read if and only if at least 19 octets came along |
| ChunkedBody.ReadWellFormed | task-3a/framework/dep/Simple-Web-Server/server_http.hpp:594-709 | reading a body in that format, any part of which came along with the header, completes with its data and what follows if and only if it fits |
| ChunkedBody.ReadCutShort | task-3a/framework/dep/Simple-Web-Server/server_http.hpp:594-709 | reading such a body cut short at any octet fails with a closed connection |
| ChunkedBody.ReadBadLine | task-3a/framework/dep/Simple-Web-Server/server_http.hpp:594-709 | reading chunks and then a bad line fails with the error of that line |
| ChunkedBody.LoneLineFeed | task-3a/framework/dep/Simple-Web-Server/server_http.hpp:622-642 | a request body that is read or refused depending on what had arrived |

## Left out

- StreamBuffer.StreamBuf.ReadSizeHelper: leaves open which capacity the vector has, as the standard does.
- StreamBuffer.StreamBuf.Commit: does not model the casts to int in `pbump` and `gbump`; sizes are taken to be below 2^31.
- SendQueue.RunIsGood: takes each streaming into and taking of the buffer as one step, and leaves open what a data race between them does; it does not cover a server that is stopping, where the completion handler returns before it touches the queue and callbacks are dropped.
- ScopeRunner.FailureMeansProgress: is not a proof that any single call terminates, which needs a fair scheduler; overflow of the count is not modelled.
- ChunkedBody.BodyIsReadIffItFits: takes the maximum of the request's streambuf to be below 2^64, as a `size_t` is; extensions are any octets but LF that begin with a semicolon or white space, which includes all that the RFC allows.
- DynamicBuffers.ServeFromDynamicBuffer: says nothing of clients that write into buffers which `consume` has made invalid; the octets then land at their old address, beside the output sequence that has moved.
- HexNumbers.StrtolReads: `strtol` is modelled for strings that do not overflow a long, which two characters cannot; `std::stoul` has a 64-bit unsigned long.
- BufferCopy.CopyManyToManyMax: memory of sources and targets does not overlap, as `memcpy` demands; memory is one flat array.
- QueryString.RoundTripIffClean: a multimap is a sequence of its elements, so hashing, the order of iteration and the case-insensitive grouping of equal names are not modelled.
- `send_on_delete`, which writes once outside the queue, and `close`.
- Content-Length bodies, request-line parsing, routing, upgrade handling, timers, the `on_error` hook and the response to an oversized body: the outcome is returned instead.
- Sockets, threads and executors: a connection is the sequence of octets that its peer sends; one operation is outstanding at a time.
- Server-Sent Events and the connection pool of the client.
- DynamicBuffer_v2 operations, scatter/gather adapters, buffer iterators, and the C++ lifetime of the memory a buffer refers to.
- `SemicolonSeparatedAttributes`, `Date`, status codes, path conversion and cryptography.
- `input`, `output` and `main` of the quicksort program, and qsort_transformed.c, which is a different program.
- The unfinished exercises switch.cpp and http.cpp, whose methods are stubs, the browser framework and the division exercise.
