# Distributed algorithm processing: a verified model

The application cuts a data file into chunks, hands the chunks to clients, stores the
results as they come in and finally writes them to one file in the order of the chunks.
Around that core it has a file transfer to bring the clients up to date, a message format,
a memory pool, a command line parser, a model of the clients' speed, and vendored headers
of which two do real arithmetic: checksums and rational numbers. This project models those
parts and proves what they are for.

| file | models |
|---|---|
| `CrcBits.dfy`, `Crc.dfy` | bit-at-a-time, table-driven and augmented-message checksums: one division of polynomials, three ways |
| `Arithmetic.dfy`, `Rational.dfy` | exact rational arithmetic that keeps the normal form, and comparison by continued fractions |
| `MemPool.dfy` | a growable pool whose free list runs through the free slots themselves |
| `Streams.dfy`, `MsgStream.dfy` | nested values written to, sized for and read from a byte buffer with a cursor |
| `FileTransfer.dfy` | a list of files cut into pieces, sent, and put together again |
| `Scheduler.dfy`, `Server.dfy` | the distribution of work as a state machine, and the classes that take its steps |
| `Statistics.dfy` | a mean and deviation updated by batches, and how many samples the thresholds can catch |
| `CmdParser.dfy` | a command line cut up in place |
| `Tokenizer.dfy` | the escaped-list separator and the iterator that drives it |
| `Basics.dfy` | what several of these share |

Where the original changes objects step by step, the model has a class with the same
fields, and each method is proved against a function of the old state; the lemmas then say
what that function means over whole messages, whole runs or every input.

Things the proofs brought to light, all stated as lemmas:

* A checksum's remainder is the unique remainder of a division of polynomials. All three
  computers agree for every width from one bit on, not only whole bytes, and however much
  wider than the checksum the type is that holds it.
* `SizeType` is right if and only if no string has 2^32 bytes or more, because the byte
  count that is copied passes through a `UINT` (`SizeTypeExact`).
* Pairs come back only because the arguments of `make_pair` are evaluated from right to
  left (`LeftToRightPairs`); forward lists come back reversed at every level (`Mirror`).
* Files are opened without truncation: a received file equals the sent one if and only if
  no longer file of that name was there before (`ArrivedExact`).
* Work that is sent a second time without fail is forgotten, so that its result is refused
  (`ResentWorkIsLost`). At the end every chunk has its result exactly when nothing was
  dropped this way, nor by a failed first send (`CompleteUnlessDropped`).
* At most one sample in `k*k + 1` lies above `mean + k * sd`: one in 17 for the default
  threshold. As few lie at or below the lower threshold, unless all samples are the same;
  then all do (`VerdictsAreRare`).
* The command parser runs past the terminator if and only if the parameters end with an
  odd number of dashes in a row and no `=` came before the first of them (`StaysInside`).
* A list of fields survives printing and tokenizing, except for the list of one empty,
  unquoted field (`Tokenizers.RoundTrip`), and only if the letter n is not a special
  character (`LetterLost`).

`FileMappingIndexed::Write` passes `it->index` of the entry behind the insertion point (or
of none) where the new index is meant. The model keys the entries by the new index.

## Model

| member | source | states |
|---|---|---|
| `CrcBits.StepsLinear` | Common/boost/crc.hpp:730-751 | dividing is linear over xor, in the remainder and in the bits together |
| `CrcBits.StepsIsRemainder` | Common/boost/crc.hpp:730-751 | the bit-at-a-time loop leaves the remainder of the message times x^n: message and remainder differ by a multiple of the polynomial |
| `CrcBits.RemainderUnique` | Common/boost/crc.hpp:730-751 | no other remainder of that width differs from the message by a multiple of the polynomial |
| `CrcBits.TableStep` | Common/boost/crc.hpp:948-966 | dividing any number of bits at once is one shift and one xor with the remainder of (bits xor top of the old remainder), for every width, smaller than the bits included |
| `CrcBits.FeedAugmented` | Common/boost/crc.hpp:1047-1076 | the augmented form over a message and zeros divides like the direct form from the flushed start value |
| `CrcBits.FeedAccepts` | Common/boost/crc.hpp:1047-1076 | the augmented form over a message and a tail gives zero if and only if the tail is what it gives for zeros |
| `CrcBits.FeedTableStep` | Common/boost/crc.hpp:1064-1073 | one step by the table is the given number of single augmented steps |
| `Crc.Reflect` | Common/boost/crc.hpp:306-326 | the loop reverses the bits that count and clears those above |
| `Crc.CrcBasic.constructor` | Common/boost/crc.hpp:632-644 | starts from the initial remainder |
| `Crc.CrcBasic.Reset` | Common/boost/crc.hpp:709-715 | sets the remainder as given |
| `Crc.CrcBasic.ProcessBit` | Common/boost/crc.hpp:730-751 | one step of the division, whatever lies above the remainder in its word |
| `Crc.CrcBasic.ProcessBits` | Common/boost/crc.hpp:755-770 | divides the low bits of a byte, upper ones first |
| `Crc.CrcBasic.ProcessByte` | Common/boost/crc.hpp:775-782 | divides the eight bits of a byte in the order asked for |
| `Crc.CrcBasic.ProcessBlock` | Common/boost/crc.hpp:786-797 | divides the bit stream of the whole block |
| `Crc.CrcBasic.GetChecksum` | Common/boost/crc.hpp:817-823 | reflected if asked, xored, and cut to the width |
| `Crc.CrcTable.InitTable` | Common/boost/crc.hpp:491-536 | afterwards every one of the 256 entries is the remainder of its byte, both reflected if asked; a second call changes nothing |
| `Crc.CrcTable.Divide` | Common/boost/crc.hpp:507-528 | the inner loop gives the remainder of one byte |
| `Crc.CrcTable.Place` | Common/boost/crc.hpp:530-531 | the place and the form of an entry |
| `Crc.TableByte` | Common/boost/crc.hpp:577-596 | lookup, shift and xor are eight division steps; with reflection, on the reversed remainder |
| `Crc.CrcOptimal.constructor` | Common/boost/crc.hpp:836-843 | starts from the initial remainder, reversed if the input is reflected, with the table filled |
| `Crc.CrcOptimal.Reset` | Common/boost/crc.hpp:923-929 | stores the new remainder, reversed if the input is reflected |
| `Crc.CrcOptimal.Round` | Common/boost/crc.hpp:957-965 | one byte through the table is that byte's eight division steps |
| `Crc.CrcOptimal.ProcessBlock` | Common/boost/crc.hpp:948-966 | divides the bit stream of the whole block |
| `Crc.CrcOptimal.GetChecksum` | Common/boost/crc.hpp:989-995 | the same final treatment as the simple computer, of the unreversed remainder |
| `Crc.RunBasic` | Common/boost/crc.hpp:786-823 | the simple computer, fed in any blocks, gives the checksum of the concatenated message |
| `Crc.RunOptimal` | Common/boost/crc.hpp:1030-1040 | the table-driven computer gives that same checksum, for every width, polynomial, start value, final xor and both reflection flags |
| `Crc.StreamBits` | Common/boost/crc.hpp:775-797 | the divided stream is the bits of the bytes in order, each from the top, or from the bottom if the input is reflected |
| `Crc.ChecksumBits` | Common/boost/crc.hpp:730-823 | bit by bit, for all parameters and messages: the checksum is the one remainder of the division of the message, with the initial value added to its first bits, read from the other end if reflected, with the final value added and nothing above it |
| `Crc.ChecksumDivides` | Common/boost/crc.hpp:730-751 | that division always has a remainder |
| `Crc.FinalXors` | Common/boost/crc.hpp:821-822 | parameters that differ in the final value only give checksums that differ by exactly that |
| `Crc.RemainderReflected` | Common/boost/crc.hpp:821-822 | with final value zero, reflecting the remainder reverses the checksum |
| `Crc.AugmentedRound` | Common/boost/crc.hpp:1069-1072 | one round feeds eight bits in |
| `Crc.AugmentedCrc` | Common/boost/crc.hpp:1047-1076 | feeds the whole buffer in, from any start value |
| `Crc.AugmentedMessage` | Common/boost/crc.hpp:1047-1076 | for whole-byte widths, from zero: followed by zero bytes a message gives its direct remainder, and followed by any tail it gives zero if and only if the tail is that remainder |
| `Rationals.InnerGcdIsGcd` | Common/boost/rational.hpp:231-234 | Euclid with C++ remainders gives the greatest common divisor up to sign, for all signs |
| `Rationals.IsNormalizedIsInvariant` | Common/boost/rational.hpp:247-252 | `is_normalized` accepts exactly the pairs that `test_invariant` accepts |
| `Rationals.EqualityIsStructural` | Common/boost/rational.hpp:523-526 | normal pairs have the same value if and only if they are the same |
| `Rationals.SumNormal` | Common/boost/rational.hpp:282-308 | dividing only by gcd(num', gcd(b, d)) leaves the exact sum in normal form |
| `Rationals.ProductCoprime` | Common/boost/rational.hpp:339-343 | dividing crosswise before multiplying leaves the exact product in lowest terms |
| `Rationals.Rational.Normalize` | Common/boost/rational.hpp:545-578 | the same value in normal form, or failure exactly for a zero denominator |
| `Rationals.Rational.Assign` | Common/boost/rational.hpp:258-261 | takes the value of any pair; unchanged on failure |
| `Rationals.Rational.Add` | Common/boost/rational.hpp:279-311 | the exact sum, normal, also when the argument is the object itself |
| `Rationals.Rational.Subtract` | Common/boost/rational.hpp:314-330 | the exact difference, normal, also with itself |
| `Rationals.Rational.Multiply` | Common/boost/rational.hpp:333-345 | the exact product, normal, also with itself |
| `Rationals.Rational.Divide` | Common/boost/rational.hpp:348-374 | the exact quotient, normal, or failure exactly for a zero divisor with nothing changed |
| `Rationals.Rational.AddInt` | Common/boost/rational.hpp:185-186 | adds an integer and stays normal |
| `Rationals.Rational.MultiplyInt` | Common/boost/rational.hpp:379-387 | the exact product with an integer, normal |
| `Rationals.Rational.DivideInt` | Common/boost/rational.hpp:391-410 | the exact quotient by an integer, normal, or failure exactly for zero |
| `Rationals.Rational.Less` | Common/boost/rational.hpp:414-495 | comparing continued fractions terminates and equals comparing cross products, for all numerators and positive denominators |
| `Rationals.Reciprocal` | Common/boost/rational.hpp:457-470 | with equal quotients, comparing goes over to the reversed comparison of the remainders' reciprocals |
| `Rationals.Rational.LessInt` | Common/boost/rational.hpp:498-513 | comparing the floor with an integer is comparing exactly |
| `Rationals.Rational.GreaterInt` | Common/boost/rational.hpp:516-519 | likewise for greater |
| `MemPools.ElementSizeMax` | Common/CNLIB/MemPool.h:97 | at least the element size, less than one alignment more, and a multiple of the alignment with the link field |
| `MemPools.SlotInside` | Common/CNLIB/MemPool.h:22-30 | room and link field of every slot lie inside the buffer; `end` is the last slot |
| `MemPools.SlotOrder` | Common/CNLIB/MemPool.h:50-65 | no slot reaches into a later one |
| `MemPools.SlotAligned` | Common/CNLIB/MemPool.h:97 | the room is aligned whenever the buffer is, for every alignment |
| `MemPools.BlocksApart` | Common/CNLIB/MemPool.h:50-65 | any two slots of a pool are disjoint stretches of memory, across buffers too |
| `MemPools.MemPool.constructor` | Common/CNLIB/MemPool.h:92-102 | one buffer of the given address and capacity, room for the element size and less than one alignment more, aligned with the link field; all slots free in order of address |
| `MemPools.MemPool.Thread` | Common/CNLIB/MemPool.h:52-62 | the pointer-stepping loop hits `end` exactly and links every slot to the next |
| `MemPools.MemPool.Link` | Common/CNLIB/MemPool.h:50-65 | puts all slots of a new buffer in front of the free list |
| `MemPools.MemPool.Grow` | Common/CNLIB/MemPool.h:258-262 | the whole new state: nodes, free list and capacity |
| `MemPools.MemPool.PopAvail` | Common/CNLIB/MemPool.h:243-248 | takes the first free slot off |
| `MemPools.MemPool.PushAvail` | Common/CNLIB/MemPool.h:251-255 | puts a slot in front |
| `MemPools.MemPool.Alloc` | Common/CNLIB/MemPool.h:137-143 | null for what does not fit; otherwise the first free slot, after doubling when there was none |
| `MemPools.MemPool.Dealloc` | Common/CNLIB/MemPool.h:158-166 | the block becomes the first free slot; null does nothing |
| `MemPools.MemPool.Reserve` | Common/CNLIB/MemPool.h:204-207 | adds a buffer of the given capacity |
| `MemPools.MemPool.InPool` | Common/CNLIB/MemPool.h:178-188 | whether some buffer has the address between its first and last slot |
| `MemPools.InPoolExact` | Common/CNLIB/MemPool.h:178-188 | every block handed out is in the pool; no address outside the buffers is |
| `MemPools.AllocatedInv` | Common/CNLIB/MemPool.h:137-143 | keeps the invariant; a returned block was not live before and is now |
| `MemPools.DeallocatedInv` | Common/CNLIB/MemPool.h:158-166 | giving a live block back keeps the invariant |
| `MemPools.RunInv` | Common/CNLIB/MemPool.h:137-262 | in every run: free list without duplicates, free and live slots disjoint and together all slots, capacity the number of slots |
| `MemPools.RunDoubles` | Common/CNLIB/MemPool.h:224-262 | in every run without Reserve, capacity is initial * 2^(nodes - 1) |
| `MemPools.RunGoodFor` | Common/CNLIB/MemPool.h:92-102 | in every legal run of a pool made for an element size and alignment, the room stays large enough and every buffer as aligned as the allocator makes it |
| `MemPools.AllocFits` | Common/CNLIB/MemPool.h:137-143 | in every such run an allocation of up to the element size never fails; its block lies in a buffer with its whole size, apart from every block in use, and is aligned if the buffers are |
| `MemPools.FreedComesNext` | Common/CNLIB/MemPool.h:157-166 | a block given back is the next one handed out, and the pool is as before |
| `Streams.SizeTypeExact` | Common/CNLIB/StreamExt.h:12-226 | for every nested value, `SizeType` is never less than what is written, and equal if and only if every string is shorter than 2^32 bytes |
| `Streams.RoundTrip` | Common/CNLIB/StreamExt.h:1-244 | for every nested value: reading the bytes written returns the value, forward lists reversed at each level, and leaves the cursor behind it |
| `Streams.RoundTripFile` | Common/StreamExt2.h:11-35 | likewise for a file entry |
| `Streams.NatBytesAt` | Common/CNLIB/MsgStream.h:164-169 | a count is written lowest byte first |
| `Streams.MirrorPlain` | Common/CNLIB/StreamExt.h:1-244 | a value without forward lists comes back as it was |
| `Streams.MirrorForward` | Common/CNLIB/StreamExt.h:159-168 | a forward list comes back from its last element to its first |
| `Streams.MirrorListed` | Common/CNLIB/StreamExt.h:84-131 | any other list comes back in order |
| `Streams.MirrorInjective` | Common/CNLIB/StreamExt.h:159-168 | reversing forward lists at every level loses nothing |
| `Streams.MirrorDistinct` | Common/CNLIB/StreamExt.h:197-205 | map keys that differ still differ when read, so that no entry is lost |
| `Streams.InsertedDistinct` | Common/CNLIB/StreamExt.h:197-205 | inserting entries with different keys keeps them all, in order |
| `Streams.LeftToRightPairs` | Common/CNLIB/StreamExt.h:35-55 | were arguments evaluated from left to right, exactly the pairs whose parts commute as bytes would come back |
| `MsgStreams.MsgStreamWriter.constructor` | Common/CNLIB/MsgStream.h:66-73 | type and number in front, cursor behind them |
| `MsgStreams.MsgStreamWriter.Put` | Common/CNLIB/MsgStream.h:164-176 | copies the bytes to the cursor and changes nothing else |
| `MsgStreams.MsgStreamWriter.WriteText` | Common/CNLIB/StreamExt.h:6-11 | writes exactly the encoding of a string |
| `MsgStreams.MsgStreamWriter.WriteElements` | Common/CNLIB/StreamExt.h:63-68 | the loop writes the count and the encodings one after the other |
| `MsgStreams.MsgStreamWriter.WritePair` | Common/CNLIB/StreamExt.h:35-39 | the second part first |
| `MsgStreams.MsgStreamWriter.WriteFileData` | Common/StreamExt2.h:11-16 | name, date, size |
| `MsgStreams.MsgStreamWriter.Write` | Common/CNLIB/MsgStream.h:85-88 | writes exactly the encoding of any value at the cursor, within the end |
| `MsgStreams.MsgStreamWriter.End` | Common/CNLIB/MsgStream.h:51-54 | the cursor is at the end |
| `MsgStreams.MsgStreamReader.Get` | Common/CNLIB/MsgStream.h:258-274 | the next bytes, or failure where the cursor would pass the end |
| `MsgStreams.MsgStreamReader.ReadText` | Common/CNLIB/StreamExt.h:23-27 | the string at the cursor |
| `MsgStreams.MsgStreamReader.ReadElements` | Common/CNLIB/StreamExt.h:84-243 | the three loops: at the back, in front, or by key |
| `MsgStreams.MsgStreamReader.ReadFileData` | Common/StreamExt2.h:28-35 | a file entry |
| `MsgStreams.MsgStreamReader.Read` | Common/CNLIB/MsgStream.h:214-217 | reads any value as the decoding says |
| `MsgStreams.SmallFits` | Common/CNLIB/MsgStream.h:127-135 | a value whose `SizeType` fits a `UINT` has only strings that fit |
| `MsgStreams.Exchange` | Server/FileSend.cpp:64-73 | a message sized by `SizeType` for two values, such as a file list and a directory, is filled exactly to its end, and the reader gets both values back and ends there too |
| `FileTransfers.FileSend.SendFile` | Server/FileSend.cpp:85-95 | sends the pieces of one file, or a beginning of them when told to stop |
| `FileTransfers.FileSend.SendFiles` | Server/FileSend.cpp:75-102 | sends all pieces of all files, none across two files, and succeeds exactly when not told to stop before the last test |
| `FileTransfers.PiecesWhole` | Server/FileSend.cpp:86-95 | the pieces of a file make it up; each is as long as the buffer allows but for the last, which is not empty |
| `FileTransfers.FileReceive.HaveFileList` | Client/FileReceive.cpp:11-42 | true with nothing changed when every listed file is on the disk with its date; otherwise, for a missing file as for another date, starts a transfer; and whenever it is true every listed file is there with its date |
| `FileTransfers.FileReceive.InitFirstFile` | Client/FileReceive.cpp:80-94 | opens the first file and passes over empty ones; complete at once exactly when all are empty |
| `FileTransfers.FileReceive.ReadFiles` | Client/FileReceive.cpp:44-54 | takes in one piece; reports completion exactly when the last byte is there |
| `FileTransfers.FileReceive.AdvanceFile` | Client/FileReceive.cpp:56-78 | the loop over complete files: dates set, next file opened, lists cleared at the end |
| `FileTransfers.OverlayExact` | Client/FileReceive.cpp:85-88 | a received file is what was sent if and only if no longer one was there |
| `FileTransfers.ArrivedExact` | Common/CNLIB/File.h:12 | a file that arrived is the one that was sent if and only if no longer one was there before |
| `FileTransfers.AdvanceInStep` | Client/FileReceive.cpp:56-78 | passing over complete files keeps both ends in step and stops where the next piece belongs, or at the very end |
| `FileTransfers.PieceInStep` | Client/FileReceive.cpp:44-54 | the next piece lies within the current file, and taking it in keeps both ends in step |
| `FileTransfers.Deliver` | Client/FileReceive.cpp:44-54 | all pieces in order: every file arrives and only the last piece reports completion |
| `FileTransfers.Transfer` | Server/FileSend.cpp:75-102 | for every non-empty list with empty files anywhere and every piece size: unless all are there with their dates already, every file arrives with its date, no other file changes, completion is reported exactly once and last, and asking again finds the files there |
| `Scheduler.StepInv` | Server/Server.cpp:45-290 | every handler keeps: a queued client holds no work, every issued index is in exactly one of work, old work, stored and dropped |
| `Scheduler.StepFate` | Server/Server.cpp:122-166 | what is dropped grows exactly at a failed send of new work and a successful send of old work; what is stored, exactly at a result for recorded work, whose index was not stored before |
| `Scheduler.RunInv` | Server/Server.cpp:45-290 | the invariant at every point of every run, with any number of clients |
| `Scheduler.RunFate` | Server/Server.cpp:208-229 | in every run, what is stored or dropped stays so |
| `Scheduler.CompleteUnlessDropped` | Server/Server.cpp:138-142 | in every run that ends with nothing under way: every chunk handed out has its result stored if and only if no chunk was lost to a failed first send and no old work was sent again without fail |
| `Scheduler.InsertedTwice` | Common/FileMappingIndexed.h:30 | a second part with an index that is taken changes nothing |
| `Scheduler.IssuedExact` | ServerDataInterpreter/Data.cpp:33-38 | the work for a new chunk has its index, its size and its end as cursor |
| `Scheduler.RunSource` | Server/Server.cpp:114-285 | in every run, each recorded or old piece of work has the size of its chunk and as cursor the number of bytes handed out up to its end; no chunk is empty or longer than the chunk size |
| `Scheduler.Arrival` | Server/ClientQueue.cpp:14-40 | a new client or one found normal comes after all that wait, a fast one after the fast and before the others, one too slow is not queued |
| `Scheduler.FirstServed` | Server/ClientQueue.cpp:42-53 | a round serves the first in line, with the next chunk or the oldest old work |
| `Scheduler.ServedInOrder` | Server/ClientQueue.cpp:42-53 | in every run, of two clients in line the first stays first until it is served |
| `Scheduler.FastServedFirst` | Server/ClientQueue.cpp:34-37 | in every run, a client found fast is served before every client that was in the other line when it handed in its result |
| `Scheduler.ResentWorkIsLost` | Server/Server.cpp:149-166 | a run in which the only chunk is sent again without fail, its result returned, and nothing stored |
| `Scheduler.SmoothRun` | Server/Server.cpp:114-229 | in every run without failed sends and without leaving clients that hold work, in any order of finishing: once the output is there, the chunks are the whole file in order, all but the last have the chunk size, all are stored, and the output is their results in order |
| `Scheduler.ReorderedInOrder` | Common/FileMappingIndexed.h:35-48 | in such a run, with no work under way, the stored parts in index order are the results in file order |
| `Scheduler.OutputOnce` | Server/Server.cpp:141-142 | in every run the output, once written, is never written again |
| `Servers.Data.LoadData` | ServerDataInterpreter/Data.cpp:11-22 | the chunk size is the smaller of the desired one and the file size; both cursors at the beginning |
| `Servers.Data.GetClientWork` | ServerDataInterpreter/Data.cpp:29-41 | the next bytes of the file, as many as fit or are left, with their size, their end and the next index; nothing at the end or for a small buffer |
| `Servers.Data.GetClientWorkPrev` | ServerDataInterpreter/Data.cpp:43-49 | returns the work as given and leaves everything but the file cursor alone |
| `Servers.ClientWorkMap.Change` | Server/ClientWorkMap.cpp:12-20 | records the work of a client, in place of any before |
| `Servers.ClientWorkMap.Remove` | Server/ClientWorkMap.cpp:22-26 | forgets it and says whether there was any |
| `Servers.ClientWorkMap.GetClientWork` | Server/ClientWorkMap.cpp:28-39 | hands it over and forgets it |
| `Servers.ClientWorkMap.Empty` | Server/ClientWorkMap.cpp:41-44 | there is none |
| `Servers.ClientQueue.AddClient` | Server/ClientQueue.cpp:14-20 | to the end of the queue of other clients |
| `Servers.ClientQueue.EvaluateClient` | Server/ClientQueue.cpp:27-40 | by the verdict: to the fast queue, to the other, or refused |
| `Servers.ClientQueue.FindClientForWork` | Server/ClientQueue.cpp:42-53 | fast clients first, each queue in order, none only when both are empty |
| `Servers.PartsInsert` | Common/FileMappingIndexed.h:23-33 | an index entry over the bytes of the file takes the place of its index among the stored parts |
| `Servers.FileMappingIndexed.Write` | Common/FileMappingIndexed.h:23-33 | appends the bytes and stores them as the part with the given index, without touching other parts |
| `Servers.FileMappingIndexed.ReorderFileData` | Common/FileMappingIndexed.h:35-48 | the new file is the parts in order of their indices |
| `Servers.Server.constructor` | Server/Server.cpp:75-93 | the initial state of the scheduler |
| `Servers.Server.Round` | Server/Server.cpp:58-71 | one turn of a worker's loop is one step of the scheduler: old work before new |
| `Servers.Server.GiveNewWork` | Server/Server.cpp:114-147 | issues the next chunk and records it, unless the send fails; false exactly at the end of the data |
| `Servers.Server.GiveOldWork` | Server/Server.cpp:149-166 | records the work and forgets it when it was sent |
| `Servers.Server.FinishThread` | Server/Server.cpp:138-144 | the step after waiting: only the first thread writes the output |
| `Servers.Server.OnWorkComplete` | Server/Server.cpp:208-229 | is the scheduler's step; the client is disconnected exactly when it had no work or was too slow |
| `Servers.Server.OnReady` | Server/Server.cpp:236-253 | is the scheduler's step |
| `Servers.Server.OnDisconnect` | Server/Server.cpp:274-285 | is the scheduler's step |
| `Statistics.BatchUpdate` | Server/StandardDeviation.cpp:15-30 | for every batch: the updated mean is the exact mean of all samples so far, and the updated sum is exactly the sum of squared deviations from it |
| `Statistics.StandardDeviation.FirstLoop` | Server/StandardDeviation.cpp:17-21 | sum and list of the deviations from the old mean |
| `Statistics.StandardDeviation.SecondLoop` | Server/StandardDeviation.cpp:25-28 | the sum of the products of new and old deviations |
| `Statistics.StandardDeviation.FullBatch` | Server/StandardDeviation.cpp:15-35 | the figures describe all samples of all full batches, and the batch is emptied |
| `Statistics.StandardDeviation.Calculate` | Server/StandardDeviation.cpp:9-41 | the figures change exactly when a batch is full and are always those of the full batches |
| `Statistics.FewAbove` | Server/PerformanceModel.cpp:17-18 | at most one sample in k*k + 1 is above mean + k * sd |
| `Statistics.FewAtMost` | Server/PerformanceModel.cpp:15-16 | with some deviation, at most one in k*k + 1 is at or below mean - k * sd |
| `Statistics.NoneAbove` | Server/PerformanceModel.cpp:15-18 | without deviation none is above and all are at the lower threshold |
| `Statistics.SlowVerdicts` | Server/PerformanceModel.cpp:12-18 | the samples found too slow are exactly those above mean + sd * low, none if the mean is zero |
| `Statistics.FastVerdicts` | Server/PerformanceModel.cpp:12-16 | the samples found fast are exactly those at or below mean - sd * high, none if the mean is zero |
| `Statistics.VerdictsAreRare` | Server/PerformanceModel.cpp:9-21 | for any parameters: how few verdicts of either kind there can be, and exactly when the bound for FAST holds |
| `Statistics.DefaultVerdictsAreRare` | Server/PerformanceModel.h:15 | with the default parameters at most one sample in 17 is too slow and, with some deviation, at most one in 5 is fast |
| `Statistics.PerformanceModel.EvaluateTime` | Server/PerformanceModel.cpp:9-21 | FAST and TOOSLOW exactly by their thresholds on the figures after the sample was taken in, and what that did to them |
| `Statistics.PerformanceModel.FewOutliers` | Server/PerformanceModel.cpp:9-21 | at any moment between calls, the bounds hold of the samples the figures come from |
| `CmdParsers.CmdParser.ParseCmd` | Common/CmdParser.cpp:14-59 | buffer, command and parameters are what the walk over the text leaves, failure and overrun included |
| `CmdParsers.CmdParser.IsSet` | Common/CmdParser.cpp:73-81 | some parameter pointer stands for that name |
| `CmdParsers.StaysInside` | Common/CmdParser.cpp:19-50 | for every text: the walk passes the terminator exactly for an odd run of dashes at the end of the parameters, fails exactly for an early `=`, and otherwise has a command |
| `CmdParsers.LoneDash` | Common/CmdParser.cpp:21-26 | a text with a lone dash at its end makes it read outside the buffer |
| `CmdParsers.ParsedExactly` | Common/CmdParser.cpp:14-59 | for every text but those two kinds: terminators exactly over the first space and every later space or equals sign that is not skipped, and exactly the parameters that begin with an unskipped dash, each with what follows its last equals sign |
| `CmdParsers.StartsAre` | Common/CmdParser.cpp:21-26 | those parameters are at all such dashes and nowhere else, in order |
| `CmdParsers.LastValueIs` | Common/CmdParser.cpp:35-42 | and that value follows the last equals sign before the next parameter, and no other |
| `CmdParsers.ParamsEnd` | Common/CmdParser.cpp:19-50 | once there is a parameter, only the parity of the last dashes decides |
| `CmdParsers.RoundTrip` | Common/CmdParser.cpp:14-59 | for every command and list of parameters with or without values: the pointers into the cut buffer stand for exactly what was printed |
| `CmdParsers.SetIffGiven` | Common/CmdParser.cpp:73-81 | what `IsSet` looks for is there if and only if a parameter of that name was printed |
| `Tokenizers.EscapedListSeparator.DoEscape` | Common/boost/token_functions.hpp:127-148 | what each escape sequence stands for, and both errors |
| `Tokenizers.EscapedListSeparator.Next` | Common/boost/token_functions.hpp:162-198 | the next token, a last empty one after a separator, or none |
| `Tokenizers.TokenIterator.Increment` | Common/boost/token_iterator.hpp:50-53 | one token is passed and the rest stays to come |
| `Tokenizers.TokenIterator.Initialize` | Common/boost/token_iterator.hpp:67-72 | all tokens of the text are to come |
| `Tokenizers.Tokenize` | Common/boost/token_iterator.hpp:50-72 | run to exhaustion the iterator gives exactly the tokens of the text, or its first error, and terminates |
| `Tokenizers.RefusedForFault` | Common/boost/token_functions.hpp:127-148 | a text is refused exactly when some escape character ends it or is followed by a character without meaning, with the error of the first such place, whatever its quotes and separators |
| `Tokenizers.RoundTrip` | Common/boost/token_functions.hpp:114-198 | for every list of fields, each of quoted and unquoted stretches, newlines and quoted separators escaped or not, and all sets of special characters without n: the printed list is read back exactly, trailing empty fields included, if and only if it is not a single field with nothing in it and nothing quoted |
| `Tokenizers.LetterLost` | Common/boost/token_functions.hpp:130-133 | with n as a special character, the field of that letter comes back as a newline |

## Left out

- Servers.FileMappingIndexed.Write: keyed by the new index, where the code passes `it->index`, which is undefined behaviour when nothing is behind the insertion point; mapping windows are left out.
- Servers.Data.GetClientWorkPrev: which bytes it reads and where it leaves the cursor depend on `File::MoveCursor`, which is not part of this model; the new cursor is any position, and the in-order output is therefore stated for runs without re-sent work.
- Servers.ClientQueue.EvaluateClient: takes the verdict of the performance model as an argument; the performance model is a module of its own.
- Servers.Server.OnReady: each client announces itself once, as the clients do.
- Servers.Server.Round: a handler is one step; interleavings inside a handler, the wait for the last results, pointers reused after a disconnect and the fixed size of the lock-free queues are left out.
- FileTransfers.FileSend.SendFiles: the files are as long as the list says; when the state turns to EXITING is given by how often it is still found RUNNING.
- FileTransfers.FileReceive.HaveFileList: for a non-empty list with different names, as a directory listing is; for an empty one the code dereferences the end of the list. The list arrives decoded (decoding is `MsgStreams.Exchange`), and looking a file up in the local listing is looking it up on the disk.
- FileTransfers.Transfer: pieces arrive in order and none is lost, as the connection promises.
- MsgStreams.MsgStreamWriter.Put: `WriteEnd` and `ReadEnd`, which copy up to the end whatever is there, are left out, as are sizes beyond `size_t`.
- Streams.RoundTrip: maps are read back in the order written; that an ordered or unordered map has its own order of iteration is left out.
- Rationals.Rational.Normalize: integers are unbounded, so the failure for a denominator that cannot be negated does not arise; stream input and output are left out.
- MemPools.MemPool.Alloc: addresses are unbounded and the allocator's results are parameters, apart from each other; `MemPoolSync`, moves and the release of the buffers are left out.
- Statistics.StandardDeviation.Calculate: over the reals, with the square root as a parameter; rounding and the lock are left out.
- CmdParsers.CmdParser.IsSet: compares whole strings, where the code calls `_tcscmp`.
- Tokenizers.Tokenize: other separators and the equality of two iterators are left out.
- Crc: the functors over single bytes and `get_interim_remainder` only repeat what is modelled.
- Sockets, completion ports, port mapping, compression, dates, directory names, the console interface and verification of the new file by the server.
