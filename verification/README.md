# SQLite in a trusted application: a verified model

The repository runs SQLite inside an OP-TEE trusted application. Pages are encrypted by a codec, the tags of the
encryption live in a hash map that is dumped to a file, files are written through a small coalescing buffer, and every
file call travels over a remote procedure call to a supplicant on the Linux side. This project models those four
layers and proves that each does what its users rely on, over all inputs and over whole runs.

## Structure

| module | what it is |
|---|---|
| `Posix` | a regular file: bytes, position, a script of how the coming system calls turn out, a log of physical writes |
| `JournalSpec`, `JournalOrder`, `JournalPlain`, `JournalFile` | the write buffer of the VFS: functions on values with the run theorems, when the order of writes is kept, what every call answers in terms of plain bytes, and the object |
| `TableSpec`, `HashTable`, `AsWritten` | the chained hash map: functions and theorems, the linked nodes, and the text as it is spelled |
| `TagFileSpec`, `TagFile` | dumping the tag map and loading it again |
| `PageCodec`, `RekeySpec`, `KeysSpec` | one page, the database under a key and its rekeying, and the key state over time |
| `Session` | the tags from one session to the next: load, run, dump, load |
| `CodecObject`, `EncryptedDatabase`, `Connection` | the codec with its key arrays and page buffer, the pager callback, the rekey operation and attaching a key, step by step |
| `ThreadPool` | the supplicant's threads as a state machine over their atomic steps |
| `Words`, `ShmList`, `Params`, `Rpc` | C integers, the list of shared buffers, request parameters, and the forwarded file calls end to end |
| `RemoteFile` | the VFS handle on top of the forwarded calls, the whole stack in one |

The buffer, the hash map, the tag file, the codec and the rekey operation come twice: as functions on values, about
which the theorems are proved, and as classes and loops in the form of the source, every method of which is proved
equal to its function. The thread pool, a protocol between threads, is a state machine only; the list of shared
buffers and the forwarded calls are methods, specified by functions on sequences and by the direct calls.

## What the code does that its comments do not say

* **Key comparison and hash.** The list helpers of the hash map assign (`=`) where they mean to compare, and `hash`
  returns the key without taking the remainder. `TableSpec` and `HashTable` model the evident intent: equality, and an
  arbitrary hash whose result is below the size. `AsWritten` models the text as spelled, which is a table indexed
  directly by the key. A key that is not below the number of buckets (769 after `hm_create(500)`) is outside the
  array. With keys inside it, from 0 on, the answers over a run are those of a finite map if and only if key 0 is
  never asked for while it is set (`WrittenExactly`). The codec sets key 0 with every encryption of page 1 but only
  looks up pages, which meets the condition (`CodecFindsTags`, `SpelledFindsTags`). Each such set adds an entry that
  nothing but a clear removes: the counter and the dump grow by one (`WrittenCounter`), and in the end the table does
  too (`GrowsExactly`).
* **Offset -1.** The VFS compares the result of `lseek` with the offset, so at offset -1 a failing seek looks like a
  success (`MinusOneUnnoticed`), and handles with and without a buffer can leave different files behind equal answers
  (`MinusOneDiverges`). The run theorems of the buffer are about all other offsets.
* **Negative offsets.** A buffered handle accepts a write at a negative offset when the data fits its buffer, where an
  unbuffered one fails at once. `BufferedRunsAgree` is an equivalence with that condition.
* **A failed flush** empties the buffer. A failed read, fsync or size call loses nothing, but once a single call has
  answered SQLITE_IOERR_WRITE bytes are missing for good, and a caller that carries on sees its writes out of order
  (`OrderLostAfterFailure`). `OrderKeptExactly` states the equivalence; up to the first such answer `CrashPrefix`
  holds.
* **A failed decryption** of a database is meant to restore the write key. The key bytes are restored, but the codec
  goes on without a write key and stores pages in plain (`FailedDecryptStoresPlain`).
* **A rekey whose commit fails half-way** restores every byte on disk but not the tags that the stores replaced
  (`RekeyFails` says exactly which pages are affected).
* **The result of a forwarded write** passes through an `int`; it is the direct result exactly when it fits
  (`SyscallVfsWrite`). The other calls return 64 bits.
* **A forwarded read** clears the caller's buffer even when it fails.
* **A request without a meta parameter** leaves its thread counted as a waiter for ever (`WithoutMetaAllBusy`), and
  from then on requests that are in order can put every thread into a handler. `LiveExactly` states the equivalence.
* **More than 99 tags.** Loading the tag file keeps addresses in two local arrays of 100 slots and leaves them exactly
  for files of more than 99 records, a torn last one included (`CreateMap`).

## Model

| member | source | states |
|---|---|---|
| JournalSpec.BufferedRunsAgree | optee_examples/tee_sqilte/ta/tee_vfs.c:82-270 | over any run from open to close in which the file calls succeed, a handle with a buffer gives the same codes, bytes and sizes as one without if and only if no write puts data that fits the buffer at a negative offset, and then both leave the same file |
| JournalSpec.AgreementFrom | optee_examples/tee_sqilte/ta/tee_vfs.c:82-270 | the same from any two handles that a caller cannot tell apart, with data waiting in the buffer |
| JournalSpec.BufferWriteAgrees | optee_examples/tee_sqilte/ta/tee_vfs.c:174-205 | the copying loop, at any non-negative offset and any size, succeeds and equals one write to the overlay of file and buffer |
| JournalSpec.BufferWriteNegative | optee_examples/tee_sqilte/ta/tee_vfs.c:174-205 | at a negative offset the loop succeeds exactly when the data fits the buffer, and otherwise fails and changes nothing a caller can see |
| JournalSpec.MinusOneUnnoticed | optee_examples/tee_sqilte/ta/tee_vfs.c:63-76 | a failing seek is reported as a successful write exactly at offset -1, and the data then lands at the old position |
| JournalSpec.MinusOneDiverges | optee_examples/tee_sqilte/ta/tee_vfs.c:63-76 | a concrete run with a write at offset -1 in which all answers are equal and the two files differ |
| JournalSpec.CrashPrefix | optee_examples/tee_sqilte/ta/tee_vfs.c:157-242 | with any outcomes of the system calls, including short writes, as long as no earlier call answered SQLITE_IOERR_WRITE, and whatever the last call does: stopping after any number of landed bytes leaves the replay of exactly that prefix of the bytes written |
| JournalSpec.BufferWriteLands | optee_examples/tee_sqilte/ta/tee_vfs.c:174-205 | inside the copying loop, what has landed followed by what the buffer holds is the write history; after a failing turn what landed is a prefix |
| JournalSpec.SyncDrains | optee_examples/tee_sqilte/ta/tee_vfs.c:229-242 | after a run without an answer SQLITE_IOERR_WRITE that ends in a sync, even one whose fsync failed, the buffer is empty and the log is the whole history, so nothing later can precede it |
| JournalSpec.OrderLostAfterFailure | optee_examples/tee_sqilte/ta/tee_vfs.c:82-91 | a concrete run that carries on after a failed flush and loses the order |
| JournalOrder.OrderKeptExactly | optee_examples/tee_sqilte/ta/tee_vfs.c:82-213 | after any run with any outcomes: every continuation whose system calls succeed leaves a prefix of the write history if and only if no answer so far was SQLITE_IOERR_WRITE and what waits does not begin before the start of the file |
| JournalOrder.OrderKeptUnlessWriteFailed | optee_examples/tee_sqilte/ta/tee_vfs.c:82-213 | for runs that write inside the file the order is kept for good if and only if no answer was SQLITE_IOERR_WRITE |
| JournalOrder.WaitingBeforeStart | optee_examples/tee_sqilte/ta/tee_vfs.c:174-205 | a concrete run in which nothing has failed and yet a byte waits that has no place in the file |
| JournalOrder.LostForGood | optee_examples/tee_sqilte/ta/tee_vfs.c:82-91 | once a buffered handle has answered SQLITE_IOERR_WRITE, landed and waiting bytes together stay fewer than the bytes written, whatever follows |
| JournalSpec.CoalescedRun | optee_examples/tee_sqilte/host/demovfs.c:96-113 | a gap-free run of writes of any sizes followed by a sync issues exactly ceil(T/8192) physical writes, the k-th at o+8192k, all full except possibly the last |
| JournalPlain.AnswersOfPlainFile | optee_examples/tee_sqilte/ta/tee_vfs.c:109-270 | with or without a buffer, every answer of a run is what the bytes written so far, performed one by one, call for: a read gives exactly the bytes there and zeros behind them, with the code for all or fewer; the size is their number |
| JournalPlain.LeavesPlainFile | optee_examples/tee_sqilte/ta/tee_vfs.c:82-104 | after a close or a sync the file holds exactly these bytes |
| JournalPlain.FailureAnswers | optee_examples/tee_sqilte/ta/tee_vfs.c:109-270 | with nothing to flush, an operation answers the code of its kind if a system call it makes fails, and no error otherwise, except for a write that moved too few bytes |
| JournalPlain.FlushFailureAnswers | optee_examples/tee_sqilte/ta/tee_vfs.c:82-91 | with something to flush, a failing flush is what every operation but a write answers |
| JournalFile.DemoFile.constructor | optee_examples/tee_sqilte/ta/tee_vfs.c:312-379 | only a main journal gets a buffer, which starts empty |
| JournalFile.DemoFile.DemoOpen | optee_examples/tee_sqilte/ta/tee_vfs.c:312-379 | each error of opening, and otherwise a handle with an empty buffer exactly for a main journal |
| JournalFile.DemoFile.DemoDirectWrite | optee_examples/tee_sqilte/ta/tee_vfs.c:52-77 | the object after a direct write is the specified handle, with its result code |
| JournalFile.DemoFile.DemoFlushBuffer | optee_examples/tee_sqilte/ta/tee_vfs.c:82-91 | flushing writes the buffered bytes at their offset and empties the buffer, also when the write fails |
| JournalFile.DemoFile.DemoClose | optee_examples/tee_sqilte/ta/tee_vfs.c:96-104 | closing flushes and returns the flush's code |
| JournalFile.DemoFile.DemoRead | optee_examples/tee_sqilte/ta/tee_vfs.c:109-151 | flush, seek, read; a short read is completed with zeros and reported as such |
| JournalFile.DemoFile.DemoWrite | optee_examples/tee_sqilte/ta/tee_vfs.c:157-213 | the loop over the caller's bytes, filling and flushing in place, ends in the handle of the recursive specification |
| JournalFile.DemoFile.DemoSync | optee_examples/tee_sqilte/ta/tee_vfs.c:229-242 | flush then fsync, with their codes |
| JournalFile.DemoFile.DemoFileSize | optee_examples/tee_sqilte/ta/tee_vfs.c:247-270 | flush then the size, which is stored only on success |
| TableSpec.TableRefinesMap | optee_examples/tee_sqilte/ta/hashmap.c:47-129 | from creation on, any run of set, get, unset, isset and clear, with rehashes wherever they fall, answers like a finite map; keys are unique and in their own bucket; the counter is the number of keys |
| TableSpec.RunGood | optee_examples/tee_sqilte/ta/hashmap.c:280-337 | the same from any table in good order |
| TableSpec.LookupIsContents | optee_examples/tee_sqilte/ta/hashmap.c:293-304 | what a lookup in the bucket of a key finds is what the map holds |
| TableSpec.RehashKeeps | optee_examples/tee_sqilte/ta/hashmap.c:229-269 | rehashing in place loses and duplicates no entry, puts each into its bucket at the new size, and keeps the map, although moved entries are met and moved again |
| TableSpec.RehashFromKeeps | optee_examples/tee_sqilte/ta/hashmap.c:243-266 | the outer loop from any bucket on: every finished bucket is final, every entry survives |
| TableSpec.NextSizeGrows | optee_examples/tee_sqilte/ta/hashmap.c:31-45 | for 32-bit sizes the next size is larger exactly when doubling does not wrap; it is the least listed size above when there is one, and else twice the size |
| TableSpec.SetKeepsLoad | optee_examples/tee_sqilte/ta/hashmap.c:306-322 | a set keeps the load bound, with a load factor of at least one and fewer than 2^31 keys |
| TableSpec.SetSizes | optee_examples/tee_sqilte/ta/hashmap.c:306-322 | a set that overloads the table lets it grow to the next size, any other set keeps the size |
| TableSpec.LoadBounded | optee_examples/tee_sqilte/ta/hashmap.c:306-322 | from creation on, with a load factor of at least one, after any run of up to 2^31 operations the keys are at most load factor times the number of buckets |
| TableSpec.SetGood | optee_examples/tee_sqilte/ta/hashmap.c:306-322 | a set updates the map at its key and nowhere else, counter and growth included |
| TableSpec.UnsetGood | optee_examples/tee_sqilte/ta/hashmap.c:324-331 | an unset removes just its key |
| TableSpec.ClearGood | optee_examples/tee_sqilte/ta/hashmap.c:280-291 | after a clear the table stands for the empty map and the counter is zero |
| HashTable.SetItem | optee_examples/tee_sqilte/ta/hashmap.c:47-94 | the list is rewritten in place to the chain with the key set, and says whether it grew |
| HashTable.GetItem | optee_examples/tee_sqilte/ta/hashmap.c:96-108 | the node found carries the chain's value for the key; null exactly when there is none |
| HashTable.RemoveItem | optee_examples/tee_sqilte/ta/hashmap.c:110-129 | the list is rewritten to the chain without the key |
| HashTable.RemoveItems | optee_examples/tee_sqilte/ta/hashmap.c:131-154 | nothing remains and the count is the length |
| HashTable.KeyExists | optee_examples/tee_sqilte/ta/hashmap.c:156-168 | true exactly when the chain has the key |
| HashTable.UpdateItemList | optee_examples/tee_sqilte/ta/hashmap.c:170-189 | a detached node is hung at the end, unless its key is there |
| HashTable.ComputeNextSize | optee_examples/tee_sqilte/ta/hashmap.c:31-45 | the scan of the size list finds the next size |
| HashTable.HashMap.constructor | optee_examples/tee_sqilte/ta/hashmap.c:197-227 | an empty table of the next size |
| HashTable.HashMap.HmRehash | optee_examples/tee_sqilte/ta/hashmap.c:229-269 | nodes are moved between buckets of the array being walked; lists stay acyclic and share no node; the table is the specified one; the loops end |
| HashTable.HashMap.MoveChain | optee_examples/tee_sqilte/ta/hashmap.c:248-265 | the inner loop over the nodes of one detached bucket |
| HashTable.HashMap.HmClear | optee_examples/tee_sqilte/ta/hashmap.c:280-291 | every bucket is emptied and the counter adjusted |
| HashTable.HashMap.HmGet | optee_examples/tee_sqilte/ta/hashmap.c:293-304 | returns the specified value |
| HashTable.HashMap.HmSet | optee_examples/tee_sqilte/ta/hashmap.c:306-322 | the bucket is rewritten and the table grown when overloaded |
| HashTable.HashMap.HmUnset | optee_examples/tee_sqilte/ta/hashmap.c:324-331 | the bucket is rewritten without the key |
| HashTable.HashMap.HmIsSet | optee_examples/tee_sqilte/ta/hashmap.c:333-337 | whether the map has the key |
| AsWritten.WrittenAgrees | optee_examples/tee_sqilte/ta/hashmap.c:81-82 | with `=` for equality, set, get and remove on a list of the searched key's nodes do what is meant if and only if the key is not 0 or the list is empty |
| AsWritten.WrittenExactly | optee_examples/tee_sqilte/ta/hashmap.c:19-29 | from creation on, with the text as spelled throughout and the table growing wherever it does, any run with keys inside the array answers like a finite map if and only if it never asks for key 0 while that is set |
| AsWritten.WrittenCounter | optee_examples/tee_sqilte/ta/hashmap.c:47-94 | in any such run the counter and the number of entries are the number of other keys plus one for every set of key 0 since the last clear |
| AsWritten.GrowsExactly | optee_examples/tee_sqilte/ta/hashmap.c:306-322 | as spelled, a set lets the table grow exactly when the other keys and the entries of key 0 together exceed the load |
| AsWritten.RehashWrittenExtends | optee_examples/tee_sqilte/ta/hashmap.c:229-269 | as spelled, a rehash leaves every entry in its bucket and adds empty ones, although every entry of bucket 0 is hung back one by one |
| AsWritten.CodecFindsTags | optee_examples/tee_sqilte/ta/codec.c:543-647 | any sets of keys inside the array and any lookups of pages answer like a finite map |
| AsWritten.WrittenRefinesMap | optee_examples/tee_sqilte/ta/hashmap.c:19-29 | from creation on, with the text as spelled throughout and a load factor of at least one, any run with keys inside the array other than 0 answers like a finite map and the table keeps its size |
| AsWritten.ZeroIsLost | optee_examples/tee_sqilte/ta/hashmap.c:102-103 | key 0 is stored, never found, and stored again |
| TagFileSpec.DumpThenLoad | optee_examples/tee_sqilte/ta/codec.c:95-141 | the loading loop stays inside its local arrays if and only if the dumped map has at most 99 entries, and then the same map comes back, whatever the hash, the bucket order and the number of buckets on either side |
| TagFileSpec.RecordAt | optee_examples/tee_sqilte/ta/codec.c:102-116 | the seek arithmetic finds each key and tag of the dumped records |
| TagFileSpec.IntRoundTrip | optee_examples/tee_sqilte/ta/codec.c:102-116 | every 32-bit key survives its four bytes |
| TagFileSpec.LittleEndian | optee_examples/tee_sqilte/ta/hashmap.c:357-378 | the four bytes of a key as they lie in memory, least significant first |
| TagFileSpec.FreshMapIs | optee_examples/tee_sqilte/ta/codec.c:103 | the map a load starts from has 769 empty buckets and load factor one |
| TagFile.HmDump | optee_examples/tee_sqilte/ta/hashmap.c:357-378 | for a map of ints to 16-byte tags the file holds a 20-byte record per node in bucket order; an empty map writes nothing |
| TagFile.CloseMap | optee_examples/tee_sqilte/ta/codec.c:125-141 | closing a map in good order leaves a file that holds exactly its records, nothing older |
| TagFile.CreateMap | optee_examples/tee_sqilte/ta/codec.c:95-118 | the loop stays inside the local arrays if and only if the file has at most 99 records, and then the new map is the specified load of the file |
| TagFile.CloseThenCreate | optee_examples/tee_sqilte/ta/codec.c:95-141 | closing a map and creating it again, call by call: inside the arrays if and only if it has at most 99 entries, and then the new map stands for the same |
| TagFileSpec.ParseLength | optee_examples/tee_sqilte/ta/codec.c:102-116 | how many records the loop finds in a file of any length |
| Session.SessionSurvives | optee_examples/tee_sqilte/ta/codec.c:95-141 | load the tags, run any loads, journal steps and stores under one key, dump, load again: inside the arrays if and only if there are at most 99 tags, and then every lookup finds its tag, and every page loads, authenticates and is what was stored last |
| Session.SpelledFindsTags | optee_examples/tee_sqilte/ta/codec.c:543-575 | with comparison and hash as spelled, after any run on pages below the number of buckets, however often page 1 was encrypted, looking up a page finds its tag |
| PageCodec.RoundTripsExactly | optee_examples/tee_sqilte/ta/codec.c:543-647 | the pages that every cipher under every key gives back are all pages except page 1 without the magic string or a valid header |
| PageCodec.PageRoundTrip | optee_examples/tee_sqilte/ta/codec.c:605-647 | decryption authenticates and undoes encryption, although bytes of page 1 are moved and stored in clear |
| PageCodec.MagicIsForced | optee_examples/tee_sqilte/ta/codec.c:630-641 | a page 1 with a valid header comes back with the magic string in front, whatever was there |
| PageCodec.BadHeaderFails | optee_examples/tee_sqilte/ta/codec.c:605-647 | without a valid header there is a cipher that does not give page 1 back |
| PageCodec.StoredByte | optee_examples/tee_sqilte/ta/codec.c:543-575 | every stored byte: the plain byte it stands for, sealed at its place in the stream, except the header of page 1 |
| PageCodec.ClearExactly | optee_examples/tee_sqilte/ta/codec.c:543-575 | a stored byte is in clear under every cipher and key if and only if it is one of bytes 16 to 23 of page 1 |
| PageCodec.TagCoversStored | optee_examples/tee_sqilte/ta/codec.c:555-568 | encryption records the tag of the bytes that are stored, for page 1 also that of its sealed first 16 bytes under key 0, and no other |
| PageCodec.AuthenticExactly | optee_examples/tee_sqilte/ta/codec.c:605-647 | a page is found authentic if and only if its recorded tag is that of the stored bytes |
| PageCodec.MagicExactly | optee_examples/tee_sqilte/ta/codec.c:630-641 | the magic string is put back exactly when the decrypted header is the one in clear |
| PageCodec.ValidHeaders | optee_examples/tee_sqilte/ta/codec.c:615-627 | the accepted headers one by one: the eight page sizes from 512 to 65536 and the fixed payload fractions |
| CodecObject.CodecState.CodecEncrypt | optee_examples/tee_sqilte/ta/codec.c:543-575 | the in-place encryption and the tag map it leaves are the specified ones; bytes past the page are untouched |
| CodecObject.CodecState.CodecDecrypt | optee_examples/tee_sqilte/ta/codec.c:605-647 | the in-place decryption, its moves and its comparison of headers, always with the read key |
| CodecObject.CodecState.CopyKey | optee_examples/tee_sqilte/ta/codec.c:505-522 | one key array is copied over the other, byte by byte |
| CodecObject.CodecState.CopyFrom | optee_examples/tee_sqilte/ta/codec.c:486-503 | flags and both key arrays of another codec are taken over |
| CodecObject.CodecState.Init | optee_examples/tee_sqilte/ta/codec.c:424-429 | a codec starts with its flags cleared |
| EncryptedDatabase.Sqlite3Codec | optee_examples/tee_sqilte/ta/codecext.c:39-151 | by mode number: 0, 2 and 3 decrypt with the read key, 6 encrypts with the write key and 7 with the read key, any other hands the page through; encryption leaves the caller's page alone |
| RekeySpec.RunsAgree | optee_examples/tee_sqilte/ta/codecext.c:55-147 | tag agreement: under one key, any run of loads, journal steps and stores answers like a disk of plain pages, so every load authenticates and returns what was stored last |
| RekeySpec.JournalRepeats | optee_examples/tee_sqilte/ta/codecext.c:126-147 | journalling the present content gives the bytes on disk again and leaves every page's tag as it is |
| RekeySpec.StoredLoads | optee_examples/tee_sqilte/ta/codecext.c:55-90 | a stored page is loaded as what it is |
| RekeySpec.StoredReads | optee_examples/tee_sqilte/ta/codecext.c:57-90 | in each of modes 0, 2 and 3 a stored page is handed back as what it is, found authentic |
| RekeySpec.UndoOfJournal | optee_examples/tee_sqilte/ta/codecext.c:57-147 | undoing (mode 0) what was encoded for the journal (mode 7) gives the page back |
| RekeySpec.ReadsWhatWasStored | optee_examples/tee_sqilte/ta/codecext.c:57-125 | what was stored (mode 6) is read back in modes 0, 2 and 3 by a codec that reads with the key it writes with |
| RekeySpec.StoreStores | optee_examples/tee_sqilte/ta/codecext.c:91-125 | a store puts page and tag where the writing key finds them and touches no other page |
| RekeySpec.SkipPageUnique | optee_examples/tee_sqilte/ta/include/codec.h:42 | the skipped page is the only n with (n-1)*pageSize <= PENDING_BYTE < n*pageSize, for every page size |
| RekeySpec.EveryPageOnce | optee_examples/tee_sqilte/ta/codecext.c:376-393 | a page loop that runs through asks for each page exactly once, except the skipped one |
| RekeySpec.RekeySucceeds | optee_examples/tee_sqilte/ta/codecext.c:276-456 | after success every page but the skipped one loads, authenticates and has its old content under the new key, or in plain; the bytes of the skipped page are untouched |
| RekeySpec.RekeyCode | optee_examples/tee_sqilte/ta/codecext.c:344-409 | a rekey answers OK if and only if there is nothing to do or nothing fails that it runs into, and else the code of what failed; a fault at the skipped page or behind the last is not met |
| RekeySpec.RekeyedKeys | optee_examples/tee_sqilte/ta/codecext.c:413-454 | after success the codec reads and writes with the new key, or is removed |
| RekeySpec.RekeyFails | optee_examples/tee_sqilte/ta/codecext.c:396-454 | after a failure anywhere, the bytes on disk and the reading key are the old ones, and a page is readable if and only if the commit had not yet replaced its tag by a different one |
| EncryptedDatabase.Database.TouchPages | optee_examples/tee_sqilte/ta/codecext.c:376-393 | the page loop ends in the specified database with the specified code |
| EncryptedDatabase.Database.RewriteOrRollback | optee_examples/tee_sqilte/ta/codecext.c:350-409 | begin, loop, commit, and rollback on any error |
| EncryptedDatabase.Database.BeginRekey | optee_examples/tee_sqilte/ta/codecext.c:286-342 | the flags and key arrays during a rekey |
| EncryptedDatabase.Database.FinishRekey | optee_examples/tee_sqilte/ta/codecext.c:413-454 | the flags and key arrays afterwards; the codec of an unencrypted database is removed |
| EncryptedDatabase.Database.RekeyV2 | optee_examples/tee_sqilte/ta/codecext.c:276-456 | the whole operation on the objects is the specified rekey; it answers OK exactly when nothing it runs into fails, and then the keys are the first 16 bytes of the new password |
| KeysSpec.KeysAlwaysAgree | optee_examples/tee_sqilte/ta/codecext.c:163-224 | over any sequence of attaching and rekeying, every codec is encrypted, has a read key and equal keys; with no failed decryption it also writes with the key it reads with |
| KeysSpec.AttachMeans | optee_examples/tee_sqilte/ta/codecext.c:163-224 | which database gets which key: with a key the attached one and no other, without one that of an encrypted main database, and nothing in all other cases |
| Connection.Databases.CodecAttach | optee_examples/tee_sqilte/ta/codecext.c:163-224 | a key, the first 16 bytes of the password, makes a new codec with equal keys for the attached database, no key copies that of an encrypted main database, and nothing else changes |
| KeysSpec.RekeyCases | optee_examples/tee_sqilte/ta/codecext.c:413-454 | the key state after each kind of rekey: a failed re-encryption restores the key, a failed first encryption removes the codec, a failed decryption leaves no write key |
| KeysSpec.SettledExactly | optee_examples/tee_sqilte/ta/codecext.c:413-454 | one rekey leaves different keys for reading and writing if and only if it is a failed decryption of an encrypted database |
| KeysSpec.FailedDecryptStoresPlain | optee_examples/tee_sqilte/ta/codecext.c:430-440 | after a decryption that failed with any code a store writes plain bytes under the old tag; the next load accepts them only if that tag happens to be theirs |
| ThreadPool.DecNeverFails | optee_client/tee-supplicant/tee_supplicant.c:119-143 | in every interleaving, with or without meta parameters and failures, the counter is the number of counted threads plus the leaked waiters, and the assertion in num_waiters_dec holds |
| ThreadPool.NeverAllBusy | optee_client/tee-supplicant/tee_supplicant.c:605-633 | in every interleaving in which requests carry a meta parameter and nothing fails, the counter is exact, some thread is outside the handlers, and once all have settled one waits |
| ThreadPool.LiveExactly | optee_client/tee-supplicant/tee_supplicant.c:1289-1378 | in every interleaving without failures: some thread stays outside the handlers whatever requests with meta parameters follow if and only if no waiter has leaked, that is, if and only if every request received so far carried one |
| ThreadPool.Drain | optee_client/tee-supplicant/tee_supplicant.c:1315-1316 | after a leak, steps that all carry meta parameters and succeed bring every thread into a handler |
| ThreadPool.StepInv | optee_client/tee-supplicant/tee_supplicant.c:1289-1378 | every atomic step of every thread keeps the invariant of the counter |
| ThreadPool.WithoutMetaAllBusy | optee_client/tee-supplicant/tee_supplicant.c:1315-1316 | the condition is needed: one request without a meta parameter makes the only thread busy |
| ThreadPool.AbortStops | optee_client/tee-supplicant/tee_supplicant.c:1361-1378 | once the abort flag is up it stays up, and no thread that is not past its loop head, nor one created later, ever passes it |
| ThreadPool.FailureExactly | optee_client/tee-supplicant/tee_supplicant.c:1361-1378 | in every interleaving the flag is up, or a thread is on its way to raise it, if and only if a receive, a spawn or a handler failed |
| ShmList.UniqueKept | optee_client/tee-supplicant/tee_supplicant.c:173-228 | with unique identifiers the list refines a finite map: pop removes just its binding, and push keeps them unique exactly when the identifier is new |
| ShmList.FindIsLookup | optee_client/tee-supplicant/tee_supplicant.c:173-186 | find is the lookup in that map |
| ShmList.PushBinds | optee_client/tee-supplicant/tee_supplicant.c:220-228 | push adds or shadows one binding |
| ShmList.PopUnlinksFound | optee_client/tee-supplicant/tee_supplicant.c:188-218 | pop takes out exactly the record that find finds, from any position |
| ShmList.PopUnbinds | optee_client/tee-supplicant/tee_supplicant.c:188-218 | the binding is gone if and only if no second record had the identifier; all others stay |
| ShmList.AllocThenFree | optee_client/tee-supplicant/tee_supplicant.c:401-458 | a call finds its buffer and in the end leaves the list as if it had never been there, whatever other threads push and pop meanwhile under other identifiers |
| ShmList.ShmTable.FindTshm | optee_client/tee-supplicant/tee_supplicant.c:173-186 | the walk returns the specified record |
| ShmList.ShmTable.PopTshm | optee_client/tee-supplicant/tee_supplicant.c:188-218 | the walk and the relinking leave an acyclic list of the specified records |
| ShmList.ShmTable.PushTshm | optee_client/tee-supplicant/tee_supplicant.c:220-228 | the record becomes the head of an acyclic list |
| Params.FindParams | optee_client/tee-supplicant/tee_supplicant.c:573-603 | the meta parameters in front are counted, and the request is accepted exactly when no meta parameter follows another one |
| Params.WindowsAgree | optee_client/tee-supplicant/tee_supplicant.c:271-276 | although both sums wrap around, both guards accept exactly the windows whose mathematical end lies inside the buffer |
| Params.AddressIsOffset | optee_client/tee-supplicant/tee_supplicant.c:1635-1655 | the address of an accepted window is its offset in the memory of the buffer with its identifier; every other reference has none |
| Params.GetParam | optee_client/tee-supplicant/tee_supplicant.c:231-284 | every error case, and otherwise the address, size and identifier; null for a missing output buffer |
| Params.ParamToVa | optee_client/tee-supplicant/tee_supplicant.c:1635-1655 | the address of the window, or null exactly when there is no such window |
| Words.IntSurvives | optee_os/core/tee/tee_sqlite.c:268-272 | a signed value comes back through a 64-bit field and an int if and only if it is an int |
| Words.LongSurvives | optee_os/core/tee/tee_sqlite.c:423-427 | the same for a 64-bit signed result |
| Rpc.Supplicant.ProcessAlloc | optee_client/tee-supplicant/tee_supplicant.c:401-423 | each error case unchanged; otherwise a fresh buffer of the granted memory heads the list and its identifier is reported |
| Rpc.Supplicant.ProcessFree | optee_client/tee-supplicant/tee_supplicant.c:425-458 | the buffer with the identifier leaves the list; an unknown identifier and a failing unmap are errors |
| Rpc.Supplicant.VfsWrite | optee_client/tee-supplicant/tee_supplicant.c:693-710 | a malformed request changes nothing; otherwise the direct write of the bytes at the address |
| Rpc.Supplicant.VfsRead | optee_client/tee-supplicant/tee_supplicant.c:843-862 | the direct read into the shared buffer; only the bytes read change there |
| Rpc.LseekMeans | optee_client/tee-supplicant/tee_supplicant.c:953-970 | what the direct seek does in each direction: where the position ends, which offsets are refused, and that nothing else changes |
| Rpc.Supplicant.VfsLseek | optee_client/tee-supplicant/tee_supplicant.c:953-970 | the direct seek with the converted arguments, and an error number exactly when it fails |
| Rpc.Supplicant.VfsFsync | optee_client/tee-supplicant/tee_supplicant.c:972-987 | the direct fsync, and an error number exactly when it fails |
| Rpc.Supplicant.VfsFilesize | optee_client/tee-supplicant/tee_supplicant.c:1190-1214 | the direct size, or -1 and an error number |
| Rpc.SyscallVfsWrite | optee_os/core/tee/tee_sqlite.c:238-273 | end to end the direct write of the caller's bytes, the result equal exactly when it is an int, the list of shared buffers as before; -1 and no change when memory is not granted |
| Rpc.SyscallVfsRead | optee_os/core/tee/tee_sqlite.c:396-428 | end to end the direct read; the caller's buffer is the bytes read followed by zeros up to the size, the rest untouched |
| Rpc.SyscallVfsLseek | optee_os/core/tee/tee_sqlite.c:549-564 | end to end the direct seek, for every offset and direction |
| Rpc.SyscallVfsFsync | optee_os/core/tee/tee_sqlite.c:566-581 | end to end the direct fsync |
| Rpc.SyscallVfsFilesize | optee_os/core/tee/tee_sqlite.c:917-931 | end to end the direct size |
| RemoteFile.RemoteHandle.RunCalls | optee_examples/tee_sqilte/ta/tee_vfs.c:52-270 | a run of VFS calls on a handle over the forwarded calls gives the answers, file and buffer of the run on the file itself, for arguments of the C types |
| RemoteFile.RunToClose | optee_os/core/tee/tee_sqlite.c:238-273 | the whole stack from open to close answers like an unbuffered handle on the file itself and leaves the same file, exactly when no write puts data that fits the buffer at a negative offset; with writes inside the file every answer, and the file, is that of the plain bytes; no shared buffer is left over |

## Left out

- The other forwarded calls (stat, fcntl, mkdir, time and so on), syscall numbers and dispatch tables: each is one call or a finite table without state of its own.
- `set_ta_path`: splits the configured search path once at start.
- The SQLite engine, pager and B-tree: they appear as load (mode 3), journal (mode 7), store (mode 6), commit and rollback. The cache is empty when a rekey starts, and a rollback puts the journalled bytes back without the codec.
- AES-GCM (sections 7.1 and 7.2 of NIST SP 800-38D) is an uninterpreted key stream combined by exclusive or and an uninterpreted tag function. The derivation of a key from a password is a copy of its 16 bytes. Handles and errors of the TEE are not modelled.
- codec.c and codecext.c are not listed in sub.mk; they are modelled as the intended design of the encrypted build.
- The database class holds the tag map as a finite map; `HashTable` and `TableSpec` show that the program's hash map is one.
- Keys and values of the hash map are held by value: that callers pass addresses in local arrays, and so alias keys and tags, is not modelled.
- Failing allocation, freeing, locking, logging and timing, and the load factor's rounding as a float (it is a real number).
- The unused parts of the VFS: truncate, delete, access, and the stubs.
- JournalSpec.BufferedRunsAgree: leaves out offset -1, where the code itself behaves differently (`MinusOneUnnoticed`, `MinusOneDiverges`), and 64-bit overflow of offsets.
- JournalSpec.AgreementFrom: the same.
- JournalSpec.CrashPrefix: ends at the first answer SQLITE_IOERR_WRITE, because then bytes are missing for good (`OrderKeptExactly`).
- JournalFile.DemoFile.DemoOpen: the flags passed on to the system and handed back to the caller.
- JournalFile.DemoFile.DemoClose: the descriptor is given back without a result, as in the code.
- TagFile.CreateMap: what happens once the loop has left its arrays.
- TagFile.HmDump: file calls succeed, since the code does not look at their results.
- TagFile.CloseMap: opening succeeds and truncates; that the map is freed afterwards.
- RekeySpec.RekeyFails: one failure at a time, which is enough because the first one ends the operation; a failing rollback is not modelled.
- CodecObject.CodecState.CopyFrom: the tag field, which encryption and decryption do not use, and the link to the B-tree.
- Connection.Databases.CodecAttach: the link from a codec to its B-tree.
- ThreadPool.NeverAllBusy: threads are never destroyed except by a failure, and the flag that aborts is read and set atomically.
- ShmList.ShmTable.PopTshm: runs under its mutex, so each list operation is one step; interleavings are in `AllocThenFree`.
- Rpc.Supplicant.VfsRead: the bytes asked for must lie in the shared buffer, which the handler does not check and `SyscallVfsRead` guarantees; past it the effect of the source is undefined.
- Rpc.Supplicant.VfsWrite: the same for the bytes to be written.
- Rpc.Supplicant.VfsLseek: which error number a failing call leaves (errno); only whether there is one is modelled.
- Rpc.Supplicant.VfsFsync: the same.
- Rpc.Supplicant.VfsFilesize: the same.
- Rpc.SyscallVfsWrite: the driver between the two worlds hands parameters over unchanged and lets both sides see the same pages; thread_rpc_alloc_payload and thread_rpc_free_payload are not part of this repository and do no more than the supplicant's allocation and release.
- RemoteFile.RemoteHandle.RunCalls: holds the buffered bytes by value; `JournalFile` has them in place.
- RemoteFile.RunToClose: offset -1, as above, a driver that refuses memory (`SyscallVfsWrite` and `SyscallVfsRead` cover it call by call), and files of 2^63 bytes and more.
