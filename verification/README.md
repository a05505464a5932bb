# Verified models of Samba client plumbing

Dafny models of the self-contained pieces of this tree whose behaviour is decided by the code
alone, with proofs of what each piece promises. `dafny verify dfyconfig.toml` checks everything.

| files | what they model |
|---|---|
| `Common.dfy` | bytes, `Option`, small helpers |
| `LzBits.dfy` `LzFormat.dfy` `LzDecode.dfy` `LzDecodeProps.dfy` `LzSimulation.dfy` `LzGreedy.dfy` `LzWrite.dfy` `LzCompress.dfy` `LzRoundTrip.dfy` `LzGreedyProps.dfy` `LzVectors.dfy` | the plain LZ77 codec (`lzxpress_compress`, `lzxpress_decompress`) |
| `MtabTable.dfy` `MtabProtocol.dfy` `MtabProgress.dfy` | the mtab lock and the two critical sections it protects, for any number of processes |
| `Writev.dfy` `ReadPacket.dfy` | the iovec consumer and the packet framer under an arbitrary kernel |
| `CbcSpec.dfy` `Cbc.dfy` | `AES_cbc_encrypt` over any invertible block cipher, in place or not |
| `Tokenizer.dfy` `NssPacking.dfy` `NssEnum.dfy` `InitGroups.dfy` | the NSS module: tokenizer, buffer packing, enumeration cache, group list |
| `WbSocket.dfy` | the winbind client connection and its recursive set-up |
| `GpLink.dfy` `GpoSec.dfy` `GpoSpec.dfy` `GpoOrder.dfy` `GpoList.dfy` | Group Policy links, security filtering and list construction |

How the codec is proved. `LzFormat.Cursor` says where every token goes as a function of the tokens
alone; `Encodes` says that a buffer holds a list of tokens. The compressor goes back to the current
indicator word and to the high half of a nibble byte long after it wrote later tokens, so its loop
invariant (`LzWrite.Written`) quantifies over every way the open places may still be filled in. The
decompressor follows the same cursor (`LzSimulation.AtToken`), and the chosen tokens
(`LzGreedy.Tokens`) expand to the text, which closes the round trip.

How the lock is proved. `MtabProtocol.Step` makes one system call of one process, with any answer,
a signal included, caught or not; `Run` follows any schedule. `Inv` is inductive and says whose the
lock is, that only its holder touches the table and the temporary file, and that the table equals
the committed operations applied one at a time in the order the lock was taken. Waiting in fcntl is
a step that may return at any time, so nothing depends on it.

How the client is proved. `WbSocket.Client.script` holds all answers of the system and the daemon, so
each method is proved for every one of them; `conns` records every connection ever made, by whom and
where, what the kernel took on it, and whether it was found closed. What goes where is stated by
comparing `conns` before and after a call (`Confined`, `OwnOnly`, `Got`, `DeliveredNow`).

What is promised is also said apart from the functions the code is proved against: `LzGreedyProps` says
which token belongs where, `LzVectors` how long a stream is, `MtabProgress` what becomes of an update,
`GpoOrder` what the policy list holds and in which order, and smaller lemmas beside the other modules
say what one request, record, block or entry comes to.

Behaviour of the code worth knowing, each backed by a lemma:

- `lzxpress_compress` stores one literal past the end of the text when its main loop used the whole
  text up, and always reports four bytes more than it wrote. The output decodes to the text when the
  limit is the original size (`LzRoundTrip.RoundTrip`); a longer limit gives the text and possibly
  more, even from bytes that were never written (`LzRoundTrip.TextUnderEveryLimit`,
  `LzRoundTrip.LongerLimitReadsOn`).
- `lzxpress_decompress` may read up to nine bytes past the declared input size, and no more
  (`LzDecodeProps.SlackSuffices`, `LzDecodeProps.NineBytesAreNeeded`); with a limit of 0 it still
  stores a first literal (`LzDecodeProps.OutputBound`).
- An empty `writev_send` request never succeeds: unless the kernel reports an error of its own it
  ends in EPIPE (`Writev.EmptyRequestBreaks`).
- A mounter or unmounter killed outright while it holds the mtab lock leaves the lock file, and nobody
  updates the table again (`MtabProtocol.LockLeftIff`, `MtabProtocol.LostHolderBlocks`). The comment
  at client/mtab.c:75 promises removal only for caught signals and exit, and there it holds.
- A `setpwent` or `endpwent` while a TRYAGAIN waits for its retry ends the enumeration for good,
  because `called_again` is not cleared; one that does not reach the daemon loses the entries still
  cached (`NssEnum.ResetSafeIff`, `NssEnum.StuckForever`).
- `fill_grent` stores pointers behind its array when the server lists more members than it counts
  (`NssPacking.FillGrent`).
- `winbindd_send_request` sends the extra data alone on a new connection when the daemon closed the old
  one after the fixed part (`WbSocket.Client.SendRequest`, `WbSocket.ExtraAlone`).
- A gPLink DN survives printing and parsing exactly when it has no `]`, `;` or `"`
  (`GpLink.RoundTripIffClean`).

## Model

| member | source | states |
|---|---|---|
| LzRoundTrip.RoundTrip | winexe-1.00/lib/compression/lzxpress.c:59-312 | for every non-empty text, any buffer that holds the compressor's tokens decodes, with the reported size and the original length as limit, to exactly the text; when the main loop used the text up, a limit of one more gives the text and the byte after it |
| LzRoundTrip.TextUnderEveryLimit | winexe-1.00/lib/compression/lzxpress.c:59-312 | under every limit, with the slack readable, the result agrees with the text up to the smaller of limit and length |
| LzRoundTrip.LongerLimitReadsOn | winexe-1.00/lib/compression/lzxpress.c:222-230 | when the main loop leaves a byte over, a limit of one more need not give the byte behind the text: it comes from the four that are counted but never written |
| LzRoundTrip.CompressThenDecompress | winexe-1.00/lib/compression/lzxpress.c:59-312 | calling both on buffers with arbitrary contents returns the original length and the original bytes |
| LzRoundTrip.ReportedSize | winexe-1.00/lib/compression/lzxpress.c:93-230 | the reported size is at most n + 9 + 4((n+1)/32), and n + 8 + 4(n/32) when no extra byte is stored |
| LzRoundTrip.CallerBufferSuffices | winexe-1.00/librpc/ndr/ndr_compression.c:333-362 | the fixed 0x20002-byte buffer of the NDR layer is large enough for its 64 KiB chunks |
| LzRoundTrip.BoundIsTight | winexe-1.00/lib/compression/lzxpress.c:93-230 | one byte of text costs ten bytes, which meets the bound |
| LzRoundTrip.TokensCover | winexe-1.00/lib/compression/lzxpress.c:93-220 | the tokens cover the text, plus one byte exactly when the main loop used it up |
| LzCompress.Compress | winexe-1.00/lib/compression/lzxpress.c:59-231 | the buffer ends up encoding the greedy parse of the text, whatever it held before; the size is that of the stream and within the bound; no byte past the bound is written |
| LzGreedyProps.TokensAreGreedy | winexe-1.00/lib/compression/lzxpress.c:93-220 | at each position of the main loop the token is the longest match within 0x1FFF bytes back and 280 bytes of length, the nearest of that length, and the byte itself exactly when no match of three bytes exists; the tail of literals begins when at most three bytes are left |
| LzGreedyProps.ParseUnique | winexe-1.00/lib/compression/lzxpress.c:93-220 | a text has one greedy parse only |
| LzVectors.StreamSizeIs | winexe-1.00/lib/compression/lzxpress.c:125-230 | the reported size in closed form, from the kinds and lengths of the tokens alone |
| LzVectors.SixteenEqualBytes | winexe-1.00/lib/compression/lzxpress.c:93-230 | sixteen equal bytes become a literal, a match of fifteen and the tail's literal, in thirteen bytes |
| LzVectors.HundredTimesAbc | winexe-1.00/lib/compression/lzxpress.c:252-311 | the stream [MS-XCA] gives for "abc" a hundred times decodes to that |
| LzCompress.FindLongest | winexe-1.00/lib/compression/lzxpress.c:103-123 | the search loops compute the best match of the window |
| LzCompress.StoreNibble | winexe-1.00/lib/compression/lzxpress.c:141-156 | a length nibble lands in a fresh byte or in the high half of the waiting one, whose low half and everything else stay |
| LzCompress.OrNibble15 | winexe-1.00/lib/compression/lzxpress.c:163-168 | the OR-only form still leaves nibble 15 in place over any previous contents |
| LzCompress.EmitLong | winexe-1.00/lib/compression/lzxpress.c:139-178 | nibble, byte and 16-bit extensions of a long match are where the format has them |
| LzCompress.EmitMatch | winexe-1.00/lib/compression/lzxpress.c:125-179 | after it the match token is in the buffer and no settled place changed |
| LzCompress.CloseGroup | winexe-1.00/lib/compression/lzxpress.c:198-205 | a full group of 32 stores its indicator word and reserves the next; the tokens stay written |
| LzCompress.MainStep | winexe-1.00/lib/compression/lzxpress.c:93-206 | one round appends the chosen token to what is written |
| LzCompress.MainLoop | winexe-1.00/lib/compression/lzxpress.c:93-206 | the main loop writes the tokens up to at most three bytes before the end |
| LzCompress.TailStep | winexe-1.00/lib/compression/lzxpress.c:208-219 | one round appends a literal, whose indicator bit stays clear |
| LzCompress.TailLoop | winexe-1.00/lib/compression/lzxpress.c:208-220 | the rest goes out as literals, one past the end when nothing is left |
| LzCompress.FinishStream | winexe-1.00/lib/compression/lzxpress.c:222-230 | the last partial word is stored and the size counts four bytes more |
| LzGreedy.MatchFromIsRun | winexe-1.00/lib/compression/lzxpress.c:107-112 | the inner loop finds the whole common run, overlapping copies included |
| LzGreedy.BestIsLongestNearest | winexe-1.00/lib/compression/lzxpress.c:100-123 | the chosen match is the longest of the window and the nearest of that length; none below three bytes is taken |
| LzGreedy.ChooseCovers | winexe-1.00/lib/compression/lzxpress.c:100-196 | every chosen token is encodable and stays inside the text |
| LzGreedy.TokensRebuild | winexe-1.00/lib/compression/lzxpress.c:93-220 | the tokens expand to the text, plus the byte after it exactly when the main loop used it up |
| LzWrite.ExtendWritten | winexe-1.00/lib/compression/lzxpress.c:125-205 | writing one more token keeps all earlier ones readable however the open places are filled later |
| LzWrite.TokenStays | winexe-1.00/lib/compression/lzxpress.c:125-179 | a written token survives back-patching of indicator words and nibbles |
| LzWrite.FinishWritten | winexe-1.00/lib/compression/lzxpress.c:222-228 | storing the last word completes the encoding |
| LzFormat.CursorBound | winexe-1.00/lib/compression/lzxpress.c:93-230 | the write position is at most four plus the covered bytes plus four per 32 tokens |
| LzFormat.Copy | winexe-1.00/lib/compression/lzxpress.c:300-307 | a copy sets each byte to the one `distance` before it, and an impossible distance adds nothing |
| LzDecode.Decompress | winexe-1.00/lib/compression/lzxpress.c:233-312 | the loop computes the token-by-token decoder and writes nothing beyond its result |
| LzDecode.FetchIndicator | winexe-1.00/lib/compression/lzxpress.c:253-257 | an indicator word is fetched only when a token needs it |
| LzDecode.ReadOffsetAndLength | winexe-1.00/lib/compression/lzxpress.c:270-298 | distance and length of a match, always at least three |
| LzDecode.ReadLongLength | winexe-1.00/lib/compression/lzxpress.c:275-296 | the extensions are read through 32-bit arithmetic without losing anything |
| LzDecode.ReadNibble | winexe-1.00/lib/compression/lzxpress.c:276-283 | low half of a fresh byte, or high half of the waiting one |
| LzDecode.WrapCancels | winexe-1.00/lib/compression/lzxpress.c:289-295 | the subtraction that may wrap is undone by the additions |
| LzDecode.CopyLoop | winexe-1.00/lib/compression/lzxpress.c:300-307 | the in-place copy loop equals the bounded copy |
| LzDecodeProps.DecodesEveryInput | winexe-1.00/lib/compression/lzxpress.c:252-311 | on every byte string with nine bytes of slack and a positive limit, the result is all tokens expanded without a limit, cut at the limit |
| LzDecodeProps.DecodeIsTruncatedExpansion | winexe-1.00/lib/compression/lzxpress.c:252-311 | the same from any state of the loop |
| LzDecodeProps.CopyUpToIsTruncatedCopy | winexe-1.00/lib/compression/lzxpress.c:300-307 | stopping a copy at the limit is the same as truncating it |
| LzDecodeProps.OutputBound | winexe-1.00/lib/compression/lzxpress.c:252-311 | the result respects the limit exactly unless the limit is 0 and the first token is a literal |
| LzDecodeProps.SlackSuffices | winexe-1.00/lib/compression/lzxpress.c:252-309 | nine readable bytes past the declared size suffice for every input |
| LzDecodeProps.NineBytesAreNeeded | winexe-1.00/lib/compression/lzxpress.c:252-309 | an input that really reads the ninth |
| LzSimulation.ReadsToken | winexe-1.00/lib/compression/lzxpress.c:253-298 | at the encoder's cursor the decoder reads the encoder's token and stays in step |
| LzSimulation.ReaderInsideStream | winexe-1.00/lib/compression/lzxpress.c:309 | the four extra bytes keep the input test true until the text is complete |
| LzSimulation.DecodeOfEncoding | winexe-1.00/lib/compression/lzxpress.c:252-311 | every encoding of any token list decodes to its expansion |
| MtabTable.RemoveFromMtab | winexe-1.00/client/umount.cifs.c:181-211 | the count pass and the copy pass drop the last entry of a mount point |
| MtabTable.CopyPassRemovesLast | winexe-1.00/client/umount.cifs.c:201-211 | with the exact count the copy pass is that removal |
| MtabTable.RemoveLastDropsOne | winexe-1.00/client/umount.cifs.c:181-211 | exactly one entry goes, the last match, and nothing when there is none |
| MtabProtocol.MutualExclusion | winexe-1.00/client/mtab.c:64-219 | in every reachable state, processes killed outright included, the lock name exists iff one process made it and has not removed it, that process is unique, and only it is inside |
| MtabProtocol.OnlyHolderUnlocks | winexe-1.00/client/mtab.c:64-72 | only the last process that took the lock removes it, the table stays as it is, and nobody is inside a critical section afterwards |
| MtabProtocol.OpenLockSelf | winexe-1.00/client/mtab.c:176-187 | the ENOENT retry never forgets a lock this process made |
| MtabProtocol.Serialisable | winexe-1.00/client/umount.cifs.c:157-231 | in every interleaving, wherever processes die, the table equals the committed operations in lock order; an update that ends in success is committed, one that ends in an ordinary failure is not, nothing is counted twice |
| MtabProtocol.LockLeftIff | winexe-1.00/client/mtab.c:53-138 | once all processes are done the lock is left exactly when its last maker was killed outright while it held it: SIGKILL, or a signal for which lock_mtab installs no handler |
| MtabProtocol.NoLockLeftBehind | winexe-1.00/client/mtab.c:53-72 | as long as nobody is killed outright the lock is gone once all processes are done, caught signals included |
| MtabProtocol.LostHolderBlocks | winexe-1.00/client/mtab.c:147-217 | such a lock stays for good: no process enters a critical section again and the table never changes |
| MtabProtocol.KillLeavesLock | winexe-1.00/client/mtab.c:122-169 | a run in which that happens |
| MtabProtocol.StepKeepsInv | winexe-1.00/client/mtab.c:159-219 | every system call of every process, whatever its answer, keeps the invariant |
| MtabProtocol.RunKeepsInv | winexe-1.00/client/mtab.c:159-219 | so does every schedule |
| MtabProtocol.StepFair | winexe-1.00/client/mtab.c:159-219 | table, temporary file and commits change only in the hands of the lock holder |
| MtabProtocol.MountSelf | winexe-1.00/client/mount.cifs.c:1631-1674 | a committed mount appends its entry to the table |
| MtabProtocol.UnmountSelf | winexe-1.00/client/umount.cifs.c:166-231 | a committed unmount replaces the table by the one without the last match |
| MtabProtocol.ReplayCommit | winexe-1.00/client/umount.cifs.c:222-231 | a commit applies the last lock holder's operation to the serial account |
| MtabProgress.UpdateIsMade | winexe-1.00/client/mount.cifs.c:1625-1674 | from every reachable state with the lock free, an update that runs alone and whose calls work succeeds: the table gets the entry at its end, or loses the last one of the mount point, and the lock is free again |
| MtabProgress.FailureHasACause | winexe-1.00/client/umount.cifs.c:157-231 | an update fails only if a call of its own did not work |
| MtabProgress.FailedCallFails | winexe-1.00/client/umount.cifs.c:166-229 | when one of the calls the code checks fails, the update fails and the table stays as it is |
| MtabProgress.TimeUpFails | winexe-1.00/client/mtab.c:178-213 | after 30 seconds a process without the lock gives up |
| MtabProgress.SignalEnds | winexe-1.00/client/mtab.c:53-56 | a caught signal ends the update wherever it is, and leaves the table alone |
| MtabProgress.UnlockFrees | winexe-1.00/client/mtab.c:64-72 | leaving the section or the exit handler frees the lock exactly if it is this process's |
| MtabProgress.WaitingCall | winexe-1.00/client/mtab.c:164-216 | a process that finds the lock taken tries, opens and waits, and changes nothing else |
| MtabProgress.WaitingGoesRound | winexe-1.00/client/mtab.c:164-216 | and goes round in three calls |
| Writev.WritevState.Handler | winexe-1.00/lib/async_req/async_sock.c:424-481 | one event has exactly the effect on wire, rest, size and status that the kernel's answer calls for |
| Writev.WritevState.DropSent | winexe-1.00/lib/async_req/async_sock.c:465-480 | the drop loop removes the sent bytes and never runs out of vectors, empty ones included |
| Writev.WritevState.Recv | winexe-1.00/lib/async_req/async_sock.c:483-492 | a size means that so many bytes of the data are on the wire, all of it once the request has finished; -1 exactly after an error |
| Writev.RunConserves | winexe-1.00/lib/async_req/async_sock.c:424-481 | over any run wire plus rest is the original, the size counts the wire, and finished means all of a non-empty request is out |
| Writev.SendConserves | winexe-1.00/lib/async_req/async_sock.c:367-492 | the same from the start; an empty request never finishes |
| Writev.SteadyRunSends | winexe-1.00/lib/async_req/async_sock.c:446-481 | while the kernel takes something, however little, the data goes out in order; the request is finished exactly when all is out and pending before |
| Writev.FirstFailureEnds | winexe-1.00/lib/async_req/async_sock.c:428-463 | the first hangup, error or empty write ends a request, in EPIPE or in the kernel's own error, with what was taken before |
| Writev.EmptyRequestBreaks | winexe-1.00/lib/async_req/async_sock.c:424-463 | an empty request ends with its first event that is no interruption: in the kernel's own error, else in EPIPE |
| ReadPacket.ReadPacketState.Handler | winexe-1.00/lib/async_req/async_sock.c:543-602 | one event receives, asks the callback and grows the buffer as the framing rule says, keeping the received bytes |
| ReadPacket.ReadPacketState.Recv | winexe-1.00/lib/async_req/async_sock.c:604-615 | after a finished run it returns exactly the frame at the head of the stream, and nothing after an error |
| ReadPacket.RunIsChunkIndependent | winexe-1.00/lib/async_req/async_sock.c:543-602 | however the data is split, a finished request holds the frame of the stream |
| ReadPacket.NeverPastTheFrame | winexe-1.00/lib/async_req/async_sock.c:551-602 | a request takes exactly the frame when it finishes, and less while it is pending or when it ends in an error |
| ReadPacket.FrameIsRead | winexe-1.00/lib/async_req/async_sock.c:543-602 | for every split of the data the request finishes exactly when the frame has arrived, is refused exactly when what the callback calls invalid has arrived, and can go on until then |
| ReadPacket.FailureEnds | winexe-1.00/lib/async_req/async_sock.c:555-568 | the end of the stream ends a pending request in EPIPE and an error in that error |
| ReadPacket.NoCallback | winexe-1.00/lib/async_req/async_sock.c:578-583 | without a callback a request is for its first length |
| ReadPacket.FrameStable | winexe-1.00/lib/async_req/async_sock.c:585-597 | what follows a frame does not change it |
| ReadPacket.SessionDeliversFrames | winexe-1.00/lib/async_req/async_sock.c:506-615 | successive requests deliver the frames that were sent, in order, and all of them when all of them arrives |
| ReadPacket.SmbSession | winexe-1.00/source3/libsmb/async_smb.c:49-66 | with the SMB client's callback, a 24-bit length in a four-byte header, the packets of the server are delivered one by one, empty ones included, and all of them when they arrive |
| Cbc.EncryptCbc | winexe-1.00/lib/crypto/aes.c:77-94 | the forward loop computes CBC encryption and the final IV, for separate buffers and for one |
| Cbc.DecryptCbc | winexe-1.00/lib/crypto/aes.c:96-112 | the other loop computes CBC decryption and the final IV, for separate buffers and for one |
| Cbc.EncryptThenDecryptInPlace | winexe-1.00/lib/crypto/aes.c:69-114 | there and back in one buffer restores the text, and both sides end with the same IV |
| CbcSpec.DecryptAfterEncrypt | winexe-1.00/lib/crypto/aes.c:69-114 | decryption inverts encryption for every size, key and IV, a partial last block included |
| CbcSpec.EncryptStreams | winexe-1.00/lib/crypto/aes.c:77-94 | one call equals two calls with the carried IV when the first part is whole blocks |
| CbcSpec.DecryptStreams | winexe-1.00/lib/crypto/aes.c:95-112 | the same for decryption |
| CbcSpec.BlockEquation | winexe-1.00/lib/crypto/aes.c:78-86 | each cipher block is the encryption of its text block XOR the cipher block before it (section 6.2 of NIST SP 800-38A) |
| CbcSpec.LastBlockEquation | winexe-1.00/lib/crypto/aes.c:87-94 | a last partial block is encrypted as if filled up with zeros |
| CbcSpec.ChainsOn | winexe-1.00/lib/crypto/aes.c:77-94 | encryption ends with the last cipher block as IV |
| CbcSpec.DecryptEquation | winexe-1.00/lib/crypto/aes.c:96-112 | each stored block is the decrypted one XOR the cipher block before it; of a last partial block only the bytes that count |
| CbcSpec.DecryptChainsOn | winexe-1.00/lib/crypto/aes.c:96-112 | decryption ends with the last cipher block as IV |
| Tokenizer.NextTokenAlloc | winexe-1.00/nsswitch/winbind_nss_linux.c:104-171 | the three passes yield the next token and its NUL in an allocation of exactly that size, and the place to go on |
| Tokenizer.SizingPass | winexe-1.00/nsswitch/winbind_nss_linux.c:139-147 | the sizing pass counts the token and its NUL |
| Tokenizer.CopyPass | winexe-1.00/nsswitch/winbind_nss_linux.c:155-168 | the copying pass fills that allocation to the last byte and never beyond |
| Tokenizer.TokenEnd | winexe-1.00/nsswitch/winbind_nss_linux.c:140-147 | a token ends at the first separator outside quotes or at the end of the string |
| Tokenizer.NextToken | winexe-1.00/nsswitch/winbind_nss_linux.c:126-170 | every token consumes part of the string |
| Tokenizer.TokensOfJoin | winexe-1.00/nsswitch/winbind_nss_linux.c:331-342 | reading back a printed list of plain names gives the names in order |
| Tokenizer.TokensOfQuoted | winexe-1.00/nsswitch/winbind_nss_linux.c:126-168 | names in quotes are read back as they are, separators included |
| NssPacking.Arena.GetStatic | winexe-1.00/nsswitch/winbind_nss_linux.c:80-98 | a piece is handed out iff it fits, right behind the one before |
| NssPacking.FillPwent | winexe-1.00/nsswitch/winbind_nss_linux.c:177-258 | it succeeds iff the five strings and their NULs fit; then each field of the result leads to the record's string of that name, one behind the other, and uid and gid are the record's |
| NssPacking.FillGrent | winexe-1.00/nsswitch/winbind_nss_linux.c:264-349 | TRYAGAIN iff strings, pad, pointer array and as many members as it has places for do not fit; otherwise a pointer is stored behind the array iff there are more members than were counted, and else the array in the buffer is aligned, points to every member and ends with NULL, and the pieces lie one behind the other |
| NssPacking.GroupRoom | winexe-1.00/nsswitch/winbind_nss_linux.c:264-320 | what a group takes: two strings, the smallest gap that aligns, one pointer more than members, and the strings |
| NssPacking.FillMembers | winexe-1.00/nsswitch/winbind_nss_linux.c:327-346 | one string and one pointer in the array per token of the member list, and NULL behind them, unless the strings do not fit or the array is too short |
| NssPacking.MemberReadsBack | winexe-1.00/nsswitch/winbind_nss_linux.c:331-342 | following a pointer of the array reads that member, and members do not overlap |
| NssPacking.PrintedMembers | winexe-1.00/nsswitch/winbind_nss_linux.c:331-346 | a comma list of plain names yields those members |
| NssEnum.Enumeration.Get | winexe-1.00/nsswitch/winbind_nss_linux.c:425-516 | one call delivers the next entry, asks for a larger buffer without moving, or fetches the next batch |
| NssEnum.Enumeration.Reset | winexe-1.00/nsswitch/winbind_nss_linux.c:362-421 | the cache goes, with `called_again` as it was, and the enumeration starts over if the daemon can be reached |
| NssEnum.GetKeepsOrder | winexe-1.00/nsswitch/winbind_nss_linux.c:741-844 | no call skips or repeats an entry, wherever the buffer is and whatever fits, and NOTFOUND means there is none left |
| NssEnum.GetAnswers | winexe-1.00/nsswitch/winbind_nss_linux.c:741-844 | the answer to one call: the next entry iff it fits, TRYAGAIN iff it does not, NOTFOUND iff there is none, UNAVAIL iff the daemon was needed and down; `called_again` is set exactly after TRYAGAIN |
| NssEnum.EachEntryOnce | winexe-1.00/nsswitch/winbind_nss_linux.c:362-516 | over any run in which every reset is safe, delivered plus remaining is the whole enumeration |
| NssEnum.ResetSafeIff | winexe-1.00/nsswitch/winbind_nss_linux.c:362-421 | a reset is safe exactly when no retry is pending and, if it fails, the cache is empty; any other breaks that account |
| NssEnum.RetryDelivers | winexe-1.00/nsswitch/winbind_nss_linux.c:486-497 | a retry whose buffer holds the pending entry delivers it |
| NssEnum.ResetUsable | winexe-1.00/nsswitch/winbind_nss_linux.c:374-412 | after a reset there is something to read iff no retry was pending and the daemon has entries to give |
| NssEnum.StuckForever | winexe-1.00/nsswitch/winbind_nss_linux.c:444-482 | otherwise every later call finds nothing |
| InitGroups.AddGroups | winexe-1.00/nsswitch/winbind_nss_linux.c:1063-1111 | the list grows by the daemon's groups without the primary one, in order, cut only when start, size and limit meet |
| InitGroups.MakeRoom | winexe-1.00/nsswitch/winbind_nss_linux.c:1081-1105 | a full list doubles up to the limit and keeps its entries |
| InitGroups.OthersIsFilter | winexe-1.00/nsswitch/winbind_nss_linux.c:1073-1077 | only the primary group is dropped, every time it occurs |
| InitGroups.OthersInOrder | winexe-1.00/nsswitch/winbind_nss_linux.c:1073-1107 | the others keep their order |
| WbSocket.Client.OpenPipeSock | winexe-1.00/nsswitch/wb_common.c:300-362 | a connection of this process that is privileged enough is used and nothing changes; otherwise a new one is made, never during set-up, on which at most the set-up requests were written; nothing is written on an older one; the result is privileged when it had to be; it fails only after something else failed, or during set-up without a usable connection |
| WbSocket.Client.DropStale | winexe-1.00/nsswitch/wb_common.c:309-316 | what is closed before a request |
| WbSocket.Client.Handshake | winexe-1.00/nsswitch/wb_common.c:332-350 | it ends with no connection, or with the version check and the question for the directory written on the public one, or with a fresh privileged one; the last unless something fails |
| WbSocket.Client.CheckVersion | winexe-1.00/nsswitch/wb_common.c:332-337 | any answer but the right version closes the connection |
| WbSocket.Client.AskForPrivileged | winexe-1.00/nsswitch/wb_common.c:339-350 | the privileged connection is made only when the daemon answers the question for the directory |
| WbSocket.Client.WriteLoop | winexe-1.00/nsswitch/wb_common.c:381-426 | the buffer goes out whole on the open connection, or the connection has some beginning of it and is closed; a readable socket is recorded |
| WbSocket.Client.WriteSock | winexe-1.00/nsswitch/wb_common.c:366-429 | success means the whole buffer follows what was on the open connection, or the greeting on a new one, and is usable for the request; a usable connection is replaced exactly when it was found closed; whether it succeeds or not, nothing of a privileged buffer goes to a public connection |
| WbSocket.Client.SendRequest | winexe-1.00/nsswitch/wb_common.c:550-593 | success means both parts went out, adjacent behind what was on the connection iff that was not found closed in between; otherwise the old connection has the fixed part and some beginning of the extra data, and a new one has the extra data alone; a request without extra data is never split; NOTFOUND iff the client is turned off, and then nothing happens; nothing of a privileged request goes to a public connection, even when it fails |
| WbSocket.Client.HangUp | winexe-1.00/nsswitch/wb_common.c:418-425 | a readable socket closes the connection for good |
| WbSocket.ExtraAlone | winexe-1.00/nsswitch/wb_common.c:372-424 | a run with concrete answers in which the extra data arrives alone on the new connection |
| WbSocket.Client.RequestResponse | winexe-1.00/nsswitch/wb_common.c:633-667 | any answer of the daemon means that one whole request was written so in its last round; whatever the result, public connections get nothing of a privileged request but the set-up requests, and those only when they are new; when only replies get lost it is sent up to ten times and then fails |
| WbSocket.Client.Session | winexe-1.00/nsswitch/wb_common.c:300-667 | in every call of any sequence of requests, forks, closes and changes of the environment, no process writes on a connection it inherited, a privileged request puts nothing but the set-up requests on a public connection, succeeding or not, and no descriptor leaks |
| GpLink.RoundTripIffClean | winexe-1.00/libgpo/gpo_ldap.c:157-327 | a built attribute parses back to its links iff no DN has a bracket, a semicolon or a quote |
| GpLink.CleanRoundTrip | winexe-1.00/libgpo/gpo_ldap.c:157-327 | for clean DNs it gives the (dn, option) pairs in order |
| GpLink.ParseGplink | winexe-1.00/libgpo/gpo_ldap.c:157-233 | the arrays hold what the entries say, or the parse fails |
| GpLink.FillLinks | winexe-1.00/libgpo/gpo_ldap.c:195-225 | it fails iff some entry has no semicolon |
| GpLink.StrListMake | winexe-1.00/source3/lib/util_str.c:2433-2491 | the splitter returns the tokens of the string |
| GpLink.ParseAllPointwise | winexe-1.00/libgpo/gpo_ldap.c:195-225 | entries are read independently of each other |
| GpLink.OptionsRoundTrip | winexe-1.00/libgpo/gpo_ldap.c:218-327 | every 32-bit option word survives `%d` and `atoi` |
| GpLink.ParsedDn | winexe-1.00/libgpo/gpo_ldap.c:195-220 | what a parsed DN can never contain |
| GpLink.ParseOneOf | winexe-1.00/libgpo/gpo_ldap.c:199-219 | an entry is the DN before its first semicolon, without one opening bracket, and the number behind it |
| GpLink.ParseRefuses | winexe-1.00/libgpo/gpo_ldap.c:174-212 | a string is refused exactly when it has no entry or one without a semicolon |
| GpLink.AtoiReads | winexe-1.00/libgpo/gpo_ldap.c:218-219 | a printed number is read behind white space and up to the next other character |
| GpLink.AtoiOther | winexe-1.00/libgpo/gpo_ldap.c:218-219 | a plus sign is skipped, and what is no number is 0 |
| GpLink.PrintedOptions | winexe-1.00/libgpo/gpo_ldap.c:320-327 | option words from 2^31 on are printed as negative numbers |
| GpoSec.ApplySecurityFiltering | winexe-1.00/libgpo/gpo_sec.c:164-203 | access iff some entry grants it and none before it denies it; the two error cases |
| GpoSec.FirstVerdictIsMayApply | winexe-1.00/libgpo/gpo_sec.c:185-202 | the first entry that concerns the user decides, and the default is to deny |
| GpoSec.AllowsAndDenies | winexe-1.00/libgpo/gpo_sec.c:31-156 | which entries grant and deny, field by field |
| GpoList.AddGplink | winexe-1.00/libgpo/gpo_ldap.c:548-614 | the chosen links go to the head of the list one by one; it fails iff a considered policy cannot be read |
| GpoSpec.SelectedExactly | winexe-1.00/libgpo/gpo_ldap.c:560-611 | an entry is there iff one of the links is chosen; under blocked inheritance it is an enforced one |
| GpoList.WalkOne | winexe-1.00/libgpo/gpo_ldap.c:790-815 | a container may block from itself on |
| GpoList.Walk | winexe-1.00/libgpo/gpo_ldap.c:777-866 | one walk adds the contributions of its containers, nearest first, with blocking carried in and out |
| GpoList.GetGpoList | winexe-1.00/libgpo/gpo_ldap.c:709-869 | success exactly when every policy that is looked at can be read; then, head first, units come before the domain, that before the site, that before the local policy, nearer containers later; and each container contributes exactly its good links, enforced ones only where the domain or a unit at least as near blocks |
| GpoList.BuildGpoList | winexe-1.00/libgpo/gpo_ldap.c:709-869 | the code: local policy, site, domain walk, unit walk, each pushed at the head |
| GpoOrder.SpecifiedIsList | winexe-1.00/libgpo/gpo_ldap.c:709-869 | the list of the two walks is in that order and holds that |
| GpoOrder.WalksAre | winexe-1.00/libgpo/gpo_ldap.c:777-866 | the walks visit exactly the suffixes of the DN below the top that start with DC= or OU= and have links |
| GpoOrder.BlockedIs | winexe-1.00/libgpo/gpo_ldap.c:777-866 | blocking as carried through the walks is blocking by the domain up to a container, and for units by any of the domain or a nearer unit |
| GpoOrder.WalksReadable | winexe-1.00/libgpo/gpo_ldap.c:777-866 | which policies must be readable |
| GpoOrder.SelectedIsAccepted | winexe-1.00/libgpo/gpo_ldap.c:560-611 | a container contributes its enabled links whose policy the account may apply, the last link first |

## Left out

- Memory exhaustion everywhere, clocks, and the contents of LDAP, NSS and winbind messages beyond what the members above use.
- Rijndael, GUID parsing, LDAP searches, talloc and tevent: functions or arbitrary answers here.
- MtabProtocol: caught signals between link and flag (mtab.c 165-169) or between unlink and flag reset (69-70); a stale `mtab~pid` file; a symlinked mtab and the `nomtab` option, which skip the whole section; reads that fail half way and writes to the temporary file that fail, whose results the code ignores; `umount.cifs` drops the result of `remove_from_mtab`, so its exit status says nothing about the table.
- MtabProtocol.Serialisable: every addmntent is written through at once. In C a process that catches a signal unlocks in its exit handler before stdio flushes, so lines still buffered for the table or for the temporary file may land after its lock is gone.
- MtabProtocol.Step: written on values, one step per system call, because other processes run between any two calls; MtabTable.RemoveFromMtab has the loops of the removal.
- MtabProtocol.MountSelf: the line is appended in one step; a crash or a signal in the middle of that write is not modelled.
- LzCompress.Compress: 32-bit positions are unbounded numbers under the requirement that the size bound fits 32 bits; `|` and `&` on bytes and words are written as the arithmetic they amount to.
- LzDecode.Decompress: the caller must make every byte the loop reads readable, which the C code cannot check; SlackSuffices says how much that is.
- Writev and ReadPacket: queueing of requests, the event loop itself, and a callback that returns less than -1.
- Cbc.EncryptCbc: buffers that overlap without being the same, which the C code does not support either.
- NssPacking.FillGrent: what the C code does after the first store behind its array is not modelled.
- NssEnum.Enumeration.Get: batches are non-empty and carry data, and the daemon keeps its place from call to call; where a group's member list lies inside the batch is not modelled.
- InitGroups.AddGroups: a size of 0, which the code cannot double, and failing realloc.
- WbSocket.Client.Session: a process is its pid, as in the code, so a child that gets the pid of a dead ancestor is outside the claim about inherited connections.
- WbSocket.Client.GetResponse: the read loop with its time-outs is one answer, good or bad; a bad one closes the connection as in the code.
- WbSocket.Client.SendRequest: the parts of a request are byte strings, and the two set-up requests one byte each.
- WbSocket.Client.NamedPipeSock: permission checks and connect retries are one answer.
- GpLink: numbers too large for `atoi`; deleting links.
- GpoList.GetGpoList: string comparison with the top of the domain is a given predicate; site and link lookups are functions.
