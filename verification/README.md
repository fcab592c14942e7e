# Verified models of the router's image tools, SSH server, IGMP proxy and codecs

A Dafny 4.11 project that models the parts of the firmware tree where a mistake is hard to see by reading one function, and
proves what they promise over every input, every run or every reachable state. `dafny verify dfyconfig.toml` checks all of it.

| files | what they model |
|---|---|
| `Wrappers`, `Bytes` | optional values; byte strings, placement in an image, in-place writes, little-endian words |
| `CramfsFormat`, `CramfsLayout`, `CramfsDedup`, `CramfsData`, `CramfsWriter` | `mkcramfs`: the on-disk form, back-patched directory offsets, merging of identical files, block tables, the writer itself |
| `CramfsReader`, `CramfsShown`, `CramfsRoundTrip`, `CramfsFsck` | `cramfsck`: what the walk over an image computes, which images show which tree and are accepted, why a packed tree comes back, and the walk through the read window |
| `SshWire`, `SshStream`, `SshTransport`, `SshLink` | the binary packet protocol (section 6 of RFC 4253): framing, chaining, MAC; sender, byte stream and receiver together; the buffers of `packet.c`; two ends on those buffers |
| `SshBuffer`, `SshQueue` | `buffer.c` with the mpint encoding (section 5 of RFC 4251), and the packet queue |
| `SshSession`, `SshChannel` | key exchange, authentication and dispatch over any client run; channel flow control (section 5.2 of RFC 4254) |
| `IgmpLists`, `IgmpChains`, `IgmpTimers`, `IgmpPool`, `IgmpRouter`, `IgmpRun`, `IgmpQuerier` | linked lists, the chains that share one set of nodes, the per-group state machine (section 7 of RFC 2236), node pools and the forwarding mirror, the proxy's handlers, whole runs, querier election |
| `ModArith`, `InvMod`, `Dss`, `Ber`, `KeyImport` | modular inverses of the bignum library, DSA (FIPS 186), BER headers (section 8.1 of ITU-T X.690), private key files |
| `Cksum`, `Voice`, `DnsList`, `Dns` | the POSIX cksum, chunked voice configuration, the DNS proxy's list of pending requests and what becomes of them |

How things are modelled:

- Programs that update memory in place are classes, methods and loops here too; pure functions stand beside them as
  specifications, and lemmas say what the specifications mean. Fixed buffers are arrays. Linked lists are nodes with pointers: the
  handlers of the IGMP proxy, the DNS proxy and the SSH transport call the list operations, and their invariants tie the pointers to
  the sequences that the theorems speak of.
- zlib is a pair of functions that invert each other on blocks of at most a page (`Codec.Faithful`); block ciphers and MACs are functions with
  `dec(enc(b)) == b` (`Keys.Sound`); random bytes, clocks, socket reads and writes, and the outcomes of password and signature checks are
  parameters.
- Where the C code exits the program the model returns an error value; where it would read or write outside its buffers the model has
  a value of its own (`Undefined`, `Fault`, `Broken`, `Outside`, a result of `false`), where it would never return another (`Endless`, `NoEnd`), and nothing is claimed about what follows.
- Widths are written out: inode fields keep their bits, sequence numbers are modulo 2^32, identifiers and lengths of BER
  headers are 32-bit integers that may come out negative, and bound checks of the SSH buffer wrap where the sum can reach 2^32.

Where the code and a reasonable expectation part, the code is kept and the exact condition is proved:

- a cramfs image is written exactly when the directory stack stays within 100 entries and every directory and every file that is
  not a duplicate starts below 2^28 (`Mkimage`);
- a cramfs name length survives exactly for names of at most 252 bytes, although 255 are accepted (`NameLengthKept`);
- a voice configuration arrives exactly when it has at most 30000 characters and either has more than 200 or meets an empty
  buffer whose write pointer has been set (`ConfigurationArrives`); two inputs for which it does not are in `ShortFails`;
  a configuration of more than 2000000 characters overflows the sender's sequence number (`ConfigSave`);
- stopping the IGMP proxy is defined exactly when no interface follows an upstream one on the interface list (`Router.Stop`);
- a BER header can be written exactly for identifiers below 2^28 and lengths below 2^24 (`WriteIdLen`), and then reads back exactly
  for identifiers of at most 30 (`HeaderRoundTrip`);
- a file's checksum tag is left out of the sum exactly when the untagged length modulo 65536 is below 65528 (`TagLeftOut`); at 65528
  the check passes exactly for the remainders that `Survives` describes, which those of 65528 zeros are not (`ZerosFail`), and above
  it never does (`TagAndCheck`);
- a DSA signature is accepted exactly when its `s` is invertible modulo `q` (`SignatureAccepted`); checking one with `s = 0` never
  ends when `q` is odd and takes zero for an inverse when `q` is a power of two (`MpInvmod`, `Verify`), and checking a blob that is
  not 40 bytes long clears bignums that were never set up (`Verify`);
- an mpint is written in the form of RFC 4251 exactly when it is not zero; zero takes a byte too many (`MpintBodyFacts`, `MpintZero`);
- an mpint is read as RFC 4251 says exactly when position and length do not reach 2^32; beyond that it reads as zero and the position
  moves back (`MpintWraps`);
- a client that respects its window loses its session exactly when its data arrives after the program has closed its input
  (`EndsExactly`, with a run in `BrokenRun`);
- a negative length of one of the last three integers of an RSA key is survived, and of the very last even gives the key
  (`ReadKey`, `LastNegative`);
- a string reads back exactly when it has at most 1400 bytes (`StringRoundTrip`), and `buf_setlen` keeps `pos <= len` exactly when
  the new length is not below the position (`Buffer.SetLen`);
- data beyond the channel window is stored only when nothing is buffered and ends the session otherwise (`Channel.RecvData`);
- an authentication request for an account that may not log in is refused twice, every other request gets one reply
  (`Session.RecvUserAuthRequest`);
- a querier sends every 126 ticks, one more than its query interval, and takes a lost duty back on tick 301 (`SendsEvery`, `Hears`).

## Model

| member | source | states |
|---|---|---|
| `CramfsFormat.InodeRoundTrip` | src/cramfs/cramfs.h:10-23 | an inode written with its bit fields reads back with every field cut to its width, so it survives exactly when each field fits |
| `CramfsFormat.InodeFields` | src/cramfs/cramfs.h:10-23 | which of the twelve bytes and which bits of them are mode, owner, size, group, name length and offset |
| `Bytes.LittleEndian` | src/cramfs/cramfs.h:10-23 | a word is stored with its least significant byte first |
| `CramfsFormat.Aligned` | src/cramfs/mkcramfs.c:158-313 | all listing sizes are multiples of four, so directory offsets lose nothing when stored in words |
| `CramfsLayout.ListStep` | src/cramfs/mkcramfs.c:376-417 | writing a listing extends the part of the image that agrees with the finished directory area everywhere but in the offset words of directories still on the stack |
| `CramfsLayout.PopStep` | src/cramfs/mkcramfs.c:437-447 | patching the popped directory's offset word removes exactly its exception from that agreement |
| `CramfsLayout.DirsPos` | src/cramfs/mkcramfs.c:371-449 | the stack order puts every inode where the recursive layout of the tree says |
| `CramfsLayout.DirsAddressable` | src/cramfs/mkcramfs.c:371-449 | every directory the traversal visits starts below 2^28 exactly when every one of the recursive layout does |
| `CramfsWriter.ReverseTail` | src/cramfs/mkcramfs.c:419-435 | the closing-index loop reverses the entries pushed for one directory and leaves those below alone |
| `CramfsWriter.Mkcramfs.WriteEntry` | src/cramfs/mkcramfs.c:379-400 | one inode with zero offset and its NUL-padded name are written and nothing else is touched |
| `CramfsWriter.Mkcramfs.WriteListing` | src/cramfs/mkcramfs.c:377-417 | a whole listing with its pushed directories; fails exactly when the stack would pass 100 entries |
| `CramfsWriter.Mkcramfs.SetDataOffset` | src/cramfs/mkcramfs.c:353-362 | refuses offsets of 2^28 and above, otherwise changes only the offset bits of the entry's inode |
| `CramfsWriter.Mkcramfs.WriteDirectoryStructure` | src/cramfs/mkcramfs.c:371-449 | the explicit-stack traversal with back-patching leaves exactly the recursive directory area in the image and records every inode's place; succeeds exactly when the stack never needs more than 100 entries and every directory starts below 2^28 |
| `CramfsDedup.FindIsFirst` | src/cramfs/mkcramfs.c:136-147 | the recursive search meets the first entry in traversal order that is the file itself or a duplicate of it |
| `CramfsDedup.SameBytes` | src/cramfs/mkcramfs.c:116-147 | size and signature only save comparisons: duplicates are exactly the regular files with the same bytes, at least one |
| `CramfsDedup.LinksSound` | src/cramfs/mkcramfs.c:136-156 | every same-link goes to an entry with equal contents that comes earlier in the traversal, so its offset is set before it is used |
| `CramfsWriter.Mkcramfs.FindIdenticalFile` | src/cramfs/mkcramfs.c:136-147 | sets the same-link of the new file exactly as the search specification says and no other |
| `CramfsWriter.Mkcramfs.EliminateDoubles` | src/cramfs/mkcramfs.c:149-156 | the recursion leaves exactly the specified same-links |
| `CramfsData.LaidPatch` | src/cramfs/mkcramfs.c:353-362 | setting one file's data offset leaves the whole laid-out directory area readable |
| `CramfsData.SuperFields` | src/cramfs/mkcramfs.c:330-351 | the 76 bytes of the superblock one field after the other |
| `CramfsData.StoreNew` | src/cramfs/mkcramfs.c:538-568 | storing one more file keeps every file stored before where its inode says it is |
| `CramfsWriter.Mkcramfs.DoCompress` | src/cramfs/mkcramfs.c:482-524 | the block loop writes the pointer table and the compressed blocks of the file, word-aligned, above everything written before |
| `CramfsWriter.Mkcramfs.WriteData` | src/cramfs/mkcramfs.c:532-574 | after the traversal every entry with data has its offset set, duplicates to their target's, and points at its own contents; succeeds exactly when every file that is not a duplicate starts below 2^28 |
| `CramfsWriter.Mkimage` | src/cramfs/mkcramfs.c:598-713 | the output is a well-formed image of the tree in the least number of whole 4096-byte blocks, and files with equal contents share one offset; it is written exactly when the stack stays within 100 entries and every directory and every file that is not a duplicate starts below 2^28 |
| `CramfsRoundTrip.UncompressStored` | src/cramfs/cramfsck.c:289-333 | walking the pointer table of a stored file yields the file's bytes, through every block check |
| `CramfsRoundTrip.SymlinkStored` | src/cramfs/cramfsck.c:217-252 | a stored link target reads back with its size check passing |
| `CramfsRoundTrip.NameLengthKept` | src/cramfs/cramfs.h:22 | the name length comes back exactly for names of at most 252 bytes, longer ones read as zero |
| `CramfsRoundTrip.ExpandTree` | src/cramfs/cramfsck.c:335-417 | walking a listing gives back the entries below it in order, and the extents end where the last listing ends and start where the first file starts |
| `CramfsRoundTrip.ErasedEntries` | src/cramfs/mkcramfs.c:376-417 | what a reader is to see of a directory: every entry in its order with name, mode, owner, group, size, contents and children |
| `CramfsRoundTrip.FsckReadsBack` | src/cramfs/cramfsck.c:420-588 | every image that mkcramfs writes, of whatever size, is accepted, and names, order, modes, owners, sizes, contents and link targets come back unchanged; the check that directory data ends where file data starts passes |
| `CramfsShown.UncompressExactly` | src/cramfs/cramfsck.c:289-333 | for any image the block walk yields some bytes exactly when they have the size and every page is what the block between its two pointers inflates to, or zeros for an empty block |
| `CramfsShown.LinkExactly` | src/cramfs/cramfsck.c:217-252 | the same for a link target |
| `CramfsShown.NameExactly` | src/cramfs/cramfsck.c:366-371 | a name is the bytes before the first NUL of its field, or the whole field |
| `CramfsShown.ListExactly` | src/cramfs/cramfsck.c:335-417 | for any image the walk over a listing yields some entries exactly when the image shows them there, one inode and name after the other until the size is used up, and they are nested no deeper than the walk goes |
| `CramfsShown.ExpandExtents` | src/cramfs/cramfsck.c:335-417 | the walk's extents are the end of the last listing of the tree and the least start of its file data |
| `CramfsShown.FsckExactly` | src/cramfs/cramfsck.c:420-588 | for any byte string and any tree: the image is accepted with this tree exactly when its superblock is in order, it shows the tree, and its directory data ends where its file data starts |
| `CramfsShown.LayoutDecides` | src/cramfs/cramfsck.c:575-578 | an image that shows a tree is accepted exactly when the layout fits, and refused for the layout otherwise |
| `CramfsShown.FsckRefuses` | src/cramfs/cramfsck.c:486-563 | what is refused before the walk, and as what: too short, no magic number at either place, version 2, a bad superblock |
| `CramfsShown.GapRefused` | src/cramfs/cramfsck.c:575-578 | a family of images with one file and a gap of any size before its data: accepted exactly without the gap |
| `CramfsFsck.Cramfsck.RomfsRead` | src/cramfs/cramfsck.c:124-133 | after the call the window shows the image from the wanted offset on for at least one more window |
| `CramfsFsck.Cramfsck.DoUncompress` | src/cramfs/cramfsck.c:289-333 | the loop through the read window returns what the walk over the image itself specifies, errors included |
| `CramfsFsck.Cramfsck.DoSymlink` | src/cramfs/cramfsck.c:217-252 | the same for link targets |
| `CramfsFsck.Cramfsck.ExpandFs` | src/cramfs/cramfsck.c:335-417 | the recursive walk through the window agrees with the specification wherever that is defined, extents included |
| `CramfsFsck.Check` | src/cramfs/cramfsck.c:420-588 | superblock checks, walk and layout check through the read window give the specified outcome for every byte string whose outcome is defined; `CramfsShown.FsckExactly` says which strings that accepts |
| `CramfsFsck.PackAndCheck` | src/cramfs/mkcramfs.c:598-713 | mkcramfs followed by cramfsck: exactly when the image is written, and that the tree then comes back |
| `SshWire.PadFacts` | src/dropbear/packet.c:575-615 | four to nineteen bytes of padding, whole blocks, at least the minimum packet, never more than the cleartext buffer holds |
| `SshWire.PadShortest` | src/dropbear/packet.c:575-615 | no shorter padding would do |
| `SshWire.BigEndian` | src/dropbear/buffer.c:211-225 | a word is stored with its most significant byte first |
| `SshWire.XorUndo` | src/dropbear/packet.c:641-651 | chaining with exclusive or is undone by doing it again |
| `SshWire.XorMeaning` | src/dropbear/libtomcrypt/cbc.c:51-54 | each binary digit is the sum of the operands' digits without carry |
| `SshWire.CbcEncrypts` | src/dropbear/libtomcrypt/cbc.c:33-68 | every block of the ciphertext is the encryption of its cleartext block combined with the ciphertext block before it, and the first with the initial value |
| `SshWire.CbcDecrypts` | src/dropbear/libtomcrypt/cbc.c:70-108 | every block of the cleartext is the decryption of its ciphertext block combined with the ciphertext block before it, for any bytes |
| `SshWire.ChainIsLast` | src/dropbear/libtomcrypt/cbc.c:59-62 | the chaining value is the last ciphertext block |
| `SshWire.DecryptEncrypt` | src/dropbear/packet.c:634-651 | decrypting what was encrypted from the same chaining value gives the cleartext |
| `SshWire.ClearFacts` | src/dropbear/packet.c:575-626 | a framed packet states its own length and padding, stays within the receiver's limits and contains payload and padding where the receiver looks |
| `SshStream.HeadStep` | src/dropbear/packet.c:151-222 | reading any part of the first block never fails on a sender's packet, and the complete block reveals exactly the packet's length |
| `SshStream.DoneStep` | src/dropbear/packet.c:226-309 | a complete packet passes the integrity and length checks, yields the payload and leaves sequence number and chaining value where the sender's are |
| `SshStream.StepKeeps` | src/dropbear/packet.c:52-309 | every send, partial write and fragmented read keeps all bytes between the two ends accounted for, and the receiver never exits |
| `SshStream.Delivered` | src/dropbear/packet.c:52-309 | over every run the delivered payloads are a prefix of those sent, in order; when nothing is in between, all are delivered and both ends agree on sequence number and chaining value |
| `SshStream.OnTheWire` | src/dropbear/packet.c:564-718 | packet i starts where the bytes of those before it end, is encrypted from the last ciphertext block before it, and its MAC covers the sequence number, which counts on from the first packet's modulo 2^32 |
| `SshStream.HeadExactly` | src/dropbear/packet.c:151-222 | for any first block: it is followed up exactly when the length it tells is between the smallest and the largest packet and whole blocks, otherwise the session ends |
| `SshStream.AcceptsExactly` | src/dropbear/packet.c:226-361 | for any bytes: a packet is delivered with a payload exactly when its MAC is that of its sequence number and cleartext and the cleartext frames the payload; the session ends with an integrity error exactly when the MAC is wrong |
| `SshTransport.EncryptBlocks` | src/dropbear/packet.c:634-651 | the block loop writes the ciphertext that `SshWire.CbcEncrypts` describes and leaves the next chaining value |
| `SshTransport.DecryptBlocks` | src/dropbear/packet.c:245-263 | the decryption loop gives the cleartext that `SshWire.CbcDecrypts` describes and leaves the next chaining value |
| `SshTransport.Transport.EncryptPacket` | src/dropbear/packet.c:564-669 | queues exactly the wire bytes that `SshStream.OnTheWire` describes and advances sequence number and chaining value |
| `SshTransport.Transport.WritePacket` | src/dropbear/packet.c:52-91 | a partial write advances the position, a complete one removes the packet |
| `SshTransport.Transport.ReadPacketInit` | src/dropbear/packet.c:151-222 | the first block arrives in pieces and then sizes the buffer, or the packet is refused |
| `SshTransport.Transport.DecryptPacket` | src/dropbear/packet.c:226-309 | decryption, integrity check and payload extraction as specified, for any bytes |
| `SshTransport.Transport.ReadPacket` | src/dropbear/packet.c:96-147 | a call takes exactly the specified bytes and reports the specified outcome, for any bytes |
| `SshLink.Drive` | src/dropbear/packet.c:52-309 | for every possible sequence of sends, partial writes and fragmented reads on two transports and one byte stream, the buffers follow the step functions, what was sent are the payloads of the send events, the payloads delivered are a prefix of them, and all of them once nothing is in between |
| `SshBuffer.MpintBodyFacts` | src/dropbear/buffer.c:245-285 | the stored length is the number of bytes written, they have the number's value, and the form is the one RFC 4251 asks for exactly when the number is not zero |
| `SshBuffer.MpintZero` | src/dropbear/buffer.c:245-285 | zero is written as 00 00 00 01 00, because a zero bignum has no digits; the canonical form is a byte shorter |
| `SshBuffer.MpintUnique` | src/dropbear/buffer.c:245-285 | each number has one canonical form, and it is the one written except for the empty form of zero |
| `SshBuffer.MpintShortest` | src/dropbear/buffer.c:245-285 | no non-empty non-negative form of a number is shorter than the one written, and an equally short one is the one written |
| `SshBuffer.MpintWraps` | src/dropbear/buffer.c:169-175 | the 32-bit bound check: the reader gives what RFC 4251 says exactly when position and length stay below 2^32, otherwise zero, and the position moves back |
| `SshBuffer.MpintReads` | src/dropbear/buffer.c:290-311 | without a wrap: a zero length reads as zero, a set top bit is an error, a number that is not complete ends the program, anything else is the big-endian value of its bytes |
| `SshBuffer.ValueFirst` | src/dropbear/buffer.c:290-311 | the first byte of a number is its most significant one |
| `SshBuffer.MpintRoundTrip` | src/dropbear/buffer.c:245-311 | wherever it stands in a buffer, reading gives the number back and takes exactly the bytes written, five for zero |
| `SshBuffer.MpintRewrite` | src/dropbear/buffer.c:290-311 | writing back what was read, unless the length wrapped, reproduces the bytes exactly when they were canonical and not empty, or a zero byte |
| `SshBuffer.StringRoundTrip` | src/dropbear/buffer.c:190-232 | a string comes back exactly when it has at most 1400 bytes, otherwise the reader exits |
| `SshBuffer.Buffer.Resize` | src/dropbear/buffer.c:77-88 | what fits is kept, length and position are cut back |
| `SshBuffer.Buffer.SetLen` | src/dropbear/buffer.c:103-108 | keeps pos <= len exactly when the new length is not below the position |
| `SshBuffer.Buffer.IncrPos` | src/dropbear/buffer.c:139-146 | moves only within the used bytes, in either direction |
| `SshBuffer.Buffer.IncrWritePos` | src/dropbear/buffer.c:127-135 | moves within the size and extends the length |
| `SshBuffer.Buffer.PutMpint` | src/dropbear/buffer.c:245-285 | writes the encoding at the position or fails exactly when it does not fit |
| `SshBuffer.Buffer.GetMpint` | src/dropbear/buffer.c:290-311 | the specified outcome for any buffer contents and position: negative, truncated and wrapping numbers included |
| `SshBuffer.Buffer.GetString` | src/dropbear/buffer.c:190-208 | the specified outcome for any buffer contents, over-long and truncated strings included |
| `SshBuffer.MpintThrough` | src/dropbear/buffer.c:245-311 | a number written, rewound to and read returns with the position behind it |
| `SshQueue.Queue.Enqueue` | src/dropbear/queue.c:69-90 | the item is appended, through head, tail and link fields |
| `SshQueue.Queue.Dequeue` | src/dropbear/queue.c:41-61 | the first item is taken and the links of the rest stay intact |
| `SshQueue.Queue.Examine` | src/dropbear/queue.c:63-67 | the first item, which stays |
| `SshSession.Session.Send` | src/dropbear/packet.c:564-669 | may only be called when no NEWKEYS is waiting to take effect, and then logs the right key context |
| `SshSession.Session.RecvKexInit` | src/dropbear/kex.c:67-105 | the exchange hash starts with both version strings, the client's KEXINIT and the cookie of the last KEXINIT in the log of sent packets |
| `SshSession.Session.SendKexDhReply` | src/dropbear/kex.c:351-453 | completes the hash in the order of section 8 of RFC 4253, with the last KEXINIT sent; only the first hash becomes the session identifier |
| `SshSession.Session.SendNewKeys` | src/dropbear/kex.c:109-128 | the new keys apply at once if the client's NEWKEYS is in, otherwise nothing may be sent until it is |
| `SshSession.Session.RecvKexDhInit` | src/dropbear/kex.c:324-343 | premature messages end the session; otherwise reply and NEWKEYS go out under the old keys |
| `SshSession.Session.RecvNewKeys` | src/dropbear/kex.c:131-146 | switches keys exactly when NEWKEYS has been sent |
| `SshSession.Session.RecvServiceRequest` | src/dropbear/service.c:37-75 | ssh-connection before authentication ends the session |
| `SshSession.Session.RecvUserAuthRequest` | src/dropbear/auth.c:95-172 | ignored once authenticated; otherwise exactly the packets sent, the failures counted and when the session ends, and authenticated exactly by the right password or a well-formed, verified signature of an allowed key on an account that may log in: two refusals for one that may not, one reply otherwise, after the banner if it is due |
| `SshSession.AuthOutcomes` | src/dropbear/auth.c:95-172 | the replies and the failures counted for each outcome of passwords, keys, other methods and bad accounts, one by one |
| `SshSession.Session.SendFailure` | src/dropbear/auth.c:269-320 | the third counted failure ends the session |
| `SshSession.Session.ProcessPacket` | src/dropbear/packet.c:406-484 | a message other than the expected one ends the session without a packet sent; for any other, exactly whether it ends the session and what is answered; it is handed to its handler under the keys and authentication of the moment, and only a request to log in changes authentication and failures, by exactly its own outcome |
| `SshSession.Session.CheckTimeouts` | src/dropbear/session.c:144-172 | nothing is sent during a key exchange, and otherwise exactly one KEXINIT, when the time for new keys has come |
| `SshSession.RunSession` | src/dropbear/session.c:53-140 | for every client run: the log starts with the server's KEXINIT; each packet is encrypted under the keys of the last NEWKEYS sent before it; every reply carries a complete hash over the last KEXINIT sent before it, and the session identifier is the first of them; the messages handled are exactly those received until the session ends, under the keys and authentication of their moment; only key exchange is handled before the first switch, channel messages only for authenticated users; the user is authenticated exactly from the first request on that brings the right password or a verified signature for an account that may log in; the session identifier is final, and fewer than three failures are counted while the session lives |
| `SshSession.LoggedIn` | src/dropbear/auth.c:95-172 | over every trace of moments the user is authenticated exactly after a request that logs in |
| `SshSession.HandedEach` | src/dropbear/packet.c:406-484 | each message that is not ignored is handed on once, in its turn, under the keys and authentication of its moment, and nothing else is |
| `SshSession.ThreeWrong` | src/dropbear/auth.c:269-320 | a session in which nobody has logged in survives at most two wrong proofs, and without a wrong proof or account no failure is counted |
| `SshChannel.Channel.RecvData` | src/dropbear/channel.c:639-691 | exactly when data is taken, how much of it, that window and buffer always add up, and that nothing changes when the session ends |
| `SshChannel.Channel.WriteChannel` | src/dropbear/channel.c:346-386 | nothing is lost between buffer and program, the window is reopened by exactly what was consumed, once the buffer is empty, and a failed write closes the input |
| `SshChannel.Channel.RecvEof` | src/dropbear/channel.c:449-469 | the program's input closes at once only when nothing is waiting for it |
| `SshChannel.Channel.SendData` | src/dropbear/channel.c:573-634 | the most that the program offers within window, packet size and payload buffer, with 9 bytes of header and 13 for extended data, and never more in all than the client granted |
| `SshChannel.Channel.RecvWindowAdjust` | src/dropbear/channel.c:696-716 | the new window, cut to the largest increment and the largest window; it never grows by more than the client grants |
| `SshChannel.FlowKept` | src/dropbear/channel.c:346-691 | for every run of a client that respects its window, whatever the program does: no byte lost, clipped or reordered, both ends agree on the window up to what is in flight, and unless the program closed its input it is closed only after everything was written |
| `SshChannel.EndsExactly` | src/dropbear/channel.c:639-691 | over every such run the session is ended exactly by a data message that arrives after the program has closed its input |
| `SshChannel.NeverEnds` | src/dropbear/channel.c:346-691 | a run in which the program keeps its input open never ends the session |
| `SshChannel.AllArrives` | src/dropbear/channel.c:346-691 | after every such run the program can get everything the client has sent, the window opens again completely, and the input is closed exactly when the client has sent EOF |
| `SshChannel.Transfer` | src/dropbear/channel.c:346-691 | whatever fits into the window, followed by EOF, reaches the program as it was sent, and then its input is closed |
| `SshChannel.BrokenRun` | src/dropbear/channel.c:356-361 | a run in which a failed write and one more byte within the window end the session |
| `SshChannel.RunFlow` | src/dropbear/channel.c:346-691 | the channel's buffer and counters follow the specified run for every sequence of events, failed writes, failed probes and the end of the program included |
| `IgmpLists.ListAdd` | src/igmp-proxy/listlib.c:63-87 | the node becomes the head of an acyclic list |
| `IgmpLists.ListCat` | src/igmp-proxy/listlib.c:96-127 | the source list follows the destination list in order |
| `IgmpLists.ListRemove` | src/igmp-proxy/listlib.c:139-162 | the head is detached, the rest is unchanged |
| `IgmpLists.ListRemoveNode` | src/igmp-proxy/listlib.c:170-236 | exactly the given node is unlinked and the order of the others kept |
| `IgmpChains.Chains.Pop` | src/igmp-proxy/listlib.c:139-162 | with many lists over one set of nodes, the head of one comes off it and all others stay lists |
| `IgmpChains.Chains.Push` | src/igmp-proxy/listlib.c:63-87 | a node that is on no list becomes the head of one and all others stay lists |
| `IgmpChains.Chains.Unlink` | src/igmp-proxy/listlib.c:170-236 | the given node comes off its list, wherever it stands, and all others stay lists |
| `IgmpChains.Chains.Cat` | src/igmp-proxy/listlib.c:96-127 | one list is appended to another and its own pointer is left stale, as the source leaves it |
| `IgmpChains.Chains.Walk` | src/igmp-proxy/listlib.c:63-236 | following the pointers gives exactly the list |
| `IgmpTimers.CheckingLasts` | src/igmp-proxy/igmp_proxy.c:1046-1108 | a group under check stays until its queries have run out and is removed on the very next tick, one query per expiry |
| `IgmpTimers.LeaveExpires` | src/igmp-proxy/igmp_proxy.c:708-743 | for every interval and count an unanswered leave removes the group on tick interval * count + 1, not earlier, after count - 1 queries |
| `IgmpTimers.MembershipLasts` | src/igmp-proxy/igmp_proxy.c:1223-1270 | a membership that is not refreshed lasts exactly its timer, with version 1 hosts or without |
| `IgmpTimers.MembersAfter` | src/igmp-proxy/igmp_proxy.c:1223-1270 | n ticks later a membership has its timer n lower and nothing else changed |
| `IgmpTimers.Version1After` | src/igmp-proxy/igmp_proxy.c:1223-1270 | version 1 hosts are taken to be there up to the tick of their timer and not on the next, from which on the group is an ordinary member |
| `IgmpTimers.CheckingSends` | src/igmp-proxy/igmp_proxy.c:1188-1222 | a group under check sends on the tick after its retransmission timer has run down and once every interval from then on |
| `IgmpPool.Allocate` | src/igmp-proxy/igmp_proxy.c:526-555 | moving a node from the free list to a database keeps every node on exactly one list |
| `IgmpPool.Cancel` | src/igmp-proxy/igmp_proxy.c:564-575 | returning a group's queries to the free list keeps every query on exactly one list, even when the group keeps its stale list pointer |
| `IgmpRouter.MirrorAdd` | src/igmp-proxy/igmp_proxy.c:128-247 | a new holder changes forwarding and upstream membership for its own address only |
| `IgmpRouter.MirrorDrop` | src/igmp-proxy/igmp_proxy.c:262-438 | a holder that leaves changes them for its own address only, and removes them when it was the last |
| `IgmpRouter.Router.constructor` | src/igmp-proxy/igmp_proxy.c:1560-1597 | all nodes start on the free lists, linked in the order of their allocation |
| `IgmpRouter.Router.Lookup` | src/igmp-proxy/igmp_proxy.c:2315-2332 | finds the group exactly when the interface holds the address |
| `IgmpRouter.Router.NetworkList` | src/igmp-proxy/igmp_proxy.c:179-209 | TTL 1 for exactly the virtual interfaces that hold the address, 255 elsewhere |
| `IgmpRouter.Router.AddMembership` | src/igmp-proxy/igmp_proxy.c:128-247 | joins on every upstream interface and sets the entry to the current holders |
| `IgmpRouter.Router.DropMembership` | src/igmp-proxy/igmp_proxy.c:262-438 | leaves and deletes when no holder is left, otherwise replaces the entry |
| `IgmpRouter.Router.Report` | src/igmp-proxy/igmp_proxy.c:508-670 | when a report is ignored, and otherwise membership with every timer and the version state given, no queries, and no other group touched |
| `IgmpRouter.Router.Leave` | src/igmp-proxy/igmp_proxy.c:678-749 | checking starts exactly for a version 2 group with a free query, with the three timers of section 7 of RFC 2236, and changes nothing else |
| `IgmpRouter.Router.TickGroup` | src/igmp-proxy/igmp_proxy.c:1188-1273 | one turn of the scan ages one group as the state machine says whose course over any number of ticks `IgmpTimers` describes, terminates, and sends that many queries |
| `IgmpRouter.Router.Tick` | src/igmp-proxy/igmp_proxy.c:1118-1279 | every group on a downstream interface is aged exactly once, removals during the scan notwithstanding, and the router stays consistent |
| `IgmpRouter.Router.CleanInterface` | src/igmp-proxy/igmp_proxy.c:2121-2183 | exactly the groups of the interface become free, with their queries, other interfaces keep theirs, and the mirror holds for the remaining ones |
| `IgmpRouter.Router.StopInterfaces` | src/igmp-proxy/igmp_proxy.c:2206-2233 | the loop empties the interface list without touching freed memory exactly when no interface follows an upstream one |
| `IgmpRouter.Router.Stop` | src/igmp-proxy/igmp_proxy.c:2192-2308 | in exactly that case no forwarding entry and no upstream membership is left and every group node and query node is freed once |
| `IgmpRun.RunProxy` | src/igmp-proxy/igmp_proxy.c:508-1279 | over every run each group and query node is found on exactly one list once by following the pointers, each interface holds an address at most once, queries only for groups under check, and forwarding entries and upstream memberships exist for exactly the held addresses and list exactly their interfaces; what is held was reported there, and the last report is held unless ignored or no group is left |
| `IgmpRun.RunAndStop` | src/igmp-proxy/igmp_proxy.c:2192-2308 | after every run of reports, leaves and ticks the stop is defined exactly when no interface follows an upstream one, and then leaves nothing behind and frees every node once |
| `IgmpRun.UnansweredLeave` | src/igmp-proxy/igmp_proxy.c:678-749 | on the running router the group is there up to tick interval * count and gone on the next, after count - 1 query attempts |
| `IgmpRun.LeaveAfterVersion1` | src/igmp-proxy/igmp_proxy.c:678-749 | on the running router a leave is ignored as long as the version 1 timer runs and starts a check from the next tick on, if a query is free |
| `IgmpQuerier.Interface.ReceivedQuery` | src/igmp-proxy/igmp_proxy.c:760-793 | a lower address takes the duty away for 300 ticks, a higher one clears the timer |
| `IgmpQuerier.Interface.TimerExpired` | src/igmp-proxy/igmp_proxy.c:1146-1186 | sends exactly when querier and due, takes over exactly when the other querier has been silent |
| `IgmpQuerier.SendsEvery` | src/igmp-proxy/igmp_proxy.c:1146-1186 | a querier sends when its timer has run down and every 126 ticks from then on, one more than the query interval |
| `IgmpQuerier.TakesOver` | src/igmp-proxy/igmp_proxy.c:1146-1186 | a router that has heard of a lower one takes the duty back on the tick after the timer has run out |
| `IgmpQuerier.Hears` | src/igmp-proxy/igmp_proxy.c:760-793 | after a query of a lower address the duty is back on tick 301, any other query only clears the timer |
| `IgmpQuerier.Reaches` | src/igmp-proxy/igmp_proxy.c:760-793 | what each router of the network is after one tick or group-specific query of another or its own |
| `IgmpQuerier.SecondsCount` | src/igmp-proxy/igmp_proxy.c:1118-1186 | a run takes as many seconds as it has ends of seconds |
| `IgmpQuerier.LowestForever` | src/igmp-proxy/igmp_proxy.c:760-793 | over every run the router with the lowest address never gives up the duty |
| `IgmpQuerier.SettledStays` | src/igmp-proxy/igmp_proxy.c:1146-1186 | a sole querier with timers in relation stays sole querier under every tick order and every group-specific query |
| `IgmpQuerier.SettledForever` | src/igmp-proxy/igmp_proxy.c:1146-1186 | the same over whole runs |
| `IgmpQuerier.ElectionConverges` | src/igmp-proxy/igmp_proxy.h:26-32 | from any timer state the lowest router is sole querier after 427 seconds |
| `ModArith.PowModOrder` | src/dropbear/dss.c:211-223 | exponents may be reduced modulo an order of the base |
| `ModArith.PowModIsPower` | src/dropbear/dss.c:211-223 | repeated multiplication modulo p is the remainder of the power |
| `InvMod.LoopEnds` | src/dropbear/libtommath/bn_fast_mp_invmod.c:61-123 | the loop for an odd modulus ends exactly for numbers other than zero |
| `InvMod.StripsTwos` | src/dropbear/libtommath/bn_fast_mp_invmod.c:61-106 | the inner loops strip all factors of two and nothing else, so a power of two is left as one |
| `InvMod.FastInvmod` | src/dropbear/libtommath/bn_fast_mp_invmod.c:23-146 | the binary extended Euclidean loop with one coefficient finds the inverse exactly when there is one |
| `InvMod.OddInvmod` | src/dropbear/libtommath/bn_mp_invmod.c:64-175 | the loop with both coefficients does so for an even modulus, and reduces the result |
| `InvMod.MpInvmod` | src/dropbear/libtommath/bn_mp_invmod.c:18-175 | the inverse or its absence for every number but zero; zero never ends for an odd modulus and gives zero for a power of two |
| `Dss.WTimesSum` | src/dropbear/dss.c:178-209 | the inverse of s times the signed sum is k again |
| `Dss.SignatureEquations` | src/dropbear/dss.c:316-350 | what is signed: r is g^k modulo p modulo q, and s times k is the hash plus x times r modulo q |
| `Dss.GoodExactly` | src/dropbear/dss.c:152-233 | for every r, every s > 0 and every hash: the check accepts exactly when s has an inverse w below q with g^(w * (hash + x * r)) modulo p modulo q equal to r |
| `Dss.OtherHash` | src/dropbear/dss.c:152-233 | a signature of one hash is accepted for another exactly when the power of g that the difference brings in leaves r unchanged |
| `Dss.ForgedRefused` | src/dropbear/dss.c:152-233 | a forged signature under a small key is refused |
| `Dss.SignatureAccepted` | src/dropbear/dss.c:152-378 | for a key with g^q = 1 and y = g^x a signature is accepted for its hash exactly when its s is invertible modulo q |
| `Dss.HalfRoundTrip` | src/dropbear/dss.c:352-376 | a zero-padded half decodes to its number |
| `Dss.ChooseK` | src/dropbear/dss.c:309-314 | takes the first random number that is positive and not above q, all earlier ones having been rejected |
| `Dss.Sign` | src/dropbear/dss.c:257-378 | waits exactly while every random number is rejected, exits exactly when the first one kept has no inverse, otherwise writes r and s as two 20-byte halves |
| `Dss.Verify` | src/dropbear/dss.c:152-233 | undefined exactly for blobs that are not 40 bytes long, without end exactly for s = 0 and an odd q, otherwise good exactly when the verification equation holds (`GoodExactly` says for which signatures that is), with zero for the inverse of zero when q is a power of two |
| `Dss.SignThenVerify` | src/dropbear/dss.c:152-378 | through bytes and back: for s > 0 good exactly when s is invertible; for s = 0 without end, or decided by r; k = q is never usable |
| `Cksum.TableEntry` | src/TI-chksum/cksum.c:40-94 | each of the 256 table entries is the remainder of its index |
| `Cksum.TableIsDivision` | src/TI-chksum/cksum.c:136-137 | one table step is eight steps of the bitwise division |
| `Cksum.CrcIsRemainder` | src/TI-chksum/cksum.c:153-168 | the table loop computes the remainder of the message with 32 zeros appended by the generator polynomial |
| `Cksum.PosixIsDivision` | src/TI-chksum/cksum.c:153-168 | the checksum is the complement of that remainder for data and length |
| `Cksum.LengthForm` | src/TI-chksum/cksum.c:153-168 | the length is appended least significant byte first and without leading zeros |
| `Cksum.EmptySum` | src/TI-chksum/cksum.c:153-168 | the sum of nothing is all ones |
| `Cksum.CalcBufSum` | src/TI-chksum/cksum.c:153-168 | the buffer loop computes the POSIX checksum for every buffer |
| `Cksum.CalcSum` | src/TI-chksum/cksum.c:116-151 | reading in blocks of 64K sums up exactly the covered part of every file, or runs behind its buffer |
| `Cksum.TagReadsBack` | src/TI-chksum/cksum.c:96-195 | a tagged file is recognised, its sum reads back, retagging replaces only the sum |
| `Cksum.TagForm` | src/TI-chksum/cksum.c:96-195 | a file counts as tagged exactly when the four bytes of the magic number stand before its last four; tagging keeps the file and appends them; which part of a tagged file the sum covers |
| `Cksum.TagLeftOut` | src/TI-chksum/cksum.c:116-151 | the tag is left out exactly when the untagged length modulo 65536 is below 65528 |
| `Cksum.TaggedSum` | src/TI-chksum/cksum.c:116-195 | the sum over file and tag equals the sum over the file exactly for the remainders and lengths that Survives describes |
| `Cksum.ZerosFail` | src/TI-chksum/cksum.c:116-195 | 65528 zeros are an input for which it does not |
| `Cksum.TagAndCheck` | src/TI-chksum/cksum.c:116-195 | tagging then checking succeeds exactly below that bound or, at it, for a remainder that survives the tag |
| `Voice.ConfigSave` | src/cfgmgr/voice_api.c:556-696 | the character loop sends exactly the specified chunks, or overflows its sequence number exactly beyond 2000000 characters |
| `Voice.SentExactly` | src/cfgmgr/voice_api.c:556-696 | chunk j goes out under number j exactly when it is the first, the last, or not all 'A', marked as start, continuation or end |
| `Voice.Receiver.Receive` | src/cfgmgr/voice_api.c:259-315 | refilling and appending as specified for any sequence number, unless the message would write outside the buffer or the write pointer has never been set |
| `Voice.LongArrives` | src/cfgmgr/voice_api.c:232-315 | 201 to 30000 characters arrive unchanged whatever the receiver held before, although all-A chunks are skipped |
| `Voice.ConfigurationArrives` | src/cfgmgr/voice_api.c:232-315 | for every string and every state of the receiver: it arrives exactly when it has at most 30000 characters and either has more than 200 or meets an empty buffer with the write pointer set |
| `Voice.ShortFails` | src/cfgmgr/voice_api.c:232-315 | a second short configuration is added to the first, and the first one after the start goes through an unset pointer |
| `Voice.SaveAndReceive` | src/cfgmgr/voice_api.c:556-696 | the same for both loops and any receiver |
| `Ber.ReadHeader` | src/dropbear/keyimport.c:255-297 | the reader's loops give the specified header for any bytes, with identifier and length as 32-bit integers that can turn negative |
| `Ber.ReadForm` | src/dropbear/keyimport.c:255-297 | what the reader makes of any bytes whose identifier takes one byte: short and long lengths and what is too short |
| `Ber.WriteIdLen` | src/dropbear/keyimport.c:305-358 | the same count with and without a destination, and exactly that many bytes written; undefined exactly for identifiers of 2^28 and lengths of 2^24 and above, where a counting loop shifts too far |
| `Ber.HeaderForm` | src/dropbear/keyimport.c:305-358 | the form of section 8.1 of ITU-T X.690: one byte for identifiers up to 30 and for lengths below 128, otherwise the shortest big-endian length behind its count |
| `Ber.HeaderRoundTrip` | src/dropbear/keyimport.c:255-358 | of what can be written, reading inverts writing exactly for identifiers of at most 30, whatever follows |
| `KeyImport.SizeOf` | src/dropbear/keyimport.c:882-892 | the sizing pass gives the length of the body, or is undefined exactly when a number is too long |
| `KeyImport.Write` | src/dropbear/keyimport.c:881-913 | the sizing pass equals what is written, which is a sequence of the integers; undefined exactly when a length is 2^24 or above |
| `KeyImport.NumbersOrder` | src/dropbear/keyimport.c:749-879 | the order of the integers of an RSA and a DSA key file |
| `KeyImport.BodyForm` | src/dropbear/keyimport.c:881-913 | every integer stands in the file behind its header, one after the other |
| `KeyImport.ReadKey` | src/dropbear/keyimport.c:597-668 | the reading loop stores the specified fields, with the RSA modulus held back until after the exponent; negative lengths pass the bound check and move the position back, and only those that are stored or lead before the blob are fatal |
| `KeyImport.KeyExactly` | src/dropbear/keyimport.c:597-668 | for any blob and any fields: the key is read with them exactly when the header of a sequence and then nine or six integers with their headers stand one behind the other, the first of length one and value zero, and the fields are integers 1 to 5 in Dropbear's order |
| `KeyImport.KeyRoundTrip` | src/dropbear/keyimport.c:597-913 | reading any key that can be written gives the same fields in Dropbear's order, whatever padding follows |
| `KeyImport.LastNegative` | src/dropbear/keyimport.c:638-660 | an RSA key whose last integer has length -1 is read like any other |
| `KeyImport.WriteThenRead` | src/dropbear/keyimport.c:597-913 | the same for both loops |
| `DnsList.Add` | src/dproxy-nexgen/dns_list.c:8-21 | the request becomes the first of an acyclic list |
| `DnsList.FindById` | src/dproxy-nexgen/dns_list.c:23-35 | the first node with the id, if there is one |
| `DnsList.Remove` | src/dproxy-nexgen/dns_list.c:37-58 | the search for the predecessor unlinks exactly the given node, which keeps its own link |
| `Dns.RemoveKeeps` | src/dproxy-nexgen/dproxy.c:155-310 | taking a request off the list together with its reply keeps the accounts |
| `Dns.Proxy.NewQuery` | src/dproxy-nexgen/dproxy.c:108-153 | a miss on a connected proxy is listed, everything else is answered at once or dropped |
| `Dns.Proxy.HandleRequest` | src/dproxy-nexgen/dproxy.c:155-223 | a response that is a success, a refusal or an authoritative absence of the name answers its own request and removes it; duplicates and other responses change nothing; a packet with an unknown id is a new query; together the specified step |
| `Dns.Proxy.SweepOne` | src/dproxy-nexgen/dproxy.c:264-310 | one request ages by a second and is asked about again, kept, or taken off the list while the scan goes on from its link |
| `Dns.Proxy.Sweep` | src/dproxy-nexgen/dproxy.c:264-310 | every request ages by a second, exactly those without a further name server leave, each with an error reply, and exactly those whose turn it is are asked about again; no request reaches the 240-second branch |
| `Dns.OneQuery` | src/dproxy-nexgen/dproxy.c:264-310 | a query that nobody answers goes to the next name server every two seconds and gets its one error reply in the second in which none is left |
| `Dns.RunDproxy` | src/dproxy-nexgen/dproxy.c:225-310 | over every run list, replies, clients, direct answers and upstream queries are the specified function of the events; ids are unique, no request is ten seconds old, and each listed request leaves with exactly one reply, at its own client |

## Left out

- cramfs: reading the directory tree from disk, the size estimate and the superblock CRC branch; a version 2 image is reported as such and not examined.
- cramfs holes: the writer is built without them; the reader's branch for them is modelled.
- CramfsWriter.Mkimage: the image buffer is as large as the caller says and holds the image; the size estimate that main makes is not modelled.
- CramfsFsck.PackAndCheck: the same.
- CramfsFsck.Check: nothing is stated for images on which the original reads outside its window (`Undefined`), or for what cramfsck does with a version 2 image after recognising it.
- CramfsRoundTrip.FsckReadsBack: the recursion depth is a parameter that has to exceed the height of the tree, because a damaged image can make the original recurse without end.
- packet.c: compression, which the configuration disables, and interrupted reads; every modelled read returns at least one byte.
- SshStream.Delivered: one direction under one set of keys; the change of keys is the subject of SshSession.
- kex.c: Diffie-Hellman, key derivation and algorithm negotiation; their results are parameters.
- SshSession.RunSession: messages are modelled as parsed; one that is shorter than its fields ends the session in the buffer code. What channels and timeouts send is a parameter.
- auth.c: user lookup, shells and the verification of passwords and keys; their outcomes are parameters.
- channel.c: the channel table, channels the server opens, forwarding, closing handshakes and standard error; one session channel is modelled, up to the end of the session.
- igmp_proxy.c: failing kernel calls, interface discovery and packet parsing.
- IgmpRouter.Router.constructor: the last member query count is the 2 that main installs and nothing changes; a larger one would leave a member group with queries when the free list runs out half way. IgmpTimers is general.
- IgmpRouter.Router.Stop: what happens after an interface has been freed twice is not described beyond the result `false`.
- IgmpRun.UnansweredLeave: counts calls of the send function; a router that is not the querier then sends nothing.
- igmp_proxy.c in_cksum: a 16-bit sum with a single fold, not modelled.
- dss.c: parsing of key blobs, the alternative generation of k, and moduli p below two.
- keyimport.c: base64, file headers, encryption of key files and the 3000-byte blob limit.
- cksum.c: the 64-bit length overflow test, which no file reaches, and files shorter than a tag.
- voice_api.c: base64, whose text holds no NUL character, message transport, the size comparison after decoding, and the DEFAULT_CONFIG message, which carries no chunk.
- dproxy.c: packet parsing, the cache file, failed allocation of a list node, and reloading of the configuration beyond the set of name servers it leaves.
- iptables tools, scp, login records, DHCP, LED and web management: input, output and glue.
