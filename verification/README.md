# Verified models of the Sirius kernel and its SSH server

This project models the parts of Sirius that carry state across calls and proves what they keep over every run.
`dafny verify dfyconfig.toml` checks all of it.

**File stack.** A file is a flat byte sequence. `vfs.c` keeps a write-back page cache per node and lets whole aligned
blocks bypass it. `fat32.c` stores the same file as a chain of clusters, with the links in the FAT and everything in
sectors. `Vfs` proves the two layers together: any run of reads, writes and flushes, then a close, behaves as on the
flat file as far as the volume has room, the sectors alone hold the file at the end, and the first directory entry with
its short name has its size (`Vfs`, `VfsStore`, `PageCache`, `EntrySize`, `Fat32Volume`, `FatDisk`, `FatFile`,
`FatTable`, `FatRuns`, `Fat32`, `Vnode`). Long names are written as reversed VFAT fragments and read back (`Lfn`, `LfnRoundTrip`, `LfnDirectory`, `LfnCode`, `LfnRun`).

**SSH transport.** Streaming SHA-256 and HMAC (`Sha256`), counter mode (`AesCtr`), packets and conversations over a
byte stream cut at will, across a change of keys too (`SshPacket`, `SshSession`, `SshRun`, `SshRekey`), the mpint
encoding and the exchange hash (`SshMpint`, `SshKex`), the session through its key exchange (`SshKexSession`), and the
arithmetic modulo 2^255 - 19 with its octet form (`Limbs`, `Field25519`, `Pack25519`). The AES block function, the
SHA-256 compression function and scalar multiplication are parameters: every statement holds for any such function.

**Local sockets.** `AfLocal` is a state machine with one step per critical section of `af_local.c`, over any number of
threads. A thread between two critical sections is its program counter. `AfLocalSafety`, `AfLocalRuns` and
`AfLocalWakeups` prove what every interleaving keeps.

**Allocators.** The heap list (`HeapBlocks`, `Heap`, `HeapAllocator`, `HeapRun`), the page bitmap of the physical
allocator and of the pool (`Bitmap`, `Pmm`, `PageRuns`, `PmmRun`, `Pool`).

**Rings and sums.** The circular buffer (`Circular`, in `Ring.dfy`) under datagram records (`UdpRing`, `UdpSocket`)
and under the terminal's input queue (`Tty`), and the Internet checksum with the IPv4 header (`Checksum`, `IpHeader`).
`Arith`, `Bytes` and `Octets` hold what several of these share.

Objects whose methods update their fields are classes here, lists they relink are `seq` fields, buffers are arrays.
Each such method is proved against a specification of the old and the new state, and ghost fields hold the abstract
value (`disk`, `contents`, `message`, `queue`, `used`).

What the proofs settle about the code, each as an exact condition:

- A thread asleep in accept can miss its wake-up in exactly one way, when its listening socket itself calls connect
  (`AfLocalWakeups.RunLosesIff`, with such a run in `AfLocalWakeups.RunLosesOne`).
- A long name comes back from its fragments exactly when it has no character 0xFF, because the reader goes through
  signed characters (`LfnDirectory.LongNameIff`); a name that starts with 0xE5 is written but never listed
  (`LfnDirectory.DeletedMark`); an added name is listed exactly while no cluster before its own has an end mark
  (`LfnRun.RunShows`, `LfnRun.HiddenOne`).
- Closing a file puts its size into the first entry with its short name: the name is listed with the new size exactly when
  no entry before its own has the same short name and no end mark comes first (`EntrySize.SizeShowsIff`), and names that
  share eight characters and the extension share the short name (`EntrySize.Collides`, `EntrySize.SizeStrays`).
- The search for a free cluster covers every FAT entry before the data area, in further FAT copies or in the slack of
  the last FAT sector. A chain leaves the device exactly when it is extended with no cluster free and such an entry free
  (`FatRuns.RunKeepsIff`, `Fat32Volume.Volume.Write`, `FatRuns.RunOut`).
- vfs_read and vfs_write do their work exactly when the whole blocks among their bytes have room, and vfs_flush stores
  the file exactly when all of it has. Otherwise the FAT decides: the chain leaves the device, the driver finds no first
  cluster, or it moves fewer bytes than asked, and then the loops of read and write never end and the flush reports
  success (`Vfs.Read`, `Vfs.Write`, `Vfs.Flush`, `Vfs.LosesLast`).
- kmalloc serves its callers exactly up to 2^64 - 4128 bytes; above that it writes a header past the end of the heap,
  hands out too little or grows the heap for nothing, unless it fails at once (`HeapAllocator.RightIff`,
  `HeapAllocator.FailsAt`).
- The kernel's last page is free after pmm_init exactly when the kernel runs over into a usable page
  (`Pmm.KernelFreeIff`), the freed pages consist of usable bytes exactly when regions that start off a page boundary have
  usable bytes before them (`Pmm.PagesUsableIff`, `Pmm.OffBoundary`), and pages are marked for nobody exactly when the
  run found starts at page 0 (`PmmRun.LosesIff`).
- A terminal in canonical mode stops for good exactly when a write fills its queue without a newline
  (`Tty.JammedIff`, `Tty.RunJamsIff`, `Tty.JamReached`).
- A key exchange whose KEXINIT was accepted cannot finish when banner and KEXINIT leave no room for the hash input
  (`SshKexSession.TooLongToHash`), and a server that keeps its old keys behind its own NEWKEYS is understood exactly when it
  sends nothing until the client's NEWKEYS (`SshRekey.LateIff`).

## Model

| member | source | states |
|---|---|---|
| Vfs.Session | kernel/fs/vfs/vfs.c:633-990 | any run of reads, writes (each starting at or before the end of the file) and flushes gets exactly to the first operation the volume has no room for, and up to there returns what the flat file returns; what becomes of that operation is decided by the FAT beforehand; a run that gets through and is closed leaves no page cached, the store alone begins with the whole file exactly when there is room for it, the first entry of the parent directory with the file's short name has its size, and every file but these two is as it was |
| Vfs.Read | kernel/fs/vfs/vfs.c:721-808 | returns exactly when no whole block of the bytes asked for lies past the room of the volume, and then exactly the slice of the flat file cut at its end, across cached, dirty, partial and bypassed blocks, with the node standing for the same file; otherwise a dirty page cannot be written back and the FAT decides how the call goes wrong |
| Vfs.Write | kernel/fs/vfs/vfs.c:810-901 | all bytes are taken exactly when no whole block of them lies past the room of the volume; then the node stands for the file with the data spliced in and nothing else on the volume changes; otherwise the call fails, never returns or takes the chain off the device, and which of these is decided by the FAT beforehand |
| Vfs.Flush | kernel/fs/vfs/vfs.c:903-951 | with room for the file no page is dirty afterwards and the store alone begins with the whole file; without, it takes the chain off the device, or reports an error and changes nothing, or reports success with no page dirty and the file not stored, and which of these is decided by the FAT beforehand |
| Vfs.Close | kernel/fs/vfs/vfs.c:957-990 | unless the chain leaves the device, the cache is empty, the store alone begins with the whole file exactly when the volume has room for it, and in either case the parent directory has the size in the first entry with the file's short name |
| VfsStore.WriteOut | kernel/fs/vfs/vfs.c:923-938 | a write of file bytes through the driver: within the room all of them reach the store; otherwise the chain leaves the device, the call fails and changes nothing, or fewer bytes are stored, as the FAT decides; nothing else on the volume changes |
| Vfs.LosesLast | kernel/fs/vfs/vfs.c:810-951 | on a file that fills the volume, writing one byte behind its end and flushing both report success, and the byte is not on the volume |
| EntrySize.UpdateEntrySize | kernel/fs/fat/fat32.c:426-464 | the size goes into the first entry with the short name before any end mark, on any number of clusters; success exactly when there is one; no other file and no other entry changes |
| EntrySize.SizeShowsIff | kernel/fs/fat/fat32.c:665-701 | in a directory with the entries of a name, the listing then shows the name with the new size, and nothing else changed, exactly when before these entries there is no end mark and no other entry of the same short name; otherwise the name is listed with its old size |
| EntrySize.SizeStrays | kernel/fs/fat/fat32.c:665-701 | of two names with one short name, closing the second writes its size into the entry of the first |
| EntrySize.Collides | kernel/fs/fat/fat32.c:281-306 | names with the same first eight characters and the same extension have one short name |
| EntrySize.CollidingDocuments | kernel/fs/fat/fat32.c:281-306 | document_one.txt and document_two.txt are two names with one short name |
| Vfs.GetPage | kernel/fs/vfs/vfs.c:633-697 | the page of a block, found in the list or loaded from the store, with the node standing for the same file |
| Vfs.Invalidate | kernel/fs/vfs/vfs.c:699-719 | no page of the block is left, and every other block that was cached still is, by the same page |
| Vfs.ReadDirect | kernel/fs/vfs/vfs.c:748-778 | the bypass writes dirty pages of the blocks back, drops them, and reads the flat file's bytes from the store exactly when the blocks have room; otherwise it comes to a point where nothing more is read |
| Vfs.WriteDirect | kernel/fs/vfs/vfs.c:837-858 | the bypass drops the pages of the blocks and with room for all of them splices them into the file; otherwise the driver fails, leaves the device, or comes to a point where the next turn of the loop stores nothing |
| Vfs.PutBytes | kernel/fs/vfs/vfs.c:860-897 | a write into one block through its page, loaded or started fresh at the end of the file, splices the piece into the file |
| PageCache.FlatIsUnique | kernel/fs/vfs/vfs.c:633-697 | pages and store determine the file they stand for |
| PageCache.BypassWrite | kernel/fs/vfs/vfs.c:837-858 | a write of whole blocks to the store, with their pages dropped, keeps the remaining pages coherent with the spliced file |
| PageCache.WriteBack | kernel/fs/vfs/vfs.c:923-938 | writing one page's block to the store puts that block there, makes the page clean and disturbs no other block |
| PageCache.CleanStoreHoldsFile | kernel/fs/vfs/vfs.c:903-951 | when no page is dirty the store begins with the whole file |
| Fat32Volume.Volume.Read | kernel/fs/fat/fat32.c:703-764 | the slice of the flat file through the cluster chain, cut where the file or its chain ends |
| Fat32Volume.Volume.Write | kernel/fs/fat/fat32.c:943-1013 | exactly the window changes, the chain grows as needed, every other file stays; short exactly when own and free clusters are too few; fails exactly on a directory or an empty file with no entry free; the chain leaves the device exactly when they are too few and the FAT has a free entry past the last cluster |
| Fat32Volume.Volume.SeekOn | kernel/fs/fat/fat32.c:958-968 | past the last cluster each turn takes the next free entry there and links it behind the one before |
| Fat32Volume.Volume.GetNext | kernel/fs/fat/fat32.c:125-149 | the entry read from its sector is the link of the table the sectors hold |
| Fat32Volume.Volume.SetCluster | kernel/fs/fat/fat32.c:193-219 | the sectors then hold the table with that one link replaced and the same data area |
| Fat32Volume.Volume.FindFree | kernel/fs/fat/fat32.c:222-262 | the sector scan finds the lowest free entry from 2 on, or there is none |
| Fat32Volume.Volume.AllocateFirst | kernel/fs/fat/fat32.c:949-953 | the lowest free entry, marked as an end; it is a cluster of the device exactly when some cluster was free, and there is none exactly when no entry is free |
| Fat32Volume.Volume.Extend | kernel/fs/fat/fat32.c:994-1003 | the chain gains the lowest free entry at its end and every other file stays; the chain stays on the device exactly when some cluster was free |
| Fat32Volume.Volume.FreeChain | kernel/fs/fat/fat32.c:265-278 | ends on every table whose links stay in range, and leaves the table that releasing the chain gives |
| Fat32Volume.Volume.Remove | kernel/fs/fat/fat32.c:265-278 | the file is gone, its clusters are free, every other file stays |
| FatTable.ChainIsUnique | kernel/fs/fat/fat32.c:125-149 | a table has at most one chain from a head |
| FatTable.AllocatedExistsIffRoom | kernel/fs/fat/fat32.c:229-262 | the scan, which also covers further FAT copies, yields a cluster that exists exactly when one is free |
| FatTable.ExtendedChain | kernel/fs/fat/fat32.c:994-1003 | linking a free cluster behind the last one makes a chain one longer and keeps every chain apart from it |
| FatTable.SetLink | kernel/fs/fat/fat32.c:208-208 | only that entry's low 28 bits change; the top four stay |
| FatTable.ReleaseChain | kernel/fs/fat/fat32.c:265-278 | releasing a chain zeroes exactly the links of that chain |
| FatTable.ReleaseKeepsOthers | kernel/fs/fat/fat32.c:265-278 | chains apart from the released one stay chains |
| FatTable.ReleaseFreesReachable | kernel/fs/fat/fat32.c:265-278 | on any table with links in range, cyclic and cross-linked ones included, the entries zeroed are exactly those reachable from the start |
| FatRuns.StepKeepsIff | kernel/fs/fat/fat32.c:193-278 | creating, extending and removing a file keep live chains in range, acyclic, ended and pairwise disjoint exactly when an allocation finds no free entry at all or a cluster of the device is free; top bits always stay |
| FatRuns.RunKeepsIff | kernel/fs/fat/fat32.c:193-278 | over every run all states are so exactly when every allocation had such room |
| FatRuns.RunKeepsTopBits | kernel/fs/fat/fat32.c:208-208 | over every such run no entry loses its top four bits |
| FatRuns.RunOut | kernel/fs/fat/fat32.c:229-262 | a table with one cluster and one entry more, on which extending the only file leaves the device |
| Fat32.Geo.HoldsAfterPutEntry | kernel/fs/fat/fat32.c:193-219 | rewriting one entry in its sector changes only that entry of the table and no data |
| Fat32.Geo.HoldsAfterPutData | kernel/fs/fat/fat32.c:975-990 | rewriting the sectors of one cluster changes only that cluster and no entry |
| LfnRoundTrip.FragmentsRead | kernel/fs/fat/fat32.c:813-856 | from any state, reading the fragments of a name leaves exactly the name in the buffer and lists nothing |
| LfnRoundTrip.FragmentReads | kernel/fs/fat/fat32.c:831-854 | fragment k fills characters 13k to 13k+12 of the name, fewer at its end, and nothing else |
| LfnDirectory.EntriesRead | kernel/fs/fat/fat32.c:798-911 | the entries of a name, whatever precedes and follows them, list one node with that name, kind, cluster and size |
| LfnDirectory.Inserted | kernel/fs/fat/fat32.c:314-391 | writing the entries over open ones of a tidy directory, not behind an end mark, adds exactly the new node to the listing, at the place of the gap, and the directory stays tidy |
| LfnDirectory.Placed | kernel/fs/fat/fat32.c:798-911 | entries written behind a stretch without end mark list what came before, the new node, and what stands behind it |
| LfnDirectory.LongNameIff | kernel/fs/fat/fat32.c:836-853 | a name of 1 to 255 characters comes back exactly when none of them is 0xFF |
| LfnDirectory.DeletedMark | kernel/fs/fat/fat32.c:807-811 | a name that starts with 0xE5 adds nothing to the listing |
| LfnDirectory.Stale | kernel/fs/fat/fat32.c:783-787 | with no long name under way, what is left in the buffer never shows |
| LfnCode.AddEntry | kernel/fs/fat/fat32.c:309-423 | the entries go to the first cluster with a long enough run of open entries, or to a new cluster; the call fails exactly when no cluster has room and no new one can be had or the name needs more entries than a cluster has, and then it has taken every free cluster, and one past the end of the volume if the FAT has a free entry there, unless the chain already ends there |
| LfnCode.AddedShows | kernel/fs/fat/fat32.c:309-423 | in a tidy directory of any number of clusters a new name shows exactly when no cluster before its own has an end mark; then the listing gains its node, otherwise the listing stays as it is |
| LfnRun.RunShows | kernel/fs/fat/fat32.c:309-423 | at every point of any run of additions, the directory lists what it listed and, of the names added, exactly those whose entries are in no cluster behind the first one that has an end mark at that point |
| LfnRun.AddAll | kernel/fs/fat/fat32.c:309-423 | any sequence of additions goes through the states of such a run, each call reporting success exactly when its name was added |
| LfnRun.HiddenOne | kernel/fs/fat/fat32.c:341-418 | a cluster with one open entry at its end, and a name that needs two: it goes to the next cluster, behind an end mark, and the listing stays as it is |
| LfnCode.Readdir | kernel/fs/fat/fat32.c:770-917 | over all clusters of the directory, the node with the given index of the listing, and failure exactly past its end; names have up to 255 characters, which the name field of VFS_NAME_MAX = 256 octets holds |
| LfnCode.ToShort | kernel/fs/fat/fat32.c:281-306 | the 8.3 name: up to 8 capitals before the first dot, up to 3 after it, padded |
| LfnCode.Sum | kernel/fs/fat/fat32.c:114-122 | the rotating sum of the short name |
| AfLocalRuns.RunSafe | kernel/kernel/net/af_local.c:130-251 | in every reachable state of every interleaving a peer points back unless it is closing with the closing thread on its way, connected means having a peer, a connecting socket is on some list, and no socket is met twice by following next pointers from listen queues and from threads' hands |
| AfLocalRuns.RunNeverDangles | kernel/kernel/net/af_local.c:437-500 | in every reachable state each thread inside a call can take its next step: every socket it holds exists |
| AfLocalSafety.StepInv | kernel/kernel/net/af_local.c:130-500 | every step of every thread keeps the invariant, with each pending socket moving from one holder to the next |
| AfLocalSafety.ConnectOp | kernel/kernel/net/af_local.c:142-162 | connect puts the client in front of the listen queue and keeps the invariant |
| AfLocalSafety.AcceptTestOp | kernel/kernel/net/af_local.c:187-209 | accept sleeps, gives up, or takes the head of the queue into the thread's hand, and keeps the invariant |
| AfLocalSafety.FinishAcceptOp | kernel/kernel/net/af_local.c:228-248 | the two ends point at each other, or the client has gone, and the invariant is kept |
| AfLocalSafety.ReleaseOp | kernel/kernel/net/af_local.c:442-457 | release takes the whole listen queue and the peer, and keeps the invariant |
| AfLocalSafety.DrainOp | kernel/kernel/net/af_local.c:461-478 | each pending socket leaves the list in turn, and the invariant is kept |
| AfLocalSafety.FinishReleaseOp | kernel/kernel/net/af_local.c:480-497 | the former peer is disconnected if it still points here, and the invariant is kept |
| AfLocalWakeups.StepLosesIff | kernel/kernel/sched/wakeup.c:32-67 | a step keeps every wake-up exactly when it is not a connect on a listening socket that a thread sleeps on in accept with nobody about to wake it |
| AfLocalWakeups.RunLosesIff | kernel/kernel/sched/wait.c:34-58 | over every run, no wake-up has been lost so far exactly when no such step was taken |
| AfLocalWakeups.RunLosesNone | kernel/kernel/net/af_local.c:157-192 | when listening sockets do not call connect, a sleeper always still has to sleep or is about to be woken |
| AfLocalWakeups.RunLosesOne | kernel/kernel/net/af_local.c:130-170 | a run in which a thread is left asleep in accept |
| Sha256.Stream | user/libssh/extra.c:197-258 | for every split of a message into updates, final yields the fold of the compression function over the padded message |
| Sha256.Context.Update | user/libssh/extra.c:197-227 | the context then stands for the message with the data appended, with the bit counter wrapping at 2^64 |
| Sha256.Context.Final | user/libssh/extra.c:229-258 | the SHA-256 of the message the context stands for |
| Sha256.Hash | user/libssh/extra.c:260-271 | the SHA-256 of the message |
| Sha256.ZerosLeast | user/libssh/extra.c:243-249 | no smaller number of zero octets fills the last block |
| Sha256.PacketMac | user/libssh/extra.c:325-356 | HMAC of the four octets of the sequence number followed by the packet |
| AesCtr.CryptInPlace | user/libssh/extra.c:546-574 | the octets are masked with the keystream from the counter on, and the counter ends past the last block used, wrapping at 2^128 |
| AesCtr.Increment | user/libssh/extra.c:559-564 | adding one octet by octet with early stop gives the big-endian successor |
| AesCtr.CryptUndo | user/libssh/extra.c:546-582 | masking twice from the same counter gives the octets back |
| AesCtr.CryptBlocks | user/libssh/extra.c:555-570 | after whole blocks, a message goes on with the counter moved by their number |
| SshPacket.DecodeWire | user/libssh/libssh.c:952-1096 | whatever follows it on the stream, a packet that was sent decodes to the message number and payload it carries |
| SshPacket.PadLeast | user/libssh/libssh.c:65-71 | no shorter padding of at least four octets fills the block |
| SshPacket.OneKeystream | user/libssh/libssh.c:97-117 | the encrypted parts of a run put end to end are the plain run under one uninterrupted keystream |
| SshSession.Sender.Send | user/libssh/libssh.c:51-146 | a message that does not fit changes nothing; any other uses one sequence number and its blocks of the counter; the call succeeds exactly when no write of the stream fails, with exactly the octets of the packet on the stream, and otherwise stops at the one failed write with a proper prefix of them there |
| SshSession.Sender.Frame | user/libssh/libssh.c:82-95 | the buffer holds length, padding length, message number, payload and padding |
| SshSession.Receiver.Receive | user/libssh/libssh.c:952-1096 | the codes of a failed stream come exactly with one failed read; otherwise the outcome is what decoding the front of the stream gives, refusals with their code included, and a packet moves stream, counter and sequence number past itself |
| SshSession.Receiver.Length | user/libssh/libssh.c:978-1005 | packet_length read through the keystream without moving the counter |
| SshRun.Run | user/libssh/libssh.c:51-146 | over any script of sends and receives with the stream cut at will, there is one message for every receive step done and the k-th received is the k-th accepted for sending; the script stops exactly at a failed read or write of the stream, with the code of that step; and both ends agree on counter and sequence number |
| SshRun.SameNumbers | user/libssh/libssh.c:1086-1086 | once everything sent is received, counters, counter octets and sequence numbers of both ends are equal |
| SshRekey.Run | user/libssh/libssh.c:503-525 | over any script across a change of keys, the sender changing right behind NEWKEYS and the receiver when it processes it, with packets under both sets of keys on the stream, there is one message for every receive step done, the k-th received is the k-th accepted for sending, and the script stops exactly at a failed read or write of the stream, with the code of that step |
| SshRekey.LateIff | user/libssh/libssh.c:503-525 | when the sender keeps its old keys for some packets behind its own NEWKEYS, the stream behind it is one of these messages under the new keys, for some padding and numbers, exactly when there are no such packets |
| SshRekey.SwitchReceiver | user/libssh/extra.c:358-430 | the receiving end takes key, counter and MAC key, and its sequence number goes on |
| SshRekey.SameNumbersAfter | user/libssh/libssh.c:503-525 | once everything is received behind the change, both ends have the same keys, counter and sequence number |
| SshMpint.Append | user/libssh/extra.c:273-323 | appends the mpint of the secret when it fits, and fails exactly when it does not |
| SshMpint.BodyCanonical | user/libssh/extra.c:290-309 | the encoded octets have the value of the secret, a clear top bit, and no shorter string has both |
| SshKex.TranscriptBinds | user/libssh/libssh.c:191-254 | the hash input determines both banners, both KEXINIT payloads, the host key, both public keys and the shared secret |
| SshKex.Transcribe | user/libssh/libssh.c:177-254 | the buffer holds the encoded transcript, and is refused exactly when the bound on its size exceeds 4096 |
| SshKex.Derive | user/libssh/extra.c:603-623 | the hash of secret, exchange hash, letter and session identifier |
| SshKexSession.Session.ProcessKexinit | user/libssh/libssh.c:342-458 | accepted exactly in the KEXINIT state with a payload that fits and a reply that was sent; order and keys are kept |
| SshKexSession.Session.BuildReply | user/libssh/libssh.c:149-340 | succeeds exactly when the hash input has room and signing succeeds; the exchange hash covers the transcript, the session identifier is set once, the outbound keys come from secret, hash and identifier, and the reply is host key, public key and signature as strings |
| SshKexSession.Session.ProcessKexdhInit | user/libssh/libssh.c:459-501 | accepted exactly in its state with a 32-octet key, room for the hash input, a signature and both packets sent; changes keys only in its own state, and the secret is the product with the client's key |
| SshKexSession.Session.ProcessNewkeys | user/libssh/libssh.c:503-525 | accepted exactly when expected, and only then encryption goes on, with both directions' keys from one secret, hash and identifier |
| SshKexSession.Drive | user/libssh/libssh.c:1096-1126 | every run with at most one banner exchange accepts and refuses event by event as the protocol does, encryption never goes off and its keys stay, and the session identifier stays once set |
| SshKexSession.EncryptedIff | user/libssh/libssh.c:342-525 | over every run of events KEXINIT, KEXDH_INIT and NEWKEYS are accepted at most once each and in this order, and encryption is on exactly when all three were |
| SshKexSession.TooLongToHash | user/libssh/libssh.c:180-192 | a KEXINIT that is accepted but leaves no room for the hash input makes every KEXDH_INIT fail |
| Field25519.Mul | user/libssh/tweetnacl.c:354-363 | for all limbs up to 2^26 in magnitude the product modulo 2^255 - 19, with no value outside signed 64 bits on the way and limbs of at most 65573 at the end; the result may be one of the factors |
| Field25519.Car | user/libssh/tweetnacl.c:273-283 | one carry round for limbs up to 2^62, with no value outside signed 64 bits |
| Field25519.CarValue | user/libssh/tweetnacl.c:273-283 | a carry round keeps the number modulo 2^255 - 19 |
| Field25519.CarTight | user/libssh/tweetnacl.c:361-362 | the second carry round leaves every limb within sixteen bits but the lowest, which is over by at most 38 |
| Field25519.Columns | user/libssh/tweetnacl.c:357-358 | the 31 columns stand for the product of the two numbers |
| Field25519.Fold | user/libssh/tweetnacl.c:359-360 | folding the upper columns 38-fold keeps the number modulo 2^255 - 19 |
| Field25519.Add | user/libssh/tweetnacl.c:342-346 | the limbs and the numbers add |
| Field25519.Sub | user/libssh/tweetnacl.c:348-352 | the limbs and the numbers subtract |
| Field25519.Invert | user/libssh/tweetnacl.c:370-380 | the power with exponent 2^255 - 21 |
| Field25519.Pow2523 | user/libssh/tweetnacl.c:382-392 | the power with exponent 2^252 - 3 |
| Field25519.Exponents | user/libssh/tweetnacl.c:370-392 | the exponents are the size of the field less two, and an eighth of the size less five |
| Pack25519.Pack | user/libssh/tweetnacl.c:295-318 | for all limbs up to 2^62 in magnitude, the 32 octets hold the one number below 2^255 - 19 that agrees with the element |
| Pack25519.CarExact | user/libssh/tweetnacl.c:300-302 | the third carry round leaves every limb within sixteen bits, with nothing left over |
| Pack25519.SubtractPrime | user/libssh/tweetnacl.c:304-311 | the sixteen limbs of the difference with 2^255 - 19, all but the top one within sixteen bits |
| Pack25519.Reduce | user/libssh/tweetnacl.c:303-313 | one turn takes 2^255 - 19 off exactly when the number is not below it |
| Pack25519.PackDecides | user/libssh/tweetnacl.c:295-326 | two packed elements are the same octets exactly when they agree modulo 2^255 - 19 |
| Pack25519.Differs | user/libssh/tweetnacl.c:320-326 | true exactly when the two elements differ modulo 2^255 - 19 |
| Pack25519.Unpack | user/libssh/tweetnacl.c:335-340 | the number in the octets without their top bit, in limbs of sixteen bits |
| Pack25519.UnpackPacked | user/libssh/tweetnacl.c:295-340 | packed octets have a clear top bit, and unpacking them gives the element back modulo 2^255 - 19 |
| Pack25519.PackUnpacked | user/libssh/tweetnacl.c:295-340 | packing what was unpacked gives the octets back exactly when they held a number below 2^255 - 19 |
| HeapAllocator.Allocator.Kmalloc | kernel/kernel/mm/heap.c:106-223 | for every 64-bit size: what the caller relies on (nothing is written past the heap, at most one expansion, NULL leaves the heap as it was, a pointer has all its bytes in a block of an ordered list) holds exactly when the size is at most 2^64 - 4128, or the call fails at once for want of a free block and of frames |
| HeapAllocator.RightIff | kernel/kernel/mm/heap.c:106-223 | the same of every answer the loop can give, whatever the expansions do to the list |
| HeapAllocator.SmallAnswers | kernel/kernel/mm/heap.c:106-223 | up to 2^64 - 4128: the first of the smallest free blocks that fit, split when a header and 16 bytes remain, after at most one expansion; NULL exactly when nothing fits and the frames do not suffice |
| HeapAllocator.WrappedAnswers | kernel/kernel/mm/heap.c:142-198 | where the expansion wraps to nothing, no page is mapped and the call stores the header of the new block at the end of the heap, past the last mapped address, before the list changes |
| HeapAllocator.FailsAt | kernel/kernel/mm/heap.c:142-198 | so at 2^64 - 4112 bytes, on the heap as it starts and with all of it in use |
| HeapAllocator.Allocator.FindBest | kernel/kernel/mm/heap.c:119-135 | the first of the smallest free blocks that fit, or none fits |
| HeapAllocator.Allocator.Expand | kernel/kernel/mm/heap.c:141-198 | the new space joins the list in 64-bit arithmetic exactly when the frames suffice, and a failed attempt uses up every frame |
| HeapAllocator.Allocator.Kfree | kernel/kernel/mm/heap.c:232-259 | the list with the block freed and every run of free neighbours merged |
| HeapAllocator.Allocator.constructor | kernel/kernel/mm/heap.c:72-82 | one free block that covers the initial heap |
| HeapAllocator.GrownFits | kernel/kernel/mm/heap.c:141-198 | after an expansion some block fits |
| HeapAllocator.FreeUndoes | kernel/kernel/mm/heap.c:204-256 | freeing right after an allocation without expansion gives the old list back |
| HeapAllocator.FreedLive | kernel/kernel/mm/heap.c:232-259 | freeing takes exactly its block out of use |
| HeapAllocator.NothingLive | kernel/kernel/mm/heap.c:245-256 | a heap with nothing in use is one free block from base to end |
| Heap.TakenInOrder | kernel/kernel/mm/heap.c:204-217 | taking a block keeps the tiling, the alignment and that no two neighbours are free |
| Heap.TakenLive | kernel/kernel/mm/heap.c:204-217 | the blocks in use are the old ones and the one handed out |
| Heap.GrownInOrder | kernel/kernel/mm/heap.c:168-194 | growing keeps the tiling, the alignment and that no two neighbours are free |
| Heap.RoundedCovers | kernel/kernel/mm/heap.c:112-112 | rounding to 16 covers the request exactly up to 2^64 - 16 |
| Heap.GrowthCovers | kernel/kernel/mm/heap.c:142-148 | the expansion covers request and header exactly when the sums do not wrap |
| HeapBlocks.CoalescedApart | kernel/kernel/mm/heap.c:245-256 | after merging no two neighbours are free |
| HeapBlocks.CoalescedTiles | kernel/kernel/mm/heap.c:245-256 | merging keeps the tiling |
| HeapBlocks.CoalescedLive | kernel/kernel/mm/heap.c:245-256 | merging touches no block in use |
| HeapBlocks.TilesDisjoint | kernel/kernel/mm/heap.c:106-223 | blocks of a tiling never overlap |
| HeapRun.Run | kernel/kernel/mm/heap.c:106-259 | any run from an empty heap goes through the states of a run, one answer to a call, and stops early only in front of a request that is not safe |
| HeapRun.StepKeeps | kernel/kernel/mm/heap.c:106-259 | a safe request or a release keeps the list in order and the live pointers backed with the bytes asked for, and hands out no live pointer |
| HeapRun.RunKeeps | kernel/kernel/mm/heap.c:106-259 | in every state of every run so, and when no pointer is live the heap is one free block |
| HeapRun.OwnsApart | kernel/kernel/mm/heap.c:106-259 | live pointers are 16-aligned, inside the heap and pairwise apart by at least a header |
| Bitmap.Words.FindRun | kernel/kernel/mm/pool.c:56-79 | the lowest run of the requested length, or there is none |
| Bitmap.Words.FindFree | kernel/kernel/mm/pmm.c:172-203 | the scan that skips full bytes finds the lowest free page, or there is none |
| Bitmap.Words.Set | kernel/kernel/mm/pmm.c:34-42 | exactly one page changes |
| Pmm.Init | kernel/kernel/mm/pmm.c:45-157 | for any map and kernel: stops exactly when no region offers a place or the first one offered is address 0, writes outside the bitmap exactly when the pages of kernel or bitmap run past it, and otherwise the free pages are exactly those not set aside among the pages freed for usable regions, as many as fit into each region's size from the page of its start on |
| Pmm.PagesUsableIff | kernel/kernel/mm/pmm.c:124-135 | the pages freed for regions consist of usable bytes exactly when every region that starts off a page boundary has usable bytes before it on its first page |
| Pmm.RegionAloneIff | kernel/kernel/mm/pmm.c:124-135 | for one region alone exactly when it starts on a page boundary |
| Pmm.OffBoundary | kernel/kernel/mm/pmm.c:124-135 | a region of one page at 0x1800 frees page 1, whose first byte is not usable |
| Pmm.PlaceBitmap | kernel/kernel/mm/pmm.c:86-109 | what the first region with a place offers, in a usable region and off the kernel |
| Pmm.SetAsideCovers | kernel/kernel/mm/pmm.c:140-154 | whole pages set aside keep the last byte of a range exactly when it does not run over them |
| Pmm.KernelFreeIff | kernel/kernel/mm/pmm.c:138-154 | a page with a byte of the kernel is free after start-up exactly when the kernel runs over into a usable page that is not the bitmap's |
| Pmm.Allocator.AllocPage | kernel/kernel/mm/pmm.c:167-208 | the lowest free page is marked, or none is free |
| Pmm.Allocator.AllocPages | kernel/kernel/mm/pmm.c:246-291 | the lowest run of the length is marked, or there is none |
| Pmm.Allocator.FreePages | kernel/kernel/mm/pmm.c:299-326 | exactly those pages become free, and nothing happens at 0, off a boundary or past the end |
| PmmRun.Run | kernel/kernel/mm/pmm.c:167-326 | any run goes through the states of a run, one answer to a call |
| PmmRun.StepKeeps | kernel/kernel/mm/pmm.c:167-326 | a call keeps live allocations apart, inside, and exactly on the pages marked beyond those never for allocation, and hands out no live page |
| PmmRun.RunKeeps | kernel/kernel/mm/pmm.c:167-326 | in every state of every run so, and no page is lost when page 0 is not for allocation |
| PmmRun.LosesIff | kernel/kernel/mm/pmm.c:195-291 | pages are marked for a call that answers 0 exactly when so many are free from page 0 on |
| PmmRun.Boot | kernel/kernel/mm/pmm.c:45-326 | from pmm_init through any run, in every state each byte of a live allocation is on a page freed for a usable region, off the kernel, off the bitmap and in no other live allocation, provided kernel and bitmap do not run over their pages; and it is usable memory if regions off a page boundary have usable bytes before them |
| PmmRun.LiveOffReserved | kernel/kernel/mm/pmm.c:138-154 | no byte of a live allocation belongs to a kernel or bitmap that does not run over its pages |
| Pool.Window.Alloc | kernel/kernel/mm/pool.c:98-146 | the lowest run of pages, and failure exactly for a bad size, no run or no frames |
| Pool.Window.Free | kernel/kernel/mm/pool.c:148-185 | exactly the pages of the allocation are cleared |
| Pool.PagesForCovers | kernel/kernel/mm/pool.c:106-113 | the page count covers the size exactly when rounding does not wrap |
| Pool.Run | kernel/kernel/mm/pool.c:98-185 | any run from an empty window goes through the states of a run, one answer to a call |
| Pool.RunKeeps | kernel/kernel/mm/pool.c:98-185 | in every state of every run a page is marked exactly while a live run holds it |
| Pool.GoodApart | kernel/kernel/mm/pool.c:98-185 | in such a state live pointers lie in the window with all bytes asked for, and no two share a byte |
| Circular.Ring.Room | kernel/kernel/net/udp.c:119-119 | the unsigned 32-bit formula gives the room left, for every ring size up to 2^31 |
| UdpSocket.Socket.Input | kernel/kernel/net/udp.c:81-172 | a datagram is queued whole or dropped whole, and dropped exactly when its record does not fit |
| UdpSocket.Socket.Receive | kernel/kernel/net/af_inet.c:251-301 | the oldest datagram's source and payload, cut to the length asked, with the rest discarded |
| UdpSocket.Run | kernel/kernel/net/af_inet.c:251-301 | any run of arrivals and receive calls answers, and leaves the queue, as a plain queue of datagrams of that capacity does |
| UdpSocket.Fifo | kernel/kernel/net/af_inet.c:251-301 | over every run the k-th answered receive sees the k-th accepted datagram, cut to its length, and the queue holds the accepted ones not yet seen |
| Tty.Device.Write | kernel/drivers/tty/tty.c:399-437 | as many bytes as fit join the queue with CR as NL, the counters stay right, and the echo keeps what fits |
| Tty.Device.Read | kernel/drivers/tty/tty.c:440-476 | a non-empty prefix that stops at the first newline or at the size asked, with both counters kept right |
| Tty.Device.Echo | kernel/drivers/tty/tty.c:51-57 | appended to the output queue unless that is full |
| Tty.Run | kernel/drivers/tty/tty.c:399-476 | any run of writes and reads answers, and leaves the queue, as a plain byte queue of that capacity does |
| Tty.Conserved | kernel/drivers/tty/tty.c:399-476 | over every run what was read followed by what is queued is what was there and what the writes took, with CR as NL |
| Tty.JammedIff | kernel/drivers/tty/tty.c:412-453 | a canonical device refuses every write and every read exactly when its queue is full without a newline |
| Tty.JammedForever | kernel/drivers/tty/tty.c:412-453 | then no run of events changes the queue or reads a byte |
| Tty.RunJamsIff | kernel/drivers/tty/tty.c:412-453 | a run ends so exactly when one of its writes filled the queue with no newline or carriage return in reach |
| Tty.JamReached | kernel/drivers/tty/tty.c:399-437 | from an empty queue one line of its capacity is enough |
| Checksum.Calculate | kernel/kernel/net/ip.c:38-64 | the complement of the end-around sum, for up to 65537 words without a wrap |
| Checksum.FoldStep | kernel/kernel/net/ip.c:57-60 | each fold makes the sum smaller and keeps its end-around value |
| Checksum.NoWrap | kernel/kernel/net/ip.c:40-48 | 65537 words never wrap the 32-bit sum |
| Checksum.StoredPasses | kernel/kernel/net/ip.c:127-135 | storing the checksum in its zeroed aligned field makes the recomputed one 0 |
| Checksum.PassesIff | kernel/kernel/net/ip.c:229-234 | a stored field passes exactly when it agrees with the checksum modulo 65535 |
| IpHeader.Exchange | kernel/kernel/net/ip.c:76-268 | a packet from ip_output to ip_input arrives with protocol, source and payload exactly when it fits the MTU and the host is the destination, the destination is broadcast or the host has no address |
| IpHeader.WordErrorIff | kernel/kernel/net/ip.c:229-234 | overwriting any header word but the first of a packet that passes is noticed by the checksum exactly when old and new word differ modulo 65535 |
| IpHeader.Build | kernel/kernel/net/ip.c:76-139 | refused exactly above the MTU; otherwise each header field reads back as asked, the checksum verifies, and the payload follows |
| IpHeader.Check | kernel/kernel/net/ip.c:204-268 | delivered exactly when header, checksum, length and address all hold; each other outcome has its own code with its own exact condition; the payload is what lies between header and total length |

## Left out

- Device errors and exhausted memory inside file operations: the block device is a reliable array of sectors.
- File holes: writes that start past the end of the file, where page and cluster contents are unspecified.
- Vfs.Session: ends with the first operation the volume has no room for; what that operation leaves in cache and store is stated for a flush only (Vfs.Flush).
- Vfs.Read: with no first cluster to be had fat32_read takes cluster 0 for the file; what it then copies is not modelled.
- Vfs.Close: the parent directory is a file of the volume other than the one closed, and a cluster holds whole directory entries.
- Nodes without a block size, directories and mount points in vfs.c: plain delegation.
- The truncating branch of fat32_open: it frees the head cluster but keeps it as the node's first cluster.
- Names longer than 255 characters in fat32.c, and directory entries at the level of sectors: LfnCode works on the entries of the clusters, with the numbers of free clusters and of free FAT entries past them as parameters.
- Reclamation of socket memory: sockets of the step model are never deallocated, and a session socket that accept gives up is left unused instead of closed.
- AfLocalWakeups.RunLosesIff: sleepers are main threads of listed processes, the ones wakeup visits; the scheduler behind wait is not modelled.
- Binding and address lookup of local sockets, and the copy of the peer's address in recvfrom.
- AES rounds, the SHA-256 compression body, the Montgomery ladder, Ed25519 and the rest of TweetNaCl.
- Sha256.Context.Update: the sum of buffered and new octets is not wrapped, which needs a buffer of almost 2^64 octets.
- Channel messages and user authentication of the SSH server: only their effect on the session state is modelled.
- HeapAllocator.WrappedAnswers: ends with the store past the mapped heap; the page fault it leads to is not modelled.
- HeapAllocator.Allocator.Kmalloc: the frames that are left are fewer than the addresses above the heap, and page-table frames taken by vmm_map_page are not counted.
- Pmm.Init: sums of addresses and sizes are not wrapped.
- PmmRun.Boot: live allocations are given back with the page and count they were handed out with.
- Page tables, spinlocks, interrupts, drivers, TCP, ARP, DHCP, ICMP and the demultiplexing of ports.
- SshRekey.Run: the sender changes keys right behind NEWKEYS, as section 7.3 of RFC 4253 asks; the server's own outbound side changes when it processes the client's NEWKEYS, and SshRekey.LateIff says when that shows.
- Changing the canonical mode of a terminal while bytes are queued.
