# Network programming labs: algorithms and protocols

Dafny models of the algorithms and protocols in this repository, with proofs of what they are for: shortest
routes in a maze, reliable file transfer over a lossy link (three designs), a checksum's error detection, a
backtracking solver, and a chat server. Run `dafny verify dfyconfig.toml` to verify everything.

- `Maze`, `AStar`, `Explorer`: the A\* solver and the depth-first explorer of `lab3`. A route is a string of
  W/A/S/D moves that is replayed on the grid; "shortest" and "no route" speak about all such strings. The
  search is proved for any consistent heuristic, and the Manhattan distance is shown to be one.
- `Crc`, `Packets`, `FileServer`, `Transfer`: the protocol of `lab6/src`. `FileServer.Server` has the server's
  vectors as fields; its methods compute functions on states, and `Transfer` puts client, server and network
  together as a step system and proves its properties over all runs. The network keeps every packet ever sent
  and delivers any of them any number of times, so loss, duplication and reordering are all included.
  `Crc` shows that the byte-wise loop on machine words is the bit-serial division, and which bursts it detects.
- `Queens`: the in-place solver of `lab7`, for a board of any size.
- `SeanCodec`, `SeanLayout`, `SeanClient`, `SeanSender`, `SeanServer`, `SeanTransfer`: the packed transfer of
  `lab6/others/Sean`. `SeanSender` has the client's packet table and its rounds of sending again, `SeanTransfer` puts
  both sides together for any packets that the client can send.
- `Masking`, `ChatState`, `Chat`, `ChatEffects`, `ChatServer`: the chat server of `homework2`. `ChatState` gives each
  command as a function, `ChatServer.Server` has the methods that compute them. `Chat` proves what every sequence of
  commands keeps, `ChatEffects` what each command changes: whose password counts, whose room it is, what its history is.
- `Star`, `Adler`: the pipeline of `lab6/others/Star` and the checksum of `lab6/others/KJL`.

## Premises

- The files do not change during a transfer. In `lab6/src` there are 1000 files of at most 48 packets each.
- In `lab6/src` the link may damage a packet by one burst of at most 16 bits under the checksum, or in the
  checksum field alone. The length field is outside the checksum and stays intact. FINISH is not forged.
  Acknowledgements have no checksum: the bitmap and the file number the client acts on may be anything, which
  also covers the uninitialised bitmap of `init_send`.
- Mazes are rectangular and not empty. For the explorer no walk through cells known to be open
  comes to the edge.
- The board of `Queens` is square and its cells are `Q` or `.`. Nothing is assumed about the given queens.
- In `lab6/others/Sean` all files exist and hold bytes in 0x20..0x7F, both metadata packets come before the first
  chunk, and all chunks fit the tables and the two byte buffers. The size of a single file is not bounded.
- In `lab6/others/Star` decompressing undoes compressing, and the chunk numbers fit the bitmap.
- Chat commands are already split into words, and no word is empty.

## Where a promise fails, and exactly when it holds

- Queens that attack each other in the given position are never noticed. The solver reports success if and only if
  every row can be filled without adding an attack, and then the result is a solution if and only if the given queens
  were peaceful (`Queens.Solver.Solve`). Two full rows of two queens are accepted although there is no solution
  (`Queens.AttackingQueensAccepted`).
- In `lab6/others/Sean` a file is on the server's disk as the client has it if and only if it is shorter than 65536
  bytes, and the first packet that claims to be chunk 0 is chunk 0 or the file has only blanks there
  (`SeanTransfer.Transfer`). Two things are behind this.
  - The metadata keeps a size in 16 bits, and only so many bytes are read and sent: a file of 65536 letters arrives
    empty (`SeanClient.LongFileIsCut`).
  - The loop that skips reported chunks does not stop at the last one. When no chunk from the counter on is missing,
    the client sends an entry of its table that was never filled, which the server takes for chunk 0
    (`SeanSender.PickedEntry`). If chunk 0 is lost and the report of the last chunk comes in, a letter arrives as a
    blank (`SeanTransfer.LostChunkArrivesBlank`). With the skip bounded by the number of chunks a round sends
    genuine chunks only, and is otherwise the same (`SeanSender.GuardedRoundGenuine`, `SeanSender.OneStray`).
- A file countdown of `lab6/others/Sean` reaches zero if and only if all chunks of the file are in and no later
  file ends in the same chunk (`SeanLayout.ZeroIffComplete`); with files of at least `CHUNK_BUF` bytes it counts
  the missing chunks. Other files may only be written after the main loop: of two small files in one chunk the first
  one waits although everything is in (`SeanLayout.SmallFileWaits`).
- A group of 17 characters survives packing if and only if all of them are in 0x20..0x7F
  (`SeanCodec.RoundTrip`).
- Differences inside 17 consecutive bits are no longer always detected: the checksum misses one if and only if it is
  the generator itself at that place (`Crc.SeventeenBitBursts`). The bytes 00 00 00 and 03 40 01 have the same
  checksum (`Crc.ThreeBytesCollide`).
- The chat server ends if and only if a logged-in user in the lobby enters or closes a room whose number does not fit
  an int (`Chat.EndsOnlyOnNumber`): `register a b`, `login a b`, `enter-chat-room 2147483648`
  (`Chat.ThreeCommandsEnd`).

The comment in `lab6/src/header.hpp` calls the polynomial CRC-CCITT; the code uses 0xA001, the reflected form of
0x8005, and the model follows the code.

## Model

| member | source | states |
|---|---|---|
| AStar.SolveMazeWithAStar | lab3/MazeSolver.py:20-75 | A returned string is a route from the last `*` to the last `E`, no route is shorter, and it ends in a line end; the empty list means that a mark is missing or that no route exists; the search ends |
| AStar.PoppedIsOptimal | lab3/MazeSolver.py:52-62 | The cell with the least queue entry has its final cost: no route to it is shorter, although stale entries stay queued and the start was queued with priority 0 |
| AStar.ClosedOrFrontier | lab3/MazeSolver.py:62-73 | Every route ends in a closed cell whose cost is at most its length, or crosses a discovered open cell at most as costly as the way there |
| AStar.ManhattanConsistent | lab3/MazeSolver.py:21-23 | Along any route the heuristic falls by at most the route's length |
| AStar.ManhattanAttained | lab3/MazeSolver.py:21-23 | In a maze without walls the heuristic is the length of a shortest route |
| AStar.Turn | lab3/MazeSolver.py:52-73 | Each turn finds the exit with its least cost, or closes a new cell, or only removes a stale entry; the search invariant is kept |
| AStar.Close | lab3/MazeSolver.py:62-73 | Closing a cell that is not the exit and looking at its neighbours keeps the search invariant; a new cell is closed or only the queue shrinks |
| AStar.Relax | lab3/MazeSolver.py:64-73 | Looking at a neighbour only lowers costs, never touches a closed cell, brings the neighbour within one step, and pushes nothing if it was already |
| AStar.PushKeepsInvariant | lab3/MazeSolver.py:68-73 | A push keeps discovered = open or closed, parents closed one step below, and closed costs optimal |
| AStar.ClosedNeighborIsCheap | lab3/MazeSolver.py:64-66 | Skipping a closed neighbour is safe: it costs at most one more than the current cell |
| AStar.CostIsAttained | lab3/MazeSolver.py:68-73 | The recorded cost of a discovered cell is the length of a real route to it |
| AStar.ExhaustedMeansNoRoute | lab3/MazeSolver.py:52-75 | With an empty queue no route reaches the exit |
| AStar.ParentChain | lab3/MazeSolver.py:55-58 | Walking the parents from the exit reaches the start in exactly the recorded cost |
| AStar.ReadBack | lab3/MazeSolver.py:55-60 | The moves read back replay from the start to the exit and are as few as possible |
| AStar.ChainReplays | lab3/MazeSolver.py:3-17 | The move string of a chain of neighbouring cells replays from its first to its last cell |
| AStar.GetNeighbors | lab3/MazeSolver.py:25-32 | Exactly the passable cells one move away |
| AStar.FindMarks | lab3/MazeSolver.py:34-42 | The scan returns the last start mark and the last exit mark |
| Maze.LastBeforeIsLast | lab3/MazeSolver.py:37-42 | The mark found is one, and every other one comes earlier in row-major order |
| Maze.LettersLead | lab3/MazeSolver.py:3-17 | D is to the right, S is down, A and W lead back |
| Explorer.Explorer.GetPath | lab3/lab3_4.py:42-75 | A path is a route however the unknown cells turn out, to the exit or to a cell beside an unknown one; None means that no reachable cell is the exit or has an exit or an unknown cell beside it; the loop ends |
| Explorer.Explorer.Look | lab3/lab3_4.py:56-73 | The four directions: an answer with its sure path, or the current cell is finished and all its open neighbours are found |
| Explorer.SearchedIsSure | lab3/lab3_4.py:59-73 | A walk through cells known to be open is a route in every maze that fills in the unknown cells |
| Explorer.ReachableIsFinished | lab3/lab3_4.py:45-75 | When all found cells are finished, so is every cell that any route reaches |
| Crc.CalculateCRC | lab6/src/header.hpp:59-76 | The byte-wise loop on 16-bit words, with its shifts and exclusive ors, computes the bit-serial checksum of the message bits |
| Crc.TapsValue | lab6/src/header.hpp:66-72 | The bits of 0xA001 are the taps of the bit-serial register |
| Crc.ShiftWord | lab6/src/header.hpp:66-72 | One turn of the inner loop on a word is one shift of the register |
| Crc.WordAtOnce | lab6/src/header.hpp:63-72 | Adding up to 16 bits at once and shifting equals feeding them one by one |
| Crc.ZeroByteChecksum | lab6/src/header.hpp:59-76 | From 0xFFFF the checksum of one zero byte is 0x40BF |
| Crc.ChainedCalls | lab6/src/server.cpp:102-103 | Two chained calls equal one call on the concatenation |
| Crc.BurstDetected | lab6/src/header.hpp:59-76 | Byte sequences that differ only inside 16 consecutive bits never have the same checksum |
| Crc.SeventeenBitsCollide | lab6/src/header.hpp:59-76 | The bound of 16 bits is exact: from every register a run of 17 bits collides with its partner, which differs by the generator, and with no other run |
| Crc.SeventeenBitBursts | lab6/src/header.hpp:59-76 | Two byte sequences that differ only inside 17 consecutive bits have the same checksum exactly when one run is the partner of the other |
| Crc.ThreeBytesCollide | lab6/src/header.hpp:59-76 | Three given bytes and three others get the same checksum from every initial value |
| Packets.ChunksRebuildFile | lab6/src/client.cpp:60-75 | The size/1200+1 chunks laid end to end give the file, also when the last one is empty |
| Packets.ChunkAt | lab6/src/client.cpp:60-75 | Every chunk but the last has 1200 bytes, and byte j of chunk i is byte 1200 * i + j of the file |
| Packets.SendFile | lab6/src/client.cpp:42-84 | Sends exactly the chunks of the file that the bitmap does not mark, in increasing order, each packet genuine although one buffer is reused |
| Packets.ReplyCovers | lab6/src/client.cpp:62-66 | Every chunk not marked as stored is in the reply |
| Packets.CorruptedIsRejected | lab6/src/server.cpp:102-109 | A burst of up to 16 bits under the checksum, or any change of the checksum, makes the server drop the packet |
| Packets.HeaderWrites | lab6/src/server.cpp:102 | The six bytes before the checksum are the three 16-bit fields, each with its low byte first |
| Packets.SameHeader | lab6/src/server.cpp:102 | Two headers are equal exactly when the three fields are |
| Packets.ChangedFieldIsRejected | lab6/src/server.cpp:102-109 | An intact packet of which one of the three fields changes, and nothing else, is dropped |
| FileServer.Server.ReceivePacket | lab6/src/server.cpp:101-157 | The state for every packet: damaged, first of its file, late, new, repeated or completing; a damaged one changes nothing; it goes on receiving exactly when the packet is intact and its file still incomplete |
| FileServer.Server.StoreFile | lab6/src/server.cpp:35-53 | The stored file is the concatenation of its chunks |
| FileServer.Server.Complete | lab6/src/server.cpp:137-142 | The flag says that no chunk is missing |
| FileServer.Server.UpdateWindow | lab6/src/server.cpp:159-167 | start_file becomes the first unsaved index from the old one on, up to the sentinel 1000, and end_file the lesser of start_file + 1000 and 1000 |
| FileServer.Server.BuildAcks | lab6/src/server.cpp:183-201 | The files named are exactly the unsaved ones of the window, in increasing order; the bits below the packet count are the stored bits |
| Transfer.FilesArriveIntact | lab6/src/server.cpp:93-181 | In every run each file on disk is the client's file; once FINISH is sent, or the client has stopped on it, all files are there |
| Transfer.StepKeepsInvariant | lab6/src/server.cpp:93-202 | Every step of client, server or network keeps the invariant and loses nothing held |
| Transfer.DeliveredIntactIsGenuine | lab6/src/server.cpp:96-109 | The only packets that pass the checksum are ones that the client sent |
| Transfer.IndicesInRange | lab6/src/server.cpp:110-183 | In every reachable state, for any packet that can arrive, the indices that the server uses unchecked are in range |
| Transfer.ReceiveOwnFile | lab6/src/server.cpp:110-153 | After a genuine packet its chunk is held, its file is still right, and a late packet of a saved file changes nothing |
| Transfer.ReceiveFrame | lab6/src/server.cpp:110-153 | A packet changes nothing of any other file |
| Transfer.WindowKeepsServer | lab6/src/server.cpp:159-168 | The window is empty only when all files are saved |
| Transfer.FinishIffAllSaved | lab6/src/server.cpp:159-181 | The server answers with FINISH and ends if and only if all files are saved |
| Transfer.AnswerReportsUnsaved | lab6/src/server.cpp:183-201 | Any other answer has, for each file not on disk, a bitmap that reports exactly the chunks held, and nothing for the files on disk |
| Transfer.StoredChunkStays | lab6/src/server.cpp:126-129 | A stored chunk keeps its bytes whatever comes under its number |
| Transfer.NoAckWithholdsData | lab6/src/server.cpp:183-200 | A bit set below the packet count in any acknowledgement, however old, names a chunk that the server holds now |
| Transfer.AnsweredAckSavesFile | lab6/src/client.cpp:62-66 | Over runs: if an acknowledgement for f was under way at some state, and every packet of a reply to it is received by some step between that state and a later one, in any order and with any other steps between, then in the later state f is saved and right |
| Transfer.ReceiveMeasure | lab6/src/server.cpp:112-153 | The number of missing chunks falls by exactly one for a new chunk and otherwise stays |
| Transfer.StepMeasure | lab6/src/server.cpp:93-202 | No step raises the number of missing chunks or lowers it by more than one |
| Transfer.GrowsAlongRun | lab6/src/server.cpp:159-167 | Over any stretch of a run nothing held is lost and start_file does not go back |
| Queens.Solver.constructor | lab7/src/solver.cpp:185-195 | The flag arrays agree with the queens on the board |
| Queens.Solver.CheckQueen | lab7/src/solver.cpp:70-85 | True exactly when no queen is on a diagonal through the cell |
| Queens.Solver.SolveNQueen | lab7/src/solver.cpp:88-120 | Success exactly when every row can be filled without adding an attack, and then it has done so, keeping the given queens. Failure: table and flags are as on entry and no N peaceful queens extend the board. Flags agree with the board throughout |
| Queens.Solver.Solve | lab7/src/solver.cpp:203 | The call from row 0: exactly when it succeeds, for all given queens; for peaceful ones, exactly when a solution extends them; what it finds is a solution exactly when they were peaceful |
| Queens.FillableIffCompletable | lab7/src/solver.cpp:88-120 | For peaceful given queens, filling the rows without adding an attack is extending them to N peaceful queens |
| Queens.AttackingQueensAccepted | lab7/src/solver.cpp:185-203 | A board of attacking queens meets the condition of success although no solution exists |
| Queens.FreeCellDecides | lab7/src/solver.cpp:104-117 | A cell that no given queen attacks leads to a filling exactly when the board with a queen on it can be filled |
| Queens.SolutionFillsRowsAndColumns | lab7/src/solver.cpp:88-120 | N peaceful queens: exactly one in every row and in every column |
| Queens.FourQueens | lab7/src/solver.cpp:70-85 | A known solution for side 4 is one |
| Queens.SomeColumnWorks | lab7/src/solver.cpp:97-119 | If the board can be filled, some column of any row leads there |
| SeanCodec.RoundTrip | lab6/others/Sean/server.cpp:84-94 | Decoding an encoded group of 17 characters gives it back exactly when all are in 0x20..0x7F |
| SeanCodec.ConvBounded | lab6/others/Sean/client.cpp:67-76 | For printable characters no intermediate value reaches 2^112 |
| SeanCodec.SeventeenFitInFourteen | lab6/others/Sean/generic.h:12-14 | 96^17 is at most 256^14 |
| SeanCodec.ChunkRoundTrip | lab6/others/Sean/client.cpp:65-77 | A whole printable chunk comes through unchanged |
| SeanCodec.GroupPlace | lab6/others/Sean/client.cpp:67-76 | Group j of a chunk travels in bytes 14 * j to 14 * j + 13 |
| SeanCodec.EncodeGroup | lab6/others/Sean/client.cpp:68-76 | The two digit loops write the 14 bytes of the group's number, and nothing else |
| SeanCodec.DecodeGroup | lab6/others/Sean/server.cpp:85-93 | The two digit loops write the 17 characters of the number, and nothing else |
| SeanCodec.PackChunk | lab6/others/Sean/client.cpp:65-77 | The loop over the groups packs the whole chunk |
| SeanCodec.UnpackChunk | lab6/others/Sean/server.cpp:84-94 | The loop over the groups unpacks the whole chunk in its place |
| SeanLayout.ZeroIffComplete | lab6/others/Sean/server.cpp:96-102 | A countdown is zero exactly when all chunks of the file's interval are in and no later file ends in the last one |
| SeanLayout.SmallFileWaits | lab6/others/Sean/server.cpp:68-79 | Two small files in one chunk, everything in, and the first countdown is not zero |
| SeanLayout.BigFilesCountExactly | lab6/others/Sean/server.cpp:68-79 | With files of at least CHUNK_BUF bytes no two end in one chunk and the countdown is the number of missing chunks |
| SeanLayout.SpannerFinds | lab6/others/Sean/server.cpp:68-75 | The first table names the file that runs past the end of the chunk, and no other |
| SeanLayout.EnderFinds | lab6/others/Sean/server.cpp:68-76 | The second table names the last file that ends in the chunk, and no other |
| SeanLayout.PaddingProtects | lab6/others/Sean/client.cpp:45-50 | Every chunk but the last is printable, and the last holds no byte of a real file |
| SeanClient.MergeFiles | lab6/others/Sean/client.cpp:34-50 | The size fields hold the sizes modulo 2^16, and the buffer holds so many bytes of each file, end to end, and then the padding |
| SeanClient.ClientBufferIsSource | lab6/others/Sean/client.cpp:34-50 | The pieces of the buffer that the sizes cut out are what was kept of the files |
| SeanClient.LongFileIsCut | lab6/others/Sean/client.cpp:37-43 | A file of 65536 letters and 999 empty ones meet every demand of the transfer, and nothing of the letters is sent |
| SeanSender.FillTable | lab6/others/Sean/client.cpp:54-77 | The entries below the chunk count are the packed chunks, two hold the metadata, all others stay empty and claim to be chunk 0 |
| SeanSender.PickedEntry | lab6/others/Sean/client.cpp:93-98 | The packet picked is the least chunk from k on that is not reported, exactly when there is one; otherwise it is an unfilled entry or metadata again |
| SeanSender.ResendRound | lab6/others/Sean/client.cpp:91-123 | The inner loop, with the step back when no packet is due and the reports read in between, sends the packets of the round |
| SeanSender.RoundSendable | lab6/others/Sean/client.cpp:91-123 | Whatever the clock and the reports, a round sends genuine chunks, the unfilled entry or metadata, and nothing else |
| SeanSender.RoundCovers | lab6/others/Sean/client.cpp:91-101 | With the clock always ready a round sends every chunk that is not reported |
| SeanSender.WaitingTurn | lab6/others/Sean/client.cpp:99-106 | A turn in which no packet is due and nothing is reported changes nothing, as long as a chunk is missing |
| SeanSender.GuardedRoundGenuine | lab6/others/Sean/client.cpp:91-123 | If the skip stopped at the last chunk, a round would send genuine chunks only |
| SeanSender.OneStray | lab6/others/Sean/client.cpp:91-123 | A round sends what the bounded one sends and at most one packet more, at its end |
| SeanSender.StrayInSecondTurn | lab6/others/Sean/client.cpp:91-123 | With two chunks, the report of chunk 1 read right after sending chunk 0 makes the client send an unfilled entry next |
| SeanServer.Server.constructor | lab6/others/Sean/server.cpp:63-82 | The tables, positions and countdowns as the metadata determines them |
| SeanServer.ChunkTallied | lab6/others/Sean/server.cpp:96-102 | A first arrival keeps all countdowns right; a file is written exactly when its countdown reaches zero, once, with the right bytes |
| SeanServer.TallyTells | lab6/others/Sean/server.cpp:96-102 | In the loop a file is written at most once, with the right bytes, exactly when its interval is in and no later file ends in its last chunk; with files of at least CHUNK_BUF bytes exactly when its interval is in |
| SeanServer.Server.Receive | lab6/others/Sean/server.cpp:57-102 | For a new chunk or any duplicate: tables, countdowns, disk and buffer stay functions of the set of arrived chunks; which files are written by then, once and right; duplicates, metadata included, change nothing; done when nothing is missing |
| SeanServer.Server.WriteRest | lab6/others/Sean/server.cpp:119-125 | After the main loop every real file is on disk, and the files not yet written are written once |
| SeanServer.Server.Run | lab6/others/Sean/server.cpp:39-125 | For any order and duplicates: reception ends exactly when every chunk number has come, and then all real files hold the bytes that the first packet of each chunk brought, and every file was written exactly once |
| SeanServer.AllInWhenCounted | lab6/others/Sean/server.cpp:60-60 | The number of received packets is chunks + 2 exactly when every chunk is in |
| SeanTransfer.Transfer | lab6/others/Sean/server.cpp:39-125 | Client and server together, for all that the client can send: a file is the client's file exactly when it is shorter than 2^16 bytes, and the first packet that claims to be chunk 0 is chunk 0 or the file has only blanks there; otherwise its bytes in chunk 0 are blanks |
| SeanTransfer.SeenExpected | lab6/others/Sean/server.cpp:58-59 | Every packet the client can send is a repetition or the first of its chunk, and then brings the client's bytes, or blanks for chunk 0 if the unfilled entry was there first |
| SeanTransfer.LostChunkArrivesBlank | lab6/others/Sean/client.cpp:91-123 | One run of client and server at whose end a file of one letter is a blank |
| SeanCodec.ZeroChunk | lab6/others/Sean/server.cpp:84-94 | A packet of zeros unpacks to a chunk of blanks |
| Masking.MaskEffect | homework2/server.cpp:383-393 | After masking no filter word is left in any case, not even one masked earlier; the length stays; only characters inside an original occurrence change, to asterisks |
| Masking.MaskHides | homework2/server.cpp:383-393 | Each changed character lies in an occurrence of a filter word in the original text that is wholly asterisks now |
| Masking.MaskIsOnePass | homework2/server.cpp:386-392 | Searching and replacing until nothing is found equals one pass from the left that stars each occurrence and goes on behind it |
| Masking.FirstWordFirst | homework2/server.cpp:385-393 | The words are masked one after the other, the first one first |
| Masking.PassesUnchanged | homework2/chatroom.cpp:10-14 | A text passes the filter of a room unchanged exactly when none of the five words occurs in it, in any case |
| Masking.LowerLetters | homework2/server.cpp:383-386 | Each capital letter becomes its small one |
| Masking.LowerOthers | homework2/server.cpp:383-386 | No other character is changed |
| Masking.MaskTwice | homework2/server.cpp:383-393 | A second pass changes nothing |
| Masking.ReplaceDecreases | homework2/server.cpp:388-392 | Each replacement lowers the number of characters that are not asterisks, so the loop ends |
| Masking.MaskMessage | homework2/server.cpp:271-281 | The nested loops, with the lower-case copy kept in step, compute the masking |
| Chat.MembershipIndex | homework2/server.cpp:410-482 | After any commands a socket is mapped to a room exactly when the room exists and lists it; members are logged in; lists have no duplicates; no stored line or pin holds a filter word |
| Chat.RunInvariant | homework2/server.cpp:410-482 | Over every sequence of commands from any sockets the session and membership invariants hold |
| Chat.EndsOnlyOnNumber | homework2/server.cpp:150-159 | After any commands the server ends exactly on a room number that does not fit an int, given by a logged-in user in the lobby; room commands never miss their room, their user, or the user of any member |
| Chat.ThreeCommandsEnd | homework2/server.cpp:150-159 | After a registration and a login, entering room 2147483648 ends the server |
| Chat.SessionsOneToOne | homework2/server.cpp:24-79 | After any commands user names are unique, sockets and logged-in users correspond one to one, everyone else is offline |
| Chat.HandleKeeps | homework2/server.cpp:410-482 | Every command from any socket keeps the session and room invariants; this needs room commands and lobby commands to be routed apart |
| Chat.LoginKeeps | homework2/server.cpp:42-65 | A login keeps sessions one to one and touches no room |
| Chat.LogoutKeeps | homework2/server.cpp:67-79 | A logout outside all rooms leaves no member without a user |
| Chat.EnterKeeps | homework2/server.cpp:143-193 | Entering a new or existing room keeps map and lists inverse |
| Chat.CloseKeeps | homework2/server.cpp:216-249 | Closing a room takes exactly its members out of the map |
| Chat.LeaveKeeps | homework2/server.cpp:316-344 | Leaving erases the socket from list and map |
| Chat.ChatDelivered | homework2/server.cpp:394-407 | A chat line goes exactly once to every member, the sender included, to nobody else, and holds no filter word |
| Chat.PinDelivered | homework2/server.cpp:283-294 | A pinned message goes exactly once to every member and holds no filter word |
| ChatEffects.LoginDecided | homework2/server.cpp:42-65 | After any commands, a login from the lobby is welcomed exactly when the socket is not logged on, the name is not in use, and the password is the one with which the name was first registered; otherwise nothing changes |
| ChatEffects.AccountsByCommands | homework2/server.cpp:24-40 | After any commands the accounts are the names registered in the lobby, each with the password of its first registration |
| ChatEffects.AccountsAfter | homework2/server.cpp:24-125 | What any command from any socket changes in accounts, statuses and sessions, and that it changes nothing else there |
| ChatEffects.RoomsByCommands | homework2/server.cpp:143-249 | After any commands a room exists exactly when someone opened it and its owner has not closed it since; its number is from 1 to 100, its owner is who opened it, its history is the masked lines since then in order, its pin the last one set and not deleted |
| ChatEffects.RoomsAfter | homework2/server.cpp:143-249 | Rooms come only by entering a number from 1 to 100 and go only when their owner closes them |
| ChatEffects.RoomStays | homework2/server.cpp:251-408 | A room that stays keeps owner and filter; only a member's line is added to the history, at its end; only members pin and delete the pin |
| ChatEffects.MembersAfter | homework2/server.cpp:143-193 | A member is added only by entering and removed only by leaving |
| ChatEffects.EnterAnnounced | homework2/server.cpp:170-193 | Who enters is told the owner, the last lines and the pin; each other member gets one notice |
| ChatEffects.LastTenLines | homework2/server.cpp:173-177 | The lines shown are the last ten, or all if there are fewer |
| ChatEffects.LeaveAnnounced | homework2/server.cpp:334-342 | Each other member is told once who left |
| ChatEffects.CloseAnnounced | homework2/server.cpp:238-249 | Each member and the owner is told once that the room is closed |
| ChatEffects.JoinedSplits | homework2/server.cpp:375-379 | The words of a line are joined by one blank each: cutting it at the blanks gives them back |
| ChatEffects.RoomRefusals | homework2/server.cpp:150-237 | When entering and closing are refused, and with which answer |
| ChatEffects.AccountRefusals | homework2/server.cpp:24-125 | When the account commands are refused, and with which answer |
| ChatServer.Server.HandleCommand | homework2/server.cpp:410-482 | The routed command computes the new state and the messages sent, or the server ends on a number out of range |
| ChatServer.Server.LoginUser | homework2/server.cpp:42-65 | The scan over the registered users logs in exactly on a registered name and password not in use |
| ChatServer.Server.EnterChatRoom | homework2/server.cpp:143-193 | Creates or joins the room, tells the others, answers with the last ten lines and the pin |
| ChatServer.Server.CloseChatRoom | homework2/server.cpp:216-249 | Only the owner closes; all members leave the map and are told |
| ChatServer.Server.ExitChatRoom | homework2/server.cpp:316-344 | The first entry of the socket is erased and the rest are told |
| ChatServer.Server.SendMessage | homework2/server.cpp:371-408 | The masked line is added to the history and sent |
| Star.Transfer | lab6/others/Star/src/server.cpp:162-201 | For any order and repetition the receiver stops exactly when packets 0..n have come, and then the disk holds the sender's files |
| Star.DoneIffComplete | lab6/others/Star/src/server.cpp:162-162 | The loop condition fails exactly when the size and all chunks are there |
| Star.TakeHolds | lab6/others/Star/src/server.cpp:163-188 | The received state depends only on the set of packets that have come |
| Star.Receiver.ReceiveAll | lab6/others/Star/src/server.cpp:162-199 | Reception ends exactly when everything has come, with the size and all chunks |
| Star.Receiver.Rebuild | lab6/others/Star/src/server.cpp:75-79 | The first bytes of the rebuilt buffer are the compressed data |
| Star.Unpack | lab6/others/Star/src/server.cpp:104-118 | The walk over the headers ends on the last byte and gives back the files by number |
| Star.PackFiles | lab6/others/Star/src/client.cpp:112-122 | Headers and contents, file after file |
| Star.TwoFilesPacked | lab6/others/Star/src/client.cpp:112-122 | Two small files packed, byte by byte: number, size, contents, low bytes first |
| Star.PackedAt | lab6/others/Star/src/client.cpp:114-121 | At the offset of a file the packed bytes are its header and contents |
| Star.CutChunks | lab6/others/Star/src/client.cpp:143-154 | The chunk map has exactly the numbers 1..ceil(size / DATA_SIZE), each padded with zeros |
| Star.ChunkByte | lab6/others/Star/src/client.cpp:57-68 | Byte j of chunk k is byte (k - 1) * 1168 + j of the data, or zero after its end |
| Star.SizePacket | lab6/others/Star/src/client.cpp:143-145 | Packet 0, a size and a pointer as they lie in memory, reads back as the size |
| Adler.Adler32 | lab6/others/KJL/utils.hpp:27-45 | The two halves of the 32-bit word returned are the closed sums modulo 65521, and no 32-bit sum overflows |
| Adler.KnownChecksum | lab6/others/KJL/utils.hpp:27-45 | The checksum of abc is 0x024d0127 |
| Adler.Packed | lab6/others/KJL/utils.hpp:44 | Shift and or of two 16-bit halves give 65536 * b + a, and both halves can be read back |
| Adler.Concatenation | lab6/others/KJL/utils.hpp:36-44 | The checksum of a concatenation is determined by the two checksums and the second length |

## Left out

- Sockets, timeouts, pacing and file access: receiving is a step, the disk a map, sending a set or a log.
- The outermost loop of `lab6/src/server.cpp`: its iterations are the steps of `Transfer`, not a method.
- Liveness of `lab6/src`: a timeout at the outer receive sends nothing, so a run that loses everything stalls.
- The client of `lab6/src` ending on a file that cannot be opened is one step that may happen at any time.
- `heapq`: the queue is a multiset from which a least entry in the order of Python tuples is taken.
- Reading the board from the server's text, the progress counter and the moves sent in `lab7/src/solver.cpp`.
- The bits of the reports of the Sean server, which are sets of numbers here; the early close at `rem == 6`; the bytes of the padding entry.
- `SeanServer.Server.Receive`: the two fixed-size tables and the countdowns are sequence fields; only the byte buffer is an array.
- Chunks of the Sean transfer that come before the metadata.
- The acknowledgements and the erasing of confirmed chunks in the Star client; zstd itself.
- Pointers to users in the chat server: a user is named by the user name, which is unique. The sort in `list-user` only reorders the users and is not modelled; the texts of listings and errors are tags.
- Sockets that close without `exit`, and the reuse of their numbers, in the chat server.
- `homework1`, `lab1`, `lab2`, `lab4`, `lab5`, `lab8`, the scrapers and the submit scripts: input, output and plumbing.
